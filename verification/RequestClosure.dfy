/** What a request achieves: nothing that a requested action depends on has been passed over. */
module RequestClosure {
  import opened Collections
  import opened ProductsOnClients
  import opened ActionRequests

  /** The dependency has been seen to: its status was there at the start, or the required product is
      available and holds a real action, or has been added, or is the top product, which can lose its
      action after others have come to rely on it. */
  ghost predicate Met(rules: Rules, start: State, r: State, top: Id, d: ProductDependency) {
    Satisfied(start, d) || (AvailableFor(rules.available, d) && (Provided(r, d) || d.requiredProductId == top))
  }

  /** The required product holds a real action, or has been added. */
  ghost predicate Provided(r: State, d: ProductDependency) {
    Real(EntryOf(r, d.requiredProductId).action) || d.requiredProductId in r.added
  }

  /** Everything that the action of x depends on has been seen to. */
  ghost predicate Answered(rules: Rules, start: State, r: State, top: Id, x: Id) {
    x in r.entries && x in rules.dependencies ==>
      forall d :: d in rules.dependencies[x] && r.entries[x].action == Some(d.productAction) ==>
        Met(rules, start, r, top, d)
  }

  /** So for the products added from start to r. */
  ghost predicate NewAnswered(rules: Rules, start: State, r: State, top: Id) {
    forall x :: New(start, r, x) ==> Answered(rules, start, r, top, x)
  }

  /** What has been seen to stays so. */
  lemma MetLater(rules: Rules, start: State, mid: State, r: State, top: (Id, Action), d: ProductDependency)
    requires Evolved(rules, mid, r, top) && Met(rules, start, mid, top.0, d)
    ensures Met(rules, start, r, top.0, d)
  {
    assert Change(rules, mid, r, top, d.requiredProductId);
  }

  /** What is satisfied in between was so from the start. */
  lemma MetFromStart(rules: Rules, start: State, mid: State, r: State, top: (Id, Action), d: ProductDependency)
    requires Evolved(rules, start, mid, top) && ProperDependency(d) && Met(rules, mid, r, top.0, d)
    ensures Met(rules, start, r, top.0, d)
  {
    if Satisfied(mid, d) { SatisfiedBefore(rules, start, mid, top, d); }
  }

  lemma AnsweredLater(rules: Rules, start: State, mid: State, r: State, top: (Id, Action), x: Id)
    requires Evolved(rules, mid, r, top) && Answered(rules, start, mid, top.0, x) && New(start, mid, x) && x != top.0
    ensures Answered(rules, start, r, top.0, x)
  {
    assert Change(rules, mid, r, top, x);
    if x in r.entries && x in rules.dependencies {
      forall d | d in rules.dependencies[x] && r.entries[x].action == Some(d.productAction)
        ensures Met(rules, start, r, top.0, d)
      {
        MetLater(rules, start, mid, r, top, d);
      }
    }
  }

  lemma AnsweredFromStart(rules: Rules, start: State, mid: State, r: State, top: (Id, Action), x: Id)
    requires ProperRules(rules) && Evolved(rules, start, mid, top) && Answered(rules, mid, r, top.0, x)
    ensures Answered(rules, start, r, top.0, x)
  {
    if x in r.entries && x in rules.dependencies {
      forall d | d in rules.dependencies[x] && r.entries[x].action == Some(d.productAction)
        ensures Met(rules, start, r, top.0, d)
      {
        assert ProperDependency(d);
        MetFromStart(rules, start, mid, r, top, d);
      }
    }
  }

  /** One call: for the product itself and every product added, all that its action depends on has
      been seen to. */
  lemma {:induction false} RequestCloses(rules: Rules, st: State, top: (Id, Action))
    requires ProperRules(rules) && Active(st, top)
    ensures
      var r := WithRequest(rules, st, top.0);
      Answered(rules, st, r, top.0, top.0) && NewAnswered(rules, st, r, top.0)
    decreases rules.available.Keys - st.added.Keys, 2, 0
  {
    var r := WithRequest(rules, st, top.0);
    if st.entries[top.0].action == Some(Nothing) || top.0 !in rules.dependencies {
      assert forall d :: top.0 in rules.dependencies && d in rules.dependencies[top.0] ==> ProperDependency(d);
    } else {
      DependenciesClose(rules, st, top, 0);
      forall d | d in rules.dependencies[top.0] && r.entries[top.0].action == Some(d.productAction)
        ensures Met(rules, st, r, top.0, d)
      {
        var i :| 0 <= i < |rules.dependencies[top.0]| && rules.dependencies[top.0][i] == d;
        assert Matches(rules, top.0, 0, d.productAction, d);
      }
    }
  }

  /** The dependencies from k on. */
  lemma {:induction false} DependenciesClose(rules: Rules, st: State, top: (Id, Action), k: nat)
    requires ProperRules(rules) && Active(st, top) && top.0 in rules.dependencies && k <= |rules.dependencies[top.0]|
    ensures
      var r := WithDependencies(rules, st, top.0, k);
      && NewAnswered(rules, st, r, top.0)
      && forall d: ProductDependency ::
           Matches(rules, top.0, k, d.productAction, d) && r.entries[top.0].action == Some(d.productAction) ==>
           Met(rules, st, r, top.0, d)
    decreases rules.available.Keys - st.added.Keys, 1, |rules.dependencies[top.0]| - k
  {
    if k == |rules.dependencies[top.0]| {
    } else {
      var d := rules.dependencies[top.0][k];
      assert d in rules.dependencies[top.0];
      var mid := WithDependency(rules, st, top.0, d);
      var r := WithDependencies(rules, mid, top.0, k + 1);
      DependencyEvolves(rules, st, top, d);
      DependenciesEvolve(rules, mid, top, k + 1);
      DependencyCloses(rules, st, top, d);
      DependenciesClose(rules, mid, top, k + 1);
      NewAnsweredTwice(rules, st, mid, r, top);
      forall e: ProductDependency |
          Matches(rules, top.0, k, e.productAction, e) && r.entries[top.0].action == Some(e.productAction)
        ensures Met(rules, st, r, top.0, e)
      {
        var i :| k <= i < |rules.dependencies[top.0]| && rules.dependencies[top.0][i] == e;
        assert e in rules.dependencies[top.0] && ProperDependency(e);
        if i == k {
          MetLater(rules, st, mid, r, top, e);
        } else {
          assert Matches(rules, top.0, k + 1, e.productAction, e);
          MetFromStart(rules, st, mid, r, top, e);
        }
      }
    }
  }

  lemma NewAnsweredTwice(rules: Rules, st: State, mid: State, r: State, top: (Id, Action))
    requires ProperRules(rules) && Evolved(rules, st, mid, top) && Evolved(rules, mid, r, top)
    requires NewAnswered(rules, st, mid, top.0) && NewAnswered(rules, mid, r, top.0)
    ensures NewAnswered(rules, st, r, top.0)
  {
    forall x | New(st, r, x) ensures Answered(rules, st, r, top.0, x) {
      if New(st, mid, x) {
        assert Change(rules, st, mid, top, x);
        AnsweredLater(rules, st, mid, r, top, x);
      } else {
        assert New(mid, r, x);
        AnsweredFromStart(rules, st, mid, r, top, x);
      }
    }
  }

  lemma {:induction false} DependencyCloses(rules: Rules, st: State, top: (Id, Action), d: ProductDependency)
    requires ProperRules(rules) && Active(st, top) && top.0 in rules.dependencies && d in rules.dependencies[top.0]
    ensures
      var r := WithDependency(rules, st, top.0, d);
      && NewAnswered(rules, st, r, top.0)
      && (r.entries[top.0].action == Some(d.productAction) ==> Met(rules, st, r, top.0, d))
    decreases rules.available.Keys - st.added.Keys, 0, 0
  {
    var req := d.requiredProductId;
    var action := EntryOf(st, req).action;
    assert ProperDependency(d);
    if st.entries[top.0].action != Some(d.productAction) || Satisfied(st, d) {
    } else if !AvailableFor(rules.available, d) {
    } else if action == Some(RequiredAction(d)) || Real(action) || req in st.added {
    } else {
      assert req in rules.available.Keys - st.added.Keys;
      var own := (req, RequiredAction(d));
      var mid := Requested(st, top.0, d);
      var r := WithRequest(rules, mid, req);
      RequestEvolves(rules, mid, own);
      RequestCloses(rules, mid, own);
      assert req in mid.added && req in r.added;
      forall x | New(st, r, x) ensures Answered(rules, st, r, top.0, x) {
        assert x == req || New(mid, r, x);
        AnsweredThroughRequest(rules, st, r, top.0, d, x);
      }
    }
  }

  /** What has been seen to for the required product has been for its requirer. */
  lemma AnsweredThroughRequest(rules: Rules, st: State, r: State, id: Id, d: ProductDependency, x: Id)
    requires ProperRules(rules) && d.requiredProductId in r.added
    requires Answered(rules, Requested(st, id, d), r, d.requiredProductId, x)
    ensures Answered(rules, st, r, id, x)
  {
    var mid := Requested(st, id, d);
    if x in r.entries && x in rules.dependencies {
      forall e | e in rules.dependencies[x] && r.entries[x].action == Some(e.productAction)
        ensures Met(rules, st, r, id, e)
      {
        assert ProperDependency(e) && Met(rules, mid, r, d.requiredProductId, e);
        assert Satisfied(mid, e) ==> Satisfied(st, e);
      }
    }
  }

  // ----- when the top product is no exception -----

  /** The dependency is met: satisfied at the start, or its product is available and holds a real action
      or was added. */
  ghost predicate FullyMet(rules: Rules, start: State, r: State, d: ProductDependency) {
    Satisfied(start, d) || (AvailableFor(rules.available, d) && Provided(r, d))
  }

  /** Everything that the action of x depends on is met. */
  ghost predicate FullyAnswered(rules: Rules, start: State, r: State, x: Id) {
    x in r.entries && x in rules.dependencies ==>
      forall d :: d in rules.dependencies[x] && r.entries[x].action == Some(d.productAction) ==>
        FullyMet(rules, start, r, d)
  }

  /** A call has left nothing unmet, neither for the product itself nor for any product added. */
  ghost predicate Closed(rules: Rules, start: State, r: State, top: Id) {
    FullyAnswered(rules, start, r, top) && forall x :: New(start, r, x) ==> FullyAnswered(rules, start, r, x)
  }

  /** The action of x depends on top, and top had not been there from the start. */
  ghost predicate ReliesOn(rules: Rules, start: State, r: State, x: Id, top: Id) {
    && x in r.entries && x in rules.dependencies
    && exists d :: d in rules.dependencies[x] && r.entries[x].action == Some(d.productAction)
                   && d.requiredProductId == top && !Satisfied(start, d)
  }

  /** Exactly when a call leaves nothing unmet: the product itself keeps a real action, or no added
      product relies on it. */
  lemma ClosedExactly(rules: Rules, st: State, top: (Id, Action))
    requires ProperRules(rules) && Active(st, top) && top.0 !in st.added
    ensures
      var r := WithRequest(rules, st, top.0);
      Closed(rules, st, r, top.0) <==>
      Real(r.entries[top.0].action) || forall x :: New(st, r, x) ==> !ReliesOn(rules, st, r, x, top.0)
  {
    var r := WithRequest(rules, st, top.0);
    RequestCloses(rules, st, top);
    RequestEvolves(rules, st, top);
    assert Change(rules, st, r, top, top.0);
    assert !New(st, r, top.0);
    forall x | x == top.0 || New(st, r, x)
      ensures Real(r.entries[top.0].action) || !ReliesOn(rules, st, r, x, top.0) ==> FullyAnswered(rules, st, r, x)
    {
      assert Answered(rules, st, r, top.0, x);
    }
    if !Real(r.entries[top.0].action) {
      NothingAsksNothing(rules, st, r, top.0);
    }
  }

  lemma NothingAsksNothing(rules: Rules, st: State, r: State, id: Id)
    requires ProperRules(rules) && id in r.entries && !Real(r.entries[id].action)
    ensures FullyAnswered(rules, st, r, id) && !ReliesOn(rules, st, r, id, id)
  {
    assert forall d :: id in rules.dependencies && d in rules.dependencies[id] ==> ProperDependency(d);
  }

  function Needs(productId: Id, requiredProductId: Id): ProductDependency {
    ProductDependency(productId, Setup, requiredProductId, None, None, Some(Setup), None, Some(Before))
  }

  /** The top product can let down one that relies on it: top requires a and then the missing b, and
      a requires top. In the end a is to be set up, but top is not. */
  lemma TopMayFallAway(top: Id, a: Id, b: Id, versions: Availability)
    requires top != a && top != b && a != b
    ensures
      var rules := Rules(map[top := [Needs(top, a), Needs(top, b)], a := [Needs(a, top)]],
                         map[top := versions, a := versions]);
      var st := State([top], map[top := Entry(Some(NotInstalled), Some(Setup))], map[]);
      var r := WithRequest(rules, st, top);
      && ProperRules(rules) && EntryOf(r, a).action == Some(Setup) && EntryOf(r, top).action == Some(Nothing)
      && !Satisfied(st, Needs(a, top)) && top !in r.added
  {
    var deps := [Needs(top, a), Needs(top, b)];
    var rules := Rules(map[top := deps, a := [Needs(a, top)]], map[top := versions, a := versions]);
    var st := State([top], map[top := Entry(Some(NotInstalled), Some(Setup))], map[]);
    var mid := Requested(st, top, Needs(top, a));
    assert WithDependency(rules, mid, a, Needs(a, top)) == mid;
    assert WithDependencies(rules, mid, a, 1) == mid;
    assert WithRequest(rules, mid, a) == mid;
    assert WithDependency(rules, st, top, Needs(top, a)) == mid;
    var last := WithAction(mid, top, Nothing);
    assert WithDependency(rules, mid, top, Needs(top, b)) == last;
    assert WithDependencies(rules, last, top, 2) == last;
    assert WithDependencies(rules, mid, top, 1) == last;
    assert WithDependencies(rules, st, top, 0) == last;
  }
}
