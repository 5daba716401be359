/** Which requests leave nothing unmet, told before the call: by the dependencies of the requested
    product itself, by what is on the depot and by what is recorded for the client. */
module RequestSafety {
  import opened Collections
  import opened ProductsOnClients
  import opened ActionRequests
  import opened RequestClosure

  /** The dependency is there for the action. */
  predicate Concerns(top: (Id, Action), d: ProductDependency) {
    d.productAction == top.1
  }

  /** It leads to an addition. */
  predicate Adds(rules: Rules, st: State, top: (Id, Action), d: ProductDependency) {
    && Concerns(top, d) && !Satisfied(st, d)
    && AvailableFor(rules.available, d) && !Real(EntryOf(st, d.requiredProductId).action)
  }

  /** It can be passed over: satisfied, or the required product holds a real action already. */
  predicate Idle(rules: Rules, st: State, top: (Id, Action), d: ProductDependency) {
    || !Concerns(top, d)
    || Satisfied(st, d)
    || (AvailableFor(rules.available, d) && Real(EntryOf(st, d.requiredProductId).action))
  }

  /** It can cost the action: neither available nor satisfied for good. */
  predicate CanRefuse(rules: Rules, st: State, top: (Id, Action), d: ProductDependency) {
    Concerns(top, d) && !AvailableFor(rules.available, d) && !StaysSatisfied(rules, st, d)
  }

  /** The first dependency to be acted on, at i, leads to an addition, and the one at j, behind it, can
      cost the action. */
  ghost predicate AddsThenRefuses(rules: Rules, st: State, top: (Id, Action), i: nat, j: nat)
    requires top.0 in rules.dependencies
  {
    var dependencies := rules.dependencies[top.0];
    && i < j < |dependencies|
    && (forall k :: 0 <= k < i ==> Idle(rules, st, top, dependencies[k]))
    && Adds(rules, st, top, dependencies[i]) && CanRefuse(rules, st, top, dependencies[j])
  }

  /** Either nothing can come to rely on the product, which is not on the depot, or it does not lose its
      action after something has been added. */
  ghost predicate Secure(rules: Rules, st: State, top: (Id, Action)) {
    top.0 in rules.available && top.0 in rules.dependencies ==>
      forall i, j :: !AddsThenRefuses(rules, st, top, i, j)
  }

  /** A top-level call on a product that holds this action. */
  ghost predicate Requesting(rules: Rules, st: State, top: (Id, Action)) {
    && ProperRules(rules) && st.added == map[]
    && top.0 in st.entries && st.entries[top.0].action == Some(top.1) && top.1 != Nothing
  }

  /** The depot and the dependencies of id are the same. */
  ghost predicate SameFor(rules: Rules, others: Rules, id: Id) {
    && others.available == rules.available
    && (id in others.dependencies <==> id in rules.dependencies)
    && (id in rules.dependencies ==> others.dependencies[id] == rules.dependencies[id])
  }

  /** A request leaves nothing unmet, whatever the other products depend on, exactly if it is secure. */
  lemma SecureExactly(rules: Rules, st: State, top: (Id, Action))
    requires Requesting(rules, st, top)
    ensures
      Secure(rules, st, top) <==>
      forall others :: SameFor(rules, others, top.0) && ProperRules(others) ==>
        Closed(others, st, WithRequest(others, st, top.0), top.0)
  {
    if Secure(rules, st, top) {
      forall others | SameFor(rules, others, top.0) && ProperRules(others)
        ensures Closed(others, st, WithRequest(others, st, top.0), top.0)
      {
        SameSecurity(rules, others, st, top);
        SecureCloses(others, st, top);
      }
    } else {
      var i, j :| AddsThenRefuses(rules, st, top, i, j);
      var others := Relying(rules, st, top, i, j);
      RelyingIsProper(rules, st, top, i, j);
      InsecureFails(rules, st, top, i, j);
    }
  }

  lemma SameSecurity(rules: Rules, others: Rules, st: State, top: (Id, Action))
    requires SameFor(rules, others, top.0) && Secure(rules, st, top)
    ensures Secure(others, st, top)
  {
    if top.0 in others.available && top.0 in others.dependencies {
      forall i: nat, j: nat ensures !AddsThenRefuses(others, st, top, i, j) {
        assert !AddsThenRefuses(rules, st, top, i, j);
      }
    }
  }

  /** In particular, if every matching dependency is available or satisfied for good. */
  lemma AvailableIsSecure(rules: Rules, st: State, top: (Id, Action))
    requires Requesting(rules, st, top)
    requires forall d :: Matches(rules, top.0, 0, top.1, d) ==>
               AvailableFor(rules.available, d) || StaysSatisfied(rules, st, d)
    ensures Secure(rules, st, top) && Closed(rules, st, WithRequest(rules, st, top.0), top.0)
  {
    if top.0 in rules.dependencies {
      forall i: nat, j: nat ensures !AddsThenRefuses(rules, st, top, i, j) {
        if i < j < |rules.dependencies[top.0]| && Concerns(top, rules.dependencies[top.0][j]) {
          assert Matches(rules, top.0, 0, top.1, rules.dependencies[top.0][j]);
        }
      }
    }
    SecureCloses(rules, st, top);
  }

  // ----- secure requests -----

  lemma SecureCloses(rules: Rules, st: State, top: (Id, Action))
    requires Requesting(rules, st, top) && Secure(rules, st, top)
    ensures Closed(rules, st, WithRequest(rules, st, top.0), top.0)
  {
    var r := WithRequest(rules, st, top.0);
    ClosedExactly(rules, st, top);
    if top.0 !in rules.available {
      RequestCloses(rules, st, top);
      forall x | New(st, r, x) ensures !ReliesOn(rules, st, r, x, top.0) {
        assert Answered(rules, st, r, top.0, x);
      }
    } else if top.0 in rules.dependencies {
      SecureFrom(rules, st, top, 0);
    }
  }

  /** So far nothing has happened: in the end the action is kept, or nothing has been added. */
  lemma {:induction false} SecureFrom(rules: Rules, st: State, top: (Id, Action), k: nat)
    requires Requesting(rules, st, top) && Secure(rules, st, top) && top.0 in rules.available
    requires top.0 in rules.dependencies && k <= |rules.dependencies[top.0]|
    requires forall m :: 0 <= m < k ==> Idle(rules, st, top, rules.dependencies[top.0][m])
    ensures
      var r := WithDependencies(rules, st, top.0, k);
      Real(r.entries[top.0].action) || forall x :: !New(st, r, x)
    decreases |rules.dependencies[top.0]| - k
  {
    if k == |rules.dependencies[top.0]| {
    } else {
      var d := rules.dependencies[top.0][k];
      assert d in rules.dependencies[top.0] && ProperDependency(d);
      if Idle(rules, st, top, d) {
        assert WithDependency(rules, st, top.0, d) == st;
        OneDependency(rules, st, top.0, k);
        SecureFrom(rules, st, top, k + 1);
      } else if !AvailableFor(rules.available, d) {
        NoneStays(rules, WithAction(st, top.0, Nothing), top.0, k + 1);
      } else {
        KeptAfterAddition(rules, st, top, k);
      }
    }
  }

  lemma KeptAfterAddition(rules: Rules, st: State, top: (Id, Action), k: nat)
    requires Requesting(rules, st, top) && Secure(rules, st, top) && top.0 in rules.available
    requires top.0 in rules.dependencies && k < |rules.dependencies[top.0]|
    requires forall m :: 0 <= m < k ==> Idle(rules, st, top, rules.dependencies[top.0][m])
    requires Adds(rules, st, top, rules.dependencies[top.0][k])
    ensures WithDependencies(rules, st, top.0, k).entries[top.0].action == Some(top.1)
  {
    var d := rules.dependencies[top.0][k];
    assert d in rules.dependencies[top.0];
    var mid := WithDependency(rules, st, top.0, d);
    DependencyEvolves(rules, st, top, d);
    KeepsOwnEntry(rules, st, top, d);
    forall e | Matches(rules, top.0, k + 1, top.1, e)
      ensures AvailableFor(rules.available, e) || StaysSatisfied(rules, mid, e)
    {
      var j :| k + 1 <= j < |rules.dependencies[top.0]| && rules.dependencies[top.0][j] == e;
      assert !AddsThenRefuses(rules, st, top, k, j);
      if !AvailableFor(rules.available, e) { SatisfiedAfter(rules, st, mid, top, e); }
    }
    KeepsAction(rules, mid, top, k + 1);
  }

  // ----- insecure requests -----

  /** An action of another product, whenever productAction is requested for productId. */
  function Need(productId: Id, productAction: Action, requiredProductId: Id, requiredAction: Action)
    : ProductDependency
  {
    ProductDependency(productId, productAction, requiredProductId, None, None, Some(requiredAction), None, None)
  }

  /** The dependencies of top with others that let it down: what is added first relies on top, having
      added the product whose status is asked for at j, should that be possible. */
  ghost function Relying(rules: Rules, st: State, top: (Id, Action), i: nat, j: nat): Rules
    requires top.0 in rules.dependencies && i < |rules.dependencies[top.0]| && j < |rules.dependencies[top.0]|
  {
    var d := rules.dependencies[top.0][i];
    var x, y := d.requiredProductId, rules.dependencies[top.0][j].requiredProductId;
    var own := Need(x, RequiredAction(d), top.0, top.1);
    var first := Need(x, RequiredAction(d), y, Setup);
    Rules(map[x := if y in rules.available && y !in st.entries then [first, own] else [own]]
              [top.0 := rules.dependencies[top.0]],
          rules.available)
  }

  lemma RelyingIsProper(rules: Rules, st: State, top: (Id, Action), i: nat, j: nat)
    requires Requesting(rules, st, top) && top.0 in rules.dependencies && AddsThenRefuses(rules, st, top, i, j)
    ensures ProperRules(Relying(rules, st, top, i, j)) && SameFor(rules, Relying(rules, st, top, i, j), top.0)
  {
    var d := rules.dependencies[top.0][i];
    assert d in rules.dependencies[top.0] && ProperDependency(d);
  }

  /** Nothing happens up to i. */
  lemma {:induction false} IdleUpTo(rules: Rules, st: State, top: (Id, Action), k: nat, i: nat)
    requires Requesting(rules, st, top) && top.0 in rules.dependencies && k <= i <= |rules.dependencies[top.0]|
    requires forall m :: 0 <= m < i ==> Idle(rules, st, top, rules.dependencies[top.0][m])
    ensures WithDependencies(rules, st, top.0, k) == WithDependencies(rules, st, top.0, i)
    decreases i - k
  {
    if k == i {
    } else {
      var d := rules.dependencies[top.0][k];
      assert d in rules.dependencies[top.0] && ProperDependency(d);
      IdleUpTo(rules, st, top, k + 1, i);
    }
  }

  lemma InsecureFails(rules: Rules, st: State, top: (Id, Action), i: nat, j: nat)
    requires Requesting(rules, st, top) && top.0 in rules.available && top.0 in rules.dependencies
    requires AddsThenRefuses(rules, st, top, i, j)
    ensures
      var others := Relying(rules, st, top, i, j);
      !Closed(others, st, WithRequest(others, st, top.0), top.0)
  {
    var others := Relying(rules, st, top, i, j);
    RelyingIsProper(rules, st, top, i, j);
    var dependencies := others.dependencies[top.0];
    var d, e := dependencies[i], dependencies[j];
    assert d in dependencies && e in dependencies && ProperDependency(d) && ProperDependency(e);
    var x := d.requiredProductId;
    var mid := WithDependency(others, st, top.0, d);
    DependencyEvolves(others, st, top, d);
    KeepsOwnEntry(others, st, top, d);
    AddedReliably(rules, st, top, i, j);
    IdleUpTo(others, st, top, 0, i);
    var r := WithDependencies(others, mid, top.0, i + 1);
    assert r == WithRequest(others, st, top.0);
    DependenciesEvolve(others, mid, top, i + 1);
    KeepsAction(others, mid, top, i + 1);
    assert Matches(others, top.0, i + 1, top.1, e);
    assert !Real(r.entries[top.0].action);
    assert Change(others, mid, r, top, x) && New(st, r, x) && r.entries[x].action == Some(RequiredAction(d));
    var own := Need(x, RequiredAction(d), top.0, top.1);
    assert own in others.dependencies[x] && !Satisfied(st, own);
    assert ReliesOn(others, st, r, x, top.0);
    ClosedExactly(others, st, top);
  }

  /** The addition at i: it keeps its action, and afterwards the dependency at j is not satisfied. */
  lemma AddedReliably(rules: Rules, st: State, top: (Id, Action), i: nat, j: nat)
    requires Requesting(rules, st, top) && top.0 in rules.available && top.0 in rules.dependencies
    requires AddsThenRefuses(rules, st, top, i, j)
    ensures
      var d, e := rules.dependencies[top.0][i], rules.dependencies[top.0][j];
      var mid := WithDependency(Relying(rules, st, top, i, j), st, top.0, d);
      && New(st, mid, d.requiredProductId) && d.requiredProductId in mid.entries
      && mid.entries[d.requiredProductId].action == Some(RequiredAction(d))
      && !Satisfied(mid, e)
  {
    var others := Relying(rules, st, top, i, j);
    RelyingIsProper(rules, st, top, i, j);
    var d, e := rules.dependencies[top.0][i], rules.dependencies[top.0][j];
    assert d in rules.dependencies[top.0] && ProperDependency(d);
    assert e in rules.dependencies[top.0] && ProperDependency(e);
    var x, y := d.requiredProductId, e.requiredProductId;
    var own := (x, RequiredAction(d));
    var start := Requested(st, top.0, d);
    var mid := WithRequest(others, start, x);
    assert mid == WithDependency(others, st, top.0, d);
    forall f | Matches(others, x, 0, own.1, f) ensures AvailableFor(others.available, f) {
      assert f in others.dependencies[x];
    }
    KeepsAction(others, start, own, 0);
    DependencyEvolves(others, st, top, d);
    assert Change(others, st, mid, top, x) && x in start.added;
    if Satisfied(st, e) {
      var first := Need(x, RequiredAction(d), y, Setup);
      RequestCloses(others, start, own);
      assert first in others.dependencies[x] && Met(others, start, mid, x, first);
      assert Change(others, st, mid, top, y);
      assert New(st, mid, y) && mid.entries[y].status == None;
    } else if Satisfied(mid, e) {
      SatisfiedBefore(others, st, mid, top, e);
    }
  }
}
