/** Why a product is added, and which action is requested of it: read off a dependency directly. */
module RequestReasons {
  import opened Collections
  import opened ProductsOnClients
  import opened ActionRequests
  import opened RequestSafety

  /** The depot has the product, in the versions the dependency asks for. */
  ghost predicate OnDepot(available: map<Id, Availability>, d: ProductDependency) {
    && d.requiredProductId in available
    && (d.requiredProductVersion.Some? ==>
          available[d.requiredProductId].productVersion == d.requiredProductVersion.value)
    && (d.requiredPackageVersion.Some? ==>
          available[d.requiredProductId].packageVersion == d.requiredPackageVersion.value)
  }

  /** d is a reason for requesting the action of x: the action it names; or setup, if it names none and
      asks for x to be installed; or uninstall, if it names none and asks for x not to be installed. */
  ghost predicate Explains(rules: Rules, d: ProductDependency, x: Id, action: Action) {
    && d.requiredProductId == x && OnDepot(rules.available, d)
    && (d.requiredAction.Some? ==> action == d.requiredAction.value)
    && (d.requiredAction.None? && d.requiredInstallationStatus == Some(Installed) ==> action == Setup)
    && (d.requiredAction.None? && d.requiredInstallationStatus == Some(NotInstalled) ==> action == Uninstall)
  }

  /** What is noted about x names a dependency that explains it, of the product it was added for, whose own
      action this dependency is there for. */
  ghost predicate Reasoned(rules: Rules, r: State, top: (Id, Action), x: Id) {
    && x in r.added && r.added[x].addedForProduct in rules.dependencies
    && exists d :: d in rules.dependencies[r.added[x].addedForProduct] && IsReason(rules, r, top, x, d)
  }

  ghost predicate IsReason(rules: Rules, r: State, top: (Id, Action), x: Id, d: ProductDependency)
    requires x in r.added
  {
    var noted := r.added[x];
    && Explains(rules, d, x, noted.requiredAction) && noted.requirementType == d.requirementType
    && (|| (noted.addedForProduct == top.0 && d.productAction == top.1)
        || (noted.addedForProduct in r.added && r.added[noted.addedForProduct].requiredAction == d.productAction))
  }

  ghost predicate AllReasoned(rules: Rules, st: State, r: State, top: (Id, Action)) {
    forall x :: New(st, r, x) ==> Reasoned(rules, r, top, x)
  }

  /** Notes stay, and so do reasons. */
  lemma ReasonStays(rules: Rules, mid: State, r: State, top: (Id, Action), x: Id)
    requires Evolved(rules, mid, r, top) && Reasoned(rules, mid, top, x)
    ensures Reasoned(rules, r, top, x)
  {
    assert Change(rules, mid, r, top, x) && Change(rules, mid, r, top, mid.added[x].addedForProduct);
    var d :| d in rules.dependencies[mid.added[x].addedForProduct] && IsReason(rules, mid, top, x, d);
    assert IsReason(rules, r, top, x, d);
  }

  lemma {:induction false} RequestIsReasoned(rules: Rules, st: State, top: (Id, Action))
    requires ProperRules(rules) && Active(st, top)
    ensures AllReasoned(rules, st, WithRequest(rules, st, top.0), top)
    decreases rules.available.Keys - st.added.Keys, 2, 0
  {
    if st.entries[top.0].action == Some(Nothing) || top.0 !in rules.dependencies {
    } else {
      DependenciesReason(rules, st, top, 0);
    }
  }

  lemma {:induction false} DependenciesReason(rules: Rules, st: State, top: (Id, Action), k: nat)
    requires ProperRules(rules) && Active(st, top) && top.0 in rules.dependencies && k <= |rules.dependencies[top.0]|
    ensures AllReasoned(rules, st, WithDependencies(rules, st, top.0, k), top)
    decreases rules.available.Keys - st.added.Keys, 1, |rules.dependencies[top.0]| - k
  {
    if k == |rules.dependencies[top.0]| {
    } else {
      var d := rules.dependencies[top.0][k];
      assert d in rules.dependencies[top.0];
      var mid := WithDependency(rules, st, top.0, d);
      var r := WithDependencies(rules, mid, top.0, k + 1);
      DependencyEvolves(rules, st, top, d);
      DependenciesEvolve(rules, mid, top, k + 1);
      DependencyReasons(rules, st, top, d);
      DependenciesReason(rules, mid, top, k + 1);
      forall x | New(st, r, x) ensures Reasoned(rules, r, top, x) {
        if x in mid.added { ReasonStays(rules, mid, r, top, x); }
      }
    }
  }

  lemma {:induction false} DependencyReasons(rules: Rules, st: State, top: (Id, Action), d: ProductDependency)
    requires ProperRules(rules) && Active(st, top) && top.0 in rules.dependencies && d in rules.dependencies[top.0]
    ensures AllReasoned(rules, st, WithDependency(rules, st, top.0, d), top)
    decreases rules.available.Keys - st.added.Keys, 0, 0
  {
    var req := d.requiredProductId;
    var action := EntryOf(st, req).action;
    assert ProperDependency(d);
    if st.entries[top.0].action != Some(d.productAction) || Satisfied(st, d) {
    } else if !AvailableFor(rules.available, d) {
    } else if action == Some(RequiredAction(d)) || Real(action) || req in st.added {
    } else {
      assert req in rules.available.Keys - st.added.Keys;
      var own := (req, RequiredAction(d));
      var mid := Requested(st, top.0, d);
      var r := WithRequest(rules, mid, req);
      RequestEvolves(rules, mid, own);
      RequestIsReasoned(rules, mid, own);
      assert Change(rules, mid, r, own, req) && r.added[req] == Added(top.0, RequiredAction(d), d.requirementType);
      assert top.1 == d.productAction;
      forall x | New(st, r, x) ensures Reasoned(rules, r, top, x) {
        if x == req {
          assert IsReason(rules, r, top, req, d);
        } else {
          assert New(mid, r, x);
          var e :| e in rules.dependencies[r.added[x].addedForProduct] && IsReason(rules, r, own, x, e);
          assert IsReason(rules, r, top, x, e);
        }
      }
    }
  }

  /** Every product added by a call has a reason, and ends with the action explained by it or with none. */
  lemma AddedWithReason(rules: Rules, st: State, top: (Id, Action), x: Id)
    requires ProperRules(rules) && Active(st, top) && New(st, WithRequest(rules, st, top.0), x)
    ensures
      var r := WithRequest(rules, st, top.0);
      && x in r.entries && Reasoned(rules, r, top, x)
      && (r.entries[x].action == Some(Nothing) || exists d ::
            && d in rules.dependencies[r.added[x].addedForProduct]
            && r.entries[x].action.Some? && Explains(rules, d, x, r.entries[x].action.value))
  {
    var r := WithRequest(rules, st, top.0);
    RequestIsReasoned(rules, st, top);
    RequestEvolves(rules, st, top);
    assert Change(rules, st, r, top, x);
    var d :| d in rules.dependencies[r.added[x].addedForProduct] && IsReason(rules, r, top, x, d);
  }

  /** Some dependency explains the action. */
  ghost predicate HasReason(rules: Rules, x: Id, action: Option<Action>) {
    && action.Some?
    && exists id, d ::
         id in rules.dependencies && d in rules.dependencies[id] && Explains(rules, d, x, action.value)
  }

  /** After the calls for all products of a client: an entry is as it was, or its product has no action, or
      one that some dependency explains. */
  lemma {:induction false} RequestedWithReason(rules: Rules, st: State, ids: seq<Id>, k: nat, x: Id)
    requires ProperRules(rules) && k <= |ids| && forall id :: id in ids ==> id in st.entries
    requires x in AllRequested(rules, st, ids, k).entries
    ensures
      var action := AllRequested(rules, st, ids, k).entries[x].action;
      action == Some(Nothing) || (x in st.entries && action == st.entries[x].action) || HasReason(rules, x, action)
  {
    if k == 0 {
    } else {
      assert ids[k - 1] in ids;
      var mid, r := AllRequested(rules, st, ids, k - 1).(added := map[]), AllRequested(rules, st, ids, k);
      TopLevelCall(rules, mid, ids[k - 1]);
      if x in mid.entries { RequestedWithReason(rules, st, ids, k - 1, x); }
      if Real(mid.entries[ids[k - 1]].action) {
        var top := (ids[k - 1], mid.entries[ids[k - 1]].action.value);
        assert Change(rules, mid, r, top, x);
        if New(mid, r, x) { AddedWithReason(rules, mid, top, x); }
      }
    }
  }

  // ----- when an action is refused, and when nothing happens -----

  /** The status is asked for and recorded; a product without an entry counts as not installed. */
  ghost predicate StatusIsThere(st: State, d: ProductDependency) {
    var x := d.requiredProductId;
    && d.requiredAction.None?
    && d.requiredInstallationStatus == if x in st.entries then st.entries[x].status else Some(NotInstalled)
  }

  /** A product loses its action over a dependency on something the depot does not have, unless the status
      asked for is there. */
  lemma MissingRefuses(rules: Rules, st: State, top: (Id, Action), d: ProductDependency)
    requires ProperRules(rules) && top.0 in st.entries && st.entries[top.0].action == Some(top.1) && top.1 != Nothing
    requires top.0 in rules.dependencies && d in rules.dependencies[top.0] && d.productAction == top.1
    requires !OnDepot(rules.available, d) && !StatusIsThere(st, d)
    ensures WithRequest(rules, st, top.0).entries[top.0].action == Some(Nothing)
  {
    KeepsAction(rules, st, top, 0);
    RequestEvolves(rules, st, top);
    var i :| 0 <= i < |rules.dependencies[top.0]| && rules.dependencies[top.0][i] == d;
    assert Matches(rules, top.0, 0, top.1, d);
    assert !AvailableFor(rules.available, d) && !Satisfied(st, d);
  }

  /** Nothing happens if for every matching dependency the status asked for is there, or the product is on
      the depot and holds an action already. */
  lemma NothingToDo(rules: Rules, st: State, top: (Id, Action))
    requires Requesting(rules, st, top) && top.0 in rules.dependencies
    requires forall d :: d in rules.dependencies[top.0] && d.productAction == top.1 ==>
               || StatusIsThere(st, d)
               || (&& OnDepot(rules.available, d) && d.requiredProductId in st.entries
                   && st.entries[d.requiredProductId].action !in {None, Some(Nothing)})
    ensures WithRequest(rules, st, top.0) == st
  {
    var dependencies := rules.dependencies[top.0];
    forall m | 0 <= m < |dependencies| ensures Idle(rules, st, top, dependencies[m]) {
      assert dependencies[m] in dependencies;
    }
    IdleUpTo(rules, st, top, 0, |dependencies|);
  }
}
