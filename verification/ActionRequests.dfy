/** Adding the actions that requested actions depend on. */
module ActionRequests {
  import opened Collections
  import opened ProductsOnClients

  datatype Availability = Availability(productVersion: Id, packageVersion: Id)

  /** What is installed and requested, for one product on the client at hand. */
  datatype Entry = Entry(status: Option<Status>, action: Option<Action>)

  datatype Added = Added(addedForProduct: Id, requiredAction: Action, requirementType: Option<RequirementType>)

  /** The client's products in the order of the dictionary, and what was added during one call. */
  datatype State = State(order: seq<Id>, entries: map<Id, Entry>, added: map<Id, Added>)

  datatype Rules = Rules(dependencies: map<Id, seq<ProductDependency>>, available: map<Id, Availability>)

  /** A dependency names a real action, and requires either a real action or one of two states. */
  ghost predicate ProperDependency(d: ProductDependency) {
    && d.productAction != Nothing
    && d.requiredAction != Some(Nothing)
    && (d.requiredAction.None? ==> d.requiredInstallationStatus in {Some(Installed), Some(NotInstalled)})
  }

  ghost predicate ProperRules(rules: Rules) {
    forall id, d :: id in rules.dependencies && d in rules.dependencies[id] ==> ProperDependency(d)
  }

  /** The action to be requested: the one named, or the one that leads to the required state. */
  function RequiredAction(d: ProductDependency): Action {
    match d.requiredAction
    case Some(action) => action
    case None => if d.requiredInstallationStatus == Some(Installed) then Setup else Uninstall
  }

  /** The required product is on the depot, in the required versions. */
  predicate AvailableFor(available: map<Id, Availability>, d: ProductDependency) {
    && d.requiredProductId in available
    && (|| d.requiredProductVersion.None?
        || d.requiredProductVersion.value == available[d.requiredProductId].productVersion)
    && (|| d.requiredPackageVersion.None?
        || d.requiredPackageVersion.value == available[d.requiredProductId].packageVersion)
  }

  /** A product without an entry counts as not installed, with no action. */
  function EntryOf(st: State, id: Id): Entry {
    if id in st.entries then st.entries[id] else Entry(Some(NotInstalled), Some(Nothing))
  }

  predicate Satisfied(st: State, d: ProductDependency) {
    d.requiredAction.None? && d.requiredInstallationStatus == EntryOf(st, d.requiredProductId).status
  }

  predicate Real(action: Option<Action>) {
    action.Some? && action.value != Nothing
  }

  // ----- the specification, on values -----

  ghost function WithAction(st: State, id: Id, action: Action): State
    requires id in st.entries
  {
    st.(entries := st.entries[id := st.entries[id].(action := Some(action))])
  }

  /** The state in which the required product has been added on behalf of id. */
  ghost function Requested(st: State, id: Id, d: ProductDependency): State {
    var req := d.requiredProductId;
    var known := if req in st.entries then st
                 else st.(order := st.order + [req], entries := st.entries[req := Entry(None, Some(Nothing))]);
    var noted := known.(added := known.added[req := Added(id, RequiredAction(d), d.requirementType)]);
    WithAction(noted, req, RequiredAction(d))
  }

  ghost function WithRequest(rules: Rules, st: State, id: Id): (r: State)
    requires id in st.entries
    ensures st.added.Keys <= r.added.Keys && st.entries.Keys <= r.entries.Keys && st.order <= r.order
    decreases rules.available.Keys - st.added.Keys, 2, 0
  {
    if st.entries[id].action == Some(Nothing) || id !in rules.dependencies then st
    else WithDependencies(rules, st, id, 0)
  }

  ghost function WithDependencies(rules: Rules, st: State, id: Id, k: nat): (r: State)
    requires id in st.entries && id in rules.dependencies && k <= |rules.dependencies[id]|
    ensures st.added.Keys <= r.added.Keys && st.entries.Keys <= r.entries.Keys && st.order <= r.order
    decreases rules.available.Keys - st.added.Keys, 1, |rules.dependencies[id]| - k
  {
    if k == |rules.dependencies[id]| then st
    else WithDependencies(rules, WithDependency(rules, st, id, rules.dependencies[id][k]), id, k + 1)
  }

  ghost function WithDependency(rules: Rules, st: State, id: Id, d: ProductDependency): (r: State)
    requires id in st.entries
    ensures st.added.Keys <= r.added.Keys && st.entries.Keys <= r.entries.Keys && st.order <= r.order
    decreases rules.available.Keys - st.added.Keys, 0, 0
  {
    var action := EntryOf(st, d.requiredProductId).action;
    if st.entries[id].action != Some(d.productAction) || Satisfied(st, d) then st
    else if !AvailableFor(rules.available, d) then WithAction(st, id, Nothing)
    else if action == Some(RequiredAction(d)) || Real(action) || d.requiredProductId in st.added then st
    else
      assert d.requiredProductId in rules.available.Keys - st.added.Keys;
      WithRequest(rules, Requested(st, id, d), d.requiredProductId)
  }

  // ----- what one call may change -----

  /** Requesting a.1 for a.0 asks for b.1 for b.0, which is available. */
  ghost predicate Asks(rules: Rules, a: (Id, Action), b: (Id, Action)) {
    && a.0 in rules.dependencies
    && exists d :: d in rules.dependencies[a.0] && d.productAction == a.1
         && d.requiredProductId == b.0 && RequiredAction(d) == b.1 && AvailableFor(rules.available, d)
  }

  ghost predicate AskedVia(rules: Rules, chain: seq<(Id, Action)>, a: (Id, Action), b: (Id, Action)) {
    && |chain| >= 2 && chain[0] == a && chain[|chain| - 1] == b
    && forall i :: 0 <= i < |chain| - 1 ==> Asks(rules, chain[i], chain[i + 1])
  }

  /** A chain of matching dependencies leads from a to b. */
  ghost predicate AskedFrom(rules: Rules, a: (Id, Action), b: (Id, Action)) {
    exists chain :: AskedVia(rules, chain, a, b)
  }

  ghost predicate New(st: State, r: State, x: Id) {
    x in r.added && x !in st.added
  }

  /** x was added on the way from st to r, for the sake of top's action: it is available, had no real
      action, keeps its status, and ends with the action required of it or with none. */
  ghost predicate ProperlyAdded(rules: Rules, st: State, r: State, top: (Id, Action), x: Id) {
    && x != top.0 && x in rules.available && x in r.added && x in r.entries
    && !Real(EntryOf(st, x).action)
    && r.entries[x].status == (if x in st.entries then st.entries[x].status else None)
    && (r.entries[x].action == Some(r.added[x].requiredAction) || r.entries[x].action == Some(Nothing))
    && AskedFrom(rules, top, (x, r.added[x].requiredAction))
  }

  ghost predicate SameEntry(st: State, r: State, x: Id) {
    (x in r.entries <==> x in st.entries) && (x in st.entries ==> r.entries[x] == st.entries[x])
  }

  /** What may have happened to x. */
  ghost predicate Change(rules: Rules, st: State, r: State, top: (Id, Action), x: Id) {
    && (x in st.added ==> x in r.added && r.added[x] == st.added[x])
    && (if New(st, r, x) then ProperlyAdded(rules, st, r, top, x) else x != top.0 ==> SameEntry(st, r, x))
  }

  /** What may have happened to the product itself: its action may have been set to none. */
  ghost predicate OwnChange(st: State, r: State, id: Id)
    requires id in st.entries && id in r.entries
  {
    && r.entries[id].status == st.entries[id].status
    && (r.entries[id].action == st.entries[id].action || r.entries[id].action == Some(Nothing))
  }

  ghost predicate Evolved(rules: Rules, st: State, r: State, top: (Id, Action)) {
    && top.0 in st.entries && top.0 in r.entries && OwnChange(st, r, top.0)
    && forall x :: Change(rules, st, r, top, x)
  }

  ghost predicate Active(st: State, top: (Id, Action)) {
    && top.0 in st.entries && top.1 != Nothing
    && (st.entries[top.0].action == Some(top.1) || st.entries[top.0].action == Some(Nothing))
  }

  lemma NothingEvolved(rules: Rules, st: State, top: (Id, Action))
    requires top.0 in st.entries
    ensures Evolved(rules, st, st, top)
  {
  }

  /** One change after the other. */
  lemma ChangeAfterChange(rules: Rules, st: State, mid: State, r: State, top: (Id, Action), x: Id)
    requires Change(rules, st, mid, top, x) && Change(rules, mid, r, top, x)
    requires top.0 in st.entries && top.0 in mid.entries && top.0 in r.entries
    ensures Change(rules, st, r, top, x)
  {
    if New(st, mid, x) {
      assert !New(mid, r, x) && SameEntry(mid, r, x);
    } else if New(mid, r, x) {
      assert SameEntry(st, mid, x);
    }
  }

  lemma EvolvedAfterEvolved(rules: Rules, st: State, mid: State, r: State, top: (Id, Action))
    requires Evolved(rules, st, mid, top) && Evolved(rules, mid, r, top) && Active(st, top)
    ensures Evolved(rules, st, r, top)
  {
    forall x ensures Change(rules, st, r, top, x) {
      assert Change(rules, st, mid, top, x) && Change(rules, mid, r, top, x);
      ChangeAfterChange(rules, st, mid, r, top, x);
    }
  }

  lemma AskedFirst(rules: Rules, a: (Id, Action), b: (Id, Action), c: (Id, Action))
    requires Asks(rules, a, b) && AskedFrom(rules, b, c)
    ensures AskedFrom(rules, a, c)
  {
    var chain :| AskedVia(rules, chain, b, c);
    var longer := [a] + chain;
    forall i | 0 <= i < |longer| - 1 ensures Asks(rules, longer[i], longer[i + 1]) {
      if i > 0 { assert Asks(rules, chain[i - 1], chain[i]); }
    }
    assert AskedVia(rules, longer, a, c);
  }

  lemma AskedDirectly(rules: Rules, a: (Id, Action), b: (Id, Action))
    requires Asks(rules, a, b)
    ensures AskedFrom(rules, a, b)
  {
    assert AskedVia(rules, [a, b], a, b);
  }

  /** A requirement that is added, and all that it leads to, counts as added for its own requirer. */
  lemma ChangeThroughRequest(rules: Rules, st: State, r: State, id: Id, d: ProductDependency, x: Id)
    requires id in st.entries && id in rules.dependencies && d in rules.dependencies[id]
    requires st.entries[id].action == Some(d.productAction) && d.productAction != Nothing
    requires AvailableFor(rules.available, d) && d.requiredProductId !in st.added
    requires !Real(EntryOf(st, d.requiredProductId).action)
    requires Evolved(rules, Requested(st, id, d), r, (d.requiredProductId, RequiredAction(d)))
    ensures Change(rules, st, r, (id, d.productAction), x)
  {
    var req, top := d.requiredProductId, (id, d.productAction);
    var own := (req, RequiredAction(d));
    var mid := Requested(st, id, d);
    assert Asks(rules, top, own);
    assert req != id;
    assert Change(rules, mid, r, own, x);
    if x == req {
      assert Change(rules, mid, r, own, req);
      AskedDirectly(rules, top, own);
    } else if New(mid, r, x) {
      AskedFirst(rules, top, own, (x, r.added[x].requiredAction));
      assert x == id ==> Real(EntryOf(mid, id).action);
    }
  }

  lemma EvolvedThroughRequest(rules: Rules, st: State, r: State, id: Id, d: ProductDependency)
    requires id in st.entries && id in rules.dependencies && d in rules.dependencies[id]
    requires st.entries[id].action == Some(d.productAction) && d.productAction != Nothing
    requires AvailableFor(rules.available, d) && d.requiredProductId !in st.added
    requires !Real(EntryOf(st, d.requiredProductId).action)
    requires Evolved(rules, Requested(st, id, d), r, (d.requiredProductId, RequiredAction(d)))
    ensures Evolved(rules, st, r, (id, d.productAction))
  {
    var mid := Requested(st, id, d);
    var own := (d.requiredProductId, RequiredAction(d));
    assert Change(rules, mid, r, own, id);
    assert Real(EntryOf(mid, id).action) && mid.entries[id] == st.entries[id];
    forall x ensures Change(rules, st, r, (id, d.productAction), x) {
      ChangeThroughRequest(rules, st, r, id, d, x);
    }
  }

  /** One call changes no more than this: the top product may lose its action, and what is added is
      added properly. */
  lemma {:induction false} RequestEvolves(rules: Rules, st: State, top: (Id, Action))
    requires ProperRules(rules) && Active(st, top)
    ensures Evolved(rules, st, WithRequest(rules, st, top.0), top)
    decreases rules.available.Keys - st.added.Keys, 2, 0
  {
    if st.entries[top.0].action == Some(Nothing) || top.0 !in rules.dependencies {
      NothingEvolved(rules, st, top);
    } else {
      DependenciesEvolve(rules, st, top, 0);
    }
  }

  lemma {:induction false} DependenciesEvolve(rules: Rules, st: State, top: (Id, Action), k: nat)
    requires ProperRules(rules) && Active(st, top) && top.0 in rules.dependencies && k <= |rules.dependencies[top.0]|
    ensures Evolved(rules, st, WithDependencies(rules, st, top.0, k), top)
    decreases rules.available.Keys - st.added.Keys, 1, |rules.dependencies[top.0]| - k
  {
    if k == |rules.dependencies[top.0]| {
      NothingEvolved(rules, st, top);
    } else {
      var d := rules.dependencies[top.0][k];
      assert d in rules.dependencies[top.0];
      var mid := WithDependency(rules, st, top.0, d);
      DependencyEvolves(rules, st, top, d);
      DependenciesEvolve(rules, mid, top, k + 1);
      EvolvedAfterEvolved(rules, st, mid, WithDependencies(rules, st, top.0, k), top);
    }
  }

  lemma {:induction false} DependencyEvolves(rules: Rules, st: State, top: (Id, Action), d: ProductDependency)
    requires ProperRules(rules) && Active(st, top) && top.0 in rules.dependencies && d in rules.dependencies[top.0]
    ensures Evolved(rules, st, WithDependency(rules, st, top.0, d), top)
    decreases rules.available.Keys - st.added.Keys, 0, 0
  {
    var req := d.requiredProductId;
    var action := EntryOf(st, req).action;
    assert ProperDependency(d);
    if st.entries[top.0].action != Some(d.productAction) || Satisfied(st, d) {
      NothingEvolved(rules, st, top);
    } else if !AvailableFor(rules.available, d) {
    } else if action == Some(RequiredAction(d)) || Real(action) || req in st.added {
      NothingEvolved(rules, st, top);
    } else {
      var mid := Requested(st, top.0, d);
      assert req in rules.available.Keys - st.added.Keys;
      assert RequiredAction(d) != Nothing;
      RequestEvolves(rules, mid, (req, RequiredAction(d)));
      EvolvedThroughRequest(rules, st, WithRequest(rules, mid, req), top.0, d);
    }
  }

  // ----- when the top product keeps its action -----

  ghost predicate Matches(rules: Rules, id: Id, k: nat, action: Action, d: ProductDependency) {
    && id in rules.dependencies && d.productAction == action
    && exists i :: k <= i < |rules.dependencies[id]| && rules.dependencies[id][i] == d
  }

  /** A step on behalf of an available or satisfied dependency leaves the requiring product alone. */
  lemma KeepsOwnEntry(rules: Rules, st: State, top: (Id, Action), d: ProductDependency)
    requires ProperRules(rules) && Active(st, top) && top.0 in rules.dependencies && d in rules.dependencies[top.0]
    requires st.entries[top.0].action == Some(top.1)
    ensures
      var r := WithDependency(rules, st, top.0, d);
      if d.productAction == top.1 && !AvailableFor(rules.available, d) && !Satisfied(st, d)
      then r == WithAction(st, top.0, Nothing) else r.entries[top.0] == st.entries[top.0]
  {
    var req := d.requiredProductId;
    var action := EntryOf(st, req).action;
    assert ProperDependency(d);
    if d.productAction == top.1 && !Satisfied(st, d) && AvailableFor(rules.available, d)
      && action != Some(RequiredAction(d)) && !Real(action) && req !in st.added {
      var mid := Requested(st, top.0, d);
      var own := (req, RequiredAction(d));
      RequestEvolves(rules, mid, own);
      assert Change(rules, mid, WithRequest(rules, mid, req), own, top.0);
      assert Real(EntryOf(mid, top.0).action);
    }
  }

  /** What was satisfied later was satisfied before: added products have no status. */
  lemma SatisfiedBefore(rules: Rules, st: State, mid: State, top: (Id, Action), d: ProductDependency)
    requires Evolved(rules, st, mid, top) && ProperDependency(d) && Satisfied(mid, d)
    ensures Satisfied(st, d)
  {
    assert Change(rules, st, mid, top, d.requiredProductId);
  }

  /** Satisfied for good: by a recorded status, or by that of a product that cannot get an entry, since
      it is not on the depot. */
  predicate StaysSatisfied(rules: Rules, st: State, d: ProductDependency) {
    Satisfied(st, d) && (d.requiredProductId in st.entries || d.requiredProductId !in rules.available)
  }

  lemma SatisfiedAfter(rules: Rules, st: State, mid: State, top: (Id, Action), d: ProductDependency)
    requires Evolved(rules, st, mid, top) && StaysSatisfied(rules, st, d)
    ensures StaysSatisfied(rules, mid, d)
  {
    assert Change(rules, st, mid, top, d.requiredProductId);
  }

  /** A product that keeps its action has all its matching dependencies available, or satisfied at the
      start; and it keeps it if all are available, or satisfied for good at the start. */
  lemma {:induction false} KeepsAction(rules: Rules, st: State, top: (Id, Action), k: nat)
    requires ProperRules(rules) && Active(st, top) && top.0 in rules.dependencies && k <= |rules.dependencies[top.0]|
    requires st.entries[top.0].action == Some(top.1)
    ensures WithDependencies(rules, st, top.0, k).entries[top.0].action == Some(top.1) ==>
              forall d :: Matches(rules, top.0, k, top.1, d) ==> AvailableFor(rules.available, d) || Satisfied(st, d)
    ensures (forall d :: Matches(rules, top.0, k, top.1, d) ==>
                AvailableFor(rules.available, d) || StaysSatisfied(rules, st, d))
            ==> WithDependencies(rules, st, top.0, k).entries[top.0].action == Some(top.1)
    decreases |rules.dependencies[top.0]| - k
  {
    if k == |rules.dependencies[top.0]| {
    } else {
      var d := rules.dependencies[top.0][k];
      assert d in rules.dependencies[top.0];
      var mid := WithDependency(rules, st, top.0, d);
      DependencyEvolves(rules, st, top, d);
      KeepsOwnEntry(rules, st, top, d);
      if mid.entries[top.0].action == Some(top.1) {
        KeepsAction(rules, mid, top, k + 1);
        KeepsActionStep(rules, st, mid, top, k);
      } else {
        assert Matches(rules, top.0, k, top.1, d);
        NoneStays(rules, mid, top.0, k + 1);
      }
    }
  }

  lemma {:induction false} NoneStays(rules: Rules, st: State, id: Id, k: nat)
    requires ProperRules(rules) && id in rules.dependencies && k <= |rules.dependencies[id]|
    requires id in st.entries && st.entries[id].action == Some(Nothing)
    ensures WithDependencies(rules, st, id, k) == st
    decreases |rules.dependencies[id]| - k
  {
    if k == |rules.dependencies[id]| {
    } else {
      var d := rules.dependencies[id][k];
      assert d in rules.dependencies[id] && ProperDependency(d);
      NoneStays(rules, st, id, k + 1);
    }
  }

  lemma KeepsActionStep(rules: Rules, st: State, mid: State, top: (Id, Action), k: nat)
    requires ProperRules(rules) && top.0 in rules.dependencies && k < |rules.dependencies[top.0]|
    requires top.0 in st.entries && st.entries[top.0].action == Some(top.1)
    requires mid == WithDependency(rules, st, top.0, rules.dependencies[top.0][k]) && Evolved(rules, st, mid, top)
    requires mid.entries[top.0].action == Some(top.1) && top.1 != Nothing
    ensures (forall d :: Matches(rules, top.0, k + 1, top.1, d) ==>
             AvailableFor(rules.available, d) || Satisfied(mid, d))
            ==> forall d :: Matches(rules, top.0, k, top.1, d) ==> AvailableFor(rules.available, d) || Satisfied(st, d)
    ensures (forall d :: Matches(rules, top.0, k, top.1, d) ==>
                AvailableFor(rules.available, d) || StaysSatisfied(rules, st, d))
            ==> forall d :: Matches(rules, top.0, k + 1, top.1, d) ==>
                  AvailableFor(rules.available, d) || StaysSatisfied(rules, mid, d)
  {
    forall d | Matches(rules, top.0, k + 1, top.1, d)
      ensures Matches(rules, top.0, k, top.1, d) && ProperDependency(d)
    {
      var i :| k + 1 <= i < |rules.dependencies[top.0]| && rules.dependencies[top.0][i] == d &&
        d.productAction == top.1;
      assert d in rules.dependencies[top.0];
    }
    forall d | Satisfied(mid, d) && ProperDependency(d)
      ensures Satisfied(st, d)
    {
      SatisfiedBefore(rules, st, mid, top, d);
    }
    forall d | StaysSatisfied(rules, st, d) ensures StaysSatisfied(rules, mid, d) {
      SatisfiedAfter(rules, st, mid, top, d);
    }
    var d0 := rules.dependencies[top.0][k];
    forall d | Matches(rules, top.0, k, top.1, d) ensures d == d0 || Matches(rules, top.0, k + 1, top.1, d) {
      var i :| k <= i < |rules.dependencies[top.0]| && rules.dependencies[top.0][i] == d && d.productAction == top.1;
    }
    KeepsOwnEntry(rules, st, top, d0);
  }

  // ----- all products of a client, each in a call of its own -----

  /** One call for each of the first k products; every call starts with nothing added. */
  ghost function AllRequested(rules: Rules, st: State, ids: seq<Id>, k: nat): (r: State)
    requires k <= |ids| && forall id :: id in ids ==> id in st.entries
    ensures st.entries.Keys <= r.entries.Keys && st.order <= r.order
  {
    if k == 0 then st
    else
      assert ids[k - 1] in ids;
      WithRequest(rules, AllRequested(rules, st, ids, k - 1).(added := map[]), ids[k - 1])
  }

  /** Without a request nothing depends on the product. */
  lemma {:induction false} NoRequestNoChange(rules: Rules, st: State, id: Id, k: nat)
    requires ProperRules(rules) && id in st.entries && !Real(st.entries[id].action)
    requires id in rules.dependencies && k <= |rules.dependencies[id]|
    ensures WithDependencies(rules, st, id, k) == st
    decreases |rules.dependencies[id]| - k
  {
    if k == |rules.dependencies[id]| {
    } else {
      var d := rules.dependencies[id][k];
      assert d in rules.dependencies[id] && ProperDependency(d);
      NoRequestNoChange(rules, st, id, k + 1);
    }
  }

  /** A top-level call: only the top product and products without a real action can change. */
  lemma TopLevelCall(rules: Rules, st: State, id: Id)
    requires ProperRules(rules) && id in st.entries && st.added == map[]
    ensures
      var r := WithRequest(rules, st, id);
      if Real(st.entries[id].action) then Evolved(rules, st, r, (id, st.entries[id].action.value)) else r == st
  {
    if Real(st.entries[id].action) {
      RequestEvolves(rules, st, (id, st.entries[id].action.value));
    } else if id in rules.dependencies {
      NoRequestNoChange(rules, st, id, 0);
    }
  }

  /** In a top-level call nothing that already holds a real action changes, but for the top product,
      which can only lose its action; and whatever gets an action is available and was asked for. */
  lemma TopLevelFrame(rules: Rules, st: State, id: Id, x: Id)
    requires ProperRules(rules) && id in st.entries && st.added == map[]
    ensures
      var r := WithRequest(rules, st, id);
      && (x in st.entries ==> x in r.entries && r.entries[x].status == st.entries[x].status)
      && (x in st.entries && Real(st.entries[x].action) && x != id ==> r.entries[x] == st.entries[x])
      && (x in st.entries && x == id ==>
            r.entries[x].action == st.entries[x].action || r.entries[x].action == Some(Nothing))
      && (EntryOf(r, x) != EntryOf(st, x) && x != id ==>
            Real(st.entries[id].action) && ProperlyAdded(rules, st, r, (id, st.entries[id].action.value), x))
  {
    TopLevelCall(rules, st, id);
    var r := WithRequest(rules, st, id);
    if Real(st.entries[id].action) {
      assert Change(rules, st, r, (id, st.entries[id].action.value), x);
    }
  }

  /** After all calls: every entry is still there with its status, and an entry that changed is of an
      available product, unless it just lost its action. */
  lemma {:induction false} AllRequestedFrame(rules: Rules, st: State, ids: seq<Id>, k: nat, x: Id)
    requires ProperRules(rules) && k <= |ids| && forall id :: id in ids ==> id in st.entries
    ensures
      var r := AllRequested(rules, st, ids, k);
      && (x in st.entries ==> x in r.entries && r.entries[x].status == st.entries[x].status)
      && (EntryOf(r, x) != EntryOf(st, x) ==> x in rules.available || EntryOf(r, x).action == Some(Nothing))
  {
    if k == 0 {
    } else {
      AllRequestedFrame(rules, st, ids, k - 1, x);
      var mid := AllRequested(rules, st, ids, k - 1).(added := map[]);
      assert ids[k - 1] in ids;
      TopLevelFrame(rules, mid, ids[k - 1], x);
    }
  }

  lemma OneDependency(rules: Rules, st: State, id: Id, k: nat)
    requires id in st.entries && id in rules.dependencies && k < |rules.dependencies[id]|
    ensures WithDependencies(rules, st, id, k) ==
            WithDependencies(rules, WithDependency(rules, st, id, rules.dependencies[id][k]), id, k + 1)
  {
  }

  lemma AllDependencies(rules: Rules, st: State, id: Id)
    requires id in st.entries && id in rules.dependencies
    ensures WithDependencies(rules, st, id, |rules.dependencies[id]|) == st
  {
  }

  // ----- the code -----

  /** order lists the keys of the dictionary, each once: there are as many places as keys. */
  ghost predicate Lists(order: seq<Id>, keys: set<Id>) {
    Elements(order) == keys && |order| == |keys|
  }

  lemma ListsOneMore(order: seq<Id>, keys: set<Id>, id: Id)
    requires Lists(order, keys) && id !in keys
    ensures Lists(order + [id], keys + {id})
  {
    assert Elements(order + [id]) == Elements(order) + {id};
  }

  ghost function EntriesIn(pocs: map<Id, ProductOnClient>): map<Id, Entry>
    reads pocs.Values
  {
    map id | id in pocs :: Entry(pocs[id].installationStatus, pocs[id].actionRequest)
  }

  lemma OneMoreEntry(pocs: map<Id, ProductOnClient>, id: Id, poc: ProductOnClient)
    ensures EntriesIn(pocs[id := poc]) == EntriesIn(pocs)[id := Entry(poc.installationStatus, poc.actionRequest)]
  {
  }

  class ActionRequester {
    const rules: Rules
    const clientId: Id
    var order: seq<Id>
    var pocs: map<Id, ProductOnClient>
    var addedInfo: map<Id, Added>
    ghost var repr: set<ProductOnClient>  // the entries

    ghost predicate Valid()
      reads this
    {
      && Lists(order, pocs.Keys)
      && forall id :: id in pocs ==> pocs[id] in repr && pocs[id].productId == id && pocs[id].clientId == clientId
    }

    ghost function View(): State
      requires Valid()
      reads this, repr
    {
      State(order, EntriesIn(pocs), addedInfo)
    }

    constructor (rules: Rules, clientId: Id, order: seq<Id>, pocs: map<Id, ProductOnClient>)
      requires Lists(order, pocs.Keys)
      requires forall id :: id in pocs ==> pocs[id].productId == id && pocs[id].clientId == clientId
      ensures Valid() && addedInfo == map[] && repr == pocs.Values
      ensures this.rules == rules && this.clientId == clientId && this.order == order && this.pocs == pocs
    {
      this.rules := rules;
      this.clientId := clientId;
      this.order := order;
      this.pocs := pocs;
      this.addedInfo := map[];
      this.repr := pocs.Values;
    }

    /** Requests the actions that the action requested for productId depends on. */
    method AddActionRequest(productId: Id)
      requires Valid() && productId in pocs && ProperRules(rules)
      modifies this, repr
      ensures Valid() && Kept(old(pocs), old(repr))
      ensures View() == WithRequest(rules, old(View()), productId)
      decreases rules.available.Keys - addedInfo.Keys, 2, 0
    {
      hide Lists, ProperDependency;
      if pocs[productId].actionRequest == Some(Nothing) || productId !in rules.dependencies {
        return;
      }
      var dependencies := rules.dependencies[productId];
      ghost var final := WithRequest(rules, View(), productId);
      ghost var added0 := addedInfo.Keys;
      assert forall d :: d in dependencies ==> ProperDependency(d);
      hide WithDependency, WithDependencies, WithRequest, ProperRules;
      var k := 0;
      while k < |dependencies|
        invariant Valid() && productId in pocs && Kept(old(pocs), old(repr))
        invariant 0 <= k <= |dependencies|
        invariant added0 <= addedInfo.Keys
        invariant productId in View().entries && WithDependencies(rules, View(), productId, k) == final
      {
        OneDependency(rules, View(), productId, k);
        HandleDependency(productId, dependencies[k]);
        k := k + 1;
      }
      AllDependencies(rules, View(), productId);
    }

    /** The entries of before are still there, as the same objects, and all others are new. */
    twostate predicate Kept(before: map<Id, ProductOnClient>, objects: set<ProductOnClient>)
      reads this
    {
      && (forall id :: id in before ==> id in pocs && pocs[id] == before[id])
      && objects <= repr && fresh(repr - objects)
    }

    method SetAction(id: Id, action: Action)
      requires Valid() && id in pocs
      modifies pocs[id]
      ensures Valid() && View() == WithAction(old(View()), id, action)
    {
      forall x | x in pocs && x != id ensures pocs[x] != pocs[id] { assert pocs[x].productId == x; }
      pocs[id].actionRequest := Some(action);
      assert View().entries == WithAction(old(View()), id, action).entries;
    }

    /** A product not known on the client yet gets an entry without status and action. */
    method AddEntry(id: Id, poc: ProductOnClient)
      requires Valid() && id !in pocs && poc !in repr && poc.clientId == clientId && poc.productId == id
      requires poc.installationStatus == None && poc.actionRequest == Some(Nothing)
      modifies this
      ensures Valid() && pocs == old(pocs)[id := poc] && repr == old(repr) + {poc}
      ensures addedInfo == old(addedInfo)
      ensures View() == old(View()).(order := old(order) + [id],
                                     entries := old(View()).entries[id := Entry(None, Some(Nothing))])
    {
      hide Lists, EntriesIn, Distinct;
      ListsOneMore(order, pocs.Keys, id);
      OneMoreEntry(pocs, id, poc);
      ghost var known := pocs;
      pocs := pocs[id := poc];
      repr := repr + {poc};
      order := order + [id];
      assert pocs.Keys == known.Keys + {id};
    }

    /** Looks at one dependency of productId. */
    method HandleDependency(productId: Id, dependency: ProductDependency)
      requires Valid() && productId in pocs && ProperRules(rules)
      requires ProperDependency(dependency)
      modifies this, repr
      ensures Valid() && Kept(old(pocs), old(repr))
      ensures View() == WithDependency(rules, old(View()), productId, dependency)
      decreases rules.available.Keys - addedInfo.Keys, 1, 0
    {
      hide Lists, WithRequest;
      var requiredId := dependency.requiredProductId;
      if pocs[productId].actionRequest != Some(dependency.productAction) {
        return;
      }
      var requiredAction := dependency.requiredAction;
      var installationStatus := Some(NotInstalled);
      var actionRequest := Some(Nothing);
      if requiredId in pocs {
        installationStatus := pocs[requiredId].installationStatus;
        actionRequest := pocs[requiredId].actionRequest;
      }
      if requiredAction.None? {
        if dependency.requiredInstallationStatus == installationStatus {
          return;
        }
        if dependency.requiredInstallationStatus == Some(Installed) {
          requiredAction := Some(Setup);
        } else if dependency.requiredInstallationStatus == Some(NotInstalled) {
          requiredAction := Some(Uninstall);
        }
      }
      if !AvailableFor(rules.available, dependency) {
        SetAction(productId, Nothing);
        return;
      }
      if actionRequest == requiredAction {
        return;
      }
      if actionRequest.Some? && actionRequest.value != Nothing {
        return;
      }
      if requiredId in addedInfo {
        return;
      }
      AddRequired(productId, dependency, requiredAction.value);
    }

    lemma KnownEntry(id: Id)
      requires Valid()
      ensures id in View().entries <==> id in pocs
    {
    }

    /** Gives the required product an entry, if it has none, and its action. */
    method PutRequired(productId: Id, dependency: ProductDependency, requiredAction: Action)
      requires Valid() && productId in pocs && requiredAction == RequiredAction(dependency)
      modifies this, repr
      ensures Valid() && Kept(old(pocs), old(repr)) && dependency.requiredProductId in pocs
      ensures addedInfo.Keys == old(addedInfo).Keys + {dependency.requiredProductId}
      ensures View() == Requested(old(View()), productId, dependency)
    {
      hide Lists, RequiredAction, EntriesIn;
      var requiredId := dependency.requiredProductId;
      KnownEntry(requiredId);
      if requiredId !in pocs {
        var poc := new ProductOnClient(clientId, requiredId, None, Some(Nothing));
        AddEntry(requiredId, poc);
      }
      ghost var known := View();
      addedInfo := addedInfo[requiredId := Added(productId, requiredAction, dependency.requirementType)];
      assert View() == known.(added := addedInfo);
      SetAction(requiredId, requiredAction);
    }

    /** Adds the required product with its action, and all that this action depends on. */
    method AddRequired(productId: Id, dependency: ProductDependency, requiredAction: Action)
      requires Valid() && productId in pocs && ProperRules(rules)
      requires requiredAction == RequiredAction(dependency)
      requires AvailableFor(rules.available, dependency) && dependency.requiredProductId !in addedInfo
      modifies this, repr
      ensures Valid() && Kept(old(pocs), old(repr))
      ensures View() == WithRequest(rules, Requested(old(View()), productId, dependency), dependency.requiredProductId)
      decreases rules.available.Keys - addedInfo.Keys, 0, 0
    {
      hide WithRequest, Requested, ProperRules, Lists;
      PutRequired(productId, dependency, requiredAction);
      assert dependency.requiredProductId in rules.available.Keys - old(addedInfo).Keys;
      AddActionRequest(dependency.requiredProductId);
    }

    /** A top-level call starts with nothing added. */
    method TopLevelRequest(id: Id)
      requires Valid() && ProperRules(rules) && id in pocs
      modifies this, repr
      ensures Valid() && Kept(old(pocs), old(repr))
      ensures View() == WithRequest(rules, old(View()).(added := map[]), id)
    {
      hide WithRequest, ProperRules, Lists;
      ghost var st := View();
      addedInfo := map[];
      assert View() == st.(added := map[]);
      AddActionRequest(id);
    }

    lemma KnownAtStart()
      requires Valid()
      ensures forall id :: id in order ==> id in pocs && id in View().entries
    {
      assert forall id :: id in order ==> id in Elements(order);
    }

    /** One call for every product that the client has an entry for at the start. */
    method AddDependent()
      requires Valid() && ProperRules(rules)
      modifies this, repr
      ensures Valid() && Kept(old(pocs), old(repr))
      ensures View() == AllRequested(rules, old(View()), old(order), |old(order)|)
    {
      hide WithRequest, ProperRules, Lists, View;
      var ids := order;
      ghost var st := View();
      KnownAtStart();
      for k := 0 to |ids|
        invariant Valid() && Kept(old(pocs), old(repr))
        invariant View() == AllRequested(rules, st, ids, k)
      {
        assert ids[k] in ids;
        TopLevelRequest(ids[k]);
      }
    }
  }
}
