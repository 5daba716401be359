/** What the calls for all products of a client achieve together. */
module ClientClosure {
  import opened Collections
  import opened ProductsOnClients
  import opened ActionRequests
  import opened RequestClosure

  ghost predicate HaveEntries(st: State, ids: seq<Id>) {
    forall id :: id in ids ==> id in st.entries
  }

  /** The state in which call k starts. */
  ghost function BeforeCall(rules: Rules, st: State, ids: seq<Id>, k: nat): State
    requires k <= |ids| && HaveEntries(st, ids)
  {
    AllRequested(rules, st, ids, k).(added := map[])
  }

  /** What has been added in the first k calls. */
  ghost function AddedIn(rules: Rules, st: State, ids: seq<Id>, k: nat): set<Id>
    requires k <= |ids| && HaveEntries(st, ids)
  {
    if k == 0 then {} else AddedIn(rules, st, ids, k - 1) + AllRequested(rules, st, ids, k).added.Keys
  }

  /** The products that have lost their action in their own call, among the first k calls. */
  ghost function LostIn(rules: Rules, st: State, ids: seq<Id>, k: nat): set<Id>
    requires k <= |ids| && HaveEntries(st, ids)
  {
    if k == 0 then {}
    else
      assert ids[k - 1] in ids;
      var id, before, after := ids[k - 1], BeforeCall(rules, st, ids, k - 1), AllRequested(rules, st, ids, k);
      LostIn(rules, st, ids, k - 1)
      + if Real(before.entries[id].action) && !Real(after.entries[id].action) then {id} else {}
  }

  /** The dependency has been satisfied from the start, or its product is available and holds a real
      action, or is one of those given. */
  ghost predicate MetOr(rules: Rules, start: State, r: State, d: ProductDependency, others: set<Id>) {
    || Satisfied(start, d)
    || (&& AvailableFor(rules.available, d)
        && (Real(EntryOf(r, d.requiredProductId).action) || d.requiredProductId in others))
  }

  ghost predicate AnsweredOr(rules: Rules, start: State, r: State, x: Id, others: set<Id>) {
    x in r.entries && x in rules.dependencies ==>
      forall d :: d in rules.dependencies[x] && r.entries[x].action == Some(d.productAction) ==>
        MetOr(rules, start, r, d, others)
  }

  /** Statuses stay, and new entries have none, and are of available products. */
  lemma {:induction false} StatusesStay(rules: Rules, st: State, ids: seq<Id>, k: nat, x: Id)
    requires ProperRules(rules) && k <= |ids| && HaveEntries(st, ids)
    ensures
      var r := AllRequested(rules, st, ids, k);
      && (x in st.entries ==> x in r.entries && r.entries[x].status == st.entries[x].status)
      && (x !in st.entries && x in r.entries ==> r.entries[x].status == None && x in rules.available)
  {
    if k == 0 {
    } else {
      StatusesStay(rules, st, ids, k - 1, x);
      var mid := BeforeCall(rules, st, ids, k - 1);
      assert ids[k - 1] in ids;
      TopLevelCall(rules, mid, ids[k - 1]);
      if Real(mid.entries[ids[k - 1]].action) {
        var top := (ids[k - 1], mid.entries[ids[k - 1]].action.value);
        assert Change(rules, mid, AllRequested(rules, st, ids, k), top, x);
      }
    }
  }

  lemma SatisfiedAtStart(rules: Rules, st: State, ids: seq<Id>, k: nat, d: ProductDependency)
    requires ProperRules(rules) && k <= |ids| && HaveEntries(st, ids) && ProperDependency(d)
    requires Satisfied(BeforeCall(rules, st, ids, k), d)
    ensures Satisfied(st, d)
  {
    StatusesStay(rules, st, ids, k, d.requiredProductId);
  }

  /** What has been met before a call is met after it, or the product of the call has lost its action. */
  lemma MetAfterCall(rules: Rules, st: State, ids: seq<Id>, k: nat, d: ProductDependency)
    requires ProperRules(rules) && 0 < k <= |ids| && HaveEntries(st, ids)
    requires MetOr(rules, st, AllRequested(rules, st, ids, k - 1), d,
                   AddedIn(rules, st, ids, k - 1) + LostIn(rules, st, ids, k - 1))
    ensures MetOr(rules, st, AllRequested(rules, st, ids, k), d, AddedIn(rules, st, ids, k) + LostIn(rules, st, ids, k))
  {
    var mid, r := BeforeCall(rules, st, ids, k - 1), AllRequested(rules, st, ids, k);
    assert ids[k - 1] in ids;
    TopLevelCall(rules, mid, ids[k - 1]);
    if Real(mid.entries[ids[k - 1]].action) {
      var top := (ids[k - 1], mid.entries[ids[k - 1]].action.value);
      assert Change(rules, mid, r, top, d.requiredProductId);
    }
  }

  /** After k calls: every product whose call has been made, or which has been added, has all that its
      action depends on satisfied at the start, or holding a real action, or added in some call, or
      deprived of its action in its own call. */
  lemma {:induction false} CallsClose(rules: Rules, st: State, ids: seq<Id>, k: nat, x: Id)
    requires ProperRules(rules) && k <= |ids| && HaveEntries(st, ids)
    requires x in ids[..k] || x in AddedIn(rules, st, ids, k)
    ensures
      AnsweredOr(rules, st, AllRequested(rules, st, ids, k), x, AddedIn(rules, st, ids, k) + LostIn(rules, st, ids, k))
  {
    if k == 0 {
    } else {
      var id, mid, r := ids[k - 1], BeforeCall(rules, st, ids, k - 1), AllRequested(rules, st, ids, k);
      assert id in ids && ids[..k] == ids[..k - 1] + [id];
      TopLevelCall(rules, mid, id);
      if Real(mid.entries[id].action) && (x == id || New(mid, r, x)) {
        AnsweredInCall(rules, st, ids, k, x);
      } else if !Real(mid.entries[id].action) && x == id {
        assert forall d :: id in rules.dependencies && d in rules.dependencies[id] ==> ProperDependency(d);
      } else {
        CallsClose(rules, st, ids, k - 1, x);
        assert Real(mid.entries[id].action) ==> Change(rules, mid, r, (id, mid.entries[id].action.value), x);
        if x in r.entries && x in rules.dependencies {
          forall d | d in rules.dependencies[x] && r.entries[x].action == Some(d.productAction)
            ensures MetOr(rules, st, r, d, AddedIn(rules, st, ids, k) + LostIn(rules, st, ids, k))
          {
            MetAfterCall(rules, st, ids, k, d);
          }
        }
      }
    }
  }

  lemma AnsweredInCall(rules: Rules, st: State, ids: seq<Id>, k: nat, x: Id)
    requires ProperRules(rules) && 0 < k <= |ids| && HaveEntries(st, ids) && ids[k - 1] in st.entries
    requires Real(BeforeCall(rules, st, ids, k - 1).entries[ids[k - 1]].action)
    requires x == ids[k - 1] || New(BeforeCall(rules, st, ids, k - 1), AllRequested(rules, st, ids, k), x)
    ensures
      AnsweredOr(rules, st, AllRequested(rules, st, ids, k), x, AddedIn(rules, st, ids, k) + LostIn(rules, st, ids, k))
  {
    var id, mid, r := ids[k - 1], BeforeCall(rules, st, ids, k - 1), AllRequested(rules, st, ids, k);
    var top := (id, mid.entries[id].action.value);
    RequestCloses(rules, mid, top);
    RequestEvolves(rules, mid, top);
    assert Answered(rules, mid, r, id, x);
    if x in r.entries && x in rules.dependencies {
      forall d | d in rules.dependencies[x] && r.entries[x].action == Some(d.productAction)
        ensures MetOr(rules, st, r, d, AddedIn(rules, st, ids, k) + LostIn(rules, st, ids, k))
      {
        assert ProperDependency(d) && Met(rules, mid, r, id, d);
        if Satisfied(mid, d) { SatisfiedAtStart(rules, st, ids, k - 1, d); }
      }
    }
  }

  /** The calls have been made for all products with an entry. */
  ghost predicate Covers(st: State, ids: seq<Id>) {
    forall id :: id in ids <==> id in st.entries
  }

  /** Every entry after all calls belongs to a product whose call has been made, or which was added. */
  lemma {:induction false} EntriesAreCovered(rules: Rules, st: State, ids: seq<Id>, k: nat, x: Id)
    requires ProperRules(rules) && k <= |ids| && HaveEntries(st, ids) && x in AllRequested(rules, st, ids, k).entries
    ensures x in st.entries || x in AddedIn(rules, st, ids, k)
  {
    if k == 0 {
    } else {
      var mid := BeforeCall(rules, st, ids, k - 1);
      assert ids[k - 1] in ids;
      TopLevelCall(rules, mid, ids[k - 1]);
      if x in mid.entries {
        EntriesAreCovered(rules, st, ids, k - 1, x);
      } else {
        var top := (ids[k - 1], mid.entries[ids[k - 1]].action.value);
        assert Change(rules, mid, AllRequested(rules, st, ids, k), top, x);
      }
    }
  }

  /** After the calls for all its products, everything that an action on the client depends on has been
      seen to. */
  lemma ClientCloses(rules: Rules, st: State, ids: seq<Id>, x: Id)
    requires ProperRules(rules) && Covers(st, ids)
    ensures
      AnsweredOr(rules, st, AllRequested(rules, st, ids, |ids|), x,
                 AddedIn(rules, st, ids, |ids|) + LostIn(rules, st, ids, |ids|))
  {
    if x in AllRequested(rules, st, ids, |ids|).entries {
      EntriesAreCovered(rules, st, ids, |ids|, x);
      assert ids[..|ids|] == ids;
      CallsClose(rules, st, ids, |ids|, x);
    }
  }

  // ----- when no product lets another one down -----

  /** Nothing that an action on the client depends on is unmet. */
  ghost predicate ClientClosed(rules: Rules, st: State, ids: seq<Id>)
    requires HaveEntries(st, ids)
  {
    forall x :: AnsweredOr(rules, st, AllRequested(rules, st, ids, |ids|), x, AddedIn(rules, st, ids, |ids|))
  }

  /** The final action of x depends on a product that has lost its action in its own call, and has neither
      got one since nor been there from the start. */
  ghost predicate LetDown(rules: Rules, st: State, ids: seq<Id>, x: Id, d: ProductDependency)
    requires HaveEntries(st, ids)
  {
    var r := AllRequested(rules, st, ids, |ids|);
    && x in r.entries && x in rules.dependencies && d in rules.dependencies[x]
    && r.entries[x].action == Some(d.productAction) && !Satisfied(st, d)
    && d.requiredProductId in LostIn(rules, st, ids, |ids|) - AddedIn(rules, st, ids, |ids|)
    && !Real(EntryOf(r, d.requiredProductId).action)
  }

  /** Exactly then something is unmet. */
  lemma ClientClosedExactly(rules: Rules, st: State, ids: seq<Id>)
    requires ProperRules(rules) && Covers(st, ids)
    ensures ClientClosed(rules, st, ids) <==> forall x, d :: !LetDown(rules, st, ids, x, d)
  {
    var r, added := AllRequested(rules, st, ids, |ids|), AddedIn(rules, st, ids, |ids|);
    if ClientClosed(rules, st, ids) {
      forall x, d ensures !LetDown(rules, st, ids, x, d) {
        assert AnsweredOr(rules, st, r, x, added);
      }
    }
    if forall x, d :: !LetDown(rules, st, ids, x, d) {
      forall x ensures AnsweredOr(rules, st, r, x, added) {
        ClientCloses(rules, st, ids, x);
        if x in r.entries && x in rules.dependencies {
          forall d | d in rules.dependencies[x] && r.entries[x].action == Some(d.productAction)
            ensures MetOr(rules, st, r, d, added)
          {
            assert !LetDown(rules, st, ids, x, d);
          }
        }
      }
    }
  }

  /** A product loses its action only over a dependency of this action that is neither available nor
      satisfied for good. */
  lemma RefusedInCall(rules: Rules, st: State, ids: seq<Id>, k: nat, top: (Id, Action))
    requires ProperRules(rules) && k < |ids| && HaveEntries(st, ids) && top.0 == ids[k] && top.1 != Nothing
    requires top.0 in st.entries && BeforeCall(rules, st, ids, k).entries[top.0].action == Some(top.1)
    requires !Real(WithRequest(rules, BeforeCall(rules, st, ids, k), top.0).entries[top.0].action)
    ensures top.0 in rules.dependencies
    ensures exists d :: d in rules.dependencies[top.0] && d.productAction == top.1 &&
              !AvailableFor(rules.available, d) && !StaysSatisfied(rules, st, d)
  {
    var mid := BeforeCall(rules, st, ids, k);
    assert top.0 in rules.dependencies;
    if forall d :: d in rules.dependencies[top.0] && d.productAction == top.1 ==>
         AvailableFor(rules.available, d) || StaysSatisfied(rules, st, d) {
      forall d | Matches(rules, top.0, 0, top.1, d)
        ensures AvailableFor(rules.available, d) || StaysSatisfied(rules, mid, d)
      {
        assert d in rules.dependencies[top.0];
        StatusesStay(rules, st, ids, k, d.requiredProductId);
      }
      KeepsAction(rules, mid, top, 0);
      assert false;
    }
  }

  lemma {:induction false} LostIsRefused(rules: Rules, st: State, ids: seq<Id>, k: nat, id: Id)
    requires ProperRules(rules) && k <= |ids| && HaveEntries(st, ids) && id in LostIn(rules, st, ids, k)
    ensures id in ids && id in rules.dependencies
    ensures exists d :: d in rules.dependencies[id] &&
              !AvailableFor(rules.available, d) && !StaysSatisfied(rules, st, d)
  {
    if id in LostIn(rules, st, ids, k - 1) {
      LostIsRefused(rules, st, ids, k - 1, id);
    } else {
      assert id == ids[k - 1] && id in ids;
      RefusedInCall(rules, st, ids, k - 1, (id, BeforeCall(rules, st, ids, k - 1).entries[id].action.value));
    }
  }

  /** So nothing is unmet if everything that the client's products depend on is available or satisfied
      for good. */
  lemma AvailableIsClosed(rules: Rules, st: State, ids: seq<Id>)
    requires ProperRules(rules) && Covers(st, ids)
    requires forall id, d :: id in st.entries && id in rules.dependencies && d in rules.dependencies[id] ==>
               AvailableFor(rules.available, d) || StaysSatisfied(rules, st, d)
    ensures ClientClosed(rules, st, ids)
  {
    forall x, d ensures !LetDown(rules, st, ids, x, d) {
      if d.requiredProductId in LostIn(rules, st, ids, |ids|) {
        LostIsRefused(rules, st, ids, |ids|, d.requiredProductId);
      }
    }
    ClientClosedExactly(rules, st, ids);
  }

  /** A product can be let down in a later call: a requires b, and b the missing c; both are requested, and
      a's call comes first. In the end a is to be set up, but b is not. */
  lemma LaterCallMayLetDown(a: Id, b: Id, c: Id, versions: Availability)
    requires a != b && a != c && b != c
    ensures
      var rules := Rules(map[a := [Needs(a, b)], b := [Needs(b, c)]], map[a := versions, b := versions]);
      var requested := Entry(Some(NotInstalled), Some(Setup));
      var st := State([a, b], map[a := requested, b := requested], map[]);
      && ProperRules(rules) && Covers(st, [a, b]) && LetDown(rules, st, [a, b], a, Needs(a, b))
  {
    var rules := Rules(map[a := [Needs(a, b)], b := [Needs(b, c)]], map[a := versions, b := versions]);
    var requested := Entry(Some(NotInstalled), Some(Setup));
    var st := State([a, b], map[a := requested, b := requested], map[]);
    var ids := [a, b];
    assert WithDependency(rules, st, a, Needs(a, b)) == st;
    assert WithDependencies(rules, st, a, 1) == st;
    assert WithDependencies(rules, st, a, 0) == st;
    assert AllRequested(rules, st, ids, 0) == st && AllRequested(rules, st, ids, 1) == st;
    assert BeforeCall(rules, st, ids, 1) == st && AddedIn(rules, st, ids, 0) == AddedIn(rules, st, ids, 1) == {};
    var last := WithAction(st, b, Nothing);
    assert WithDependency(rules, st, b, Needs(b, c)) == last;
    assert WithDependencies(rules, last, b, 1) == last;
    assert WithDependencies(rules, st, b, 0) == last;
    assert AllRequested(rules, st, ids, 2) == last;
    assert b in LostIn(rules, st, ids, 2) && AddedIn(rules, st, ids, 2) == {};
  }
}
