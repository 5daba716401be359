/** Which requested products never let another one down, told before the calls for a client. */
module ClientSafety {
  import opened Collections
  import opened ProductsOnClients
  import opened ActionRequests
  import opened RequestClosure
  import opened RequestSafety
  import opened ClientClosure

  /** Nothing can come to rely on the product, which is not on the depot, or all that its action depends
      on is available or satisfied for good. */
  predicate Reliable(rules: Rules, st: State, top: (Id, Action)) {
    top.0 in rules.available && top.0 in rules.dependencies ==>
      forall d :: d in rules.dependencies[top.0] && Concerns(top, d) ==>
        AvailableFor(rules.available, d) || StaysSatisfied(rules, st, d)
  }

  /** On another client the products that id depends on have the same statuses. */
  ghost predicate SameStatuses(rules: Rules, st: State, client: State, id: Id) {
    id in rules.dependencies ==>
      forall d :: d in rules.dependencies[id] ==> SameStatus(st, client, d.requiredProductId)
  }

  ghost predicate SameStatus(st: State, client: State, x: Id) {
    && (x in client.entries <==> x in st.entries)
    && (x in st.entries ==> client.entries[x].status == st.entries[x].status)
  }

  /** Any client that has the action requested for the product, any dependencies of other products, and
      any order of the calls. */
  ghost predicate Situation(rules: Rules, st: State, top: (Id, Action), others: Rules, client: State, ids: seq<Id>) {
    && SameFor(rules, others, top.0) && ProperRules(others)
    && Covers(client, ids) && Distinct(ids)
    && top.0 in client.entries && client.entries[top.0].action == Some(top.1)
    && SameStatuses(rules, st, client, top.0)
  }

  /** In that situation nothing is let down by the product. */
  ghost predicate LetsNoneDown(others: Rules, client: State, ids: seq<Id>, id: Id)
    requires HaveEntries(client, ids)
  {
    forall x, d :: LetDown(others, client, ids, x, d) ==> d.requiredProductId != id
  }

  /** A requested product lets none down, in whatever situation, exactly if it is reliable. */
  lemma ReliableExactly(rules: Rules, st: State, top: (Id, Action))
    requires ProperRules(rules) && top.0 in st.entries && top.1 != Nothing
    ensures
      Reliable(rules, st, top) <==>
      forall others, client, ids :: Situation(rules, st, top, others, client, ids) ==>
        LetsNoneDown(others, client, ids, top.0)
  {
    if Reliable(rules, st, top) {
      forall others, client, ids | Situation(rules, st, top, others, client, ids)
        ensures LetsNoneDown(others, client, ids, top.0)
      {
        ReliableHolds(rules, st, top, others, client, ids);
      }
    } else {
      var d :| d in rules.dependencies[top.0] && Concerns(top, d)
        && !AvailableFor(rules.available, d) && !StaysSatisfied(rules, st, d);
      UnreliableFails(rules, st, top, d);
    }
  }

  // ----- reliable products -----

  lemma ReliableHolds(rules: Rules, st: State, top: (Id, Action), others: Rules, client: State, ids: seq<Id>)
    requires Reliable(rules, st, top) && Situation(rules, st, top, others, client, ids) && top.1 != Nothing
    ensures LetsNoneDown(others, client, ids, top.0)
  {
    forall x, d | LetDown(others, client, ids, x, d) ensures d.requiredProductId != top.0 {
      if d.requiredProductId == top.0 {
        ClientCloses(others, client, ids, x);
        LostOver(others, client, ids, |ids|, top);
        var e :| e in others.dependencies[top.0] && Concerns(top, e)
          && !AvailableFor(others.available, e) && !StaysSatisfied(others, client, e);
        assert SameStatus(st, client, e.requiredProductId);
        assert StaysSatisfied(rules, st, e) ==> StaysSatisfied(others, client, e);
        assert false;
      }
    }
  }

  /** An action requested from the start stays up to the product's own call. */
  lemma {:induction false} RealUntilOwnCall(rules: Rules, st: State, ids: seq<Id>, k: nat, id: Id)
    requires ProperRules(rules) && k <= |ids| && HaveEntries(st, ids)
    requires id in st.entries && Real(st.entries[id].action) && id !in ids[..k]
    ensures
      var r := AllRequested(rules, st, ids, k);
      id in r.entries && r.entries[id] == st.entries[id] && id !in AddedIn(rules, st, ids, k)
  {
    if k == 0 {
    } else {
      assert ids[..k] == ids[..k - 1] + [ids[k - 1]] && ids[k - 1] in ids;
      RealUntilOwnCall(rules, st, ids, k - 1, id);
      var mid := BeforeCall(rules, st, ids, k - 1);
      TopLevelCall(rules, mid, ids[k - 1]);
      if Real(mid.entries[ids[k - 1]].action) {
        var top := (ids[k - 1], mid.entries[ids[k - 1]].action.value);
        assert Change(rules, mid, AllRequested(rules, st, ids, k), top, id);
      }
    }
  }

  /** It is lost only over a dependency of its own that is neither available nor satisfied for good. */
  lemma {:induction false} LostOver(rules: Rules, st: State, ids: seq<Id>, k: nat, top: (Id, Action))
    requires ProperRules(rules) && k <= |ids| && HaveEntries(st, ids) && Distinct(ids)
    requires top.0 in st.entries && st.entries[top.0].action == Some(top.1) && top.1 != Nothing
    requires top.0 in LostIn(rules, st, ids, k)
    ensures top.0 in rules.dependencies
    ensures exists d :: d in rules.dependencies[top.0] && Concerns(top, d) &&
              !AvailableFor(rules.available, d) && !StaysSatisfied(rules, st, d)
  {
    if top.0 in LostIn(rules, st, ids, k - 1) {
      LostOver(rules, st, ids, k - 1, top);
    } else {
      assert top.0 == ids[k - 1] && top.0 in ids;
      OwnCallLast(ids, k);
      RealUntilOwnCall(rules, st, ids, k - 1, top.0);
      RefusedInCall(rules, st, ids, k - 1, top);
    }
  }

  lemma OwnCallLast(ids: seq<Id>, k: nat)
    requires Distinct(ids) && 0 < k <= |ids|
    ensures ids[k - 1] !in ids[..k - 1]
  {
  }

  // ----- unreliable products -----

  /** There is always another id. */
  lemma {:induction false} AnotherId(s: set<Id>) returns (x: Id)
    ensures x !in s && forall id :: id in s ==> |id.name| < |x.name|
  {
    if s == {} {
      x := Id("");
    } else {
      var id :| id in s;
      var y := AnotherId(s - {id});
      x := Id(y.name + id.name + "x");
    }
  }

  lemma {:induction false} Enumerated(s: set<Id>) returns (ids: seq<Id>)
    ensures Distinct(ids) && forall id :: id in ids <==> id in s
  {
    if s == {} {
      ids := [];
    } else {
      var id :| id in s;
      var rest := Enumerated(s - {id});
      ids := [id] + rest;
    }
  }

  /** Besides the product, a new one is requested that relies on it; before, it adds the product whose
      status is asked for, should that be possible. */
  ghost function NewRelying(rules: Rules, st: State, top: (Id, Action), x: Id, y: Id): Rules
    requires top.0 in rules.dependencies
  {
    var own, first := Need(x, Setup, top.0, top.1), Need(x, Setup, y, Setup);
    Rules(map[x := if y in rules.available && y !in st.entries then [first, own] else [own],
              top.0 := rules.dependencies[top.0]],
          rules.available)
  }

  /** The same statuses, but no other action requested. */
  ghost function TwoRequested(st: State, top: (Id, Action), x: Id): State
    requires top.0 in st.entries
  {
    State([],
          map id | id in st.entries.Keys + {x} ::
            if id == x then Entry(None, Some(Setup))
            else Entry(st.entries[id].status, Some(if id == top.0 then top.1 else Nothing)),
          map[])
  }

  /** What is refused to top: a dependency neither available nor satisfied for good; and x is new. */
  ghost predicate Refused(rules: Rules, st: State, top: (Id, Action), x: Id, d: ProductDependency) {
    && ProperRules(rules) && top.0 in st.entries && top.1 != Nothing
    && top.0 in rules.available && top.0 in rules.dependencies && d in rules.dependencies[top.0] && Concerns(top, d)
    && !AvailableFor(rules.available, d) && !StaysSatisfied(rules, st, d)
    && x !in st.entries && forall e :: e in rules.dependencies[top.0] ==> e.requiredProductId != x
  }

  /** The call for x: it keeps its action, top is left alone, and what top is refused is not satisfied. */
  lemma RelyingCall(rules: Rules, st: State, top: (Id, Action), x: Id, d: ProductDependency)
    requires Refused(rules, st, top, x, d)
    ensures
      var others, client := NewRelying(rules, st, top, x, d.requiredProductId), TwoRequested(st, top, x);
      var r := WithRequest(others, client, x);
      && ProperRules(others) && x in r.entries && r.entries[x].action == Some(Setup)
      && top.0 in r.entries && r.entries[top.0].action == Some(top.1) && top.0 !in r.added && !Satisfied(r, d)
  {
    var y := d.requiredProductId;
    var others, client := NewRelying(rules, st, top, x, y), TwoRequested(st, top, x);
    var own := (x, Setup);
    var r := WithRequest(others, client, x);
    assert ProperDependency(d);
    forall f | Matches(others, x, 0, own.1, f) ensures AvailableFor(others.available, f) {
      assert f in others.dependencies[x];
    }
    RequestEvolves(others, client, own);
    KeepsAction(others, client, own, 0);
    assert Change(others, client, r, own, top.0) && Real(client.entries[top.0].action);
    if Satisfied(st, d) {
      var first := Need(x, Setup, y, Setup);
      RequestCloses(others, client, own);
      assert Answered(others, client, r, x, x);
      assert first in others.dependencies[x] && Met(others, client, r, x, first);
      assert Change(others, client, r, own, y);
      assert New(client, r, y) && r.entries[y].status == None;
    } else if Satisfied(r, d) {
      SatisfiedBefore(others, client, r, own, d);
    }
  }

  /** The call for top: it loses its action, and x is left alone. */
  lemma RefusedCall(rules: Rules, mid: State, top: (Id, Action), x: Id, d: ProductDependency)
    requires ProperRules(rules) && mid.added == map[] && top.0 in mid.entries && x in mid.entries && x != top.0
    requires mid.entries[top.0].action == Some(top.1) && top.1 != Nothing && mid.entries[x].action == Some(Setup)
    requires top.0 in rules.dependencies && d in rules.dependencies[top.0] && Concerns(top, d)
    requires !AvailableFor(rules.available, d) && !Satisfied(mid, d)
    ensures
      var r := WithRequest(rules, mid, top.0);
      && top.0 in r.entries && !Real(r.entries[top.0].action) && top.0 !in r.added
      && x in r.entries && r.entries[x].action == Some(Setup)
  {
    var r := WithRequest(rules, mid, top.0);
    RequestEvolves(rules, mid, top);
    KeepsAction(rules, mid, top, 0);
    var i :| 0 <= i < |rules.dependencies[top.0]| && rules.dependencies[top.0][i] == d;
    assert Matches(rules, top.0, 0, top.1, d);
    assert Change(rules, mid, r, top, x) && Change(rules, mid, r, top, top.0);
  }

  /** Calls for products without dependencies change nothing. */
  lemma {:induction false} QuietCalls(rules: Rules, st: State, ids: seq<Id>, j: nat, k: nat)
    requires j <= k <= |ids| && HaveEntries(st, ids) && forall m :: j <= m < k ==> ids[m] !in rules.dependencies
    ensures AllRequested(rules, st, ids, k).entries == AllRequested(rules, st, ids, j).entries
    ensures AddedIn(rules, st, ids, k) == AddedIn(rules, st, ids, j)
    ensures LostIn(rules, st, ids, j) <= LostIn(rules, st, ids, k)
    decreases k
  {
    if j == k {
    } else {
      QuietCalls(rules, st, ids, j, k - 1);
      assert ids[k - 1] in ids;
      assert AllRequested(rules, st, ids, k) == BeforeCall(rules, st, ids, k - 1);
    }
  }

  lemma UnreliableFails(rules: Rules, st: State, top: (Id, Action), d: ProductDependency)
    requires ProperRules(rules) && top.0 in st.entries && top.1 != Nothing
    requires top.0 in rules.available && top.0 in rules.dependencies
    requires d in rules.dependencies[top.0] && Concerns(top, d)
    requires !AvailableFor(rules.available, d) && !StaysSatisfied(rules, st, d)
    ensures exists others, client, ids :: Situation(rules, st, top, others, client, ids)
              && !LetsNoneDown(others, client, ids, top.0)
  {
    var x := AnotherId(st.entries.Keys + set e | e in rules.dependencies[top.0] :: e.requiredProductId);
    assert Refused(rules, st, top, x, d);
    var others, client := NewRelying(rules, st, top, x, d.requiredProductId), TwoRequested(st, top, x);
    var ids := OthersBehind(st, top, x);
    RelyingSituation(rules, st, top, x, d, ids);
    TwoCalls(rules, st, top, x, d, ids);
    QuietBehind(others, client, ids, x, top.0);
    QuietCalls(others, client, ids, 2, |ids|);
    var own := Need(x, Setup, top.0, top.1);
    assert own in others.dependencies[x];
    assert own.requiredProductId == top.0 && !Satisfied(client, own);
    assert LetDown(others, client, ids, x, own);
    assert !LetsNoneDown(others, client, ids, top.0);
  }

  lemma QuietBehind(rules: Rules, client: State, ids: seq<Id>, x: Id, y: Id)
    requires Distinct(ids) && |ids| >= 2 && ids[0] == x && ids[1] == y
    requires forall id :: id in rules.dependencies ==> id == x || id == y
    ensures forall m :: 2 <= m < |ids| ==> ids[m] !in rules.dependencies
  {
  }

  lemma RelyingSituation(rules: Rules, st: State, top: (Id, Action), x: Id, d: ProductDependency, ids: seq<Id>)
    requires Refused(rules, st, top, x, d) && Covers(TwoRequested(st, top, x), ids) && Distinct(ids)
    ensures
      Situation(rules, st, top, NewRelying(rules, st, top, x, d.requiredProductId), TwoRequested(st, top, x), ids)
  {
    RelyingCall(rules, st, top, x, d);
  }

  /** x first, then top, then the others. */
  lemma OthersBehind(st: State, top: (Id, Action), x: Id) returns (ids: seq<Id>)
    requires top.0 in st.entries && x !in st.entries
    ensures Distinct(ids) && Covers(TwoRequested(st, top, x), ids)
    ensures |ids| >= 2 && ids[0] == x && ids[1] == top.0
  {
    var rest := Enumerated(st.entries.Keys - {top.0});
    var two := [x, top.0];
    ConcatDistinct(two, rest);
    ids := two + rest;
  }

  lemma TwoCalls(rules: Rules, st: State, top: (Id, Action), x: Id, d: ProductDependency, ids: seq<Id>)
    requires Refused(rules, st, top, x, d) && Covers(TwoRequested(st, top, x), ids)
    requires |ids| >= 2 && ids[0] == x && ids[1] == top.0
    ensures
      var others, client := NewRelying(rules, st, top, x, d.requiredProductId), TwoRequested(st, top, x);
      var r := AllRequested(others, client, ids, 2);
      && x in r.entries && r.entries[x].action == Some(Setup) && !Real(EntryOf(r, top.0).action)
      && top.0 in LostIn(others, client, ids, 2) && top.0 !in AddedIn(others, client, ids, 2)
  {
    var others, client := NewRelying(rules, st, top, x, d.requiredProductId), TwoRequested(st, top, x);
    RelyingCall(rules, st, top, x, d);
    assert BeforeCall(others, client, ids, 0) == client;
    assert AllRequested(others, client, ids, 1) == WithRequest(others, client, x);
    var mid := BeforeCall(others, client, ids, 1);
    RefusedCall(others, mid, top, x, d);
    assert AllRequested(others, client, ids, 2) == WithRequest(others, mid, top.0);
    assert AddedIn(others, client, ids, 0) == {};
    assert AddedIn(others, client, ids, 1) == WithRequest(others, client, x).added.Keys;
  }
}
