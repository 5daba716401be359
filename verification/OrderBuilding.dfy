/** The topological sort itself: one element (or, at the end, all that is left) per call. */
module OrderBuilding {
  import opened Collections
  import opened Digraphs
  import opened ReadyOrder
  import opened OrderLaws
  import opened OrderRequirements

  /** Moves the first sortedCount items to the end of the list. */
  method Rearranged(elementCount: nat, ordering: seq<int>, sortedCount: nat) returns (newOrdering: seq<int>)
    requires sortedCount <= elementCount == |ordering|
    ensures newOrdering == ordering[sortedCount..] + ordering[..sortedCount]
  {
    newOrdering := [];
    var k := 0;
    while k < elementCount
      invariant |newOrdering| == k <= elementCount
    {
      newOrdering := newOrdering + [k];
      k := k + 1;
    }
    for k := 0 to elementCount - sortedCount
      invariant |newOrdering| == elementCount
      invariant newOrdering[..k] == ordering[sortedCount..][..k]
    {
      newOrdering := newOrdering[k := ordering[sortedCount + k]];
    }
    for k := 0 to sortedCount
      invariant |newOrdering| == elementCount
      invariant newOrdering[..elementCount - sortedCount + k] == ordering[sortedCount..] + ordering[..k]
    {
      newOrdering := newOrdering[elementCount - sortedCount + k := ordering[k]];
    }
  }

  /** Appends to ordering, ascending, each index that is allowed and not used yet. */
  method AppendUnused(ordering: seq<int>, used: seq<bool>, allowed: seq<bool>)
    returns (longer: seq<int>, usedNow: seq<bool>)
    requires |used| == |allowed|
    ensures longer == ordering + Ascending(|used|, Unused(used, allowed))
    ensures |usedNow| == |used|
    ensures forall i :: 0 <= i < |used| ==> usedNow[i] == (used[i] || allowed[i])
  {
    ghost var unused := Unused(used, allowed);
    longer, usedNow := ordering, used;
    var j := 0;
    while j < |used|
      invariant 0 <= j <= |used| == |usedNow|
      invariant longer == ordering + Ascending(j, unused)
      invariant forall i :: 0 <= i < |used| ==> usedNow[i] == (used[i] || (i < j && allowed[i]))
    {
      if allowed[j] && !usedNow[j] {
        longer := longer + [j];
        usedNow := usedNow[j := true];
      }
      j := j + 1;
    }
  }

  ghost function Unused(used: seq<bool>, allowed: seq<bool>): set<int>
    requires |used| == |allowed|
  {
    set i | 0 <= i < |used| && allowed[i] && !used[i]
  }

  /** Some calls have been made and none has completed the order: what was emitted is the
      beginning of what is to be emitted. */
  ghost predicate Underway(initial: set<(int, int)>, open: set<(int, int)>, ordering: seq<int>, used: seq<bool>) {
    && (forall i :: 0 <= i < |used| ==> (used[i] <==> i in ordering))
    && ordering + Emitted(open) == Emitted(initial)
    && Residue(open) == Residue(initial)
  }

  /** The order to be built, when no cycle prevents it. */
  ghost function Finished(initial: set<(int, int)>, n: nat, completing: bool): seq<int> {
    if completing then Completed(initial, n) else SortedPart(initial, n)
  }

  ghost predicate Done(initial: set<(int, int)>, open: set<(int, int)>, ordering: seq<int>, used: seq<bool>,
                       completing: bool)
  {
    && open == {} && Residue(initial) == {}
    && (forall i :: 0 <= i < |used| ==> (used[i] <==> completing || IsPrior(initial, i) || IsPosterior(initial, i)))
    && ordering == Finished(initial, |used|, completing)
    && (completing ==> |ordering| == |used|)
  }

  lemma EmitOne(initial: set<(int, int)>, open: set<(int, int)>, ordering: seq<int>, used: seq<bool>, v: int)
    requires Underway(initial, open, ordering, used) && Next(open, v) && 0 <= v < |used|
    ensures Underway(initial, Without(open, v), ordering + [v], used[v := true])
  {
    EmitNext(open, v);
    assert ordering + ([v] + Emitted(Without(open, v))) == ordering + [v] + Emitted(Without(open, v));
  }

  /** What is used, and what is left to append, once everything is fulfilled. */
  lemma AllEmitted(initial: set<(int, int)>, ordering: seq<int>, used: seq<bool>, among: seq<bool>)
    requires InRange(initial, |used|) && Underway(initial, {}, ordering, used) && |among| == |used|
    requires forall q :: 0 <= q < |used| ==> (among[q] <==> IsPosterior(initial, q))
    ensures ordering == Emitted(initial) && Residue(initial) == {}
    ensures forall i :: 0 <= i < |used| ==> (used[i] <==> IsPrior(initial, i))
    ensures Unused(used, among) == PurePosteriors(initial, |used|)
  {
    EmptyGraph();
    assert ordering == Emitted(initial);
    forall i | 0 <= i < |used| ensures used[i] <==> IsPrior(initial, i) {
      EmittedMembers(initial, i);
    }
  }

  lemma EmptyGraph()
    ensures Emitted({}) == [] && Residue({}) == {}
  {
    assert forall v :: !Next({}, v);
  }

  lemma {:induction false} AscendingNone(n: nat)
    ensures Ascending(n, {}) == []
  {
    if n == 0 {
    } else {
      AscendingNone(n - 1);
    }
  }

  lemma CompletedLength(initial: set<(int, int)>, n: nat)
    requires InRange(initial, n) && Residue(initial) == {}
    ensures |Completed(initial, n)| == n
  {
    AcyclicIffNoResidue(initial);
    CompletedIsPermutation(initial, n);
  }

  /** What one call of Proceed does, told on values: it changes nothing once all elements are
      used; else it completes the order when nothing is left to fulfil; else it emits the smallest
      ready prior; else it fails, changing nothing and naming all the remaining priors. */
  ghost predicate Step(n: nat, open: set<(int, int)>, ordering: seq<int>, done: bool,
                       open': set<(int, int)>, ordering': seq<int>, done': bool, r: Result<bool, seq<nat>>)
  {
    if |ordering| >= n then
      r == Ok(true) && ordering' == ordering && open' == open && done' == done
    else if open == {} then
      r == Ok(true) && done' && open' == {}
    else if exists v :: Next(open, v) then
      && r == Ok(true) && !done'
      && exists v :: Next(open, v) && ordering' == ordering + [v] && open' == Without(open, v)
    else
      && r.Err? && ordering' == ordering && open' == open && !done'
      && (forall v :: v in r.error <==> IsPrior(open, v))
      && Distinct(r.error)
  }

  /** Everything is fulfilled: append the posteriors that never were priors, and in completing
      mode put all untouched elements in front. */
  method CompleteOrder(elementCount: nat, ordering: seq<int>, used: seq<bool>, among: seq<bool>, completing: bool,
                       ghost initial: set<(int, int)>, ghost again: bool)
    returns (completed: seq<int>, usedNow: seq<bool>)
    requires InRange(initial, elementCount) && |used| == |among| == elementCount && |ordering| < elementCount
    requires if again then Done(initial, {}, ordering, used, completing) else Underway(initial, {}, ordering, used)
    requires forall q :: 0 <= q < elementCount ==> (among[q] <==> IsPosterior(initial, q))
    ensures |usedNow| == elementCount && Done(initial, {}, completed, usedNow, completing)
    ensures completing ==> Lawful(initial, elementCount, completed)
  {
    hide Lawful, Emitted, Residue, Acyclic;
    if again {
      assert Unused(used, among) == {};
      AscendingNone(elementCount);
    } else {
      AllEmitted(initial, ordering, used, among);
    }
    completed, usedNow := AppendUnused(ordering, used, among);
    var lastSortedCount := |completed|;
    assert completed == SortedPart(initial, elementCount);
    if completing {
      var everything := seq(elementCount, i => true);
      assert Unused(usedNow, everything) == Untouched(initial, elementCount);
      completed, usedNow := AppendUnused(completed, usedNow, everything);
      CompletedLength(initial, elementCount);
      if lastSortedCount > 0 {
        completed := Rearranged(elementCount, completed, lastSortedCount);
      }
      assert completed == Completed(initial, elementCount);
      AcyclicIffNoResidue(initial);
      CompletedIsLawful(initial, elementCount);
    }
  }

  class OrderBuild {
    const elementCount: nat
    const completing: bool
    const requs: Requirements
    ghost const initial: set<(int, int)>  // all the pairs to fulfil
    var ordering: seq<int>
    var allFulfilled: bool
    var indexIsAmongPosteriors: seq<bool>
    var indexUsed: seq<bool>
    var usedCount: nat

    ghost predicate Valid()
      reads this, requs, requs.list
    {
      && requs.Valid()
      && initial == PairsOf(requs.list) && InRange(initial, elementCount)
      && |indexIsAmongPosteriors| == |indexUsed| == elementCount
      && usedCount == |ordering|
      && Marks(requs.Unfulfilled())
      && (if allFulfilled
          then Done(initial, requs.Unfulfilled(), ordering, indexUsed, completing)
          else Underway(initial, requs.Unfulfilled(), ordering, indexUsed))
    }

    /** Which flags are set while the pairs in open are left to fulfil. */
    ghost predicate Marks(open: set<(int, int)>)
      requires |indexIsAmongPosteriors| == elementCount
      reads this, requs, requs.list
    {
      && (forall r :: r in requs.list && r.fulfilled ==> !IsPrior(open, r.prior) && !IsPosterior(open, r.prior))
      && (forall q :: 0 <= q < elementCount ==> (indexIsAmongPosteriors[q] <==> IsPosterior(initial - open, q)))
    }

    constructor (elementCount: nat, requs: Requirements, completing: bool)
      requires requs.Valid() && InRange(PairsOf(requs.list), elementCount)
      requires forall r :: r in requs.list ==> !r.fulfilled
      ensures Valid() && !allFulfilled && ordering == []
      ensures this.elementCount == elementCount && this.requs == requs && this.completing == completing
      ensures initial == requs.Unfulfilled() == PairsOf(requs.list)
    {
      this.elementCount := elementCount;
      this.completing := completing;
      this.requs := requs;
      initial := PairsOf(requs.list);
      ordering := [];
      allFulfilled := false;
      indexIsAmongPosteriors := seq(elementCount, i => false);
      indexUsed := seq(elementCount, i => false);
      usedCount := 0;
    }

    /** There is never more in the ordering than there are elements; and before it is complete, there is
        always room for one more call. */
    lemma NeverTooMany()
      requires Valid()
      ensures usedCount <= elementCount
      ensures !allFulfilled && initial != {} ==> usedCount < elementCount
    {
      var rest := Emitted(requs.Unfulfilled());
      if allFulfilled {
        AcyclicIffNoResidue(initial);
        CompletedIsPermutation(initial, elementCount);
      } else if initial == {} {
        assert ordering + rest == Emitted(initial);
      } else {
        assert |ordering + rest| == |Emitted(initial)|;
        EmittedShort(initial, elementCount);
      }
    }

    method Proceed() returns (r: Result<bool, seq<nat>>)
      requires Valid()
      modifies this, requs.list
      ensures Valid()
      ensures Step(elementCount, old(requs.Unfulfilled()), old(ordering), old(allFulfilled),
                   requs.Unfulfilled(), ordering, allFulfilled, r)
    {
      r := Ok(true);
      if usedCount < elementCount {
        var indexRequToFulfill := requs.IndexOfFirstNotFulfilledRequirementOrderedByPrior();
        if indexRequToFulfill == -1 {
          Finish();
        } else {
          r := Fulfil(indexRequToFulfill);
        }
      }
    }

    /** Tries to fulfil a requirement, the first unfulfilled one in the order of priors being at start. */
    method Fulfil(start: nat) returns (r: Result<bool, seq<nat>>)
      requires Valid() && FirstOpen(start) && usedCount < elementCount
      modifies this, requs.list
      ensures Valid()
      ensures Step(elementCount, old(requs.Unfulfilled()), old(ordering), old(allFulfilled),
                   requs.Unfulfilled(), ordering, allFulfilled, r)
    {
      var first := requs.FirstPriorNotOccurringAsPosterior(start);
      if first.Err? {
        Stuck(start, first);
        r := Err(first.error);
      } else {
        var (newEntry, at) := first.value;
        FreeIsNext(start, first);
        Emit(newEntry, at);
        r := Ok(true);
      }
    }

    ghost predicate FirstOpen(start: nat)
      requires requs.Valid()
      reads this, requs, requs.list
    {
      && start < |requs.list| && !requs.ByPrior(start).fulfilled
      && forall k :: 0 <= k < start ==> requs.ByPrior(k).fulfilled
    }

    lemma OpenPriors(start: nat, v: int)
      requires requs.Valid() && FirstOpen(start)
      ensures IsPrior(requs.Unfulfilled(), v) <==>
              exists k :: start <= k < |requs.list| && !requs.ByPrior(k).fulfilled && requs.ByPrior(k).prior == v
    {
      var open := requs.Unfulfilled();
      if IsPrior(open, v) {
        var q := SuccessorOf(open, v);
        var r :| r in requs.list && !r.fulfilled && (r.prior, r.posterior) == (v, q);
        var k := requs.PlaceByPrior(r);
        assert start <= k;
      }
      if k :| start <= k < |requs.list| && !requs.ByPrior(k).fulfilled && requs.ByPrior(k).prior == v {
        var r := requs.ByPrior(k);
        assert r in requs.list && (r.prior as int, r.posterior as int) in open;
      }
    }

    lemma PriorsSorted()
      requires requs.Valid()
      ensures forall i, j :: 0 <= i <= j < |requs.list| ==> requs.SortedPriors()[i] <= requs.SortedPriors()[j]
    {
      forall i, j | 0 <= i <= j < |requs.list| ensures requs.SortedPriors()[i] <= requs.SortedPriors()[j] {
        requs.PriorsAscend(i, j);
      }
    }

    /** The search failed, so every remaining prior is a remaining posterior; all are reported. */
    lemma Stuck(start: nat, r: Result<(nat, nat), seq<nat>>)
      requires Valid() && FirstOpen(start) && r.Err?
      requires FirstFree(requs.Unfulfilled(), requs.SortedPriors(), requs.SortedFlags(), start, r)
      ensures requs.Unfulfilled() != {}
      ensures forall v :: !Next(requs.Unfulfilled(), v)
      ensures forall v :: v in r.error <==> IsPrior(requs.Unfulfilled(), v)
      ensures Distinct(r.error) && !allFulfilled
    {
      hide Done, Underway, Emitted, Residue, Marks, InTheWay, Blocked, IsPrior, IsPosterior;
      var open, sorted := requs.Unfulfilled(), requs.SortedPriors();
      StillOpen(start);
      PriorsSorted();
      InTheWayExact(open, sorted, start, |sorted|);
      assert sorted[start..|sorted|] == sorted[start..];
      forall v | IsPrior(open, v) ensures IsPosterior(open, v) && v in r.error {
        PriorIsBlocked(start, v);
      }
      forall v | v in r.error ensures IsPrior(open, v) {
        var k :| 0 <= k < |sorted[start..]| && sorted[start..][k] == v;
        PosteriorIsPrior(start + k);
      }
      forall v ensures !Next(open, v) {
        if IsPrior(open, v) { assert IsPosterior(open, v); }
      }
    }

    lemma PriorIsBlocked(start: nat, v: int)
      requires requs.Valid() && FirstOpen(start) && IsPrior(requs.Unfulfilled(), v)
      requires forall k :: start <= k < |requs.SortedPriors()| ==>
                 Blocked(requs.Unfulfilled(), requs.SortedPriors(), requs.SortedFlags(), k)
      ensures IsPosterior(requs.Unfulfilled(), v) && v in requs.SortedPriors()[start..]
    {
      var sorted := requs.SortedPriors();
      OpenPriors(start, v);
      var k :| start <= k < |requs.list| && !requs.ByPrior(k).fulfilled && requs.ByPrior(k).prior == v;
      assert Blocked(requs.Unfulfilled(), sorted, requs.SortedFlags(), k);
      assert sorted[start..][k - start] == v;
    }

    lemma PosteriorIsPrior(k: nat)
      requires Valid() && k < |requs.list| && IsPosterior(requs.Unfulfilled(), requs.SortedPriors()[k])
      ensures IsPrior(requs.Unfulfilled(), requs.SortedPriors()[k])
    {
      hide Done, Underway;
      var one := requs.ByPrior(k);
      assert one in requs.list && one.prior == requs.SortedPriors()[k];
      if !one.fulfilled { assert (one.prior as int, one.posterior as int) in requs.Unfulfilled(); }
    }

    lemma StillOpen(start: nat)
      requires Valid() && FirstOpen(start)
      ensures requs.Unfulfilled() != {} && !allFulfilled
    {
      var first := requs.ByPrior(start);
      assert (first.prior as int, first.posterior as int) in requs.Unfulfilled();
    }

    /** The search succeeded, so it found the smallest ready prior, at its first requirement. */
    lemma FreeIsNext(start: nat, r: Result<(nat, nat), seq<nat>>)
      requires requs.Valid() && FirstOpen(start) && r.Ok?
      requires FirstFree(requs.Unfulfilled(), requs.SortedPriors(), requs.SortedFlags(), start, r)
      ensures Next(requs.Unfulfilled(), r.value.0)
      ensures r.value.1 < |requs.list| && requs.ByPrior(r.value.1).prior == r.value.0
      ensures forall k :: 0 <= k < r.value.1 && requs.ByPrior(k).prior == r.value.0 ==> requs.ByPrior(k).fulfilled
    {
      var open, sorted, flags := requs.Unfulfilled(), requs.SortedPriors(), requs.SortedFlags();
      var (candidate, at) := r.value;
      var free := requs.ByPrior(at);
      assert (free.prior as int, free.posterior as int) in open;
      forall u | Ready(open, u) ensures candidate <= u {
        OpenPriors(start, u);
        var k :| start <= k < |requs.list| && !requs.ByPrior(k).fulfilled && requs.ByPrior(k).prior == u;
        assert !Blocked(open, sorted, flags, k);
        requs.PriorsAscend(at, k);
      }
      forall k | 0 <= k < at && requs.ByPrior(k).prior == candidate ensures requs.ByPrior(k).fulfilled {
        if start <= k { assert Blocked(open, sorted, flags, k); }
      }
    }

    /** Everything is fulfilled: append the posteriors that never were priors, and in completing
        mode put all untouched elements in front. */
    method Finish()
      requires Valid() && requs.Unfulfilled() == {} && usedCount < elementCount
      modifies this
      ensures Valid() && allFulfilled
    {
      assert initial - {} == initial;
      ordering, indexUsed :=
        CompleteOrder(elementCount, ordering, indexUsed, indexIsAmongPosteriors, completing, initial, allFulfilled);
      usedCount := |ordering|;
      allFulfilled := true;
    }

    /** Emits newEntry and marks all requirements that have it as prior, from place at on. */
    method Emit(newEntry: nat, at: nat)
      requires Valid() && !allFulfilled
      requires Next(requs.Unfulfilled(), newEntry)
      requires at < |requs.list| && requs.ByPrior(at).prior == newEntry
      requires forall k :: 0 <= k < at && requs.ByPrior(k).prior == newEntry ==> requs.ByPrior(k).fulfilled
      modifies this, requs.list
      ensures Valid() && !allFulfilled && ordering == old(ordering) + [newEntry]
      ensures requs.Unfulfilled() == Without(old(requs.Unfulfilled()), newEntry)
    {
      hide Done, Emitted, Residue;
      ghost var open := requs.Unfulfilled();
      ghost var rest := Without(open, newEntry);
      var r0 := requs.ByPrior(at);
      assert (r0.prior as int, r0.posterior as int) in initial;
      EmitOne(initial, open, ordering, indexUsed, newEntry);
      ordering := ordering + [newEntry];
      usedCount := usedCount + 1;
      MarkFulfilled(newEntry, at);
      assert requs.Unfulfilled() == rest;
      forall q | 0 <= q < elementCount ensures indexIsAmongPosteriors[q] <==> IsPosterior(initial - rest, q) {
      }
      indexUsed := indexUsed[newEntry := true];
    }

    method MarkFulfilled(newEntry: nat, at: nat)
      requires requs.Valid() && initial == PairsOf(requs.list) && InRange(initial, elementCount)
      requires |indexIsAmongPosteriors| == elementCount
      requires at < |requs.list|
      requires forall k :: 0 <= k < at ==> requs.ByPrior(k).prior != newEntry
      requires requs.ByPrior(at).prior == newEntry
      modifies `indexIsAmongPosteriors, requs.list
      ensures |indexIsAmongPosteriors| == elementCount
      ensures forall r :: r in requs.list ==> r.fulfilled == (r.prior == newEntry || old(r.fulfilled))
      ensures forall q :: 0 <= q < elementCount ==>
        (indexIsAmongPosteriors[q] <==> old(indexIsAmongPosteriors)[q] || (newEntry as int, q) in initial)
    {
      var list, order := requs.list, requs.orderByPrior;
      forall r | r in list ensures r.posterior < elementCount {
        assert (r.prior as int, r.posterior as int) in initial;
      }
      var k := at;
      while k < |list| && list[order[k]].prior == newEntry
        invariant at <= k <= |list|
        invariant |indexIsAmongPosteriors| == elementCount
        invariant forall i :: at <= i < k ==> list[order[i]].prior == newEntry
        invariant forall i :: at <= i < k ==>
                  list[order[i]].fulfilled && indexIsAmongPosteriors[list[order[i]].posterior]
        invariant forall r :: r in list ==> r.fulfilled == old(r.fulfilled) || (r.fulfilled && r.prior == newEntry)
        invariant forall q :: 0 <= q < elementCount && old(indexIsAmongPosteriors)[q] ==> indexIsAmongPosteriors[q]
        invariant forall q :: 0 <= q < elementCount && indexIsAmongPosteriors[q] ==>
          old(indexIsAmongPosteriors)[q] || (newEntry as int, q) in initial
      {
        var requK := list[order[k]];
        assert (requK.prior as int, requK.posterior as int) in initial;
        requK.fulfilled := true;
        indexIsAmongPosteriors := indexIsAmongPosteriors[requK.posterior := true];
        k := k + 1;
      }
      forall r | r in list && r.prior == newEntry
        ensures r.fulfilled && indexIsAmongPosteriors[r.posterior]
      {
        var i := requs.PlaceByPrior(r);
        if k <= i { requs.PriorsAscend(k, i); requs.PriorsAscend(at, k); }
      }
    }
  }
}
