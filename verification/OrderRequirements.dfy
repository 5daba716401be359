/** The requirement list of the product sort, with its two insertion-sorted index maps. */
module OrderRequirements {
  import opened Collections
  import opened Digraphs

  class OrderRequirement {
    const prior: nat
    const posterior: nat
    var fulfilled: bool

    constructor (prior: nat, posterior: nat, fulfilled: bool := false)
      ensures this.prior == prior && this.posterior == posterior && this.fulfilled == fulfilled
    {
      this.prior := prior;
      this.posterior := posterior;
      this.fulfilled := fulfilled;
    }
  }

  /** order lists all indices of keys so that the keys ascend; of equal keys the later one comes first. */
  ghost predicate Orders(keys: seq<int>, order: seq<int>) {
    && IndexPermutation(order, |keys|)
    && (forall a :: 0 <= a < |order| ==> 0 <= order[a] < |keys|)
    && Ascends(keys, order)
  }

  ghost predicate Ascends(keys: seq<int>, order: seq<int>) {
    forall a, b :: 0 <= a < b < |order| ==> ComesBefore(keys, order[a], order[b])
  }

  ghost predicate ComesBefore(keys: seq<int>, x: int, y: int) {
    && 0 <= x < |keys| && 0 <= y < |keys|
    && (keys[x] < keys[y] || (keys[x] == keys[y] && x > y))
  }

  lemma {:induction false} SameAscent(keys: seq<int>, a: seq<int>, b: seq<int>)
    requires |a| == |b| && forall x :: x in a <==> x in b
    requires Ascends(keys, a) && Ascends(keys, b)
    ensures a == b
  {
    if a == [] {
    } else {
      assert a[0] in a && b[0] in b;
      var i :| 0 <= i < |a| && a[i] == b[0];
      var j :| 0 <= j < |b| && b[j] == a[0];
      assert a[0] == b[0];
      forall x ensures x in a[1..] <==> x in b[1..] {
        if x in a[1..] { assert x in a && x != a[0]; }
        if x in b[1..] { assert x in b && x != b[0]; }
      }
      SameAscent(keys, a[1..], b[1..]);
    }
  }

  /** The keys alone determine the index map. */
  lemma OrdersUnique(keys: seq<int>, a: seq<int>, b: seq<int>)
    requires Orders(keys, a) && Orders(keys, b)
    ensures a == b
  {
    SameAscent(keys, a, b);
  }

  ghost function Inserted(order: seq<int>, i: nat, v: int): seq<int>
    requires i <= |order|
  {
    order[..i] + [v] + order[i..]
  }

  lemma {:induction false} InsertedElements(order: seq<int>, i: nat, v: int)
    requires i <= |order| && Distinct(order) && v !in order
    ensures Distinct(Inserted(order, i, v))
    ensures forall x :: x in Inserted(order, i, v) <==> x in order || x == v
  {
    var placed := Inserted(order, i, v);
    assert order == order[..i] + order[i..];
    forall a, b | 0 <= a < b < |placed| ensures placed[a] != placed[b] {
      var x := if a < i then a else a - 1;
      var y := if b < i then b else b - 1;
      if a == i {
        assert placed[b] == order[y];
      } else if b == i {
        assert placed[a] == order[x];
      } else {
        assert placed[a] == order[x] && placed[b] == order[y];
      }
    }
  }

  lemma {:induction false} InsertedAscends(keys: seq<int>, order: seq<int>, i: nat)
    requires |keys| > 0 && Orders(keys[..|keys| - 1], order) && i <= |order|
    requires forall k :: 0 <= k < i ==> keys[order[k]] < keys[|keys| - 1]
    requires i < |order| ==> keys[|keys| - 1] <= keys[order[i]]
    ensures Ascends(keys, Inserted(order, i, |keys| - 1))
  {
    var n := |keys| - 1;
    var placed := Inserted(order, i, n);
    assert Ascends(keys, order) by {
      assert forall a, b :: 0 <= a < b < |order| ==> ComesBefore(keys[..n], order[a], order[b]);
    }
    forall a, b | 0 <= a < b < |placed| ensures ComesBefore(keys, placed[a], placed[b]) {
      var x := if a < i then a else a - 1;
      var y := if b < i then b else b - 1;
      if a == i {
        assert placed[b] == order[y] && (y == i || ComesBefore(keys, order[i], order[y]));
      } else if b == i {
        assert placed[a] == order[x];
      } else {
        assert placed[a] == order[x] && placed[b] == order[y];
      }
    }
  }

  lemma {:induction false} InsertKeepsOrder(keys: seq<int>, order: seq<int>, i: nat)
    requires |keys| > 0 && Orders(keys[..|keys| - 1], order) && i <= |order|
    requires forall k :: 0 <= k < i ==> keys[order[k]] < keys[|keys| - 1]
    requires i < |order| ==> keys[|keys| - 1] <= keys[order[i]]
    ensures Orders(keys, Inserted(order, i, |keys| - 1))
  {
    InsertedElements(order, i, |keys| - 1);
    InsertedAscends(keys, order, i);
  }

  /** Gives the last key its place in front of the first key that is not smaller, by shifting
      the tail of the index map one place to the right. */
  method Place(keys: seq<int>, order: seq<int>) returns (placed: seq<int>)
    requires |keys| > 0 && Orders(keys[..|keys| - 1], order)
    ensures Orders(keys, placed)
  {
    var last := |keys| - 1;
    placed := order + [-1];
    var i := 0;
    var located := false;
    while i < last && !located
      invariant 0 <= i <= last
      invariant forall k :: 0 <= k < i ==> keys[order[k]] < keys[last]
      invariant !located ==> placed == order + [-1]
      invariant located ==> i < last && keys[last] <= keys[order[i]]
      invariant located ==> placed == Inserted(order, i, last)
      decreases last - i, !located
    {
      if keys[last] > keys[placed[i]] {
        i := i + 1;
      } else {
        located := true;
        var j := last;
        while j > i
          invariant i <= j <= last && |placed| == last + 1
          invariant forall k :: 0 <= k <= j && k < last ==> placed[k] == order[k]
          invariant forall k :: j < k <= last ==> placed[k] == order[k - 1]
        {
          placed := placed[j := placed[j - 1]];
          j := j - 1;
        }
        placed := placed[i := last];
        assert placed == Inserted(order, i, last);
      }
    }
    if !located {
      placed := placed[i := last];
      assert placed == Inserted(order, i, last);
    }
    InsertKeepsOrder(keys, order, i);
  }

  function PriorKeys(list: seq<OrderRequirement>): seq<int> {
    seq(|list|, i requires 0 <= i < |list| => list[i].prior)
  }

  function PosteriorKeys(list: seq<OrderRequirement>): seq<int> {
    seq(|list|, i requires 0 <= i < |list| => list[i].posterior)
  }

  ghost function PairsOf(list: seq<OrderRequirement>): set<(int, int)> {
    set r | r in list :: (r.prior, r.posterior)
  }

  class Requirements {
    var list: seq<OrderRequirement>
    var orderByPrior: seq<int>
    var orderByPosterior: seq<int>

    ghost predicate Valid()
      reads this
    {
      && Orders(PriorKeys(list), orderByPrior)
      && Orders(PosteriorKeys(list), orderByPosterior)
    }

    /** The pairs still to be fulfilled: all that the sort needs to know. */
    ghost function Unfulfilled(): set<(int, int)>
      reads this, list
    {
      set r | r in list && !r.fulfilled :: (r.prior, r.posterior)
    }

    constructor ()
      ensures Valid() && list == []
    {
      list := [];
      orderByPrior := [];
      orderByPosterior := [];
    }

    /** Keeps both maps sorted whatever flags are set, and appends to the list. */
    method Add(requirement: OrderRequirement)
      requires Valid()
      modifies this
      ensures Valid()
      ensures list == old(list) + [requirement]
    {
      ghost var before := list;
      list := list + [requirement];
      assert PriorKeys(list)[..|list| - 1] == PriorKeys(before);
      assert PosteriorKeys(list)[..|list| - 1] == PosteriorKeys(before);
      orderByPrior := Place(PriorKeys(list), orderByPrior);
      orderByPosterior := Place(PosteriorKeys(list), orderByPosterior);
    }

    /** -1 exactly when posti is a posterior of no unfulfilled requirement; otherwise the first
        place in posterior order of an unfulfilled one. */
    method PosteriorIndexOf(posti: int) returns (at: int)
      requires Valid()
      ensures -1 <= at < |list|
      ensures at == -1 <==> !IsPosterior(Unfulfilled(), posti)
      ensures at != -1 ==> !ByPosterior(at).fulfilled && ByPosterior(at).posterior == posti
      ensures at != -1 ==> forall i :: 0 <= i < at ==> ByPosterior(i).fulfilled || ByPosterior(i).posterior != posti
    {
      var j := 0;
      var searching := true;
      var candidate: OrderRequirement? := null;
      while j < |list| && searching
        invariant 0 <= j <= |list|
        invariant forall i :: 0 <= i < j ==> ByPosterior(i).fulfilled || ByPosterior(i).posterior < posti
        invariant !searching ==> j < |list| && candidate == ByPosterior(j)
        invariant !searching ==> !candidate.fulfilled && candidate.posterior >= posti
        decreases |list| - j, searching
      {
        candidate := list[orderByPosterior[j]];
        if candidate.fulfilled || candidate.posterior < posti {
          j := j + 1;
        } else {
          searching := false;
        }
      }
      if searching {
        NoPosterior(posti);
        return -1;
      }
      if candidate != null && candidate.posterior == posti {
        assert (candidate.prior as int, posti) in Unfulfilled();
        return j;
      }
      forall i | 0 <= i < |list| ensures ByPosterior(i).fulfilled || ByPosterior(i).posterior != posti {
        if j < i { assert ComesBefore(PosteriorKeys(list), orderByPosterior[j], orderByPosterior[i]); }
      }
      NoPosterior(posti);
      return -1;
    }

    ghost function ByPosterior(i: nat): OrderRequirement
      requires Valid() && i < |list|
      reads this
    {
      list[orderByPosterior[i]]
    }

    ghost function ByPrior(i: nat): OrderRequirement
      requires Valid() && i < |list|
      reads this
    {
      list[orderByPrior[i]]
    }

    lemma PlaceByPosterior(r: OrderRequirement) returns (i: nat)
      requires Valid() && r in list
      ensures i < |list| && ByPosterior(i) == r
    {
      var k :| 0 <= k < |list| && list[k] == r;
      assert k in orderByPosterior;
      i :| 0 <= i < |list| && orderByPosterior[i] == k;
    }

    lemma PlaceByPrior(r: OrderRequirement) returns (i: nat)
      requires Valid() && r in list
      ensures i < |list| && ByPrior(i) == r
    {
      var k :| 0 <= k < |list| && list[k] == r;
      assert k in orderByPrior;
      i :| 0 <= i < |list| && orderByPrior[i] == k;
    }

    lemma PriorsAscend(i: nat, j: nat)
      requires Valid() && i <= j < |list|
      ensures ByPrior(i).prior <= ByPrior(j).prior
    {
      if i < j { assert ComesBefore(PriorKeys(list), orderByPrior[i], orderByPrior[j]); }
    }

    lemma NoPosterior(posti: int)
      requires Valid()
      requires forall i :: 0 <= i < |list| ==> ByPosterior(i).fulfilled || ByPosterior(i).posterior != posti
      ensures !IsPosterior(Unfulfilled(), posti)
    {
      if IsPosterior(Unfulfilled(), posti) {
        var p := PredecessorOf(Unfulfilled(), posti);
        var r :| r in list && !r.fulfilled && (r.prior, r.posterior) == (p, posti);
        var i := PlaceByPosterior(r);
        assert false;
      }
    }

    method IndexOfFirstNotFulfilledRequirementOrderedByPrior() returns (at: int)
      requires Valid()
      ensures -1 <= at < |list|
      ensures at == -1 <==> Unfulfilled() == {}
      ensures at != -1 ==> !ByPrior(at).fulfilled
      ensures at != -1 ==> forall k :: 0 <= k < at ==> ByPrior(k).fulfilled
    {
      var i := 0;
      var found := false;
      while !found && i < |list|
        invariant 0 <= i <= |list|
        invariant forall k :: 0 <= k < i ==> ByPrior(k).fulfilled
        invariant found ==> i < |list| && !ByPrior(i).fulfilled
        decreases |list| - i, !found
      {
        if list[orderByPrior[i]].fulfilled {
          i := i + 1;
        } else {
          found := true;
        }
      }
      if found {
        var r := list[orderByPrior[i]];
        assert (r.prior as int, r.posterior as int) in Unfulfilled();
        return i;
      }
      forall r | r in list ensures r.fulfilled {
        var k := PlaceByPrior(r);
      }
      return -1;
    }

    ghost function SortedPriors(): seq<nat>
      requires Valid()
      reads this
    {
      seq(|list|, k requires 0 <= k < |list| && Valid() reads this => ByPrior(k).prior)
    }

    ghost function SortedFlags(): seq<bool>
      requires Valid()
      reads this, list
    {
      seq(|list|, k requires 0 <= k < |list| && Valid() reads this, list => ByPrior(k).fulfilled)
    }

    method FirstPriorNotOccurringAsPosterior(startI: nat) returns (r: Result<(nat, nat), seq<nat>>)
      requires Valid() && startI < |list|
      ensures FirstFree(Unfulfilled(), SortedPriors(), SortedFlags(), startI, r)
    {
      hide InTheWay, Ascends, IsPosterior, Distinct;
      var j := startI;
      var found := false;
      var candidate := list[orderByPrior[startI]].prior;
      var lastCandidate: int := -1;
      var problems: seq<nat> := [];
      ghost var open, sorted, flags := Unfulfilled(), SortedPriors(), SortedFlags();
      NoneInTheWay(open, sorted, startI);
      while j < |list| && !found
        invariant startI <= j <= |list|
        invariant open == Unfulfilled() && sorted == SortedPriors() && flags == SortedFlags()
        invariant j < |list| ==> candidate == sorted[j]
        invariant forall k :: startI <= k < j ==> Blocked(open, sorted, flags, k)
        invariant found ==> j < |list| && !Blocked(open, sorted, flags, j)
        invariant problems == InTheWay(open, sorted, startI, j)
        invariant lastCandidate == if problems == [] then -1 else problems[|problems| - 1]
        decreases |list| - j, !found
      {
        var at := PosteriorIndexOf(candidate);
        OneMoreInTheWay(open, sorted, startI, j);
        if !list[orderByPrior[j]].fulfilled && at == -1 {
          found := true;
        } else {
          if at > -1 && lastCandidate != candidate {
            problems := problems + [candidate];
            lastCandidate := candidate;
          }
          j := j + 1;
          if j < |list| {
            candidate := list[orderByPrior[j]].prior;
          }
        }
      }
      if found {
        return Ok((candidate, j));
      }
      return Err(problems);
    }
  }

  /** Of the requirements sorted by prior, the one at k cannot be fulfilled next. */
  ghost predicate Blocked(open: set<(int, int)>, sorted: seq<nat>, flags: seq<bool>, k: nat)
    requires k < |sorted| == |flags|
  {
    flags[k] || IsPosterior(open, sorted[k])
  }

  /** The priors from start to end that are posteriors of open pairs, neighbouring repetitions left out. */
  ghost function InTheWay(open: set<(int, int)>, sorted: seq<nat>, start: nat, end: nat): seq<nat>
    requires start <= end <= |sorted|
  {
    if start == end then []
    else
      var before, v := InTheWay(open, sorted, start, end - 1), sorted[end - 1];
      if IsPosterior(open, v) && (before == [] || before[|before| - 1] != v) then before + [v] else before
  }

  lemma NoneInTheWay(open: set<(int, int)>, sorted: seq<nat>, start: nat)
    requires start <= |sorted|
    ensures InTheWay(open, sorted, start, start) == []
  {
  }

  lemma OneMoreInTheWay(open: set<(int, int)>, sorted: seq<nat>, start: nat, end: nat)
    requires start <= end < |sorted|
    ensures
      var before, v := InTheWay(open, sorted, start, end), sorted[end];
      var isNew := IsPosterior(open, v) && (before == [] || before[|before| - 1] != v);
      InTheWay(open, sorted, start, end + 1) == if isNew then before + [v] else before
  {
  }

  /** What the search for the next element promises: from start on, the first requirement that is
      not blocked; failing that, all the priors in the way. */
  ghost predicate FirstFree(open: set<(int, int)>, sorted: seq<nat>, flags: seq<bool>, start: nat,
                            r: Result<(nat, nat), seq<nat>>)
    requires start < |sorted| == |flags|
  {
    match r
    case Ok((candidate, at)) =>
      && start <= at < |sorted| && sorted[at] == candidate && !Blocked(open, sorted, flags, at)
      && forall k :: start <= k < at ==> Blocked(open, sorted, flags, k)
    case Err(problems) =>
      && (forall k :: start <= k < |sorted| ==> Blocked(open, sorted, flags, k))
      && problems == InTheWay(open, sorted, start, |sorted|)
  }

  /** Each prior in the way is reported, nothing else, and none twice. */
  lemma {:induction false} InTheWayExact(open: set<(int, int)>, sorted: seq<nat>, start: nat, end: nat)
    requires start <= end <= |sorted|
    requires forall i, j :: 0 <= i <= j < |sorted| ==> sorted[i] <= sorted[j]
    ensures forall v :: v in InTheWay(open, sorted, start, end) <==> v in sorted[start..end] && IsPosterior(open, v)
    ensures forall a, b :: 0 <= a < b < |InTheWay(open, sorted, start, end)| ==>
      InTheWay(open, sorted, start, end)[a] < InTheWay(open, sorted, start, end)[b]
  {
    if start == end {
    } else {
      InTheWayExact(open, sorted, start, end - 1);
      var before, v := InTheWay(open, sorted, start, end - 1), sorted[end - 1];
      assert sorted[start..end] == sorted[start..end - 1] + [v];
      forall a | 0 <= a < |before| ensures before[a] <= v {
        assert before[a] in before;
      }
    }
  }
}
