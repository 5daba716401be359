/** The order that the hand-written topological sort must produce, told on the bare set of
    requirement pairs: take the smallest prior that is no posterior of a remaining pair, drop
    its pairs, repeat. Nothing here knows about lists, index maps or flags. */
module ReadyOrder {
  import opened Collections
  import opened Digraphs

  ghost predicate Ready(e: set<(int, int)>, v: int) {
    IsPrior(e, v) && !IsPosterior(e, v)
  }

  /** v is the smallest ready prior. */
  ghost predicate Next(e: set<(int, int)>, v: int) {
    Ready(e, v) && forall u :: Ready(e, u) ==> v <= u
  }

  ghost function Without(e: set<(int, int)>, v: int): set<(int, int)> {
    set x | x in e && x.0 != v
  }

  ghost function Emitted(e: set<(int, int)>): seq<int>
    decreases e
  {
    if exists v :: Next(e, v) then
      var v :| Next(e, v);
      var q := SuccessorOf(e, v);
      assert (v, q) !in Without(e, v);
      [v] + Emitted(Without(e, v))
    else []
  }

  /** The pairs that are never dropped. */
  ghost function Residue(e: set<(int, int)>): set<(int, int)>
    decreases e
  {
    if exists v :: Next(e, v) then
      var v :| Next(e, v);
      var q := SuccessorOf(e, v);
      assert (v, q) !in Without(e, v);
      Residue(Without(e, v))
    else e
  }

  ghost predicate InRange(e: set<(int, int)>, n: nat) {
    forall x :: x in e ==> 0 <= x.0 < n && 0 <= x.1 < n
  }

  /** The members of s below n, in ascending order. */
  ghost function Ascending(n: nat, s: set<int>): seq<int> {
    if n == 0 then []
    else if n - 1 in s then Ascending(n - 1, s) + [n - 1]
    else Ascending(n - 1, s)
  }

  ghost function Untouched(e: set<(int, int)>, n: nat): set<int> {
    set i | 0 <= i < n && !IsPrior(e, i) && !IsPosterior(e, i)
  }

  ghost function PurePosteriors(e: set<(int, int)>, n: nat): set<int> {
    set i | 0 <= i < n && !IsPrior(e, i) && IsPosterior(e, i)
  }

  /** The sorted part: the emitted priors, then what was only ever a posterior. */
  ghost function SortedPart(e: set<(int, int)>, n: nat): seq<int> {
    Emitted(e) + Ascending(n, PurePosteriors(e, n))
  }

  /** The whole order: elements without any requirement come first. */
  ghost function Completed(e: set<(int, int)>, n: nat): seq<int> {
    Ascending(n, Untouched(e, n)) + SortedPart(e, n)
  }

  lemma EmitNext(e: set<(int, int)>, v: int)
    requires Next(e, v)
    ensures Emitted(e) == [v] + Emitted(Without(e, v))
    ensures Residue(e) == Residue(Without(e, v))
    ensures Without(e, v) < e
  {
    var q := SuccessorOf(e, v);
    assert (v, q) !in Without(e, v);
  }

  lemma NextExists(e: set<(int, int)>, v: int) returns (u: int)
    requires Ready(e, v)
    ensures Next(e, u)
  {
    var ready := set x | x in Priors(e) && Ready(e, x);
    var q := SuccessorOf(e, v);
    assert (v, q).0 in Priors(e);
    assert v in ready;
    u := LeastOf(ready);
    forall w | Ready(e, w) ensures u <= w {
      var r := SuccessorOf(e, w);
      assert (w, r).0 in Priors(e);
      assert w in ready;
    }
  }

  lemma {:induction false} ResidueIsStuck(e: set<(int, int)>)
    ensures Residue(e) <= e
    ensures forall v :: !Ready(Residue(e), v)
    decreases e
  {
    if v :| Next(e, v) {
      EmitNext(e, v);
      ResidueIsStuck(Without(e, v));
    } else {
      forall v ensures !Ready(e, v) {
        if Ready(e, v) {
          var u := NextExists(e, v);
          assert false;
        }
      }
    }
  }

  /** Dropping a ready vertex cuts no walk whose vertices all have predecessors. */
  lemma WalkSurvives(e: set<(int, int)>, v: int, p: seq<int>)
    requires Ready(e, v) && Walk(e, p)
    requires forall x :: x in p ==> IsPosterior(e, x)
    ensures Walk(Without(e, v), p)
  {
    forall i | 0 < i < |p| ensures Linked(Without(e, v), p, i) {
      assert Linked(e, p, i);
      assert p[i - 1] in p;
    }
  }

  lemma {:induction false} WalkPosteriors(e: set<(int, int)>, p: seq<int>)
    requires Walk(e, p) && IsPosterior(e, p[0])
    ensures forall x :: x in p ==> IsPosterior(e, x)
  {
    forall x | x in p ensures IsPosterior(e, x) {
      var i :| 0 <= i < |p| && p[i] == x;
      if i > 0 { assert Linked(e, p, i); }
    }
  }

  lemma BehindCycleSurvives(e: set<(int, int)>, v: int, u: int)
    requires Ready(e, v) && BehindCycle(e, u)
    ensures u != v && BehindCycle(Without(e, v), u)
  {
    var c :| OnCycle(e, c) && Reaches(e, c, u);
    var p :| Cycle(e, p) && c in p;
    var before, after := CycleNeighbours(e, p, p[0]);
    WalkPosteriors(e, p);
    WalkSurvives(e, v, p);
    assert Cycle(Without(e, v), p);
    var w :| WalkFromTo(e, w, c, u);
    WalkPosteriors(e, w);
    WalkSurvives(e, v, w);
    assert w[|w| - 1] in w;
    assert WalkFromTo(Without(e, v), w, c, u);
    assert OnCycle(Without(e, v), c) && Reaches(Without(e, v), c, u);
  }

  lemma {:induction false} BehindCycleStays(e: set<(int, int)>, x: (int, int))
    requires x in e && BehindCycle(e, x.0)
    ensures x in Residue(e)
    decreases e
  {
    if v :| Next(e, v) {
      EmitNext(e, v);
      BehindCycleSurvives(e, v, x.0);
      BehindCycleStays(Without(e, v), x);
    } else {
    }
  }

  /** Exactly the pairs whose prior lies on or behind a cycle are never dropped. */
  lemma ResidueExact(e: set<(int, int)>, x: (int, int))
    ensures x in Residue(e) <==> x in e && BehindCycle(e, x.0)
  {
    ResidueIsStuck(e);
    if x in Residue(e) {
      var r := Residue(e);
      assert (x.0, x.1) in r;
      forall u | IsPrior(r, u) ensures IsPosterior(r, u) { assert !Ready(r, u); }
      StuckIsBehindCycle(r, x.0);
      BehindCycleMonotone(r, e, x.0);
    }
    if x in e && BehindCycle(e, x.0) {
      BehindCycleStays(e, x);
    }
  }

  lemma AcyclicIffNoResidue(e: set<(int, int)>)
    ensures Acyclic(e) <==> Residue(e) == {}
  {
    if Acyclic(e) {
      forall x ensures x !in Residue(e) { ResidueExact(e, x); }
    }
    if p :| Cycle(e, p) {
      var before, after := CycleNeighbours(e, p, p[0]);
      ReachesSelf(e, p[0]);
      assert OnCycle(e, p[0]) && Reaches(e, p[0], p[0]);
      ResidueExact(e, (p[0], after));
    }
  }

  lemma {:induction false} EmittedMembers(e: set<(int, int)>, v: int)
    ensures v in Emitted(e) <==> IsPrior(e, v) && !IsPrior(Residue(e), v)
    decreases e
  {
    if n :| Next(e, n) {
      EmitNext(e, n);
      var rest := Without(e, n);
      EmittedMembers(rest, v);
      ResidueIsStuck(rest);
      if v != n {
        if IsPrior(e, v) { assert (v, SuccessorOf(e, v)) in rest; }
      }
    } else {
    }
  }

  lemma {:induction false} EmittedDistinct(e: set<(int, int)>)
    ensures Distinct(Emitted(e))
    decreases e
  {
    if n :| Next(e, n) {
      EmitNext(e, n);
      EmittedDistinct(Without(e, n));
      EmittedMembers(Without(e, n), n);
    } else {
    }
  }

  /** An emitted posterior was emitted behind each of its priors. */
  lemma {:induction false} EmittedHonours(e: set<(int, int)>, p: int, q: int)
    requires (p, q) in e && q in Emitted(e)
    ensures p in Emitted(e) && Precedes(Emitted(e), p, q)
    decreases e
  {
    if n :| Next(e, n) {
      EmitNext(e, n);
      var rest := Without(e, n);
      var s := Emitted(rest);
      assert q != n && q in s;
      if p == n {
        var j :| 0 <= j < |s| && s[j] == q;
        assert ([n] + s)[0] == p && ([n] + s)[j + 1] == q;
      } else {
        EmittedHonours(rest, p, q);
        var i, j :| 0 <= i < j < |s| && s[i] == p && s[j] == q;
        assert ([n] + s)[i + 1] == p && ([n] + s)[j + 1] == q;
      }
    } else {
    }
  }

  /** Some posterior is never emitted. */
  lemma {:induction false} PosteriorLeft(e: set<(int, int)>) returns (x: int)
    requires e != {}
    ensures IsPosterior(e, x) && x !in Emitted(e)
    decreases e
  {
    if v :| Next(e, v) {
      EmitNext(e, v);
      var rest := Without(e, v);
      if rest == {} {
        var q := SuccessorOf(e, v);
        x := q;
        EmittedMembers(rest, x);
      } else {
        x := PosteriorLeft(rest);
      }
    } else {
      var y :| y in e;
      assert (y.0, y.1) in e;
      x := y.1;
    }
  }

  /** Hence n elements have at most n - 1 that can be emitted: one call is left to complete. */
  lemma EmittedShort(e: set<(int, int)>, n: nat)
    requires InRange(e, n) && e != {}
    ensures |Emitted(e)| < n
  {
    var x := PosteriorLeft(e);
    var s := Emitted(e);
    EmittedDistinct(e);
    DistinctCount(s);
    var p := PredecessorOf(e, x);
    forall v | v in s ensures v in Indices(n) - {x} {
      EmittedMembers(e, v);
      var q := SuccessorOf(e, v);
    }
    SubsetSize(Elements(s), Indices(n) - {x});
  }

  lemma {:induction false} AscendingMembers(n: nat, s: set<int>)
    ensures forall v :: v in Ascending(n, s) <==> 0 <= v < n && v in s
    ensures forall i, j :: 0 <= i < j < |Ascending(n, s)| ==> Ascending(n, s)[i] < Ascending(n, s)[j]
  {
    if n == 0 {
    } else {
      AscendingMembers(n - 1, s);
      var a := Ascending(n - 1, s);
      forall i, j | 0 <= i < j < |Ascending(n, s)| ensures Ascending(n, s)[i] < Ascending(n, s)[j] {
        assert a[i] in a;
      }
    }
  }

  /** Without cycles every element is placed, and only once. */
  lemma CompletedIsPermutation(e: set<(int, int)>, n: nat)
    requires InRange(e, n) && Acyclic(e)
    ensures IndexPermutation(Completed(e, n), n)
  {
    AcyclicIffNoResidue(e);
    var a, b, c := Ascending(n, Untouched(e, n)), Emitted(e), Ascending(n, PurePosteriors(e, n));
    AscendingMembers(n, Untouched(e, n));
    AscendingMembers(n, PurePosteriors(e, n));
    EmittedDistinct(e);
    forall v ensures v in b <==> IsPrior(e, v) { EmittedMembers(e, v); }
    ConcatDistinct(b, c);
    ConcatDistinct(a, b + c);
    var s := Completed(e, n);
    assert s == a + (b + c);
    forall v ensures v in s <==> 0 <= v < n {
      if IsPrior(e, v) { var q := SuccessorOf(e, v); }
    }
    DistinctCount(s);
    assert Elements(s) == Indices(n);
  }

  lemma PrecedesSuffix(a: seq<int>, b: seq<int>, p: int, q: int)
    requires Precedes(b, p, q)
    ensures Precedes(a + b, p, q)
  {
    var i, j :| 0 <= i < j < |b| && b[i] == p && b[j] == q;
    assert (a + b)[|a| + i] == p && (a + b)[|a| + j] == q;
  }

  lemma PrecedesAcross(a: seq<int>, b: seq<int>, p: int, q: int)
    requires p in a && q in b
    ensures Precedes(a + b, p, q)
  {
    var i :| 0 <= i < |a| && a[i] == p;
    var j :| 0 <= j < |b| && b[j] == q;
    assert (a + b)[i] == p && (a + b)[|a| + j] == q;
  }

  lemma PrecedesPrefix(a: seq<int>, b: seq<int>, p: int, q: int)
    requires Precedes(a, p, q)
    ensures Precedes(a + b, p, q)
  {
    var i, j :| 0 <= i < j < |a| && a[i] == p && a[j] == q;
    assert (a + b)[i] == p && (a + b)[j] == q;
  }

  /** Without cycles every pair is honoured. */
  lemma CompletedHonours(e: set<(int, int)>, n: nat, p: int, q: int)
    requires InRange(e, n) && Acyclic(e) && (p, q) in e
    ensures Precedes(Completed(e, n), p, q)
  {
    AcyclicIffNoResidue(e);
    EmittedMembers(e, p);
    EmittedMembers(e, q);
    var b, c := Emitted(e), Ascending(n, PurePosteriors(e, n));
    if q in b {
      EmittedHonours(e, p, q);
      PrecedesPrefix(b, c, p, q);
    } else {
      AscendingMembers(n, PurePosteriors(e, n));
      PrecedesAcross(b, c, p, q);
    }
    PrecedesSuffix(Ascending(n, Untouched(e, n)), b + c, p, q);
  }
}
