/** Directed graphs given by their edge sets: walks, cycles, reachability. An edge (u, v)
    asks for u to be arranged before v. */
module Digraphs {
  import opened Collections

  ghost predicate Linked<V>(g: set<(V, V)>, p: seq<V>, i: int) {
    0 < i < |p| && (p[i - 1], p[i]) in g
  }

  ghost predicate Walk<V>(g: set<(V, V)>, p: seq<V>) {
    p != [] && forall i :: 0 < i < |p| ==> Linked(g, p, i)
  }

  ghost predicate WalkFromTo<V>(g: set<(V, V)>, p: seq<V>, u: V, v: V) {
    Walk(g, p) && p[0] == u && p[|p| - 1] == v
  }

  /** Reachability, including a vertex from itself. */
  ghost predicate Reaches<V(!new)>(g: set<(V, V)>, u: V, v: V) {
    exists p :: WalkFromTo(g, p, u, v)
  }

  ghost predicate Cycle<V>(g: set<(V, V)>, p: seq<V>) {
    |p| >= 2 && Walk(g, p) && p[0] == p[|p| - 1]
  }

  ghost predicate Acyclic<V(!new)>(g: set<(V, V)>) {
    forall p :: !Cycle(g, p)
  }

  ghost predicate OnCycle<V(!new)>(g: set<(V, V)>, v: V) {
    exists p :: Cycle(g, p) && v in p
  }

  /** Some cycle leads to v (a vertex on a cycle included). */
  ghost predicate BehindCycle<V(!new)>(g: set<(V, V)>, v: V) {
    exists c :: OnCycle(g, c) && Reaches(g, c, v)
  }

  ghost predicate IsPrior<V(!new)>(g: set<(V, V)>, v: V) {
    exists q :: (v, q) in g
  }

  ghost predicate IsPosterior<V(!new)>(g: set<(V, V)>, v: V) {
    exists p :: (p, v) in g
  }

  ghost function SuccessorOf<V(!new)>(g: set<(V, V)>, v: V): (q: V)
    requires IsPrior(g, v)
    ensures (v, q) in g
  {
    var q :| (v, q) in g; q
  }

  ghost function PredecessorOf<V(!new)>(g: set<(V, V)>, v: V): (p: V)
    requires IsPosterior(g, v)
    ensures (p, v) in g
  {
    var p :| (p, v) in g; p
  }

  ghost function Priors<V>(g: set<(V, V)>): set<V> {
    set e | e in g :: e.0
  }

  lemma {:induction false} WalkAppend<V>(g: set<(V, V)>, p: seq<V>, v: V)
    requires Walk(g, p) && (p[|p| - 1], v) in g
    ensures Walk(g, p + [v])
  {
    forall i | 0 < i < |p| + 1 ensures Linked(g, p + [v], i) {
      if i < |p| { assert Linked(g, p, i); }
    }
  }

  lemma {:induction false} WalkPrepend<V>(g: set<(V, V)>, v: V, p: seq<V>)
    requires Walk(g, p) && (v, p[0]) in g
    ensures Walk(g, [v] + p)
  {
    forall i | 0 < i < |p| + 1 ensures Linked(g, [v] + p, i) {
      if i > 1 { assert Linked(g, p, i - 1); }
    }
  }

  lemma {:induction false} WalkSlice<V>(g: set<(V, V)>, p: seq<V>, i: nat, j: nat)
    requires Walk(g, p) && i < j <= |p|
    ensures Walk(g, p[i..j])
  {
    forall k | 0 < k < j - i ensures Linked(g, p[i..j], k) {
      assert Linked(g, p, i + k);
    }
  }

  lemma {:induction false} WalkConcat<V>(g: set<(V, V)>, p: seq<V>, q: seq<V>)
    requires Walk(g, p) && Walk(g, q) && p[|p| - 1] == q[0]
    ensures Walk(g, p + q[1..])
    ensures (p + q[1..])[|p + q[1..]| - 1] == q[|q| - 1]
  {
    var w := p + q[1..];
    forall k | 0 < k < |w| ensures Linked(g, w, k) {
      if k < |p| {
        assert Linked(g, p, k);
      } else {
        assert Linked(g, q, k - |p| + 1) && w[k] == q[k - |p| + 1] && w[k - 1] == q[k - |p|];
      }
    }
  }

  lemma {:induction false} WalkMonotone<V>(g: set<(V, V)>, h: set<(V, V)>, p: seq<V>)
    requires g <= h && Walk(g, p)
    ensures Walk(h, p)
  {
    forall i | 0 < i < |p| ensures Linked(h, p, i) { assert Linked(g, p, i); }
  }

  lemma ReachesSelf<V(!new)>(g: set<(V, V)>, v: V)
    ensures Reaches(g, v, v)
  {
    assert WalkFromTo(g, [v], v, v);
  }

  lemma ReachesStep<V(!new)>(g: set<(V, V)>, u: V, v: V, w: V)
    requires (u, v) in g && Reaches(g, v, w)
    ensures Reaches(g, u, w)
  {
    var p :| WalkFromTo(g, p, v, w);
    WalkPrepend(g, u, p);
    assert WalkFromTo(g, [u] + p, u, w);
  }

  /** Every vertex of a cycle has a predecessor and a successor on it. */
  lemma {:induction false} CycleNeighbours<V>(g: set<(V, V)>, p: seq<V>, v: V) returns (before: V, after: V)
    requires Cycle(g, p) && v in p
    ensures before in p && after in p && (before, v) in g && (v, after) in g
  {
    var i :| 0 <= i < |p| && p[i] == v;
    before := if i == 0 then p[|p| - 2] else p[i - 1];
    after := if i == |p| - 1 then p[1] else p[i + 1];
    assert Linked(g, p, |p| - 1) && Linked(g, p, 1);
    assert 0 < i ==> Linked(g, p, i);
    assert i + 1 < |p| ==> Linked(g, p, i + 1);
  }

  /** A walk that visits a vertex twice can be cut; so reachable vertices are reached by a walk
      with no more vertices than there are to visit. */
  lemma {:induction false} ShortWalk<V(!new)>(g: set<(V, V)>, p: seq<V>, u: V, v: V, vertices: set<V>)
    returns (short: seq<V>)
    requires WalkFromTo(g, p, u, v)
    requires forall x :: x in p ==> x in vertices
    ensures WalkFromTo(g, short, u, v) && |short| <= |vertices|
    decreases |p|
  {
    if |p| <= |vertices| {
      short := p;
    } else {
      var i, j := Pigeonhole(p, vertices);
      WalkSlice(g, p, 0, i + 1);
      WalkSlice(g, p, j, |p|);
      WalkConcat(g, p[0..i + 1], p[j..|p|]);
      var cut := p[0..i + 1] + p[j..|p|][1..];
      assert |cut| < |p| && cut[0] == u;
      assert forall x :: x in cut ==> x in p;
      short := ShortWalk(g, cut, u, v, vertices);
    }
  }

  /** In a graph all of whose priors are posteriors too, one can walk backwards for ever. */
  lemma {:induction false} WalkBack<V(!new)>(g: set<(V, V)>, v: V, steps: nat) returns (p: seq<V>)
    requires IsPrior(g, v)
    requires forall u :: IsPrior(g, u) ==> IsPosterior(g, u)
    ensures |p| == steps + 1 && Walk(g, p) && p[|p| - 1] == v
    ensures forall x :: x in p ==> x in Priors(g)
  {
    if steps == 0 {
      var q :| (v, q) in g;
      assert (v, q).0 in Priors(g);
      p := [v];
    } else {
      var q :| (v, q) in g;
      assert (v, q).0 in Priors(g);
      var u :| (u, v) in g;
      var w := WalkBack(g, u, steps - 1);
      WalkAppend(g, w, v);
      p := w + [v];
    }
  }

  /** So each prior of such a graph lies behind a cycle. */
  lemma {:induction false} StuckIsBehindCycle<V(!new)>(g: set<(V, V)>, v: V)
    requires IsPrior(g, v)
    requires forall u :: IsPrior(g, u) ==> IsPosterior(g, u)
    ensures BehindCycle(g, v)
  {
    var p := WalkBack(g, v, |Priors(g)|);
    var i, j := Pigeonhole(p, Priors(g));
    WalkSlice(g, p, i, j + 1);
    var c := p[i..j + 1];
    assert c[0] == p[i] && c[|c| - 1] == p[j];
    assert Cycle(g, c) && p[j] in c;
    WalkSlice(g, p, j, |p|);
    assert WalkFromTo(g, p[j..|p|], p[j], v);
    assert OnCycle(g, p[j]) && Reaches(g, p[j], v);
  }

  lemma BehindCycleMonotone<V(!new)>(g: set<(V, V)>, h: set<(V, V)>, v: V)
    requires g <= h && BehindCycle(g, v)
    ensures BehindCycle(h, v)
  {
    var c :| OnCycle(g, c) && Reaches(g, c, v);
    var p :| Cycle(g, p) && c in p;
    WalkMonotone(g, h, p);
    assert Cycle(h, p);
    var w :| WalkFromTo(g, w, c, v);
    WalkMonotone(g, h, w);
    assert WalkFromTo(h, w, c, v);
    assert OnCycle(h, c) && Reaches(h, c, v);
  }
}
