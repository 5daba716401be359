/** The laws of the completed order, told of the order itself; they leave no choice. */
module OrderLaws {
  import opened Collections
  import opened Digraphs
  import opened ReadyOrder

  /** In no pair. */
  ghost predicate IsFree(e: set<(int, int)>, v: int) {
    !IsPrior(e, v) && !IsPosterior(e, v)
  }

  /** A posterior that is no prior. */
  ghost predicate IsLast(e: set<(int, int)>, v: int) {
    !IsPrior(e, v) && IsPosterior(e, v)
  }

  /** Some prior of v stands at place i or behind it. */
  ghost predicate WaitsAt(e: set<(int, int)>, s: seq<int>, i: nat, v: int) {
    exists l :: i <= l < |s| && (s[l], v) in e
  }

  /** What holds of any two places i < j: free elements stand in front of all others, ascending; pure
      posteriors behind all others, ascending; and a prior is taken before a smaller one only as long as
      this still waits for one of its own priors. */
  ghost predicate PlacesLawful(e: set<(int, int)>, s: seq<int>, i: nat, j: nat)
    requires i < j < |s|
  {
    && (IsFree(e, s[j]) ==> IsFree(e, s[i]) && s[i] < s[j])
    && (IsLast(e, s[i]) ==> IsLast(e, s[j]) && s[i] < s[j])
    && (IsPrior(e, s[i]) && IsPrior(e, s[j]) && s[j] < s[i] ==> WaitsAt(e, s, i, s[j]))
  }

  /** The order that the sort has to produce. */
  ghost predicate Lawful(e: set<(int, int)>, n: nat, s: seq<int>) {
    && IndexPermutation(s, n)
    && (forall p, q :: (p, q) in e ==> Precedes(s, p, q))
    && (forall i, j :: 0 <= i < j < |s| ==> PlacesLawful(e, s, i, j))
  }

  // ----- there is at most one such order -----

  lemma OtherPlace(n: nat, s: seq<int>, t: seq<int>, k: nat) returns (l: nat)
    requires IndexPermutation(s, n) && IndexPermutation(t, n) && k < n && s[..k] == t[..k]
    ensures k <= l < n && s[l] == t[k]
  {
    var v := t[k];
    assert v in t;
    assert 0 <= v < n <==> v in s;
    assert forall i :: 0 <= i < k ==> s[i] == s[..k][i] && t[i] == t[..k][i];
    l :| 0 <= l < n && s[l] == t[k];
  }

  lemma SameAt(e: set<(int, int)>, n: nat, s: seq<int>, t: seq<int>, k: nat)
    requires Lawful(e, n, s) && Lawful(e, n, t) && k < n && s[..k] == t[..k]
    ensures s[k] == t[k]
  {
    var l := OtherPlace(n, s, t, k);
    var m := OtherPlace(n, t, s, k);
    if s[k] != t[k] {
      assert PlacesLawful(e, s, k, l) && PlacesLawful(e, t, k, m);
      if t[k] < s[k] {
        NotWaiting(e, n, s, t, k);
      } else {
        NotWaiting(e, n, t, s, k);
      }
    }
  }

  lemma InFront(t: seq<int>, k: nat, x: int)
    requires Distinct(t) && k < |t| && Precedes(t, x, t[k])
    ensures x in t[..k]
  {
    var i, j :| 0 <= i < j < |t| && t[i] == x && t[j] == t[k];
    assert t[..k][i] == x;
  }

  /** All priors of the element that one order takes next stand in front of it, in the other order too. */
  lemma NotWaiting(e: set<(int, int)>, n: nat, s: seq<int>, t: seq<int>, k: nat)
    requires Lawful(e, n, s) && Lawful(e, n, t) && k < n && s[..k] == t[..k]
    ensures !WaitsAt(e, s, k, t[k])
  {
    forall l | k <= l < n ensures (s[l], t[k]) !in e {
      assert s[l] !in s[..k];
      if (s[l], t[k]) in e { InFront(t, k, s[l]); }
    }
  }

  lemma {:induction false} SamePrefix(e: set<(int, int)>, n: nat, s: seq<int>, t: seq<int>, k: nat)
    requires Lawful(e, n, s) && Lawful(e, n, t) && k <= n
    ensures s[..k] == t[..k]
  {
    if k == 0 {
    } else {
      SamePrefix(e, n, s, t, k - 1);
      SameAt(e, n, s, t, k - 1);
      assert s[..k] == s[..k - 1] + [s[k - 1]] && t[..k] == t[..k - 1] + [t[k - 1]];
    }
  }

  /** The laws determine the order. */
  lemma LawfulIsUnique(e: set<(int, int)>, n: nat, s: seq<int>, t: seq<int>)
    requires Lawful(e, n, s) && Lawful(e, n, t)
    ensures s == t
  {
    SamePrefix(e, n, s, t, n);
    assert s[..n] == s && t[..n] == t;
  }

  // ----- the completed order is lawful -----

  /** A smaller prior comes later only because one of its own priors is still to come. */
  lemma {:induction false} EmittedWaits(e: set<(int, int)>, i: nat, j: nat)
    requires Residue(e) == {} && i < j < |Emitted(e)| && Emitted(e)[j] < Emitted(e)[i]
    ensures WaitsAt(e, Emitted(e), i, Emitted(e)[j])
    decreases e
  {
    var n :| Next(e, n);
    EmitNext(e, n);
    var rest, s := Without(e, n), Emitted(e);
    assert s == [n] + Emitted(rest);
    if i == 0 {
      assert s[j] in s;
      EmittedMembers(e, s[j]);
      assert !Ready(e, s[j]);
      var w := PredecessorOf(e, s[j]);
      EmittedMembers(e, w);
      var l :| 0 <= l < |s| && s[l] == w;
    } else {
      EmittedWaits(rest, i - 1, j - 1);
      var l :| i - 1 <= l < |Emitted(rest)| && (Emitted(rest)[l], Emitted(rest)[j - 1]) in rest;
      assert s[l + 1] == Emitted(rest)[l];
    }
  }

  /** What kind of element stands in which of the three parts. */
  lemma Parts(e: set<(int, int)>, n: nat)
    requires InRange(e, n) && Acyclic(e)
    ensures
      var a, b, c := Ascending(n, Untouched(e, n)), Emitted(e), Ascending(n, PurePosteriors(e, n));
      && Completed(e, n) == a + b + c
      && (forall v :: v in a ==> IsFree(e, v)) && (forall v :: v in b ==> IsPrior(e, v))
      && (forall v :: v in c ==> IsLast(e, v))
      && (forall i, j :: 0 <= i < j < |a| ==> a[i] < a[j]) && (forall i, j :: 0 <= i < j < |c| ==> c[i] < c[j])
  {
    AcyclicIffNoResidue(e);
    AscendingMembers(n, Untouched(e, n));
    AscendingMembers(n, PurePosteriors(e, n));
    forall v | v in Emitted(e) ensures IsPrior(e, v) { EmittedMembers(e, v); }
    var a, b, c := Ascending(n, Untouched(e, n)), Emitted(e), Ascending(n, PurePosteriors(e, n));
    assert a + b + c == a + (b + c);
  }

  lemma CompletedPlaces(e: set<(int, int)>, n: nat, i: nat, j: nat)
    requires InRange(e, n) && Acyclic(e) && i < j < |Completed(e, n)|
    ensures PlacesLawful(e, Completed(e, n), i, j)
  {
    hide Completed, Emitted, Ascending, Untouched, PurePosteriors;
    AcyclicIffNoResidue(e);
    Parts(e, n);
    var a, b, c := Ascending(n, Untouched(e, n)), Emitted(e), Ascending(n, PurePosteriors(e, n));
    var s := Completed(e, n);
    assert s == a + b + c;
    assert i < |a| ==> s[i] == a[i] && s[i] in a;
    assert j < |a| ==> s[j] == a[j] && s[j] in a;
    assert |a| + |b| <= i ==> s[i] == c[i - |a| - |b|] && s[i] in c;
    assert |a| + |b| <= j ==> s[j] == c[j - |a| - |b|] && s[j] in c;
    assert |a| <= i < |a| + |b| ==> s[i] == b[i - |a|] && s[i] in b;
    assert |a| <= j < |a| + |b| ==> s[j] == b[j - |a|] && s[j] in b;
    if |a| <= i && j < |a| + |b| && s[j] < s[i] {
      EmittedWaits(e, i - |a|, j - |a|);
      var l :| i - |a| <= l < |b| && (b[l], s[j]) in e;
      assert s[l + |a|] == b[l];
    }
  }

  lemma CompletedIsLawful(e: set<(int, int)>, n: nat)
    requires InRange(e, n) && Acyclic(e)
    ensures Lawful(e, n, Completed(e, n))
  {
    CompletedIsPermutation(e, n);
    forall p, q | (p, q) in e ensures Precedes(Completed(e, n), p, q) {
      CompletedHonours(e, n, p, q);
    }
    forall i, j | 0 <= i < j < |Completed(e, n)| ensures PlacesLawful(e, Completed(e, n), i, j) {
      CompletedPlaces(e, n, i, j);
    }
  }
}
