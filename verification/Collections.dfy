/** Facts about sequences and finite sets that several models share. */
module Collections {

  datatype Option<+T> = None | Some(value: T)

  datatype Result<+T, +E> = Ok(value: T) | Err(error: E)

  /** The identifier of a product, client, host or group: only its equality matters. */
  datatype Id = Id(name: string)

  type Byte = b: int | 0 <= b < 256

  function Elements<T>(s: seq<T>): set<T> {
    set x | x in s
  }

  ghost predicate Distinct<T>(s: seq<T>) {
    forall i, j :: 0 <= i < j < |s| ==> s[i] != s[j]
  }

  /** x stands somewhere in s and y stands somewhere behind it. */
  ghost predicate Precedes<T>(s: seq<T>, x: T, y: T) {
    exists i, j :: 0 <= i < j < |s| && s[i] == x && s[j] == y
  }

  /** s holds every index below n exactly once. */
  ghost predicate IndexPermutation(s: seq<int>, n: nat) {
    && |s| == n
    && Distinct(s)
    && forall i :: 0 <= i < n <==> i in s
  }

  lemma {:induction false} DistinctCount<T>(s: seq<T>)
    requires Distinct(s)
    ensures |Elements(s)| == |s|
  {
    if s == [] {
    } else {
      var init, x := s[..|s| - 1], s[|s| - 1];
      DistinctCount(init);
      assert s == init + [x];
      assert Elements(s) == Elements(init) + {x};
    }
  }

  /** With as many elements as places, none occurs twice. */
  lemma {:induction false} CountMeansDistinct<T>(s: seq<T>)
    ensures |Elements(s)| <= |s|
    ensures |Elements(s)| == |s| ==> Distinct(s)
  {
    if s == [] {
    } else {
      var init, x := s[..|s| - 1], s[|s| - 1];
      CountMeansDistinct(init);
      assert s == init + [x];
      assert Elements(s) == Elements(init) + {x};
      if x in init { assert Elements(s) == Elements(init); }
    }
  }

  /** A sequence longer than the set it draws from repeats an element. */
  lemma {:induction false} Pigeonhole<T>(s: seq<T>, from: set<T>) returns (i: nat, j: nat)
    requires forall x :: x in s ==> x in from
    requires |s| > |from|
    ensures i < j < |s| && s[i] == s[j]
  {
    if forall a, b :: 0 <= a < b < |s| ==> s[a] != s[b] {
      DistinctCount(s);
      SubsetSize(Elements(s), from);
      assert false;
    }
    i, j :| 0 <= i < j < |s| && s[i] == s[j];
  }

  lemma {:induction false} SubsetSize<T>(a: set<T>, b: set<T>)
    requires a <= b
    ensures |a| <= |b|
    ensures |a| == |b| ==> a == b
  {
    assert b == a + (b - a);
    assert |b| == |a| + |b - a|;
  }

  /** Without repetitions, equal element sets mean equal multisets. */
  lemma {:induction false} DistinctMultiset<T>(s: seq<T>)
    requires Distinct(s)
    ensures multiset(s) == multiset(Elements(s))
  {
    if s == [] {
    } else {
      var init, x := s[..|s| - 1], s[|s| - 1];
      DistinctMultiset(init);
      assert s == init + [x];
      assert Elements(s) == Elements(init) + {x};
    }
  }

  lemma {:induction false} LeastOf(s: set<int>) returns (m: int)
    requires s != {}
    ensures m in s && forall x :: x in s ==> m <= x
  {
    assert (forall x :: x !in s) ==> s == {};
    var x :| x in s;
    if s == {x} {
      m := x;
    } else {
      m := LeastOf(s - {x});
      assert s == (s - {x}) + {x};
      if x < m { m := x; }
    }
  }

  ghost function Indices(n: nat): (r: set<int>)
    ensures |r| == n
    ensures forall i :: i in r <==> 0 <= i < n
  {
    if n == 0 then {} else Indices(n - 1) + {n - 1}
  }

  /** All pairs of indices below n. */
  ghost function Square(n: nat): (r: set<(int, int)>)
    ensures forall x :: x in r <==> 0 <= x.0 < n && 0 <= x.1 < n
  {
    set i, j | i in Indices(n) && j in Indices(n) :: (i, j)
  }

  /** whole has been split into a and b. */
  ghost predicate Split<T>(whole: seq<T>, a: seq<T>, b: seq<T>) {
    multiset(whole) == multiset(a) + multiset(b)
  }

  lemma SplitMembers<T>(whole: seq<T>, a: seq<T>, b: seq<T>)
    requires Split(whole, a, b)
    ensures forall x :: x in whole <==> x in a || x in b
    ensures |whole| == |a| + |b|
  {
    forall x ensures x in whole <==> x in a || x in b {
      assert x in multiset(whole) <==> x in multiset(a) || x in multiset(b);
    }
    assert |multiset(whole)| == |whole| && |multiset(a)| == |a| && |multiset(b)| == |b|;
  }

  /** The parts of something without repetitions have none either, and share nothing. */
  lemma SplitDistinct<T>(whole: seq<T>, a: seq<T>, b: seq<T>)
    requires Distinct(whole) && Split(whole, a, b)
    ensures Distinct(a) && Distinct(b) && forall x :: x in a ==> x !in b
  {
    DistinctMultiset(whole);
    OncePerElement(whole, a, b);
    OncePerElement(whole, b, a);
    forall x | x in a ensures x !in b {
      assert multiset(whole)[x] <= 1 && multiset(a)[x] >= 1;
      assert multiset(b)[x] == 0;
    }
  }

  lemma OncePerElement<T>(whole: seq<T>, a: seq<T>, b: seq<T>)
    requires Split(whole, a, b) && multiset(whole) == multiset(Elements(whole))
    ensures Distinct(a)
  {
    forall i, j | 0 <= i < j < |a| ensures a[i] != a[j] {
      assert a == a[..i] + [a[i]] + a[i + 1..j] + [a[j]] + a[j + 1..];
      assert multiset(whole)[a[i]] <= 1;
    }
  }

  function Dropped<T>(s: seq<T>, k: nat): seq<T>
    requires k < |s|
  {
    s[..k] + s[k + 1..]
  }

  /** Moving one element from the second part to the end of the first. */
  lemma SplitMove<T>(whole: seq<T>, a: seq<T>, b: seq<T>, k: nat)
    requires Split(whole, a, b) && k < |b|
    ensures Split(whole, a + [b[k]], Dropped(b, k))
  {
    assert b == b[..k] + [b[k]] + b[k + 1..];
  }

  lemma ConcatDistinct<T>(a: seq<T>, b: seq<T>)
    requires Distinct(a) && Distinct(b)
    requires forall x :: x in a ==> x !in b
    ensures Distinct(a + b)
  {
    var s := a + b;
    forall i, j | 0 <= i < j < |s| ensures s[i] != s[j] {
      if i < |a| <= j { assert s[i] in a && s[j] in b; }
    }
  }
}
