/** Pushing priorities upwards: whatever must come first gets at least the priority of what has to
    wait for it. */
module PriorityPush {
  import opened Collections
  import opened Digraphs
  import opened ClassSorting

  // ----- the theory, on values -----

  /** m is the larger of p's own value and the values of the posteriors p is required for in g. */
  ghost predicate LeastRaise(rev: map<Id, int>, g: set<(Id, Id)>, p: Id, m: int)
    requires p in rev
  {
    && m >= rev[p]
    && (forall q :: (p, q) in g && q in rev ==> m >= rev[q])
    && (m == rev[p] || exists q :: (p, q) in g && q in rev && m == rev[q])
  }

  /** One pass raises every product at once, by the values at the start of the pass. */
  ghost predicate RaisedBy(rev: map<Id, int>, g: set<(Id, Id)>, rev': map<Id, int>) {
    && rev'.Keys == rev.Keys
    && forall p {:trigger LeastRaise(rev, g, p, rev'[p])} :: p in rev ==> LeastRaise(rev, g, p, rev'[p])
  }

  ghost predicate EdgesWithin(g: set<(Id, Id)>, keys: set<Id>) {
    forall x :: x in g ==> x.0 in keys && x.1 in keys
  }

  /** Some product reachable from p declares m. */
  ghost predicate Attained(decl: map<Id, int>, g: set<(Id, Id)>, p: Id, m: int) {
    exists q :: q in decl && Reaches(g, p, q) && decl[q] == m
  }

  /** No product reachable from p declares more than m. */
  ghost predicate Bounded(decl: map<Id, int>, g: set<(Id, Id)>, p: Id, m: int) {
    forall q {:trigger Reaches(g, p, q)} :: q in decl && Reaches(g, p, q) ==> decl[q] <= m
  }

  /** m is the largest declared value among all products reachable from p. */
  ghost predicate IsPeak(decl: map<Id, int>, g: set<(Id, Id)>, p: Id, m: int) {
    Attained(decl, g, p, m) && Bounded(decl, g, p, m)
  }

  /** q can be reached from p along at most k edges. */
  ghost predicate Within(g: set<(Id, Id)>, k: nat, p: Id, q: Id) {
    p == q || (k > 0 && exists n :: (p, n) in g && Within(g, k - 1, n, q))
  }

  /** After k passes: attained by something reachable, and no less than anything k edges away. */
  ghost predicate AfterPasses(decl: map<Id, int>, g: set<(Id, Id)>, k: nat, rev: map<Id, int>) {
    AllAttained(decl, g, rev) && AtLeastWithin(decl, g, k, rev)
  }

  lemma AtStart(decl: map<Id, int>, g: set<(Id, Id)>)
    ensures AfterPasses(decl, g, 0, decl)
  {
    forall p | p in decl ensures Attained(decl, g, p, decl[p]) {
      ReachesSelf(g, p);
    }
  }

  ghost predicate AllAttained(decl: map<Id, int>, g: set<(Id, Id)>, rev: map<Id, int>) {
    && rev.Keys == decl.Keys
    && forall p {:trigger Attained(decl, g, p, rev[p])} :: p in decl ==> Attained(decl, g, p, rev[p])
  }

  ghost predicate AtLeastWithin(decl: map<Id, int>, g: set<(Id, Id)>, k: nat, rev: map<Id, int>) {
    && rev.Keys == decl.Keys
    && forall p, q {:trigger Within(g, k, p, q)} :: p in decl && q in decl && Within(g, k, p, q) ==> rev[p] >= decl[q]
  }

  lemma OnePassAttained(decl: map<Id, int>, g: set<(Id, Id)>, rev: map<Id, int>, p: Id, m: int)
    requires AllAttained(decl, g, rev) && p in rev && LeastRaise(rev, g, p, m)
    ensures Attained(decl, g, p, m)
  {
    assert Attained(decl, g, p, rev[p]);
    if m != rev[p] {
      var n :| (p, n) in g && n in rev && m == rev[n];
      assert Attained(decl, g, n, rev[n]);
      var q :| q in decl && Reaches(g, n, q) && decl[q] == rev[n];
      ReachesStep(g, p, n, q);
    }
  }

  lemma OnePassWithin(decl: map<Id, int>, g: set<(Id, Id)>, k: nat, rev: map<Id, int>, p: Id, m: int, q: Id)
    requires EdgesWithin(g, decl.Keys) && AtLeastWithin(decl, g, k, rev)
    requires p in rev && LeastRaise(rev, g, p, m) && q in decl && Within(g, k + 1, p, q)
    ensures m >= decl[q]
  {
    if p == q {
      assert Within(g, k, p, p);
    } else {
      var n :| (p, n) in g && Within(g, k, n, q);
      assert (p, n).1 in decl.Keys;
    }
  }

  lemma OnePassAllAttained(decl: map<Id, int>, g: set<(Id, Id)>, rev: map<Id, int>, rev': map<Id, int>)
    requires AllAttained(decl, g, rev) && RaisedBy(rev, g, rev')
    ensures AllAttained(decl, g, rev')
  {
    forall p {:trigger rev'[p]} | p in decl ensures Attained(decl, g, p, rev'[p]) {
      assert LeastRaise(rev, g, p, rev'[p]);
      OnePassAttained(decl, g, rev, p, rev'[p]);
    }
  }

  lemma OnePassAllWithin(decl: map<Id, int>, g: set<(Id, Id)>, k: nat, j: nat, rev: map<Id, int>, rev': map<Id, int>)
    requires EdgesWithin(g, decl.Keys) && AtLeastWithin(decl, g, k, rev) && RaisedBy(rev, g, rev') && j == k + 1
    ensures AtLeastWithin(decl, g, j, rev')
  {
    forall p, q | p in decl && q in decl && Within(g, j, p, q) ensures rev'[p] >= decl[q] {
      assert LeastRaise(rev, g, p, rev'[p]);
      OnePassWithin(decl, g, k, rev, p, rev'[p], q);
    }
  }

  /** A pass reaches one edge further. */
  lemma OnePass(decl: map<Id, int>, g: set<(Id, Id)>, k: nat, j: nat, rev: map<Id, int>, rev': map<Id, int>)
    requires EdgesWithin(g, decl.Keys) && AfterPasses(decl, g, k, rev) && RaisedBy(rev, g, rev') && j == k + 1
    ensures AfterPasses(decl, g, j, rev')
  {
    OnePassAllAttained(decl, g, rev, rev');
    OnePassAllWithin(decl, g, k, j, rev, rev');
  }

  lemma {:induction false} StableDescends(g: set<(Id, Id)>, rev: map<Id, int>, w: seq<Id>)
    requires EdgesWithin(g, rev.Keys) && RaisedBy(rev, g, rev) && Walk(g, w) && w[0] in rev
    ensures w[|w| - 1] in rev && rev[w[0]] >= rev[w[|w| - 1]]
    decreases |w|
  {
    if |w| <= 1 {
    } else {
      var n := |w| - 1;
      WalkSlice(g, w, 0, n);
      StableDescends(g, rev, w[0..n]);
      assert Linked(g, w, n);
      assert LeastRaise(rev, g, w[n - 1], rev[w[n - 1]]);
    }
  }

  /** Values that no pass changes any more are the peaks. */
  lemma StableIsPeak(decl: map<Id, int>, g: set<(Id, Id)>, k: nat, rev: map<Id, int>, p: Id)
    requires EdgesWithin(g, decl.Keys) && AfterPasses(decl, g, k, rev) && RaisedBy(rev, g, rev) && p in decl
    ensures IsPeak(decl, g, p, rev[p])
  {
    assert Attained(decl, g, p, rev[p]);
    forall q | q in decl && Reaches(g, p, q) ensures decl[q] <= rev[p] {
      var w :| WalkFromTo(g, w, p, q);
      StableDescends(g, rev, w);
      assert Within(g, k, q, q);
    }
  }

  lemma {:induction false} WalkWithin(g: set<(Id, Id)>, w: seq<Id>, k: nat)
    requires Walk(g, w) && |w| <= k + 1
    ensures Within(g, k, w[0], w[|w| - 1])
    decreases |w|
  {
    if |w| <= 1 {
    } else {
      assert Linked(g, w, 1);
      WalkSlice(g, w, 1, |w|);
      WalkWithin(g, w[1..|w|], k - 1);
    }
  }

  lemma WalkStays(g: set<(Id, Id)>, w: seq<Id>, keys: set<Id>)
    requires EdgesWithin(g, keys) && Walk(g, w) && w[0] in keys
    ensures forall x :: x in w ==> x in keys
  {
    forall x | x in w ensures x in keys {
      var i :| 0 <= i < |w| && w[i] == x;
      if i > 0 { assert Linked(g, w, i); }
    }
  }

  lemma ReachesWithin(g: set<(Id, Id)>, keys: set<Id>, p: Id, q: Id, k: nat)
    requires EdgesWithin(g, keys) && p in keys && Reaches(g, p, q) && k + 1 >= |keys|
    ensures Within(g, k, p, q)
  {
    var w :| WalkFromTo(g, w, p, q);
    WalkStays(g, w, keys);
    var short := ShortWalk(g, w, p, q, keys);
    WalkWithin(g, short, k);
  }

  /** With one pass less than there are products, all peaks are reached, whatever the range of priorities. */
  lemma EnoughPasses(decl: map<Id, int>, g: set<(Id, Id)>, k: nat, rev: map<Id, int>, p: Id)
    requires EdgesWithin(g, decl.Keys) && AfterPasses(decl, g, k, rev) && p in decl && k + 1 >= |decl.Keys|
    ensures IsPeak(decl, g, p, rev[p])
  {
    assert Attained(decl, g, p, rev[p]);
    forall q | q in decl && Reaches(g, p, q) ensures decl[q] <= rev[p] {
      ReachesWithin(g, decl.Keys, p, q, k);
    }
  }

  lemma PeakUnique(decl: map<Id, int>, g: set<(Id, Id)>, p: Id, m: int, n: int)
    requires IsPeak(decl, g, p, m) && IsPeak(decl, g, p, n)
    ensures m == n
  {
    var q :| q in decl && Reaches(g, p, q) && decl[q] == m;
    var q' :| q' in decl && Reaches(g, p, q') && decl[q'] == n;
  }

  lemma SamePeak(decl: map<Id, int>, g: set<(Id, Id)>, k: nat, j: nat,
                 rev: map<Id, int>, rev': map<Id, int>, p: Id)
    requires EdgesWithin(g, decl.Keys) && AfterPasses(decl, g, k, rev) && AfterPasses(decl, g, j, rev')
    requires p in decl && k + 1 >= |decl.Keys| && j >= k
    ensures rev'[p] == rev[p]
  {
    EnoughPasses(decl, g, k, rev, p);
    EnoughPasses(decl, g, j, rev', p);
    PeakUnique(decl, g, p, rev[p], rev'[p]);
  }

  lemma EnoughPassesStable(decl: map<Id, int>, g: set<(Id, Id)>, k: nat, rev: map<Id, int>, rev': map<Id, int>)
    requires EdgesWithin(g, decl.Keys) && AfterPasses(decl, g, k, rev) && RaisedBy(rev, g, rev') && k + 1 >= |decl.Keys|
    ensures rev' == rev
  {
    var j := k + 1;
    OnePass(decl, g, k, j, rev, rev');
    forall p {:trigger rev'[p]} | p in decl ensures rev'[p] == rev[p] {
      SamePeak(decl, g, k, j, rev, rev', p);
    }
  }

  lemma RaiseOne(rev0: map<Id, int>, done: set<(Id, Id)>, cur: map<Id, int>, a: Id, b: Id)
    requires RaisedBy(rev0, done, cur) && a in rev0 && b in rev0
    ensures RaisedBy(rev0, done + {(a, b)}, cur[a := if cur[a] < rev0[b] then rev0[b] else cur[a]])
  {
    var done', cur' := done + {(a, b)}, cur[a := if cur[a] < rev0[b] then rev0[b] else cur[a]];
    forall p | p in rev0 ensures LeastRaise(rev0, done', p, cur'[p]) {
      assert LeastRaise(rev0, done, p, cur[p]);
      if p == a {
        if cur[a] >= rev0[b] && cur[a] != rev0[a] {
          var q :| (a, q) in done && q in rev0 && cur[a] == rev0[q];
          assert (a, q) in done';
        } else if cur[a] < rev0[b] {
          assert (a, b) in done';
        }
      } else if cur[p] != rev0[p] {
        var q :| (p, q) in done && q in rev0 && cur[p] == rev0[q];
        assert (p, q) in done';
      }
    }
  }

  // ----- the products with their revised priorities -----

  class XClassifiedProduct {
    const id: Id
    var priority: int
    var revisedPriority: int

    constructor (id: Id, priority: int)
      ensures this.id == id && this.priority == priority && this.revisedPriority == priority
    {
      this.id := id;
      this.priority := priority;
      this.revisedPriority := priority;
    }
  }

  ghost predicate DistinctProducts(products: seq<XClassifiedProduct>) {
    forall i, j :: 0 <= i < j < |products| ==> products[i].id != products[j].id
  }

  function XIds(products: seq<XClassifiedProduct>): set<Id> {
    set x | x in products :: x.id
  }

  lemma SameX(products: seq<XClassifiedProduct>, x: XClassifiedProduct, y: XClassifiedProduct)
    requires DistinctProducts(products) && x in products && y in products && x.id == y.id
    ensures x == y
  {
    var i :| 0 <= i < |products| && products[i] == x;
    var j :| 0 <= j < |products| && products[j] == y;
  }

  /** Holds the current revised priorities. */
  ghost predicate Holds(products: seq<XClassifiedProduct>, rev: map<Id, int>)
    reads products
  {
    && rev.Keys == XIds(products)
    && forall x :: x in products ==> x.id in rev && x.revisedPriority == rev[x.id]
  }

  ghost function Revisions(products: seq<XClassifiedProduct>): (rev: map<Id, int>)
    requires DistinctProducts(products)
    reads products
    ensures Holds(products, rev)
  {
    var rev := map id | id in XIds(products) :: (var x :| x in products && x.id == id; x.revisedPriority);
    assert Holds(products, rev) by {
      forall x | x in products ensures x.id in rev && x.revisedPriority == rev[x.id] {
        forall y | y in products && y.id == x.id ensures y == x { SameX(products, x, y); }
      }
    }
    rev
  }

  lemma GraphWithin(ids: set<Id>, requs: seq<(Id, Id)>)
    ensures EdgesWithin(RequirementGraph(ids, requs), ids)
  {
  }

  /** The available requirements whose posterior is b, looked up in the table by posterior. */
  ghost predicate Posteriors(requs: seq<(Id, Id)>, ids: set<Id>, table: map<Id, seq<(Id, Id)>>) {
    && (forall b, r :: b in table && r in table[b] ==> r in requs && r.1 == b)
    && (forall r :: r in requs && r.0 in ids ==> r.1 in table && r in table[r.1])
  }

  method TableByPosterior(requs: seq<(Id, Id)>, ghost ids: set<Id>) returns (table: map<Id, seq<(Id, Id)>>)
    ensures Posteriors(requs, ids, table)
  {
    table := map[];
    for k := 0 to |requs|
      invariant Posteriors(requs[..k], ids, table)
    {
      var requ := requs[k];
      assert requs[..k + 1] == requs[..k] + [requ];
      if requ.1 !in table {
        table := table[requ.1 := []];
      }
      table := table[requ.1 := table[requ.1] + [requ]];
    }
    assert requs[..|requs|] == requs;
  }

  /** The first occurrence of r is taken out. */
  method Removed(list: seq<(Id, Id)>, r: (Id, Id)) returns (shorter: seq<(Id, Id)>)
    ensures forall x :: x in shorter ==> x in list
    ensures forall x :: x in list && x != r ==> x in shorter
    ensures r in list ==> multiset(shorter) == multiset(list) - multiset{r}
    ensures r !in list ==> shorter == list
  {
    var i := 0;
    while i < |list| && list[i] != r
      invariant 0 <= i <= |list| && r !in list[..i]
    {
      i := i + 1;
    }
    shorter := if i < |list| then list[..i] + list[i + 1..] else list;
    assert i < |list| ==> list == list[..i] + [list[i]] + list[i + 1..];
  }

  ghost predicate Within100(rev: map<Id, int>) {
    forall p :: p in rev ==> BOTTOM <= rev[p] <= TOP
  }

  /** The table of products by id. */
  ghost predicate Table(products: seq<XClassifiedProduct>, byId: map<Id, XClassifiedProduct>) {
    && byId.Keys == XIds(products)
    && forall id :: id in byId ==> byId[id] in products && byId[id].id == id
  }

  ghost function AvailableOf(list: seq<(Id, Id)>, ids: set<Id>): set<(Id, Id)> {
    set r | r in list && r.0 in ids
  }

  /** How far a pass has come: the requirements in done have been looked at. */
  ghost predicate Partial(products: seq<XClassifiedProduct>, rev0: map<Id, int>, done: set<(Id, Id)>,
                          cur: map<Id, int>, changed: bool)
    reads products
  {
    && Holds(products, cur) && RaisedBy(rev0, done, cur) && Within100(cur)
    && (changed <==> cur != rev0)
  }

  lemma RaiseStep(rev0: map<Id, int>, done: set<(Id, Id)>, cur: map<Id, int>, a: Id, b: Id, changed: bool)
    requires RaisedBy(rev0, done, cur) && Within100(rev0) && Within100(cur) && (changed <==> cur != rev0)
    requires a in rev0 && b in rev0
    ensures
      var up := cur[a] < rev0[b];
      var cur' := if up then cur[a := rev0[b]] else cur;
      RaisedBy(rev0, done + {(a, b)}, cur') && Within100(cur') && (changed || up <==> cur' != rev0)
  {
    RaiseOne(rev0, done, cur, a, b);
    assert cur[a := cur[a]] == cur;
    assert LeastRaise(rev0, done, a, cur[a]);
  }

  lemma OneMoreDone(done: set<(Id, Id)>, list: seq<(Id, Id)>, k: nat, ids: set<Id>)
    requires k < |list|
    ensures done + AvailableOf(list[..k + 1], ids) ==
            if list[k].0 in ids then done + AvailableOf(list[..k], ids) + {list[k]}
            else done + AvailableOf(list[..k], ids)
  {
    assert list[..k + 1] == list[..k] + [list[k]];
  }

  method SetRevised(products: seq<XClassifiedProduct>, x: XClassifiedProduct, level: int, ghost cur: map<Id, int>)
    requires DistinctProducts(products) && x in products && Holds(products, cur)
    modifies x`revisedPriority
    ensures Holds(products, cur[x.id := level])
  {
    forall y | y in products && y.id == x.id ensures y == x { SameX(products, x, y); }
    x.revisedPriority := level;
  }

  /** Lifts every available prior of list, all required before b, to b's level. */
  method LiftPriors(products: seq<XClassifiedProduct>, byId: map<Id, XClassifiedProduct>, list: seq<(Id, Id)>,
                    level: int, changed0: bool, ghost b: Id, ghost rev0: map<Id, int>, ghost done: set<(Id, Id)>,
                    ghost cur0: map<Id, int>)
    returns (changed: bool, removeRequs: seq<(Id, Id)>, ghost cur: map<Id, int>)
    requires DistinctProducts(products) && Table(products, byId)
    requires Within100(rev0) && b in rev0 && rev0[b] == level
    requires forall r :: r in list ==> r.1 == b
    requires Partial(products, rev0, done, cur0, changed0)
    modifies (set x | x in products)`revisedPriority
    ensures Partial(products, rev0, done + AvailableOf(list, XIds(products)), cur, changed)
    ensures forall r :: r in removeRequs ==> r.0 !in XIds(products)
  {
    hide RaisedBy, AvailableOf, Within100;
    changed, removeRequs, cur := changed0, [], cur0;
    ghost var ids := XIds(products);
    NothingLifted(products, rev0, done, list, cur, changed);
    for k := 0 to |list|
      invariant Partial(products, rev0, done + AvailableOf(list[..k], ids), cur, changed)
      invariant rev0.Keys == ids
      invariant forall r :: r in removeRequs ==> r.0 !in ids
    {
      var requ := list[k];
      OneMoreDone(done, list, k, ids);
      assert requ in list && requ == (requ.0, b);
      if requ.0 !in byId {
        removeRequs := removeRequs + [requ];
      } else {
        RaiseStep(rev0, done + AvailableOf(list[..k], ids), cur, requ.0, b, changed);
        if byId[requ.0].revisedPriority < level {
          SetRevised(products, byId[requ.0], level, cur);
          cur := cur[requ.0 := level];
          changed := true;
        }
      }
    }
    assert list[..|list|] == list;
  }

  lemma NothingLifted(products: seq<XClassifiedProduct>, rev0: map<Id, int>, done: set<(Id, Id)>, list: seq<(Id, Id)>,
                      cur: map<Id, int>, changed: bool)
    requires Partial(products, rev0, done, cur, changed)
    ensures Partial(products, rev0, done + AvailableOf(list[..0], XIds(products)), cur, changed)
    ensures rev0.Keys == XIds(products)
  {
    assert done + AvailableOf(list[..0], XIds(products)) == done;
  }

  /** The products by their level at the start of a pass. */
  ghost predicate ByLevel(products: seq<XClassifiedProduct>, rev0: map<Id, int>,
                          levels: map<int, seq<XClassifiedProduct>>)
  {
    && (forall level :: BOTTOM <= level <= TOP ==> level in levels)
    && (forall level, x :: level in levels && x in levels[level] ==>
          x in products && x.id in rev0 && rev0[x.id] == level)
    && (forall x :: x in products && x.id in rev0 ==> rev0[x.id] in levels && x in levels[rev0[x.id]])
  }

  method LevelLists(products: seq<XClassifiedProduct>, ghost rev0: map<Id, int>)
    returns (levels: map<int, seq<XClassifiedProduct>>)
    requires Holds(products, rev0) && Within100(rev0)
    ensures ByLevel(products, rev0, levels)
  {
    levels := map[];
    for level := TOP + 1 downto BOTTOM
      invariant forall l :: l in levels <==> level <= l <= TOP
      invariant forall l :: l in levels ==> levels[l] == []
    {
      levels := levels[level := []];
    }
    for k := 0 to |products|
      invariant ByLevel(products[..k], rev0, levels)
    {
      var prod := products[k];
      assert products[..k + 1] == products[..k] + [prod];
      assert prod in products;
      levels := levels[prod.revisedPriority := levels[prod.revisedPriority] + [prod]];
    }
    assert products[..|products|] == products;
  }

  method ProductTable(products: seq<XClassifiedProduct>) returns (byId: map<Id, XClassifiedProduct>)
    ensures Table(products, byId)
  {
    byId := map[];
    for k := 0 to |products|
      invariant Table(products[..k], byId)
    {
      assert products[..k + 1] == products[..k] + [products[k]];
      byId := byId[products[k].id := products[k]];
    }
    assert products[..|products|] == products;
  }

  /** The requirements whose posterior stood below level at the start of the pass. */
  ghost function FromBelow(g: set<(Id, Id)>, rev0: map<Id, int>, level: int): set<(Id, Id)> {
    set r | r in g && r.1 in rev0 && rev0[r.1] < level
  }

  /** Those whose posterior is among the given products. */
  ghost function Into(g: set<(Id, Id)>, list: seq<XClassifiedProduct>): set<(Id, Id)> {
    set r | r in g && exists x :: x in list && x.id == r.1
  }

  lemma IntoOneMore(products: seq<XClassifiedProduct>, requs: seq<(Id, Id)>, list: seq<XClassifiedProduct>, k: nat,
                    table: map<Id, seq<(Id, Id)>>)
    requires k < |list| && list[k] in products && Posteriors(requs, XIds(products), table)
    ensures
      var g := RequirementGraph(XIds(products), requs);
      Into(g, list[..k + 1]) == Into(g, list[..k]) +
      if list[k].id in table then AvailableOf(table[list[k].id], XIds(products)) else {}
  {
    assert list[..k + 1] == list[..k] + [list[k]];
    var g := RequirementGraph(XIds(products), requs);
    var more := if list[k].id in table then AvailableOf(table[list[k].id], XIds(products)) else {};
    forall r ensures r in Into(g, list[..k + 1]) <==> r in Into(g, list[..k]) || r in more {
      if r in more { assert r in requs && list[k] in list[..k + 1]; }
      if r in Into(g, list[..k + 1]) {
        var x :| x in list[..k + 1] && x.id == r.1;
        assert x in list[..k] || x == list[k];
      }
    }
  }

  lemma LevelDone(products: seq<XClassifiedProduct>, requs: seq<(Id, Id)>, rev0: map<Id, int>,
                  levels: map<int, seq<XClassifiedProduct>>, level: int)
    requires rev0.Keys == XIds(products) && ByLevel(products, rev0, levels) && level in levels
    ensures
      var g := RequirementGraph(XIds(products), requs);
      FromBelow(g, rev0, level + 1) == FromBelow(g, rev0, level) + Into(g, levels[level])
  {
    var g := RequirementGraph(XIds(products), requs);
    forall r
      ensures r in FromBelow(g, rev0, level + 1) <==> r in FromBelow(g, rev0, level) || r in Into(g, levels[level])
    {
      if r in g && rev0[r.1] == level {
        var x :| x in products && x.id == r.1;
      }
    }
  }

  lemma KeepOthers(requs: seq<(Id, Id)>, ids: set<Id>, table: map<Id, seq<(Id, Id)>>, b: Id, shorter: seq<(Id, Id)>)
    requires Posteriors(requs, ids, table) && b in table
    requires forall r :: r in shorter ==> r in table[b]
    requires forall r :: r in table[b] && r.0 in ids ==> r in shorter
    ensures Posteriors(requs, ids, table[b := shorter])
  {
  }

  /** Handles one level: everything required before its products is lifted to it. */
  method HandleLevel(products: seq<XClassifiedProduct>, byId: map<Id, XClassifiedProduct>,
                     list: seq<XClassifiedProduct>,
                     table0: map<Id, seq<(Id, Id)>>, level: int, changed0: bool,
                     ghost requs: seq<(Id, Id)>, ghost rev0: map<Id, int>, ghost done: set<(Id, Id)>,
                     ghost cur0: map<Id, int>)
    returns (changed: bool, table: map<Id, seq<(Id, Id)>>, ghost cur: map<Id, int>)
    requires DistinctProducts(products) && Table(products, byId) && Within100(rev0) && rev0.Keys == XIds(products)
    requires forall x :: x in list ==> x in products && x.id in rev0 && rev0[x.id] == level
    requires Posteriors(requs, XIds(products), table0)
    requires Partial(products, rev0, done, cur0, changed0)
    modifies (set x | x in products)`revisedPriority
    ensures Partial(products, rev0, done + Into(RequirementGraph(XIds(products), requs), list), cur, changed)
    ensures Posteriors(requs, XIds(products), table)
  {
    changed, table, cur := changed0, table0, cur0;
    ghost var ids := XIds(products);
    ghost var g := RequirementGraph(ids, requs);
    assert done + Into(g, list[..0]) == done;
    for k := 0 to |list|
      invariant Partial(products, rev0, done + Into(g, list[..k]), cur, changed)
      invariant Posteriors(requs, ids, table)
    {
      var posti := list[k];
      assert posti in list;
      IntoOneMore(products, requs, list, k, table);
      hide Partial, Within100, Into, RequirementGraph;
      if posti.id in table {
        var removeRequs;
        changed, removeRequs, cur :=
          LiftPriors(products, byId, table[posti.id], level, changed, posti.id, rev0, done + Into(g, list[..k]), cur);
        assert done + Into(g, list[..k + 1]) == done + Into(g, list[..k]) + AvailableOf(table[posti.id], ids);
        var kept := WithoutThese(table[posti.id], removeRequs, ids);
        KeepOthers(requs, ids, table, posti.id, kept);
        table := table[posti.id := kept];
      } else {
        assert done + Into(g, list[..k + 1]) == done + Into(g, list[..k]);
      }
    }
    assert list[..|list|] == list;
  }

  method WithoutThese(list: seq<(Id, Id)>, removeRequs: seq<(Id, Id)>, ghost ids: set<Id>) returns (kept: seq<(Id, Id)>)
    requires forall r :: r in removeRequs ==> r.0 !in ids
    ensures forall r :: r in kept ==> r in list
    ensures forall r :: r in list && r.0 in ids ==> r in kept
  {
    kept := list;
    for k := 0 to |removeRequs|
      invariant forall r :: r in kept ==> r in list
      invariant forall r :: r in list && r.0 in ids ==> r in kept
    {
      assert removeRequs[k] in removeRequs;
      kept := Removed(kept, removeRequs[k]);
    }
  }

  lemma PassStart(products: seq<XClassifiedProduct>, g: set<(Id, Id)>, rev0: map<Id, int>)
    requires Holds(products, rev0) && Within100(rev0)
    ensures Partial(products, rev0, FromBelow(g, rev0, BOTTOM), rev0, false)
  {
    assert FromBelow(g, rev0, BOTTOM) == {};
    forall p | p in rev0 ensures LeastRaise(rev0, {}, p, rev0[p]) { }
  }

  lemma PassEnd(products: seq<XClassifiedProduct>, g: set<(Id, Id)>, rev0: map<Id, int>)
    requires Within100(rev0) && EdgesWithin(g, rev0.Keys)
    ensures FromBelow(g, rev0, TOP + 1) == g
  {
  }

  lemma HoldsOne(products: seq<XClassifiedProduct>, cur: map<Id, int>)
    requires DistinctProducts(products) && Holds(products, cur)
    ensures Revisions(products) == cur
  {
    var rev := Revisions(products);
    forall id | id in cur ensures rev[id] == cur[id] {
      var x :| x in products && x.id == id;
    }
  }

  /** One pass over all levels, the lists of which are built at its start. It raises every product
      at once: by how much depends on the values before the pass only. */
  method ModifySortingClasses(products: seq<XClassifiedProduct>, requs: seq<(Id, Id)>)
    returns (recursionNecessary: bool)
    requires DistinctProducts(products) && Within100(Revisions(products))
    modifies (set x | x in products)`revisedPriority
    ensures RaisedBy(old(Revisions(products)), RequirementGraph(XIds(products), requs), Revisions(products))
    ensures Within100(Revisions(products))
    ensures recursionNecessary <==> Revisions(products) != old(Revisions(products))
  {
    ghost var rev0 := Revisions(products);
    ghost var g := RequirementGraph(XIds(products), requs);
    var byId := ProductTable(products);
    var levels := LevelLists(products, rev0);
    var table := TableByPosterior(requs, XIds(products));
    ghost var cur := rev0;
    recursionNecessary := false;
    PassStart(products, g, rev0);
    for level := BOTTOM to TOP + 1
      invariant Partial(products, rev0, FromBelow(g, rev0, level), cur, recursionNecessary)
      invariant Posteriors(requs, XIds(products), table)
    {
      hide Partial, Posteriors, FromBelow, Into;
      LevelDone(products, requs, rev0, levels, level);
      recursionNecessary, table, cur :=
        HandleLevel(products, byId, levels[level], table, level, recursionNecessary, requs, rev0,
                    FromBelow(g, rev0, level), cur);
    }
    GraphWithin(XIds(products), requs);
    PassEnd(products, g, rev0);
    HoldsOne(products, cur);
  }
}
