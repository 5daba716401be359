/** What the class-by-class order means for the products: nothing lost, nothing invented, priorities
    respected, requirements honoured. */
module SequenceProperties {
  import opened Collections
  import opened ReadyOrder
  import opened ClassSorting

  ghost predicate InLevels(p: Product, level: int) {
    level <= Priority(p) <= TOP
  }

  ghost predicate Available(products: seq<Product>, id: Id) {
    exists p :: p in products && p.id == id
  }

  lemma {:induction false} PickAt(ids: seq<Id>, ordering: seq<int>, n: nat)
    requires n <= |ordering| && forall k :: 0 <= k < |ordering| ==> 0 <= ordering[k] < |ids|
    ensures |PickUpTo(ids, ordering, n)| == n
    ensures forall k :: 0 <= k < n ==> PickUpTo(ids, ordering, n)[k] == ids[ordering[k]]
  {
    if n == 0 {
    } else {
      PickAt(ids, ordering, n - 1);
    }
  }

  lemma IndicesInRange(ordering: seq<int>, n: nat)
    requires IndexPermutation(ordering, n)
    ensures forall k :: 0 <= k < |ordering| ==> 0 <= ordering[k] < n
  {
    forall k | 0 <= k < |ordering| ensures 0 <= ordering[k] < n { assert ordering[k] in ordering; }
  }

  /** One class: its own ids, each once. */
  lemma OrderedClassMembers(products: seq<Product>, requs: seq<(Id, Id)>, level: int)
    requires DistinctIds(products) && AcyclicClass(products, requs, level)
    ensures Distinct(OrderedClass(products, requs, level))
    ensures forall id :: id in OrderedClass(products, requs, level) <==> id in ClassIds(products, level)
  {
    var ids := ClassIds(products, level);
    var ordering := Completed(ClassGraph(ids, requs), |ids|);
    var s := OrderedClass(products, requs, level);
    CompletedIsPermutation(ClassGraph(ids, requs), |ids|);
    IndicesInRange(ordering, |ids|);
    PickAt(ids, ordering, |ordering|);
    ClassIdsMembers(products, level);
    forall i, j | 0 <= i < j < |s| ensures s[i] != s[j] {
      assert ordering[i] in ordering && ordering[j] in ordering;
    }
    forall id ensures id in s <==> id in ids {
      if id in s {
        var k :| 0 <= k < |s| && s[k] == id;
        assert ordering[k] in ordering;
      }
      if id in ids {
        var i :| 0 <= i < |ids| && ids[i] == id;
        assert i in ordering;
        var k :| 0 <= k < |ordering| && ordering[k] == i;
        assert s[k] == id;
      }
    }
  }

  /** One class: every requirement inside it is honoured. */
  lemma OrderedClassHonours(products: seq<Product>, requs: seq<(Id, Id)>, level: int, a: Id, b: Id)
    requires DistinctIds(products) && AcyclicClass(products, requs, level)
    requires (a, b) in requs && a in ClassIds(products, level) && b in ClassIds(products, level)
    ensures Precedes(OrderedClass(products, requs, level), a, b)
  {
    var ids := ClassIds(products, level);
    var graph := ClassGraph(ids, requs);
    var ordering := Completed(graph, |ids|);
    var s := OrderedClass(products, requs, level);
    var i :| 0 <= i < |ids| && ids[i] == a;
    var j :| 0 <= j < |ids| && ids[j] == b;
    CompletedIsPermutation(graph, |ids|);
    IndicesInRange(ordering, |ids|);
    PickAt(ids, ordering, |ordering|);
    CompletedHonours(graph, |ids|, i, j);
    var x, y :| 0 <= x < y < |ordering| && ordering[x] == i && ordering[y] == j;
    assert s[x] == a && s[y] == b;
  }

  lemma {:induction false} ByLevelsMembers(products: seq<Product>, requs: seq<(Id, Id)>, level: int)
    requires DistinctIds(products) && AcyclicFrom(products, requs, level)
    ensures forall id :: id in ByLevels(products, requs, level) <==>
              exists p :: p in products && p.id == id && InLevels(p, level)
    decreases TOP + 1 - level
  {
    if level > TOP {
    } else {
      ByLevelsMembers(products, requs, level + 1);
      OrderedClassMembers(products, requs, level);
      ClassIdsMembers(products, level);
      var upper, s := ByLevels(products, requs, level + 1), ByLevels(products, requs, level);
      forall id ensures id in s <==> exists p :: p in products && p.id == id && InLevels(p, level) {
        if id in upper {
          var p :| p in products && p.id == id && InLevels(p, level + 1);
          assert InLevels(p, level);
        }
        if id in ClassIds(products, level) {
          var k :| 0 <= k < |products| && products[k].id == id && Priority(products[k]) == level;
          assert products[k] in products && InLevels(products[k], level);
        }
        if p :| p in products && p.id == id && InLevels(p, level) {
          if Priority(p) == level {
            ClassOf(products, level, p);
          } else {
            assert InLevels(p, level + 1);
          }
        }
      }
    }
  }

  lemma SameProduct(products: seq<Product>, p: Product, q: Product)
    requires DistinctIds(products) && p in products && q in products && p.id == q.id
    ensures p == q
  {
    var i :| 0 <= i < |products| && products[i] == p;
    var j :| 0 <= j < |products| && products[j] == q;
    assert Ids(products)[i] == Ids(products)[j];
  }

  /** A product of an earlier place never has a lower priority, and no place repeats a product. */
  lemma {:induction false} ByLevelsDescends(products: seq<Product>, requs: seq<(Id, Id)>, level: int)
    requires DistinctIds(products) && AcyclicFrom(products, requs, level)
    ensures Distinct(ByLevels(products, requs, level))
    ensures forall i, j, p, q :: 0 <= i < j < |ByLevels(products, requs, level)| && p in products && q in products
              && p.id == ByLevels(products, requs, level)[i] && q.id == ByLevels(products, requs, level)[j]
              ==> Priority(p) >= Priority(q)
    decreases TOP + 1 - level
  {
    hide DistinctIds, OrderedClass, Ids;
    if level > TOP {
    } else {
      ByLevelsDescends(products, requs, level + 1);
      ByLevelsMembers(products, requs, level + 1);
      OrderedClassMembers(products, requs, level);
      var upper, own := ByLevels(products, requs, level + 1), OrderedClass(products, requs, level);
      var s := upper + own;
      assert s == ByLevels(products, requs, level);
      forall i, j | 0 <= i < j < |s|
        ensures s[i] != s[j]
        ensures forall p, q :: p in products && q in products && p.id == s[i] && q.id == s[j] ==>
                 Priority(p) >= Priority(q)
      {
        if j >= |upper| {
          assert s[j] in own;
          forall q | q in products && q.id == s[j] ensures Priority(q) == level { ClassOf(products, level, q); }
          if i < |upper| {
            assert s[i] in upper;
            var x :| x in products && x.id == s[i] && InLevels(x, level + 1);
            forall p | p in products && p.id == s[i] ensures Priority(p) > level { SameProduct(products, p, x); }
          } else {
            assert s[i] in own;
            forall p | p in products && p.id == s[i] ensures Priority(p) == level { ClassOf(products, level, p); }
          }
          UpperApart(products, requs, level, s, i, j);
        }
      }
    }
  }

  lemma UpperApart(products: seq<Product>, requs: seq<(Id, Id)>, level: int, s: seq<Id>, i: int, j: int)
    requires DistinctIds(products) && AcyclicFrom(products, requs, level) && level <= TOP
    requires s == ByLevels(products, requs, level + 1) + OrderedClass(products, requs, level)
    requires 0 <= i < j < |s| && j >= |ByLevels(products, requs, level + 1)|
    ensures s[i] != s[j]
  {
    ByLevelsMembers(products, requs, level + 1);
    OrderedClassMembers(products, requs, level);
    var upper, own := ByLevels(products, requs, level + 1), OrderedClass(products, requs, level);
    assert s[j] == own[j - |upper|] && s[j] in own;
    if i < |upper| {
      assert s[i] in upper;
      var x :| x in products && x.id == s[i] && InLevels(x, level + 1);
      ClassOf(products, level, x);
    } else {
      assert s[i] == own[i - |upper|];
    }
  }

  /** Every requirement is honoured unless the declared priorities contradict it. */
  lemma {:induction false} ByLevelsHonours(products: seq<Product>, requs: seq<(Id, Id)>, level: int, p: Product,
                                           q: Product)
    requires DistinctIds(products) && AcyclicFrom(products, requs, level)
    requires p in products && q in products && InLevels(p, level) && InLevels(q, level)
    requires (p.id, q.id) in requs && Priority(p) >= Priority(q)
    ensures Precedes(ByLevels(products, requs, level), p.id, q.id)
    decreases TOP + 1 - level
  {
    hide OrderedClass, AcyclicClass, ClassIds;
    var upper, own := ByLevels(products, requs, level + 1), OrderedClass(products, requs, level);
    ClassOf(products, level, p);
    ClassOf(products, level, q);
    if Priority(q) > level {
      ByLevelsHonours(products, requs, level + 1, p, q);
      var i, j :| 0 <= i < j < |upper| && upper[i] == p.id && upper[j] == q.id;
      assert (upper + own)[i] == p.id && (upper + own)[j] == q.id;
    } else if Priority(p) > level {
      ByLevelsMembers(products, requs, level + 1);
      OrderedClassMembers(products, requs, level);
      assert InLevels(p, level + 1);
      assert p.id in upper && q.id in own;
      var i :| 0 <= i < |upper| && upper[i] == p.id;
      var j :| 0 <= j < |own| && own[j] == q.id;
      assert (upper + own)[i] == p.id && (upper + own)[|upper| + j] == q.id;
    } else {
      OrderedClassHonours(products, requs, level, p.id, q.id);
      var i, j :| 0 <= i < j < |own| && own[i] == p.id && own[j] == q.id;
      assert (upper + own)[|upper| + i] == p.id && (upper + own)[|upper| + j] == q.id;
    }
  }

  ghost predicate PrioritiesInRange(products: seq<Product>) {
    forall p :: p in products ==> -100 <= Priority(p) <= 100
  }

  lemma SequenceElements(products: seq<Product>, requs: seq<(Id, Id)>)
    requires DistinctIds(products) && AcyclicFrom(products, requs, BOTTOM) && PrioritiesInRange(products)
    ensures Elements(ByLevels(products, requs, BOTTOM)) == Elements(Ids(products))
  {
    var s, ids := ByLevels(products, requs, BOTTOM), Ids(products);
    ByLevelsMembers(products, requs, BOTTOM);
    forall id ensures id in s <==> id in ids {
      if id in ids {
        var k :| 0 <= k < |products| && ids[k] == id;
        assert products[k] in products && InLevels(products[k], BOTTOM);
      }
      if id in s {
        var p :| p in products && p.id == id && InLevels(p, BOTTOM);
        var k :| 0 <= k < |products| && products[k] == p;
        assert ids[k] == id;
      }
    }
  }

  lemma DroppedProduct(products: seq<Product>, requs: seq<(Id, Id)>, p: Product)
    requires DistinctIds(products) && AcyclicFrom(products, requs, BOTTOM)
    requires p in products && !InLevels(p, BOTTOM)
    ensures p.id in Ids(products) && p.id !in ByLevels(products, requs, BOTTOM)
  {
    ByLevelsMembers(products, requs, BOTTOM);
    var k :| 0 <= k < |products| && products[k] == p;
    assert Ids(products)[k] == p.id;
    forall q | q in products && q.id == p.id ensures q == p { SameProduct(products, p, q); }
  }

  /** The result is a permutation of the ids exactly when all priorities are in range: a product
      outside is dropped. */
  lemma SequenceIsPermutation(products: seq<Product>, requs: seq<(Id, Id)>)
    requires DistinctIds(products) && AcyclicFrom(products, requs, BOTTOM)
    ensures multiset(ByLevels(products, requs, BOTTOM)) == multiset(Ids(products)) <==> PrioritiesInRange(products)
  {
    var s, ids := ByLevels(products, requs, BOTTOM), Ids(products);
    if PrioritiesInRange(products) {
      SequenceElements(products, requs);
      ByLevelsDescends(products, requs, BOTTOM);
      DistinctMultiset(s);
      DistinctMultiset(ids);
    } else {
      var p :| p in products && !(BOTTOM <= Priority(p) <= TOP);
      DroppedProduct(products, requs, p);
      assert p.id in multiset(ids) && p.id !in multiset(s);
    }
  }

  /** Only which pairs are required matters, not how often or in which order they are listed. */
  lemma {:induction false} RequirementOrderIrrelevant(products: seq<Product>, requs: seq<(Id, Id)>,
                                                      requs': seq<(Id, Id)>, level: int)
    requires forall x :: x in requs <==> x in requs'
    ensures ByLevels(products, requs, level) == ByLevels(products, requs', level)
    decreases TOP + 1 - level
  {
    if level > TOP {
    } else {
      RequirementOrderIrrelevant(products, requs, requs', level + 1);
      var ids := ClassIds(products, level);
      assert ClassGraph(ids, requs) == ClassGraph(ids, requs');
    }
  }
}
