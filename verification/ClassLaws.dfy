/** The laws of the class-by-class order, told of the product list and the requirements alone. Products of
    one priority are called peers. */
module ClassLaws {
  import opened Collections
  import opened Digraphs
  import opened ReadyOrder
  import opened OrderLaws
  import opened ClassSorting
  import opened SequenceProperties

  ghost predicate Peers(products: seq<Product>, i: int, j: int) {
    0 <= i < |products| && 0 <= j < |products| && Priority(products[i]) == Priority(products[j])
  }

  /** i is required before its peer j. */
  ghost predicate Before(products: seq<Product>, requs: seq<(Id, Id)>, i: int, j: int) {
    Peers(products, i, j) && (products[i].id, products[j].id) in requs
  }

  ghost predicate HasAfter(products: seq<Product>, requs: seq<(Id, Id)>, i: int) {
    exists j :: Before(products, requs, i, j)
  }

  ghost predicate HasBefore(products: seq<Product>, requs: seq<(Id, Id)>, j: int) {
    exists i :: Before(products, requs, i, j)
  }

  /** Something required before j is i, or comes after i. */
  ghost predicate StillWaits(products: seq<Product>, requs: seq<(Id, Id)>, s: seq<Id>, i: int, j: int) {
    exists l :: Before(products, requs, l, j) && 0 <= i < |products|
                && (l == i || Precedes(s, products[i].id, products[l].id))
  }

  /** What holds of peers i and j, if i comes first: products without requirements among their peers come
      first, in the order of the list; products that nothing has to wait for, but that have to wait, come
      last, in the order of the list; of the others, a later one of the list is taken before an earlier one
      only as long as this still waits for something. */
  ghost predicate PairLawful(products: seq<Product>, requs: seq<(Id, Id)>, s: seq<Id>, i: int, j: int) {
    && (!HasAfter(products, requs, j) && !HasBefore(products, requs, j) ==>
          !HasAfter(products, requs, i) && !HasBefore(products, requs, i) && i < j)
    && (!HasAfter(products, requs, i) && HasBefore(products, requs, i) ==>
          !HasAfter(products, requs, j) && HasBefore(products, requs, j) && i < j)
    && (HasAfter(products, requs, i) && HasAfter(products, requs, j) && j < i ==>
          StillWaits(products, requs, s, i, j))
  }

  ghost predicate PeersLawful(products: seq<Product>, requs: seq<(Id, Id)>, s: seq<Id>) {
    forall i, j :: Peers(products, i, j) && i != j && Precedes(s, products[i].id, products[j].id) ==>
      PairLawful(products, requs, s, i, j)
  }

  // ----- a class and its place in the list -----

  /** The places of one class among the first k products. */
  ghost function PlacesUpTo(products: seq<Product>, k: nat, level: int): seq<int>
    requires k <= |products|
  {
    if k == 0 then []
    else
      var init := PlacesUpTo(products, k - 1, level);
      if Priority(products[k - 1]) == level then init + [k - 1] else init
  }

  lemma {:induction false} PlacesShape(products: seq<Product>, k: nat, level: int)
    requires k <= |products|
    ensures
      var places, ids := PlacesUpTo(products, k, level), ClassIdsUpTo(products, k, level);
      && |places| == |ids|
      && forall a :: 0 <= a < |places| ==>
           0 <= places[a] < k && Priority(products[places[a]]) == level && ids[a] == products[places[a]].id
  {
    if k == 0 {
    } else {
      PlacesShape(products, k - 1, level);
    }
  }

  lemma {:induction false} PlacesAscend(products: seq<Product>, k: nat, level: int)
    requires k <= |products|
    ensures forall a, b :: 0 <= a < b < |PlacesUpTo(products, k, level)| ==>
              PlacesUpTo(products, k, level)[a] < PlacesUpTo(products, k, level)[b]
  {
    if k == 0 {
    } else {
      PlacesAscend(products, k - 1, level);
      PlacesShape(products, k - 1, level);
    }
  }

  lemma {:induction false} ListedPlace(products: seq<Product>, k: nat, level: int, i: nat) returns (a: nat)
    requires i < k <= |products| && Priority(products[i]) == level
    ensures a < |PlacesUpTo(products, k, level)| && PlacesUpTo(products, k, level)[a] == i
  {
    if i == k - 1 {
      a := |PlacesUpTo(products, k, level)| - 1;
    } else {
      a := ListedPlace(products, k - 1, level, i);
    }
  }

  /** The graph of the class speaks of the same requirements. */
  lemma GraphIsBefore(products: seq<Product>, requs: seq<(Id, Id)>, level: int, a: int, b: int)
    requires 0 <= a < |ClassIds(products, level)| && 0 <= b < |ClassIds(products, level)|
    ensures
      var places := PlacesUpTo(products, |products|, level);
      && |places| == |ClassIds(products, level)|
      && ((a, b) in ClassGraph(ClassIds(products, level), requs) <==> Before(products, requs, places[a], places[b]))
  {
    PlacesShape(products, |products|, level);
    var ids := ClassIds(products, level);
    assert (a, b) in Square(|ids|);
  }

  lemma KindsAgree(products: seq<Product>, requs: seq<(Id, Id)>, level: int, a: int)
    requires 0 <= a < |ClassIds(products, level)|
    ensures
      var places := PlacesUpTo(products, |products|, level);
      var graph := ClassGraph(ClassIds(products, level), requs);
      && |places| == |ClassIds(products, level)|
      && (IsPrior(graph, a) <==> HasAfter(products, requs, places[a]))
      && (IsPosterior(graph, a) <==> HasBefore(products, requs, places[a]))
  {
    PlacesShape(products, |products|, level);
    var ids, places := ClassIds(products, level), PlacesUpTo(products, |products|, level);
    var graph := ClassGraph(ids, requs);
    if IsPrior(graph, a) {
      var b := SuccessorOf(graph, a);
      GraphIsBefore(products, requs, level, a, b);
    }
    if IsPosterior(graph, a) {
      var b := PredecessorOf(graph, a);
      GraphIsBefore(products, requs, level, b, a);
    }
    if j :| Before(products, requs, places[a], j) {
      var b := ListedPlace(products, |products|, level, j);
      GraphIsBefore(products, requs, level, a, b);
    }
    if j :| Before(products, requs, j, places[a]) {
      var b := ListedPlace(products, |products|, level, j);
      GraphIsBefore(products, requs, level, b, a);
    }
  }

  // ----- a class and its place in the result -----

  lemma PartPrecedes<T>(a: seq<T>, b: seq<T>, x: T, y: T)
    ensures Precedes(b, x, y) ==> Precedes(a + b, x, y)
    ensures Precedes(a, x, y) ==> Precedes(a + b, x, y)
    ensures Precedes(a + b, x, y) && x !in a ==> Precedes(b, x, y)
    ensures Precedes(a + b, x, y) && y !in b ==> Precedes(a, x, y)
  {
    var s := a + b;
    if Precedes(b, x, y) {
      var i, j :| 0 <= i < j < |b| && b[i] == x && b[j] == y;
      assert s[|a| + i] == x && s[|a| + j] == y;
    }
    if Precedes(a, x, y) {
      var i, j :| 0 <= i < j < |a| && a[i] == x && a[j] == y;
      assert s[i] == x && s[j] == y;
    }
    if Precedes(s, x, y) && x !in a {
      var i, j :| 0 <= i < j < |s| && s[i] == x && s[j] == y;
      assert i >= |a|;
      assert b[i - |a|] == x && b[j - |a|] == y;
    }
    if Precedes(s, x, y) && y !in b {
      var i, j :| 0 <= i < j < |s| && s[i] == x && s[j] == y;
      assert s[j] !in b;
      assert j < |a|;
      assert a[i] == x && a[j] == y;
    }
  }

  /** Among peers the whole result agrees with the order of their class. */
  lemma {:induction false} ClassInResult(products: seq<Product>, requs: seq<(Id, Id)>, from: int, i: int, j: int)
    requires DistinctIds(products) && AcyclicFrom(products, requs, from) && Peers(products, i, j)
    requires from <= Priority(products[i]) <= TOP
    ensures
      Precedes(ByLevels(products, requs, from), products[i].id, products[j].id) <==>
      Precedes(OrderedClass(products, requs, Priority(products[i])), products[i].id, products[j].id)
    decreases TOP + 1 - from
  {
    var level, x, y := Priority(products[i]), products[i].id, products[j].id;
    var upper, own := ByLevels(products, requs, from + 1), OrderedClass(products, requs, from);
    assert ByLevels(products, requs, from) == upper + own;
    PartPrecedes(upper, own, x, y);
    OrderedClassMembers(products, requs, from);
    OnlyIn(products, requs, from, i);
    OnlyIn(products, requs, from, j);
    if from < level {
      ClassInResult(products, requs, from + 1, i, j);
    }
  }

  /** A product is not in the class of another level, and one of this level in none above. */
  lemma OnlyIn(products: seq<Product>, requs: seq<(Id, Id)>, from: int, i: int)
    requires DistinctIds(products) && AcyclicFrom(products, requs, from) && 0 <= i < |products| && from <= TOP
    ensures Priority(products[i]) != from ==> products[i].id !in OrderedClass(products, requs, from)
    ensures Priority(products[i]) == from ==> products[i].id !in ByLevels(products, requs, from + 1)
  {
    OrderedClassMembers(products, requs, from);
    ClassOf(products, from, products[i]);
    ByLevelsMembers(products, requs, from + 1);
    if products[i].id in ByLevels(products, requs, from + 1) {
      var p :| p in products && p.id == products[i].id && InLevels(p, from + 1);
      SameProduct(products, p, products[i]);
    }
  }

  lemma OutOfRange(products: seq<Product>, requs: seq<(Id, Id)>, i: int)
    requires DistinctIds(products) && AcyclicFrom(products, requs, BOTTOM) && 0 <= i < |products|
    requires products[i].id in ByLevels(products, requs, BOTTOM)
    ensures BOTTOM <= Priority(products[i]) <= TOP
  {
    ByLevelsMembers(products, requs, BOTTOM);
    var p :| p in products && p.id == products[i].id && InLevels(p, BOTTOM);
    SameProduct(products, p, products[i]);
  }

  // ----- the laws -----

  ghost function ClassOrder(products: seq<Product>, requs: seq<(Id, Id)>, level: int): seq<int> {
    Completed(ClassGraph(ClassIds(products, level), requs), |ClassIds(products, level)|)
  }

  /** The place in the product list of what the class has at k. */
  ghost function ListPlace(products: seq<Product>, requs: seq<(Id, Id)>, level: int, k: int): int
    requires 0 <= k < |ClassOrder(products, requs, level)|
  {
    var places, a := PlacesUpTo(products, |products|, level), ClassOrder(products, requs, level)[k];
    if 0 <= a < |places| then places[a] else -1
  }

  lemma ClassShape(products: seq<Product>, requs: seq<(Id, Id)>, level: int)
    requires DistinctIds(products) && AcyclicClass(products, requs, level)
    ensures
      var ids, order := ClassIds(products, level), ClassOrder(products, requs, level);
      && |OrderedClass(products, requs, level)| == |order|
      && |PlacesUpTo(products, |products|, level)| == |ids|
      && Lawful(ClassGraph(ids, requs), |ids|, order)
      && forall k :: 0 <= k < |order| ==>
           && 0 <= order[k] < |ids| && 0 <= ListPlace(products, requs, level, k) < |products|
           && OrderedClass(products, requs, level)[k] == products[ListPlace(products, requs, level, k)].id
  {
    var ids, order := ClassIds(products, level), ClassOrder(products, requs, level);
    CompletedIsLawful(ClassGraph(ids, requs), |ids|);
    IndicesInRange(order, |ids|);
    PickAt(ids, order, |order|);
    PlacesShape(products, |products|, level);
  }

  lemma ListPlacesAscend(products: seq<Product>, requs: seq<(Id, Id)>, level: int, x: nat, y: nat)
    requires DistinctIds(products) && AcyclicClass(products, requs, level)
    requires x < |ClassOrder(products, requs, level)| && y < |ClassOrder(products, requs, level)|
    ensures
      ClassOrder(products, requs, level)[x] < ClassOrder(products, requs, level)[y] <==>
      ListPlace(products, requs, level, x) < ListPlace(products, requs, level, y)
  {
    hide ClassOrder, Completed, ClassIds;
    ClassShape(products, requs, level);
    PlacesAscend(products, |products|, level);
  }

  lemma KindsAt(products: seq<Product>, requs: seq<(Id, Id)>, level: int, k: nat)
    requires DistinctIds(products) && AcyclicClass(products, requs, level) && k < |ClassOrder(products, requs, level)|
    ensures
      var graph, v := ClassGraph(ClassIds(products, level), requs), ClassOrder(products, requs, level)[k];
      && (IsPrior(graph, v) <==> HasAfter(products, requs, ListPlace(products, requs, level, k)))
      && (IsPosterior(graph, v) <==> HasBefore(products, requs, ListPlace(products, requs, level, k)))
  {
    hide ClassOrder, Completed, ClassIds;
    ClassShape(products, requs, level);
    KindsAgree(products, requs, level, ClassOrder(products, requs, level)[k]);
  }

  /** The laws of the order of a class, carried over from its positions to its products. */
  lemma ClassPair(products: seq<Product>, requs: seq<(Id, Id)>, level: int, x: nat, y: nat)
    requires DistinctIds(products) && AcyclicClass(products, requs, level)
    requires x < y < |ClassOrder(products, requs, level)|
    ensures PairLawful(products, requs, OrderedClass(products, requs, level),
                       ListPlace(products, requs, level, x), ListPlace(products, requs, level, y))
  {
    hide ClassOrder, ListPlace, Completed, ClassIds, ClassGraph, OrderedClass, PlacesUpTo, HasAfter, HasBefore, Before;
    hide IsPrior, IsPosterior;
    var graph, order := ClassGraph(ClassIds(products, level), requs), ClassOrder(products, requs, level);
    ClassShape(products, requs, level);
    KindsAt(products, requs, level, x);
    KindsAt(products, requs, level, y);
    ListPlacesAscend(products, requs, level, x, y);
    ListPlacesAscend(products, requs, level, y, x);
    assert PlacesLawful(graph, order, x, y);
    if WaitsAt(graph, order, x, order[y]) {
      WaitingPeer(products, requs, level, x, y);
    }
  }

  lemma WaitingPeer(products: seq<Product>, requs: seq<(Id, Id)>, level: int, x: nat, y: nat)
    requires DistinctIds(products) && AcyclicClass(products, requs, level)
    requires x < y < |ClassOrder(products, requs, level)|
    requires WaitsAt(ClassGraph(ClassIds(products, level), requs), ClassOrder(products, requs, level), x,
                     ClassOrder(products, requs, level)[y])
    ensures StillWaits(products, requs, OrderedClass(products, requs, level),
                       ListPlace(products, requs, level, x), ListPlace(products, requs, level, y))
  {
    hide ClassOrder, Completed, ClassIds, ClassGraph, OrderedClass, PlacesUpTo, Before;
    var graph, order := ClassGraph(ClassIds(products, level), requs), ClassOrder(products, requs, level);
    var own := OrderedClass(products, requs, level);
    ClassShape(products, requs, level);
    var l :| x <= l < |order| && (order[l], order[y]) in graph;
    GraphIsBefore(products, requs, level, order[l], order[y]);
    assert l > x ==> Precedes(own, own[x], own[l]);
    assert Before(products, requs, ListPlace(products, requs, level, l), ListPlace(products, requs, level, y));
  }

  lemma PeerPair(products: seq<Product>, requs: seq<(Id, Id)>, i: int, j: int)
    requires DistinctIds(products) && AcyclicFrom(products, requs, BOTTOM) && Peers(products, i, j) && i != j
    requires Precedes(ByLevels(products, requs, BOTTOM), products[i].id, products[j].id)
    ensures PairLawful(products, requs, ByLevels(products, requs, BOTTOM), i, j)
  {
    hide ClassOrder, ListPlace, OrderedClass, ByLevels, AcyclicFrom, AcyclicClass;
    var s, level := ByLevels(products, requs, BOTTOM), Priority(products[i]);
    OutOfRange(products, requs, i);
    AcyclicFromAll(products, requs, BOTTOM);
    assert AcyclicClass(products, requs, level);
    ClassInResult(products, requs, BOTTOM, i, j);
    var own := OrderedClass(products, requs, level);
    var x, y :| 0 <= x < y < |own| && own[x] == products[i].id && own[y] == products[j].id;
    ClassShape(products, requs, level);
    ClassPair(products, requs, level, x, y);
    OnePlace(products, ListPlace(products, requs, level, x), i);
    OnePlace(products, ListPlace(products, requs, level, y), j);
    if StillWaits(products, requs, own, i, j) {
      var l :| Before(products, requs, l, j) && (l == i || Precedes(own, products[i].id, products[l].id));
      ClassInResult(products, requs, BOTTOM, i, l);
    }
  }

  lemma OnePlace(products: seq<Product>, i: int, j: int)
    requires DistinctIds(products) && 0 <= i < |products| && 0 <= j < |products| && products[i].id == products[j].id
    ensures i == j
  {
    assert Ids(products)[i] == Ids(products)[j];
  }

  /** The class-by-class order obeys the laws. */
  lemma ByLevelsIsLawful(products: seq<Product>, requs: seq<(Id, Id)>)
    requires DistinctIds(products) && AcyclicFrom(products, requs, BOTTOM)
    ensures PeersLawful(products, requs, ByLevels(products, requs, BOTTOM))
  {
    var s := ByLevels(products, requs, BOTTOM);
    forall i, j | Peers(products, i, j) && i != j && Precedes(s, products[i].id, products[j].id)
      ensures PairLawful(products, requs, s, i, j)
    {
      PeerPair(products, requs, i, j);
    }
  }
}
