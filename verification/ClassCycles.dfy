/** Cycles among all requirements and cycles inside one priority class are the same thing once no
    requirement points upwards in priority. */
module ClassCycles {
  import opened Collections
  import opened Digraphs
  import opened ClassSorting
  import opened SequenceProperties

  /** The requirements between the products of a list. */
  ghost function RequirementsAmong(products: seq<Product>, requs: seq<(Id, Id)>): set<(Id, Id)> {
    RequirementGraph(Elements(Ids(products)), requs)
  }

  ghost function PriorityOf(products: seq<Product>, id: Id): int {
    if Available(products, id) then (var p :| p in products && p.id == id; Priority(p)) else 0
  }

  lemma AvailableIsListed(products: seq<Product>, id: Id)
    ensures Available(products, id) <==> id in Ids(products)
  {
    if Available(products, id) {
      var p :| p in products && p.id == id;
      var i :| 0 <= i < |products| && products[i] == p;
      assert Ids(products)[i] == id;
    }
    if id in Ids(products) {
      var i :| 0 <= i < |products| && Ids(products)[i] == id;
      assert products[i] in products;
    }
  }

  lemma PriorityOfProduct(products: seq<Product>, p: Product)
    requires DistinctIds(products) && p in products
    ensures p.id in Ids(products) && PriorityOf(products, p.id) == Priority(p)
  {
    AvailableIsListed(products, p.id);
    forall q | q in products && q.id == p.id ensures q == p { SameProduct(products, p, q); }
  }

  lemma InClass(products: seq<Product>, id: Id, level: int)
    requires DistinctIds(products)
    ensures id in ClassIds(products, level) <==> id in Ids(products) && PriorityOf(products, id) == level
  {
    AvailableIsListed(products, id);
    if id in Ids(products) {
      var p :| p in products && p.id == id;
      PriorityOfProduct(products, p);
      ClassOf(products, level, p);
    } else {
      UnknownId(products, level, id);
    }
  }

  /** No requirement asks for a product to come before one of higher priority. */
  ghost predicate PrioritiesSettled(products: seq<Product>, requs: seq<(Id, Id)>) {
    forall r :: r in RequirementsAmong(products, requs) ==> PriorityOf(products, r.0) >= PriorityOf(products, r.1)
  }

  lemma {:induction false} WalkDescends(products: seq<Product>, requs: seq<(Id, Id)>, w: seq<Id>, i: nat, j: nat)
    requires PrioritiesSettled(products, requs) && Walk(RequirementsAmong(products, requs), w) && i <= j < |w|
    ensures PriorityOf(products, w[i]) >= PriorityOf(products, w[j])
    decreases j
  {
    if i == j {
    } else {
      WalkDescends(products, requs, w, i, j - 1);
      assert Linked(RequirementsAmong(products, requs), w, j);
    }
  }

  lemma WalkListed(products: seq<Product>, requs: seq<(Id, Id)>, w: seq<Id>, i: nat)
    requires Walk(RequirementsAmong(products, requs), w) && i < |w| && w[0] in Ids(products)
    ensures w[i] in Ids(products)
  {
    if i > 0 { assert Linked(RequirementsAmong(products, requs), w, i); }
  }

  ghost function PlaceIn(ids: seq<Id>, id: Id): (k: int)
    ensures id in ids ==> 0 <= k < |ids| && ids[k] == id
  {
    if id in ids then (var k :| 0 <= k < |ids| && ids[k] == id; k) else -1
  }

  ghost function Places(ids: seq<Id>, w: seq<Id>): seq<int> {
    seq(|w|, i requires 0 <= i < |w| => PlaceIn(ids, w[i]))
  }

  ghost function IdsAt(ids: seq<Id>, w: seq<int>): seq<Id>
    requires forall i :: 0 <= i < |w| ==> 0 <= w[i] < |ids|
  {
    seq(|w|, i requires 0 <= i < |w| => ids[w[i]])
  }

  lemma PlacedPair(ids: seq<Id>, requs: seq<(Id, Id)>, a: Id, b: Id)
    requires a in ids && b in ids && (a, b) in requs
    ensures (PlaceIn(ids, a), PlaceIn(ids, b)) in ClassGraph(ids, requs)
  {
  }

  /** A walk inside one class, seen on places in the class. */
  lemma IntoClass(ids: seq<Id>, g: set<(Id, Id)>, requs: seq<(Id, Id)>, w: seq<Id>)
    requires Walk(g, w) && (forall r :: r in g ==> r in requs)
    requires forall i :: 0 <= i < |w| ==> w[i] in ids
    ensures Walk(ClassGraph(ids, requs), Places(ids, w))
  {
    hide ClassGraph, PlaceIn;
    var graph, places := ClassGraph(ids, requs), Places(ids, w);
    forall i | 0 < i < |w| ensures Linked(graph, places, i) {
      assert Linked(g, w, i);
      PlacedPair(ids, requs, w[i - 1], w[i]);
      assert places[i - 1] == PlaceIn(ids, w[i - 1]) && places[i] == PlaceIn(ids, w[i]);
    }
  }

  /** A walk on places in a class, seen on the products. */
  lemma OutOfClass(products: seq<Product>, requs: seq<(Id, Id)>, level: int, w: seq<int>)
    requires DistinctIds(products) && Walk(ClassGraph(ClassIds(products, level), requs), w)
    requires 0 <= w[0] < |ClassIds(products, level)|
    ensures forall i :: 0 <= i < |w| ==> 0 <= w[i] < |ClassIds(products, level)|
    ensures Walk(RequirementsAmong(products, requs), IdsAt(ClassIds(products, level), w))
  {
    var ids := ClassIds(products, level);
    var graph := ClassGraph(ids, requs);
    forall i | 0 <= i < |w| ensures 0 <= w[i] < |ids| {
      if i > 0 { assert Linked(graph, w, i); }
    }
    var g := RequirementsAmong(products, requs);
    forall i | 0 < i < |w| ensures Linked(g, IdsAt(ids, w), i) {
      assert Linked(graph, w, i);
      InClass(products, ids[w[i]], level);
      InClass(products, ids[w[i - 1]], level);
    }
  }

  /** All products on a cycle of a settled graph have one and the same priority. */
  lemma CycleIsFlat(products: seq<Product>, requs: seq<(Id, Id)>, p: seq<Id>)
    requires DistinctIds(products) && PrioritiesSettled(products, requs) && Cycle(RequirementsAmong(products, requs), p)
    ensures forall i :: 0 <= i < |p| ==> p[i] in ClassIds(products, PriorityOf(products, p[0]))
  {
    var g := RequirementsAmong(products, requs);
    assert Linked(g, p, 1);
    forall i | 0 <= i < |p| ensures p[i] in ClassIds(products, PriorityOf(products, p[0])) {
      WalkDescends(products, requs, p, 0, i);
      WalkDescends(products, requs, p, i, |p| - 1);
      WalkListed(products, requs, p, i);
      InClass(products, p[i], PriorityOf(products, p[0]));
    }
  }

  /** Such a cycle is a cycle of its class. */
  lemma CycleIntoClass(products: seq<Product>, requs: seq<(Id, Id)>, p: seq<Id>)
    requires DistinctIds(products) && PrioritiesSettled(products, requs) && Cycle(RequirementsAmong(products, requs), p)
    ensures
      var ids := ClassIds(products, PriorityOf(products, p[0]));
      Cycle(ClassGraph(ids, requs), Places(ids, p))
  {
    CycleIsFlat(products, requs, p);
    var ids := ClassIds(products, PriorityOf(products, p[0]));
    IntoClass(ids, RequirementsAmong(products, requs), requs, p);
  }

  lemma CycleOutOfClass(products: seq<Product>, requs: seq<(Id, Id)>, level: int, p: seq<int>)
    requires DistinctIds(products) && Cycle(ClassGraph(ClassIds(products, level), requs), p)
    ensures forall i :: 0 <= i < |p| ==> 0 <= p[i] < |ClassIds(products, level)|
    ensures Cycle(RequirementsAmong(products, requs), IdsAt(ClassIds(products, level), p))
  {
    assert Linked(ClassGraph(ClassIds(products, level), requs), p, 1);
    OutOfClass(products, requs, level, p);
  }

  /** For settled priorities in range: no class has a cycle exactly when there is none at all. */
  lemma AcyclicByClasses(products: seq<Product>, requs: seq<(Id, Id)>)
    requires DistinctIds(products) && PrioritiesSettled(products, requs) && PrioritiesInRange(products)
    ensures AcyclicFrom(products, requs, BOTTOM) <==> Acyclic(RequirementsAmong(products, requs))
  {
    var g := RequirementsAmong(products, requs);
    AcyclicFromAll(products, requs, BOTTOM);
    if p :| Cycle(g, p) {
      var level := PriorityOf(products, p[0]);
      CycleIntoClass(products, requs, p);
      assert Linked(g, p, 1);
      LevelInRange(products, p[0]);
      assert !AcyclicClass(products, requs, level);
    }
    if !AcyclicFrom(products, requs, BOTTOM) {
      var level :| BOTTOM <= level <= TOP && !AcyclicClass(products, requs, level);
      var p :| Cycle(ClassGraph(ClassIds(products, level), requs), p);
      CycleOutOfClass(products, requs, level, p);
      assert Cycle(g, IdsAt(ClassIds(products, level), p));
    }
  }

  lemma LevelInRange(products: seq<Product>, id: Id)
    requires DistinctIds(products) && PrioritiesInRange(products) && id in Ids(products)
    ensures BOTTOM <= PriorityOf(products, id) <= TOP
  {
    AvailableIsListed(products, id);
    var p :| p in products && p.id == id;
    PriorityOfProduct(products, p);
  }

  /** A product to be named when the class of this level cannot be sorted: on or behind a cycle, and
      required before something else of its class. */
  ghost predicate Named(products: seq<Product>, requs: seq<(Id, Id)>, level: int, name: Id) {
    var g := RequirementsAmong(products, requs);
    && BehindCycle(g, name)
    && name in ClassIds(products, level)
    && exists other :: (name, other) in g && other in ClassIds(products, level)
  }

  lemma NamedFromClass(products: seq<Product>, requs: seq<(Id, Id)>, level: int, i: int)
    requires DistinctIds(products) && 0 <= i < |ClassIds(products, level)|
    requires IsPrior(ClassGraph(ClassIds(products, level), requs), i)
    requires BehindCycle(ClassGraph(ClassIds(products, level), requs), i)
    ensures Named(products, requs, level, ClassIds(products, level)[i])
  {
    var g := RequirementsAmong(products, requs);
    var ids := ClassIds(products, level);
    var graph := ClassGraph(ids, requs);
    var j := SuccessorOf(graph, i);
    InClass(products, ids[i], level);
    InClass(products, ids[j], level);
    assert (ids[i], ids[j]) in g;
    var c :| OnCycle(graph, c) && Reaches(graph, c, i);
    var p :| Cycle(graph, p) && c in p;
    CycleOutOfClass(products, requs, level, p);
    var k :| 0 <= k < |p| && p[k] == c;
    assert IdsAt(ids, p)[k] == ids[c];
    assert OnCycle(g, ids[c]);
    var w :| WalkFromTo(graph, w, c, i);
    OutOfClass(products, requs, level, w);
    assert WalkFromTo(g, IdsAt(ids, w), ids[c], ids[i]);
    assert Reaches(g, ids[c], ids[i]);
  }

  /** No cycle lies above the first class that fails. */
  lemma CycleNotAbove(products: seq<Product>, requs: seq<(Id, Id)>, level: int, p: seq<Id>)
    requires DistinctIds(products) && PrioritiesSettled(products, requs) && PrioritiesInRange(products)
    requires AcyclicFrom(products, requs, level + 1) && Cycle(RequirementsAmong(products, requs), p)
    ensures PriorityOf(products, p[0]) <= level
  {
    AcyclicFromAll(products, requs, level + 1);
    CycleIntoClass(products, requs, p);
    assert Linked(RequirementsAmong(products, requs), p, 1);
    LevelInRange(products, p[0]);
    assert !AcyclicClass(products, requs, PriorityOf(products, p[0]));
  }

  lemma WalkInLevel(products: seq<Product>, requs: seq<(Id, Id)>, level: int, w: seq<Id>)
    requires DistinctIds(products) && PrioritiesSettled(products, requs) && Walk(RequirementsAmong(products, requs), w)
    requires w[0] in Ids(products) && PriorityOf(products, w[0]) <= level
    requires PriorityOf(products, w[|w| - 1]) == level
    ensures forall i :: 0 <= i < |w| ==> w[i] in ClassIds(products, level)
  {
    forall i | 0 <= i < |w| ensures w[i] in ClassIds(products, level) {
      WalkDescends(products, requs, w, 0, i);
      WalkDescends(products, requs, w, i, |w| - 1);
      WalkListed(products, requs, w, i);
      InClass(products, w[i], level);
    }
  }

  lemma NamedIntoClass(products: seq<Product>, requs: seq<(Id, Id)>, level: int, name: Id)
    requires DistinctIds(products) && PrioritiesSettled(products, requs) && PrioritiesInRange(products)
    requires AcyclicFrom(products, requs, level + 1) && Named(products, requs, level, name)
    ensures InConflict(ClassIds(products, level), requs, name)
  {
    var g := RequirementsAmong(products, requs);
    var ids := ClassIds(products, level);
    var graph := ClassGraph(ids, requs);
    InClass(products, name, level);
    var c :| OnCycle(g, c) && Reaches(g, c, name);
    var p :| Cycle(g, p) && c in p;
    var w :| WalkFromTo(g, w, c, name);
    CycleNotAbove(products, requs, level, p);
    CycleIsFlat(products, requs, p);
    var k :| 0 <= k < |p| && p[k] == c;
    InClass(products, c, PriorityOf(products, p[0]));
    WalkInLevel(products, requs, level, w);
    InClass(products, c, level);
    CycleIntoClass(products, requs, p);
    var q := Places(ids, p);
    assert q[k] == PlaceIn(ids, c) && OnCycle(graph, PlaceIn(ids, c));
    IntoClass(ids, g, requs, w);
    assert WalkFromTo(graph, Places(ids, w), PlaceIn(ids, c), PlaceIn(ids, name));
    assert Reaches(graph, PlaceIn(ids, c), PlaceIn(ids, name));
    var other :| (name, other) in g && other in ids;
    assert (PlaceIn(ids, name), PlaceIn(ids, other)) in graph;
  }

  /** Exactly which products an ordering error names, and that every cycle of its class is among them. */
  lemma ConflictExact(products: seq<Product>, requs: seq<(Id, Id)>, level: int, names: seq<Id>)
    requires DistinctIds(products) && PrioritiesSettled(products, requs) && PrioritiesInRange(products)
    requires Conflict(products, requs, level, names)
    ensures forall name :: name in names <==> Named(products, requs, level, name)
    ensures exists p :: Cycle(RequirementsAmong(products, requs), p) && PriorityOf(products, p[0]) == level
    ensures forall p :: Cycle(RequirementsAmong(products, requs), p) ==> PriorityOf(products, p[0]) <= level
    ensures forall p, x ::
              Cycle(RequirementsAmong(products, requs), p) && PriorityOf(products, p[0]) == level && x in p ==>
                x in names
  {
    var g := RequirementsAmong(products, requs);
    var ids := ClassIds(products, level);
    var graph := ClassGraph(ids, requs);
    forall name ensures name in names <==> Named(products, requs, level, name) {
      if InConflict(ids, requs, name) {
        var i :| 0 <= i < |ids| && ids[i] == name && IsPrior(graph, i) && BehindCycle(graph, i);
        NamedFromClass(products, requs, level, i);
      }
      if Named(products, requs, level, name) { NamedIntoClass(products, requs, level, name); }
    }
    var p :| Cycle(graph, p);
    CycleOutOfClass(products, requs, level, p);
    InClass(products, ids[p[0]], level);
    assert Cycle(g, IdsAt(ids, p)) && PriorityOf(products, IdsAt(ids, p)[0]) == level;
    forall p | Cycle(g, p) ensures PriorityOf(products, p[0]) <= level { CycleNotAbove(products, requs, level, p); }
    forall p, x | Cycle(g, p) && PriorityOf(products, p[0]) == level && x in p ensures x in names {
      OnCycleIsNamed(products, requs, level, p, x);
    }
  }

  lemma OnCycleIsNamed(products: seq<Product>, requs: seq<(Id, Id)>, level: int, p: seq<Id>, x: Id)
    requires DistinctIds(products) && PrioritiesSettled(products, requs)
    requires Cycle(RequirementsAmong(products, requs), p) && PriorityOf(products, p[0]) == level && x in p
    ensures Named(products, requs, level, x)
  {
    var g := RequirementsAmong(products, requs);
    CycleIsFlat(products, requs, p);
    var before, after := CycleNeighbours(g, p, x);
    ReachesSelf(g, x);
    assert OnCycle(g, x) && Reaches(g, x, x);
  }
}
