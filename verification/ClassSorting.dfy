/** Sorting the products priority class by priority class (algorithm 2). */
module ClassSorting {
  import opened Collections
  import opened Digraphs
  import opened ReadyOrder
  import opened OrderRequirements
  import opened OrderLaws
  import opened OrderBuilding

  const BOTTOM: int := -100
  const TOP: int := 100

  datatype Product = Product(id: Id, priority: Option<int>)

  /** A missing priority counts as 0. */
  function Priority(p: Product): int {
    match p.priority
    case None => 0
    case Some(priority) => priority
  }

  function Ids(products: seq<Product>): seq<Id> {
    seq(|products|, i requires 0 <= i < |products| => products[i].id)
  }

  /** The requirements between available products. */
  ghost function RequirementGraph(ids: set<Id>, requs: seq<(Id, Id)>): set<(Id, Id)> {
    set r | r in requs && r.0 in ids && r.1 in ids
  }

  /** The ids of one priority class among the first k products, in the order of the product list. */
  ghost function ClassIdsUpTo(products: seq<Product>, k: nat, level: int): seq<Id>
    requires k <= |products|
  {
    if k == 0 then []
    else
      var init, p := ClassIdsUpTo(products, k - 1, level), products[k - 1];
      if Priority(p) == level then init + [p.id] else init
  }

  ghost function ClassIds(products: seq<Product>, level: int): seq<Id> {
    ClassIdsUpTo(products, |products|, level)
  }

  /** The requirements within a class, on positions in the class. */
  ghost function ClassGraph(ids: seq<Id>, requs: seq<(Id, Id)>): set<(int, int)> {
    set x | x in Square(|ids|) && (ids[x.0], ids[x.1]) in requs
  }

  ghost predicate AcyclicClass(products: seq<Product>, requs: seq<(Id, Id)>, level: int) {
    Acyclic(ClassGraph(ClassIds(products, level), requs))
  }

  /** The ids at the first k given positions; positions outside are passed over. */
  ghost function PickUpTo(ids: seq<Id>, ordering: seq<int>, k: nat): seq<Id>
    requires k <= |ordering|
  {
    if k == 0 then []
    else
      var init, i := PickUpTo(ids, ordering, k - 1), ordering[k - 1];
      if 0 <= i < |ids| then init + [ids[i]] else init
  }

  ghost function Pick(ids: seq<Id>, ordering: seq<int>): seq<Id> {
    PickUpTo(ids, ordering, |ordering|)
  }

  ghost function OrderedClass(products: seq<Product>, requs: seq<(Id, Id)>, level: int): seq<Id> {
    var ids := ClassIds(products, level);
    Pick(ids, Completed(ClassGraph(ids, requs), |ids|))
  }

  /** The classes from TOP down to level, each in its own order. */
  ghost function ByLevels(products: seq<Product>, requs: seq<(Id, Id)>, level: int): seq<Id>
    decreases TOP + 1 - level, products
  {
    if level > TOP then []
    else ByLevels(products, requs, level + 1) + OrderedClass(products, requs, level)
  }

  /** Name stands on or behind a cycle of the class, with a requirement of its own to fulfil. */
  ghost predicate InConflict(ids: seq<Id>, requs: seq<(Id, Id)>, name: Id) {
    exists i :: 0 <= i < |ids| && ids[i] == name
      && IsPrior(ClassGraph(ids, requs), i) && BehindCycle(ClassGraph(ids, requs), i)
  }

  ghost function PairSet(pairs: seq<(nat, nat)>): set<(int, int)> {
    set x | x in pairs :: (x.0 as int, x.1 as int)
  }

  method RequirementObjects(pairs: seq<(nat, nat)>) returns (requObjects: Requirements)
    ensures fresh(requObjects) && fresh(set x | x in requObjects.list)
    ensures requObjects.Valid() && PairsOf(requObjects.list) == PairSet(pairs)
    ensures forall x :: x in requObjects.list ==> !x.fulfilled
  {
    requObjects := new Requirements();
    for k := 0 to |pairs|
      invariant fresh(requObjects) && requObjects.Valid()
      invariant fresh(set x | x in requObjects.list)
      invariant forall x :: x in requObjects.list ==> !x.fulfilled
      invariant PairsOf(requObjects.list) == PairSet(pairs[..k])
    {
      var requirement := new OrderRequirement(pairs[k].0, pairs[k].1, false);
      ghost var before := requObjects.list;
      requObjects.Add(requirement);
      assert pairs[..k + 1] == pairs[..k] + [pairs[k]];
      PairsExtend(before, requirement, pairs[..k], pairs[k]);
    }
    assert pairs[..|pairs|] == pairs;
  }

  /** One element per step: n steps always suffice, and they fail exactly on a cycle. */
  method ProceedAll(build: OrderBuild) returns (r: Result<seq<int>, seq<nat>>)
    requires build.Valid() && build.ordering == [] && !build.allFulfilled && build.completing
    modifies build, build.requs.list
    ensures r.Ok? <==> Acyclic(build.initial)
    ensures r.Ok? ==> r.value == build.ordering == Completed(build.initial, build.elementCount)
    ensures r.Ok? ==> Lawful(build.initial, build.elementCount, r.value)
    ensures r.Err? ==> Distinct(r.error)
    ensures r.Err? ==> forall v :: v in r.error <==> IsPrior(build.initial, v) && BehindCycle(build.initial, v)
  {
    ghost var e := build.initial;
    AcyclicIffNoResidue(e);
    for k := 0 to build.elementCount
      invariant build.Valid()
      invariant build.allFulfilled || |build.ordering| == k
    {
      ghost var open := build.requs.Unfulfilled();
      var step := build.Proceed();
      if step.Err? {
        StuckExactly(e, open);
        return Err(step.error);
      }
    }
    if !build.allFulfilled { NotUnfinished(e, build.elementCount, build.ordering, build.requs.Unfulfilled()); }
    CompletedIsLawful(e, build.elementCount);
    return Ok(build.ordering);
  }

  lemma NotUnfinished(e: set<(int, int)>, n: nat, ordering: seq<int>, open: set<(int, int)>)
    requires InRange(e, n) && |ordering| == n && ordering + Emitted(open) == Emitted(e)
    ensures Acyclic(e) && ordering == Completed(e, n)
  {
    if e == {} {
      EmptyGraph();
      EmptyOrder();
      AcyclicIffNoResidue(e);
    } else {
      EmittedShort(e, n);
    }
  }

  /** Sorts one class of n elements. */
  method SortClass(n: nat, pairs: seq<(nat, nat)>) returns (r: Result<seq<int>, seq<nat>>)
    requires InRange(PairSet(pairs), n)
    ensures r.Ok? <==> Acyclic(PairSet(pairs))
    ensures r.Ok? ==> r.value == Completed(PairSet(pairs), n) && Lawful(PairSet(pairs), n, r.value)
    ensures r.Err? ==> Distinct(r.error)
    ensures r.Err? ==> forall v :: v in r.error <==> IsPrior(PairSet(pairs), v) && BehindCycle(PairSet(pairs), v)
  {
    var requObjects := RequirementObjects(pairs);
    var build := new OrderBuild(n, requObjects, true);
    r := ProceedAll(build);
  }

  lemma PairsExtend(list: seq<OrderRequirement>, r: OrderRequirement, pairs: seq<(nat, nat)>, p: (nat, nat))
    requires PairsOf(list) == PairSet(pairs) && r.prior == p.0 && r.posterior == p.1
    ensures PairsOf(list + [r]) == PairSet(pairs + [p])
  {
    assert PairsOf(list + [r]) == PairsOf(list) + {(r.prior as int, r.posterior as int)};
    assert PairSet(pairs + [p]) == PairSet(pairs) + {(p.0 as int, p.1 as int)};
  }

  lemma EmptyOrder()
    ensures Completed({}, 0) == []
  {
    EmptyGraph();
  }

  /** Where no prior is ready, the pairs left are those on and behind cycles. */
  lemma StuckExactly(e: set<(int, int)>, open: set<(int, int)>)
    requires Residue(open) == Residue(e) && open != {} && forall v :: !Next(open, v)
    ensures open == Residue(e) && !Acyclic(e)
    ensures forall v :: IsPrior(open, v) <==> IsPrior(e, v) && BehindCycle(e, v)
  {
    assert open == Residue(e);
    AcyclicIffNoResidue(e);
    forall v ensures IsPrior(open, v) <==> IsPrior(e, v) && BehindCycle(e, v) {
      if IsPrior(open, v) { ResidueExact(e, (v, SuccessorOf(open, v))); }
      if IsPrior(e, v) && BehindCycle(e, v) { ResidueExact(e, (v, SuccessorOf(e, v))); }
    }
  }

  // ----- the classes of a product list -----

  function Get<T>(m: map<int, seq<T>>, level: int): seq<T> {
    if level in m then m[level] else []
  }

  ghost predicate DistinctIds(products: seq<Product>) {
    Distinct(Ids(products))
  }

  ghost predicate Listed(products: seq<Product>, k: nat, id: Id, level: int) {
    exists i :: 0 <= i < k <= |products| && products[i].id == id && Priority(products[i]) == level
  }

  lemma {:induction false} ClassIdsUpToMembers(products: seq<Product>, k: nat, level: int)
    requires DistinctIds(products) && k <= |products|
    ensures forall id :: id in ClassIdsUpTo(products, k, level) <==> Listed(products, k, id, level)
    ensures Distinct(ClassIdsUpTo(products, k, level))
  {
    if k == 0 {
    } else {
      ClassIdsUpToMembers(products, k - 1, level);
      var init, ids, p := ClassIdsUpTo(products, k - 1, level), ClassIdsUpTo(products, k, level), products[k - 1];
      forall id ensures id in ids <==> Listed(products, k, id, level) {
        if Listed(products, k - 1, id, level) {
          var i :| 0 <= i < k - 1 && products[i].id == id && Priority(products[i]) == level;
        }
      }
      forall i | 0 <= i < k - 1 ensures products[i].id != p.id {
        assert Ids(products)[i] != Ids(products)[k - 1];
      }
      assert p.id !in init;
    }
  }

  /** A class holds exactly the ids of its level, none twice. */
  lemma ClassIdsMembers(products: seq<Product>, level: int)
    requires DistinctIds(products)
    ensures forall id :: id in ClassIds(products, level) <==> Listed(products, |products|, id, level)
    ensures Distinct(ClassIds(products, level))
  {
    ClassIdsUpToMembers(products, |products|, level);
  }

  ghost predicate StandsAt(ids: seq<Id>, k: nat, id: Id) {
    k < |ids| && ids[k] == id
  }

  /** Where the class lists and the position tables stand after k products. */
  ghost predicate Classified(products: seq<Product>, k: nat, classes: map<int, seq<Id>>,
                             indexInClass: map<Id, nat>, byId: map<Id, Product>)
    requires k <= |products|
  {
    && (forall level :: Get(classes, level) == ClassIdsUpTo(products, k, level))
    && (forall level :: level in classes ==> classes[level] != [])
    && (forall i :: 0 <= i < k ==> products[i].id in byId)
    && (forall id :: id in byId ==> InTables(products, k, indexInClass, byId, id))
  }

  ghost predicate InTables(products: seq<Product>, k: nat, indexInClass: map<Id, nat>, byId: map<Id, Product>, id: Id)
    requires k <= |products| && id in byId
  {
    && byId[id].id == id
    && (exists i :: 0 <= i < k && products[i] == byId[id])
    && id in indexInClass
    && StandsAt(ClassIdsUpTo(products, k, Priority(byId[id])), indexInClass[id], id)
  }

  method Classify(products: seq<Product>)
    returns (classes: map<int, seq<Id>>, indexInClass: map<Id, nat>, byId: map<Id, Product>)
    requires DistinctIds(products)
    ensures Classified(products, |products|, classes, indexInClass, byId)
  {
    classes, indexInClass, byId := map[], map[], map[];
    NothingClassified(products);
    hide Classified;
    for k := 0 to |products|
      invariant Classified(products, k, classes, indexInClass, byId)
    {
      var product := products[k];
      var prio := if product.priority.Some? && product.priority.value != 0 then product.priority.value else 0;
      var prioclass := Get(classes, prio) + [product.id];
      ClassifyStep(products, k, prio, classes, indexInClass, byId);
      byId := byId[product.id := product];
      classes := classes[prio := prioclass];
      indexInClass := indexInClass[product.id := |prioclass| - 1];
    }
  }

  lemma NothingClassified(products: seq<Product>)
    ensures Classified(products, 0, map[], map[], map[])
  {
  }

  lemma ClassifyStep(products: seq<Product>, k: nat, prio: int, classes: map<int, seq<Id>>,
                     indexInClass: map<Id, nat>, byId: map<Id, Product>)
    requires k < |products| && prio == Priority(products[k]) && Classified(products, k, classes, indexInClass, byId)
    ensures
      var p := products[k];
      var longer := Get(classes, prio) + [p.id];
      Classified(products, k + 1, classes[prio := longer], indexInClass[p.id := |longer| - 1], byId[p.id := p])
  {
    var p := products[k];
    var longer := Get(classes, prio) + [p.id];
    var classes', index', byId' := classes[prio := longer], indexInClass[p.id := |longer| - 1], byId[p.id := p];
    forall level ensures Get(classes', level) == ClassIdsUpTo(products, k + 1, level) {
      assert Get(classes, level) == ClassIdsUpTo(products, k, level);
    }
    forall id | id in byId' ensures InTables(products, k + 1, index', byId', id) {
      if id == p.id {
        assert products[k] == byId'[id];
      } else {
        assert InTables(products, k, indexInClass, byId, id);
        var i :| 0 <= i < k && products[i] == byId[id];
        assert products[i] == byId'[id];
      }
    }
  }

  // ----- the requirements of each class -----

  lemma SameGraph(ids: seq<Id>, requs: seq<(Id, Id)>, a: Id, b: Id)
    requires a !in ids || b !in ids
    ensures ClassGraph(ids, requs + [(a, b)]) == ClassGraph(ids, requs)
  {
  }

  lemma OneMorePair(ids: seq<Id>, requs: seq<(Id, Id)>, i: nat, j: nat)
    requires Distinct(ids) && i < |ids| && j < |ids|
    ensures ClassGraph(ids, requs + [(ids[i], ids[j])]) == ClassGraph(ids, requs) + {(i as int, j as int)}
  {
    var before, now := ClassGraph(ids, requs), ClassGraph(ids, requs + [(ids[i], ids[j])]);
    forall x: (int, int) ensures x in now <==> x in before || x == (i as int, j as int) {
      if x in now && x !in before { assert (ids[x.0], ids[x.1]) == (ids[i], ids[j]); }
    }
  }

  ghost predicate Grouped(products: seq<Product>, requs: seq<(Id, Id)>, byClass: map<int, seq<(nat, nat)>>) {
    forall level :: PairSet(Get(byClass, level)) == ClassGraph(ClassIds(products, level), requs)
  }

  lemma IgnoreRequirement(products: seq<Product>, requs: seq<(Id, Id)>, byClass: map<int, seq<(nat, nat)>>,
                          a: Id, b: Id)
    requires Grouped(products, requs, byClass)
    requires forall level :: a !in ClassIds(products, level) || b !in ClassIds(products, level)
    ensures Grouped(products, requs + [(a, b)], byClass)
  {
    forall level ensures PairSet(Get(byClass, level)) == ClassGraph(ClassIds(products, level), requs + [(a, b)]) {
      SameGraph(ClassIds(products, level), requs, a, b);
    }
  }

  lemma AddRequirement(products: seq<Product>, requs: seq<(Id, Id)>, byClass: map<int, seq<(nat, nat)>>,
                       prio: int, i: nat, j: nat)
    requires DistinctIds(products) && Grouped(products, requs, byClass)
    requires i < |ClassIds(products, prio)| && j < |ClassIds(products, prio)|
    ensures
      var ids := ClassIds(products, prio);
      Grouped(products, requs + [(ids[i], ids[j])], byClass[prio := Get(byClass, prio) + [(i, j)]])
  {
    var ids := ClassIds(products, prio);
    var byClass' := byClass[prio := Get(byClass, prio) + [(i, j)]];
    ClassIdsMembers(products, prio);
    forall level
      ensures PairSet(Get(byClass', level)) == ClassGraph(ClassIds(products, level), requs + [(ids[i], ids[j])])
    {
      if level == prio {
        OneMorePair(ids, requs, i, j);
        var before := Get(byClass, prio);
        assert PairSet(before + [(i, j)]) == PairSet(before) + {(i as int, j as int)};
      } else {
        if ids[i] in ClassIds(products, level) { ClassesApart(products, prio, level, ids[i]); }
        SameGraph(ClassIds(products, level), requs, ids[i], ids[j]);
      }
    }
  }

  /** No id stands in two classes. */
  lemma ClassesApart(products: seq<Product>, x: int, y: int, id: Id)
    requires DistinctIds(products) && id in ClassIds(products, x) && id in ClassIds(products, y)
    ensures x == y
  {
    ClassIdsMembers(products, x);
    ClassIdsMembers(products, y);
    var i :| 0 <= i < |products| && products[i].id == id && Priority(products[i]) == x;
    var j :| 0 <= j < |products| && products[j].id == id && Priority(products[j]) == y;
    assert Ids(products)[i] == Ids(products)[j];
  }

  lemma ClassOf(products: seq<Product>, level: int, p: Product)
    requires DistinctIds(products) && p in products
    ensures p.id in ClassIds(products, level) <==> level == Priority(p)
  {
    ClassIdsMembers(products, level);
    ClassIdsMembers(products, Priority(p));
    var k :| 0 <= k < |products| && products[k] == p;
    assert Listed(products, |products|, p.id, Priority(p));
    if p.id in ClassIds(products, level) { ClassesApart(products, level, Priority(p), p.id); }
  }

  lemma UnknownId(products: seq<Product>, level: int, id: Id)
    requires DistinctIds(products) && id !in Ids(products)
    ensures id !in ClassIds(products, level)
  {
    ClassIdsMembers(products, level);
    forall k | 0 <= k < |products| ensures products[k].id != id { assert Ids(products)[k] in Ids(products); }
    assert !Listed(products, |products|, id, level);
  }

  lemma KnownIds(products: seq<Product>, classes: map<int, seq<Id>>, indexInClass: map<Id, nat>,
                 byId: map<Id, Product>, id: Id)
    requires Classified(products, |products|, classes, indexInClass, byId)
    ensures id in byId <==> id in Ids(products)
    ensures id in byId ==> byId[id] in products && byId[id].id == id && id in indexInClass
    ensures id in byId ==> StandsAt(ClassIds(products, Priority(byId[id])), indexInClass[id], id)
  {
    if id in byId {
      assert InTables(products, |products|, indexInClass, byId, id);
      var i :| 0 <= i < |products| && products[i] == byId[id];
      assert Ids(products)[i] == id;
    }
    if id in Ids(products) {
      var i :| 0 <= i < |products| && Ids(products)[i] == id;
      assert products[i].id in byId;
    }
  }

  /** Sorts the requirements by class; those between different classes, or on ids that are not
      available, go nowhere. */
  method GroupRequirements(products: seq<Product>, requs: seq<(Id, Id)>, classes: map<int, seq<Id>>,
                           indexInClass: map<Id, nat>, byId: map<Id, Product>)
    returns (byClass: map<int, seq<(nat, nat)>>)
    requires DistinctIds(products) && Classified(products, |products|, classes, indexInClass, byId)
    ensures Grouped(products, requs, byClass)
  {
    byClass := map[];
    for k := 0 to |requs|
      invariant Grouped(products, requs[..k], byClass)
    {
      var (prod1, prod2) := requs[k];
      assert requs[..k + 1] == requs[..k] + [(prod1, prod2)];
      if prod1 !in byId || prod2 !in byId {
        KnownIds(products, classes, indexInClass, byId, if prod1 !in byId then prod1 else prod2);
        forall level ensures prod1 !in ClassIds(products, level) || prod2 !in ClassIds(products, level) {
          UnknownId(products, level, if prod1 !in byId then prod1 else prod2);
        }
        IgnoreRequirement(products, requs[..k], byClass, prod1, prod2);
        continue;
      }
      KnownIds(products, classes, indexInClass, byId, prod1);
      KnownIds(products, classes, indexInClass, byId, prod2);
      var prio1 := Priority(byId[prod1]);
      var prio2 := Priority(byId[prod2]);
      if prio1 != prio2 {
        // Guaranteed by the order of the classes, or contradicting it and ignored.
        forall level ensures prod1 !in ClassIds(products, level) || prod2 !in ClassIds(products, level) {
          ClassOf(products, level, byId[prod1]);
          ClassOf(products, level, byId[prod2]);
        }
        IgnoreRequirement(products, requs[..k], byClass, prod1, prod2);
      } else {
        assert StandsAt(ClassIds(products, prio1), indexInClass[prod1], prod1);
        assert StandsAt(ClassIds(products, prio1), indexInClass[prod2], prod2);
        AddRequirement(products, requs[..k], byClass, prio1, indexInClass[prod1], indexInClass[prod2]);
        byClass := byClass[prio1 := Get(byClass, prio1) + [(indexInClass[prod1], indexInClass[prod2])]];
      }
    }
    assert requs[..|requs|] == requs;
  }

  // ----- all classes, from the highest priority down -----

  ghost function ClassChain(products: seq<Product>, requs: seq<(Id, Id)>, levels: seq<int>, k: nat): seq<Id>
    requires k <= |levels|
  {
    if k == 0 then [] else ClassChain(products, requs, levels, k - 1) + OrderedClass(products, requs, levels[k - 1])
  }

  lemma {:induction false} ClassChainAppend(products: seq<Product>, requs: seq<(Id, Id)>, levels: seq<int>, level: int,
                                       k: nat)
    requires k <= |levels|
    ensures ClassChain(products, requs, levels + [level], k) == ClassChain(products, requs, levels, k)
  {
    hide OrderedClass;
    if k == 0 {
    } else {
      ClassChainAppend(products, requs, levels, level, k - 1);
    }
  }

  lemma EmptyClass(products: seq<Product>, requs: seq<(Id, Id)>, level: int)
    requires ClassIds(products, level) == []
    ensures OrderedClass(products, requs, level) == [] && AcyclicClass(products, requs, level)
  {
    assert ClassGraph([], requs) == {};
    EmptyOrder();
    EmptyIsAcyclic(ClassGraph([], requs));
  }

  lemma EmptyIsAcyclic(e: set<(int, int)>)
    requires e == {}
    ensures Acyclic(e)
  {
    EmptyGraph();
    AcyclicIffNoResidue(e);
  }

  lemma {:induction false} PickAppend(ids: seq<Id>, ordering: seq<int>, i: int, k: nat)
    requires k <= |ordering|
    ensures PickUpTo(ids, ordering + [i], k) == PickUpTo(ids, ordering, k)
  {
    if k == 0 {
    } else {
      PickAppend(ids, ordering, i, k - 1);
    }
  }

  lemma {:induction false} PickAll(ids: seq<Id>, n: nat)
    requires n <= |ids|
    ensures Pick(ids, Ascending(n, Untouched({}, |ids|))) == ids[..n]
  {
    if n == 0 {
    } else {
      PickAll(ids, n - 1);
      var before := Ascending(n - 1, Untouched({}, |ids|));
      assert Ascending(n, Untouched({}, |ids|)) == before + [n - 1];
      PickAppend(ids, before, n - 1, |before|);
      assert ids[..n] == ids[..n - 1] + [ids[n - 1]];
    }
  }

  /** A class without requirements keeps its order. */
  lemma UnorderedClass(ids: seq<Id>)
    ensures Pick(ids, Completed({}, |ids|)) == ids
  {
    EmptyGraph();
    assert PurePosteriors({}, |ids|) == {};
    AscendingNone(|ids|);
    assert Completed({}, |ids|) == Ascending(|ids|, Untouched({}, |ids|));
    PickAll(ids, |ids|);
    assert ids[..|ids|] == ids;
  }

  ghost predicate Conflict(products: seq<Product>, requs: seq<(Id, Id)>, level: int, names: seq<Id>) {
    && BOTTOM <= level <= TOP
    && AcyclicFrom(products, requs, level + 1)
    && ClassFails(products, requs, level, names)
  }

  ghost predicate ClassFails(products: seq<Product>, requs: seq<(Id, Id)>, level: int, names: seq<Id>) {
    && !AcyclicClass(products, requs, level)
    && forall name :: name in names <==> InConflict(ClassIds(products, level), requs, name)
  }

  lemma ConflictAt(products: seq<Product>, requs: seq<(Id, Id)>, level: int, names: seq<Id>)
    requires BOTTOM <= level <= TOP && AcyclicFrom(products, requs, level + 1)
    requires ClassFails(products, requs, level, names)
    ensures exists level :: Conflict(products, requs, level, names)
  {
    assert Conflict(products, requs, level, names);
  }

  ghost predicate AcyclicFrom(products: seq<Product>, requs: seq<(Id, Id)>, level: int)
    decreases TOP + 1 - level, products
  {
    level > TOP || (AcyclicClass(products, requs, level) && AcyclicFrom(products, requs, level + 1))
  }

  lemma {:induction false} AcyclicFromAll(products: seq<Product>, requs: seq<(Id, Id)>, level: int)
    ensures AcyclicFrom(products, requs, level) <==> forall x :: level <= x <= TOP ==> AcyclicClass(products, requs, x)
    decreases TOP + 1 - level, products
  {
    if level > TOP {
    } else {
      AcyclicFromAll(products, requs, level + 1);
    }
  }

  /** The order of a class, where it has requirements. */
  ghost predicate OrderOf(products: seq<Product>, requs: seq<(Id, Id)>, level: int, ordering: Option<seq<int>>) {
    var ids := ClassIds(products, level);
    var graph := ClassGraph(ids, requs);
    && AcyclicClass(products, requs, level)
    && if ordering.Some? then ordering.value == Completed(graph, |ids|) else graph == {}
  }

  /** What has been found out about the classes from one level up. */
  ghost predicate Ordered(products: seq<Product>, requs: seq<(Id, Id)>, from: int,
                          found: seq<int>, orderings: map<int, seq<int>>)
  {
    && (forall level :: level in found ==> level >= from && ClassIds(products, level) != [])
    && (forall level :: level in orderings ==> level >= from)
    && (forall level :: level in found ==> OrderOf(products, requs, level, Lookup(orderings, level)))
    && ByLevels(products, requs, from) == ClassChain(products, requs, found, |found|)
  }

  lemma OrderedStep(products: seq<Product>, requs: seq<(Id, Id)>, level: int, found: seq<int>,
                    orderings: map<int, seq<int>>, ordering: Option<seq<int>>)
    requires Ordered(products, requs, level + 1, found, orderings) && level <= TOP
    requires OrderOf(products, requs, level, ordering) && ClassIds(products, level) != []
    ensures Ordered(products, requs, level, found + [level],
                    if ordering.Some? then orderings[level := ordering.value] else orderings)
  {
    hide OrderOf, OrderedClass, AcyclicClass, ClassIds;
    var orderings' := if ordering.Some? then orderings[level := ordering.value] else orderings;
    ClassChainAppend(products, requs, found, level, |found|);
    assert Lookup(orderings', level) == ordering;
    forall x | x in found ensures Lookup(orderings', x) == Lookup(orderings, x) {
      assert x >= level + 1;
    }
  }

  lemma OrderedSkip(products: seq<Product>, requs: seq<(Id, Id)>, level: int, found: seq<int>,
                    orderings: map<int, seq<int>>)
    requires Ordered(products, requs, level + 1, found, orderings) && level <= TOP
    requires ClassIds(products, level) == []
    ensures Ordered(products, requs, level, found, orderings) && AcyclicClass(products, requs, level)
  {
    EmptyClass(products, requs, level);
  }

  function Lookup<T>(m: map<int, T>, level: int): Option<T> {
    if level in m then Some(m[level]) else None
  }

  method OrderClass(ghost products: seq<Product>, requs: seq<(Id, Id)>, level: int, prioclass: seq<Id>,
                    byClass: map<int, seq<(nat, nat)>>)
    returns (r: Result<Option<seq<int>>, seq<Id>>)
    requires Grouped(products, requs, byClass) && prioclass == ClassIds(products, level)
    ensures r.Ok? ==> OrderOf(products, requs, level, r.value)
    ensures r.Err? ==> ClassFails(products, requs, level, r.error)
  {
    ghost var graph := ClassGraph(prioclass, requs);
    assert graph == PairSet(Get(byClass, level));
    if level in byClass {
      var sorted := SortClass(|prioclass|, byClass[level]);
      if sorted.Err? {
        var names := Names(prioclass, requs, sorted.error);
        return Err(names);
      }
      return Ok(Some(sorted.value));
    }
    EmptyIsAcyclic(graph);
    return Ok(None);
  }

  method OrderClasses(products: seq<Product>, requs: seq<(Id, Id)>, classes: map<int, seq<Id>>,
                      byClass: map<int, seq<(nat, nat)>>)
    returns (r: Result<(seq<int>, map<int, seq<int>>), seq<Id>>)
    requires Grouped(products, requs, byClass)
    requires forall level :: Get(classes, level) == ClassIds(products, level)
    requires forall level :: level in classes ==> classes[level] != []
    ensures r.Ok? ==> AcyclicFrom(products, requs, BOTTOM)
    ensures r.Ok? ==> Ordered(products, requs, BOTTOM, r.value.0, r.value.1)
    ensures r.Err? ==> exists level :: Conflict(products, requs, level, r.error)
  {
    var foundClasses: seq<int> := [];
    var orderings: map<int, seq<int>> := map[];
    assert Ordered(products, requs, TOP + 1, foundClasses, orderings);
    hide OrderOf, OrderedClass, AcyclicClass, ClassIds, ByLevels, Grouped, ClassFails, Ordered;
    for priority := TOP + 1 downto BOTTOM
      invariant AcyclicFrom(products, requs, priority)
      invariant Ordered(products, requs, priority, foundClasses, orderings)
    {
      assert Get(classes, priority) == ClassIds(products, priority);
      if priority !in classes {
        OrderedSkip(products, requs, priority, foundClasses, orderings);
        continue;
      }
      var ordered := OrderClass(products, requs, priority, classes[priority], byClass);
      if ordered.Err? {
        ConflictAt(products, requs, priority, ordered.error);
        return Err(ordered.error);
      }
      OrderedStep(products, requs, priority, foundClasses, orderings, ordered.value);
      foundClasses := foundClasses + [priority];
      if ordered.value.Some? {
        orderings := orderings[priority := ordered.value.value];
      }
    }
    return Ok((foundClasses, orderings));
  }

  method Names(prioclass: seq<Id>, requs: seq<(Id, Id)>, indices: seq<nat>) returns (names: seq<Id>)
    requires forall v :: v in indices <==>
               IsPrior(ClassGraph(prioclass, requs), v) && BehindCycle(ClassGraph(prioclass, requs), v)
    ensures forall name :: name in names <==> InConflict(prioclass, requs, name)
  {
    forall k | 0 <= k < |indices| ensures indices[k] < |prioclass| {
      assert indices[k] in indices;
      var q := SuccessorOf(ClassGraph(prioclass, requs), indices[k]);
    }
    names := seq(|indices|, k requires 0 <= k < |indices| && indices[k] < |prioclass| => prioclass[indices[k]]);
    forall name ensures name in names <==> InConflict(prioclass, requs, name) {
      if name in names {
        var k :| 0 <= k < |names| && names[k] == name;
        assert indices[k] in indices && prioclass[indices[k]] == name;
      }
      if InConflict(prioclass, requs, name) {
        var i :| 0 <= i < |prioclass| && prioclass[i] == name
          && IsPrior(ClassGraph(prioclass, requs), i) && BehindCycle(ClassGraph(prioclass, requs), i);
        var k :| 0 <= k < |indices| && indices[k] == i;
        assert names[k] == name;
      }
    }
  }

  lemma FoundClass(products: seq<Product>, requs: seq<(Id, Id)>, classes: map<int, seq<Id>>, from: int,
                   found: seq<int>, orderings: map<int, seq<int>>, k: nat)
    requires forall level :: Get(classes, level) == ClassIds(products, level)
    requires Ordered(products, requs, from, found, orderings) && k < |found|
    ensures found[k] in classes && classes[found[k]] == ClassIds(products, found[k])
    ensures OrderOf(products, requs, found[k], Lookup(orderings, found[k]))
  {
    assert found[k] in found && Get(classes, found[k]) == ClassIds(products, found[k]);
  }

  method Concatenated(ghost products: seq<Product>, ghost requs: seq<(Id, Id)>, classes: map<int, seq<Id>>,
                      foundClasses: seq<int>, orderings: map<int, seq<int>>)
    returns (sortedList: seq<Id>)
    requires forall level :: Get(classes, level) == ClassIds(products, level)
    requires Ordered(products, requs, BOTTOM, foundClasses, orderings)
    ensures sortedList == ByLevels(products, requs, BOTTOM)
  {
    sortedList := [];
    assert ByLevels(products, requs, BOTTOM) == ClassChain(products, requs, foundClasses, |foundClasses|);
    hide Ordered, OrderOf, OrderedClass, ClassIds, ByLevels;
    for k := 0 to |foundClasses|
      invariant sortedList == ClassChain(products, requs, foundClasses, k)
    {
      var key := foundClasses[k];
      FoundClass(products, requs, classes, BOTTOM, foundClasses, orderings, k);
      var members := ClassInOrder(products, requs, key, classes[key], Lookup(orderings, key));
      sortedList := sortedList + members;
    }
  }

  /** Sorts the products by class; the error of a class on a cycle names the products in conflict. */
  method SequenceByClasses(products: seq<Product>, requs: seq<(Id, Id)>) returns (r: Result<seq<Id>, seq<Id>>)
    requires DistinctIds(products)
    ensures r.Ok? <==> AcyclicFrom(products, requs, BOTTOM)
    ensures r.Ok? ==> r.value == ByLevels(products, requs, BOTTOM)
    ensures r.Err? ==> exists level :: Conflict(products, requs, level, r.error)
  {
    hide Grouped, ByLevels, AcyclicFrom, Conflict;
    var classes, indexInClass, byId := Classify(products);
    var byClass := GroupRequirements(products, requs, classes, indexInClass, byId);
    assert forall level :: Get(classes, level) == ClassIdsUpTo(products, |products|, level);
    var ordered := OrderClasses(products, requs, classes, byClass);
    if ordered.Err? {
      ConflictNotAcyclic(products, requs, ordered.error);
      return Err(ordered.error);
    }
    var (foundClasses, orderings) := ordered.value;
    var sortedList := Concatenated(products, requs, classes, foundClasses, orderings);
    return Ok(sortedList);
  }

  lemma ConflictNotAcyclic(products: seq<Product>, requs: seq<(Id, Id)>, names: seq<Id>)
    requires exists level :: Conflict(products, requs, level, names)
    ensures !AcyclicFrom(products, requs, BOTTOM)
  {
    AcyclicFromAll(products, requs, BOTTOM);
  }

  method ClassInOrder(ghost products: seq<Product>, ghost requs: seq<(Id, Id)>, ghost level: int,
                      prioclass: seq<Id>, ordering: Option<seq<int>>)
    returns (ids: seq<Id>)
    requires prioclass == ClassIds(products, level) && OrderOf(products, requs, level, ordering)
    ensures ids == OrderedClass(products, requs, level)
  {
    if ordering.Some? {
      CompletedIsPermutation(ClassGraph(prioclass, requs), |prioclass|);
      ids := Picked(prioclass, ordering.value);
    } else {
      UnorderedClass(prioclass);
      ids := prioclass;
    }
  }

  method Picked(prioclass: seq<Id>, ordering: seq<int>) returns (ids: seq<Id>)
    requires forall k :: k in ordering ==> 0 <= k < |prioclass|
    ensures ids == Pick(prioclass, ordering)
  {
    ids := [];
    for k := 0 to |ordering|
      invariant ids == PickUpTo(prioclass, ordering, k)
    {
      assert ordering[k] in ordering;
      ids := ids + [prioclass[ordering[k]]];
    }
  }
}
