/** The installation order of products (algorithm 1): push priorities upwards until nothing moves,
    then sort class by class. */
module ProductSequence {
  import opened Collections
  import opened Digraphs
  import opened ClassSorting
  import opened SequenceProperties
  import opened ClassLaws
  import opened PriorityPush
  import opened ClassCycles

  function AtLeastOne(n: nat): nat {
    if n == 0 then 1 else n
  }

  lemma CountIds(products: seq<XClassifiedProduct>)
    requires DistinctProducts(products)
    ensures |XIds(products)| == |products|
  {
    var ids := seq(|products|, i requires 0 <= i < |products| => products[i].id);
    DistinctCount(ids);
    forall id ensures id in Elements(ids) <==> id in XIds(products) {
      if id in XIds(products) {
        var x :| x in products && x.id == id;
        var i :| 0 <= i < |products| && products[i] == x;
        assert ids[i] == id;
      }
    }
    assert Elements(ids) == XIds(products);
  }

  /** Every product gets the largest priority declared by anything reachable from it along
      requirements; as many passes as there are products suffice. */
  method PushPriorities(products: seq<XClassifiedProduct>, requs: seq<(Id, Id)>) returns (ghost passes: nat)
    requires DistinctProducts(products) && Within100(Revisions(products))
    modifies (set x | x in products)`revisedPriority
    ensures passes <= AtLeastOne(|products|)
    ensures Within100(Revisions(products))
    ensures RaisedBy(Revisions(products), RequirementGraph(XIds(products), requs), Revisions(products))
    ensures forall x :: x in products ==>
              IsPeak(old(Revisions(products)), RequirementGraph(XIds(products), requs), x.id, x.revisedPriority)
  {
    hide AfterPasses, RaisedBy, EdgesWithin, RequirementGraph, Within100, Revisions, DistinctProducts;
    ghost var decl := Revisions(products);
    ghost var g := RequirementGraph(XIds(products), requs);
    CountIds(products);
    GraphWithin(XIds(products), requs);
    AtStart(decl, g);
    passes := 0;
    var ready := false;
    while !ready
      invariant passes <= AtLeastOne(|products|) && Within100(Revisions(products))
      invariant Revisions(products).Keys == decl.Keys
      invariant AfterPasses(decl, g, passes, Revisions(products))
      invariant !ready ==> passes == 0 || passes < |products|
      invariant ready ==> RaisedBy(Revisions(products), g, Revisions(products))
      decreases AtLeastOne(|products|) - passes
    {
      ghost var rev := Revisions(products);
      var changed := ModifySortingClasses(products, requs);
      ready := !changed;
      if passes + 1 >= |products| {
        EnoughPassesStable(decl, g, passes, rev, Revisions(products));
      }
      OnePass(decl, g, passes, passes + 1, rev, Revisions(products));
      passes := passes + 1;
    }
    forall x | x in products ensures IsPeak(decl, g, x.id, x.revisedPriority) {
      StableIsPeak(decl, g, passes, Revisions(products), x.id);
    }
  }

  // ----- what the pushed priorities mean for the products -----

  /** m is the largest priority declared by anything that id must come before, id included. */
  ghost predicate IsPeakOf(products: seq<Product>, requs: seq<(Id, Id)>, id: Id, m: int) {
    var g := RequirementsAmong(products, requs);
    && (exists z :: z in products && Reaches(g, id, z.id) && Priority(z) == m)
    && (forall z :: z in products && Reaches(g, id, z.id) ==> Priority(z) <= m)
  }

  /** The same products, each with its peak as priority. */
  ghost predicate Pushed(products: seq<Product>, requs: seq<(Id, Id)>, q: seq<Product>) {
    && Ids(q) == Ids(products)
    && PrioritiesInRange(q) && PrioritiesSettled(q, requs)
    && forall i :: 0 <= i < |q| ==> IsPeakOf(products, requs, q[i].id, Priority(q[i]))
  }

  /** Declared priorities are given and in range. */
  ghost predicate ProperPriorities(products: seq<Product>) {
    forall p :: p in products ==> p.priority.Some? && -100 <= p.priority.value <= 100
  }

  ghost predicate Mirrors(products: seq<Product>, xs: seq<XClassifiedProduct>) {
    |xs| == |products| && forall i :: 0 <= i < |xs| ==> xs[i].id == products[i].id
  }

  lemma MirrorFacts(products: seq<Product>, xs: seq<XClassifiedProduct>, requs: seq<(Id, Id)>)
    requires DistinctIds(products) && Mirrors(products, xs)
    ensures DistinctProducts(xs)
    ensures RequirementGraph(XIds(xs), requs) == RequirementsAmong(products, requs)
  {
    forall i, j | 0 <= i < j < |xs| ensures xs[i].id != xs[j].id {
      assert Ids(products)[i] != Ids(products)[j];
    }
    forall id ensures id in XIds(xs) <==> id in Ids(products) {
      if id in XIds(xs) {
        var x :| x in xs && x.id == id;
        var i :| 0 <= i < |xs| && xs[i] == x;
        assert Ids(products)[i] == id;
      }
      if id in Ids(products) {
        var i :| 0 <= i < |products| && Ids(products)[i] == id;
        assert xs[i] in xs;
      }
    }
  }

  /** What the table of declared values says, in terms of the product list. */
  ghost predicate Declares(products: seq<Product>, decl: map<Id, int>) {
    && (forall id :: id in decl <==> id in Ids(products))
    && (forall p :: p in products ==> p.id in decl && decl[p.id] == Priority(p))
  }

  lemma PeakOfProduct(products: seq<Product>, requs: seq<(Id, Id)>, decl: map<Id, int>, id: Id, m: int)
    requires Declares(products, decl)
    requires IsPeak(decl, RequirementsAmong(products, requs), id, m)
    ensures IsPeakOf(products, requs, id, m)
  {
    var g := RequirementsAmong(products, requs);
    assert Attained(decl, g, id, m);
    var q :| q in decl && Reaches(g, id, q) && decl[q] == m;
    AvailableIsListed(products, q);
    var z :| z in products && z.id == q;
    assert Reaches(g, id, z.id) && Priority(z) == m;
    forall z | z in products && Reaches(g, id, z.id) ensures Priority(z) <= m { assert z.id in decl; }
  }

  lemma SettledWhenStable(q: seq<Product>, requs: seq<(Id, Id)>, rev: map<Id, int>)
    requires DistinctIds(q) && Declares(q, rev) && RaisedBy(rev, RequirementsAmong(q, requs), rev)
    ensures PrioritiesSettled(q, requs)
  {
    var g := RequirementsAmong(q, requs);
    forall r | r in g ensures PriorityOf(q, r.0) >= PriorityOf(q, r.1) {
      AvailableIsListed(q, r.0);
      AvailableIsListed(q, r.1);
      var a :| a in q && a.id == r.0;
      var b :| b in q && b.id == r.1;
      PriorityOfProduct(q, a);
      PriorityOfProduct(q, b);
      assert LeastRaise(rev, g, r.0, rev[r.0]) && (r.0, r.1) in g;
    }
  }

  method XProducts(products: seq<Product>) returns (xs: seq<XClassifiedProduct>)
    requires DistinctIds(products) && ProperPriorities(products)
    ensures Mirrors(products, xs) && fresh(set x | x in xs)
    ensures forall i :: 0 <= i < |xs| ==> xs[i].revisedPriority == Priority(products[i])
  {
    xs := [];
    for k := 0 to |products|
      invariant |xs| == k && fresh(set x | x in xs)
      invariant forall i :: 0 <= i < k ==> xs[i].id == products[i].id && xs[i].revisedPriority == Priority(products[i])
    {
      assert products[k] in products;
      var x := new XClassifiedProduct(products[k].id, products[k].priority.value);
      xs := xs + [x];
    }
  }

  /** The revised priorities take the place of the declared ones. */
  method Revised(xs: seq<XClassifiedProduct>) returns (q: seq<Product>)
    requires DistinctProducts(xs)
    modifies (set x | x in xs)`priority
    ensures |q| == |xs| && forall i :: 0 <= i < |xs| ==> q[i] == Product(xs[i].id, Some(xs[i].revisedPriority))
    ensures forall x :: x in xs ==> x.priority == x.revisedPriority
  {
    q := [];
    for k := 0 to |xs|
      invariant |q| == k && forall i :: 0 <= i < k ==>
                q[i] == Product(xs[i].id, Some(xs[i].priority)) && xs[i].priority == xs[i].revisedPriority
    {
      xs[k].priority := xs[k].revisedPriority;
      q := q + [Product(xs[k].id, Some(xs[k].priority))];
    }
  }

  // ----- the end-to-end result -----

  /** s is an installation order: all products, each once, every requirement between available
      products honoured whatever the declared priorities; and where a product stands before
      another, it or something it must come before was declared at least as high. */
  ghost predicate InstallationOrder(products: seq<Product>, requs: seq<(Id, Id)>, s: seq<Id>) {
    var g := RequirementsAmong(products, requs);
    && multiset(s) == multiset(Ids(products))
    && (forall a, b :: (a, b) in g ==> Precedes(s, a, b))
    && (forall i, j, y :: 0 <= i < j < |s| && y in products && y.id == s[j] ==>
          BackedBy(products, requs, s[i], Priority(y)))
  }

  ghost predicate BackedBy(products: seq<Product>, requs: seq<(Id, Id)>, id: Id, m: int) {
    exists z :: z in products && Reaches(RequirementsAmong(products, requs), id, z.id) && Priority(z) >= m
  }

  /** To be named in the error of a level: on or behind a cycle, of that level, and required before
      something of that level. */
  ghost predicate Reported(products: seq<Product>, requs: seq<(Id, Id)>, level: int, name: Id) {
    var g := RequirementsAmong(products, requs);
    && BehindCycle(g, name) && IsPeakOf(products, requs, name, level)
    && exists other :: (name, other) in g && IsPeakOf(products, requs, other, level)
  }

  /** The error names exactly the products to be reported for the highest level that has a cycle,
      and so every product on a cycle of that level. */
  ghost predicate OrderingError(products: seq<Product>, requs: seq<(Id, Id)>, level: int, names: seq<Id>) {
    var g := RequirementsAmong(products, requs);
    && (forall name :: name in names <==> Reported(products, requs, level, name))
    && (exists p :: Cycle(g, p) && IsPeakOf(products, requs, p[0], level))
    && (forall p, m :: Cycle(g, p) && IsPeakOf(products, requs, p[0], m) ==> m <= level)
    && (forall p, x :: Cycle(g, p) && IsPeakOf(products, requs, p[0], level) && x in p ==> x in names)
  }

  lemma PeakIsPriority(products: seq<Product>, requs: seq<(Id, Id)>, q: seq<Product>, id: Id, m: int)
    requires DistinctIds(products) && Pushed(products, requs, q) && id in Ids(products)
    ensures IsPeakOf(products, requs, id, m) <==> PriorityOf(q, id) == m
  {
    var i :| 0 <= i < |q| && Ids(q)[i] == id;
    assert q[i] in q;
    PriorityOfProduct(q, q[i]);
    if IsPeakOf(products, requs, id, m) {
      var z :| z in products && Reaches(RequirementsAmong(products, requs), id, z.id) && Priority(z) == m;
      var z' :| z' in products && Reaches(RequirementsAmong(products, requs), id, z'.id) &&
        Priority(z') == Priority(q[i]);
    }
  }

  lemma SameRequirements(products: seq<Product>, q: seq<Product>, requs: seq<(Id, Id)>)
    requires Ids(q) == Ids(products)
    ensures RequirementsAmong(q, requs) == RequirementsAmong(products, requs)
  {
  }

  lemma OrderOfPushed(products: seq<Product>, requs: seq<(Id, Id)>, q: seq<Product>)
    requires DistinctIds(products) && Pushed(products, requs, q) && AcyclicFrom(q, requs, BOTTOM)
    ensures InstallationOrder(products, requs, ByLevels(q, requs, BOTTOM))
  {
    var s := ByLevels(q, requs, BOTTOM);
    var g := RequirementsAmong(products, requs);
    SameRequirements(products, q, requs);
    SequenceIsPermutation(q, requs);
    forall a, b | (a, b) in g ensures Precedes(s, a, b) {
      AvailableIsListed(q, a);
      AvailableIsListed(q, b);
      var x :| x in q && x.id == a;
      var y :| y in q && y.id == b;
      PriorityOfProduct(q, x);
      PriorityOfProduct(q, y);
      assert PriorityOf(q, (a, b).0) >= PriorityOf(q, (a, b).1);
      ByLevelsHonours(q, requs, BOTTOM, x, y);
    }
    forall i, j, y | 0 <= i < j < |s| && y in products && y.id == s[j]
      ensures BackedBy(products, requs, s[i], Priority(y))
    {
      Backing(products, requs, q, i, j, y);
    }
  }

  lemma PeakAt(products: seq<Product>, requs: seq<(Id, Id)>, q: seq<Product>, x: Product)
    requires Pushed(products, requs, q) && x in q
    ensures IsPeakOf(products, requs, x.id, Priority(x))
  {
    var k :| 0 <= k < |q| && q[k] == x;
    assert IsPeakOf(products, requs, q[k].id, Priority(q[k]));
  }

  lemma PlacesDescend(q: seq<Product>, requs: seq<(Id, Id)>, i: nat, j: nat) returns (qi: Product, qj: Product)
    requires DistinctIds(q) && AcyclicFrom(q, requs, BOTTOM) && i < j < |ByLevels(q, requs, BOTTOM)|
    ensures qi in q && qi.id == ByLevels(q, requs, BOTTOM)[i]
    ensures qj in q && qj.id == ByLevels(q, requs, BOTTOM)[j]
    ensures Priority(qi) >= Priority(qj)
  {
    hide AcyclicFrom, ByLevels;
    var s := ByLevels(q, requs, BOTTOM);
    ByLevelsMembers(q, requs, BOTTOM);
    ByLevelsDescends(q, requs, BOTTOM);
    assert s[i] in s && s[j] in s;
    qi :| qi in q && qi.id == s[i];
    qj :| qj in q && qj.id == s[j];
  }

  lemma Backing(products: seq<Product>, requs: seq<(Id, Id)>, q: seq<Product>, i: nat, j: nat, y: Product)
    requires DistinctIds(products) && DistinctIds(q) && Pushed(products, requs, q) && AcyclicFrom(q, requs, BOTTOM)
    requires i < j < |ByLevels(q, requs, BOTTOM)| && y in products && y.id == ByLevels(q, requs, BOTTOM)[j]
    ensures BackedBy(products, requs, ByLevels(q, requs, BOTTOM)[i], Priority(y))
  {
    hide AcyclicFrom, ByLevels, Pushed, Reaches;
    var g := RequirementsAmong(products, requs);
    var qi, qj := PlacesDescend(q, requs, i, j);
    PeakAt(products, requs, q, qi);
    PeakAt(products, requs, q, qj);
    ReachesSelf(g, y.id);
    assert Priority(y) <= Priority(qj);
    var z :| z in products && Reaches(g, qi.id, z.id) && Priority(z) == Priority(qi);
  }

  lemma CycleStartListed(products: seq<Product>, requs: seq<(Id, Id)>, p: seq<Id>)
    requires Cycle(RequirementsAmong(products, requs), p)
    ensures p[0] in Ids(products)
  {
    assert Linked(RequirementsAmong(products, requs), p, 1);
  }

  lemma ErrorOfPushed(products: seq<Product>, requs: seq<(Id, Id)>, q: seq<Product>, level: int, names: seq<Id>)
    requires DistinctIds(products) && Pushed(products, requs, q) && Conflict(q, requs, level, names)
    ensures OrderingError(products, requs, level, names)
  {
    var g := RequirementsAmong(products, requs);
    SameRequirements(products, q, requs);
    ConflictExact(q, requs, level, names);
    forall name ensures Named(q, requs, level, name) <==> Reported(products, requs, level, name) {
      NamedIsReported(products, requs, q, level, name);
    }
    forall p, m | Cycle(g, p) ensures IsPeakOf(products, requs, p[0], m) <==> PriorityOf(q, p[0]) == m {
      CycleStartListed(products, requs, p);
      PeakIsPriority(products, requs, q, p[0], m);
    }
  }

  lemma NamedIsReported(products: seq<Product>, requs: seq<(Id, Id)>, q: seq<Product>, level: int, name: Id)
    requires DistinctIds(products) && Pushed(products, requs, q)
    ensures Named(q, requs, level, name) <==> Reported(products, requs, level, name)
  {
    var g := RequirementsAmong(products, requs);
    SameRequirements(products, q, requs);
    forall id | id in Ids(products)
      ensures id in ClassIds(q, level) <==> IsPeakOf(products, requs, id, level)
    {
      InClass(q, id, level);
      PeakIsPriority(products, requs, q, id, level);
    }
    InClass(q, name, level);
    forall other | (name, other) in g ensures name in Ids(products) && other in Ids(products) {
      assert (name, other).0 in Ids(products) && (name, other).1 in Ids(products);
    }
  }

  /** The installation order exists exactly when no requirements go round in a cycle. */
  method GenerateProductSequence(products: seq<Product>, requs: seq<(Id, Id)>) returns (r: Result<seq<Id>, seq<Id>>)
    requires DistinctIds(products) && ProperPriorities(products)
    ensures r.Ok? <==> Acyclic(RequirementsAmong(products, requs))
    ensures r.Ok? ==> InstallationOrder(products, requs, r.value)
    ensures r.Ok? ==> exists q ::
              Pushed(products, requs, q) && r.value == ByLevels(q, requs, BOTTOM) && PeersLawful(q, requs, r.value)
    ensures r.Err? ==> exists level :: OrderingError(products, requs, level, r.error)
  {
    var q := PushedProducts(products, requs);
    SameRequirements(products, q, requs);
    AcyclicByClasses(q, requs);
    r := SequenceByClasses(q, requs);
    if r.Ok? {
      OrderOfPushed(products, requs, q);
      ByLevelsIsLawful(q, requs);
    } else {
      ghost var level :| Conflict(q, requs, level, r.error);
      ErrorOfPushed(products, requs, q, level, r.error);
    }
  }

  // ----- the order depends on the pairs only -----

  /** The result is determined by the product list and the set of required pairs: how often and in
      which order the pairs are listed does not matter, and neither does the way the pushed
      priorities came about. */
  lemma OnlyPairsMatter(products: seq<Product>, requs: seq<(Id, Id)>, requs': seq<(Id, Id)>, q: seq<Product>,
                        q': seq<Product>)
    requires forall x :: x in requs <==> x in requs'
    requires Pushed(products, requs, q) && Pushed(products, requs', q')
    ensures ByLevels(q, requs, BOTTOM) == ByLevels(q', requs', BOTTOM)
  {
    assert RequirementsAmong(products, requs) == RequirementsAmong(products, requs');
    forall i | 0 <= i < |q| ensures SameLevel(q, q', i) {
      assert Ids(q)[i] == Ids(q')[i];
      var g := RequirementsAmong(products, requs);
      var z :| z in products && Reaches(g, q[i].id, z.id) && Priority(z) == Priority(q[i]);
      var z' :| z' in products && Reaches(g, q'[i].id, z'.id) && Priority(z') == Priority(q'[i]);
    }
    assert |Ids(q)| == |Ids(q')|;
    SameByLevels(q, q', requs, BOTTOM);
    RequirementOrderIrrelevant(q', requs, requs', BOTTOM);
  }

  ghost predicate SameLevel(q: seq<Product>, q': seq<Product>, i: nat) {
    i < |q| && i < |q'| && q[i].id == q'[i].id && Priority(q[i]) == Priority(q'[i])
  }

  lemma {:induction false} SameClassIds(q: seq<Product>, q': seq<Product>, k: nat, level: int)
    requires |q| == |q'| && k <= |q| && forall i :: 0 <= i < |q| ==> SameLevel(q, q', i)
    ensures ClassIdsUpTo(q, k, level) == ClassIdsUpTo(q', k, level)
  {
    if k == 0 {
    } else {
      SameClassIds(q, q', k - 1, level);
      assert SameLevel(q, q', k - 1);
    }
  }

  lemma {:induction false} SameByLevels(q: seq<Product>, q': seq<Product>, requs: seq<(Id, Id)>, level: int)
    requires |q| == |q'| && forall i :: 0 <= i < |q| ==> SameLevel(q, q', i)
    ensures ByLevels(q, requs, level) == ByLevels(q', requs, level)
    decreases TOP + 1 - level
  {
    if level > TOP {
    } else {
      SameByLevels(q, q', requs, level + 1);
      SameClassIds(q, q', |q|, level);
    }
  }

  /** In algorithm 2 a missing priority counts as 0. */
  lemma MissingIsZero(products: seq<Product>, given: seq<Product>, requs: seq<(Id, Id)>, level: int)
    requires |given| == |products|
    requires forall i :: 0 <= i < |products| ==>
               given[i] == if products[i].priority.None? then Product(products[i].id, Some(0)) else products[i]
    ensures ByLevels(products, requs, level) == ByLevels(given, requs, level)
  {
    forall i | 0 <= i < |products| ensures SameLevel(products, given, i) {
    }
    SameByLevels(products, given, requs, level);
  }

  method PushedProducts(products: seq<Product>, requs: seq<(Id, Id)>) returns (q: seq<Product>)
    requires DistinctIds(products) && ProperPriorities(products)
    ensures DistinctIds(q) && Pushed(products, requs, q)
  {
    hide Pushed, IsPeak, RaisedBy, Declares, RequirementsAmong, RequirementGraph, Within100;
    var xs := XProducts(products);
    MirrorFacts(products, xs, requs);
    ghost var decl := Revisions(xs);
    DeclaredFacts(products, xs, decl);
    ghost var passes := PushPriorities(xs, requs);
    ghost var rev := Revisions(xs);
    q := Revised(xs);
    RevisedFacts(products, requs, xs, decl, rev, q);
  }

  lemma DeclaredFacts(products: seq<Product>, xs: seq<XClassifiedProduct>, decl: map<Id, int>)
    requires DistinctIds(products) && ProperPriorities(products) && Mirrors(products, xs) && Holds(xs, decl)
    requires forall i :: 0 <= i < |xs| ==> xs[i].revisedPriority == Priority(products[i])
    ensures Declares(products, decl) && Within100(decl)
  {
    forall p | p in products ensures p.id in decl && decl[p.id] == Priority(p) {
      var i :| 0 <= i < |products| && products[i] == p;
      assert xs[i] in xs;
    }
    forall id ensures id in decl <==> id in Ids(products) {
      if id in decl {
        var x :| x in xs && x.id == id;
        var i :| 0 <= i < |xs| && xs[i] == x;
        assert Ids(products)[i] == id;
      }
      if id in Ids(products) {
        var i :| 0 <= i < |products| && Ids(products)[i] == id;
        assert products[i] in products;
      }
    }
    forall id | id in decl ensures BOTTOM <= decl[id] <= TOP {
      AvailableIsListed(products, id);
      var p :| p in products && p.id == id;
    }
  }

  lemma RevisedFacts(products: seq<Product>, requs: seq<(Id, Id)>, xs: seq<XClassifiedProduct>,
                     decl: map<Id, int>, rev: map<Id, int>, q: seq<Product>)
    requires DistinctIds(products) && Mirrors(products, xs) && Declares(products, decl)
    requires Holds(xs, rev) && Within100(rev) && RaisedBy(rev, RequirementsAmong(products, requs), rev)
    requires forall x :: x in xs ==> IsPeak(decl, RequirementsAmong(products, requs), x.id, rev[x.id])
    requires |q| == |xs| && forall i :: 0 <= i < |xs| ==> q[i] == Product(xs[i].id, Some(xs[i].revisedPriority))
    ensures DistinctIds(q) && Pushed(products, requs, q)
  {
    hide IsPeak, IsPeakOf, RaisedBy, PrioritiesSettled;
    assert Ids(q) == Ids(products);
    SameRequirements(products, q, requs);
    forall i | 0 <= i < |q| ensures q[i].id in rev && Priority(q[i]) == rev[q[i].id] { assert xs[i] in xs; }
    assert Declares(q, rev) by {
      forall id ensures id in rev <==> id in Ids(q) {
        if id in rev {
          var x :| x in xs && x.id == id;
          var i :| 0 <= i < |xs| && xs[i] == x;
          assert Ids(q)[i] == id;
        }
      }
    }
    SettledWhenStable(q, requs, rev);
    forall i | 0 <= i < |q| ensures IsPeakOf(products, requs, q[i].id, Priority(q[i])) {
      assert xs[i] in xs;
      PeakOfProduct(products, requs, decl, q[i].id, rev[q[i].id]);
    }
  }
}
