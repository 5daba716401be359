/** From dependencies to numbered actions: the setup requirements, the order they ask for, and the
    number each action gets on its client. */
module ActionSequence {
  import opened Collections
  import opened Digraphs
  import opened ClassSorting
  import opened ClassCycles
  import opened ProductSequence
  import opened ProductsOnClients
  import opened ClientSequence
  import opened ClientLaws

  /** The dependency asks for a to be set up before b. */
  ghost predicate AsksFor(d: ProductDependency, a: Id, b: Id) {
    && d.productAction == Setup
    && (d.requiredInstallationStatus == Some(Installed) || d.requiredAction == Some(Setup))
    && match d.requirementType
       case Some(Before) => a == d.requiredProductId && b == d.productId
       case Some(After) => a == d.productId && b == d.requiredProductId
       case None => false
  }

  /** The pairs (first, later) that the setup dependencies ask for, and no others. */
  method GetSetupRequirements(dependencies: seq<ProductDependency>) returns (requs: seq<(Id, Id)>)
    ensures forall a, b :: (a, b) in requs <==> exists d :: d in dependencies && AsksFor(d, a, b)
    ensures forall d :: (&& d in dependencies && d.productAction == Setup
                         && (d.requiredInstallationStatus == Some(Installed) || d.requiredAction == Some(Setup))) ==>
              && (d.requirementType == Some(Before) ==> (d.requiredProductId, d.productId) in requs)
              && (d.requirementType == Some(After) ==> (d.productId, d.requiredProductId) in requs)
    ensures forall a, b :: (a, b) in requs ==> exists d ::
              && d in dependencies && d.productAction == Setup
              && (d.requiredInstallationStatus == Some(Installed) || d.requiredAction == Some(Setup))
              && (|| (d.requirementType == Some(Before) && d.requiredProductId == a && d.productId == b)
                  || (d.requirementType == Some(After) && d.productId == a && d.requiredProductId == b))
  {
    requs := [];
    for k := 0 to |dependencies|
      invariant forall a, b :: (a, b) in requs <==> exists i :: 0 <= i < k && AsksFor(dependencies[i], a, b)
    {
      var dependency := dependencies[k];
      if dependency.productAction != Setup {
        continue;
      }
      if dependency.requiredInstallationStatus != Some(Installed) && dependency.requiredAction != Some(Setup) {
        continue;
      }
      if dependency.requirementType == Some(Before) {
        requs := requs + [(dependency.requiredProductId, dependency.productId)];
      } else if dependency.requirementType == Some(After) {
        requs := requs + [(dependency.productId, dependency.requiredProductId)];
      }
    }
  }

  /** Some dependency asks for a before b. */
  ghost predicate Required(dependencies: seq<ProductDependency>, a: Id, b: Id) {
    exists d :: d in dependencies && AsksFor(d, a, b)
  }

  /** The dependencies between available products, as a graph. */
  ghost predicate IsDependencyGraph(products: seq<Product>, dependencies: seq<ProductDependency>, g: set<(Id, Id)>) {
    forall a, b :: (a, b) in g <==> a in Ids(products) && b in Ids(products) && Required(dependencies, a, b)
  }

  /** Whenever two entries of a client are for products a and b, and a is required before b, the entry
      for a has the smaller number. */
  ghost predicate InOrder(pocs: seq<ProductOnClient>, products: seq<Product>, dependencies: seq<ProductDependency>)
    reads pocs
  {
    forall p, q :: p in pocs && q in pocs && p.clientId == q.clientId
      && p.productId in Ids(products) && q.productId in Ids(products)
      && Required(dependencies, p.productId, q.productId)
      ==> p.actionSequence < q.actionSequence
  }

  /** What one dependency means for the numbers, where both products are available and on the client: the
      required product goes first for type before, and last for type after. */
  ghost predicate DependencyKept(d: ProductDependency, products: seq<Product>, out: seq<ProductOnClient>)
    reads out
  {
    forall p, q ::
      (&& p in out && q in out && p.clientId == q.clientId
       && p.productId == d.requiredProductId && q.productId == d.productId
       && p.productId in Ids(products) && q.productId in Ids(products)) ==>
        && (d.requirementType == Some(Before) ==> p.actionSequence < q.actionSequence)
        && (d.requirementType == Some(After) ==> q.actionSequence < p.actionSequence)
  }

  lemma AllKept(products: seq<Product>, dependencies: seq<ProductDependency>, out: seq<ProductOnClient>,
                d: ProductDependency)
    requires InOrder(out, products, dependencies) && d in dependencies && d.productAction == Setup
    requires d.requiredInstallationStatus == Some(Installed) || d.requiredAction == Some(Setup)
    ensures DependencyKept(d, products, out)
  {
    forall p, q | p in out && q in out && p.clientId == q.clientId
      && p.productId == d.requiredProductId && q.productId == d.productId
      && p.productId in Ids(products) && q.productId in Ids(products)
      ensures d.requirementType == Some(Before) ==> p.actionSequence < q.actionSequence
      ensures d.requirementType == Some(After) ==> q.actionSequence < p.actionSequence
    {
      assert d.requirementType == Some(Before) ==> AsksFor(d, p.productId, q.productId);
      assert d.requirementType == Some(After) ==> AsksFor(d, q.productId, p.productId);
    }
  }

  /** The entries stand client by client, on each client in an installation order of the products, and
      behind these in the order in which they came. */
  ghost predicate FollowsAnOrder(pocs: seq<ProductOnClient>, products: seq<Product>,
                                 dependencies: seq<ProductDependency>, out: seq<ProductOnClient>)
  {
    exists requs, s :: InstallationOrder(products, requs, s) && out == Sequenced(pocs, s) &&
      SequenceLawful(pocs, s, out)
      && forall a, b :: (a, b) in requs <==> Required(dependencies, a, b)
  }

  /** The whole of algorithm 1 on the entries of all clients. */
  method GenerateProductOnClientSequenceByAlgorithm1(pocs: seq<ProductOnClient>, products: seq<Product>,
                                                     dependencies: seq<ProductDependency>)
    returns (r: Result<seq<ProductOnClient>, seq<Id>>)
    requires DistinctIds(products) && ProperPriorities(products)
    modifies (set p | p in pocs)`actionSequence
    ensures exists g :: IsDependencyGraph(products, dependencies, g) && (r.Ok? <==> Acyclic(g))
    ensures r.Ok? ==> (multiset(r.value) == multiset(pocs) <==> (products != [] && DistinctKeys(pocs)) || pocs == [])
    ensures r.Ok? ==> NumberedByClient(r.value) && NumbersFromZero(r.value)
    ensures r.Ok? ==> InOrder(r.value, products, dependencies)
    ensures r.Ok? ==> forall d ::
              (&& d in dependencies && d.productAction == Setup
               && (d.requiredInstallationStatus == Some(Installed) || d.requiredAction == Some(Setup))) ==>
              DependencyKept(d, products, r.value)
    ensures r.Ok? ==> FollowsAnOrder(pocs, products, dependencies, r.value)
    ensures r.Err? ==> forall p :: p in pocs ==> p.actionSequence == old(p.actionSequence)
  {
    var requs := GetSetupRequirements(dependencies);
    ghost var g := RequirementsAmong(products, requs);
    assert IsDependencyGraph(products, dependencies, g);
    var sorted := GenerateProductSequence(products, requs);
    if sorted.Err? {
      return Err(sorted.error);
    }
    var out := GenerateProductOnClientSequence(pocs, sorted.value);
    NothingLost(pocs, sorted.value);
    AllNumbersFromZero(out);
    SequencedIsLawful(pocs, sorted.value);
    OrderFacts(products, requs, sorted.value);
    AllInOrder(pocs, products, dependencies, requs, sorted.value, out);
    forall d | d in dependencies && d.productAction == Setup
      && (d.requiredInstallationStatus == Some(Installed) || d.requiredAction == Some(Setup))
      ensures DependencyKept(d, products, out)
    {
      AllKept(products, dependencies, out, d);
    }
    return Ok(out);
  }

  lemma OrderFacts(products: seq<Product>, requs: seq<(Id, Id)>, s: seq<Id>)
    requires DistinctIds(products) && InstallationOrder(products, requs, s)
    ensures Distinct(s) && (s == [] <==> products == [])
  {
    var ids := Ids(products);
    assert Split(ids, s, []);
    SplitMembers(ids, s, []);
    SplitDistinct(ids, s, []);
  }

  lemma AllInOrder(pocs: seq<ProductOnClient>, products: seq<Product>, dependencies: seq<ProductDependency>,
                   requs: seq<(Id, Id)>, s: seq<Id>, out: seq<ProductOnClient>)
    requires Distinct(s) && InstallationOrder(products, requs, s)
    requires forall a, b :: (a, b) in requs <==> Required(dependencies, a, b)
    requires out == Sequenced(pocs, s) && NumberedByClient(out)
    requires s == [] <==> products == []
    ensures InOrder(out, products, dependencies)
  {
    forall p, q | p in out && q in out && p.clientId == q.clientId
      && p.productId in Ids(products) && q.productId in Ids(products)
      && Required(dependencies, p.productId, q.productId)
      ensures p.actionSequence < q.actionSequence
    {
      assert (p.productId, q.productId) in RequirementsAmong(products, requs);
      SequencedIsKept(pocs, s, p);
      SequencedIsKept(pocs, s, q);
      SequencedHonours(pocs, s, p, q);
      SmallerNumber(out, p, q);
    }
  }
}
