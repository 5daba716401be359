/** Sorting entries into a dictionary of dictionaries, by client and by product: a later entry takes
    the place of an earlier one with the same key. */
module EntriesByClient {
  import opened Collections
  import opened ProductsOnClients

  /** The clients among the first k entries, in order of first appearance. */
  ghost function ClientsUpTo(pocs: seq<ProductOnClient>, k: nat): seq<Id>
    requires k <= |pocs|
  {
    if k == 0 then []
    else
      var before := ClientsUpTo(pocs, k - 1);
      if pocs[k - 1].clientId in before then before else before + [pocs[k - 1].clientId]
  }

  /** The place of a product among some entries, or -1. */
  function PlaceOf(entries: seq<ProductOnClient>, productId: Id): (k: int)
    ensures -1 <= k < |entries|
    ensures k >= 0 ==> entries[k].productId == productId
    ensures k == -1 ==> forall e :: e in entries ==> e.productId != productId
  {
    if entries == [] then -1
    else if entries[|entries| - 1].productId == productId then |entries| - 1
    else PlaceOf(entries[..|entries| - 1], productId)
  }

  function Put(entries: seq<ProductOnClient>, poc: ProductOnClient): seq<ProductOnClient> {
    var at := PlaceOf(entries, poc.productId);
    if at >= 0 then entries[at := poc] else entries + [poc]
  }

  /** The dictionary of one client after the first k entries. */
  ghost function EntriesUpTo(pocs: seq<ProductOnClient>, k: nat, client: Id): seq<ProductOnClient>
    requires k <= |pocs|
  {
    if k == 0 then []
    else
      var before := EntriesUpTo(pocs, k - 1, client);
      if pocs[k - 1].clientId == client then Put(before, pocs[k - 1]) else before
  }

  /** The dictionary of one client after all entries. */
  ghost function EntriesOf(pocs: seq<ProductOnClient>, client: Id): (entries: seq<ProductOnClient>)
    ensures OneEach(entries)
  {
    EntriesMembers(pocs, |pocs|, client);
    EntriesUpTo(pocs, |pocs|, client)
  }

  method ByClient(pocs: seq<ProductOnClient>) returns (clients: seq<Id>, table: map<Id, seq<ProductOnClient>>)
    ensures clients == ClientsUpTo(pocs, |pocs|)
    ensures forall c :: c in clients <==> c in table
    ensures forall c :: c in table ==> table[c] == EntriesOf(pocs, c)
  {
    hide Put;
    clients, table := [], map[];
    for k := 0 to |pocs|
      invariant clients == ClientsUpTo(pocs, k)
      invariant forall c :: c in clients <==> c in table
      invariant forall c :: c in table ==> table[c] == EntriesUpTo(pocs, k, c)
      invariant forall c :: c !in table ==> EntriesUpTo(pocs, k, c) == []
    {
      var client := pocs[k].clientId;
      if client !in clients {
        clients := clients + [client];
        table := table[client := []];
      }
      table := table[client := Put(table[client], pocs[k])];
    }
  }

  // ----- what the dictionaries hold -----

  ghost predicate HasClient(pocs: seq<ProductOnClient>, k: nat, client: Id) {
    exists i :: 0 <= i < k <= |pocs| && pocs[i].clientId == client
  }

  lemma {:induction false} ClientsMembers(pocs: seq<ProductOnClient>, k: nat)
    requires k <= |pocs|
    ensures Distinct(ClientsUpTo(pocs, k))
    ensures forall c :: c in ClientsUpTo(pocs, k) <==> HasClient(pocs, k, c)
  {
    if k == 0 {
    } else {
      ClientsMembers(pocs, k - 1);
      forall c ensures HasClient(pocs, k, c) <==> HasClient(pocs, k - 1, c) || c == pocs[k - 1].clientId {
        if HasClient(pocs, k - 1, c) {
          var i :| 0 <= i < k - 1 && pocs[i].clientId == c;
        }
      }
    }
  }

  ghost predicate SameKey(p: ProductOnClient, q: ProductOnClient) {
    p.clientId == q.clientId && p.productId == q.productId
  }

  /** p stands at i among the first k entries, and no later one of them has its key. */
  ghost predicate LastAt(pocs: seq<ProductOnClient>, k: nat, i: nat, p: ProductOnClient) {
    i < k <= |pocs| && pocs[i] == p && forall j :: i < j < k ==> !SameKey(pocs[j], p)
  }

  /** p is the last of the first k entries with its key. */
  ghost predicate Last(pocs: seq<ProductOnClient>, k: nat, p: ProductOnClient) {
    exists i :: LastAt(pocs, k, i, p)
  }

  /** No product occurs twice. */
  ghost predicate OneEach(entries: seq<ProductOnClient>) {
    forall i, j :: 0 <= i < j < |entries| ==> entries[i].productId != entries[j].productId
  }

  lemma PutFacts(entries: seq<ProductOnClient>, poc: ProductOnClient)
    requires OneEach(entries)
    ensures OneEach(Put(entries, poc)) && poc in Put(entries, poc)
    ensures forall p :: p in Put(entries, poc) ==> p == poc || (p in entries && p.productId != poc.productId)
    ensures forall p :: p in entries && p.productId != poc.productId ==> p in Put(entries, poc)
  {
    var at := PlaceOf(entries, poc.productId);
    var after := Put(entries, poc);
    assert after[if at >= 0 then at else |entries|] == poc;
    forall p | p in entries && p.productId != poc.productId ensures p in after {
      var i :| 0 <= i < |entries| && entries[i] == p;
      assert after[i] == p;
    }
    forall p | p in after ensures p == poc || (p in entries && p.productId != poc.productId) {
      var i :| 0 <= i < |after| && after[i] == p;
      if i != at && i < |entries| { assert entries[i] == p; }
    }
  }

  lemma LastStep(pocs: seq<ProductOnClient>, k: nat, p: ProductOnClient)
    requires 0 < k <= |pocs|
    ensures Last(pocs, k, p) <==> p == pocs[k - 1] || (Last(pocs, k - 1, p) && !SameKey(pocs[k - 1], p))
  {
    if Last(pocs, k, p) && p != pocs[k - 1] {
      var i :| LastAt(pocs, k, i, p);
      assert LastAt(pocs, k - 1, i, p);
    }
    if p == pocs[k - 1] { assert LastAt(pocs, k, k - 1, p); }
    if Last(pocs, k - 1, p) && !SameKey(pocs[k - 1], p) {
      var i :| LastAt(pocs, k - 1, i, p);
      assert LastAt(pocs, k, i, p);
    }
  }

  /** A client's dictionary holds the last entry of each of its keys, and no other. */
  lemma {:induction false} EntriesMembers(pocs: seq<ProductOnClient>, k: nat, client: Id)
    requires k <= |pocs|
    ensures forall p :: p in EntriesUpTo(pocs, k, client) ==> Last(pocs, k, p) && p.clientId == client
    ensures forall p :: Last(pocs, k, p) && p.clientId == client ==> p in EntriesUpTo(pocs, k, client)
    ensures OneEach(EntriesUpTo(pocs, k, client))
  {
    hide Put, Last, OneEach;
    if k > 0 {
      EntriesMembers(pocs, k - 1, client);
      var before, last := EntriesUpTo(pocs, k - 1, client), pocs[k - 1];
      PutFacts(before, last);
      forall p | p in EntriesUpTo(pocs, k, client) ensures Last(pocs, k, p) && p.clientId == client {
        LastStep(pocs, k, p);
      }
      forall p | Last(pocs, k, p) && p.clientId == client ensures p in EntriesUpTo(pocs, k, client) {
        LastStep(pocs, k, p);
      }
    } else {
      NoneAtFirst(pocs);
    }
  }

  lemma NoneAtFirst(pocs: seq<ProductOnClient>)
    ensures OneEach([]) && forall p :: !Last(pocs, 0, p)
  {
  }

  lemma OneEachIsDistinct(entries: seq<ProductOnClient>)
    requires OneEach(entries)
    ensures Distinct(entries)
  {
    forall i, j | 0 <= i < j < |entries| ensures entries[i] != entries[j] {
      assert entries[i].productId != entries[j].productId;
    }
  }

  /** The entries that are kept: all of them exactly if no key occurs twice. */
  ghost predicate Survives(pocs: seq<ProductOnClient>, p: ProductOnClient) {
    Last(pocs, |pocs|, p)
  }

  lemma ClientEntries(pocs: seq<ProductOnClient>, client: Id)
    ensures Distinct(EntriesOf(pocs, client)) && OneEach(EntriesOf(pocs, client))
    ensures forall p :: p in EntriesOf(pocs, client) ==> Survives(pocs, p) && p.clientId == client
    ensures forall p :: Survives(pocs, p) && p.clientId == client ==> p in EntriesOf(pocs, client)
  {
    EntriesMembers(pocs, |pocs|, client);
    OneEachIsDistinct(EntriesOf(pocs, client));
  }

  lemma KeptIsMember(pocs: seq<ProductOnClient>, p: ProductOnClient)
    requires Survives(pocs, p)
    ensures p in pocs && HasClient(pocs, |pocs|, p.clientId)
  {
    var i :| LastAt(pocs, |pocs|, i, p);
  }

  lemma DistinctAreKept(pocs: seq<ProductOnClient>, p: ProductOnClient)
    requires DistinctKeys(pocs) && p in pocs
    ensures Survives(pocs, p)
  {
    var i :| 0 <= i < |pocs| && pocs[i] == p;
    assert LastAt(pocs, |pocs|, i, p);
  }

  lemma EntriesAreMembers(pocs: seq<ProductOnClient>, client: Id)
    ensures forall p :: p in EntriesOf(pocs, client) ==> p in pocs && p.clientId == client
  {
    hide EntriesOf, Survives;
    ClientEntries(pocs, client);
    forall p | p in EntriesOf(pocs, client) ensures p in pocs {
      KeptIsMember(pocs, p);
    }
  }
}
