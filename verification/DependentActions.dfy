/** Adding the actions that requested actions depend on, for all clients. */
module DependentActions {
  import opened Collections
  import opened ProductsOnClients
  import opened EntriesByClient
  import opened ActionRequests
  import opened RequestReasons

  function ProductIds(entries: seq<ProductOnClient>): seq<Id> {
    seq(|entries|, i requires 0 <= i < |entries| => entries[i].productId)
  }

  /** The dictionary of one client's entries by product. */
  ghost function ByProduct(entries: seq<ProductOnClient>, k: nat): map<Id, ProductOnClient>
    requires k <= |entries|
  {
    if k == 0 then map[] else ByProduct(entries, k - 1)[entries[k - 1].productId := entries[k - 1]]
  }

  /** What is installed and requested on one client, according to its entries. */
  ghost function Snapshot(entries: seq<ProductOnClient>): (st: State)
    requires OneEach(entries)
    reads entries
    ensures forall id :: id in st.order ==> id in st.entries
  {
    OrderListsTable(entries);
    var table := ByProduct(entries, |entries|);
    State(ProductIds(entries),
          map id | id in table && table[id] in entries :: Entry(table[id].installationStatus, table[id].actionRequest),
          map[])
  }

  /** The entries, in their order, are those of the state. */
  ghost predicate Shows(entries: seq<ProductOnClient>, st: State)
    reads entries
  {
    && ProductIds(entries) == st.order
    && forall p :: p in entries ==>
         p.productId in st.entries && st.entries[p.productId] == Entry(p.installationStatus, p.actionRequest)
  }

  /** What the calls for all products of a client lead to. */
  ghost function AllAdded(rules: Rules, st: State): State
    requires forall id :: id in st.order ==> id in st.entries
  {
    AllRequested(rules, st, st.order, |st.order|)
  }

  lemma {:induction false} ByProductValues(entries: seq<ProductOnClient>, k: nat)
    requires k <= |entries|
    ensures forall id :: id in ByProduct(entries, k) ==>
             ByProduct(entries, k)[id] in entries && ByProduct(entries, k)[id].productId == id
  {
    if k == 0 {
    } else {
      ByProductValues(entries, k - 1);
    }
  }

  lemma {:induction false} ByProductKeys(entries: seq<ProductOnClient>, k: nat)
    requires k <= |entries|
    ensures ByProduct(entries, k).Keys == Elements(ProductIds(entries)[..k])
  {
    if k == 0 {
    } else {
      ByProductKeys(entries, k - 1);
      var ids := ProductIds(entries);
      assert ids[..k] == ids[..k - 1] + [entries[k - 1].productId];
      assert Elements(ids[..k]) == Elements(ids[..k - 1]) + {entries[k - 1].productId};
    }
  }

  /** Where no product occurs twice, every entry is found under its product. */
  lemma {:induction false} ByProductFinds(entries: seq<ProductOnClient>, k: nat, i: nat)
    requires i < k <= |entries| && OneEach(entries)
    ensures entries[i].productId in ByProduct(entries, k) && ByProduct(entries, k)[entries[i].productId] == entries[i]
  {
    if i == k - 1 {
    } else {
      ByProductFinds(entries, k - 1, i);
    }
  }

  lemma OrderListsTable(entries: seq<ProductOnClient>)
    requires OneEach(entries)
    ensures Lists(ProductIds(entries), ByProduct(entries, |entries|).Keys)
    ensures forall id :: id in ProductIds(entries) ==> id in ByProduct(entries, |entries|)
    ensures forall id :: id in ByProduct(entries, |entries|) ==> ByProduct(entries, |entries|)[id] in entries
  {
    var ids := ProductIds(entries);
    ByProductKeys(entries, |entries|);
    assert ids[..|entries|] == ids;
    assert Distinct(ids);
    DistinctCount(ids);
    ByProductValues(entries, |entries|);
    assert forall id :: id in ids ==> id in Elements(ids);
  }

  /** The actions requested by the entries. */
  ghost function Said(pocs: seq<ProductOnClient>): map<ProductOnClient, Option<Action>>
    reads pocs
  {
    map p | p in pocs :: p.actionRequest
  }

  /** Every entry has no action, or the one it had before, or one that some dependency explains. */
  ghost predicate AllExplained(rules: Rules, part: seq<ProductOnClient>, said: map<ProductOnClient, Option<Action>>)
    reads part
  {
    forall p :: p in part ==>
      || p.actionRequest == Some(Nothing) || HasReason(rules, p.productId, p.actionRequest)
      || (p in said && p.actionRequest == said[p])
  }

  /** The state records the actions requested by the entries, and nothing of other products. */
  ghost predicate Records(st: State, entries: seq<ProductOnClient>, said: map<ProductOnClient, Option<Action>>) {
    && (forall id :: id in st.entries ==> exists p :: p in entries && p.productId == id)
    && (forall p :: p in entries ==>
          p in said && p.productId in st.entries && st.entries[p.productId].action == said[p])
  }

  lemma SnapshotRecords(entries: seq<ProductOnClient>, said: map<ProductOnClient, Option<Action>>)
    requires OneEach(entries) && forall p :: p in entries ==> p in said && p.actionRequest == said[p]
    ensures Records(Snapshot(entries), entries, said)
  {
    ByProductValues(entries, |entries|);
    forall p | p in entries
      ensures p.productId in Snapshot(entries).entries
      ensures Snapshot(entries).entries[p.productId].action == p.actionRequest
    {
      var i :| 0 <= i < |entries| && entries[i] == p;
      ByProductFinds(entries, |entries|, i);
    }
  }

  lemma Explained(part: seq<ProductOnClient>, entries: seq<ProductOnClient>, rules: Rules, before: State,
                  said: map<ProductOnClient, Option<Action>>)
    requires ProperRules(rules) && OneEach(part) && forall e :: e in entries ==> e in part
    requires forall id :: id in before.order ==> id in before.entries
    requires Shows(part, AllAdded(rules, before)) && Records(before, entries, said)
    ensures AllExplained(rules, part, said)
  {
    hide HasReason, OneEach, ProperRules;
    forall p | p in part
      ensures p.actionRequest == Some(Nothing) || HasReason(rules, p.productId, p.actionRequest)
              || (p in said && p.actionRequest == said[p])
    {
      RequestedWithReason(rules, before, before.order, |before.order|, p.productId);
      if p.productId in before.entries {
        var e :| e in entries && e.productId == p.productId;
        SameEntryOf(part, e, p);
      }
    }
  }

  /** One client: its entries stay the same objects, and the added ones are new and its own. */
  method AddForClient(client: Id, entries: seq<ProductOnClient>, rules: Rules,
                      ghost said: map<ProductOnClient, Option<Action>>)
    returns (part: seq<ProductOnClient>)
    requires OneEach(entries) && ProperRules(rules) && forall p :: p in entries ==> p.clientId == client
    requires forall p :: p in entries ==> p in said && p.actionRequest == said[p]
    modifies set p | p in entries
    ensures Shows(part, AllAdded(rules, old(Snapshot(entries))))
    ensures forall p :: p in part ==> p.clientId == client && (p in entries || fresh(p))
    ensures forall p :: p in entries ==> p in part
    ensures ProductIds(entries) <= ProductIds(part) && OneEach(part)
    ensures AllExplained(rules, part, said)
  {
    hide ProperRules, AllRequested, AllAdded, OneEach, Lists, Shows, HasReason, AllExplained, Records, Snapshot;
    SnapshotRecords(entries, said);
    ghost var before := Snapshot(entries);
    var requester := RequesterFor(client, entries, rules);
    requester.AddDependent();
    part := Entries(requester);
    assert Shows(part, AllAdded(rules, before)) by {
      AddedByOrder(rules, before);
    }
    Explained(part, entries, rules, before, said);
  }

  lemma AddedByOrder(rules: Rules, st: State)
    requires forall id :: id in st.order ==> id in st.entries
    ensures AllAdded(rules, st) == AllRequested(rules, st, st.order, |st.order|)
  {
  }

  method RequesterFor(client: Id, entries: seq<ProductOnClient>, rules: Rules) returns (requester: ActionRequester)
    requires OneEach(entries) && forall p :: p in entries ==> p.clientId == client
    ensures fresh(requester) && requester.Valid() && requester.repr == set p | p in entries
    ensures requester.rules == rules && requester.clientId == client
    ensures requester.View() == Snapshot(entries) && requester.order == ProductIds(entries)
    ensures forall p :: p in entries ==> p.productId in requester.pocs && requester.pocs[p.productId] == p
  {
    hide OneEach, Lists;
    var order, table := Dictionary(entries);
    OrderListsTable(entries);
    ByProductValues(entries, |entries|);
    forall p | p in entries ensures p.productId in table && table[p.productId] == p {
      var i :| 0 <= i < |entries| && entries[i] == p;
      ByProductFinds(entries, |entries|, i);
    }
    requester := new ActionRequester(rules, client, order, table);
    assert forall p :: p in entries ==> p in table.Values;
  }

  method Dictionary(entries: seq<ProductOnClient>) returns (order: seq<Id>, table: map<Id, ProductOnClient>)
    ensures order == ProductIds(entries) && table == ByProduct(entries, |entries|)
  {
    order, table := [], map[];
    for k := 0 to |entries|
      invariant order == ProductIds(entries)[..k] && table == ByProduct(entries, k)
    {
      order := order + [entries[k].productId];
      table := table[entries[k].productId := entries[k]];
    }
  }

  /** The values of the dictionary, in its order. */
  method Entries(requester: ActionRequester) returns (part: seq<ProductOnClient>)
    requires requester.Valid()
    ensures Shows(part, requester.View())
    ensures forall p :: p in part ==> p in requester.repr && p.clientId == requester.clientId
    ensures forall id :: id in requester.pocs ==> requester.pocs[id] in part
    ensures OneEach(part)
  {
    part := [];
    var order := requester.order;
    CountMeansDistinct(order);
    assert forall id :: id in order <==> id in Elements(order);
    for k := 0 to |order|
      invariant |part| == k && forall i :: 0 <= i < k ==>
                order[i] in requester.pocs && part[i] == requester.pocs[order[i]]
    {
      assert order[k] in order;
      part := part + [requester.pocs[order[k]]];
    }
    forall id | id in requester.pocs ensures requester.pocs[id] in part {
      assert id in order;
      var i :| 0 <= i < |order| && order[i] == id;
      assert part[i] == requester.pocs[id];
    }
  }

  // ----- all clients -----

  /** The parts of the first k clients, one after the other. */
  ghost function Joined(parts: map<Id, seq<ProductOnClient>>, clients: seq<Id>, k: nat): seq<ProductOnClient>
    requires k <= |clients| && forall i :: 0 <= i < k ==> clients[i] in parts
  {
    if k == 0 then [] else Joined(parts, clients, k - 1) + parts[clients[k - 1]]
  }

  lemma {:induction false} JoinedSame(parts: map<Id, seq<ProductOnClient>>, clients: seq<Id>, k: nat, c: Id,
                                      part: seq<ProductOnClient>)
    requires k <= |clients| && forall i :: 0 <= i < k ==> clients[i] in parts && clients[i] != c
    ensures Joined(parts[c := part], clients, k) == Joined(parts, clients, k)
  {
    if k == 0 {
    } else {
      JoinedSame(parts, clients, k - 1, c, part);
    }
  }

  lemma OtherClients(clients: seq<Id>, k: nat)
    requires Distinct(clients) && k < |clients|
    ensures forall i :: 0 <= i < |clients| && i != k ==> clients[i] != clients[k]
  {
  }

  /** The part of a client: its own entries, all of the old ones among them; together they show what
      the calls for its products lead to from the state before. */
  ghost predicate PartOf(part: seq<ProductOnClient>, entries: seq<ProductOnClient>, client: Id, rules: Rules,
                         before: State, said: map<ProductOnClient, Option<Action>>)
    requires forall id :: id in before.order ==> id in before.entries
    reads part
  {
    && (forall p :: p in part ==> p.clientId == client)
    && (forall p :: p in entries ==> p in part)
    && ProductIds(entries) <= ProductIds(part) && OneEach(part)
    && AllExplained(rules, part, said)
    && Shows(part, AllAdded(rules, before))
  }

  twostate lemma SnapshotKept(entries: seq<ProductOnClient>)
    requires OneEach(entries)
    requires forall p :: p in entries ==>
              p.installationStatus == old(p.installationStatus) && p.actionRequest == old(p.actionRequest)
    ensures Snapshot(entries) == old(Snapshot(entries))
  {
  }

  lemma Apart(part: seq<ProductOnClient>, entries: seq<ProductOnClient>, client: Id, rules: Rules, before: State,
              said: map<ProductOnClient, Option<Action>>, others: seq<ProductOnClient>, other: Id)
    requires forall id :: id in before.order ==> id in before.entries
    requires PartOf(part, entries, client, rules, before, said)
    requires client != other && forall p :: p in others ==> p.clientId == other
    ensures forall p :: p in part ==> p !in others
  {
  }

  lemma PartMade(part: seq<ProductOnClient>, entries: seq<ProductOnClient>, client: Id, rules: Rules, before: State,
                 said: map<ProductOnClient, Option<Action>>)
    requires forall id :: id in before.order ==> id in before.entries
    requires forall p :: p in part ==> p.clientId == client
    requires forall p :: p in entries ==> p in part
    requires ProductIds(entries) <= ProductIds(part) && OneEach(part)
    requires Shows(part, AllAdded(rules, before))
    requires AllExplained(rules, part, said)
    ensures PartOf(part, entries, client, rules, before, said)
  {
  }

  lemma SameEntryOf(part: seq<ProductOnClient>, p: ProductOnClient, q: ProductOnClient)
    requires OneEach(part) && p in part && q in part && p.productId == q.productId
    ensures p == q
  {
    var i :| 0 <= i < |part| && part[i] == p;
    var j :| 0 <= j < |part| && part[j] == q;
  }

  /** All clients, each by itself: its part of the result is what the calls on its own entries lead
      to. */
  method AddDependentProductOnClients(pocs: seq<ProductOnClient>, rules: Rules)
    returns (out: seq<ProductOnClient>, ghost parts: map<Id, seq<ProductOnClient>>)
    requires ProperRules(rules)
    modifies set p | p in pocs
    ensures forall c :: c in ClientsUpTo(pocs, |pocs|) ==>
              && c in parts
              && PartOf(parts[c], EntriesOf(pocs, c), c, rules, old(Snapshot(EntriesOf(pocs, c))), old(Said(pocs)))
    ensures forall c, p :: c in ClientsUpTo(pocs, |pocs|) && p in parts[c] ==> p in EntriesOf(pocs, c) || fresh(p)
    ensures out == Joined(parts, ClientsUpTo(pocs, |pocs|), |ClientsUpTo(pocs, |pocs|)|)
  {
    hide ProperRules, AllAdded, Shows, OneEach, EntriesOf, ClientsUpTo, Snapshot, PartOf, Distinct, HasReason,
      AllExplained;
    var clients, table := ByClient(pocs);
    ClientsMembers(pocs, |pocs|);
    out, parts := [], map[];
    for k := 0 to |clients|
      invariant forall i :: 0 <= i < |clients| ==> (clients[i] in parts <==> i < k)
      invariant forall c :: c in parts ==>
                PartOf(parts[c], EntriesOf(pocs, c), c, rules, old(Snapshot(EntriesOf(pocs, c))), old(Said(pocs)))
      invariant forall c, p :: c in parts && p in parts[c] ==> p in EntriesOf(pocs, c) || fresh(p)
      invariant forall p :: p in pocs && p.clientId !in parts ==>
        p.installationStatus == old(p.installationStatus) && p.actionRequest == old(p.actionRequest)
      invariant out == Joined(parts, clients, k)
    {
      var client := clients[k];
      var entries := table[client];
      EntriesAreMembers(pocs, client);
      OtherClients(clients, k);
      SnapshotKept(entries);
      forall c | c in parts ensures forall p :: p in parts[c] ==> p !in entries {
        Apart(parts[c], EntriesOf(pocs, c), c, rules, old(Snapshot(EntriesOf(pocs, c))), old(Said(pocs)), entries,
              client);
      }
      var part := AddForClient(client, entries, rules, old(Said(pocs)));
      PartMade(part, entries, client, rules, old(Snapshot(entries)), old(Said(pocs)));
      JoinedSame(parts, clients, k, client, part);
      out := out + part;
      parts := parts[client := part];
    }
  }

  /** The parts follow each other in the order of the clients. */
  lemma {:induction false} JoinedInOrder(parts: map<Id, seq<ProductOnClient>>, clients: seq<Id>, k: nat, a: nat, b: nat,
                                         p: ProductOnClient, q: ProductOnClient)
    requires a < b < k <= |clients| && forall i :: 0 <= i < k ==> clients[i] in parts
    requires p in parts[clients[a]] && q in parts[clients[b]]
    ensures Precedes(Joined(parts, clients, k), p, q)
  {
    var before, part := Joined(parts, clients, k - 1), parts[clients[k - 1]];
    var s := before + part;
    if b < k - 1 {
      JoinedInOrder(parts, clients, k - 1, a, b, p, q);
      var i, j :| 0 <= i < j < |before| && before[i] == p && before[j] == q;
      assert s[i] == p && s[j] == q;
    } else {
      PartIsJoined(parts, clients, k - 1, a, p);
      var i :| 0 <= i < |before| && before[i] == p;
      var j :| 0 <= j < |part| && part[j] == q;
      assert s[i] == p && s[|before| + j] == q;
    }
  }

  lemma {:induction false} PartIsJoined(parts: map<Id, seq<ProductOnClient>>, clients: seq<Id>, k: nat, a: nat,
                                        p: ProductOnClient)
    requires a < k <= |clients| && (forall i :: 0 <= i < k ==> clients[i] in parts) && p in parts[clients[a]]
    ensures p in Joined(parts, clients, k)
  {
    if a == k - 1 {
    } else {
      PartIsJoined(parts, clients, k - 1, a, p);
    }
  }
}
