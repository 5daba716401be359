/** The laws of the order in which actions are numbered, told of the entries and the sorted list alone. */
module ClientLaws {
  import opened Collections
  import opened ProductsOnClients
  import opened EntriesByClient
  import opened ClientSequence

  /** The first entry of client c stands in front of any of client d. */
  ghost predicate ClientFirst(pocs: seq<ProductOnClient>, k: nat, c: Id, d: Id) {
    exists i :: 0 <= i < k <= |pocs| && pocs[i].clientId == c && forall j :: 0 <= j <= i ==> pocs[j].clientId != d
  }

  ghost predicate HasKey(poc: ProductOnClient, client: Id, product: Id) {
    poc.clientId == client && poc.productId == product
  }

  /** On one client, the first entry for product a stands in front of any for product b. */
  ghost predicate ProductFirst(pocs: seq<ProductOnClient>, k: nat, client: Id, a: Id, b: Id) {
    exists i :: 0 <= i < k <= |pocs| && HasKey(pocs[i], client, a)
                && forall j :: 0 <= j <= i ==> !HasKey(pocs[j], client, b)
  }

  /** In the sorted list a occurs in front of any b, or b does not occur. */
  ghost predicate ListedFirst(sorted: seq<Id>, a: Id, b: Id) {
    exists i :: 0 <= i < |sorted| && sorted[i] == a && forall j :: 0 <= j <= i ==> sorted[j] != b
  }

  /** p has to come before q: its client came first; or on one client its product is listed first; or
      neither product is listed and its product came first. */
  ghost predicate GoesFirst(pocs: seq<ProductOnClient>, sorted: seq<Id>, p: ProductOnClient, q: ProductOnClient) {
    || ClientFirst(pocs, |pocs|, p.clientId, q.clientId)
    || (p.clientId == q.clientId && ListedFirst(sorted, p.productId, q.productId))
    || (p.clientId == q.clientId && p.productId !in sorted && q.productId !in sorted
        && ProductFirst(pocs, |pocs|, p.clientId, p.productId, q.productId))
  }

  /** Every two entries stand in the order they have to, and on one client have numbers in this order. */
  ghost predicate SequenceLawful(pocs: seq<ProductOnClient>, sorted: seq<Id>, out: seq<ProductOnClient>) {
    forall p, q :: p in out && q in out && GoesFirst(pocs, sorted, p, q) ==> Precedes(out, p, q)
  }

  // ----- the dictionaries -----

  /** Which products a client's dictionary has. */
  lemma {:induction false} ProductsOfEntries(pocs: seq<ProductOnClient>, k: nat, client: Id, product: Id)
    requires k <= |pocs|
    ensures (exists e :: e in EntriesUpTo(pocs, k, client) && e.productId == product) <==>
            exists i :: 0 <= i < k && HasKey(pocs[i], client, product)
  {
    hide Put, Last, OneEach;
    EntriesMembers(pocs, k, client);
    if e :| e in EntriesUpTo(pocs, k, client) && e.productId == product {
      LastIsThere(pocs, k, e);
    }
    if i :| 0 <= i < k && HasKey(pocs[i], client, product) {
      var p := LastOfKey(pocs, k, i);
      assert p in EntriesUpTo(pocs, k, client) && p.productId == product;
    }
  }

  lemma LastIsThere(pocs: seq<ProductOnClient>, k: nat, p: ProductOnClient)
    requires Last(pocs, k, p)
    ensures exists i :: 0 <= i < k && HasKey(pocs[i], p.clientId, p.productId)
  {
    var i: nat :| LastAt(pocs, k, i, p);
    assert HasKey(pocs[i], p.clientId, p.productId);
  }

  /** Whatever key occurs has a last entry. */
  lemma {:induction false} LastOfKey(pocs: seq<ProductOnClient>, k: nat, i: nat) returns (p: ProductOnClient)
    requires i < k <= |pocs|
    ensures Last(pocs, k, p) && SameKey(p, pocs[i])
  {
    if SameKey(pocs[k - 1], pocs[i]) {
      p := pocs[k - 1];
      assert LastAt(pocs, k, k - 1, p);
    } else {
      p := LastOfKey(pocs, k - 1, i);
      LastStep(pocs, k, p);
    }
  }

  /** Products stand in a dictionary in the order in which they first came. */
  lemma {:induction false} EntriesInOrder(pocs: seq<ProductOnClient>, k: nat, client: Id, x: nat, y: nat)
    requires k <= |pocs| && x < |EntriesUpTo(pocs, k, client)| && y < |EntriesUpTo(pocs, k, client)|
    requires
      var entries := EntriesUpTo(pocs, k, client);
      ProductFirst(pocs, k, client, entries[x].productId, entries[y].productId)
    ensures x < y
  {
    if k == 0 {
    } else {
      var before, entries, last := EntriesUpTo(pocs, k - 1, client), EntriesUpTo(pocs, k, client), pocs[k - 1];
      var a, b := entries[x].productId, entries[y].productId;
      var i :| 0 <= i < k && HasKey(pocs[i], client, a) && forall j :: 0 <= j <= i ==> !HasKey(pocs[j], client, b);
      assert entries[y] in entries && entries[x] in entries;
      ProductsOfEntries(pocs, k, client, b);
      ProductsOfEntries(pocs, k - 1, client, a);
      if i < k - 1 {
        assert ProductFirst(pocs, k - 1, client, a, b);
        StaysInPlace(before, last);
        if y < |before| && x < |before| { EntriesInOrder(pocs, k - 1, client, x, y); }
      }
    }
  }

  /** A new entry comes last, or takes the place of the one with its product. */
  lemma StaysInPlace(entries: seq<ProductOnClient>, poc: ProductOnClient)
    ensures
      var after := Put(entries, poc);
      && |entries| <= |after| <= |entries| + 1
      && (forall m :: 0 <= m < |entries| ==> after[m].productId == entries[m].productId)
      && (|after| == |entries| + 1 ==>
            after[|entries|] == poc && forall e :: e in entries ==> e.productId != poc.productId)
  {
  }

  lemma {:induction false} ClientsInOrder(pocs: seq<ProductOnClient>, k: nat, c: Id, d: Id)
    requires k <= |pocs| && ClientFirst(pocs, k, c, d) && d in ClientsUpTo(pocs, k)
    ensures Precedes(ClientsUpTo(pocs, k), c, d)
  {
    var i :| 0 <= i < k && pocs[i].clientId == c && forall j :: 0 <= j <= i ==> pocs[j].clientId != d;
    ClientsMembers(pocs, k);
    ClientsMembers(pocs, k - 1);
    var before, clients := ClientsUpTo(pocs, k - 1), ClientsUpTo(pocs, k);
    assert HasClient(pocs, k, d);
    if i < k - 1 {
      assert HasClient(pocs, k - 1, c);
      if d in before {
        assert ClientFirst(pocs, k - 1, c, d);
        ClientsInOrder(pocs, k - 1, c, d);
        var x, y :| 0 <= x < y < |before| && before[x] == c && before[y] == d;
        assert clients[x] == c && clients[y] == d;
      } else {
        var x :| 0 <= x < |before| && before[x] == c;
        assert clients == before + [d] && clients[x] == c && clients[|before|] == d;
      }
    }
  }

  // ----- one client -----

  /** Listed products first: p's product is among the first k of the list, and q's is not. */
  lemma ArrangedByList(entries: seq<ProductOnClient>, sorted: seq<Id>, k: nat, p: ProductOnClient, q: ProductOnClient)
    requires OneEach(entries) && p in entries && q in entries && k <= |sorted|
    requires InFirst(sorted, k, p.productId) && !InFirst(sorted, k, q.productId)
    ensures Precedes(Arranged(entries, sorted), p, q)
  {
    hide Distinct, OneEach, Split, Taken, Arranged;
    var (taken, left) := Taken(entries, sorted, k);
    TakenFacts(entries, sorted, k);
    LeftFacts(entries, sorted, k);
    SplitMembers(entries, taken, left);
    assert p in taken && q !in taken;
    TakenPrefix(entries, sorted, k, |sorted|);
    ArrangedMembers(entries, sorted);
    ArrangedByTaking(entries, sorted);
    var out := Arranged(entries, sorted);
    var (all, rest) := Taken(entries, sorted, |sorted|);
    assert out == all + rest && taken <= out;
    var x :| 0 <= x < |taken| && taken[x] == p;
    assert q in out;
    var y :| 0 <= y < |out| && out[y] == q;
    assert out[x] == p;
    assert forall z :: 0 <= z < |taken| ==> out[z] == taken[z] && taken[z] != q;
  }

  lemma DroppedOrder(s: seq<ProductOnClient>, at: nat, p: ProductOnClient, q: ProductOnClient)
    requires at < |s| && Precedes(s, p, q) && p in Dropped(s, at) && q in Dropped(s, at) && OneEach(s)
    ensures Precedes(Dropped(s, at), p, q)
  {
    hide OneEach;
    var i, j :| 0 <= i < j < |s| && s[i] == p && s[j] == q;
    var x := PlaceAfter(s, at, i);
    var y := PlaceAfter(s, at, j);
  }

  lemma PlaceAfter(s: seq<ProductOnClient>, at: nat, i: nat) returns (x: nat)
    requires at < |s| && i < |s| && OneEach(s) && s[i] in Dropped(s, at)
    ensures x == (if i < at then i else i - 1) && x < |Dropped(s, at)| && Dropped(s, at)[x] == s[i] && i != at
  {
    hide Dropped;
    DroppedFacts(s, at);
    assert i != at;
    x := if i < at then i else i - 1;
    DroppedAt(s, at, x);
  }

  lemma DroppedAt(s: seq<ProductOnClient>, at: nat, x: nat)
    requires at < |s| && x < |s| - 1
    ensures |Dropped(s, at)| == |s| - 1 && Dropped(s, at)[x] == s[if x < at then x else x + 1]
  {
  }

  /** What has not been taken keeps its order. */
  lemma {:induction false} LeftInOrder(entries: seq<ProductOnClient>, sorted: seq<Id>, k: nat, p: ProductOnClient,
                                       q: ProductOnClient)
    requires k <= |sorted| && OneEach(entries) && Precedes(entries, p, q)
    requires p in Taken(entries, sorted, k).1 && q in Taken(entries, sorted, k).1
    ensures Precedes(Taken(entries, sorted, k).1, p, q)
    decreases k
  {
    hide OneEach, Precedes, Dropped;
    if k == 0 {
    } else {
      var left := Taken(entries, sorted, k - 1).1;
      var at := PlaceOf(left, sorted[k - 1]);
      LeftFacts(entries, sorted, k - 1);
      if at >= 0 {
        DroppedFacts(left, at);
        LeftInOrder(entries, sorted, k - 1, p, q);
        DroppedOrder(left, at, p, q);
      } else {
        LeftInOrder(entries, sorted, k - 1, p, q);
      }
    }
  }

  /** Entries without a listed product keep the order of the dictionary. */
  lemma ArrangedUnlisted(entries: seq<ProductOnClient>, sorted: seq<Id>, p: ProductOnClient, q: ProductOnClient)
    requires sorted != [] && OneEach(entries) && Precedes(entries, p, q)
    requires p.productId !in sorted && q.productId !in sorted
    ensures Precedes(Arranged(entries, sorted), p, q)
  {
    hide OneEach, Split;
    var (taken, left) := Taken(entries, sorted, |sorted|);
    TakenFacts(entries, sorted, |sorted|);
    SplitMembers(entries, taken, left);
    assert p in entries && q in entries;
    assert p !in taken && q !in taken;
    LeftInOrder(entries, sorted, |sorted|, p, q);
    var i, j :| 0 <= i < j < |left| && left[i] == p && left[j] == q;
    var out := Arranged(entries, sorted);
    assert out[|taken| + i] == p && out[|taken| + j] == q;
  }

  // ----- all clients -----

  /** What holds within a part holds in the whole, and parts follow each other in the order of the clients. */
  lemma {:induction false} PartsInOrder(pocs: seq<ProductOnClient>, sorted: seq<Id>, clients: seq<Id>, k: nat,
                                        a: nat, b: nat, p: ProductOnClient, q: ProductOnClient)
    requires a <= b < k <= |clients|
    requires
      var first, second := Arranged(EntriesOf(pocs, clients[a]), sorted), Arranged(EntriesOf(pocs, clients[b]), sorted);
      if a == b then Precedes(first, p, q) else p in first && q in second
    ensures Precedes(ArrangedUpTo(pocs, sorted, clients, k), p, q)
  {
    hide Arranged, EntriesOf;
    var before := ArrangedUpTo(pocs, sorted, clients, k - 1);
    var part := Arranged(EntriesOf(pocs, clients[k - 1]), sorted);
    var s := before + part;
    if b < k - 1 {
      PartsInOrder(pocs, sorted, clients, k - 1, a, b, p, q);
      var i, j :| 0 <= i < j < |before| && before[i] == p && before[j] == q;
      assert s[i] == p && s[j] == q;
    } else if a == b {
      var i, j :| 0 <= i < j < |part| && part[i] == p && part[j] == q;
      assert s[|before| + i] == p && s[|before| + j] == q;
    } else {
      PartIsThere(pocs, sorted, clients, k - 1, a, p);
      var i :| 0 <= i < |before| && before[i] == p;
      var j :| 0 <= j < |part| && part[j] == q;
      assert s[i] == p && s[|before| + j] == q;
    }
  }

  lemma {:induction false} PartIsThere(pocs: seq<ProductOnClient>, sorted: seq<Id>, clients: seq<Id>, k: nat, a: nat,
                                       p: ProductOnClient)
    requires a < k <= |clients| && p in Arranged(EntriesOf(pocs, clients[a]), sorted)
    ensures p in ArrangedUpTo(pocs, sorted, clients, k)
  {
    hide Arranged, EntriesOf;
    if a == k - 1 {
    } else {
      PartIsThere(pocs, sorted, clients, k - 1, a, p);
    }
  }

  /** Two entries of the result stand in the order they have to. */
  lemma PairInOrder(pocs: seq<ProductOnClient>, sorted: seq<Id>, p: ProductOnClient, q: ProductOnClient)
    requires sorted != [] && Survives(pocs, p) && Survives(pocs, q) && GoesFirst(pocs, sorted, p, q)
    ensures Precedes(Sequenced(pocs, sorted), p, q)
  {
    hide Survives, OneEach, Arranged, EntriesOf;
    var clients := ClientsUpTo(pocs, |pocs|);
    ClientsMembers(pocs, |pocs|);
    KeptIsMember(pocs, p);
    KeptIsMember(pocs, q);
    ClientEntries(pocs, p.clientId);
    ClientEntries(pocs, q.clientId);
    if ClientFirst(pocs, |pocs|, p.clientId, q.clientId) {
      ClientsInOrder(pocs, |pocs|, p.clientId, q.clientId);
      var a, b :| 0 <= a < b < |clients| && clients[a] == p.clientId && clients[b] == q.clientId;
      ArrangedMembers(EntriesOf(pocs, p.clientId), sorted);
      ArrangedMembers(EntriesOf(pocs, q.clientId), sorted);
      PartsInOrder(pocs, sorted, clients, |clients|, a, b, p, q);
    } else {
      OneClientInOrder(pocs, sorted, p, q);
      var a :| 0 <= a < |clients| && clients[a] == p.clientId;
      PartsInOrder(pocs, sorted, clients, |clients|, a, a, p, q);
    }
  }

  lemma OneClientInOrder(pocs: seq<ProductOnClient>, sorted: seq<Id>, p: ProductOnClient, q: ProductOnClient)
    requires sorted != [] && Survives(pocs, p) && Survives(pocs, q) && GoesFirst(pocs, sorted, p, q)
    requires !ClientFirst(pocs, |pocs|, p.clientId, q.clientId)
    ensures Precedes(Arranged(EntriesOf(pocs, p.clientId), sorted), p, q)
  {
    hide Survives, OneEach, Arranged;
    var entries := EntriesOf(pocs, p.clientId);
    ClientEntries(pocs, p.clientId);
    if ListedFirst(sorted, p.productId, q.productId) {
      var i :| 0 <= i < |sorted| && sorted[i] == p.productId && forall j :: 0 <= j <= i ==> sorted[j] != q.productId;
      ArrangedByList(entries, sorted, i + 1, p, q);
    } else {
      var x :| 0 <= x < |entries| && entries[x] == p;
      var y :| 0 <= y < |entries| && entries[y] == q;
      EntriesInOrder(pocs, |pocs|, p.clientId, x, y);
      ArrangedUnlisted(entries, sorted, p, q);
    }
  }

  /** The result obeys the laws. */
  lemma SequencedIsLawful(pocs: seq<ProductOnClient>, sorted: seq<Id>)
    ensures SequenceLawful(pocs, sorted, Sequenced(pocs, sorted))
  {
    var out := Sequenced(pocs, sorted);
    if sorted == [] {
      NothingSequenced(pocs);
    } else {
      forall p, q | p in out && q in out && GoesFirst(pocs, sorted, p, q) ensures Precedes(out, p, q) {
        SequencedIsKept(pocs, sorted, p);
        SequencedIsKept(pocs, sorted, q);
        PairInOrder(pocs, sorted, p, q);
      }
    }
  }

  /** So on one client an entry with a listed product has a smaller number than one without, and of two
      without, the one whose product came first. */
  lemma NumbersOfUnlisted(pocs: seq<ProductOnClient>, sorted: seq<Id>, p: ProductOnClient, q: ProductOnClient)
    requires NumberedByClient(Sequenced(pocs, sorted)) && p.clientId == q.clientId
    requires p in Sequenced(pocs, sorted) && q in Sequenced(pocs, sorted)
    ensures p.productId in sorted && q.productId !in sorted ==> p.actionSequence < q.actionSequence
    ensures p.productId !in sorted && q.productId !in sorted
              && ProductFirst(pocs, |pocs|, p.clientId, p.productId, q.productId) ==>
              p.actionSequence < q.actionSequence
  {
    var out := Sequenced(pocs, sorted);
    SequencedIsLawful(pocs, sorted);
    if p.productId in sorted && q.productId !in sorted {
      var i :| 0 <= i < |sorted| && sorted[i] == p.productId;
      assert ListedFirst(sorted, p.productId, q.productId);
    }
    if GoesFirst(pocs, sorted, p, q) {
      assert Precedes(out, p, q);
      SmallerNumber(out, p, q);
    }
  }
}
