/** Numbering the actions of every client in the order of the sorted products. */
module ClientSequence {
  import opened Collections
  import opened ProductsOnClients
  import opened EntriesByClient

  // ----- one client -----

  /** What has been taken out, and what is left, after the first k products of the sorted list. */
  ghost function Taken(entries: seq<ProductOnClient>, sorted: seq<Id>, k: nat)
    : (seq<ProductOnClient>, seq<ProductOnClient>)
    requires k <= |sorted|
  {
    if k == 0 then ([], entries)
    else
      var (taken, left) := Taken(entries, sorted, k - 1);
      var at := PlaceOf(left, sorted[k - 1]);
      if at >= 0 then (taken + [left[at]], Dropped(left, at)) else (taken, left)
  }

  /** The entries of a client in the order of their numbers; without any sorted product, none. */
  ghost function Arranged(entries: seq<ProductOnClient>, sorted: seq<Id>): seq<ProductOnClient> {
    if sorted == [] then []
    else
      var (taken, left) := Taken(entries, sorted, |sorted|);
      taken + left
  }

  ghost function ArrangedUpTo(pocs: seq<ProductOnClient>, sorted: seq<Id>, clients: seq<Id>, k: nat)
    : seq<ProductOnClient>
    requires k <= |clients|
  {
    if k == 0 then []
    else ArrangedUpTo(pocs, sorted, clients, k - 1) + Arranged(EntriesOf(pocs, clients[k - 1]), sorted)
  }

  /** The whole result. */
  ghost function Sequenced(pocs: seq<ProductOnClient>, sorted: seq<Id>): seq<ProductOnClient> {
    var clients := ClientsUpTo(pocs, |pocs|);
    ArrangedUpTo(pocs, sorted, clients, |clients|)
  }

  // ----- the code -----

  ghost predicate Numbered(out: seq<ProductOnClient>)
    reads out
  {
    forall i :: 0 <= i < |out| ==> out[i].actionSequence == i
  }

  /** Numbers one client's entries. */
  method Arrange(entries: seq<ProductOnClient>, sorted: seq<Id>) returns (out: seq<ProductOnClient>)
    requires Distinct(entries)
    modifies (set p | p in entries)`actionSequence
    ensures out == Arranged(entries, sorted)
    ensures Numbered(out) && forall p :: p in out ==> p in entries
  {
    hide Distinct, Split, Numbered, Arranged;
    out := [];
    var left := entries;
    NothingTaken(entries);
    for k := 0 to |sorted|
      invariant (out, left) == Taken(entries, sorted, k)
      invariant Split(entries, out, left) && Numbered(out)
    {
      var at := PlaceOf(left, sorted[k]);
      if at >= 0 {
        SplitMembers(entries, out, left);
        SplitDistinct(entries, out, left);
        SplitMove(entries, out, left, at);
        NumberNext(out, left[at]);
        out := out + [left[at]];
        left := Dropped(left, at);
      }
    }
    SplitMembers(entries, out, left);
    if sorted != [] {
      out := NumberRest(entries, out, left);
    }
    ArrangedByTaking(entries, sorted);
  }

  lemma NothingTaken(entries: seq<ProductOnClient>)
    ensures Split(entries, [], entries) && Numbered([])
  {
  }

  lemma ArrangedByTaking(entries: seq<ProductOnClient>, sorted: seq<Id>)
    ensures
      var (taken, left) := Taken(entries, sorted, |sorted|);
      Arranged(entries, sorted) == if sorted == [] then [] else taken + left
  {
  }

  method NumberNext(out: seq<ProductOnClient>, poc: ProductOnClient)
    requires Numbered(out) && poc !in out
    modifies poc`actionSequence
    ensures Numbered(out + [poc])
  {
    poc.actionSequence := |out|;
  }

  /** Entries whose product is not in the sorted list get the last numbers. */
  method NumberRest(ghost entries: seq<ProductOnClient>, taken: seq<ProductOnClient>, left: seq<ProductOnClient>)
    returns (out: seq<ProductOnClient>)
    requires Distinct(entries) && Split(entries, taken, left) && Numbered(taken)
    modifies (set p | p in left)`actionSequence
    ensures out == taken + left && Numbered(out)
  {
    SplitDistinct(entries, taken, left);
    out := taken;
    for k := 0 to |left|
      invariant out == taken + left[..k] && Numbered(out)
    {
      assert left[k] !in taken && left[k] !in left[..k];
      NumberNext(out, left[k]);
      assert left[..k + 1] == left[..k] + [left[k]];
      out := out + [left[k]];
    }
  }

  // ----- all clients -----

  ghost function CountUpTo(out: seq<ProductOnClient>, k: nat, client: Id): nat
    requires k <= |out|
  {
    if k == 0 then 0 else CountUpTo(out, k - 1, client) + if out[k - 1].clientId == client then 1 else 0
  }

  /** Every entry carries the number of entries of its client in front of it. */
  ghost predicate NumberedByClient(out: seq<ProductOnClient>)
    reads out
  {
    forall i :: 0 <= i < |out| ==> out[i].actionSequence == CountUpTo(out, i, out[i].clientId)
  }

  lemma {:induction false} CountPrefix(a: seq<ProductOnClient>, b: seq<ProductOnClient>, k: nat, client: Id)
    requires k <= |a|
    ensures CountUpTo(a + b, k, client) == CountUpTo(a, k, client)
  {
    if k == 0 {
    } else {
      CountPrefix(a, b, k - 1, client);
    }
  }

  lemma {:induction false} CountPart(a: seq<ProductOnClient>, part: seq<ProductOnClient>, k: nat, client: Id)
    requires k <= |part|
    requires (forall p :: p in a ==> p.clientId != client) && (forall p :: p in part ==> p.clientId == client)
    ensures CountUpTo(a + part, |a| + k, client) == k
  {
    if k > 0 {
      CountPart(a, part, k - 1, client);
      assert (a + part)[|a| + k - 1] == part[k - 1] && part[k - 1] in part;
    } else {
      CountPrefix(a, part, |a|, client);
      CountNone(a, |a|, client);
    }
  }

  lemma {:induction false} CountNone(a: seq<ProductOnClient>, k: nat, client: Id)
    requires k <= |a| && forall p :: p in a ==> p.clientId != client
    ensures CountUpTo(a, k, client) == 0
  {
    if k == 0 {
    } else {
      CountNone(a, k - 1, client);
      assert a[k - 1] in a;
    }
  }

  lemma PartNumbered(a: seq<ProductOnClient>, part: seq<ProductOnClient>, client: Id)
    requires NumberedByClient(a) && Numbered(part)
    requires (forall p :: p in a ==> p.clientId != client) && (forall p :: p in part ==> p.clientId == client)
    ensures NumberedByClient(a + part)
  {
    var out := a + part;
    forall i | 0 <= i < |out| ensures out[i].actionSequence == CountUpTo(out, i, out[i].clientId) {
      if i < |a| {
        CountPrefix(a, part, i, a[i].clientId);
      } else {
        assert part[i - |a|] in part;
        CountPart(a, part, i - |a|, client);
      }
    }
  }

  /** Appends one more client's entries. */
  method AppendClient(out: seq<ProductOnClient>, entries: seq<ProductOnClient>, sorted: seq<Id>, ghost client: Id)
    returns (longer: seq<ProductOnClient>)
    requires Distinct(entries) && NumberedByClient(out)
    requires (forall p :: p in out ==> p.clientId != client) && (forall p :: p in entries ==> p.clientId == client)
    modifies (set p | p in entries)`actionSequence
    ensures longer == out + Arranged(entries, sorted)
    ensures NumberedByClient(longer)
    ensures forall p :: p in longer ==> p in out || p in entries
  {
    hide Arranged;
    var part := Arrange(entries, sorted);
    PartNumbered(out, part, client);
    longer := out + part;
  }

  /** Arranges and numbers the entries of every client. */
  method GenerateProductOnClientSequence(pocs: seq<ProductOnClient>, sorted: seq<Id>)
    returns (out: seq<ProductOnClient>)
    modifies (set p | p in pocs)`actionSequence
    ensures out == Sequenced(pocs, sorted)
    ensures NumberedByClient(out)
  {
    var clients, table := ByClient(pocs);
    ClientsMembers(pocs, |pocs|);
    out := [];
    assert NumberedByClient(out) && OfFirst(out, clients, 0);
    hide Arranged, NumberedByClient, OfFirst, Survives, OneEach;
    for k := 0 to |clients|
      invariant out == ArrangedUpTo(pocs, sorted, clients, k)
      invariant NumberedByClient(out) && OfFirst(out, clients, k)
    {
      var client := clients[k];
      assert client in clients;
      ClientEntries(pocs, client);
      EntriesAreMembers(pocs, client);
      NotYet(out, clients, k);
      ghost var before := out;
      out := AppendClient(out, table[client], sorted, client);
      OneClientMore(before, out, clients, k);
    }
  }

  /** All entries are of the first k clients. */
  ghost predicate OfFirst(out: seq<ProductOnClient>, clients: seq<Id>, k: nat) {
    forall p :: p in out ==> exists i :: 0 <= i < k <= |clients| && clients[i] == p.clientId
  }

  lemma NotYet(out: seq<ProductOnClient>, clients: seq<Id>, k: nat)
    requires OfFirst(out, clients, k) && Distinct(clients) && k < |clients|
    ensures forall p :: p in out ==> p.clientId != clients[k]
  {
  }

  lemma OneClientMore(out: seq<ProductOnClient>, longer: seq<ProductOnClient>, clients: seq<Id>, k: nat)
    requires OfFirst(out, clients, k) && k < |clients|
    requires forall p :: p in longer ==> p in out || p.clientId == clients[k]
    ensures OfFirst(longer, clients, k + 1)
  {
  }

  // ----- nothing is lost or invented -----

  lemma {:induction false} TakenFacts(entries: seq<ProductOnClient>, sorted: seq<Id>, k: nat)
    requires k <= |sorted|
    ensures
      var (taken, left) := Taken(entries, sorted, k);
      && Split(entries, taken, left)
      && (forall p :: p in taken ==> InFirst(sorted, k, p.productId))
    decreases k
  {
    hide Split, InFirst, Dropped;
    if k == 0 {
      NothingTaken(entries);
    } else {
      TakenFacts(entries, sorted, k - 1);
      var (taken, left) := Taken(entries, sorted, k - 1);
      var at := PlaceOf(left, sorted[k - 1]);
      if at >= 0 { SplitMove(entries, taken, left, at); }
      forall p | p in Taken(entries, sorted, k).0 ensures InFirst(sorted, k, p.productId) {
        OneMoreFirst(sorted, k, p.productId);
      }
    }
  }

  lemma OneMoreFirst(sorted: seq<Id>, k: nat, id: Id)
    requires 0 < k <= |sorted|
    ensures InFirst(sorted, k, id) <==> InFirst(sorted, k - 1, id) || id == sorted[k - 1]
  {
    if i :| 0 <= i < k - 1 && sorted[i] == id {
      assert InFirst(sorted, k, id);
    }
  }

  ghost predicate InFirst(sorted: seq<Id>, k: nat, id: Id) {
    exists i :: 0 <= i < k <= |sorted| && sorted[i] == id
  }

  lemma DroppedFacts(left: seq<ProductOnClient>, at: nat)
    requires at < |left| && OneEach(left)
    ensures OneEach(Dropped(left, at))
    ensures forall p :: p in Dropped(left, at) ==> p in left && p.productId != left[at].productId
  {
    var now := Dropped(left, at);
    forall j | 0 <= j < |now| ensures now[j] == left[if j < at then j else j + 1] {}
  }

  /** What is left carries none of the products looked at, since each occurs once. */
  lemma {:induction false} LeftFacts(entries: seq<ProductOnClient>, sorted: seq<Id>, k: nat)
    requires k <= |sorted| && OneEach(entries)
    ensures forall p :: p in Taken(entries, sorted, k).1 ==> !InFirst(sorted, k, p.productId)
    ensures OneEach(Taken(entries, sorted, k).1)
    decreases k
  {
    hide OneEach, Dropped;
    if k == 0 {
    } else {
      LeftFacts(entries, sorted, k - 1);
      var (taken, left) := Taken(entries, sorted, k - 1);
      var at := PlaceOf(left, sorted[k - 1]);
      if at >= 0 { DroppedFacts(left, at); }
      forall p | p in Taken(entries, sorted, k).1 ensures !InFirst(sorted, k, p.productId) {
        assert p in left && p.productId != sorted[k - 1];
        assert !InFirst(sorted, k - 1, p.productId);
      }
    }
  }

  lemma ArrangedSplit(entries: seq<ProductOnClient>, sorted: seq<Id>)
    ensures sorted == [] ==> Arranged(entries, sorted) == []
    ensures sorted != [] ==> multiset(Arranged(entries, sorted)) == multiset(entries)
  {
    TakenFacts(entries, sorted, |sorted|);
  }

  lemma ArrangedMembers(entries: seq<ProductOnClient>, sorted: seq<Id>)
    requires sorted != []
    ensures forall p :: p in Arranged(entries, sorted) <==> p in entries
    ensures Distinct(entries) ==> Distinct(Arranged(entries, sorted))
  {
    ArrangedSplit(entries, sorted);
    var out := Arranged(entries, sorted);
    assert Split(entries, out, []);
    SplitMembers(entries, out, []);
    if Distinct(entries) { SplitDistinct(entries, out, []); }
  }

  ghost predicate OfClient(pocs: seq<ProductOnClient>, clients: seq<Id>, k: nat, p: ProductOnClient) {
    Survives(pocs, p) && exists i :: 0 <= i < k <= |clients| && clients[i] == p.clientId
  }

  lemma {:induction false} ArrangedUpToMembers(pocs: seq<ProductOnClient>, sorted: seq<Id>, clients: seq<Id>, k: nat)
    requires sorted != [] && Distinct(clients) && k <= |clients|
    ensures forall p :: p in ArrangedUpTo(pocs, sorted, clients, k) <==> OfClient(pocs, clients, k, p)
    ensures Distinct(ArrangedUpTo(pocs, sorted, clients, k))
  {
    hide Arranged, EntriesOf, Survives, OneEach;
    if k == 0 {
    } else {
      ArrangedUpToMembers(pocs, sorted, clients, k - 1);
      var client := clients[k - 1];
      ClientEntries(pocs, client);
      var before, part := ArrangedUpTo(pocs, sorted, clients, k - 1), Arranged(EntriesOf(pocs, client), sorted);
      ArrangedMembers(EntriesOf(pocs, client), sorted);
      forall p ensures p in before + part <==> OfClient(pocs, clients, k, p) {
        if OfClient(pocs, clients, k, p) && p.clientId != client {
          var i :| 0 <= i < k && clients[i] == p.clientId;
          assert OfClient(pocs, clients, k - 1, p);
        }
      }
      forall p | p in before ensures p !in part {
        assert OfClient(pocs, clients, k - 1, p);
        var i :| 0 <= i < k - 1 && clients[i] == p.clientId;
      }
      ConcatDistinct(before, part);
    }
  }

  /** For a non-empty sorted list the result holds, each once, the last entry of every key. */
  lemma SequencedMembers(pocs: seq<ProductOnClient>, sorted: seq<Id>)
    requires sorted != []
    ensures forall p :: p in Sequenced(pocs, sorted) <==> Survives(pocs, p)
    ensures Distinct(Sequenced(pocs, sorted))
  {
    hide Survives;
    var clients := ClientsUpTo(pocs, |pocs|);
    ClientsMembers(pocs, |pocs|);
    ArrangedUpToMembers(pocs, sorted, clients, |clients|);
    forall p | Survives(pocs, p) ensures OfClient(pocs, clients, |clients|, p) {
      KeptIsMember(pocs, p);
      var i :| 0 <= i < |clients| && clients[i] == p.clientId;
    }
  }

  lemma SequencedIsKept(pocs: seq<ProductOnClient>, sorted: seq<Id>, p: ProductOnClient)
    requires p in Sequenced(pocs, sorted)
    ensures Survives(pocs, p)
  {
    if sorted == [] {
      NothingSequenced(pocs);
    } else {
      SequencedMembers(pocs, sorted);
    }
  }

  lemma NothingSequenced(pocs: seq<ProductOnClient>)
    ensures Sequenced(pocs, []) == []
  {
    var clients := ClientsUpTo(pocs, |pocs|);
    NothingKept(pocs, clients, |clients|);
  }

  /** Sequencing keeps every entry exactly when no key occurs twice and the sorted list is not empty
      (or there is nothing to keep): with an empty list everything is dropped, and of several
      entries with one key all but the last. */
  lemma NothingLost(pocs: seq<ProductOnClient>, sorted: seq<Id>)
    ensures multiset(Sequenced(pocs, sorted)) == multiset(pocs) <==> (sorted != [] && DistinctKeys(pocs)) || pocs == []
  {
    var out := Sequenced(pocs, sorted);
    if sorted == [] {
      NothingSequenced(pocs);
      if pocs != [] { assert pocs[0] in multiset(pocs); }
    } else {
      SequencedMembers(pocs, sorted);
      if DistinctKeys(pocs) {
        AllSequenced(pocs, out);
      } else if multiset(out) == multiset(pocs) {
        assert Split(out, pocs, []);
        SplitDistinct(out, pocs, []);
        SplitMembers(out, pocs, []);
        DuplicateLost(pocs);
      }
    }
  }

  lemma AllSequenced(pocs: seq<ProductOnClient>, out: seq<ProductOnClient>)
    requires DistinctKeys(pocs) && Distinct(out) && forall p :: p in out <==> Survives(pocs, p)
    ensures multiset(out) == multiset(pocs)
  {
    forall p ensures p in out <==> p in pocs {
      if p in pocs { DistinctAreKept(pocs, p); }
      if p in out { KeptIsMember(pocs, p); }
    }
    assert Distinct(pocs);
    DistinctMultiset(out);
    DistinctMultiset(pocs);
    assert Elements(out) == Elements(pocs);
  }

  /** If a key occurs twice, not all entries are kept. */
  lemma DuplicateLost(pocs: seq<ProductOnClient>)
    requires Distinct(pocs) && !DistinctKeys(pocs)
    ensures exists p :: p in pocs && !Survives(pocs, p)
  {
    var i, j :| 0 <= i < j < |pocs| && SameKey(pocs[i], pocs[j]);
    assert SameKey(pocs[i], pocs[j]) && pocs[i] in pocs;
    forall m: nat ensures !LastAt(pocs, |pocs|, m, pocs[i]) {
      assert SameKey(pocs[j], pocs[i]);
    }
  }

  lemma {:induction false} NothingKept(pocs: seq<ProductOnClient>, clients: seq<Id>, k: nat)
    requires k <= |clients|
    ensures ArrangedUpTo(pocs, [], clients, k) == []
  {
    if k == 0 {
    } else {
      NothingKept(pocs, clients, k - 1);
    }
  }

  // ----- the order is that of the sorted list -----

  lemma {:induction false} TakenPrefix(entries: seq<ProductOnClient>, sorted: seq<Id>, k: nat, m: nat)
    requires k <= m <= |sorted|
    ensures Taken(entries, sorted, k).0 <= Taken(entries, sorted, m).0
    decreases m
  {
    if k == m {
    } else {
      TakenPrefix(entries, sorted, k, m - 1);
    }
  }

  lemma NotAmongFirst(sorted: seq<Id>, j: nat)
    requires Distinct(sorted) && j < |sorted|
    ensures !InFirst(sorted, j, sorted[j])
  {
  }

  /** If a stands before b in the sorted list, a's entry comes before b's. */
  lemma ArrangedHonours(entries: seq<ProductOnClient>, sorted: seq<Id>, p: ProductOnClient, q: ProductOnClient)
    requires OneEach(entries) && Distinct(sorted) && p in entries && q in entries
    requires Precedes(sorted, p.productId, q.productId)
    ensures Precedes(Arranged(entries, sorted), p, q)
  {
    hide Distinct, OneEach, Split, Taken, Arranged;
    var i, j :| 0 <= i < j < |sorted| && sorted[i] == p.productId && sorted[j] == q.productId;
    var (taken, left) := Taken(entries, sorted, j);
    TakenFacts(entries, sorted, j);
    LeftFacts(entries, sorted, j);
    SplitMembers(entries, taken, left);
    assert InFirst(sorted, j, p.productId) && p in taken;
    NotAmongFirst(sorted, j);
    assert q !in taken;
    TakenPrefix(entries, sorted, j, |sorted|);
    ArrangedMembers(entries, sorted);
    ArrangedByTaking(entries, sorted);
    var out := Arranged(entries, sorted);
    var (all, rest) := Taken(entries, sorted, |sorted|);
    assert out == all + rest && taken <= out;
    var x :| 0 <= x < |taken| && taken[x] == p;
    assert q in out;
    var y :| 0 <= y < |out| && out[y] == q;
    assert out[x] == p;
    assert forall z :: 0 <= z < |taken| ==> out[z] == taken[z] && taken[z] != q;
  }

  lemma {:induction false} ArrangedUpToHonours(pocs: seq<ProductOnClient>, sorted: seq<Id>, clients: seq<Id>, k: nat,
                                               p: ProductOnClient, q: ProductOnClient)
    requires Distinct(sorted) && k <= |clients| && Survives(pocs, p) && Survives(pocs, q)
    requires p.clientId == q.clientId && Precedes(sorted, p.productId, q.productId)
    requires exists i :: 0 <= i < k && clients[i] == p.clientId
    ensures Precedes(ArrangedUpTo(pocs, sorted, clients, k), p, q)
  {
    hide Arranged, EntriesOf, Survives, OneEach, Distinct;
    var before := ArrangedUpTo(pocs, sorted, clients, k - 1);
    var part := Arranged(EntriesOf(pocs, clients[k - 1]), sorted);
    if clients[k - 1] == p.clientId {
      ClientEntries(pocs, p.clientId);
      ArrangedHonours(EntriesOf(pocs, p.clientId), sorted, p, q);
      var x, y :| 0 <= x < y < |part| && part[x] == p && part[y] == q;
      assert (before + part)[|before| + x] == p && (before + part)[|before| + y] == q;
    } else {
      ArrangedUpToHonours(pocs, sorted, clients, k - 1, p, q);
      var x, y :| 0 <= x < y < |before| && before[x] == p && before[y] == q;
      assert (before + part)[x] == p && (before + part)[y] == q;
    }
  }

  /** On one client, the order of the sorted list is the order of the result. */
  lemma SequencedHonours(pocs: seq<ProductOnClient>, sorted: seq<Id>, p: ProductOnClient, q: ProductOnClient)
    requires Distinct(sorted) && Survives(pocs, p) && Survives(pocs, q)
    requires p.clientId == q.clientId && Precedes(sorted, p.productId, q.productId)
    ensures Precedes(Sequenced(pocs, sorted), p, q)
  {
    var clients := ClientsUpTo(pocs, |pocs|);
    ClientsMembers(pocs, |pocs|);
    KeptIsMember(pocs, p);
    var i :| 0 <= i < |clients| && clients[i] == p.clientId;
    ArrangedUpToHonours(pocs, sorted, clients, |clients|, p, q);
  }

  // ----- the numbers -----

  lemma {:induction false} CountGrows(out: seq<ProductOnClient>, i: nat, j: nat)
    requires i < j <= |out|
    ensures CountUpTo(out, i, out[i].clientId) < CountUpTo(out, j, out[i].clientId)
    decreases j
  {
    if i == j - 1 {
    } else {
      CountGrows(out, i, j - 1);
    }
  }

  /** An entry in front of another one of the same client has the smaller number. */
  lemma SmallerNumber(out: seq<ProductOnClient>, p: ProductOnClient, q: ProductOnClient)
    requires NumberedByClient(out) && p.clientId == q.clientId && Precedes(out, p, q)
    ensures p.actionSequence < q.actionSequence
  {
    var i, j :| 0 <= i < j < |out| && out[i] == p && out[j] == q;
    CountGrows(out, i, j);
  }

  /** Every client gets exactly the numbers from 0 to one less than it has entries. */
  lemma {:induction false} NumbersAreExact(out: seq<ProductOnClient>, k: nat, client: Id, n: int)
    requires k <= |out|
    ensures 0 <= n < CountUpTo(out, k, client) <==>
            exists i :: 0 <= i < k && out[i].clientId == client && CountUpTo(out, i, client) == n
  {
    if k == 0 {
    } else {
      NumbersAreExact(out, k - 1, client, n);
      if i :| 0 <= i < k - 1 && out[i].clientId == client && CountUpTo(out, i, client) == n {
        assert 0 <= n < CountUpTo(out, k - 1, client);
      }
    }
  }

  /** The action sequences on every client are 0, 1, and so on, up to one less than it has entries. */
  ghost predicate NumbersFromZero(out: seq<ProductOnClient>)
    reads out
  {
    forall client, n :: HasNumber(out, client, n) <==> 0 <= n < CountUpTo(out, |out|, client)
  }

  ghost predicate HasNumber(out: seq<ProductOnClient>, client: Id, n: int)
    reads out
  {
    exists i :: 0 <= i < |out| && out[i].clientId == client && out[i].actionSequence == n
  }

  lemma AllNumbersFromZero(out: seq<ProductOnClient>)
    requires NumberedByClient(out)
    ensures NumbersFromZero(out)
  {
    forall client, n ensures HasNumber(out, client, n) <==> 0 <= n < CountUpTo(out, |out|, client) {
      NumbersAreExact(out, |out|, client, n);
      if 0 <= n < CountUpTo(out, |out|, client) {
        var i :| 0 <= i < |out| && out[i].clientId == client && CountUpTo(out, i, client) == n;
        assert out[i].actionSequence == n;
      }
    }
  }
}
