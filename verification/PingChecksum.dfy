/** The Internet checksum as ping computes it, on byte-swapped words, against the definition in
    sections 1 and 2 of RFC 1071. */
module PingChecksum {
  import opened Collections

  datatype ChecksumError = IndexError

  // ----- the definition: one's complement sum of big-endian words -----

  function OnesAdd(a: int, b: int): int {
    if a + b > 0xFFFF then a + b - 0xFFFF else a + b
  }

  /** The one's complement sum of the 16-bit words, a last odd byte being padded with zero. */
  function OnesSum(b: seq<Byte>): int {
    if b == [] then 0
    else if |b| == 1 then b[0] as int * 256
    else OnesAdd(b[0] as int * 256 + b[1], OnesSum(b[2..]))
  }

  function InternetChecksum(b: seq<Byte>): int {
    0xFFFF - OnesSum(b)
  }

  // ----- the code -----

  /** The plain sum of the words, low byte first, from the first count bytes. */
  function LittleSum(b: seq<Byte>, count: nat): int
    requires count <= |b| && count % 2 == 0
  {
    if count == 0 then 0 else LittleSum(b, count - 2) + b[count - 2] as int + 256 * (b[count - 1] as int)
  }

  /** The two folds. */
  function Folded(sum: int): int {
    var once := sum / 0x1_0000 + sum % 0x1_0000;
    (once + once / 0x1_0000) % 0x1_0000
  }

  function Swapped(x: int): int {
    x / 256 + x % 256 * 256
  }

  /** What is made of the sum, which is kept in 32 bits. */
  function SumToChecksum(sum: int): int {
    Swapped(0xFFFF - Folded(sum % 0x1_0000_0000))
  }

  /** Two bytes at a time; an odd number of bytes ends in an index error, since the number of bytes to
      take is computed by true division and so is not rounded down. Shifts and masks are written as
      divisions and remainders. */
  method Checksum(source: seq<Byte>) returns (r: Result<int, ChecksumError>)
    ensures r.Ok? <==> |source| % 2 == 0
    ensures r.Ok? ==> r.value == SumToChecksum(LittleSum(source, |source|))
  {
    var sum: int := 0;
    var countTo := |source|;
    var count := 0;
    while count < countTo
      invariant 0 <= count <= |source| && count % 2 == 0
      invariant sum == LittleSum(source, count) % 0x1_0000_0000
    {
      if count + 1 >= |source| {
        return Err(IndexError);
      }
      var thisVal := source[count + 1] as int * 256 + source[count] as int;
      WrappedSum(LittleSum(source, count), thisVal);
      sum := (sum + thisVal) % 0x1_0000_0000;
      count := count + 2;
    }
    var answer := FoldAndSwap(sum);
    return Ok(answer);
  }

  lemma WrappedSum(sum: int, more: int)
    ensures (sum % 0x1_0000_0000 + more) % 0x1_0000_0000 == (sum + more) % 0x1_0000_0000
  {
    var k := sum / 0x1_0000_0000;
    assert sum == k * 0x1_0000_0000 + sum % 0x1_0000_0000;
  }

  method FoldAndSwap(sum: int) returns (answer: int)
    requires 0 <= sum < 0x1_0000_0000
    ensures answer == Swapped(0xFFFF - Folded(sum))
  {
    var once := sum / 0x1_0000 + sum % 0x1_0000;
    var twice := once + once / 0x1_0000;
    answer := (-1 - twice) % 0x1_0000;
    ComplementOf(twice);
    SwapMask(answer);
    answer := answer / 256 + answer * 256 % 0x1_0000;
  }

  /** Complement and mask give the 16-bit complement. */
  lemma ComplementOf(x: int)
    requires x >= 0
    ensures (-1 - x) % 0x1_0000 == 0xFFFF - x % 0x1_0000
  {
  }

  lemma SwapMask(x: int)
    requires 0 <= x <= 0xFFFF
    ensures x / 256 + x * 256 % 0x1_0000 == Swapped(x)
  {
  }

  // ----- modulo 65535 -----

  /** The big-endian sum of the words among the first count bytes. */
  ghost function BigSum(b: seq<Byte>, count: nat): int
    requires count <= |b| && count % 2 == 0
  {
    if count == 0 then 0 else BigSum(b, count - 2) + 256 * (b[count - 2] as int) + b[count - 1] as int
  }

  /** Swapping the bytes of every word multiplies the sum by 256, modulo 65535. */
  lemma {:induction false} SwappedSums(b: seq<Byte>, count: nat) returns (k: int)
    requires count <= |b| && count % 2 == 0
    ensures BigSum(b, count) == 256 * LittleSum(b, count) - 0xFFFF * k
    ensures BigSum(b, count) == 0 <==> LittleSum(b, count) == 0
    ensures 0 <= BigSum(b, count) && 0 <= LittleSum(b, count) <= count / 2 * 0xFFFF
  {
    if count == 0 {
      k := 0;
    } else {
      var rest := SwappedSums(b, count - 2);
      k := rest + b[count - 1] as int;
    }
  }

  /** The one's complement sum is the plain sum modulo 65535, and 0 only for 0. */
  lemma {:induction false} OnesSumIsModular(b: seq<Byte>) returns (k: int)
    requires |b| % 2 == 0
    ensures 0 <= OnesSum(b) <= 0xFFFF
    ensures BigSum(b, |b|) == OnesSum(b) + 0xFFFF * k
    ensures OnesSum(b) == 0 <==> BigSum(b, |b|) == 0
    decreases |b|
  {
    if b == [] {
      k := 0;
    } else {
      var rest := OnesSumIsModular(b[2..]);
      BigSumFront(b, |b|);
      var word := b[0] as int * 256 + b[1] as int;
      k := if word + OnesSum(b[2..]) > 0xFFFF then rest + 1 else rest;
      var ignore := SwappedSums(b[2..], |b| - 2);
    }
  }

  lemma {:induction false} BigSumFront(b: seq<Byte>, count: nat)
    requires 2 <= count <= |b| && count % 2 == 0
    ensures BigSum(b, count) == 256 * (b[0] as int) + b[1] as int + BigSum(b[2..], count - 2)
  {
    if count <= 2 {
    } else {
      BigSumFront(b, count - 2);
      assert b[2..][count - 4] == b[count - 2] && b[2..][count - 3] == b[count - 1];
    }
  }

  /** So do the two folds, for a sum of 32 bits. */
  lemma FoldedIsModular(sum: int) returns (k: int)
    requires 0 <= sum < 0x1_0000_0000
    ensures 0 <= Folded(sum) <= 0xFFFF
    ensures sum == Folded(sum) + 0xFFFF * k
    ensures Folded(sum) == 0 <==> sum == 0
  {
    var high, low := sum / 0x1_0000, sum % 0x1_0000;
    assert sum == high * 0x1_0000 + low && 0 <= high < 0x1_0000;
    var once := high + low;
    k := if once >= 0x1_0000 then high + 1 else high;
  }

  lemma SwappedComplement(x: int) returns (k: int)
    requires 0 <= x <= 0xFFFF
    ensures Swapped(0xFFFF - x) == 0xFFFF - Swapped(x)
    ensures 0 <= Swapped(x) <= 0xFFFF && (Swapped(x) == 0 <==> x == 0)
    ensures Swapped(x) == 256 * x - 0xFFFF * k
  {
    var high, low := x / 256, x % 256;
    k := high;
    assert x == 256 * high + low && 0 <= high < 256;
    assert 0xFFFF - x == 256 * (255 - high) + (255 - low);
    assert (0xFFFF - x) / 256 == 255 - high && (0xFFFF - x) % 256 == 255 - low;
  }

  /** Two numbers of 16 bits that agree modulo 65535, and on being 0, are equal. */
  lemma SameModular(x: int, y: int, k: int)
    requires 0 <= x <= 0xFFFF && 0 <= y <= 0xFFFF && x - y == 0xFFFF * k
    requires x == 0 <==> y == 0
    ensures x == y
  {
  }

  lemma SumToChecksumSmall(sum: int)
    requires 0 <= sum < 0x1_0000_0000
    ensures SumToChecksum(sum) == Swapped(0xFFFF - Folded(sum))
  {
    hide Folded, Swapped;
    SmallRemainder(sum);
  }

  lemma SmallRemainder(sum: int)
    requires 0 <= sum < 0x1_0000_0000
    ensures sum % 0x1_0000_0000 == sum
  {
  }

  /** Byte order does not matter: summing swapped words and swapping the result gives the Internet
      checksum, as long as the sum has not outgrown its 32 bits. */
  lemma ByteOrderIndependence(b: seq<Byte>)
    requires |b| % 2 == 0 && LittleSum(b, |b|) < 0x1_0000_0000
    ensures SumToChecksum(LittleSum(b, |b|)) == InternetChecksum(b)
  {
    var little := LittleSum(b, |b|);
    var k1 := SwappedSums(b, |b|);
    var k2 := OnesSumIsModular(b);
    var k3 := FoldedIsModular(little);
    var f := Folded(little);
    var k4 := SwappedComplement(f);
    SumToChecksumSmall(little);
    hide LittleSum, BigSum, OnesSum, Folded, Swapped, SumToChecksum;
    SameModular(Swapped(f), OnesSum(b), k1 + k2 - 256 * k3 - k4);
  }

  // ----- which lengths are safe -----

  ghost predicate AlwaysRight(n: nat)
    requires n % 2 == 0
  {
    forall b: seq<Byte> :: |b| == n ==> SumToChecksum(LittleSum(b, n)) == InternetChecksum(b)
  }

  /** The first 131076 bytes are 255 and the rest 0: the sum wraps around once. */
  ghost function Overflowing(n: nat): seq<Byte> {
    seq(n, i => if i < 131076 then 255 else 0)
  }

  lemma {:induction false} OverflowingSum(n: nat, count: nat)
    requires count <= n && count % 2 == 0
    ensures LittleSum(Overflowing(n), count) == if count <= 131076 then count / 2 * 0xFFFF else 65538 * 0xFFFF
    ensures BigSum(Overflowing(n), count) == LittleSum(Overflowing(n), count)
  {
    if count == 0 {
    } else {
      OverflowingSum(n, count - 2);
    }
  }

  /** Every even number of bytes up to 131074 is safe, and no larger one is. */
  lemma SafeLengths(n: nat)
    requires n % 2 == 0
    ensures AlwaysRight(n) <==> n <= 131074
  {
    if n <= 131074 {
      forall b: seq<Byte> | |b| == n ensures SumToChecksum(LittleSum(b, n)) == InternetChecksum(b) {
        var k := SwappedSums(b, n);
        ByteOrderIndependence(b);
      }
    } else {
      var b := Overflowing(n);
      OverflowingSum(n, n);
      var k := OnesSumIsModular(b);
      assert LittleSum(b, n) % 0x1_0000_0000 == 65534;
      assert SumToChecksum(LittleSum(b, n)) == 256;
      assert OnesSum(b) == 0xFFFF by { SameModular(OnesSum(b), 0xFFFF, 65538 - k - 1); }
    }
  }

  // ----- the checksum in the packet -----

  function Stored(b: seq<Byte>, at: nat, checksum: int): seq<Byte>
    requires at + 1 < |b| && 0 <= checksum <= 0xFFFF
  {
    b[at := checksum / 256][at + 1 := checksum % 256]
  }

  lemma {:induction false} StoredSum(b: seq<Byte>, at: nat, checksum: int, count: nat)
    requires at + 1 < |b| && at % 2 == 0 && 0 <= checksum <= 0xFFFF && b[at] == b[at + 1] == 0
    requires count <= |b| && count % 2 == 0
    ensures BigSum(Stored(b, at, checksum), count) == BigSum(b, count) + if at < count then checksum else 0
  {
    if count == 0 {
    } else {
      StoredSum(b, at, checksum, count - 2);
    }
  }

  /** A packet that carries its own checksum, high byte first, in a field that was zero, has checksum 0. */
  lemma PacketChecksIn(b: seq<Byte>, at: nat)
    requires |b| % 2 == 0 && |b| <= 131074
    requires at % 2 == 0 && at + 1 < |b| && b[at] == b[at + 1] == 0
    ensures 0 <= InternetChecksum(b) <= 0xFFFF
    ensures SumToChecksum(LittleSum(Stored(b, at, InternetChecksum(b)), |b|)) == 0
  {
    var k := OnesSumIsModular(b);
    var packet := Stored(b, at, InternetChecksum(b));
    StoredSum(b, at, InternetChecksum(b), |b|);
    var k' := OnesSumIsModular(packet);
    var l := SwappedSums(packet, |packet|);
    ByteOrderIndependence(packet);
    var m := SwappedSums(b, |b|);
    SameModular(OnesSum(packet), 0xFFFF, k - k');
  }
}
