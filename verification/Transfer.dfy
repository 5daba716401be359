/** Copying a stream in pieces whose size the speed limiter keeps changing, and downloading a range
    of a file. */
module Transfer {
  import opened Collections

  /** A source of bytes. How many it hands out at a time is its own affair: at least one as long as
      there are any and some are asked for, possibly fewer or more than asked for. */
  class Reader {
    var remaining: seq<Byte>

    constructor (content: seq<Byte>)
      ensures remaining == content
    {
      remaining := content;
    }

    method Read(n: int) returns (buf: seq<Byte>)
      modifies this
      ensures old(remaining) == buf + remaining
      ensures n >= 1 && old(remaining) != [] ==> buf != []
    {
      buf := [];
      if n >= 1 && remaining != [] {
        var k :| 1 <= k <= |remaining|;
        buf := remaining[..k];
        remaining := remaining[k..];
      }
    }
  }

  class Writer {
    var content: seq<Byte>

    constructor ()
      ensures content == []
    {
      content := [];
    }

    method Write(buf: seq<Byte>)
      modifies this
      ensures content == old(content) + buf
    {
      content := content + buf;
    }
  }

  class SpeedLimiter {
    var dynamicLimiting: bool
    var maxBandwidth: int
    var minBufferSize: int
    var maxBufferSize: int
    var bandwidthSleepTime: real

    /** A bandwidth limit is never negative, and the time to sleep stays between 0 and 0.3 seconds. */
    ghost predicate Valid()
      reads this
    {
      && maxBandwidth >= 0 && 1 <= minBufferSize <= maxBufferSize
      && 0.0 <= bandwidthSleepTime <= 0.3
    }

    constructor ()
      ensures Valid()
    {
      dynamicLimiting := false;
      maxBandwidth := 0;
      minBufferSize := 16;
      maxBufferSize := 256 * 1024;
      bandwidthSleepTime := 0.0;
    }

    method SetBandwidth(maxBandwidth: int, dynamicLimiting: bool)
      requires Valid()
      modifies this
      ensures Valid() && this.maxBandwidth == (if maxBandwidth > 0 then maxBandwidth else 0)
      ensures this.dynamicLimiting == dynamicLimiting
    {
      this.dynamicLimiting := dynamicLimiting;
      this.maxBandwidth := if maxBandwidth > 0 then maxBandwidth else 0;
    }

    /** The size of the next piece; speed and dynamicLimit are what has been measured. */
    method Limit(received: int, speed: real, dynamicLimit: real) returns (bufferSize: int)
      requires Valid()
      modifies this
      ensures Valid() && maxBufferSize == old(maxBufferSize) && minBufferSize == old(minBufferSize)
      ensures received >= 1 ==> bufferSize >= 1
      ensures bufferSize <= maxBufferSize || bufferSize == received
    {
      if dynamicLimiting || maxBandwidth != 0 {
        bufferSize := LimitTo(received, speed, dynamicLimit);
      } else {
        bufferSize := maxBufferSize;
      }
    }

    method LimitTo(received: int, speed: real, dynamicLimit: real) returns (bufferSize: int)
      requires Valid()
      modifies this
      ensures Valid() && maxBufferSize == old(maxBufferSize) && minBufferSize == old(minBufferSize)
      ensures bufferSize == received || minBufferSize <= bufferSize <= maxBufferSize
    {
      var bwlimit := maxBandwidth as real;
      if dynamicLimiting {
        bwlimit := dynamicLimit;
        if maxBandwidth != 0 && (bwlimit <= 0.0 || bwlimit > maxBandwidth as real) {
          bwlimit := maxBandwidth as real;
        }
      }
      if bwlimit <= 0.0 {
        return maxBufferSize;
      }
      bufferSize := received;
      if speed > 0.0 {
        AdjustSleepTime(speed, bwlimit);
        if bandwidthSleepTime <= 0.0 {
          bandwidthSleepTime := 0.000001;
        }
        if bandwidthSleepTime <= 0.2 {
          bufferSize := (bufferSize as real * 1.03).Floor;
        } else if bandwidthSleepTime > 0.3 {
          bufferSize := (bufferSize as real / 1.1).Floor;
          bandwidthSleepTime := 0.3;
        }
        if bufferSize > maxBufferSize {
          bufferSize := maxBufferSize;
        } else if bufferSize < minBufferSize {
          bufferSize := minBufferSize;
        }
      } else {
        bandwidthSleepTime := 0.000001;
      }
    }

    /** Sleeps longer when too fast, shorter when too slow. */
    method AdjustSleepTime(speed: real, bwlimit: real)
      requires Valid() && speed > 0.0 && bwlimit > 0.0
      modifies `bandwidthSleepTime
      ensures speed > bwlimit ==> bandwidthSleepTime > old(bandwidthSleepTime)
      ensures speed <= bwlimit ==> bandwidthSleepTime < old(bandwidthSleepTime)
    {
      var time: real;
      if speed > bwlimit {
        var factor := speed / bwlimit;
        Ratio(speed, bwlimit);
        if factor < 1.001 {
          time := bandwidthSleepTime + 0.00007 * factor;
        } else if factor < 1.01 {
          time := bandwidthSleepTime + 0.0007 * factor;
        } else {
          time := bandwidthSleepTime + 0.007 * factor;
        }
      } else {
        var factor := bwlimit / speed;
        Ratio(bwlimit, speed);
        if factor < 1.001 {
          time := bandwidthSleepTime - 0.00006 * factor;
        } else if factor < 1.01 {
          time := bandwidthSleepTime - 0.0006 * factor;
        } else {
          time := bandwidthSleepTime - 0.006 * factor;
        }
      }
      bandwidthSleepTime := (time + bandwidthSleepTime) / 2.0;
    }
  }

  lemma Ratio(a: real, b: real)
    requires a > 0.0 && b > 0.0
    ensures a / b > 0.0
  {
  }

  lemma Piece(available: seq<Byte>, used: nat, buf: seq<Byte>, rest: seq<Byte>)
    requires used <= |available| && available[used..] == buf + rest
    ensures used + |buf| <= |available| && rest == available[used + |buf|..]
    ensures forall k :: 0 <= k <= |buf| ==> available[..used] + buf[..k] == available[..used + k]
    ensures available[..used] + buf == available[..used + |buf|]
  {
    assert available == available[..used] + (buf + rest);
    assert buf[..|buf|] == buf;
  }

  /** How many bytes a transfer of the given size takes out of what is available. */
  function TransferSize(size: int, available: nat): nat {
    if size <= 0 then 0 else if size <= available then size else available
  }

  class Repository {
    var bufferSize: int
    var bytesTransfered: int
    const limiter: SpeedLimiter

    ghost predicate Valid()
      reads this, limiter
    {
      limiter.Valid() && bufferSize >= 1
    }

    constructor ()
      ensures Valid() && fresh(limiter)
    {
      bufferSize := 32 * 1000;
      bytesTransfered := 0;
      limiter := new SpeedLimiter();
    }

    /** Whatever the reader and the limiter do, exactly the first bytes are written: as many as asked
        for, or all there are. */
    method Transfer(src: Reader, dst: Writer, size: int) returns (count: int)
      requires Valid()
      modifies this, limiter, src, dst
      ensures Valid()
      ensures count == bytesTransfered == TransferSize(size, |old(src.remaining)|)
      ensures count == if size < 0 then 0 else if size > |old(src.remaining)| then |old(src.remaining)| else size
      ensures dst.content == old(dst.content) + old(src.remaining)[..count]
    {
      bytesTransfered := 0;
      var more := true;
      ghost var available := src.remaining;
      ghost var before := dst.content;
      ghost var used := 0;
      while more && bytesTransfered < size
        invariant Valid()
        invariant 0 <= bytesTransfered <= used <= |available| && src.remaining == available[used..]
        invariant bytesTransfered <= size || bytesTransfered == 0
        invariant used != bytesTransfered ==> bytesTransfered == size
        invariant dst.content == before + available[..bytesTransfered]
        invariant !more ==> used == |available|
        decreases |src.remaining|, more
      {
        var remainingBytes := size - bytesTransfered;
        var buf;
        ghost var left := src.remaining;
        if 0 < remainingBytes < bufferSize {
          buf := src.Read(remainingBytes);
        } else {
          buf := src.Read(bufferSize);
        }
        var read := |buf|;
        more := read > 0;
        Piece(available, used, buf, src.remaining);
        used := used + read;
        if read > 0 {
          if bytesTransfered + read > size {
            buf := buf[..size - bytesTransfered];
            read := |buf|;
          }
          assert before + available[..bytesTransfered] + buf == before + (available[..bytesTransfered] + buf);
          bytesTransfered := bytesTransfered + read;
          dst.Write(buf);
          var speed: real := *;
          var dynamicLimit: real := *;
          bufferSize := limiter.Limit(read, speed, dynamicLimit);
        }
      }
      return bytesTransfered;
    }

    /** Downloads the bytes from number start up to and including number end; -1 stands for the
        beginning or the end of the file. */
    method Download(remote: seq<Byte>, start: int, end: int) returns (content: seq<Byte>)
      requires Valid()
      modifies this, limiter
      ensures Valid() && content == Range(remote, start, end)
    {
      var size := |remote|;
      if end > -1 {
        size := end + 1;
      }
      if start > -1 {
        size := size - start;
      }
      var first := if start > -1 then (if start < |remote| then start else |remote|) else 0;
      var src := new Reader(remote[first..]);
      var dst := new Writer();
      var count := Transfer(src, dst, size);
      content := dst.content;
    }
  }

  /** The bytes of a range, as far as they exist. */
  function Range(remote: seq<Byte>, start: int, end: int): seq<Byte> {
    var from := if start > -1 then start else 0;
    var to := if end > -1 && end < |remote| then end + 1 else |remote|;
    if from < to then remote[from..to] else []
  }

  /** Exactly the bytes from number start up to and including number end, as far as there are any. */
  lemma RangeBytes(remote: seq<Byte>, start: int, end: int)
    requires start >= -1 && end >= -1
    ensures
      var from, range := if start == -1 then 0 else start, Range(remote, start, end);
      var last := if end == -1 || end >= |remote| then |remote| - 1 else end;
      && |range| == (if from <= last then last - from + 1 else 0)
      && (forall n :: from <= n < from + |range| ==> range[n - from] == remote[n])
  {
  }

  /** A file fetched in two parts, split at k, is the whole file, unless it is split at 0 without
      being empty: an end before the first byte stands for the whole file. */
  lemma PartsMakeWhole(remote: seq<Byte>, k: nat)
    ensures Range(remote, -1, k - 1) + Range(remote, k, -1) == remote <==> k > 0 || remote == []
  {
    if k == 0 { assert |Range(remote, -1, -1) + Range(remote, 0, -1)| == |remote| + |remote|; }
  }

  /** Resuming with a correct beginning gives the whole, and fetches only the rest. */
  lemma ResumeMakesWhole(remote: seq<Byte>, local: seq<Byte>)
    requires local <= remote
    ensures local + Range(remote, |local|, -1) == remote
    ensures |Range(remote, |local|, -1)| == |remote| - |local|
  {
  }
}
