/** The per-symbol ring buffer: arrivals are appended, evictions come only from the front. */
module Ring {
  import opened Basics
  import opened Exchange

  function EvictOver(buf: seq<Diff>, capacity: nat): seq<Diff> {
    LastN(buf, capacity)
  }

  /** Drop stale diffs from the front, but never the last one left. */
  function EvictOld(buf: seq<Diff>, maxMillis: int, now: int): seq<Diff> {
    if |buf| > 1 && now - buf[0].eventTime > maxMillis then EvictOld(buf[1..], maxMillis, now) else buf
  }

  function Push(buf: seq<Diff>, d: Diff, capacity: nat, maxMillis: int, now: int): seq<Diff> {
    EvictOld(EvictOver(buf + [d], capacity), maxMillis, now)
  }

  lemma {:induction false} EvictOldIsSuffix(buf: seq<Diff>, maxMillis: int, now: int) returns (k: nat)
    ensures k <= |buf| && EvictOld(buf, maxMillis, now) == buf[k..] && (buf != [] ==> k < |buf|)
    ensures forall i :: 0 <= i < k ==> now - buf[i].eventTime > maxMillis
    ensures k + 1 < |buf| ==> now - buf[k].eventTime <= maxMillis
  {
    if |buf| > 1 && now - buf[0].eventTime > maxMillis {
      var j := EvictOldIsSuffix(buf[1..], maxMillis, now);
      k := j + 1;
    } else {
      k := 0;
    }
  }

  /** What survives a push is a suffix of the arrivals that ends with the new one (unless the capacity is
      zero), no longer than the capacity; whatever was evicted was over capacity or stale. */
  lemma PushIsSuffix(buf: seq<Diff>, d: Diff, capacity: nat, maxMillis: int, now: int) returns (k: nat)
    ensures k <= |buf| + 1 && Push(buf, d, capacity, maxMillis, now) == (buf + [d])[k..]
    ensures |buf| + 1 - k <= capacity && (capacity > 0 ==> k <= |buf|)
    ensures forall i :: |buf| + 1 - capacity <= i < k && 0 <= i ==> now - (buf + [d])[i].eventTime > maxMillis
    ensures |buf| + 1 - k > 1 ==> now - (buf + [d])[k].eventTime <= maxMillis
  {
    hide EvictOld;
    var full := buf + [d];
    var cut := SatSub(|full|, capacity);
    assert EvictOver(full, capacity) == full[cut..];
    var j := EvictOldIsSuffix(full[cut..], maxMillis, now);
    k := cut + j;
    DropTwice(full, cut, j);
    forall i | |buf| + 1 - capacity <= i < k && 0 <= i ensures now - full[i].eventTime > maxMillis {
      assert full[i] == full[cut..][i - cut];
    }
  }

  lemma DropTwice<T>(s: seq<T>, i: nat, j: nat)
    requires i + j <= |s|
    ensures s[i..][j..] == s[i + j..]
  {
  }

  class RingBuffer {
    var buffer: seq<Diff>
    const capacity: nat
    const maxSeconds: nat

    constructor (capacity: nat, maxSeconds: nat)
      ensures buffer == [] && this.capacity == capacity && this.maxSeconds == maxSeconds
    {
      buffer := [];
      this.capacity := capacity;
      this.maxSeconds := maxSeconds;
    }

    /** Append, then evict over capacity, then evict what is older than the window. */
    method BufferDepthUpdate(d: Diff, now: int)
      modifies this
      ensures buffer == Push(old(buffer), d, capacity, maxSeconds * 1000, now)
    {
      hide EvictOld;
      buffer := buffer + [d];
      ghost var full, cut := buffer, 0;
      while |buffer| > capacity
        invariant cut <= |full| && buffer == full[cut..] && (cut == 0 || |buffer| >= capacity)
      {
        DropTwice(full, cut, 1);
        buffer, cut := buffer[1..], cut + 1;
      }
      assert buffer == EvictOver(full, capacity);
      EvictWhileOld(now);
    }

    /** The age loop. */
    method EvictWhileOld(now: int)
      modifies this
      ensures buffer == EvictOld(old(buffer), maxSeconds * 1000, now)
    {
      while |buffer| > 1
        invariant EvictOld(buffer, maxSeconds * 1000, now) == EvictOld(old(buffer), maxSeconds * 1000, now)
        decreases |buffer|
      {
        if now - buffer[0].eventTime > maxSeconds * 1000 {
          buffer := buffer[1..];
        } else {
          break;
        }
      }
    }

    method Drain() returns (drained: seq<Diff>)
      modifies this
      ensures drained == old(buffer) && buffer == []
    {
      drained := buffer;
      buffer := [];
    }
  }
}
