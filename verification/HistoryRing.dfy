/** The decoder's window (`src/decode/history.rs`): a buffer that grows to the ring size and then wraps,
    refining the flat sequence of all bytes ever written. */
module HistoryRing {
  import opened Arithmetic
  import opened Bytes
  import opened Outcomes

  datatype HistoryError = InvalidDistance

  /** Copies byte by byte from `distance` back, reading bytes it has just written. */
  function OverlappingCopy(flat: seq<Byte>, distance: nat, count: nat): (r: seq<Byte>)
    requires 0 < distance <= |flat|
    ensures |r| == |flat| + count && r[..|flat|] == flat
  {
    if count == 0 then flat
    else
      var r := OverlappingCopy(flat, distance, count - 1);
      r + [r[|r| - distance]]
  }

  /** Every copied byte is the one `distance` before it. */
  lemma {:induction false} CopyIsPeriodic(flat: seq<Byte>, distance: nat, count: nat, i: nat)
    requires 0 < distance <= |flat| && |flat| <= i < |flat| + count
    ensures OverlappingCopy(flat, distance, count)[i] == OverlappingCopy(flat, distance, count)[i - distance]
    decreases count
  {
    if i < |flat| + count - 1 {
      CopyIsPeriodic(flat, distance, count - 1, i);
    }
  }

  /** And being so determines the copy. */
  lemma {:induction false} PeriodicIsCopy(flat: seq<Byte>, distance: nat, count: nat, r: seq<Byte>)
    requires 0 < distance <= |flat| && |r| == |flat| + count && r[..|flat|] == flat
    requires forall i :: |flat| <= i < |r| ==> r[i] == r[i - distance]
    ensures r == OverlappingCopy(flat, distance, count)
    decreases count
  {
    if count == 0 {
      assert r == r[..|flat|];
    } else {
      var front := r[..|r| - 1];
      assert front[..|flat|] == r[..|flat|];
      PeriodicIsCopy(flat, distance, count - 1, front);
      assert r == front + [r[|r| - 1]];
    }
  }

  /** Masking by a power of two less one. */
  function Masked(x: nat, size: nat): (r: nat)
    requires size > 0
    ensures r < size
  {
    DivUnique(x, size, x / size, x % size);
    x % size
  }

  /** The bytes still in a ring of `size` bytes whose next write goes to `write`. */
  function Unrolled(buffer: seq<Byte>, write: nat): seq<Byte>
    requires write <= |buffer|
  {
    buffer[write..] + buffer[..write]
  }

  /** The buffer holds all bytes until it is full, and from then on the last of them, rotated. */
  ghost predicate Holds(buffer: seq<Byte>, write: nat, size: nat, flat: seq<Byte>)
  {
    if |flat| < size then buffer == flat && write == |flat|
    else |buffer| == size && write < size && Unrolled(buffer, write) == flat[|flat| - size..]
  }

  /** Writing a stretch that does not wrap keeps the ring in step with the flat history. */
  lemma WriteStretch(buffer: seq<Byte>, write: nat, size: nat, flat: seq<Byte>, bytes: seq<Byte>)
    requires |flat| >= size > 0 && Holds(buffer, write, size, flat) && write + |bytes| <= size
    ensures var end := write + |bytes|;
            Holds(buffer[..write] + bytes + buffer[end..], Masked(end, size), size, flat + bytes)
  {
    var end := write + |bytes|;
    var more := buffer[..write] + bytes + buffer[end..];
    if end < size {
      DivUnique(end, size, 0, end);
      assert Unrolled(more, end) == Unrolled(buffer, write)[|bytes|..] + bytes;
    } else {
      DivUnique(end, size, 1, 0);
      assert Unrolled(more, 0) == Unrolled(buffer, write)[|bytes|..] + bytes;
    }
    assert flat[|flat| - size..][|bytes|..] + bytes == (flat + bytes)[|flat + bytes| - size..];
  }

  /** While it grows, the buffer is the flat history. */
  lemma GrowStretch(buffer: seq<Byte>, write: nat, size: nat, flat: seq<Byte>, bytes: seq<Byte>)
    requires |flat| < size && Holds(buffer, write, size, flat) && |flat| + |bytes| <= size
    ensures Holds(buffer + bytes, Masked(|buffer + bytes|, size), size, flat + bytes)
  {
    if |flat| + |bytes| < size {
      DivUnique(|flat + bytes|, size, 0, |flat + bytes|);
    } else {
      DivUnique(size, size, 1, 0);
      assert Unrolled(buffer + bytes, 0) == flat + bytes;
    }
  }

  /** Where `distance` back lies in the ring. */
  lemma ReadStart(buffer: seq<Byte>, write: nat, size: nat, flat: seq<Byte>, distance: nat, k: nat)
    requires |flat| >= size && Holds(buffer, write, size, flat) && k < distance <= size
    ensures var start := Masked(write + size - distance, size);
            && start == (if distance <= write then write - distance else write + size - distance)
            && flat[|flat| - distance + k] == if start + k < size then buffer[start + k] else buffer[start + k - size]
  {
    if distance <= write {
      DivUnique(write + size - distance, size, 1, write - distance);
    } else {
      DivUnique(write + size - distance, size, 0, write + size - distance);
    }
    var u := Unrolled(buffer, write);
    assert flat[|flat| - distance + k] == flat[|flat| - size..][size - distance + k] == u[size - distance + k];
  }

  /** A prefix made of whole periods repeats: byte `j` comes back `k` periods later. */
  lemma {:induction false} WholePeriods(s: seq<Byte>, distance: nat, j: nat, k: nat)
    requires distance > 0 && j + k * distance < |s|
    requires Periodic(s, distance)
    ensures s[j + k * distance] == s[j]
    decreases k
  {
    if k > 0 {
      assert k * distance == (k - 1) * distance + distance;
      assert j + (k - 1) * distance >= 0;
      WholePeriods(s, distance, j, k - 1);
    }
  }

  /** Doubling a prefix of `m` whole periods, or part of it, keeps the period. */
  lemma DoublingKeepsPeriod(s: seq<Byte>, distance: nat, m: nat, chunk: nat)
    requires 0 < distance && |s| == m * distance && chunk <= |s|
    requires Periodic(s, distance)
    ensures Periodic(s + s[..chunk], distance)
  {
    var t := s + s[..chunk];
    forall i | distance <= i < |t|
      ensures t[i] == t[i - distance]
    {
      if |s| <= i < |s| + distance {
        var j := i - |s|;
        assert (m - 1) * distance == |s| - distance;
        WholePeriods(s, distance, j, m - 1);
      }
    }
  }

  /** The last byte and the one before it; zero before the stream starts. */
  function LastByte(flat: seq<Byte>, back: nat): Byte
  {
    if back < |flat| then flat[|flat| - 1 - back] else 0
  }

  lemma RingIsLarge(windowBits: nat)
    requires 10 <= windowBits <= 24
    ensures Pow2(windowBits) >= 1024
  {
    Pow2Monotone(10, windowBits);
    assert Pow2(5) == 32;
    assert Pow2(10) == 1024 by {
      Pow2Add(5, 5);
    }
  }

  class History {
    const ringSize: nat
    const windowSize: nat
    var buffer: seq<Byte>
    var write: nat
    var available: nat
    var previous: Byte
    var secondPrevious: Byte
    /** Every byte ever written. */
    ghost var flat: seq<Byte>

    ghost predicate Valid()
      reads this
    {
      && ringSize > 16 && windowSize == ringSize - 16
      && Holds(buffer, write, ringSize, flat) && available == Min(|flat|, windowSize)
      && previous == LastByte(flat, 0) && secondPrevious == LastByte(flat, 1)
    }

    constructor (windowBits: nat)
      requires 10 <= windowBits <= 24
      ensures Valid() && flat == [] && windowSize == Pow2(windowBits) - 16
    {
      RingIsLarge(windowBits);
      ringSize, windowSize := Pow2(windowBits), Pow2(windowBits) - 16;
      buffer, write, available, previous, secondPrevious := [], 0, 0, 0, 0;
      flat := [];
    }

    /** How far back a copy may reach: to the start of the stream or of the window. */
    function MaxBackwardDistance(): (d: nat)
      requires Valid()
      reads this
      ensures d == Min(|flat|, windowSize)
    {
      if available < windowSize then available else windowSize
    }

    /** Appends while the buffer still grows. */
    method Grow(bytes: seq<Byte>)
      requires Holds(buffer, write, ringSize, flat) && |flat| + |bytes| <= ringSize && |flat| < ringSize
      modifies `buffer, `write, `flat
      ensures Holds(buffer, write, ringSize, flat) && flat == old(flat) + bytes
    {
      hide Holds, Masked;
      GrowStretch(buffer, write, ringSize, flat, bytes);
      buffer := buffer + bytes;
      write := Masked(|buffer|, ringSize);
      flat := flat + bytes;
    }

    /** Overwrites the oldest bytes, up to the end of the buffer. */
    method Overwrite(bytes: seq<Byte>)
      requires Holds(buffer, write, ringSize, flat) && |flat| >= ringSize > 0 && write + |bytes| <= ringSize == |buffer|
      modifies `buffer, `write, `flat
      ensures Holds(buffer, write, ringSize, flat) && flat == old(flat) + bytes
    {
      hide Holds, Masked;
      var end := write + |bytes|;
      WriteStretch(buffer, write, ringSize, flat, bytes);
      buffer := buffer[..write] + bytes + buffer[end..];
      write := Masked(end, ringSize);
      flat := flat + bytes;
    }

    /** Appends one byte. */
    method Push(byte: Byte)
      requires Valid()
      modifies this
      ensures Valid() && flat == old(flat) + [byte]
    {
      hide Holds, Masked;
      BufferSize(buffer, write, ringSize, flat);
      if |buffer| < ringSize {
        Grow([byte]);
      } else {
        Overwrite([byte]);
      }
      available := Min(available + 1, windowSize);
      secondPrevious := previous;
      previous := byte;
    }

    /** Appends many bytes, stretch by stretch, across any number of wraps. */
    method PushSlice(bytes: seq<Byte>)
      requires Valid()
      modifies this
      ensures Valid() && flat == old(flat) + bytes
    {
      hide Holds, Masked;
      if bytes == [] {
        assert flat + bytes == flat;
        return;
      }
      UpdatePrevious(bytes);
      available := Min(available + |bytes|, windowSize);
      Fill(bytes);
    }

    /** Brings the bytes into the buffer: what it still takes, then over the oldest ones. */
    method Fill(bytes: seq<Byte>)
      requires Holds(buffer, write, ringSize, flat) && ringSize > 0
      modifies `buffer, `write, `flat
      ensures Holds(buffer, write, ringSize, flat) && flat == old(flat) + bytes
    {
      hide Holds, Masked;
      ghost var goal := flat + bytes;
      var remaining := bytes;
      BufferSize(buffer, write, ringSize, flat);
      if |buffer| < ringSize {
        var grow := Min(|remaining|, ringSize - |buffer|);
        Regroup(flat, remaining, grow);
        Grow(remaining[..grow]);
        remaining := remaining[grow..];
      }
      while remaining != []
        invariant Holds(buffer, write, ringSize, flat) && flat + remaining == goal
        invariant remaining == [] || |flat| >= ringSize
        decreases |remaining|
      {
        BufferSize(buffer, write, ringSize, flat);
        var contiguous := Min(|remaining|, ringSize - write);
        Regroup(flat, remaining, contiguous);
        Overwrite(remaining[..contiguous]);
        remaining := remaining[contiguous..];
      }
      assert flat + [] == flat;
    }

    method UpdatePrevious(bytes: seq<Byte>)
      requires bytes != [] && previous == LastByte(flat, 0)
      modifies `previous, `secondPrevious
      ensures previous == LastByte(flat + bytes, 0) && secondPrevious == LastByte(flat + bytes, 1)
    {
      if |bytes| == 1 {
        secondPrevious := previous;
        previous := bytes[0];
      } else {
        secondPrevious := bytes[|bytes| - 2];
        previous := bytes[|bytes| - 1];
      }
    }

    /** Reads the bytes that start `distance` back, none of them yet to be written. */
    method CopyHistoryPrefix(distance: nat, output: array<Byte>, at: nat, n: nat)
      requires Valid() && 0 < n <= distance <= MaxBackwardDistance() && at + n <= output.Length
      modifies output
      ensures output[..] == Spliced(old(output[..]), at, flat[|flat| - distance..][..n])
    {
      hide Holds, LastByte, Spliced, Masked;
      BufferSize(buffer, write, ringSize, flat);
      if |buffer| < ringSize {
        var start := |buffer| - distance;
        GrowingIsFlat(buffer, write, ringSize, flat);
        Store(buffer[start..start + n], output, at);
        assert flat[|flat| - distance..][..n] == buffer[start..start + n];
        return;
      }
      var start := Masked(write + ringSize - distance, ringSize);
      ReadStretch(buffer, write, ringSize, flat, distance, n);
      var first := Min(n, ringSize - start);
      Store(buffer[start..start + first], output, at);
      if first < n {
        SplicedTwice(old(output[..]), at, buffer[start..start + first], buffer[..n - first]);
        Store(buffer[..n - first], output, at + first);
      }
    }

    /** Copies from `distance` back into the output and the history: as many bytes as fit, and the
        same as copying them one by one. */
    method CopyInto(distance: nat, count: nat, output: array<Byte>, at: nat) returns (r: Result<nat, HistoryError>)
      requires Valid() && at <= output.Length
      modifies this, output
      ensures Valid()
      ensures r.Err? <==> distance == 0 || distance > Min(|old(flat)|, windowSize)
      ensures r.Err? ==> flat == old(flat) && output[..] == old(output[..])
      ensures r.Ok? ==>
                && r.value == Min(count, output.Length - at)
                && flat == OverlappingCopy(old(flat), distance, r.value)
                && output[..] == Spliced(old(output[..]), at, flat[|old(flat)|..])
    {
      if distance == 0 || distance > MaxBackwardDistance() {
        return Err(InvalidDistance);
      }
      var produced := Min(count, output.Length - at);
      if produced == 0 {
        assert flat[|flat|..] == [];
        return Ok(0);
      }
      hide Holds, Masked, LastByte, Periodic, OverlappingCopy, Spliced;
      ghost var was, before := output[..], flat;
      var seedLen := Min(produced, distance);
      CopyHistoryPrefix(distance, output, at, seedLen);
      FillByDoubling(flat, distance, output, at, was, seedLen, produced);
      ghost var s :| |s| == produced && flat + s == OverlappingCopy(flat, distance, produced) &&
          output[..] == Spliced(was, at, s);
      Prefix(output, at, produced, was, s);
      PushSlice(output[at..at + produced]);
      assert flat[|before|..] == s;
      r := Ok(produced);
    }
  }

  lemma Regroup(flat: seq<Byte>, bytes: seq<Byte>, n: nat)
    requires n <= |bytes|
    ensures (flat + bytes[..n]) + bytes[n..] == flat + bytes
  {
    assert bytes == bytes[..n] + bytes[n..];
  }

  lemma GrowingIsFlat(buffer: seq<Byte>, write: nat, size: nat, flat: seq<Byte>)
    requires Holds(buffer, write, size, flat) && |flat| < size
    ensures buffer == flat
  {
  }

  /** The stretch that starts `distance` back, in one piece or wrapped in two. */
  lemma ReadStretch(buffer: seq<Byte>, write: nat, size: nat, flat: seq<Byte>, distance: nat, n: nat)
    requires |flat| >= size && Holds(buffer, write, size, flat) && 0 < n <= distance <= size
    ensures var start := Masked(write + size - distance, size);
            && start < size == |buffer|
            && flat[|flat| - distance..][..n] ==
               if start + n <= size then buffer[start..start + n]
                   else buffer[start..size] + buffer[..n - (size - start)]
  {
    var start := Masked(write + size - distance, size);
    var r := if start + n <= size then buffer[start..start + n] else buffer[start..size] + buffer[..n - (size - start)];
    forall k | 0 <= k < n
      ensures r[k] == flat[|flat| - distance..][..n][k]
    {
      ReadStart(buffer, write, size, flat, distance, k);
    }
  }

  /** `s` with the bytes from `at` on replaced. */
  function Spliced(s: seq<Byte>, at: nat, bytes: seq<Byte>): (r: seq<Byte>)
    requires at + |bytes| <= |s|
    ensures |r| == |s|
  {
    s[..at] + bytes + s[at + |bytes|..]
  }

  lemma SplicedTwice(s: seq<Byte>, at: nat, xs: seq<Byte>, ys: seq<Byte>)
    requires at + |xs| + |ys| <= |s|
    ensures Spliced(Spliced(s, at, xs), at + |xs|, ys) == Spliced(s, at, xs + ys)
  {
  }

  lemma SplicedAt(s: seq<Byte>, at: nat, bytes: seq<Byte>, n: nat)
    requires at + |bytes| <= |s| && n <= |bytes|
    ensures Spliced(s, at, bytes)[at..at + n] == bytes[..n]
  {
  }

  /** Copies bytes into the output. */
  method Store(bytes: seq<Byte>, output: array<Byte>, at: nat)
    requires at + |bytes| <= output.Length
    modifies output
    ensures output[..] == Spliced(old(output[..]), at, bytes)
  {
    forall k | 0 <= k < |bytes| {
      output[at + k] := bytes[k];
    }
  }

  lemma BufferSize(buffer: seq<Byte>, write: nat, size: nat, flat: seq<Byte>)
    requires Holds(buffer, write, size, flat)
    ensures |buffer| == Min(|flat|, size) && (|flat| >= size ==> write < size)
  {
  }

  /** Extends the first bytes of the copy by copying what is there onto its end, twice as much each
      time. What is there is whole periods until the last time. */
  method FillByDoubling(ghost flat: seq<Byte>, distance: nat, output: array<Byte>, at: nat, ghost was: seq<Byte>,
                        seedLen: nat, produced: nat)
    requires 0 < distance <= |flat| && |was| == output.Length && at + produced <= |was|
    requires 0 < seedLen == Min(produced, distance)
    requires output[..] == Spliced(was, at, flat[|flat| - distance..][..seedLen])
    modifies output
    ensures exists s: seq<Byte> :: |s| == produced && flat + s == OverlappingCopy(flat, distance, produced) &&
                                output[..] == Spliced(was, at, s)
  {
    ghost var s := flat[|flat| - distance..][..seedLen];
    SeedIsPeriodic(s, distance);
    hide Periodic, OverlappingCopy, Spliced;
    var filled := seedLen;
    ghost var m: nat := 1;
    while filled < produced
      invariant 0 < filled <= produced && (filled == produced || filled == m * distance)
      invariant |s| == filled && Periodic(s, distance) && flat[|flat| - distance..][..seedLen] <= s
      invariant output[..] == Spliced(was, at, s)
    {
      var chunk := Min(produced - filled, filled);
      SplicedAt(was, at, s, chunk);
      Prefix(output, at, chunk, was, s);
      DoublingKeepsPeriod(s, distance, m, chunk);
      SplicedTwice(was, at, s, s[..chunk]);
      Store(output[at..at + chunk], output, at + filled);
      s := s + s[..chunk];
      filled := filled + chunk;
      m := 2 * m;
    }
    CopyFromPeriods(flat, distance, s, produced);
  }

  lemma Prefix(output: array<Byte>, at: nat, n: nat, was: seq<Byte>, s: seq<Byte>)
    requires at + |s| <= |was| && n <= |s| && output[..] == Spliced(was, at, s) && output.Length == |was|
    ensures output[at..at + n] == s[..n]
  {
  }

  lemma SeedIsPeriodic(s: seq<Byte>, distance: nat)
    requires |s| <= distance
    ensures Periodic(s, distance)
  {
  }

  predicate Periodic(s: seq<Byte>, distance: nat)
  {
    forall i :: distance <= i < |s| ==> s[i] == s[i - distance]
  }

  lemma CopyFromPeriods(flat: seq<Byte>, distance: nat, s: seq<Byte>, produced: nat)
    requires 0 < distance <= |flat| && |s| == produced > 0 && Periodic(s, distance)
    requires var seed := Min(produced, distance); s[..seed] == flat[|flat| - distance..][..seed]
    ensures flat + s == OverlappingCopy(flat, distance, produced)
  {
    var r := flat + s;
    var seed := Min(produced, distance);
    assert r[..|flat|] == flat;
    forall i | |flat| <= i < |r|
      ensures r[i] == r[i - distance]
    {
      var j := i - |flat|;
      if j < distance {
        assert s[j] == s[..seed][j] == flat[|flat| - distance..][..seed][j];
      } else {
        assert s[j] == s[j - distance];
      }
    }
    PeriodicIsCopy(flat, distance, produced, r);
  }
}
