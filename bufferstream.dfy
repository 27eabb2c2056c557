/** The circular byte FIFO `bufferStream` (bufferstream.h), stated as a value.

    `RingState` holds the object's fields and there is one function per
    operation; the lemmas about these functions are where the buffer's promises
    are proved.  Module BufferStream below is the class itself, over an array,
    whose methods are proved to move its state exactly as these functions do. */
module Ring {
  import opened Ascii

  /** `errors` is a `uint16_t`: its increments wrap at 2^16. */
  const ERRORS_MODULUS: int := 0x1_0000

  /** `bufferStream::DEFAULT_SIZE`. */
  const DEFAULT_SIZE: nat := 256

  /** The fields of a `bufferStream`.  `present` is false when both `ps_malloc`
      and `malloc` failed (`buffer == NULL`, `buffer_size == 0`); `storage` is the
      whole array, so its length is `buffer_size`. */
  datatype RingState = RingState(
    present: bool,
    storage: seq<byte>,
    pos: int,       // buffer_pos: index of the next byte to read
    unread: int,    // unread_size
    stored: int,    // stored_size: bytes written since the last clear
    errors: int)    // errors

  predicate Valid(s: RingState)
  {
    (!s.present ==> s.storage == [] && s.unread == 0 && s.pos == 0) &&
    0 <= s.unread <= |s.storage| &&
    (if |s.storage| == 0 then s.pos == 0 else 0 <= s.pos < |s.storage|) &&
    0 <= s.errors < ERRORS_MODULUS &&
    0 <= s.stored
  }

  /** `buffer_size`. */
  function Capacity(s: RingState): nat
  {
    |s.storage|
  }

  /** Where the i-th unread byte lives: `buffer_pos + i`, wrapped once. */
  function Slot(s: RingState, i: int): (k: int)
    requires Valid(s) && 0 <= i < |s.storage|
    ensures 0 <= k < |s.storage|
  {
    if s.pos + i < |s.storage| then s.pos + i else s.pos + i - |s.storage|
  }

  /** The unread bytes, oldest first: the abstract value of the FIFO. */
  function Contents(s: RingState): (c: seq<byte>)
    requires Valid(s)
    ensures |c| == s.unread
  {
    seq(s.unread, i requires 0 <= i < s.unread => s.storage[Slot(s, i)])
  }

  function IncErrors(e: int): int
  {
    (e + 1) % ERRORS_MODULUS
  }

  /** `clear()`: cursor and counters to zero, every byte of storage to zero. */
  function Clear(s: RingState): (t: RingState)
    requires Valid(s)
    ensures Valid(t) && Contents(t) == []
    ensures t.present == s.present && Capacity(t) == Capacity(s)
    ensures t.pos == 0 && t.stored == 0 && t.errors == 0
    ensures forall k :: 0 <= k < |t.storage| ==> t.storage[k] == NUL
  {
    RingState(s.present, Repeat(NUL, |s.storage|), 0, 0, 0, 0)
  }

  /** `available()`. */
  function Available(s: RingState): (n: int)
    requires Valid(s)
    ensures n == |Contents(s)|
  {
    if !s.present then 0 else s.unread
  }

  /** `availableForWrite()`: the free space. */
  function AvailableForWrite(s: RingState): (n: int)
    requires Valid(s)
    ensures n == Capacity(s) - |Contents(s)|
  {
    if !s.present then 0 else |s.storage| - s.unread
  }

  /** `peek()`: -1 when empty, otherwise the oldest unread byte. */
  function Peek(s: RingState): (r: int)
    requires Valid(s)
    ensures Contents(s) == [] <==> r == -1
    ensures Contents(s) != [] ==> r == Contents(s)[0] as int
  {
    if s.unread == 0 then -1 else s.storage[s.pos] as int
  }

  /** `read()`.  Fails with -1 when empty, counting an error only when the
      storage exists; otherwise returns the oldest byte, advances the cursor
      with wrap-around and resets the error counter. */
  function Read(s: RingState): (r: (RingState, int))
    requires Valid(s)
    ensures Valid(r.0) && Capacity(r.0) == Capacity(s) && r.0.present == s.present
    ensures r.0.stored == s.stored
    ensures Contents(s) == [] ==>
      r.1 == -1 && r.0 == (if s.present then s.(errors := IncErrors(s.errors)) else s)
    ensures Contents(s) != [] ==>
      r.1 == Contents(s)[0] as int && Contents(r.0) == Contents(s)[1..] &&
      r.0.errors == 0 && r.0.storage == s.storage
  {
    if !s.present then (s, -1)
    else if s.unread == 0 then (s.(errors := IncErrors(s.errors)), -1)
    else
      var ret := s.storage[s.pos];
      var next := if s.pos + 1 == |s.storage| then 0 else s.pos + 1;
      var t := s.(pos := next, unread := s.unread - 1, errors := 0);
      assert forall i :: 0 <= i < t.unread ==> Slot(t, i) == Slot(s, i + 1);
      (t, ret as int)
  }

  /** `write(b)`.  Fails with 0 when full, counting an error (when the storage
      exists); otherwise stores `b` behind the unread bytes and returns 1. */
  function Write(s: RingState, b: byte): (r: (RingState, int))
    requires Valid(s)
    ensures Valid(r.0) && Capacity(r.0) == Capacity(s) && r.0.present == s.present
    ensures r.0.pos == s.pos
    ensures r.1 == 0 <==> AvailableForWrite(s) == 0
    ensures r.1 == 0 ==>
      r.0 == (if s.present then s.(errors := IncErrors(s.errors)) else s)
    ensures r.1 != 0 ==>
      r.1 == 1 && Contents(r.0) == Contents(s) + [b] &&
      r.0.stored == s.stored + 1 && r.0.errors == s.errors &&
      r.0.storage[Slot(s, s.unread)] == b
  {
    if !s.present then (s, 0)
    else if s.unread == |s.storage| then (s.(errors := IncErrors(s.errors)), 0)
    else
      var i := if s.pos + s.unread >= |s.storage| then s.pos + s.unread - |s.storage| else s.pos + s.unread;
      var t := s.(storage := s.storage[i := b], unread := s.unread + 1, stored := s.stored + 1);
      assert forall j :: 0 <= j < s.unread ==> Slot(t, j) == Slot(s, j) && Slot(s, j) != i;
      (t, 1)
  }

  /** `writeStream(src)`: every byte `src->read()` yields before its first
      negative result is written; a failed write counts one error inside
      `write` and a second one in the loop.  Returns the number of bytes
      written.  Without storage, nothing is read from `src`. */
  function WriteStream(s: RingState, src: seq<byte>): (r: (RingState, int))
    requires Valid(s)
    ensures Valid(r.0) && Capacity(r.0) == Capacity(s) && r.0.present == s.present
    decreases |src|
  {
    if !s.present || src == [] then (s, 0)
    else
      StreamStep(WriteStream(s, src[..|src| - 1]), src[|src| - 1])
  }

  /** One iteration of the loop of `writeStream`: write `c` after the state
      and count so far; a failed write counts a second error. */
  function StreamStep(prev: (RingState, int), c: byte): (r: (RingState, int))
    requires Valid(prev.0)
    ensures Valid(r.0) && Capacity(r.0) == Capacity(prev.0) && r.0.present == prev.0.present
  {
    var w := Write(prev.0, c);
    if w.1 == 0 then (w.0.(errors := IncErrors(w.0.errors)), prev.1) else (w.0, prev.1 + 1)
  }

  /** One more source byte is one more loop iteration. */
  lemma WriteStreamStep(s: RingState, src: seq<byte>, c: byte)
    requires Valid(s) && s.present
    ensures WriteStream(s, src + [c]) == StreamStep(WriteStream(s, src), c)
  {
    assert (src + [c])[..|src|] == src;
  }

  /** The same step, for a source prefix that grows by one byte. */
  lemma WriteStreamPrefix(s: RingState, src: seq<byte>, k: nat)
    requires Valid(s) && s.present && k < |src|
    ensures WriteStream(s, src[..k + 1]) == StreamStep(WriteStream(s, src[..k]), src[k])
  {
    assert src[..k + 1] == src[..k] + [src[k]];
    WriteStreamStep(s, src[..k], src[k]);
  }

  function Min(a: int, b: int): int
  {
    if a <= b then a else b
  }

  lemma ErrorsStep(e: int, k: nat)
    requires 0 <= e < ERRORS_MODULUS
    ensures IncErrors(IncErrors((e + 2 * k) % ERRORS_MODULUS)) == (e + 2 * (k + 1)) % ERRORS_MODULUS
  {
  }

  /** The unread bytes depend only on the storage, the cursor and the count. */
  lemma ContentsOfFields(a: RingState, b: RingState)
    requires Valid(a) && Valid(b)
    requires a.storage == b.storage && a.pos == b.pos && a.unread == b.unread
    ensures Contents(a) == Contents(b)
  {
  }

  /** What `writeStream` does to the buffer, in closed form: the first
      `availableForWrite()` bytes of the source are appended and returned as
      the count, every other byte adds two to the error counter (mod 2^16),
      and the read cursor does not move. */
  lemma {:induction false} WriteStreamEffect(s: RingState, src: seq<byte>)
    requires Valid(s) && s.present
    ensures WriteStream(s, src).1 == Min(|src|, AvailableForWrite(s))
    ensures Contents(WriteStream(s, src).0) == Contents(s) + src[..WriteStream(s, src).1]
    ensures WriteStream(s, src).0.errors == (s.errors + 2 * (|src| - WriteStream(s, src).1)) % ERRORS_MODULUS
    ensures WriteStream(s, src).0.pos == s.pos
    ensures WriteStream(s, src).0.stored == s.stored + WriteStream(s, src).1
    decreases |src|
  {
    if src != [] {
      var init := src[..|src| - 1];
      var last := src[|src| - 1];
      WriteStreamEffect(s, init);
      var prev := WriteStream(s, init);
      assert init + [last] == src;
      assert WriteStream(s, src) == StreamStep((prev.0, prev.1), last);
      StreamStepEffect(s, prev.0, prev.1, init, last);
    } else {
      assert src[..0] == [] && Contents(s) + [] == Contents(s);
    }
  }

  /** One loop iteration keeps the closed form of `WriteStreamEffect`. */
  lemma StreamStepEffect(s: RingState, t: RingState, count: int, init: seq<byte>, last: byte)
    requires Valid(s) && s.present && Valid(t) && t.present && Capacity(t) == Capacity(s)
    requires count == Min(|init|, AvailableForWrite(s))
    requires Contents(t) == Contents(s) + init[..count]
    requires t.errors == (s.errors + 2 * (|init| - count)) % ERRORS_MODULUS
    requires t.pos == s.pos && t.stored == s.stored + count
    ensures var r := StreamStep((t, count), last); var src := init + [last];
      r.1 == Min(|src|, AvailableForWrite(s)) &&
      Contents(r.0) == Contents(s) + src[..r.1] &&
      r.0.errors == (s.errors + 2 * (|src| - r.1)) % ERRORS_MODULUS &&
      r.0.pos == s.pos && r.0.stored == s.stored + r.1
  {
    var w := Write(t, last);
    var src := init + [last];
    assert AvailableForWrite(t) == AvailableForWrite(s) - count;
    if w.1 == 0 {
      var u := w.0.(errors := IncErrors(w.0.errors));
      ContentsOfFields(u, t);
      assert src[..count] == init[..count];
      ErrorsStep(s.errors, |init| - count);
    } else {
      assert src[..count + 1] == init[..count] + [last];
    }
  }

  /** Writes `data` one byte at a time, ignoring the results. */
  function WriteAll(s: RingState, data: seq<byte>): (t: RingState)
    requires Valid(s)
    ensures Valid(t)
    decreases |data|
  {
    if data == [] then s else WriteAll(Write(s, data[0]).0, data[1..])
  }

  /** Reads `k` bytes, collecting the values returned. */
  function ReadN(s: RingState, k: nat): (r: (RingState, seq<int>))
    requires Valid(s)
    ensures Valid(r.0) && |r.1| == k
    decreases k
  {
    if k == 0 then (s, [])
    else
      var first := Read(s);
      var rest := ReadN(first.0, k - 1);
      (rest.0, [first.1] + rest.1)
  }

  function AsInts(bs: seq<byte>): (r: seq<int>)
    ensures |r| == |bs| && forall i :: 0 <= i < |bs| ==> r[i] == bs[i] as int
  {
    seq(|bs|, i requires 0 <= i < |bs| => bs[i] as int)
  }

  /** Writes that fit are all accepted and land behind the unread bytes. */
  lemma {:induction false} WriteAllAppends(s: RingState, data: seq<byte>)
    requires Valid(s) && s.present && |data| <= AvailableForWrite(s)
    ensures Contents(WriteAll(s, data)) == Contents(s) + data
    decreases |data|
  {
    if data != [] {
      var t := Write(s, data[0]).0;
      WriteAllAppends(t, data[1..]);
      assert Contents(s) + data == Contents(s) + [data[0]] + data[1..];
    }
  }

  /** Reading `k` unread bytes returns them oldest first. */
  lemma {:induction false} ReadNReturnsOldest(s: RingState, k: nat)
    requires Valid(s) && k <= |Contents(s)|
    ensures ReadN(s, k).1 == AsInts(Contents(s)[..k])
    ensures Contents(ReadN(s, k).0) == Contents(s)[k..]
    decreases k
  {
    if k > 0 {
      var t := Read(s).0;
      var c, d := Contents(s), Contents(t);
      assert d == c[1..] && Read(s).1 == c[0] as int;
      ReadNReturnsOldest(t, k - 1);
      HeadThenRest(c, d, k);
    }
  }

  /** Taking `k` bytes of `c` is taking its head, then `k - 1` bytes of its
      tail `d`. */
  lemma HeadThenRest(c: seq<byte>, d: seq<byte>, k: nat)
    requires 0 < k <= |c| && d == c[1..]
    ensures AsInts(c[..k]) == [c[0] as int] + AsInts(d[..k - 1])
    ensures c[k..] == d[k - 1..]
  {
    var l, r := AsInts(c[..k]), [c[0] as int] + AsInts(d[..k - 1]);
    forall i | 0 <= i < k
      ensures l[i] == r[i]
    {
      if i > 0 {
        assert r[i] == AsInts(d[..k - 1])[i - 1];
      }
    }
  }

  /** The FIFO round trip: after writing bytes that fit, reading back every
      unread byte yields the old unread bytes followed by the new ones, in
      order, and leaves the buffer empty. */
  lemma FifoRoundTrip(s: RingState, data: seq<byte>)
    requires Valid(s) && s.present && |data| <= AvailableForWrite(s)
    ensures var n := |Contents(s)| + |data|;
      ReadN(WriteAll(s, data), n).1 == AsInts(Contents(s) + data) &&
      Contents(ReadN(WriteAll(s, data), n).0) == []
  {
    WriteAllAppends(s, data);
    ReadAll(WriteAll(s, data), Contents(s) + data);
  }

  /** Reading every unread byte returns them all and empties the buffer. */
  lemma ReadAll(t: RingState, c: seq<byte>)
    requires Valid(t) && Contents(t) == c
    ensures ReadN(t, |c|).1 == AsInts(c)
    ensures Contents(ReadN(t, |c|).0) == []
  {
    ReadNReturnsOldest(t, |c|);
    assert c[..|c|] == c && c[|c|..] == [];
  }

  lemma PrefixGrow(s: seq<byte>, i: nat)
    requires i < |s|
    ensures s[..i + 1] == s[..i] + [s[i]] && s[i..][1..] == s[i + 1..]
  {
  }

  lemma AsIntsGrow(s: seq<byte>, k: nat)
    requires k < |s|
    ensures AsInts(s[..k + 1]) == AsInts(s[..k]) + [s[k] as int] && s[k..][1..] == s[k + 1..]
  {
    PrefixGrow(s, k);
  }

  lemma WholePrefix(src: seq<byte>)
    ensures src[..|src|] == src
  {
  }

  /** `peek()` returns what `read()` would return, and changes nothing. */
  lemma PeekIsNextRead(s: RingState)
    requires Valid(s)
    ensures Peek(s) == Read(s).1
  {
  }

  /** A buffer state that the class can reach: valid, with the counter and the
      unread bytes bounded by the storage. */
  lemma OperationsKeepBounds(s: RingState, b: byte)
    requires Valid(s)
    ensures var t := Write(s, b).0; 0 <= t.unread <= Capacity(t) && (Capacity(t) > 0 ==> t.pos < Capacity(t))
    ensures var t := Read(s).0; 0 <= t.unread <= Capacity(t) && (Capacity(t) > 0 ==> t.pos < Capacity(t))
  {
  }
}

/** The `bufferStream` class (bufferstream.h). */
module BufferStream {
  import opened Ascii
  import opened Ring

  /** The `bufferStream` object.  `buffer` is null when allocation failed. */
  class Buffer {
    var buffer: array?<byte>
    var bufferSize: int
    var storedSize: int
    var bufferPos: int
    var unreadSize: int
    var errors: int

    function State(): RingState
      reads this, buffer
    {
      RingState(buffer != null, if buffer == null then [] else buffer[..],
                bufferPos, unreadSize, storedSize, errors)
    }

    ghost predicate Valid()
      reads this, buffer
    {
      bufferSize == (if buffer == null then 0 else buffer.Length) &&
      Ring.Valid(State())
    }

    /** `bufferStream(buffer_size)` after allocation: `allocOk` is whether
        `ps_malloc` or `malloc` returned storage. */
    constructor (capacity: nat, allocOk: bool)
      ensures Valid() && State().present == allocOk
      ensures Capacity(State()) == (if allocOk then capacity else 0)
      ensures Contents(State()) == [] && State().errors == 0 && State().stored == 0
      ensures buffer != null ==> fresh(buffer)
    {
      if allocOk {
        buffer := new byte[capacity];
        bufferSize := capacity;
      } else {
        buffer := null;
        bufferSize := 0;
      }
      new;
      Clear();
    }

    /** `clear()`. */
    method Clear()
      requires bufferSize == (if buffer == null then 0 else buffer.Length)
      modifies this, buffer
      ensures Valid() && buffer == old(buffer) && bufferSize == old(bufferSize)
      ensures State() == RingState(buffer != null, Repeat(NUL, bufferSize), 0, 0, 0, 0)
    {
      bufferPos := 0;
      unreadSize := 0;
      storedSize := 0;
      errors := 0;
      if buffer != null {
        var a: array<byte> := buffer;
        var k := 0;
        while k < a.Length
          invariant 0 <= k <= a.Length
          invariant forall j :: 0 <= j < k ==> a[j] == NUL
          modifies a
        {
          a[k] := NUL;
          k := k + 1;
        }
        assert a[..] == Repeat(NUL, a.Length);
      }
    }

    /** `available()`. */
    function Available(): (n: int)
      requires Valid()
      reads this, buffer
      ensures n == Ring.Available(State())
    {
      if buffer == null then 0 else unreadSize
    }

    /** `peek()`. */
    function Peek(): (r: int)
      requires Valid()
      reads this, buffer
      ensures r == Ring.Peek(State())
    {
      if unreadSize == 0 then -1 else buffer[bufferPos] as int
    }

    /** `read()`. */
    method Read() returns (r: int)
      requires Valid()
      modifies this
      ensures Valid() && buffer == old(buffer)
      ensures (State(), r) == Ring.Read(old(State()))
    {
      if buffer == null {
        return -1;
      }
      if unreadSize == 0 {
        errors := IncErrors(errors);
        return -1;
      }
      r := buffer[bufferPos] as int;
      bufferPos := bufferPos + 1;
      unreadSize := unreadSize - 1;
      if bufferPos == bufferSize {
        bufferPos := 0;
      }
      errors := 0;
    }

    /** `write(b)`. */
    method Write(b: byte) returns (n: int)
      requires Valid()
      modifies this, buffer
      ensures Valid() && buffer == old(buffer)
      ensures (State(), n) == Ring.Write(old(State()), b)
    {
      if buffer == null {
        return 0;
      }
      if unreadSize == bufferSize {
        errors := IncErrors(errors);
        return 0;
      }
      var i := bufferPos + unreadSize;
      if i >= bufferSize {
        i := i - bufferSize;
      }
      buffer[i] := b;
      unreadSize := unreadSize + 1;
      storedSize := storedSize + 1;
      n := 1;
    }

    /** `availableForWrite()`. */
    function AvailableForWrite(): (n: int)
      requires Valid()
      reads this, buffer
      ensures n == Ring.AvailableForWrite(State())
    {
      if buffer == null then 0 else bufferSize - unreadSize
    }

    /** `writeStream(src)`, with `src` given as the bytes its `read()` returns
        before the first negative result; `consumed` is how many were read. */
    method WriteStream(src: seq<byte>) returns (count: int, consumed: nat)
      requires Valid()
      modifies this, buffer
      ensures Valid() && buffer == old(buffer)
      ensures (State(), count) == Ring.WriteStream(old(State()), src)
      ensures consumed == if old(buffer) == null then 0 else |src|
    {
      if buffer == null {
        return 0, 0;
      }
      ghost var s0 := State();
      count := 0;
      consumed := 0;
      while consumed < |src|
        invariant Valid() && buffer == old(buffer) && buffer != null
        invariant consumed <= |src|
        invariant (State(), count) == Ring.WriteStream(s0, src[..consumed])
      {
        WriteStreamPrefix(s0, src, consumed);
        count := WriteCounted(src[consumed], count);
        consumed := consumed + 1;
      }
      WholePrefix(src);
    }

    /** The body of the loop of `writeStream`: write `c`, counting a success
        or a second error. */
    method WriteCounted(c: byte, count0: int) returns (count: int)
      requires Valid() && buffer != null
      modifies this, buffer
      ensures Valid() && buffer == old(buffer)
      ensures (State(), count) == StreamStep((old(State()), count0), c)
    {
      ghost var before := State();
      var n := Write(c);
      assert (State(), n) == Ring.Write(before, c);
      count := count0;
      if n == 0 {
        errors := IncErrors(errors);
      } else {
        count := count + 1;
      }
    }
  }

  /** A caller's view of the FIFO promise on the object itself: bytes that
      fit come back out in the order they went in. */
  method WriteThenRead(b: Buffer, data: seq<byte>) returns (out: seq<int>)
    requires b.Valid() && b.buffer != null && Contents(b.State()) == []
    requires |data| <= b.AvailableForWrite()
    modifies b, b.buffer
    ensures b.Valid() && out == AsInts(data) && Contents(b.State()) == []
  {
    var i := 0;
    while i < |data|
      invariant 0 <= i <= |data| && b.Valid() && b.buffer == old(b.buffer)
      invariant Contents(b.State()) == data[..i]
      invariant AvailableForWrite(b.State()) == AvailableForWrite(old(b.State())) - i
    {
      var n := b.Write(data[i]);
      PrefixGrow(data, i);
      i := i + 1;
    }
    out := [];
    var k := 0;
    while k < |data|
      invariant 0 <= k <= |data| && b.Valid() && b.buffer == old(b.buffer)
      invariant Contents(b.State()) == data[k..]
      invariant out == AsInts(data[..k])
    {
      var v := b.Read();
      AsIntsGrow(data, k);
      out := out + [v];
      k := k + 1;
    }
    WholePrefix(data);
  }
}
