/** The growable byte buffer as a value: readable bytes sit between a read and a write
    index, growth doubles the capacity and moves the readable bytes to the front. `malloc`
    may fail; whether it does is an input (`memory`). */
module BufferStates {
  import opened Words

  const BUFFER_MAX_READ := 8192
  const DEFAULT_BUFFER_SIZE := 32

  /** Indices, capacity and readable bytes: everything a caller can observe. */
  datatype State = State(capacity: nat, readIdx: nat, writeIdx: nat, pending: seq<byte>) {
    ghost predicate Valid() {
      readIdx <= writeIdx <= capacity && |pending| == writeIdx - readIdx
    }
  }

  const EMPTY := State(0, 0, 0, [])

  /** What remains of a size_t that is returned as an int. */
  function ToInt(n: nat): (r: int)
    ensures -0x8000_0000 <= r < 0x8000_0000 && (r - n) % 0x1_0000_0000 == 0
  {
    var low := n % TWO_32;
    if low < 0x8000_0000 then low else low - TWO_32
  }

  function Min(a: nat, b: nat): nat {
    if a <= b then a else b
  }

  function Max(a: nat, b: nat): nat {
    if a >= b then a else b
  }

  // ----- the operations on states -----

  /** Doubles until the need is met: never beyond twice the need, and at least once if unmet. */
  function Doubled(capacity: nat, needed: nat): (c: nat)
    requires capacity > 0
    ensures needed <= c && capacity <= c <= Max(capacity, 2 * needed)
    ensures capacity < needed ==> 2 * capacity <= c < 2 * needed
    decreases if capacity < needed then needed - capacity else 0
  {
    if capacity < needed then Doubled(2 * capacity, needed) else capacity
  }

  function NewCapacity(capacity: nat, needed: nat): nat {
    Doubled(if capacity == 0 then DEFAULT_BUFFER_SIZE else capacity, needed)
  }

  function Reserve(s: State, min: nat, memory: bool): State
    requires s.Valid()
  {
    if s.capacity - s.writeIdx >= min || !memory then s
    else State(NewCapacity(s.capacity, s.writeIdx + min), 0, |s.pending|, s.pending)
  }

  function Reserved(s: State, min: nat, memory: bool): bool
    requires s.Valid()
  {
    s.capacity - s.writeIdx >= min || memory
  }

  /** Shrinks the allocation to the readable bytes; the sizes pass through 32-bit variables. */
  predicate Compacts(s: State, least: nat, memory: bool)
    requires s.Valid()
  {
    (s.capacity - s.writeIdx) % TWO_32 >= least && (|s.pending| % TWO_32 > 0 ==> memory)
  }

  function Compact(s: State, least: nat, memory: bool): State
    requires s.Valid()
  {
    var kept := |s.pending| % TWO_32;
    if Compacts(s, least, memory) then State(kept, 0, kept, s.pending[..kept]) else s
  }

  function Write(s: State, data: seq<byte>, memory: bool): State
    requires s.Valid()
  {
    var r := Reserve(s, |data|, memory);
    if Reserved(s, |data|, memory) then r.(writeIdx := r.writeIdx + |data|, pending := r.pending + data) else r
  }

  function Skip(s: State, n: nat): State
    requires s.Valid() && n <= |s.pending|
  {
    s.(readIdx := s.readIdx + n, pending := s.pending[n..])
  }

  function Discard(s: State): State
    requires s.Valid()
  {
    if s.readIdx == 0 then s else State(s.capacity, 0, |s.pending|, s.pending)
  }

  /** A scatter read: into the free space first, the rest through `Write`, whose failure is ignored. */
  function ReadFD(s: State, chunk: seq<byte>, memory: bool): State
    requires s.Valid()
  {
    var writable := s.capacity - s.writeIdx;
    var n := Min(|chunk|, writable);
    var filled := s.(writeIdx := s.writeIdx + n, pending := s.pending + chunk[..n]);
    if |chunk| <= writable then filled else Write(filled, chunk[writable..], memory)
  }

  /** How many bytes a move of `n` copies, and by how much it advances the source. */
  function Copied(source: State, n: nat): nat {
    Min(n, |source.pending|)
  }

  function Advance(source: State, destination: State, n: nat, memory: bool): (a: nat)
    requires source.Valid() && destination.Valid()
    ensures a <= Copied(source, n)
  {
    var count := Copied(source, n);
    if Reserved(destination, count, memory) && ToInt(count) > 0 then ToInt(count) else 0
  }

  /** With memory at hand a scatter read appends. */
  lemma ReadFDAppends(s: State, chunk: seq<byte>)
    requires s.Valid()
    ensures ReadFD(s, chunk, true).pending == s.pending + chunk
  {
    var writable := s.capacity - s.writeIdx;
    if |chunk| <= writable {
      assert chunk[..|chunk|] == chunk;
    } else {
      assert s.pending + chunk[..writable] + chunk[writable..] == s.pending + chunk;
    }
  }

  lemma ReserveValid(s: State, min: nat, memory: bool)
    requires s.Valid()
    ensures Reserve(s, min, memory).Valid()
  {
  }
}

/** The buffer object of the original, kept in step with its value. */
module ByteBuffer {
  import opened Words
  import S = BufferStates

  /** The source advances by the `int` result of the write, unless that is not positive. */
  lemma AdvanceIs(source: S.State, destination: S.State, count: nat, memory: bool)
    requires source.Valid() && destination.Valid()
    ensures var n := S.Copied(source, count);
            var ret := if S.Reserved(destination, n, memory) then S.ToInt(n) else -1;
            S.Advance(source, destination, count, memory) == if ret > 0 then ret else 0
  {
  }

  /** Compact does nothing when the space is lacking: the case in which growing calls it. */
  lemma CompactUnlessLacking(s: S.State, min: nat, memory: bool)
    requires s.Valid()
    ensures s.capacity - s.writeIdx < min ==> !S.Compacts(s, min, memory) && S.Compact(s, min, memory) == s
  {
  }

  /** A part of an array, cut in two. */
  lemma Slices(a: array<byte>, from: nat, mid: nat, to: nat)
    requires from <= mid <= to <= a.Length
    ensures a[from..to][..mid - from] == a[from..mid]
    ensures a[from..to][mid - from..] == a[mid..to]
  {
    var s := a[..];
    assert a[from..to] == s[from..to] && a[from..mid] == s[from..mid] && a[mid..to] == s[mid..to];
    SliceParts(s, from, mid, to);
  }

  lemma SliceParts(s: seq<byte>, from: nat, mid: nat, to: nat)
    requires from <= mid <= to <= |s|
    ensures s[from..to][..mid - from] == s[from..mid] && s[from..to][mid - from..] == s[mid..to]
  {
  }

  class CBuffer {
    /** NULL is modelled by an array without elements. */
    var buffer: array<byte>
    var bufferLen: nat
    var writeIdx: nat
    var readIdx: nat

    ghost predicate Valid()
      reads this
    {
      readIdx <= writeIdx <= bufferLen <= buffer.Length
    }

    ghost function View(): (s: S.State)
      requires Valid()
      reads this, buffer
      ensures s.Valid()
    {
      S.State(bufferLen, readIdx, writeIdx, buffer[readIdx..writeIdx])
    }

    constructor ()
      ensures Valid() && fresh(buffer) && View() == S.EMPTY
    {
      buffer := new byte[0];
      bufferLen, writeIdx, readIdx := 0, 0, 0;
    }

    /** memcpy of `count` bytes into a new allocation of `size` bytes. */
    static method CopyOf(source: array<byte>, from: nat, count: nat, size: nat) returns (space: array<byte>)
      requires from + count <= source.Length && count <= size
      ensures fresh(space) && space.Length == size
      ensures space[0..count] == source[from..from + count]
    {
      space := new byte[size];
      forall i | 0 <= i < count {
        space[i] := source[from + i];
      }
    }

    method ReadableBytes() returns (n: nat)
      requires Valid()
      ensures n == |View().pending|
    {
      n := if writeIdx > readIdx then writeIdx - readIdx else 0;
    }

    method WriteableBytes() returns (n: nat)
      requires Valid()
      ensures n == View().capacity - View().writeIdx
    {
      n := if bufferLen > writeIdx then bufferLen - writeIdx else 0;
    }

    method ToString() returns (s: seq<byte>)
      requires Valid()
      ensures s == View().pending
    {
      s := buffer[readIdx..writeIdx];
    }

    method Compact(leastLength: nat, memory: bool) returns (freed: uint32)
      requires Valid()
      modifies this
      ensures Valid() && (fresh(buffer) || buffer == old(buffer))
      ensures View() == S.Compact(old(View()), leastLength, memory)
      ensures freed == if S.Compacts(old(View()), leastLength, memory)
                       then (old(bufferLen) - old(|View().pending|)) % TWO_32 else 0
    {
      var writable := WriteableBytes();
      var writableBytes: uint32 := writable % TWO_32;
      if writableBytes < leastLength {
        return 0;
      }
      var readable := ReadableBytes();
      var readableBytes: uint32 := readable % TWO_32;
      var total: uint32 := bufferLen % TWO_32;
      if readableBytes > 0 && !memory {
        return 0;
      }
      Shrink(readableBytes);
      freed := (total - readableBytes) % TWO_32;
      ModSubtract(old(bufferLen), readable, TWO_32);
    }

    method Shrink(count: nat)
      requires Valid() && count <= |View().pending|
      modifies this
      ensures Valid() && fresh(buffer) && View() == S.State(count, 0, count, old(View().pending[..count]))
    {
      Slices(buffer, readIdx, readIdx + count, writeIdx);
      var newSpace := CopyOf(buffer, readIdx, count, count);
      readIdx, writeIdx, bufferLen := 0, count, count;
      buffer := newSpace;
    }

    static method Doubling(capacity: nat, needed: nat) returns (newCapacity: nat)
      requires capacity > 0
      ensures newCapacity == S.Doubled(capacity, needed)
    {
      newCapacity := capacity;
      while newCapacity < needed
        invariant newCapacity > 0 && S.Doubled(capacity, needed) == S.Doubled(newCapacity, needed)
        decreases needed - newCapacity
      {
        newCapacity := newCapacity * 2;
      }
    }

    method EnsureWritableBytes(minWritableBytes: nat, memory: bool) returns (ok: bool)
      requires Valid()
      modifies this
      ensures Valid() && (fresh(buffer) || buffer == old(buffer))
      ensures View() == S.Reserve(old(View()), minWritableBytes, memory)
      ensures ok == S.Reserved(old(View()), minWritableBytes, memory)
    {
      hide S.Compact, S.Compacts, S.Doubled;
      CompactUnlessLacking(View(), minWritableBytes, memory);
      var writable := WriteableBytes();
      if writable >= minWritableBytes {
        return true;
      }
      var newCapacity := bufferLen;
      if newCapacity > S.BUFFER_MAX_READ {
        // Changes nothing: the space found lacking above is lacking here too.
        var _ := Compact(minWritableBytes, memory);
      }
      if newCapacity == 0 {
        newCapacity := S.DEFAULT_BUFFER_SIZE;
      }
      var minNewCapacity := writeIdx + minWritableBytes;
      newCapacity := Doubling(newCapacity, minNewCapacity);
      if !memory {
        return false;
      }
      var readable := ReadableBytes();
      var tmp := CopyOf(buffer, readIdx, readable, newCapacity);
      buffer, bufferLen := tmp, newCapacity;
      writeIdx, readIdx := readable, 0;
      ok := true;
    }

    method Write(data: seq<byte>, memory: bool) returns (ret: int)
      requires Valid()
      modifies this, buffer
      ensures Valid() && (fresh(buffer) || buffer == old(buffer))
      ensures View() == S.Write(old(View()), data, memory)
      ensures ret == if S.Reserved(old(View()), |data|, memory) then S.ToInt(|data|) else -1
    {
      var ok := EnsureWritableBytes(|data|, memory);
      if !ok {
        return -1;
      }
      Put(data);
      ret := S.ToInt(|data|);
    }

    method Read(count: nat) returns (ret: int, data: seq<byte>)
      requires Valid()
      modifies this`readIdx
      ensures Valid()
      ensures if count <= old(|View().pending|)
              then View() == S.Skip(old(View()), count) && data == old(View().pending[..count]) && ret == S.ToInt(count)
              else View() == old(View()) && data == [] && ret == -1
    {
      var readable := ReadableBytes();
      if count > readable {
        return -1, [];
      }
      Slices(buffer, readIdx, readIdx + count, writeIdx);
      data := buffer[readIdx..readIdx + count];
      AdvanceReadIndex(count);
      ret := S.ToInt(count);
    }

    /** The `int` step of AdvanceReadIndex must be able to hold the count. */
    method SkipBytes(count: nat)
      requires Valid() && count <= |View().pending| && count < 0x8000_0000
      modifies this`readIdx
      ensures Valid() && View() == S.Skip(old(View()), count)
    {
      assert S.ToInt(count) == count;
      hide S.ToInt;
      AdvanceReadIndex(S.ToInt(count));
    }

    /** The original adds whatever it is given; its callers stay within the readable bytes. */
    method AdvanceReadIndex(step: nat)
      requires Valid() && step <= |View().pending|
      modifies this`readIdx
      ensures Valid() && View() == S.Skip(old(View()), step)
    {
      Slices(buffer, readIdx, readIdx + step, writeIdx);
      readIdx := readIdx + step;
    }

    /** Moves bytes out of another buffer, `Write(CBuffer*, size_t)` of the original. */
    method WriteFrom(unit: CBuffer?, count: nat, memory: bool) returns (ret: int)
      requires Valid()
      requires unit != null ==> unit != this && unit.Valid() && unit.buffer != buffer
      modifies this, buffer, unit
      ensures Valid() && (fresh(buffer) || buffer == old(buffer))
      ensures unit == null ==> View() == old(View()) && ret == -1
      ensures unit != null ==>
                && unit.Valid() && unit.buffer == old(unit.buffer)
                && var n := S.Copied(old(unit.View()), count);
                && View() == S.Write(old(View()), old(unit.View()).pending[..n], memory)
                && unit.View() == S.Skip(old(unit.View()), S.Advance(old(unit.View()), old(View()), count, memory))
    {
      if unit == null {
        return -1;
      }
      ghost var source, destination := unit.View(), View();
      var readable := unit.ReadableBytes();
      var n := if count > readable then readable else count;
      AdvanceIs(source, destination, count, memory);
      hide S.Write, S.Reserved, S.ToInt, S.Advance;
      assert readable == |source.pending| && n == S.Copied(source, count);
      var bytes := unit.ToString();
      ret := Write(bytes[..n], memory);
      assert unit.View() == source;
      if ret > 0 {
        unit.AdvanceReadIndex(ret);
      }
    }

    /** `Read(CBuffer*, size_t)`: the destination pulls. */
    method ReadInto(unit: CBuffer?, count: nat, memory: bool) returns (ret: int)
      requires Valid()
      requires unit != null ==> unit != this && unit.Valid() && unit.buffer != buffer
      modifies this, unit, if unit == null then {} else {unit.buffer}
      ensures Valid() && buffer == old(buffer)
      ensures unit == null ==> View() == old(View()) && ret == -1
      ensures unit != null ==>
                && unit.Valid()
                && var n := S.Copied(old(View()), count);
                && unit.View() == S.Write(old(unit.View()), old(View()).pending[..n], memory)
                && View() == S.Skip(old(View()), S.Advance(old(View()), old(unit.View()), count, memory))
    {
      if unit == null {
        return -1;
      }
      ret := unit.WriteFrom(this, count, memory);
    }

    method DiscardReadedBytes()
      requires Valid()
      modifies this, buffer
      ensures Valid() && buffer == old(buffer)
      ensures View() == S.Discard(old(View()))
    {
      if readIdx > 0 {
        if writeIdx > readIdx {
          var tmp := ReadableBytes();
          ghost var pending := buffer[readIdx..writeIdx];
          forall i | 0 <= i < tmp {
            buffer[i] := buffer[readIdx + i];
          }
          assert buffer[0..tmp] == pending;
          readIdx, writeIdx := 0, tmp;
        } else {
          readIdx, writeIdx := 0, 0;
        }
      }
    }

    /** `readv` filled the free space and then the 32768-byte stack buffer with `chunk`. */
    method ReadFD(chunk: seq<byte>, memory: bool) returns (n: nat)
      requires Valid()
      modifies this, buffer
      ensures Valid() && (fresh(buffer) || buffer == old(buffer))
      ensures View() == S.ReadFD(old(View()), chunk, memory)
      ensures n == |chunk|
    {
      hide S.Write;
      var writable := WriteableBytes();
      n := |chunk|;
      var first := if n <= writable then chunk else chunk[..writable];
      assert first == chunk[..S.Min(n, writable)];
      Put(first);
      if n > writable {
        assert View() == old(View()).(writeIdx := bufferLen, pending := old(View()).pending + first);
        var _ := Write(chunk[writable..], memory);
      }
    }

    /** memcpy of bytes that fit behind the write index. */
    method Put(data: seq<byte>)
      requires Valid() && writeIdx + |data| <= bufferLen
      modifies this`writeIdx, buffer
      ensures Valid()
      ensures View() == old(View()).(writeIdx := old(writeIdx) + |data|, pending := old(View()).pending + data)
    {
      ghost var pending := buffer[readIdx..writeIdx];
      forall i | 0 <= i < |data| {
        buffer[writeIdx + i] := data[i];
      }
      assert buffer[readIdx..writeIdx + |data|] == pending + data;
      writeIdx := writeIdx + |data|;
    }
  }
}
