/** The byte buffer that code is emitted into and the array of objects, both of which move
    to a larger block of memory when they are full.
 */
module GrowingStorage {
  import opened MachineWords
  import opened LittleEndian

  function Le16(v: int): (r: seq<Byte>)
    requires 0 <= v < 0x10000
    ensures |r| == 2
  {
    [v % 0x100, v / 0x100]
  }

  lemma Order16(v: int)
    requires 0 <= v < 0x10000
    ensures Le16(v) == Le32(v)[..2]
  {
    assert v / 0x100 % 0x100 == v / 0x100;
  }

  // ---------------------------------------------------------------- the byte buffer

  /** `LiteMutableBuffer` and `CodeBufferBase`; `size` is the distance of the cursor. */
  class CodeBuffer {
    var buffer: array<Byte>
    var size: nat

    ghost predicate Valid()
      reads this
    {
      size <= buffer.Length && 0 < buffer.Length
    }

    ghost function Contents(): seq<Byte>
      reads this, buffer
      requires Valid()
    {
      buffer[..size]
    }

    constructor (capacity: nat)
      requires capacity > 0
      ensures Valid() && fresh(buffer) && buffer.Length == capacity && Contents() == []
    {
      buffer := new Byte[capacity](_ => 0);
      size := 0;
    }

    /** `ensureCapacity`, when the allocation succeeds: the new block is half as large again as
        asked for, and filled with 'A' behind the contents. */
    method EnsureCapacity(capacity: nat) returns (now: nat)
      requires Valid()
      modifies this`buffer
      ensures Valid() && Contents() == old(Contents()) && (buffer == old(buffer) || fresh(buffer))
      ensures now == buffer.Length && buffer.Length >= capacity
      ensures buffer.Length == if capacity <= old(buffer.Length) then old(buffer.Length) else capacity + capacity / 2
    {
      if capacity <= buffer.Length { return buffer.Length; }
      var bigger := new Byte[capacity + capacity / 2](_ => 0x41);
      forall i | 0 <= i < size { bigger[i] := buffer[i]; }
      assert bigger[..size] == buffer[..size];
      buffer := bigger;
      return buffer.Length;
    }

    /** `EmitBuffer`; the other emitters are this with the bytes of their value. */
    method EmitBuffer(bytes: seq<Byte>)
      requires Valid()
      modifies this, buffer
      ensures Valid() && Contents() == old(Contents()) + bytes && (buffer == old(buffer) || fresh(buffer))
    {
      var _ := EnsureCapacity(|bytes| + size);
      forall i | size <= i < size + |bytes| { buffer[i] := bytes[i - size]; }
      assert buffer[..size] == old(Contents());
      forall k | 0 <= k < |bytes| ensures buffer[size..size + |bytes|][k] == bytes[k] { assert buffer[size + k] == bytes[k]; }
      assert buffer[size..size + |bytes|] == bytes;
      size := size + |bytes|;
    }

    method Emit8(v: Byte)
      requires Valid()
      modifies this, buffer
      ensures Valid() && Contents() == old(Contents()) + [v] && (buffer == old(buffer) || fresh(buffer))
    {
      EmitBuffer([v]);
    }

    method Emit16(v: int)
      requires Valid() && 0 <= v < 0x10000
      modifies this, buffer
      ensures Valid() && Contents() == old(Contents()) + Le16(v) && (buffer == old(buffer) || fresh(buffer))
    {
      EmitBuffer(Le16(v));
    }

    method Emit32(v: U32)
      requires Valid()
      modifies this, buffer
      ensures Valid() && Contents() == old(Contents()) + Le32(v) && (buffer == old(buffer) || fresh(buffer))
    {
      EmitBuffer(Le32(v));
    }

    method Emit64(v: U64)
      requires Valid()
      modifies this, buffer
      ensures Valid() && Contents() == old(Contents()) + Le64(v) && (buffer == old(buffer) || fresh(buffer))
    {
      EmitBuffer(Le64(v));
    }

    /** `RewriteAddr`: four bytes of the contents replaced, nothing else. */
    method RewriteAddr(offset: nat, v: U32)
      requires Valid() && offset + 4 <= size
      modifies buffer
      ensures Valid() && Contents() == old(Contents()[..offset]) + Le32(v) + old(Contents()[offset + 4..])
    {
      var bytes := Le32(v);
      forall i | offset <= i < offset + 4 { buffer[i] := bytes[i - offset]; }
      assert buffer[..offset] == old(buffer[..offset]) && buffer[offset..offset + 4] == bytes;
      assert buffer[offset + 4..size] == old(buffer[offset + 4..size]);
    }

    /** A word loaded back from where it was written. */
    method LoadWord(offset: nat) returns (v: U32)
      requires Valid() && offset + 4 <= size
      ensures v == Read32(Contents()[offset..offset + 4])
    {
      assert Contents()[offset..offset + 4] == buffer[offset..offset + 4];
      return Read32(buffer[offset..offset + 4]);
    }

    /** `Copy`: a buffer of its own with the same contents. */
    method Copy() returns (c: CodeBuffer)
      requires Valid()
      ensures fresh(c) && fresh(c.buffer) && c.Valid() && c.Contents() == Contents()
    {
      c := new CodeBuffer(buffer.Length);
      c.EmitBuffer(buffer[..size]);
    }
  }

  // ---------------------------------------------------------------- the array of objects

  /** `LiteMutableArray`, with objects as numbers. */
  class MutableArray {
    var items: array<int>
    var count: nat

    ghost predicate Valid()
      reads this
    {
      count <= items.Length
    }

    ghost function Contents(): seq<int>
      reads this, items
      requires Valid()
    {
      items[..count]
    }

    constructor (capacity: nat)
      ensures Valid() && fresh(items) && items.Length == capacity && Contents() == []
    {
      items := new int[capacity](_ => 0);
      count := 0;
    }

    /** `ensureCapacity`, to the next multiple of 64 above what is asked for; 0 when the allocation
        fails, and nothing has changed then. */
    method EnsureCapacity(capacity: nat, granted: bool) returns (now: nat)
      requires Valid()
      modifies this`items
      ensures Valid() && Contents() == old(Contents()) && (items == old(items) || fresh(items))
      ensures capacity <= old(items.Length) ==> now == items.Length && items == old(items)
      ensures capacity > old(items.Length) && granted ==> now == items.Length && now % 64 == 0 && capacity < now <= capacity + 64
      ensures capacity > old(items.Length) && !granted ==> now == 0 && items == old(items)
    {
      if capacity <= items.Length { return items.Length; }
      if !granted { return 0; }
      var rounded := capacity + 64 - (capacity + 64) % 64;
      var bigger := new int[rounded](_ => 0x41414141);
      forall i | 0 <= i < count { bigger[i] := items[i]; }
      assert bigger[..count] == items[..count];
      items := bigger;
      return rounded;
    }

    /** `pushObject` fails only when it needs memory and gets none, and then changes nothing. */
    method PushObject(x: int, granted: bool) returns (ok: bool)
      requires Valid()
      modifies this, items
      ensures Valid() && (items == old(items) || fresh(items))
      ensures ok <==> old(count) < old(items.Length) || granted
      ensures Contents() == if ok then old(Contents()) + [x] else old(Contents())
    {
      if count + 1 > items.Length {
        var now := EnsureCapacity(count + 1, granted);
        if count + 1 > now { return false; }
      }
      items[count] := x;
      count := count + 1;
      return true;
    }

    /** `getNextObjectForIterator`, on the index that the iterator holds. */
    method GetNextObject(ndx: nat) returns (found: bool, x: int, ndx': nat)
      requires Valid()
      ensures ndx' == ndx + 1 && found == (ndx < |Contents()|) && (found ==> x == Contents()[ndx])
    {
      if ndx < count { return true, items[ndx], ndx + 1; }
      return false, 0, ndx + 1;
    }

    /** The loop that callers write around the iterator meets every object once, in order. */
    method Iterate() returns (seen: seq<int>)
      requires Valid()
      ensures seen == Contents()
    {
      seen := [];
      var ndx := 0;
      var found, x, ndx' := GetNextObject(ndx);
      while found
        invariant ndx <= |Contents()| && seen == Contents()[..ndx] && ndx' == ndx + 1
        invariant found == (ndx < |Contents()|) && (found ==> x == Contents()[ndx])
        decreases |Contents()| - ndx
      {
        seen := seen + [x];
        ndx := ndx';
        found, x, ndx' := GetNextObject(ndx);
      }
    }
  }

  // ---------------------------------------------------------------- any mix of emits

  datatype Emission = E8(b: Byte) | E16(h: int) | E32(w: U32) | E64(d: U64) | Raw(bytes: seq<Byte>)

  predicate Emittable(x: Emission) { x.E16? ==> 0 <= x.h < 0x10000 }

  function BytesOf(x: Emission): seq<Byte>
    requires Emittable(x)
  {
    match x
    case E8(b) => [b]
    case E16(h) => Le16(h)
    case E32(w) => Le32(w)
    case E64(d) => Le64(d)
    case Raw(bytes) => bytes
  }

  function Concat(run: seq<Emission>): seq<Byte>
    requires forall k :: 0 <= k < |run| ==> Emittable(run[k])
  {
    if run == [] then [] else Concat(run[..|run| - 1]) + BytesOf(run[|run| - 1])
  }

  method EmitOne(buffer: CodeBuffer, x: Emission)
    requires buffer.Valid() && Emittable(x)
    modifies buffer, buffer.buffer
    ensures buffer.Valid() && buffer.Contents() == old(buffer.Contents()) + BytesOf(x)
    ensures buffer.buffer == old(buffer.buffer) || fresh(buffer.buffer)
  {
    hide Le16, Le32, Le64;
    match x
    case E8(b) => buffer.Emit8(b);
    case E16(h) => buffer.Emit16(h);
    case E32(w) => buffer.Emit32(w);
    case E64(d) => buffer.Emit64(d);
    case Raw(bytes) => buffer.EmitBuffer(bytes);
  }

  /** Any run of emitters, across any number of reallocations, leaves the concatenation of what was emitted. */
  method EmitAll(buffer: CodeBuffer, run: seq<Emission>)
    requires buffer.Valid() && forall k :: 0 <= k < |run| ==> Emittable(run[k])
    modifies buffer, buffer.buffer
    ensures buffer.Valid() && buffer.Contents() == old(buffer.Contents()) + Concat(run)
  {
    hide BytesOf, Emittable;
    for i := 0 to |run|
      invariant buffer.Valid() && (buffer.buffer == old(buffer.buffer) || fresh(buffer.buffer))
      invariant buffer.Contents() == old(buffer.Contents()) + Concat(run[..i])
    {
      assert run[..i + 1][..i] == run[..i];
      EmitOne(buffer, run[i]);
    }
    assert run[..|run|] == run;
  }
}
