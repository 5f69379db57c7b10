/** The JavaScript Encoder and MessageBuilder: imperative encoding into a shared buffer and handle table. */
module JsEncoder {
  import opened Bytes
  import opened Wire
  import opened JsBuffer

  /** The handle array that all encoders of a message share. */
  class HandleTable {
    var items: seq<Value>

    constructor ()
      ensures items == []
    {
      items := [];
    }
  }

  /** s with zeros from pos on replaced by the slots of o, and the tail of o appended. */
  function Written(s: seq<byte>, pos: nat, o: Out): (r: seq<byte>)
    requires pos + |o.slots| <= |s|
    ensures |r| == |s| + |o.tail|
  {
    Put(s, pos, o.slots) + o.tail
  }

  /** The next `size` bytes after pos are still as they were allocated. */
  predicate IsBlank(s: seq<byte>, pos: nat, size: nat) {
    pos + size <= |s| && s[pos..pos + size] == Zeros(size)
  }

  /** The sizes that encoding a slot allocates, in order. */
  function Allocations(sc: Schema, t: Type, v: Value): (sizes: seq<nat>)
    requires Shaped(sc, t, v)
    decreases v, 2
  {
    if !IsPointer(t) || v.Null? then [] else [Align(BlockSize(sc, t, v))] + InnerAllocations(sc, t, v)
  }

  /** ... and behind its own block. */
  function InnerAllocations(sc: Schema, t: Type, v: Value): (sizes: seq<nat>)
    requires IsPresent(sc, t, v)
    decreases v, 1
  {
    if IsRaw(t) then [] else AllocationsAll(sc, BlockSlots(sc, t, |v.items|), v.items)
  }

  function AllocationsAll(sc: Schema, ts: seq<Type>, vs: seq<Value>): (sizes: seq<nat>)
    requires ShapedAll(sc, ts, vs)
    decreases vs, 0
  {
    if |vs| == 0 then []
    else
      var k := |vs| - 1;
      AllocationsAll(sc, ts[..k], vs[..k]) + Allocations(sc, ts[k], vs[k])
  }

  /** The allocations of the first i of several slots. */
  function AllocationsUpTo(sc: Schema, ts: seq<Type>, vs: seq<Value>, i: nat): (sizes: seq<nat>)
    requires ShapedAll(sc, ts, vs) && i <= |vs|
  {
    ShapedPrefix(sc, ts, vs, i);
    AllocationsAll(sc, ts[..i], vs[..i])
  }

  lemma AllocationsStep(sc: Schema, ts: seq<Type>, vs: seq<Value>, i: nat, m: Memory)
    requires ShapedAll(sc, ts, vs) && i < |vs|
    ensures |ts| == |vs| && Shaped(sc, ts[i], vs[i])
    ensures AllocationsUpTo(sc, ts, vs, i + 1) == AllocationsUpTo(sc, ts, vs, i) + Allocations(sc, ts[i], vs[i])
    ensures AllocateAll(m, AllocationsUpTo(sc, ts, vs, i + 1))
         == AllocateAll(AllocateAll(m, AllocationsUpTo(sc, ts, vs, i)), Allocations(sc, ts[i], vs[i]))
    ensures AllAllocatable(m, AllocationsUpTo(sc, ts, vs, i + 1))
       <==> AllAllocatable(m, AllocationsUpTo(sc, ts, vs, i))
            && AllAllocatable(AllocateAll(m, AllocationsUpTo(sc, ts, vs, i)), Allocations(sc, ts[i], vs[i]))
  {
    hide Shaped, ShapedAll, Allocations, AllocateAll, AllAllocatable;
    ShapedPrefix(sc, ts, vs, i);
    ShapedPrefix(sc, ts, vs, i + 1);
    ShapedSizes(sc, ts, vs);
    assert ts[..i + 1][..i] == ts[..i] && vs[..i + 1][..i] == vs[..i];
    ShapedLast(sc, ts[..i + 1], vs[..i + 1]);
    AllocateMore(m, AllocationsUpTo(sc, ts, vs, i), Allocations(sc, ts[i], vs[i]));
  }

  lemma ShapedSizes(sc: Schema, ts: seq<Type>, vs: seq<Value>)
    requires ShapedAll(sc, ts, vs)
    ensures |ts| == |vs|
  {
  }

  lemma ShapedLast(sc: Schema, ts: seq<Type>, vs: seq<Value>)
    requires ShapedAll(sc, ts, vs) && |vs| > 0
    ensures |ts| == |vs| && Shaped(sc, ts[|vs| - 1], vs[|vs| - 1])
  {
    hide Shaped;
  }

  /** What can be allocated in all can be allocated in part. */
  lemma {:induction false} AllocatableUpTo(sc: Schema, ts: seq<Type>, vs: seq<Value>, i: nat, n: nat, m: Memory)
    requires ShapedAll(sc, ts, vs) && i <= n <= |vs| && AllAllocatable(m, AllocationsUpTo(sc, ts, vs, n))
    ensures AllAllocatable(m, AllocationsUpTo(sc, ts, vs, i))
    decreases n
  {
    hide Shaped, ShapedAll, Allocations, AllocationsUpTo, AllocateAll, AllAllocatable;
    if i < n {
      AllocationsStep(sc, ts, vs, n - 1, m);
      AllocatableUpTo(sc, ts, vs, i, n - 1, m);
    }
  }

  class Encoder {
    const schema: Schema
    const buffer: Buffer
    const handles: HandleTable
    const base: nat
    var next: nat

    constructor (schema: Schema, buffer: Buffer, handles: HandleTable, base: nat)
      ensures this.schema == schema && this.buffer == buffer && this.handles == handles
      ensures this.base == base && next == base
    {
      this.schema, this.buffer, this.handles, this.base, this.next := schema, buffer, handles, base, base;
    }

    method Skip(offset: nat)
      modifies this`next
      ensures next == old(next) + offset
    {
      next := next + offset;
    }

    method WriteInt(value: int, size: nat)
      requires size in {1, 2, 4, 8} && buffer.Valid() && next + size <= buffer.next
      modifies this`next, buffer.arrayBuffer
      ensures buffer.Valid() && buffer.Used() == Put(old(buffer.Used()), old(next), ToLE(value, size))
      ensures next == old(next) + size
    {
      if size == 8 {
        buffer.SetInt64(next, value);
      } else {
        buffer.SetInt(next, value, size);
      }
      next := next + size;
    }

    /** Refuses a negative value, writing nothing. */
    method WriteUint(value: int, size: nat) returns (ok: bool)
      requires size in {1, 2, 4, 8} && buffer.Valid() && next + size <= buffer.next
      modifies this`next, buffer.arrayBuffer
      ensures ok <==> 0 <= value
      ensures buffer.Valid()
      ensures if ok then
                && buffer.Used() == Put(old(buffer.Used()), old(next), ToLE(value, size))
                && next == old(next) + size
              else buffer.Used() == old(buffer.Used()) && next == old(next)
    {
      if value < 0 { return false; }
      if size == 8 {
        buffer.SetUint64(next, value);
      } else {
        buffer.SetInt(next, value, size);
      }
      next := next + size;
      return true;
    }

    /** The two header words of a block. */
    method WriteHeader(size: nat, word: nat)
      requires buffer.Valid() && next + 8 <= buffer.next
      modifies this`next, buffer.arrayBuffer
      ensures buffer.Valid() && buffer.Used() == Put(old(buffer.Used()), old(next), Header(size, word))
      ensures next == old(next) + 8
    {
      var _ := WriteUint(size, 4);
      var _ := WriteUint(word, 4);
      PutTwice(old(buffer.Used()), old(next), ToLE(size, 4), ToLE(word, 4));
    }

    /** The distance from this slot to its block; no pointer is written as 0. */
    method EncodePointer(pointer: nat)
      requires buffer.Valid() && next + 8 <= buffer.next && (pointer == 0 || next <= pointer)
      modifies this`next, buffer.arrayBuffer
      ensures buffer.Valid() && next == old(next) + 8
      ensures buffer.Used()
           == Put(old(buffer.Used()), old(next), ToLE(if pointer == 0 then 0 else pointer - old(next), 8))
    {
      if pointer == 0 {
        var _ := WriteUint(0, 8);
      } else {
        var _ := WriteUint(pointer - next, 8);
      }
    }

    /** Allocates an aligned block, points this slot at it and returns an encoder for it. */
    method CreateAndEncodeEncoder(size: nat) returns (e: Encoder)
      requires buffer.Valid() && next + 8 <= buffer.next && Allocatable(buffer.Extent(), Align(size))
      modifies this`next, buffer, buffer.arrayBuffer
      ensures buffer.Valid() && next == old(next) + 8 && buffer.Extent() == Allocate(old(buffer.Extent()), Align(size))
      ensures buffer.Used() == Put(old(buffer.Used()), old(next), ToLE(old(buffer.next) - old(next), 8))
                             + Zeros(Align(size))
      ensures buffer.arrayBuffer == old(buffer.arrayBuffer) || fresh(buffer.arrayBuffer)
      ensures fresh(e) && e.schema == schema && e.buffer == buffer && e.handles == handles
      ensures e.base == e.next == old(buffer.next)
    {
      hide Align, Put, InLimit, ToLE;
      var r := buffer.Alloc(Align(size));
      var pointer := r.pointer;
      EncodePointer(pointer);
      PutBefore(old(buffer.Used()), Zeros(Align(size)), old(next), ToLE(pointer - old(next), 8));
      e := new Encoder(schema, buffer, handles, pointer);
    }

    method EncodeHandle(handle: Value)
      requires buffer.Valid() && next + 4 <= buffer.next
      modifies this`next, buffer.arrayBuffer, handles
      ensures buffer.Valid() && next == old(next) + 4 && handles.items == old(handles.items) + [handle]
      ensures buffer.Used() == Put(old(buffer.Used()), old(next), ToLE(|old(handles.items)|, 4))
    {
      handles.items := handles.items + [handle];
      var _ := WriteUint(|handles.items| - 1, 4);
    }

    /** What encoding v as a slot of type t here will write. */
    ghost function Outcome(t: Type, v: Value): Out
      requires Shaped(schema, t, v)
      reads this, buffer, handles
    {
      Wire.Encode(JavaScript, schema, t, v, buffer.next - next, |handles.items|)
    }

    /** Encodes one slot. */
    method Encode(t: Type, v: Value)
      requires WellFormedSchema(schema) && Shaped(schema, t, v) && buffer.Valid()
      requires IsBlank(buffer.Used(), next, SlotSize(t))
      requires AllAllocatable(buffer.Extent(), Allocations(schema, t, v))
      modifies this`next, buffer, buffer.arrayBuffer, handles
      ensures buffer.Valid() && (buffer.arrayBuffer == old(buffer.arrayBuffer) || fresh(buffer.arrayBuffer))
      ensures next == old(next) + SlotSize(t)
      ensures buffer.Extent() == AllocateAll(old(buffer.Extent()), Allocations(schema, t, v))
      ensures buffer.Used() == Written(old(buffer.Used()), old(next), old(Outcome(t, v)))
      ensures handles.items == old(handles.items) + old(Outcome(t, v)).handles
      decreases v, 4
    {
      hide WellFormedSchema, WellFormedElement, ShapedAll, BlockSlots, EncodeBody, Block, BlockSize, BlockWord, ToLE,
        Align, IsKind, Allocations, AllocateAll, AllAllocatable;
      NoBlock(schema, t, v, buffer.Extent());
      if t.Integer? {
        EncodeInteger(t, v.n);
      } else if t.Padding? {
        Skip(t.size);
        BlankIsWritten(old(buffer.Used()), old(next), t.size);
      } else if t.Bits? {
        var packed := PackByte(Flags(v.items));
        var _ := WriteUint(packed, 1);
        OneByte(packed);
      } else if t.Handle? {
        EncodeHandle(v);
      } else if t.Interface? {
        EncodeHandle(v);
        var _ := WriteUint(0, 4);
        PutTwice(old(buffer.Used()), old(next), ToLE(|old(handles.items)|, 4), ToLE(0, 4));
      } else {
        EncodeReference(t, v);
      }
    }

    method EncodeInteger(t: Type, n: int)
      requires t.Integer? && t.size in {1, 2, 4, 8} && InRange(n, t.size, t.signed)
      requires buffer.Valid() && next + t.size <= buffer.next
      modifies this`next, buffer.arrayBuffer
      ensures buffer.Valid() && buffer.Used() == Put(old(buffer.Used()), old(next), ToLE(n, t.size))
      ensures next == old(next) + t.size
    {
      if t.signed {
        WriteInt(n, t.size);
      } else {
        var _ := WriteUint(n, t.size);
      }
    }

    /** Encodes a slot of a pointer type: encodeStringPointer, encodeArrayPointer, encodeStructPointer and
        encodeMapPointer, which differ only in the block they write. */
    method EncodeReference(t: Type, v: Value)
      requires WellFormedSchema(schema) && IsPointer(t) && Shaped(schema, t, v) && buffer.Valid()
      requires next + 8 <= buffer.next && AllAllocatable(buffer.Extent(), Allocations(schema, t, v))
      modifies this`next, buffer, buffer.arrayBuffer, handles
      ensures buffer.Valid() && (buffer.arrayBuffer == old(buffer.arrayBuffer) || fresh(buffer.arrayBuffer))
      ensures next == old(next) + 8
      ensures buffer.Extent() == AllocateAll(old(buffer.Extent()), Allocations(schema, t, v))
      ensures buffer.Used() == Written(old(buffer.Used()), old(next), old(Outcome(t, v)))
      ensures handles.items == old(handles.items) + old(Outcome(t, v)).handles
      decreases v, 3
    {
      hide WellFormedSchema, WellFormed, ShapedAll, BlockSlots, EncodeBody, BlockSize, BlockWord, ToLE, Align, IsKind,
        IsBlank, Put, Allocations, InnerAllocations, AllocateAll, AllAllocatable, Allocate, Allocatable;
      NoBlock(schema, t, v, buffer.Extent());
      if v.Null? {
        EncodePointer(0);
      } else {
        ghost var b := EncodePresent(JavaScript, schema, t, v, buffer.next - next, |handles.items|);
        ghost var size, word := BlockSize(schema, t, v), BlockWord(schema, t, v);
        ghost var start := Put(buffer.Used(), next, ToLE(buffer.next - next, 8));
        BlockAllocated(buffer.Extent(), schema, t, v);
        var encodedSize := EncodedSize(t, v);
        var e := CreateAndEncodeEncoder(encodedSize);
        e.EncodeBlock(t, v, encodedSize, start);
      }
    }

    /** The size that the pointer encoders compute before they allocate. */
    method EncodedSize(t: Type, v: Value) returns (size: nat)
      requires IsPresent(schema, t, v)
      ensures size == BlockSize(schema, t, v)
    {
      hide ShapedAll, SlotsSize, WellFormedElement, BoolBytes;
      if t.String? {
        size := 8 + |v.bytes|;
      } else if t.PointerTo? {
        size := 8 + SlotsSize(schema[t.cls].slots);
      } else if t.MapOf? {
        size := 24;
        PairSize(ArrayOf(t.key, 0), ArrayOf(t.value, 0));
      } else if t.elem.PackedBool? {
        size := 8 + (|v.items| + 7) / 8;
      } else {
        size := 8 + SlotSize(t.elem) * |v.items|;
        RepeatSize(t.elem, |v.items|);
      }
    }

    /** Fills the fresh block that this encoder was made for. */
    method EncodeBlock(t: Type, v: Value, encodedSize: nat, ghost start: seq<byte>)
      requires WellFormedSchema(schema) && IsPresent(schema, t, v) && encodedSize == BlockSize(schema, t, v)
      requires buffer.Valid() && next == base == |start| && buffer.Used() == start + Zeros(Align(encodedSize))
      requires AllAllocatable(buffer.Extent(), InnerAllocations(schema, t, v))
      modifies this`next, buffer, buffer.arrayBuffer, handles
      ensures buffer.Valid() && (buffer.arrayBuffer == old(buffer.arrayBuffer) || fresh(buffer.arrayBuffer))
      ensures buffer.Extent() == AllocateAll(old(buffer.Extent()), InnerAllocations(schema, t, v))
      ensures var b := EncodeBody(JavaScript, schema, t, v, |old(handles.items)|);
              && buffer.Used() == start + Block(encodedSize, BlockWord(schema, t, v), b)
              && handles.items == old(handles.items) + b.handles
      decreases v, 2
    {
      hide WellFormedSchema, WellFormed, Shaped, ShapedAll, EncodeBody, EncodeSlots, ToLE, Align, IsBlank, Put,
        SlotsSize, BoolBytes, Header, Written, Block, AllocationsAll, AllocateAll, AllAllocatable;
      InnerOf(schema, t, v, buffer.Extent());
      if IsRaw(t) {
        EncodeRaw(t, v, encodedSize, start);
      } else {
        ghost var ts := BodyIsSlots(JavaScript, schema, t, v, |handles.items|);
        if t.PointerTo? {
          EncodeSlotBlock(encodedSize, schema[t.cls].version, schema[t.cls].slots, v.items, start);
        } else if t.MapOf? {
          EncodeSlotBlock(encodedSize, 0, [ArrayOf(t.key, 0), ArrayOf(t.value, 0)], v.items, start);
        } else {
          EncodeSlotBlock(encodedSize, |v.items|, Repeat(t.elem, |v.items|), v.items, start);
        }
      }
    }

    method EncodeRaw(t: Type, v: Value, encodedSize: nat, ghost start: seq<byte>)
      requires IsPresent(schema, t, v) && IsRaw(t) && encodedSize == BlockSize(schema, t, v)
      requires buffer.Valid() && next == base == |start| && buffer.Used() == start + Zeros(Align(encodedSize))
      modifies this`next, buffer.arrayBuffer
      ensures buffer.Valid()
      ensures var b := EncodeBody(JavaScript, schema, t, v, |handles.items|);
              && buffer.Used() == start + Block(encodedSize, BlockWord(schema, t, v), b)
              && b.handles == []
    {
      hide WellFormed, ShapedAll, ToLE, Align, IsBlank, Put, BoolBytes, Header, Written, Block;
      if t.String? {
        EncodeString(v.bytes);
        StringFilled(start, encodedSize, v.bytes);
      } else {
        var bytes := BoolBytes(Flags(v.items));
        BlockHeaded(start, encodedSize, |v.items|);
        BlockFilled(start, encodedSize, |v.items|, Out(bytes, [], []));
        WriteHeader(encodedSize, |v.items|);
        WrittenRaw(buffer.Used(), next, bytes);
        EncodeBools(v.items);
      }
    }

    /** A block of slots: the header, then the slots one after the other. */
    method EncodeSlotBlock(size: nat, word: nat, ts: seq<Type>, vs: seq<Value>, ghost start: seq<byte>)
      requires WellFormedSchema(schema) && ShapedAll(schema, ts, vs) && size == 8 + SlotsSize(ts)
      requires buffer.Valid() && next == base == |start| && buffer.Used() == start + Zeros(Align(size))
      requires AllAllocatable(buffer.Extent(), AllocationsAll(schema, ts, vs))
      modifies this`next, buffer, buffer.arrayBuffer, handles
      ensures buffer.Valid() && (buffer.arrayBuffer == old(buffer.arrayBuffer) || fresh(buffer.arrayBuffer))
      ensures buffer.Extent() == AllocateAll(old(buffer.Extent()), AllocationsAll(schema, ts, vs))
      ensures var b := EncodeSlots(JavaScript, schema, ts, vs, Align(size) - 8, |old(handles.items)|);
              buffer.Used() == start + Block(size, word, b) && handles.items == old(handles.items) + b.handles
      decreases vs, 1
    {
      hide WellFormedSchema, ShapedAll, EncodeSlots, ToLE, Align, IsBlank, Put, SlotsSize, Header, Written, Block;
      BlockHeaded(start, size, word);
      BlockFilled(start, size, word, EncodeSlots(JavaScript, schema, ts, vs, Align(size) - 8, |handles.items|));
      WriteHeader(size, word);
      EncodeItems(ts, vs);
    }

    /** The characters first, then the header in front of them. */
    method EncodeString(bytes: seq<byte>)
      requires buffer.Valid() && next + 8 + |bytes| <= buffer.next
      modifies this`next, buffer.arrayBuffer
      ensures buffer.Valid() && next == old(next) + 8 + |bytes|
      ensures buffer.Used()
           == Put(Put(old(buffer.Used()), old(next) + 8, bytes), old(next), Header(8 + |bytes|, |bytes|))
    {
      buffer.SetBytes(next + 8, bytes);
      WriteHeader(8 + |bytes|, |bytes|);
      Skip(|bytes|);
    }

    /** Encodes values into consecutive slots. */
    method EncodeItems(ts: seq<Type>, vs: seq<Value>)
      requires WellFormedSchema(schema) && ShapedAll(schema, ts, vs) && buffer.Valid()
      requires IsBlank(buffer.Used(), next, SlotsSize(ts))
      requires AllAllocatable(buffer.Extent(), AllocationsAll(schema, ts, vs))
      modifies this`next, buffer, buffer.arrayBuffer, handles
      ensures buffer.Valid() && (buffer.arrayBuffer == old(buffer.arrayBuffer) || fresh(buffer.arrayBuffer))
      ensures buffer.Extent() == AllocateAll(old(buffer.Extent()), AllocationsAll(schema, ts, vs))
      ensures var o := EncodeSlots(JavaScript, schema, ts, vs, old(buffer.next - next), |old(handles.items)|);
              && buffer.Used() == Written(old(buffer.Used()), old(next), o)
              && handles.items == old(handles.items) + o.handles
      decreases vs, 0
    {
      hide WellFormedSchema, Shaped, ShapedAll, EncodeSlots, Wire.Encode, Put, SlotsSize, SlotSize, Written, Prefix,
        Allocations, AllocationsAll, AllocationsUpTo, AllocateAll, AllAllocatable;
      ghost var used, start, gap, h := buffer.Used(), next, buffer.next - next, |handles.items|;
      ghost var hs := handles.items;
      ghost var a := Prefix(JavaScript, schema, ts, vs, gap, h, 0);
      ghost var memory := buffer.Extent();
      PrefixNone(JavaScript, schema, ts, vs, gap, h);
      NothingAllocated(schema, ts, vs, memory);
      WrittenNothing(used, start);
      for i := 0 to |vs|
        invariant buffer.Valid() && (buffer.arrayBuffer == old(buffer.arrayBuffer) || fresh(buffer.arrayBuffer))
        invariant a == Prefix(JavaScript, schema, ts, vs, gap, h, i)
        invariant start + |a.slots| == next && start + |a.slots| <= |used|
        invariant buffer.Used() == Written(used, start, a)
        invariant handles.items == hs + a.handles
        invariant buffer.Extent() == AllocateAll(memory, AllocationsUpTo(schema, ts, vs, i))
      {
        AllocatableUpTo(schema, ts, vs, i + 1, |vs|, memory);
        AllocationsStep(schema, ts, vs, i, memory);
        ghost var b := PrefixStep(JavaScript, schema, ts, vs, gap, h, i);
        StillBlank(used, start, a, SlotsSize(ts), SlotSize(ts[i]));
        Encode(ts[i], vs[i]);
        WrittenTwice(used, start, a, b);
        a := Append(a, b);
      }
      PrefixAll(JavaScript, schema, ts, vs, gap, h);
    }

    /** Packs booleans eight to a byte, writing a byte when it is full or the last boolean is in. */
    method EncodeBools(vs: seq<Value>)
      requires AllFlags(vs) && buffer.Valid() && next + (|vs| + 7) / 8 <= buffer.next
      modifies this`next, buffer.arrayBuffer
      ensures buffer.Valid() && next == old(next) + (|vs| + 7) / 8
      ensures buffer.Used() == Put(old(buffer.Used()), old(next), BoolBytes(Flags(vs)))
    {
      hide BoolBytes, ToLE, Put, PackBits, Flags;
      ghost var used, start, bs := buffer.Used(), next, Flags(vs);
      ghost var all := BoolBytes(bs);
      var packed := 0;
      PutNothing(used, start, all);
      for i := 0 to |vs|
        invariant buffer.Valid() && start <= next && next == start + (if i == |vs| then (i + 7) / 8 else i / 8)
        invariant buffer.Used() == Put(used, start, all[..next - start])
        invariant i < |vs| ==> packed == PackBits(bs[8 * (i / 8)..i])
      {
        if vs[i].b {
          packed := SetBit(packed, i % 8);
        }
        PackOne(bs, i);
        FlagAt(vs, i);
        if i % 8 == 7 || i == |vs| - 1 {
          OctetByte(bs, i);
          PutByte(used, start, all, i / 8);
          OneByte(packed);
          var _ := WriteUint(packed, 1);
          packed := 0;
        }
      }
      assert all[..|all|] == all;
    }
  }

  // ---- bytes written so far ----

  lemma OneByte(b: byte)
    ensures ToLE(b, 1) == [b]
  {
    assert ToLE(b, 1) == [b % 256] + ToLE(b / 256, 0);
  }

  lemma BlankIsWritten(s: seq<byte>, pos: nat, size: nat)
    requires IsBlank(s, pos, size)
    ensures Written(s, pos, Out(Zeros(size), [], [])) == s
  {
    assert s == s[..pos] + s[pos..pos + size] + s[pos + size..];
  }

  lemma WrittenNothing(s: seq<byte>, pos: nat)
    requires pos <= |s|
    ensures Written(s, pos, Out([], [], [])) == s
  {
  }

  lemma WrittenRaw(s: seq<byte>, pos: nat, bytes: seq<byte>)
    requires pos + |bytes| <= |s|
    ensures Written(s, pos, Out(bytes, [], [])) == Put(s, pos, bytes)
  {
  }

  lemma WrittenTwice(s: seq<byte>, pos: nat, a: Out, b: Out)
    requires pos + |a.slots| + |b.slots| <= |s|
    ensures |Written(s, pos, a)| >= pos + |a.slots| + |b.slots|
    ensures Written(Written(s, pos, a), pos + |a.slots|, b) == Written(s, pos, Append(a, b))
  {
    PutBefore(Put(s, pos, a.slots), a.tail, pos + |a.slots|, b.slots);
    PutTwice(s, pos, a.slots, b.slots);
  }

  lemma StillBlank(s: seq<byte>, pos: nat, a: Out, total: nat, size: nat)
    requires IsBlank(s, pos, total) && |a.slots| + size <= total
    ensures IsBlank(Written(s, pos, a), pos + |a.slots|, size)
  {
    var k := |a.slots|;
    var w := Written(s, pos, a);
    var u := w[pos + k..pos + k + size];
    forall i | 0 <= i < size ensures u[i] == 0 {
      assert w[pos + k + i] == s[pos + k + i];
      assert s[pos + k + i] == s[pos..pos + total][k + i];
    }
  }

  /** A block that starts blank, with its header in. */
  lemma BlockHeaded(start: seq<byte>, size: nat, word: nat)
    requires 8 <= size
    ensures var headed := Put(start + Zeros(Align(size)), |start|, Header(size, word));
            && headed == start + Header(size, word) + Zeros(Align(size) - 8)
            && IsBlank(headed, |start| + 8, size - 8)
  {
    hide Align, Header;
  }

  /** ... and once its slots and tail are in. */
  lemma BlockFilled(start: seq<byte>, size: nat, word: nat, body: Out)
    requires |body.slots| + 8 == size
    ensures var headed := start + Header(size, word) + Zeros(Align(size) - 8);
            Written(headed, |start| + 8, body) == start + Block(size, word, body)
  {
    hide Align, Header;
    var header, pad := Header(size, word), Zeros(Align(size) - size);
    assert start + (header + body.slots + pad + body.tail) == ((start + header) + body.slots + pad) + body.tail;
    assert Put(start + header + Zeros(Align(size) - 8), |start| + 8, body.slots) == (start + header) + body.slots + pad;
  }

  lemma StringFilled(start: seq<byte>, size: nat, bytes: seq<byte>)
    requires |bytes| + 8 == size
    ensures var blank := start + Zeros(Align(size));
            Put(Put(blank, |start| + 8, bytes), |start|, Header(size, |bytes|))
            == start + Block(size, |bytes|, Out(bytes, [], []))
  {
    hide Align, Header;
    var blank, header := start + Zeros(Align(size)), Header(size, |bytes|);
    assert Put(blank, |start| + 8, bytes) == start + Zeros(8) + bytes + Zeros(Align(size) - size);
    assert start + (header + bytes + Zeros(Align(size) - size) + [])
        == start + header + bytes + Zeros(Align(size) - size);
  }

  lemma NoBlock(sc: Schema, t: Type, v: Value, m: Memory)
    requires Shaped(sc, t, v)
    ensures !IsPointer(t) || v.Null? ==> AllocateAll(m, Allocations(sc, t, v)) == m
  {
    hide Shaped;
  }

  lemma InnerOf(sc: Schema, t: Type, v: Value, m: Memory)
    requires IsPresent(sc, t, v)
    ensures IsRaw(t) ==> AllocateAll(m, InnerAllocations(sc, t, v)) == m
    ensures !IsRaw(t) ==> var ts := BlockSlots(sc, t, |v.items|);
                          ShapedAll(sc, ts, v.items) && InnerAllocations(sc, t, v) == AllocationsAll(sc, ts, v.items)
  {
    hide AllocationsAll;
  }

  lemma BlockAllocated(m: Memory, sc: Schema, t: Type, v: Value)
    requires IsPresent(sc, t, v)
    ensures var size, inner := Align(BlockSize(sc, t, v)), InnerAllocations(sc, t, v);
            && AllocateAll(m, Allocations(sc, t, v)) == AllocateAll(Allocate(m, size), inner)
            && (AllAllocatable(m, Allocations(sc, t, v)) <==> Allocatable(m, size) && AllAllocatable(Allocate(m, size), inner))
  {
    hide Shaped, Align, InnerAllocations, AllocateAll, AllAllocatable, Allocatable, Allocate;
    AllocateOne(m, Align(BlockSize(sc, t, v)));
    AllocateMore(m, [Align(BlockSize(sc, t, v))], InnerAllocations(sc, t, v));
  }

  lemma NothingAllocated(sc: Schema, ts: seq<Type>, vs: seq<Value>, m: Memory)
    requires ShapedAll(sc, ts, vs)
    ensures |ts| == |vs|
    ensures AllocateAll(m, AllocationsUpTo(sc, ts, vs, 0)) == m
    ensures AllocationsUpTo(sc, ts, vs, |vs|) == AllocationsAll(sc, ts, vs)
  {
    hide Shaped;
    assert ts[..|vs|] == ts && vs[..|vs|] == vs;
  }

  // ---- packing booleans ----

  /** `n | (1 << k)` */
  function SetBit(n: nat, k: nat): nat {
    if Bit(n, k) then n else n + Pow2(k)
  }

  lemma FlagAt(vs: seq<Value>, i: nat)
    requires AllFlags(vs) && i < |vs|
    ensures Flags(vs)[i] == vs[i].b
  {
  }

  lemma PackOne(bs: seq<bool>, i: nat)
    requires i < |bs|
    ensures var n := PackBits(bs[8 * (i / 8)..i]);
            PackBits(bs[8 * (i / 8)..i + 1]) == if bs[i] then SetBit(n, i % 8) else n
  {
    hide PackBits;
    var o := bs[8 * (i / 8)..i];
    PackSnoc(o, bs[i]);
    assert bs[8 * (i / 8)..i + 1] == o + [bs[i]];
    HighBitClear(PackBits(o), i % 8);
  }

  lemma HighBitClear(n: nat, k: nat)
    requires n < Pow2(k)
    ensures !Bit(n, k)
  {
    ModUnique(n, 0, n, Pow2(k));
  }

  lemma OctetByte(bs: seq<bool>, i: nat)
    requires i < |bs| && (i % 8 == 7 || i == |bs| - 1)
    ensures BoolBytes(bs)[i / 8] == PackBits(bs[8 * (i / 8)..i + 1])
  {
    assert Octet(bs, i / 8) == bs[8 * (i / 8)..i + 1];
  }

  lemma PutNothing(s: seq<byte>, pos: nat, all: seq<byte>)
    requires pos <= |s|
    ensures Put(s, pos, all[..0]) == s
  {
  }

  lemma PutByte(s: seq<byte>, pos: nat, all: seq<byte>, k: nat)
    requires k < |all| && pos + |all| <= |s|
    ensures Put(Put(s, pos, all[..k]), pos + k, [all[k]]) == Put(s, pos, all[..k + 1])
  {
    PutTwice(s, pos, all[..k], [all[k]]);
    assert all[..k] + [all[k]] == all[..k + 1];
  }
}
