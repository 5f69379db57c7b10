/** What the JavaScript Decoder reads, and why it reads back what was written. */
module JsDecoding {
  import opened Bytes
  import opened Wire
  import opened JsValidation
  import opened Extents
  import opened Dictionaries

  /** A decoded value with the blocks read (header and contents) and the handle entries looked up, in order; Failed stands for the
      RangeError or TypeError that the source runs into. */
  datatype Decoded = Failed | Done(value: Value, blocks: seq<Extent>, handles: seq<Extent>)
  datatype DecodedAll = FailedAll | DoneAll(values: seq<Value>, blocks: seq<Extent>, handles: seq<Extent>)

  /** `this.handles[index] || null` */
  function LookUp(handles: seq<Value>, index: nat): Value {
    if index < |handles| && handles[index].HandleValue? then handles[index] else Null
  }

  function DecodeHandle(m: Message, pos: nat): Decoded
    requires pos + 4 <= |m.bytes|
  {
    var index := GetUint(m.bytes, pos, 4);
    Done(LookUp(m.handles, index), [], if index == INVALID_HANDLE then [] else [Extent(index, 1)])
  }

  /** A map from its two decoded columns. Null keys have no length; null values matter once there is a key. */
  function MakeMap(keys: Value, values: Value): (v: Value)
    ensures v.Dict? || v.Null?
  {
    if !keys.Seq? || (!values.Seq? && keys.items != []) then Null
    else
      var (ks, vs) := SetAll(keys.items, if values.Seq? then values.items else []);
      Dict([Seq(ks), Seq(vs)])
  }

  function DecodeSlot(m: Message, sc: Schema, t: Type, pos: nat): (r: Decoded)
    requires WellFormedSchema(sc) && WellFormed(sc, t)
    decreases |m.bytes| - pos, 1, 0
  {
    if |m.bytes| < pos + SlotSize(t) then Failed
    else if t.Integer? then
      var n := GetUint(m.bytes, pos, t.size);
      Done(Number(if t.signed then Signed(n, t.size) else n), [], [])
    else if t.Padding? then Done(Null, [], [])
    else if t.Bits? then Done(Record(FlagValues(UnpackBits(m.bytes[pos], t.count))), [], [])
    else if t.Handle? || t.Interface? then DecodeHandle(m, pos)
    else
      var p := GetUint(m.bytes, pos, 8);
      if p == 0 then Done(Null, [], []) else DecodeBlock(m, sc, t, pos + p)
  }

  function DecodeBlock(m: Message, sc: Schema, t: Type, q: nat): (r: Decoded)
    requires WellFormedSchema(sc) && IsPointer(t) && WellFormed(sc, t)
    decreases |m.bytes| - q, 0, 0
  {
    if |m.bytes| < q + 8 then Failed
    else
      var n := GetUint(m.bytes, q + 4, 4);
      var extent := Extent(q, 8 + ContentSize(sc, t, n));
      if IsRaw(t) then
        if |m.bytes| < q + extent.size then Failed
        else
          var raw := m.bytes[q + 8..q + extent.size];
          Done(if t.String? then Text(raw) else Seq(FlagValues(UnpackBools(raw, n))), [extent], [])
      else
        BlockSlotsWellFormed(sc, t, n);
        var r := DecodeSlots(m, sc, BlockSlots(sc, t, n), q + 8);
        if r.FailedAll? then Failed
        else
          var v := Assemble(t, r.values);
          if v.Null? then Failed else Done(v, [extent] + r.blocks, r.handles)
  }

  function Assemble(t: Type, values: seq<Value>): Value
    requires IsPointer(t)
  {
    if IsArray(t) then Seq(values)
    else if t.MapOf? then if |values| == 2 then MakeMap(values[0], values[1]) else Null
    else Record(values)
  }

  function DecodeSlots(m: Message, sc: Schema, ts: seq<Type>, pos: nat): (r: DecodedAll)
    requires WellFormedSchema(sc) && WellFormedAll(sc, ts) && pos <= |m.bytes|
    ensures r.DoneAll? ==> |r.values| == |ts|
    decreases |m.bytes| - pos, 2, |ts|
  {
    if ts == [] then DoneAll([], [], [])
    else
      var k := |ts| - 1;
      var a := DecodeSlots(m, sc, ts[..k], pos);
      if a.FailedAll? then FailedAll
      else
        var b := DecodeSlot(m, sc, ts[k], pos + SlotsSize(ts[..k]));
        if b.Failed? then FailedAll
        else DoneAll(a.values + [b.value], a.blocks + b.blocks, a.handles + b.handles)
  }

  // ---- reading back ----

  predicate Reads(r: Decoded, v: Value) { r.Done? && r.value == v }
  predicate ReadsAll(r: DecodedAll, vs: seq<Value>) { r.DoneAll? && r.values == vs }

  lemma MakeMapOfColumns(v: Value)
    requires IsMap(v)
    ensures MakeMap(v.items[0], v.items[1]) == v
  {
    var ks, vs := v.items[0].items, v.items[1].items;
    SetDistinct(ks, vs, |ks|);
    assert ks[..|ks|] == ks && vs[..|vs|] == vs;
    assert v.items == [Seq(ks), Seq(vs)];
  }

  lemma ReadHandle(side: Side, m: Message, v: Value, pos: nat, h: nat)
    requires Bounded(m) && (v.Null? || v.HandleValue?)
    requires var o := EncodeHandle(side, v, h); At(m.bytes, pos, o.slots) && At(m.handles, h, o.handles)
    ensures pos + 4 <= |m.bytes| && Reads(DecodeHandle(m, pos), v)
  {
    assert Pow256(4) == TWO32;
    if side.JavaScript? || !v.Null? {
      GetAt(m.bytes, pos, h, 4);
      AtOne(m.handles, h, v);
    } else {
      LowBytes(-1, 4);
      GetAt(m.bytes, pos, INVALID_HANDLE, 4);
    }
  }

  lemma {:induction false} ReadSlot(side: Side, m: Message, sc: Schema, t: Type, v: Value,
                                    pos: nat, gap: nat, h: nat, o: Out)
    requires WellFormedSchema(sc) && Shaped(sc, t, v) && Bounded(m) && SlotSize(t) <= gap
    requires o == Encode(side, sc, t, v, gap, h) && |o.tail| < TWO32 && Placed(m, pos, gap, h, o)
    ensures WellFormed(sc, t) && Reads(DecodeSlot(m, sc, t, pos), v)
    decreases v, 3
  {
    hide EncodeBody, DecodeBlock, ShapedAll, WellFormedSchema, Block, Pow256, IsKind, BlockSlots, BlockSize, BlockWord,
      DecodeHandle, UnpackBits, PackByte, Signed;
    if t.Integer? {
      IntegerRoundTrip(v.n, t.size);
    } else if t.Bits? {
      ReadBits(v.items);
    } else if t.Handle? {
      ReadHandle(side, m, v, pos, h);
    } else if t.Interface? {
      AtSplit(m.bytes, pos, EncodeHandle(side, v, h).slots, ToLE(InterfaceVersion(side, v), 4));
      ReadHandle(side, m, v, pos, h);
    } else if IsPointer(t) {
      ReadPointer(side, m, sc, t, v, pos, gap, h, o);
    }
  }

  lemma {:induction false} ReadPointer(side: Side, m: Message, sc: Schema, t: Type, v: Value,
                                       pos: nat, gap: nat, h: nat, o: Out)
    requires WellFormedSchema(sc) && IsPointer(t) && Shaped(sc, t, v) && Bounded(m) && 8 <= gap
    requires o == Encode(side, sc, t, v, gap, h) && |o.tail| < TWO32 && Placed(m, pos, gap, h, o)
    ensures WellFormed(sc, t) && Reads(DecodeSlot(m, sc, t, pos), v)
    decreases v, 2
  {
    hide Encode, EncodeBody, DecodeBlock, Shaped, ShapedAll, WellFormed, WellFormedSchema, Block, BlockSlots, BlockSize,
      BlockWord, IsKind, ToLE, GetUint;
    ShapedType(sc, t, v);
    PlacedFits(m, pos, gap, h, o);
    if v.Null? {
      EncodeNull(side, sc, t, gap, h);
      GetPointer(m, pos, 0);
    } else {
      var b := EncodePresent(side, sc, t, v, gap, h);
      GetPointer(m, pos, gap);
      ReadBlock(side, m, sc, t, v, pos + gap, h, b);
    }
  }

  /** A block reads back as its value, wherever it lies. */
  lemma {:induction false} ReadBlock(side: Side, m: Message, sc: Schema, t: Type, v: Value, q: nat, h: nat, b: Out)
    requires WellFormedSchema(sc) && IsPresent(sc, t, v) && Bounded(m)
    requires b == EncodeBody(side, sc, t, v, h)
    requires var s := Block(BlockSize(sc, t, v), BlockWord(sc, t, v), b);
             |s| < TWO32 && At(m.bytes, q, s) && At(m.handles, h, b.handles)
    ensures WellFormed(sc, t) && Reads(DecodeBlock(m, sc, t, q), v)
    decreases v, 1
  {
    hide EncodeBody, EncodeSlots, DecodeSlots, Shaped, WellFormed, WellFormedSchema, Placed, BlockSlots, BlockSize,
      BlockWord, ContentSize, IsKind, Align, ToLE;
    var size, word := BlockSize(sc, t, v), BlockWord(sc, t, v);
    BlockWordFits(sc, t, v);
    PlacedBlock(m, q, h, size, word, b);
    BlockShape(sc, t, v);
    if IsRaw(t) {
      ReadRaw(side, m, sc, t, v, q, h, b);
    } else {
      var ts := BodyIsSlots(side, sc, t, v, h);
      ReadSlots(side, m, sc, ts, v.items, q + 8, Align(size) - 8, h, b);
      AssembleItems(sc, t, v);
    }
  }

  lemma AssembleItems(sc: Schema, t: Type, v: Value)
    requires IsPresent(sc, t, v) && !IsRaw(t)
    ensures (v.Seq? || v.Record? || v.Dict?) && Assemble(t, v.items) == v
  {
    hide ShapedAll;
    if t.MapOf? { MakeMapOfColumns(v); }
  }

  lemma ReadRaw(side: Side, m: Message, sc: Schema, t: Type, v: Value, q: nat, h: nat, b: Out)
    requires WellFormedSchema(sc) && IsPresent(sc, t, v) && IsRaw(t) && WellFormed(sc, t)
    requires b == EncodeBody(side, sc, t, v, h)
    requires Placed(m, q + 8, Align(BlockSize(sc, t, v)) - 8, h, b)
    requires GetUint(m.bytes, q + 4, 4) == BlockWord(sc, t, v)
    ensures Reads(DecodeBlock(m, sc, t, q), v)
  {
    hide Align, GetUint, BoolBytes, UnpackBools, FlagValues, Flags;
    if IsArray(t) { ReadBools(v.items); }
  }

  lemma {:induction false} ReadSlots(side: Side, m: Message, sc: Schema, ts: seq<Type>, vs: seq<Value>,
                                     pos: nat, gap: int, h: nat, o: Out)
    requires WellFormedSchema(sc) && WellFormedAll(sc, ts) && ShapedAll(sc, ts, vs) && Bounded(m)
    requires SlotsSize(ts) <= gap
    requires o == EncodeSlots(side, sc, ts, vs, gap, h) && |o.tail| < TWO32 && Placed(m, pos, gap, h, o)
    ensures pos <= |m.bytes| && ReadsAll(DecodeSlots(m, sc, ts, pos), vs)
    decreases vs, 0
  {
    hide Encode, EncodeSlots, DecodeSlot, DecodeSlots, Shaped, ShapedAll, WellFormed, WellFormedAll, WellFormedSchema,
      Placed, SlotsSize;
    PlacedFits(m, pos, gap, h, o);
    if |vs| == 0 {
      ReadNone(m, sc, ts, vs, pos);
    } else {
      var k := |vs| - 1;
      var a, b := EncodeLast(side, sc, ts, vs, gap, h);
      DecodeLast(m, sc, ts, pos);
      PlacedAppend(m, pos, gap, h, a, b);
      ReadSlots(side, m, sc, ts[..k], vs[..k], pos, gap, h, a);
      ReadSlot(side, m, sc, ts[k], vs[k], pos + |a.slots|, gap + |a.tail| - |a.slots|, h + |a.handles|, b);
      assert vs == vs[..k] + [vs[k]];
    }
  }

  lemma ReadNone(m: Message, sc: Schema, ts: seq<Type>, vs: seq<Value>, pos: nat)
    requires WellFormedSchema(sc) && WellFormedAll(sc, ts) && ShapedAll(sc, ts, vs) && vs == [] && pos <= |m.bytes|
    ensures ReadsAll(DecodeSlots(m, sc, ts, pos), vs)
  {
  }

  lemma DecodeLast(m: Message, sc: Schema, ts: seq<Type>, pos: nat)
    requires WellFormedSchema(sc) && WellFormedAll(sc, ts) && |ts| > 0 && pos <= |m.bytes|
    ensures var k := |ts| - 1;
            && WellFormedAll(sc, ts[..k]) && WellFormed(sc, ts[k])
            && SlotsSize(ts) == SlotsSize(ts[..k]) + SlotSize(ts[k])
            && var a, b := DecodeSlots(m, sc, ts[..k], pos), DecodeSlot(m, sc, ts[k], pos + SlotsSize(ts[..k]));
            DecodeSlots(m, sc, ts, pos)
              == if a.FailedAll? || b.Failed? then FailedAll
                 else DoneAll(a.values + [b.value], a.blocks + b.blocks, a.handles + b.handles)
  {
    hide DecodeSlot, WellFormed, WellFormedSchema, SlotSize;
  }
}
