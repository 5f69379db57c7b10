/** On any bytes whatever, what the JavaScript Validator accepts the Decoder decodes, reading each claimed block and
    each claimed handle once. */
module JsSafety {
  import opened Bytes
  import opened Wire
  import opened JsValidation
  import opened JsDecoding
  import opened Extents
  import opened JsExposure

  /** The slots of a block that is accepted hide nothing if its type does not. */
  lemma BlockSlotsClear(m: Message, sc: Schema, t: Type, q: nat, c: Cursor)
    requires WellFormedSchema(sc) && Clear(sc, t) && IsPointer(t) && !IsRaw(t) && WellFormed(sc, t)
    requires c.offset <= |m.bytes| && ValidateBlock(m, sc, t, q, c).Valid?
    ensures q + 8 <= |m.bytes| && AllClear(sc, BlockSlots(sc, t, GetUint(m.bytes, q + 4, 4)))
    ensures IsArray(t) ==> !t.elem.MapOf?
  {
    hide WellFormedSchema, GetUint, Clear, AllClear;
    WordsBelow(m, q);
    var n, size := GetUint(m.bytes, q + 4, 4), GetUint(m.bytes, q, 4);
    if IsArray(t) {
      ItemsClear(sc, t, n, size);
    } else if t.MapOf? {
      ColumnsClear(sc, t);
    } else {
      BlockAcceptable(m, sc, t, q, c, |m.bytes| - c.offset);
      FieldsClear(sc, t, |m.bytes| - c.offset - 1);
    }
  }

  lemma ItemsClear(sc: Schema, t: Type, n: nat, size: nat)
    requires Clear(sc, t) && IsArray(t) && !IsRaw(t) && WellFormed(sc, t) && HeaderFits(sc, t, size, n) && size < TWO32
    ensures AllClear(sc, Repeat(t.elem, n)) && !t.elem.MapOf?
  {
    hide WellFormed;
    RepeatSize(t.elem, n);
    assert !Exposed(sc, t, 0);
    if n > 0 {
      forall d: nat ensures !Exposed(sc, t.elem, d) {
        assert !Exposed(sc, t, d);
      }
    }
  }

  lemma ColumnsClear(sc: Schema, t: Type)
    requires Clear(sc, t) && t.MapOf? && WellFormed(sc, t)
    ensures AllClear(sc, [ArrayOf(t.key, 0), ArrayOf(t.value, 0)])
  {
    forall d: nat ensures !Exposed(sc, ArrayOf(t.value, 0), d) && !Exposed(sc, ArrayOf(t.key, 0), d) {
      assert !Exposed(sc, t, d);
    }
  }

  lemma FieldsClear(sc: Schema, t: Type, n: nat)
    requires Clear(sc, t) && t.PointerTo? && t.cls < |sc| && StructAcceptable(sc, sc[t.cls].slots, n)
    ensures AllClear(sc, sc[t.cls].slots)
  {
    hide AllAcceptable, SomeExposed, SlotsSize;
    var ts := sc[t.cls].slots;
    forall k, d: nat | 0 <= k < |ts| ensures !Exposed(sc, ts[k], d) {
      assert !Exposed(sc, t, n + d + 1);
      if Exposed(sc, ts[k], d) {
        ExposedDeeper(sc, ts[k], d, n + d);
        ExposedAmong(sc, ts, k, n + d);
        AllAcceptableDeeper(sc, ts, n, n + d);
        assert false;
      }
    }
  }

  // ---- runs that do not overlap ----

  predicate SafeBetween(c: Cursor, blocks: seq<Extent>, handles: seq<Extent>, d: Cursor) {
    Chain(c.offset, blocks, d.offset) && Chain(c.handleIndex, handles, d.handleIndex)
  }

  predicate SafelyDecoded(t: Type, r: Decoded, c: Cursor, d: Cursor) {
    r.Done? && SafeBetween(c, r.blocks, r.handles, d) && (t.ArrayOf? ==> r.value.Seq?)
  }

  // ---- the theorem ----

  lemma {:induction false} SlotSafe(m: Message, sc: Schema, t: Type, pos: nat, c: Cursor)
    requires WellFormedSchema(sc) && WellFormed(sc, t) && Clear(sc, t)
    requires pos + SlotSize(t) <= |m.bytes| && c.offset <= |m.bytes|
    requires ValidateSlot(m, sc, t, pos, c).Valid?
    ensures SafelyDecoded(t, DecodeSlot(m, sc, t, pos), c, ValidateSlot(m, sc, t, pos, c).at)
    decreases |m.bytes| - c.offset, 1, 0
  {
    hide WellFormedSchema, ValidateBlock, DecodeBlock, Clear, GetUint, UnpackBits, ValidateHandle,
      DecodeHandle;
    if t.Handle? || t.Interface? {
      HandleSafe(m, t.nullable, pos, c);
    } else if IsPointer(t) {
      var p := GetUint(m.bytes, pos, 8);
      if p != 0 { BlockSafe(m, sc, t, pos + p, c); }
    }
  }

  lemma HandleSafe(m: Message, nullable: bool, pos: nat, c: Cursor)
    requires pos + 4 <= |m.bytes| && ValidateHandle(m, nullable, pos, c).Valid?
    ensures var r := DecodeHandle(m, pos);
            r.Done? && SafeBetween(c, r.blocks, r.handles, ValidateHandle(m, nullable, pos, c).at)
  {
    assert [Extent(GetUint(m.bytes, pos, 4), 1)][..0] == [];
  }

  lemma {:induction false} BlockSafe(m: Message, sc: Schema, t: Type, q: nat, c: Cursor)
    requires WellFormedSchema(sc) && IsPointer(t) && WellFormed(sc, t) && Clear(sc, t)
    requires c.offset <= |m.bytes| && ValidateBlock(m, sc, t, q, c).Valid?
    ensures SafelyDecoded(t, DecodeBlock(m, sc, t, q), c, ValidateBlock(m, sc, t, q, c).at)
    decreases |m.bytes| - c.offset, 0, 0
  {
    hide WellFormedSchema, WellFormed, ValidateSlots, DecodeSlots, BlockSlots, GetUint, Chain, Assemble, ArrayLength,
      SlotsSize, Clear, AllClear;
    var size, n := GetUint(m.bytes, q, 4), GetUint(m.bytes, q + 4, 4);
    var claimed := Cursor(q + size, c.handleIndex);
    var extent := Extent(q, 8 + ContentSize(sc, t, n));
    BlockChain(c, extent, q + size);
    if !IsRaw(t) {
      BlockSlotsWellFormed(sc, t, n);
      BlockSlotsClear(m, sc, t, q, c);
      var ts := BlockSlots(sc, t, n);
      if !ChecksItems(t) { IntegersValid(m, sc, t, n, q + 8, claimed); }
      SlotsSafe(m, sc, ts, q + 8, claimed);
      var r := DecodeSlots(m, sc, ts, q + 8);
      var d := ValidateSlots(m, sc, ts, q + 8, claimed).at;
      ChainAppend(c.offset, [extent], q + size, r.blocks, d.offset);
      Assembled(m, sc, t, n, q + 8);
    }
  }

  lemma BlockChain(c: Cursor, e: Extent, hi: nat)
    requires c.offset <= e.start && e.start + e.size <= hi
    ensures Chain(c.offset, [e], hi) && Chain(c.handleIndex, [], c.handleIndex)
  {
    assert [e][..0] == [];
  }

  /** Integers need no validation. */
  lemma {:induction false} IntegersValid(m: Message, sc: Schema, t: Type, n: nat, pos: nat, c: Cursor)
    requires WellFormedSchema(sc) && IsArray(t) && t.elem.Integer? && WellFormed(sc, t)
    requires WellFormedAll(sc, BlockSlots(sc, t, n))
    requires pos + SlotsSize(BlockSlots(sc, t, n)) <= |m.bytes| && c.offset <= |m.bytes|
    ensures ValidateSlots(m, sc, BlockSlots(sc, t, n), pos, c) == Valid(c)
  {
    var ts := BlockSlots(sc, t, n);
    if n > 0 {
      assert ts[..n - 1] == BlockSlots(sc, t, n - 1);
      IntegersValid(m, sc, t, n - 1, pos, c);
    }
  }

  /** Decoded arrays and structs are what they should be, and a validated map has both its columns. */
  lemma Assembled(m: Message, sc: Schema, t: Type, n: nat, pos: nat)
    requires WellFormedSchema(sc) && IsPointer(t) && !IsRaw(t) && WellFormed(sc, t) && pos <= |m.bytes|
    requires WellFormedAll(sc, BlockSlots(sc, t, n))
    requires DecodeSlots(m, sc, BlockSlots(sc, t, n), pos).DoneAll?
    requires forall i :: 0 <= i < |BlockSlots(sc, t, n)| && BlockSlots(sc, t, n)[i].ArrayOf?
               ==> DecodeSlots(m, sc, BlockSlots(sc, t, n), pos).values[i].Seq?
    ensures var v := Assemble(t, DecodeSlots(m, sc, BlockSlots(sc, t, n), pos).values);
            !v.Null? && (t.ArrayOf? ==> v.Seq?)
  {
    hide WellFormedSchema, WellFormed, WellFormedAll, DecodeSlots;
    var ts := BlockSlots(sc, t, n);
    if t.MapOf? {
      assert ts[0].ArrayOf? && ts[1].ArrayOf?;
    }
  }

  lemma {:induction false} SlotsSafe(m: Message, sc: Schema, ts: seq<Type>, pos: nat, c: Cursor)
    requires WellFormedSchema(sc) && WellFormedAll(sc, ts) && AllClear(sc, ts)
    requires pos + SlotsSize(ts) <= |m.bytes| && c.offset <= |m.bytes|
    requires ValidateSlots(m, sc, ts, pos, c).Valid?
    ensures var r := DecodeSlots(m, sc, ts, pos);
            && r.DoneAll? && SafeBetween(c, r.blocks, r.handles, ValidateSlots(m, sc, ts, pos, c).at)
            && forall i :: 0 <= i < |ts| && ts[i].ArrayOf? ==> r.values[i].Seq?
    decreases |m.bytes| - c.offset, 2, |ts|
  {
    hide WellFormedSchema, ValidateSlots, DecodeSlots, ValidateSlot, DecodeSlot, WellFormed, Clear,
      SlotsSize, WellFormedAll;
    if ts == [] {
      SafeNone(m, sc, ts, pos, c);
    } else {
      var k := |ts| - 1;
      ValidateSlotsStep(m, sc, ts, pos, c);
      DecodeLast(m, sc, ts, pos);
      var d := ValidateSlots(m, sc, ts[..k], pos, c).at;
      var e := ValidateSlots(m, sc, ts, pos, c).at;
      var pos' := pos + SlotsSize(ts[..k]);
      SlotsSafe(m, sc, ts[..k], pos, c);
      SlotSafe(m, sc, ts[k], pos', d);
      var a, b := DecodeSlots(m, sc, ts[..k], pos), DecodeSlot(m, sc, ts[k], pos');
      ChainAppend(c.offset, a.blocks, d.offset, b.blocks, e.offset);
      ChainAppend(c.handleIndex, a.handles, d.handleIndex, b.handles, e.handleIndex);
    }
  }

  lemma SafeNone(m: Message, sc: Schema, ts: seq<Type>, pos: nat, c: Cursor)
    requires WellFormedSchema(sc) && WellFormedAll(sc, ts) && ts == []
    requires pos + SlotsSize(ts) <= |m.bytes| && c.offset <= |m.bytes|
    ensures ValidateSlots(m, sc, ts, pos, c) == Valid(c) && DecodeSlots(m, sc, ts, pos) == DoneAll([], [], [])
  {
  }
}
