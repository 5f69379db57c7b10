/** What the JavaScript Validator accepts, and why it accepts what the Encoder writes. */
module JsValidation {
  import opened Bytes
  import opened Wire

  /** The two marks of the validator: all bytes below `offset` and all handles below `handleIndex` are claimed. */
  datatype Cursor = Cursor(offset: nat, handleIndex: nat)

  datatype ValidationError =
    | MISALIGNED_OBJECT | ILLEGAL_MEMORY_RANGE | UNEXPECTED_STRUCT_HEADER | UNEXPECTED_ARRAY_HEADER
    | ILLEGAL_HANDLE | UNEXPECTED_INVALID_HANDLE | ILLEGAL_POINTER | UNEXPECTED_NULL_POINTER
    | MESSAGE_HEADER_INVALID_FLAGS | MESSAGE_HEADER_MISSING_REQUEST_ID | DIFFERENT_SIZED_ARRAYS_IN_MAP

  datatype Verdict = Valid(at: Cursor) | Invalid(error: ValidationError)

  const MAX_SAFE_INTEGER := 0x1F_FFFF_FFFF_FFFF
  const INVALID_HANDLE := 0xFFFF_FFFF

  predicate InBounds(m: Message, c: Cursor, start: nat, size: nat) {
    c.offset <= start && 0 < size && start + size <= |m.bytes|
  }

  /** The bytes a block with n items must have behind its header. */
  function ContentSize(sc: Schema, t: Type, n: nat): nat
    requires IsPointer(t) && WellFormed(sc, t)
  {
    if t.String? then n
    else if IsRaw(t) then (n + 7) / 8
    else SlotsSize(BlockSlots(sc, t, n))
  }

  predicate HeaderFits(sc: Schema, t: Type, size: nat, word: nat)
    requires IsPointer(t) && WellFormed(sc, t)
  {
    8 + ContentSize(sc, t, word) <= size && (FixedLength(t) == 0 || word == FixedLength(t))
  }

  /** The validator looks at the items of a block, unless they are integers, booleans or maps. */
  predicate ChecksItems(t: Type)
    requires IsPointer(t)
  {
    !IsRaw(t) && !(IsArray(t) && (t.elem.Integer? || t.elem.MapOf?))
  }

  /** A mark only moves up, and never past its limit. */
  predicate AtMost(before: nat, after: nat, limit: nat) {
    before <= after && (after == before || after <= limit)
  }

  function ValidateHandle(m: Message, nullable: bool, offset: nat, c: Cursor): (r: Verdict)
    requires offset + 4 <= |m.bytes|
    ensures r.Valid? ==> r.at.offset == c.offset && AtMost(c.handleIndex, r.at.handleIndex, |m.handles|)
  {
    var index := GetUint(m.bytes, offset, 4);
    if index == INVALID_HANDLE then if nullable then Valid(c) else Invalid(UNEXPECTED_INVALID_HANDLE)
    else if index < c.handleIndex || |m.handles| <= index then Invalid(ILLEGAL_HANDLE)
    else Valid(c.(handleIndex := index + 1))
  }

  /** The element count of the array that the slot at `offset` points to. */
  function ArrayLength(m: Message, offset: nat): nat
    requires offset + 8 <= |m.bytes|
  {
    var q := offset + GetUint(m.bytes, offset, 8);
    if q + 8 <= |m.bytes| then GetUint(m.bytes, q + 4, 4) else 0
  }

  function ValidateSlot(m: Message, sc: Schema, t: Type, offset: nat, c: Cursor): (r: Verdict)
    requires WellFormedSchema(sc) && WellFormed(sc, t)
    requires offset + SlotSize(t) <= |m.bytes| && c.offset <= |m.bytes|
    ensures r.Valid? ==> c.offset <= r.at.offset <= |m.bytes| && AtMost(c.handleIndex, r.at.handleIndex, |m.handles|)
    decreases |m.bytes| - c.offset, 1, 0
  {
    if t.Handle? || t.Interface? then ValidateHandle(m, t.nullable, offset, c)
    else if !IsPointer(t) then Valid(c)
    else
      var p := GetUint(m.bytes, offset, 8);
      if p == 0 then if Nullable(t) then Valid(c) else Invalid(UNEXPECTED_NULL_POINTER)
      else if offset + p > MAX_SAFE_INTEGER then Invalid(ILLEGAL_POINTER)
      else ValidateBlock(m, sc, t, offset + p, c)
  }

  function ValidateBlock(m: Message, sc: Schema, t: Type, q: nat, c: Cursor): (r: Verdict)
    requires WellFormedSchema(sc) && IsPointer(t) && WellFormed(sc, t) && c.offset <= |m.bytes|
    ensures r.Valid? ==> c.offset < r.at.offset <= |m.bytes| && AtMost(c.handleIndex, r.at.handleIndex, |m.handles|)
    decreases |m.bytes| - c.offset, 0, 0
  {
    if q % 8 != 0 then Invalid(MISALIGNED_OBJECT)
    else if !InBounds(m, c, q, 8) then Invalid(ILLEGAL_MEMORY_RANGE)
    else
      var size, word := GetUint(m.bytes, q, 4), GetUint(m.bytes, q + 4, 4);
      if !HeaderFits(sc, t, size, word) then
        Invalid(if IsArray(t) || t.String? then UNEXPECTED_ARRAY_HEADER else UNEXPECTED_STRUCT_HEADER)
      else if !InBounds(m, c, q, size) then Invalid(ILLEGAL_MEMORY_RANGE)
      else
        var claimed := Cursor(q + size, c.handleIndex);
        if !ChecksItems(t) then Valid(claimed)
        else
          BlockSlotsWellFormed(sc, t, word);
          var r := ValidateSlots(m, sc, BlockSlots(sc, t, word), q + 8, claimed);
          if r.Valid? && t.MapOf? && ArrayLength(m, q + 8) != ArrayLength(m, q + 16)
          then Invalid(DIFFERENT_SIZED_ARRAYS_IN_MAP) else r
  }

  function ValidateSlots(m: Message, sc: Schema, ts: seq<Type>, offset: nat, c: Cursor): (r: Verdict)
    requires WellFormedSchema(sc) && WellFormedAll(sc, ts)
    requires offset + SlotsSize(ts) <= |m.bytes| && c.offset <= |m.bytes|
    ensures r.Valid? ==> c.offset <= r.at.offset <= |m.bytes| && AtMost(c.handleIndex, r.at.handleIndex, |m.handles|)
    decreases |m.bytes| - c.offset, 2, |ts|
  {
    if ts == [] then Valid(c)
    else
      var k := |ts| - 1;
      var r := ValidateSlots(m, sc, ts[..k], offset, c);
      if r.Invalid? then r else ValidateSlot(m, sc, ts[k], offset + SlotsSize(ts[..k]), r.at)
  }

  // ---- which encoded values are accepted ----

  /** Nulls only where the type allows them and every fixed length respected, as far as the validator looks;
      a null handle sent by JavaScript is an entry of the handle table like any other. */
  predicate Conforms(side: Side, sc: Schema, t: Type, v: Value)
    requires Shaped(sc, t, v)
    decreases v, 1
  {
    && (t.Handle? || t.Interface? ==> side.JavaScript? || !v.Null? || t.nullable)
    && (IsPointer(t) ==>
      if v.Null? then Nullable(t)
      else
        && (FixedLength(t) == 0 || |v.items| == FixedLength(t))
        && (ChecksItems(t) ==> ConformsAll(side, sc, BlockSlots(sc, t, |v.items|), v.items)))
  }

  predicate ConformsAll(side: Side, sc: Schema, ts: seq<Type>, vs: seq<Value>)
    requires ShapedAll(sc, ts, vs)
    decreases vs, 0
  {
    |vs| == 0 ||
    var k := |vs| - 1;
    ConformsAll(side, sc, ts[..k], vs[..k]) && Conforms(side, sc, ts[k], vs[k])
  }

  /** A message small enough for 32-bit sizes and for JavaScript's exact integers. */
  predicate Bounded(m: Message) {
    |m.bytes| <= MAX_SAFE_INTEGER && |m.handles| < INVALID_HANDLE
  }

  predicate AcceptedUpTo(r: Verdict, conforms: bool, offset: int, handleIndex: int) {
    (r.Valid? <==> conforms) && (r.Valid? ==> r.at.offset <= offset && r.at.handleIndex <= handleIndex)
  }

  lemma AcceptHandle(side: Side, m: Message, nullable: bool, v: Value, pos: nat, h: nat, c: Cursor)
    requires Bounded(m) && c.handleIndex <= h
    requires var o := EncodeHandle(side, v, h); At(m.bytes, pos, o.slots) && At(m.handles, h, o.handles)
    ensures pos + 4 <= |m.bytes|
    ensures ValidateHandle(m, nullable, pos, c)
         == if side.JavaScript? || !v.Null? then Valid(c.(handleIndex := h + 1))
            else if nullable then Valid(c)
            else Invalid(UNEXPECTED_INVALID_HANDLE)
  {
    assert Pow256(4) == TWO32;
    if side.JavaScript? || !v.Null? {
      GetAt(m.bytes, pos, h, 4);
    } else {
      LowBytes(-1, 4);
      GetAt(m.bytes, pos, INVALID_HANDLE, 4);
    }
  }

  lemma {:induction false} AcceptSlot(side: Side, m: Message, sc: Schema, t: Type, v: Value,
                                      pos: nat, gap: int, h: nat, c: Cursor, o: Out)
    requires WellFormedSchema(sc) && Shaped(sc, t, v) && Bounded(m)
    requires SlotSize(t) <= gap && (pos + gap) % 8 == 0
    requires c.offset <= pos + gap && c.handleIndex <= h
    requires o == Encode(side, sc, t, v, gap, h) && |o.tail| < TWO32 && Placed(m, pos, gap, h, o)
    ensures WellFormed(sc, t) && pos + SlotSize(t) <= |m.bytes| && c.offset <= |m.bytes|
    ensures AcceptedUpTo(ValidateSlot(m, sc, t, pos, c), Conforms(side, sc, t, v),
                         pos + gap + |o.tail|, h + |o.handles|)
    decreases v, 3
  {
    hide EncodeBody, ValidateBlock, ConformsAll, ShapedAll, WellFormedSchema, Block, ValidateHandle, Pow256, IsKind,
      BlockSlots, BlockSize, BlockWord;
    if t.Handle? {
      AcceptHandle(side, m, t.nullable, v, pos, h, c);
    } else if t.Interface? {
      AtSplit(m.bytes, pos, EncodeHandle(side, v, h).slots, ToLE(InterfaceVersion(side, v), 4));
      AcceptHandle(side, m, t.nullable, v, pos, h, c);
    } else if IsPointer(t) {
      AcceptPointer(side, m, sc, t, v, pos, gap, h, c, o);
    }
  }

  lemma {:induction false} AcceptPointer(side: Side, m: Message, sc: Schema, t: Type, v: Value,
                                         pos: nat, gap: nat, h: nat, c: Cursor, o: Out)
    requires WellFormedSchema(sc) && IsPointer(t) && Shaped(sc, t, v) && Bounded(m)
    requires 8 <= gap && (pos + gap) % 8 == 0
    requires c.offset <= pos + gap && c.handleIndex <= h
    requires o == Encode(side, sc, t, v, gap, h) && |o.tail| < TWO32 && Placed(m, pos, gap, h, o)
    ensures WellFormed(sc, t) && pos + 8 <= |m.bytes| && c.offset <= |m.bytes|
    ensures AcceptedUpTo(ValidateSlot(m, sc, t, pos, c), Conforms(side, sc, t, v),
                         pos + gap + |o.tail|, h + |o.handles|)
    decreases v, 2
  {
    hide Encode, EncodeBody, ValidateBlock, ConformsAll, Shaped, ShapedAll, WellFormed, WellFormedSchema, Block,
      BlockSlots, BlockSize, BlockWord, IsKind, Align, ToLE, GetUint;
    ShapedType(sc, t, v);
    PlacedFits(m, pos, gap, h, o);
    if v.Null? {
      EncodeNull(side, sc, t, gap, h);
      GetPointer(m, pos, 0);
    } else {
      var b := EncodePresent(side, sc, t, v, gap, h);
      GetPointer(m, pos, gap);
      AcceptBlock(side, m, sc, t, v, pos + gap, h, c, b);
    }
  }

  lemma GetPointer(m: Message, pos: nat, p: nat)
    requires Bounded(m) && At(m.bytes, pos, ToLE(p, 8)) && pos + p <= |m.bytes|
    ensures GetUint(m.bytes, pos, 8) == p
  {
    assert Pow256(8) == 0x1_0000_0000_0000_0000;
    GetAt(m.bytes, pos, p, 8);
  }

  /** The block of a value, wherever it lies behind the claimed bytes, is accepted exactly when the value conforms. */
  lemma {:induction false} AcceptBlock(side: Side, m: Message, sc: Schema, t: Type, v: Value, q: nat, h: nat, c: Cursor, b: Out)
    requires WellFormedSchema(sc) && IsPresent(sc, t, v) && Bounded(m)
    requires q % 8 == 0 && c.offset <= q && c.handleIndex <= h
    requires b == EncodeBody(side, sc, t, v, h)
    requires var s := Block(BlockSize(sc, t, v), BlockWord(sc, t, v), b);
             |s| < TWO32 && At(m.bytes, q, s) && At(m.handles, h, b.handles)
    ensures WellFormed(sc, t) && c.offset <= |m.bytes|
    ensures AcceptedUpTo(ValidateBlock(m, sc, t, q, c), Conforms(side, sc, t, v),
                         q + Align(BlockSize(sc, t, v)) + |b.tail|, h + |b.handles|)
    decreases v, 1
  {
    hide EncodeBody, EncodeSlots, ValidateSlots, ConformsAll, Shaped, WellFormed, WellFormedSchema, Placed, BlockSlots,
      BlockSize, BlockWord, Block, ContentSize, IsKind, Nullable, At, Align, IsColumns, ToLE;
    var size, word := BlockSize(sc, t, v), BlockWord(sc, t, v);
    BlockWordFits(sc, t, v);
    PlacedBlock(m, q, h, size, word, b);
    BlockShape(sc, t, v);
    if HeaderFits(sc, t, size, word) && ChecksItems(t) {
      var ts := BodyIsSlots(side, sc, t, v, h);
      AddAligned(q, Align(size));
      assert q + 8 + (Align(size) - 8) == q + Align(size);
      AcceptSlots(side, m, sc, ts, v.items, q + 8, Align(size) - 8, h, Cursor(q + size, c.handleIndex), b);
      if t.MapOf? {
        MapLengths(side, m, sc, ts, v.items, q + 8, Align(size) - 8, h, b);
      }
    }
  }

  /** The header of an encoded block describes its contents. */
  lemma BlockShape(sc: Schema, t: Type, v: Value)
    requires IsPresent(sc, t, v)
    ensures WellFormed(sc, t)
    ensures 8 + ContentSize(sc, t, BlockWord(sc, t, v)) == BlockSize(sc, t, v)
    ensures !IsRaw(t) ==> BlockSlots(sc, t, BlockWord(sc, t, v)) == BlockSlots(sc, t, |v.items|)
    ensures FixedLength(t) != 0 ==> BlockWord(sc, t, v) == |v.items|
  {
    hide ShapedAll;
  }

  /** The two columns of a map are written with the same length. */
  lemma MapLengths(side: Side, m: Message, sc: Schema, ts: seq<Type>, vs: seq<Value>, pos: nat, gap: int, h: nat, o: Out)
    requires |ts| == 2 && IsArray(ts[0]) && IsArray(ts[1])
    requires ShapedAll(sc, ts, vs) && 16 <= gap && Bounded(m)
    requires o == EncodeSlots(side, sc, ts, vs, gap, h)
    requires |o.tail| < TWO32 && Placed(m, pos, gap, h, o)
    requires IsColumns(vs)
    ensures pos + 16 <= |m.bytes| && ArrayLength(m, pos) == ArrayLength(m, pos + 8)
  {
    hide Encode, EncodeSlots, Shaped, ShapedAll, Placed, WellFormed, WellFormedSchema;
    var a, b := EncodeLast(side, sc, ts, vs, gap, h);
    PlacedAppend(m, pos, gap, h, a, b);
    var a0, a1 := EncodeLast(side, sc, ts[..1], vs[..1], gap, h);
    assert ts[..1][..0] == [] && vs[..1][..0] == [];
    EncodeNone(side, sc, gap, h);
    PlacedAppend(m, pos, gap, h, a0, a1);
    EncodedLength(side, m, sc, ts[0], vs[0], pos, gap, h, a1);
    EncodedLength(side, m, sc, ts[1], vs[1], pos + 8, gap + |a.tail| - 8, h + |a.handles|, b);
  }

  lemma EncodedLength(side: Side, m: Message, sc: Schema, t: Type, v: Value, pos: nat, gap: nat, h: nat, o: Out)
    requires IsArray(t) && Shaped(sc, t, v) && v.Seq? && |v.items| < TWO32 && 8 <= gap && Bounded(m)
    requires o == Encode(side, sc, t, v, gap, h) && |o.tail| < TWO32 && Placed(m, pos, gap, h, o)
    ensures pos + 8 <= |m.bytes| && ArrayLength(m, pos) == |v.items|
  {
    hide Encode, EncodeBody, Shaped, WellFormed, BlockSize, IsKind, ShapedAll, GetUint, Block;
    var b := EncodePresent(side, sc, t, v, gap, h);
    GetPointer(m, pos, gap);
    PlacedBlock(m, pos + gap, h, BlockSize(sc, t, v), |v.items|, b);
  }

  lemma {:induction false} AcceptSlots(side: Side, m: Message, sc: Schema, ts: seq<Type>, vs: seq<Value>,
                                       pos: nat, gap: int, h: nat, c: Cursor, o: Out)
    requires WellFormedSchema(sc) && WellFormedAll(sc, ts) && ShapedAll(sc, ts, vs) && Bounded(m)
    requires SlotsSize(ts) <= gap && (pos + gap) % 8 == 0
    requires c.offset <= pos + gap && c.handleIndex <= h
    requires o == EncodeSlots(side, sc, ts, vs, gap, h) && |o.tail| < TWO32 && Placed(m, pos, gap, h, o)
    ensures pos + SlotsSize(ts) <= |m.bytes| && c.offset <= |m.bytes|
    ensures AcceptedUpTo(ValidateSlots(m, sc, ts, pos, c), ConformsAll(side, sc, ts, vs),
                         pos + gap + |o.tail|, h + |o.handles|)
    decreases vs, 0
  {
    hide Encode, EncodeSlots, ValidateSlot, ValidateSlots, Conforms, ConformsAll, Shaped, ShapedAll, WellFormed,
      WellFormedSchema, Placed, SlotsSize;
    PlacedFits(m, pos, gap, h, o);
    if |vs| == 0 {
      AcceptNone(side, m, sc, ts, vs, pos, c);
    } else {
      var k := |vs| - 1;
      var a, b := EncodeLast(side, sc, ts, vs, gap, h);
      var gap', h' := gap + |a.tail| - |a.slots|, h + |a.handles|;
      PlacedAppend(m, pos, gap, h, a, b);
      AcceptSlots(side, m, sc, ts[..k], vs[..k], pos, gap, h, c, a);
      ValidateLast(side, m, sc, ts, vs, pos, c);
      var r := ValidateSlots(m, sc, ts[..k], pos, c);
      if r.Valid? {
        assert pos + |a.slots| + gap' == pos + gap + |a.tail|;
        AddAligned(pos + gap, |a.tail|);
        AcceptSlot(side, m, sc, ts[k], vs[k], pos + |a.slots|, gap', h', r.at, b);
      }
    }
  }

  lemma AcceptNone(side: Side, m: Message, sc: Schema, ts: seq<Type>, vs: seq<Value>, pos: nat, c: Cursor)
    requires WellFormedSchema(sc) && ShapedAll(sc, ts, vs) && vs == [] && WellFormedAll(sc, ts)
    requires pos + SlotsSize(ts) <= |m.bytes| && c.offset <= |m.bytes|
    ensures ValidateSlots(m, sc, ts, pos, c) == Valid(c) && ConformsAll(side, sc, ts, vs)
  {
  }

  lemma ValidateLast(side: Side, m: Message, sc: Schema, ts: seq<Type>, vs: seq<Value>, pos: nat, c: Cursor)
    requires WellFormedSchema(sc) && WellFormedAll(sc, ts) && ShapedAll(sc, ts, vs) && |vs| > 0
    requires pos + SlotsSize(ts) <= |m.bytes| && c.offset <= |m.bytes|
    ensures var k := |vs| - 1;
            && WellFormedAll(sc, ts[..k]) && WellFormed(sc, ts[k])
            && ShapedAll(sc, ts[..k], vs[..k]) && Shaped(sc, ts[k], vs[k])
            && SlotsSize(ts) == SlotsSize(ts[..k]) + SlotSize(ts[k])
            && (ConformsAll(side, sc, ts, vs) <==> ConformsAll(side, sc, ts[..k], vs[..k]) && Conforms(side, sc, ts[k], vs[k]))
            && ValidateSlots(m, sc, ts, pos, c) ==
               var r := ValidateSlots(m, sc, ts[..k], pos, c);
               if r.Invalid? then r else ValidateSlot(m, sc, ts[k], pos + SlotsSize(ts[..k]), r.at)
  {
    hide ValidateSlot, ValidateSlots, Conforms, Shaped, WellFormed, WellFormedSchema, SlotSize;
    assert |ts| == |vs|;
    ValidateSlotsStep(m, sc, ts, pos, c);
  }

  lemma ValidateSlotsStep(m: Message, sc: Schema, ts: seq<Type>, pos: nat, c: Cursor)
    requires WellFormedSchema(sc) && WellFormedAll(sc, ts) && |ts| > 0
    requires pos + SlotsSize(ts) <= |m.bytes| && c.offset <= |m.bytes|
    ensures var k := |ts| - 1;
            && WellFormedAll(sc, ts[..k]) && WellFormed(sc, ts[k])
            && ValidateSlots(m, sc, ts, pos, c) ==
               var r := ValidateSlots(m, sc, ts[..k], pos, c);
               if r.Invalid? then r else ValidateSlot(m, sc, ts[k], pos + SlotsSize(ts[..k]), r.at)
  {
    hide ValidateSlot, WellFormed, WellFormedSchema, SlotSize;
  }
}
