/** What the JavaScript Validator does not look at: exactly for which types it can accept what the Decoder cannot
    decode. */
module JsBlindSpot {
  import opened Bytes
  import opened Wire
  import opened JsValidation
  import opened JsDecoding
  import opened JsExposure
  import opened JsDefaults
  import opened JsSafety

  /** Whatever is accepted can be decoded. */
  ghost predicate Safe(sc: Schema, t: Type)
    requires WellFormedSchema(sc) && WellFormed(sc, t)
  {
    forall m: Message, pos: nat, c: Cursor ::
      pos + SlotSize(t) <= |m.bytes| && c.offset <= |m.bytes| && ValidateSlot(m, sc, t, pos, c).Valid?
      ==> DecodeSlot(m, sc, t, pos).Done?
  }

  // ---- blocks that are accepted and cannot be decoded ----

  /** A distance that leads behind the end of any message below this size. */
  const FAR: nat := 0x10_0000_0000_0000

  /** How deeply arrays and maps are nested. */
  function Depth(t: Type): nat {
    match t
    case ArrayOf(elem, _) => 1 + Depth(elem)
    case NullableArrayOf(elem, _) => 1 + Depth(elem)
    case MapOf(_, value, _) => 2 + Depth(value)
    case _ => 0
  }

  function WildLength(t: Type): nat { if FixedLength(t) == 0 then 1 else FixedLength(t) }

  /** The second header word of a wild block. */
  function WildWord(sc: Schema, t: Type): nat {
    if IsArray(t) then WildLength(t) else if t.PointerTo? && t.cls < |sc| then sc[t.cls].version else 0
  }

  /** The keys of a map of one entry. */
  function OneKey(key: Type): Value {
    Seq([if key.Integer? then Number(0) else if key.PackedBool? then Flag(false) else Text([])])
  }

  lemma WildParts(sc: Schema, t: Type, n: nat)
    requires WellFormedSchema(sc) && WellFormed(sc, t) && Exposed(sc, t, n)
    ensures IsArray(t) || t.MapOf? || t.PointerTo?
    ensures IsArray(t) ==> WellFormed(sc, t.elem) && SlotSize(t.elem) == 8 && (t.elem.MapOf? || Exposed(sc, t.elem, n))
    ensures t.MapOf? ==> && (t.key.Integer? || t.key.PackedBool? || t.key.String?) && WellFormedElement(sc, t.key)
                         && WellFormed(sc, ArrayOf(t.value, 0)) && Exposed(sc, ArrayOf(t.value, 0), n)
    ensures t.PointerTo? ==> && n > 0 && t.cls < |sc| && WellFormedAll(sc, sc[t.cls].slots)
                             && 8 + SlotsSize(sc[t.cls].slots) < TWO32 && AllAcceptable(sc, sc[t.cls].slots, n - 1)
                             && SomeExposed(sc, sc[t.cls].slots, n - 1)
  {
    hide WellFormedAll, AllAcceptable, SlotsSize;
    if t.PointerTo? { SlotsFine(sc, t.cls); }
  }

  /** A block of an exposed type: arrays have no more items than they must, each of them wild, maps one entry with a wild
      value, and structs a wild field wherever there can be one. A map that is an item of an array is a pointer that leads
      far away. */
  function WildBlock(sc: Schema, t: Type, n: nat, h: nat): (s: seq<byte>)
    requires WellFormedSchema(sc) && WellFormed(sc, t) && Exposed(sc, t, n)
    ensures |s| % 8 == 0
    decreases n, 0, Depth(t), 2, 0
  {
    var b := WildBody(sc, t, n, h);
    Block(8 + |b.slots|, WildWord(sc, t), b)
  }

  function WildBody(sc: Schema, t: Type, n: nat, h: nat): (b: Out)
    requires WellFormedSchema(sc) && WellFormed(sc, t) && Exposed(sc, t, n)
    ensures |b.tail| % 8 == 0
    ensures |b.slots| == if IsArray(t) then 8 * WildLength(t) else if t.MapOf? then 16
                         else if t.PointerTo? && t.cls < |sc| then SlotsSize(sc[t.cls].slots) else 0
    decreases n, 0, Depth(t), 1, 0
  {
    hide WellFormedSchema, SlotsSize, AllAcceptable, SomeExposed, WellFormedAll;
    WildParts(sc, t, n);
    if IsArray(t) then WildItems(sc, t.elem, n, 8 * WildLength(t), WildLength(t), h)
    else if t.MapOf? then
      var keys := KeySlot(sc, t.key, h);
      var values := WildItem(sc, ArrayOf(t.value, 0), n, 8 + |keys.tail|, h);
      AddAligned(|keys.tail|, |values.tail|);
      Append(keys, values)
    else WildFields(sc, sc[t.cls].slots, n - 1, Align(8 + SlotsSize(sc[t.cls].slots)) - 8, h)
  }

  /** A slot that points to a wild block. */
  function WildSlot(sc: Schema, t: Type, n: nat, gap: int, h: nat): (o: Out)
    requires WellFormedSchema(sc) && WellFormed(sc, t) && Exposed(sc, t, n)
    ensures |o.slots| == 8 && |o.tail| % 8 == 0
    decreases n, 0, Depth(t), 3, 0
  {
    Out(ToLE(gap, 8), WildBlock(sc, t, n, h), WildBody(sc, t, n, h).handles)
  }

  function WildItem(sc: Schema, elem: Type, n: nat, gap: int, h: nat): (o: Out)
    requires WellFormedSchema(sc) && WellFormed(sc, elem) && (elem.MapOf? || Exposed(sc, elem, n))
    ensures |o.slots| == 8 && |o.tail| % 8 == 0
    decreases n, 0, Depth(elem), 4, 0
  {
    if elem.MapOf? then Out(ToLE(FAR, 8), [], []) else WildSlot(sc, elem, n, gap, h)
  }

  /** The first items of a wild array; the first slot lies `gap` bytes before the next free byte. */
  function WildItems(sc: Schema, elem: Type, n: nat, gap: nat, count: nat, h: nat): (o: Out)
    requires WellFormedSchema(sc) && WellFormed(sc, elem) && (elem.MapOf? || Exposed(sc, elem, n))
    ensures |o.slots| == 8 * count && |o.tail| % 8 == 0
    decreases n, 0, Depth(elem), 5, count
  {
    if count == 0 then Out([], [], [])
    else
      var a := WildItems(sc, elem, n, gap, count - 1, h);
      var b := WildItem(sc, elem, n, gap + |a.tail| - |a.slots|, h + |a.handles|);
      AddAligned(|a.tail|, |b.tail|);
      Append(a, b)
  }

  /** The fields of a struct: wild where they can be, and otherwise what they hold by default. */
  function WildFields(sc: Schema, ts: seq<Type>, n: nat, gap: int, h: nat): (o: Out)
    requires WellFormedSchema(sc) && WellFormedAll(sc, ts) && AllAcceptable(sc, ts, n)
    ensures |o.slots| == SlotsSize(ts) && |o.tail| % 8 == 0
    decreases n, 1, |ts|, 0, 0
  {
    hide WellFormedSchema, WellFormed, Acceptable, Exposed, SlotSize, WildField;
    if ts == [] then Out([], [], [])
    else
      var k := |ts| - 1;
      var a := WildFields(sc, ts[..k], n, gap, h);
      var b := WildField(sc, ts[k], n, gap + |a.tail| - |a.slots|, h + |a.handles|);
      AddAligned(|a.tail|, |b.tail|);
      Append(a, b)
  }

  function WildField(sc: Schema, t: Type, n: nat, gap: int, h: nat): (o: Out)
    requires WellFormedSchema(sc) && WellFormed(sc, t) && Acceptable(sc, t, n)
    ensures |o.slots| == SlotSize(t) && |o.tail| % 8 == 0
    decreases n, 0, Depth(t), 4, 0
  {
    hide WellFormedSchema, Acceptable;
    if Exposed(sc, t, n) then
      ExposedPointer(sc, t, n);
      WildSlot(sc, t, n, gap, h)
    else
      DefaultFine(sc, t, n);
      Encode(JavaScript, sc, t, Default(sc, t, n), gap, h)
  }

  lemma ExposedPointer(sc: Schema, t: Type, n: nat)
    requires Exposed(sc, t, n)
    ensures IsPointer(t) && SlotSize(t) == 8
  {
  }

  lemma KeyFits(sc: Schema, key: Type)
    requires (key.Integer? || key.PackedBool? || key.String?) && WellFormedElement(sc, key)
    ensures var t, v := ArrayOf(key, 0), OneKey(key);
            Shaped(sc, t, v) && !v.Null? && Conforms(JavaScript, sc, t, v)
  {
    var t, v := ArrayOf(key, 0), OneKey(key);
    if !key.PackedBool? {
      assert Repeat(key, 1) == [key];
      assert [key][..0] == [] && v.items[..0] == [];
      assert ShapedAll(sc, [], []);
    }
  }

  lemma KeySmall(sc: Schema, key: Type, h: nat)
    requires (key.Integer? || key.PackedBool? || key.String?) && WellFormedElement(sc, key)
    requires Shaped(sc, ArrayOf(key, 0), OneKey(key))
    ensures var o := Encode(JavaScript, sc, ArrayOf(key, 0), OneKey(key), 16, h); |o.tail| <= 32 && o.handles == []
  {
    hide Block, ToLE;
    var t, v := ArrayOf(key, 0), OneKey(key);
    var b := EncodePresent(JavaScript, sc, t, v, 16, h);
    if !key.PackedBool? {
      assert Repeat(key, 1)[..0] == [] && v.items[..0] == [];
      hide Shaped, ShapedAll, Encode, EncodeSlots, WellFormed, SlotsSize;
      RepeatSize(key, 1);
      var before, last := EncodeLast(JavaScript, sc, Repeat(key, 1), v.items, Align(BlockSize(sc, t, v)) - 8, h);
      EncodeNone(JavaScript, sc, Align(BlockSize(sc, t, v)) - 8, h);
      OneKeySlot(sc, key, v.items[0], Align(BlockSize(sc, t, v)) - 8, h);
    }
  }

  lemma OneKeySlot(sc: Schema, key: Type, v: Value, gap: int, h: nat)
    requires (key.Integer? && v.Number?) || (key.String? && v == Text([]))
    requires Shaped(sc, key, v)
    ensures var o := Encode(JavaScript, sc, key, v, gap, h); |o.tail| <= 8 && o.handles == []
  {
    hide Block, ToLE;
  }

  /** The slot and the block of the keys of a map of one entry. */
  function KeySlot(sc: Schema, key: Type, h: nat): (o: Out)
    requires (key.Integer? || key.PackedBool? || key.String?) && WellFormedElement(sc, key)
    ensures |o.slots| == 8 && |o.tail| % 8 == 0 && |o.tail| <= 32 && o.handles == []
  {
    KeyFits(sc, key);
    KeySmall(sc, key, h);
    Encode(JavaScript, sc, ArrayOf(key, 0), OneKey(key), 16, h)
  }

  // ---- they are accepted, and fail ----

  /** The type leads to structs. */
  predicate PointsTo(t: Type) {
    match t
    case ArrayOf(elem, _) => PointsTo(elem)
    case NullableArrayOf(elem, _) => PointsTo(elem)
    case MapOf(_, value, _) => PointsTo(value)
    case PointerTo(_, _) => true
    case _ => false
  }

  /** A message that far pointers lead out of, and that 32-bit sizes can describe where structs are in it. */
  predicate Small(m: Message, t: Type) {
    |m.bytes| <= FAR && |m.handles| < INVALID_HANDLE && (PointsTo(t) ==> |m.bytes| < TWO32)
  }

  predicate AcceptedWithin(r: Verdict, offset: int, handleIndex: int) {
    r.Valid? && r.at.offset <= offset && r.at.handleIndex <= handleIndex
  }

  /** The pointer at pos leads to a wild block, which is accepted and fails to decode. */
  lemma {:induction false} WildPointer(m: Message, sc: Schema, t: Type, n: nat, pos: nat, gap: nat, h: nat, c: Cursor)
    requires WellFormedSchema(sc) && WellFormed(sc, t) && Exposed(sc, t, n) && Small(m, t)
    requires 0 < gap && (pos + gap) % 8 == 0 && c.offset <= pos + gap && c.handleIndex <= h
    requires Placed(m, pos, gap, h, WildSlot(sc, t, n, gap, h))
    ensures IsPointer(t) && pos + 8 <= |m.bytes| && c.offset <= |m.bytes|
    ensures var o := WildSlot(sc, t, n, gap, h);
            AcceptedWithin(ValidateSlot(m, sc, t, pos, c), pos + gap + |o.tail|, h + |o.handles|)
    ensures DecodeSlot(m, sc, t, pos).Failed?
    decreases n, 0, Depth(t), 3, 0
  {
    hide WellFormedSchema, WellFormed, Exposed, WildBlock, WildBody, ValidateBlock, DecodeBlock, GetUint, ToLE;
    ExposedPointer(sc, t, n);
    WildBlockAccepted(m, sc, t, n, pos + gap, h, c);
    GetPointer(m, pos, gap);
  }

  lemma {:induction false} WildBlockAccepted(m: Message, sc: Schema, t: Type, n: nat, q: nat, h: nat, c: Cursor)
    requires WellFormedSchema(sc) && WellFormed(sc, t) && Exposed(sc, t, n) && Small(m, t)
    requires q % 8 == 0 && c.offset <= q && c.handleIndex <= h
    requires At(m.bytes, q, WildBlock(sc, t, n, h)) && At(m.handles, h, WildBody(sc, t, n, h).handles)
    ensures IsPointer(t) && c.offset <= |m.bytes|
    ensures AcceptedWithin(ValidateBlock(m, sc, t, q, c), q + |WildBlock(sc, t, n, h)|,
                           h + |WildBody(sc, t, n, h).handles|)
    ensures DecodeBlock(m, sc, t, q).Failed?
    decreases n, 0, Depth(t), 2, 0
  {
    hide WellFormedSchema, WellFormed, Exposed, WildBody, WildBlock, WildItems, WildFields, WildWord, ValidateSlots,
      DecodeSlots, GetUint, Block, At, Placed, SlotsSize, ArrayLength, BlockSlots, Align, HeaderFits, WildLength,
      Small, WellFormedAll, AllAcceptable, SomeExposed;
    var b, word := WildBody(sc, t, n, h), WildWord(sc, t);
    var size := 8 + |b.slots|;
    WildParts(sc, t, n);
    WildShape(sc, t, n, h, size, word);
    PlacedBlock(m, q, h, size, word, b);
    AddAligned(q, 8);
    AddAligned(q, Align(size));
    BlockSlotsWellFormed(sc, t, word);
    SmallParts(m, t);
    var claimed := Cursor(q + size, c.handleIndex);
    if t.MapOf? {
      WildMap(m, sc, t, n, q, h, claimed);
    } else if t.PointerTo? {
      assert q + 8 + (Align(size) - 8) == q + Align(size);
      WildFieldsAccepted(m, sc, sc[t.cls].slots, n - 1, q + 8, Align(size) - 8, h, claimed);
    } else if t.elem.MapOf? {
      FarItems(m, sc, t.elem, n, q + 8, size - 8, word, h);
    } else {
      WildItemsAccepted(m, sc, t.elem, n, q + 8, size - 8, word, h, claimed);
    }
  }

  lemma SmallParts(m: Message, t: Type)
    requires Small(m, t)
    ensures Bounded(m) && |m.bytes| <= FAR
    ensures IsArray(t) ==> Small(m, t.elem)
    ensures t.MapOf? ==> Small(m, ArrayOf(t.value, 0))
    ensures t.PointerTo? ==> |m.bytes| < TWO32
  {
  }

  /** The header of a wild block is as it should be. */
  lemma WildShape(sc: Schema, t: Type, n: nat, h: nat, size: nat, word: nat)
    requires WellFormedSchema(sc) && WellFormed(sc, t) && Exposed(sc, t, n)
    requires size == 8 + |WildBody(sc, t, n, h).slots| && word == WildWord(sc, t)
    ensures IsPointer(t) && !IsRaw(t) && HeaderFits(sc, t, size, word) && size < TWO32 && word < TWO32
    ensures |WildBlock(sc, t, n, h)| == Align(size) + |WildBody(sc, t, n, h).tail|
    ensures WildBlock(sc, t, n, h) == Block(size, word, WildBody(sc, t, n, h))
    ensures IsArray(t) ==> WellFormed(sc, t.elem) && (t.elem.MapOf? || Exposed(sc, t.elem, n))
    ensures IsArray(t) ==> && BlockSlots(sc, t, word) == Repeat(t.elem, word) && size == 8 + 8 * word && word > 0
                           && Align(size) == size
                           && WildBody(sc, t, n, h) == WildItems(sc, t.elem, n, size - 8, word, h)
    ensures t.MapOf? ==> BlockSlots(sc, t, word) == [ArrayOf(t.key, 0), ArrayOf(t.value, 0)] && size == 24
    ensures t.PointerTo? ==> n > 0 && t.cls < |sc| && WellFormedAll(sc, sc[t.cls].slots)
                             && AllAcceptable(sc, sc[t.cls].slots, n - 1)
    ensures t.PointerTo? ==> && BlockSlots(sc, t, word) == sc[t.cls].slots
                             && WildBody(sc, t, n, h) == WildFields(sc, sc[t.cls].slots, n - 1, Align(size) - 8, h)
  {
    hide SlotsSize, Block, WildItems, WildItem, WildFields, KeySlot, AllAcceptable, SomeExposed, WellFormedAll, Align;
    WildParts(sc, t, n);
    if IsArray(t) {
      RepeatSize(t.elem, word);
      Multiple(word);
    } else if t.MapOf? {
      PairSize(ArrayOf(t.key, 0), ArrayOf(t.value, 0));
    }
  }

  lemma Multiple(k: nat)
    ensures Align(8 + 8 * k) == 8 + 8 * k
  {
  }

  lemma LastItem(sc: Schema, elem: Type, n: nat, gap: nat, count: nat, h: nat) returns (a: Out, b: Out)
    requires WellFormedSchema(sc) && WellFormed(sc, elem) && (elem.MapOf? || Exposed(sc, elem, n)) && count > 0
    ensures a == WildItems(sc, elem, n, gap, count - 1, h)
    ensures b == WildItem(sc, elem, n, gap + |a.tail| - |a.slots|, h + |a.handles|)
    ensures WildItems(sc, elem, n, gap, count, h) == Append(a, b)
  {
    hide WildItem, WellFormedSchema;
    a := WildItems(sc, elem, n, gap, count - 1, h);
    b := WildItem(sc, elem, n, gap + |a.tail| - |a.slots|, h + |a.handles|);
  }

  lemma {:induction false} WildItemsAccepted(m: Message, sc: Schema, elem: Type, n: nat, pos: nat, gap: nat, count: nat,
                                             h: nat, c: Cursor)
    requires WellFormedSchema(sc) && WellFormed(sc, elem) && Exposed(sc, elem, n) && !elem.MapOf? && Small(m, elem)
    requires (pos + gap) % 8 == 0 && 8 * count <= gap && c.offset <= pos + gap && c.handleIndex <= h
    requires Placed(m, pos, gap, h, WildItems(sc, elem, n, gap, count, h))
    ensures WellFormedAll(sc, Repeat(elem, count)) && pos + SlotsSize(Repeat(elem, count)) <= |m.bytes|
    ensures c.offset <= |m.bytes|
    ensures var o := WildItems(sc, elem, n, gap, count, h);
            AcceptedWithin(ValidateSlots(m, sc, Repeat(elem, count), pos, c), pos + gap + |o.tail|, h + |o.handles|)
    ensures count > 0 ==> DecodeSlots(m, sc, Repeat(elem, count), pos).FailedAll?
    decreases n, 0, Depth(elem), 5, count
  {
    hide WellFormedSchema, WellFormed, WellFormedAll, Exposed, ValidateSlots, ValidateSlot, DecodeSlots, DecodeSlot,
      SlotsSize, WildSlot, WildItem, WildItems, ToLE, Placed, At, Small;
    ExposedPointer(sc, elem, n);
    RepeatWellFormed(sc, elem, count);
    RepeatSize(elem, count);
    var o := WildItems(sc, elem, n, gap, count, h);
    PlacedFits(m, pos, gap, h, o);
    if count == 0 {
      NothingValidated(m, sc, pos, c);
    } else {
      var a, b := LastItem(sc, elem, n, gap, count, h);
      var ts := Repeat(elem, count);
      assert ts[..count - 1] == Repeat(elem, count - 1);
      PlacedAppend(m, pos, gap, h, a, b);
      WildItemsAccepted(m, sc, elem, n, pos, gap, count - 1, h, c);
      RepeatSize(elem, count - 1);
      ValidateSlotsStep(m, sc, ts, pos, c);
      DecodeLast(m, sc, ts, pos);
      var d := ValidateSlots(m, sc, ts[..count - 1], pos, c).at;
      var pos', gap' := pos + 8 * (count - 1), gap + |a.tail| - |a.slots|;
      AddAligned(pos + gap, |a.tail|);
      assert pos' + gap' == pos + gap + |a.tail|;
      NotAMap(sc, elem, n, gap', h + |a.handles|);
      WildPointer(m, sc, elem, n, pos', gap', h + |a.handles|, d);
    }
  }

  lemma NotAMap(sc: Schema, elem: Type, n: nat, gap: int, h: nat)
    requires WellFormedSchema(sc) && WellFormed(sc, elem) && Exposed(sc, elem, n) && !elem.MapOf?
    ensures WildItem(sc, elem, n, gap, h) == WildSlot(sc, elem, n, gap, h)
  {
    hide WildSlot, WellFormedSchema;
  }

  lemma NothingValidated(m: Message, sc: Schema, pos: nat, c: Cursor)
    requires WellFormedSchema(sc) && pos <= |m.bytes| && c.offset <= |m.bytes|
    ensures WellFormedAll(sc, []) && SlotsSize([]) == 0 && ValidateSlots(m, sc, [], pos, c) == Valid(c)
  {
  }

  /** The items of an array of maps are not looked at. */
  lemma FarItems(m: Message, sc: Schema, elem: Type, n: nat, pos: nat, gap: nat, count: nat, h: nat)
    requires WellFormedSchema(sc) && WellFormed(sc, elem) && elem.MapOf? && |m.bytes| <= FAR && count > 0
    requires Placed(m, pos, gap, h, WildItems(sc, elem, n, gap, count, h))
    ensures pos <= |m.bytes| && WellFormedAll(sc, Repeat(elem, count))
    ensures DecodeSlots(m, sc, Repeat(elem, count), pos).FailedAll?
  {
    hide WellFormedSchema, WellFormed, WellFormedAll, DecodeSlots, SlotsSize, ToLE, GetUint, WildItems, At;
    RepeatWellFormed(sc, elem, count);
    var ts := Repeat(elem, count);
    var a, b := LastItem(sc, elem, n, gap, count, h);
    PlacedFits(m, pos, gap, h, WildItems(sc, elem, n, gap, count, h));
    PlacedAppend(m, pos, gap, h, a, b);
    assert ts[..count - 1] == Repeat(elem, count - 1);
    RepeatSize(elem, count - 1);
    DecodeLast(m, sc, ts, pos);
    assert Pow256(8) == TWO32 * TWO32;
    GetAt(m.bytes, pos + 8 * (count - 1), FAR, 8);
  }

  lemma NothingExposed(sc: Schema, n: nat)
    ensures !SomeExposed(sc, [], n)
  {
  }

  lemma LastWildField(sc: Schema, ts: seq<Type>, n: nat, gap: int, h: nat) returns (a: Out, b: Out)
    requires WellFormedSchema(sc) && WellFormedAll(sc, ts) && AllAcceptable(sc, ts, n) && ts != []
    ensures var k := |ts| - 1;
            && WellFormedAll(sc, ts[..k]) && WellFormed(sc, ts[k])
            && AllAcceptable(sc, ts[..k], n) && Acceptable(sc, ts[k], n)
            && a == WildFields(sc, ts[..k], n, gap, h)
            && b == WildField(sc, ts[k], n, gap + |a.tail| - |a.slots|, h + |a.handles|)
            && WildFields(sc, ts, n, gap, h) == Append(a, b)
            && SlotsSize(ts) == SlotsSize(ts[..k]) + SlotSize(ts[k])
            && (SomeExposed(sc, ts, n) <==> SomeExposed(sc, ts[..k], n) || Exposed(sc, ts[k], n))
  {
    hide WellFormedSchema, WellFormed, Acceptable, Exposed, SlotSize, WildField;
    a := WildFields(sc, ts[..|ts| - 1], n, gap, h);
    b := WildField(sc, ts[|ts| - 1], n, gap + |a.tail| - |a.slots|, h + |a.handles|);
  }

  lemma {:induction false} WildFieldsAccepted(m: Message, sc: Schema, ts: seq<Type>, n: nat, pos: nat, gap: int, h: nat,
                                              c: Cursor)
    requires WellFormedSchema(sc) && WellFormedAll(sc, ts) && AllAcceptable(sc, ts, n)
    requires Bounded(m) && |m.bytes| < TWO32
    requires (pos + gap) % 8 == 0 && SlotsSize(ts) <= gap && c.offset <= pos + gap && c.handleIndex <= h
    requires Placed(m, pos, gap, h, WildFields(sc, ts, n, gap, h))
    ensures pos + SlotsSize(ts) <= |m.bytes| && c.offset <= |m.bytes|
    ensures var o := WildFields(sc, ts, n, gap, h);
            AcceptedWithin(ValidateSlots(m, sc, ts, pos, c), pos + gap + |o.tail|, h + |o.handles|)
    ensures SomeExposed(sc, ts, n) ==> DecodeSlots(m, sc, ts, pos).FailedAll?
    decreases n, 1, |ts|, 0, 0
  {
    hide WellFormedSchema, WellFormed, Exposed, Acceptable, ValidateSlots, ValidateSlot, DecodeSlots, DecodeSlot,
      SlotSize, SlotsSize, WellFormedAll, AllAcceptable, SomeExposed, WildField, WildFields, Placed, At;
    var o := WildFields(sc, ts, n, gap, h);
    PlacedFits(m, pos, gap, h, o);
    if ts == [] {
      NothingValidated(m, sc, pos, c);
      NothingExposed(sc, n);
    } else {
      var k := |ts| - 1;
      var a, b := LastWildField(sc, ts, n, gap, h);
      PlacedAppend(m, pos, gap, h, a, b);
      WildFieldsAccepted(m, sc, ts[..k], n, pos, gap, h, c);
      ValidateSlotsStep(m, sc, ts, pos, c);
      DecodeLast(m, sc, ts, pos);
      var d := ValidateSlots(m, sc, ts[..k], pos, c).at;
      var pos', gap' := pos + SlotsSize(ts[..k]), gap + |a.tail| - |a.slots|;
      AddAligned(pos + gap, |a.tail|);
      assert pos' + gap' == pos + gap + |a.tail|;
      WildFieldAccepted(m, sc, ts[k], n, pos', gap', h + |a.handles|, d);
    }
  }

  lemma {:induction false} WildFieldAccepted(m: Message, sc: Schema, t: Type, n: nat, pos: nat, gap: nat, h: nat,
                                             c: Cursor)
    requires WellFormedSchema(sc) && WellFormed(sc, t) && Acceptable(sc, t, n)
    requires Bounded(m) && |m.bytes| < TWO32
    requires (pos + gap) % 8 == 0 && SlotSize(t) <= gap && c.offset <= pos + gap && c.handleIndex <= h
    requires Placed(m, pos, gap, h, WildField(sc, t, n, gap, h))
    ensures pos + SlotSize(t) <= |m.bytes| && c.offset <= |m.bytes|
    ensures var o := WildField(sc, t, n, gap, h);
            AcceptedWithin(ValidateSlot(m, sc, t, pos, c), pos + gap + |o.tail|, h + |o.handles|)
    ensures Exposed(sc, t, n) ==> DecodeSlot(m, sc, t, pos).Failed?
    decreases n, 0, Depth(t), 4, 0
  {
    hide WellFormedSchema, WellFormed, Exposed, Acceptable, ValidateSlot, DecodeSlot, WildSlot, Default, Encode, At;
    PlacedFits(m, pos, gap, h, WildField(sc, t, n, gap, h));
    if Exposed(sc, t, n) {
      ExposedPointer(sc, t, n);
      WildPointer(m, sc, t, n, pos, gap, h, c);
    } else {
      DefaultFine(sc, t, n);
      AcceptSlot(JavaScript, m, sc, t, Default(sc, t, n), pos, gap, h, c, WildField(sc, t, n, gap, h));
    }
  }

  lemma {:induction false} WildMap(m: Message, sc: Schema, t: Type, n: nat, q: nat, h: nat, c: Cursor)
    requires WellFormedSchema(sc) && WellFormed(sc, t) && Exposed(sc, t, n) && t.MapOf? && Small(m, t)
    requires q % 8 == 0 && c.offset == q + 24 && c.handleIndex <= h
    requires Placed(m, q + 8, 16, h, WildBody(sc, t, n, h))
    ensures var ts := [ArrayOf(t.key, 0), ArrayOf(t.value, 0)];
            && WellFormedAll(sc, ts) && q + 8 + SlotsSize(ts) <= |m.bytes| && c.offset <= |m.bytes|
            && AcceptedWithin(ValidateSlots(m, sc, ts, q + 8, c), q + 24 + |WildBody(sc, t, n, h).tail|,
                              h + |WildBody(sc, t, n, h).handles|)
            && ArrayLength(m, q + 8) == ArrayLength(m, q + 16)
            && DecodeSlots(m, sc, ts, q + 8).FailedAll?
    decreases n, 0, Depth(t), 1, 0
  {
    hide WellFormedSchema, WellFormed, WellFormedAll, Exposed, ValidateSlots, ValidateSlot, DecodeSlots, DecodeSlot,
      SlotsSize, WildSlot, WildItem, ToLE, KeySlot, ArrayLength, Placed, At, Small;
    WildParts(sc, t, n);
    SmallParts(m, t);
    var ks, vs := ArrayOf(t.key, 0), ArrayOf(t.value, 0);
    var a := KeySlot(sc, t.key, h);
    var b := WildItem(sc, vs, n, 8 + |a.tail|, h);
    PlacedFits(m, q + 8, 16, h, WildBody(sc, t, n, h));
    PlacedAppend(m, q + 8, 16, h, a, b);
    KeysAccepted(m, sc, t.key, q + 8, h, c);
    var d := ValidateSlot(m, sc, ks, q + 8, c).at;
    AddAligned(q, 24);
    AddAligned(q + 24, |a.tail|);
    NotAMap(sc, vs, n, 8 + |a.tail|, h);
    WildPointer(m, sc, vs, n, q + 16, 8 + |a.tail|, h, d);
    WildLengthRead(m, sc, vs, n, q + 16, 8 + |a.tail|, h);
    PairSteps(m, sc, ks, vs, q + 8, c);
  }

  lemma PairSteps(m: Message, sc: Schema, a: Type, b: Type, pos: nat, c: Cursor)
    requires WellFormedSchema(sc) && WellFormed(sc, a) && WellFormed(sc, b)
    requires pos + SlotSize(a) + SlotSize(b) <= |m.bytes| && c.offset <= |m.bytes|
    ensures WellFormedAll(sc, [a, b]) && SlotsSize([a, b]) == SlotSize(a) + SlotSize(b)
    ensures var r := ValidateSlot(m, sc, a, pos, c);
            ValidateSlots(m, sc, [a, b], pos, c)
              == if r.Invalid? then r else ValidateSlot(m, sc, b, pos + SlotSize(a), r.at)
    ensures DecodeSlot(m, sc, b, pos + SlotSize(a)).Failed? ==> DecodeSlots(m, sc, [a, b], pos).FailedAll?
  {
    hide ValidateSlot, DecodeSlot, WellFormed, WellFormedSchema, SlotSize, ValidateSlots, DecodeSlots;
    PairSize(a, b);
    assert [a, b][..1] == [a] && [a][..0] == [] && WellFormedAll(sc, []) && WellFormedAll(sc, [a]);
    NothingValidated(m, sc, pos, c);
    assert SlotsSize([a]) == SlotSize(a);
    ValidateSlotsStep(m, sc, [a], pos, c);
    ValidateSlotsStep(m, sc, [a, b], pos, c);
    DecodeLast(m, sc, [a, b], pos);
  }

  lemma KeysAccepted(m: Message, sc: Schema, key: Type, pos: nat, h: nat, c: Cursor)
    requires WellFormedSchema(sc) && (key.Integer? || key.PackedBool? || key.String?) && WellFormedElement(sc, key)
    requires Bounded(m) && pos % 8 == 0 && c.offset <= pos + 16 && c.handleIndex <= h
    requires Placed(m, pos, 16, h, KeySlot(sc, key, h))
    ensures WellFormed(sc, ArrayOf(key, 0)) && pos + 8 <= |m.bytes| && c.offset <= |m.bytes|
    ensures AcceptedWithin(ValidateSlot(m, sc, ArrayOf(key, 0), pos, c), pos + 16 + |KeySlot(sc, key, h).tail|, h)
    ensures ArrayLength(m, pos) == 1
  {
    hide WellFormedSchema, ValidateSlot, Encode, Block, ToLE, Shaped, Conforms, BlockSize, GetUint, EncodeBody, At;
    KeyFits(sc, key);
    var t, v, o := ArrayOf(key, 0), OneKey(key), KeySlot(sc, key, h);
    AcceptSlot(JavaScript, m, sc, t, v, pos, 16, h, c, o);
    var b := EncodePresent(JavaScript, sc, t, v, 16, h);
    LengthRead(m, pos, 16, h, BlockSize(sc, t, v), 1, b);
  }

  lemma LengthRead(m: Message, pos: nat, gap: nat, h: nat, size: nat, word: nat, b: Out)
    requires Bounded(m) && At(m.bytes, pos, ToLE(gap, 8)) && At(m.bytes, pos + gap, Block(size, word, b))
    requires size == 8 + |b.slots| && size < TWO32 && word < TWO32 && At(m.handles, h, b.handles)
    ensures pos + 8 <= |m.bytes| && ArrayLength(m, pos) == word
  {
    hide Block, ToLE, GetUint;
    PlacedBlock(m, pos + gap, h, size, word, b);
    GetPointer(m, pos, gap);
  }

  lemma WildLengthRead(m: Message, sc: Schema, t: Type, n: nat, pos: nat, gap: nat, h: nat)
    requires WellFormedSchema(sc) && WellFormed(sc, t) && Exposed(sc, t, n) && t.ArrayOf? && t.length == 0 && Bounded(m)
    requires Placed(m, pos, gap, h, WildSlot(sc, t, n, gap, h))
    ensures pos + 8 <= |m.bytes| && ArrayLength(m, pos) == 1
  {
    hide WellFormedSchema, WildBody, ToLE, At, ArrayLength, Block;
    var b := WildBody(sc, t, n, h);
    LengthRead(m, pos, gap, h, 8 + |b.slots|, 1, b);
  }

  // ---- the exact condition ----

  /** A message of just one slot and what it points to. */
  function WildMessage(sc: Schema, t: Type, n: nat): Message
    requires WellFormedSchema(sc) && WellFormed(sc, t) && Exposed(sc, t, n)
  {
    var o := WildSlot(sc, t, n, 8, 0);
    Message(o.slots + o.tail, o.handles)
  }

  lemma WildAccepted(sc: Schema, t: Type, n: nat)
    requires WellFormedSchema(sc) && WellFormed(sc, t) && Exposed(sc, t, n) && Small(WildMessage(sc, t, n), t)
    ensures !Safe(sc, t)
  {
    hide WellFormedSchema, WellFormed, Exposed, WildSlot, Small, ValidateSlot, DecodeSlot;
    var m, c, o := WildMessage(sc, t, n), Cursor(0, 0), WildSlot(sc, t, n, 8, 0);
    assert m.bytes[0..8] == o.slots && m.bytes[8..8 + |o.tail|] == o.tail && m.handles[0..0 + |o.handles|] == o.handles;
    ExposedPointer(sc, t, n);
    WildPointer(m, sc, t, n, 0, 8, 0, c);
    assert 0 + SlotSize(t) <= |m.bytes| && ValidateSlot(m, sc, t, 0, c).Valid?;
  }

  /** Some message that shows the type to be exposed is small enough. */
  ghost predicate Shown(sc: Schema, t: Type)
    requires WellFormedSchema(sc) && WellFormed(sc, t)
  {
    exists n: nat :: Exposed(sc, t, n) && Small(WildMessage(sc, t, n), t)
  }

  /** Everything that is accepted can be decoded if and only if the type does not lead, through blocks that can be
      accepted, to an array of maps or a map of maps. */
  lemma SafeIff(sc: Schema, t: Type)
    requires WellFormedSchema(sc) && WellFormed(sc, t)
    requires !Clear(sc, t) ==> Shown(sc, t)
    ensures Safe(sc, t) <==> Clear(sc, t)
  {
    hide WellFormedSchema, WellFormed, Clear, Small, WildMessage, ValidateSlot, DecodeSlot;
    if Clear(sc, t) {
      forall m: Message, pos: nat, c: Cursor
        | pos + SlotSize(t) <= |m.bytes| && c.offset <= |m.bytes| && ValidateSlot(m, sc, t, pos, c).Valid?
        ensures DecodeSlot(m, sc, t, pos).Done?
      {
        SlotSafe(m, sc, t, pos, c);
      }
    } else {
      var n: nat :| Exposed(sc, t, n) && Small(WildMessage(sc, t, n), t);
      WildAccepted(sc, t, n);
    }
  }
}
