/** Which bytes the JavaScript Validator accepts: those that hold a tree of blocks and handles in which each part is right by
    itself, and in which the blocks, and the handles, follow each other. */
module JsLayout {
  import opened Bytes
  import opened Wire
  import opened JsValidation
  import opened Extents
  import opened Layouts

  predicate MayBeNull(t: Type) {
    match t
    case NullableArrayOf(_, _) => true
    case ArrayOf(_, _) => false
    case String(nullable) => nullable
    case PointerTo(_, nullable) => nullable
    case MapOf(_, _, nullable) => nullable
    case Handle(nullable) => nullable
    case Interface(nullable) => nullable
    case _ => false
  }

  /** The bytes that a block of this type takes for its contents; `word` is the second word of its header. */
  function Needed(sc: Schema, t: Type, word: nat): nat {
    match t
    case PointerTo(cls, _) => if cls < |sc| then SlotsSize(sc[cls].slots) else 0
    case MapOf(_, _, _) => 16
    case ArrayOf(elem, _) => if elem.PackedBool? then (word + 7) / 8 else word * SlotSize(elem)
    case NullableArrayOf(elem, _) => if elem.PackedBool? then (word + 7) / 8 else word * SlotSize(elem)
    case _ => word
  }

  /** Structs and maps are looked into, and arrays of handles, strings, structs and arrays. */
  predicate LooksInto(t: Type) {
    match t
    case PointerTo(_, _) => true
    case MapOf(_, _, _) => true
    case ArrayOf(elem, _) => Checked(elem)
    case NullableArrayOf(elem, _) => Checked(elem)
    case _ => false
  }

  predicate Checked(elem: Type) {
    elem.Handle? || elem.Interface? || elem.String? || elem.PointerTo? || elem.ArrayOf? || elem.NullableArrayOf?
  }

  /** The slots of a block that is looked into. */
  function Inside(sc: Schema, t: Type, word: nat): seq<Type> {
    match t
    case PointerTo(cls, _) => if cls < |sc| then sc[cls].slots else []
    case MapOf(key, value, _) => [ArrayOf(key, 0), ArrayOf(value, 0)]
    case ArrayOf(elem, _) => Repeat(elem, word)
    case NullableArrayOf(elem, _) => Repeat(elem, word)
    case _ => []
  }

  /** p is what the message has in the slot at pos, and by itself it is as the type asks: nulls only where they are allowed,
      blocks aligned, in the message and at least as large as their contents, fixed lengths kept, and both columns of a
      map equally long. */
  predicate Right(m: Message, sc: Schema, t: Type, pos: nat, p: Part)
    decreases p, 0
  {
    match p
    case Plain => !t.Handle? && !t.Interface? && !IsPointer(t)
    case NoHandle =>
      (t.Handle? || t.Interface?) && pos + 4 <= |m.bytes| && GetUint(m.bytes, pos, 4) == 0xFFFF_FFFF && MayBeNull(t)
    case Entry(index) =>
      (t.Handle? || t.Interface?) && pos + 4 <= |m.bytes| && GetUint(m.bytes, pos, 4) == index && index != 0xFFFF_FFFF
    case NullPointer => IsPointer(t) && pos + 8 <= |m.bytes| && GetUint(m.bytes, pos, 8) == 0 && MayBeNull(t)
    case Nested(start, size, word, parts) =>
      && IsPointer(t) && pos + 8 <= |m.bytes| && GetUint(m.bytes, pos, 8) != 0 && start == pos + GetUint(m.bytes, pos, 8)
      && start <= MAX_SAFE_INTEGER && BlockRight(m, sc, t, p)
  }

  predicate BlockRight(m: Message, sc: Schema, t: Type, p: Part)
    requires p.Nested?
    decreases p.parts, 2
  {
    && p.start % 8 == 0 && p.start + 8 <= |m.bytes| && p.start + p.size <= |m.bytes|
    && p.size == GetUint(m.bytes, p.start, 4) && p.word == GetUint(m.bytes, p.start + 4, 4)
    && 8 + Needed(sc, t, p.word) <= p.size
    && (t.ArrayOf? && t.length != 0 ==> p.word == t.length)
    && (if LooksInto(t) then AllRight(m, sc, Inside(sc, t, p.word), p.start + 8, p.parts) else p.parts == [])
    && (t.MapOf? ==> |p.parts| == 2 && p.parts[0].Nested? && p.parts[1].Nested? && p.parts[0].word == p.parts[1].word)
  }

  predicate AllRight(m: Message, sc: Schema, ts: seq<Type>, pos: nat, ps: seq<Part>)
    decreases ps, 1
  {
    |ts| == |ps| &&
    (ps == [] ||
     var k := |ps| - 1;
     AllRight(m, sc, ts[..k], pos, ps[..k]) && Right(m, sc, ts[k], pos + SlotsSize(ts[..k]), ps[k]))
  }

  /** The blocks and the handles come one behind the other, in their order in the tree. */
  predicate InOrder(m: Message, c: Cursor, blocks: seq<Extent>, entries: seq<Extent>) {
    Chain(c.offset, blocks, |m.bytes|) && Chain(c.handleIndex, entries, Larger(c.handleIndex, |m.handles|))
  }

  function Behind(c: Cursor, blocks: seq<Extent>, entries: seq<Extent>): Cursor {
    Cursor(After(c.offset, blocks), After(c.handleIndex, entries))
  }

  lemma NothingInOrder(m: Message, c: Cursor)
    ensures InOrder(m, c, [], []) <==> c.offset <= |m.bytes|
    ensures Behind(c, [], []) == c
  {
  }

  lemma InOrderSplit(m: Message, c: Cursor, bs: seq<Extent>, es: seq<Extent>, bs': seq<Extent>, es': seq<Extent>)
    ensures Behind(c, bs + bs', es + es') == Behind(Behind(c, bs, es), bs', es')
    ensures InOrder(m, c, bs + bs', es + es')
       <==> InOrder(m, c, bs, es) && InOrder(m, Behind(c, bs, es), bs', es')
  {
    hide Chain, After;
    BytesSplit(c.offset, bs, bs', |m.bytes|);
    EntriesSplit(c.handleIndex, es, es', |m.handles|);
  }

  // ---- what the validator decides ----

  lemma HeaderMeaning(sc: Schema, t: Type, size: nat, word: nat)
    requires IsPointer(t) && WellFormed(sc, t)
    ensures HeaderFits(sc, t, size, word)
       <==> 8 + Needed(sc, t, word) <= size && (t.ArrayOf? && t.length != 0 ==> word == t.length)
    ensures (ChecksItems(t) <==> LooksInto(t)) && (t.MapOf? ==> LooksInto(t) && Needed(sc, t, word) == 16)
    ensures LooksInto(t) ==> !IsRaw(t) && BlockSlots(sc, t, word) == Inside(sc, t, word)
    ensures LooksInto(t) ==> Needed(sc, t, word) == SlotsSize(Inside(sc, t, word))
  {
    hide SlotsSize;
    if IsArray(t) {
      if !IsRaw(t) { RepeatSize(t.elem, word); }
    } else if t.MapOf? {
      PairSize(ArrayOf(t.key, 0), ArrayOf(t.value, 0));
    }
  }

  lemma NullMeaning(t: Type)
    ensures IsPointer(t) ==> (Nullable(t) <==> MayBeNull(t))
    ensures t.Handle? || t.Interface? ==> (t.nullable <==> MayBeNull(t))
  {
  }

  lemma ValidHandle(m: Message, t: Type, pos: nat, c: Cursor) returns (p: Part)
    requires (t.Handle? || t.Interface?) && pos + 4 <= |m.bytes| && c.offset <= |m.bytes|
    requires ValidateHandle(m, t.nullable, pos, c).Valid?
    ensures Blocks(p) == [] && InOrder(m, c, Blocks(p), Entries(p))
    ensures ValidateHandle(m, t.nullable, pos, c).at == Behind(c, Blocks(p), Entries(p))
    ensures forall sc: Schema :: Right(m, sc, t, pos, p)
  {
    var index := GetUint(m.bytes, pos, 4);
    p := if index == INVALID_HANDLE then NoHandle else Entry(index);
    OneExtent(c.handleIndex, Extent(index, 1), Larger(c.handleIndex, |m.handles|));
  }

  /** What is accepted is a right tree whose parts come in order, and the marks move behind them. */
  lemma {:induction false} ValidSlot(m: Message, sc: Schema, t: Type, pos: nat, c: Cursor) returns (p: Part)
    requires WellFormedSchema(sc) && WellFormed(sc, t)
    requires pos + SlotSize(t) <= |m.bytes| && c.offset <= |m.bytes|
    requires ValidateSlot(m, sc, t, pos, c).Valid?
    ensures Right(m, sc, t, pos, p) && InOrder(m, c, Blocks(p), Entries(p))
    ensures ValidateSlot(m, sc, t, pos, c).at == Behind(c, Blocks(p), Entries(p))
    decreases |m.bytes| - c.offset, 1, 0
  {
    hide WellFormedSchema, WellFormed, ValidateBlock, ValidateHandle, GetUint, BlockRight, InOrder, Behind;
    NothingInOrder(m, c);
    NullMeaning(t);
    if t.Handle? || t.Interface? {
      p := ValidHandle(m, t, pos, c);
    } else if !IsPointer(t) {
      p := Plain;
    } else if GetUint(m.bytes, pos, 8) == 0 {
      p := NullPointer;
    } else {
      p := ValidBlock(m, sc, t, pos + GetUint(m.bytes, pos, 8), c);
    }
  }

  lemma {:induction false} ValidBlock(m: Message, sc: Schema, t: Type, q: nat, c: Cursor) returns (p: Part)
    requires WellFormedSchema(sc) && IsPointer(t) && WellFormed(sc, t) && c.offset <= |m.bytes|
    requires ValidateBlock(m, sc, t, q, c).Valid?
    ensures p.Nested? && p.start == q && BlockRight(m, sc, t, p) && InOrder(m, c, Blocks(p), Entries(p))
    ensures ValidateBlock(m, sc, t, q, c).at == Behind(c, Blocks(p), Entries(p))
    decreases |m.bytes| - c.offset, 0, 0
  {
    hide WellFormedSchema, WellFormed, ValidateSlots, GetUint, AllRight, InOrder, Behind, HeaderFits, ChecksItems,
      LooksInto, Needed, Inside, BlockSlots, ArrayLength;
    var size, word := GetUint(m.bytes, q, 4), GetUint(m.bytes, q + 4, 4);
    var claimed := Cursor(q + size, c.handleIndex);
    HeaderMeaning(sc, t, size, word);
    OneBlock(m, c, q, size);
    if LooksInto(t) {
      BlockSlotsWellFormed(sc, t, word);
      var parts := ValidSlots(m, sc, Inside(sc, t, word), q + 8, claimed);
      p := Nested(q, size, word, parts);
      InOrderSplit(m, c, [Extent(q, size)], [], BlocksOf(parts), EntriesOf(parts));
      assert [] + EntriesOf(parts) == EntriesOf(parts);
      if t.MapOf? { Columns(m, sc, t, q, word, parts); }
    } else {
      p := Nested(q, size, word, []);
      assert [Extent(q, size)] + [] == [Extent(q, size)];
    }
  }

  lemma OneBlock(m: Message, c: Cursor, q: nat, size: nat)
    ensures InOrder(m, c, [Extent(q, size)], []) <==> c.offset <= q && q + size <= |m.bytes|
    ensures Behind(c, [Extent(q, size)], []) == Cursor(q + size, c.handleIndex)
  {
    OneExtent(c.offset, Extent(q, size), |m.bytes|);
  }

  /** The lengths of a map's columns are the header words of their blocks. */
  lemma Columns(m: Message, sc: Schema, t: Type, q: nat, word: nat, parts: seq<Part>)
    requires t.MapOf? && AllRight(m, sc, Inside(sc, t, word), q + 8, parts)
    ensures |parts| == 2 && parts[0].Nested? && parts[1].Nested? && q + 24 <= |m.bytes|
    ensures ArrayLength(m, q + 8) == parts[0].word && ArrayLength(m, q + 16) == parts[1].word
  {
    hide GetUint, Needed, LooksInto, AllRight;
    var ks, vs := ArrayOf(t.key, 0), ArrayOf(t.value, 0);
    PairSize(ks, vs);
    PairRight(m, sc, ks, vs, q + 8, parts);
  }

  lemma PairRight(m: Message, sc: Schema, a: Type, b: Type, pos: nat, parts: seq<Part>)
    requires AllRight(m, sc, [a, b], pos, parts)
    ensures |parts| == 2 && Right(m, sc, a, pos, parts[0]) && Right(m, sc, b, pos + SlotSize(a), parts[1])
  {
    hide Right;
    assert [a, b][..1] == [a] && [a][..0] == [];
    assert AllRight(m, sc, [a], pos, parts[..1]);
    assert SlotsSize([]) == 0 && SlotsSize([a]) == SlotSize(a);
  }

  lemma {:induction false} ValidSlots(m: Message, sc: Schema, ts: seq<Type>, pos: nat, c: Cursor)
    returns (ps: seq<Part>)
    requires WellFormedSchema(sc) && WellFormedAll(sc, ts)
    requires pos + SlotsSize(ts) <= |m.bytes| && c.offset <= |m.bytes|
    requires ValidateSlots(m, sc, ts, pos, c).Valid?
    ensures AllRight(m, sc, ts, pos, ps) && InOrder(m, c, BlocksOf(ps), EntriesOf(ps))
    ensures ValidateSlots(m, sc, ts, pos, c).at == Behind(c, BlocksOf(ps), EntriesOf(ps))
    decreases |m.bytes| - c.offset, 2, |ts|
  {
    hide WellFormedSchema, WellFormed, ValidateSlots, ValidateSlot, Right, InOrder, Behind, SlotSize;
    if ts == [] {
      ps := [];
      NothingInOrder(m, c);
      NoSlotsValidated(m, sc, pos, c);
    } else {
      var k := |ts| - 1;
      ValidateSlotsStep(m, sc, ts, pos, c);
      var before := ValidSlots(m, sc, ts[..k], pos, c);
      var d := ValidateSlots(m, sc, ts[..k], pos, c).at;
      var last := ValidSlot(m, sc, ts[k], pos + SlotsSize(ts[..k]), d);
      ps := before + [last];
      assert ps[..k] == before;
      MoreParts(before, last);
      InOrderSplit(m, c, BlocksOf(before), EntriesOf(before), Blocks(last), Entries(last));
    }
  }

  lemma NoSlotsValidated(m: Message, sc: Schema, pos: nat, c: Cursor)
    requires WellFormedSchema(sc) && pos <= |m.bytes| && c.offset <= |m.bytes|
    ensures WellFormedAll(sc, []) && SlotsSize([]) == 0 && ValidateSlots(m, sc, [], pos, c) == Valid(c)
  {
  }

  // ---- and nothing else ----

  lemma RightHandle(m: Message, sc: Schema, t: Type, pos: nat, c: Cursor, p: Part)
    requires (t.Handle? || t.Interface?) && pos + 4 <= |m.bytes| && Right(m, sc, t, pos, p)
    requires InOrder(m, c, Blocks(p), Entries(p))
    ensures ValidateHandle(m, t.nullable, pos, c) == Valid(Behind(c, Blocks(p), Entries(p)))
  {
    hide GetUint;
    if p.Entry? { OneExtent(c.handleIndex, Extent(p.index, 1), Larger(c.handleIndex, |m.handles|)); }
  }

  /** Every right tree whose parts come in order is accepted. */
  lemma {:induction false} RightSlot(m: Message, sc: Schema, t: Type, pos: nat, c: Cursor, p: Part)
    requires WellFormedSchema(sc) && WellFormed(sc, t)
    requires pos + SlotSize(t) <= |m.bytes| && c.offset <= |m.bytes|
    requires Right(m, sc, t, pos, p) && InOrder(m, c, Blocks(p), Entries(p))
    ensures ValidateSlot(m, sc, t, pos, c) == Valid(Behind(c, Blocks(p), Entries(p)))
    decreases p, 0
  {
    hide WellFormedSchema, WellFormed, ValidateBlock, ValidateHandle, GetUint, BlockRight, InOrder, Behind;
    NothingInOrder(m, c);
    NullMeaning(t);
    if t.Handle? || t.Interface? {
      RightHandle(m, sc, t, pos, c, p);
    } else if p.Nested? {
      RightBlock(m, sc, t, c, p);
    }
  }

  lemma {:induction false} RightBlock(m: Message, sc: Schema, t: Type, c: Cursor, p: Part)
    requires WellFormedSchema(sc) && IsPointer(t) && WellFormed(sc, t) && c.offset <= |m.bytes|
    requires p.Nested? && BlockRight(m, sc, t, p) && InOrder(m, c, Blocks(p), Entries(p))
    ensures ValidateBlock(m, sc, t, p.start, c) == Valid(Behind(c, Blocks(p), Entries(p)))
    decreases p.parts, 2
  {
    hide WellFormedSchema, WellFormed, ValidateSlots, GetUint, AllRight, InOrder, Behind, HeaderFits, ChecksItems,
      LooksInto, Needed, Inside, BlockSlots, ArrayLength;
    HeaderMeaning(sc, t, p.size, p.word);
    OneBlock(m, c, p.start, p.size);
    InOrderSplit(m, c, [Extent(p.start, p.size)], [], BlocksOf(p.parts), EntriesOf(p.parts));
    assert [] + EntriesOf(p.parts) == EntriesOf(p.parts);
    if LooksInto(t) {
      var claimed := Cursor(p.start + p.size, c.handleIndex);
      BlockSlotsWellFormed(sc, t, p.word);
      AllRightSlots(m, sc, Inside(sc, t, p.word), p.start + 8, claimed, p.parts);
      if t.MapOf? { Columns(m, sc, t, p.start, p.word, p.parts); }
    } else {
      NothingInOrder(m, Behind(c, [Extent(p.start, p.size)], []));
    }
  }

  lemma {:induction false} AllRightSlots(m: Message, sc: Schema, ts: seq<Type>, pos: nat, c: Cursor, ps: seq<Part>)
    requires WellFormedSchema(sc) && WellFormedAll(sc, ts)
    requires pos + SlotsSize(ts) <= |m.bytes| && c.offset <= |m.bytes|
    requires AllRight(m, sc, ts, pos, ps) && InOrder(m, c, BlocksOf(ps), EntriesOf(ps))
    ensures ValidateSlots(m, sc, ts, pos, c) == Valid(Behind(c, BlocksOf(ps), EntriesOf(ps)))
    decreases ps, 1
  {
    hide WellFormedSchema, WellFormed, ValidateSlots, ValidateSlot, Right, InOrder, Behind, SlotSize;
    if ts == [] {
      NothingInOrder(m, c);
      NoSlotsValidated(m, sc, pos, c);
    } else {
      var k := |ts| - 1;
      var before, last := ps[..k], ps[k];
      assert ps == before + [last];
      MoreParts(before, last);
      InOrderSplit(m, c, BlocksOf(before), EntriesOf(before), Blocks(last), Entries(last));
      ValidateSlotsStep(m, sc, ts, pos, c);
      AllRightSlots(m, sc, ts[..k], pos, c, before);
      RightSlot(m, sc, ts[k], pos + SlotsSize(ts[..k]), Behind(c, BlocksOf(before), EntriesOf(before)), last);
    }
  }

  /** On any bytes whatever, a slot is accepted if and only if what it leads to is right part by part and comes in order,
      behind the marks. */
  lemma SlotAcceptedIff(m: Message, sc: Schema, t: Type, pos: nat, c: Cursor)
    requires WellFormedSchema(sc) && WellFormed(sc, t)
    requires pos + SlotSize(t) <= |m.bytes| && c.offset <= |m.bytes|
    ensures ValidateSlot(m, sc, t, pos, c).Valid?
       <==> exists p: Part :: Right(m, sc, t, pos, p) && InOrder(m, c, Blocks(p), Entries(p))
  {
    hide WellFormedSchema, WellFormed, ValidateSlot, Right, InOrder, Blocks, Entries;
    if ValidateSlot(m, sc, t, pos, c).Valid? {
      var p := ValidSlot(m, sc, t, pos, c);
    }
    if p: Part :| Right(m, sc, t, pos, p) && InOrder(m, c, Blocks(p), Entries(p)) {
      RightSlot(m, sc, t, pos, c, p);
    }
  }

  /** The same for a block that is validated by itself, as the struct of a message's payload is. */
  lemma BlockAcceptedIff(m: Message, sc: Schema, t: Type, q: nat, c: Cursor)
    requires WellFormedSchema(sc) && IsPointer(t) && WellFormed(sc, t) && c.offset <= |m.bytes|
    ensures ValidateBlock(m, sc, t, q, c).Valid?
       <==> exists p: Part :: p.Nested? && p.start == q && BlockRight(m, sc, t, p) && InOrder(m, c, Blocks(p), Entries(p))
  {
    hide WellFormedSchema, WellFormed, ValidateBlock, BlockRight, InOrder, Blocks, Entries;
    if ValidateBlock(m, sc, t, q, c).Valid? {
      var p := ValidBlock(m, sc, t, q, c);
    }
    if p: Part :| p.Nested? && p.start == q && BlockRight(m, sc, t, p) && InOrder(m, c, Blocks(p), Entries(p)) {
      RightBlock(m, sc, t, c, p);
    }
  }

  // ---- which error is reported ----

  lemma HandleErrors(m: Message, nullable: bool, pos: nat, c: Cursor)
    requires pos + 4 <= |m.bytes|
    ensures var index, r := GetUint(m.bytes, pos, 4), ValidateHandle(m, nullable, pos, c);
            && (r == Invalid(UNEXPECTED_INVALID_HANDLE) <==> index == 0xFFFF_FFFF && !nullable)
            && (r == Invalid(ILLEGAL_HANDLE) <==> index != 0xFFFF_FFFF && !(c.handleIndex <= index < |m.handles|))
            && (r.Valid? || r == Invalid(UNEXPECTED_INVALID_HANDLE) || r == Invalid(ILLEGAL_HANDLE))
  {
  }

  /** A pointer is refused for being null or leading beyond the exact integers; what it leads to, for its alignment, then its
      place, then its header, and only then for its contents. */
  lemma PointerErrors(m: Message, sc: Schema, t: Type, pos: nat, c: Cursor)
    requires WellFormedSchema(sc) && WellFormed(sc, t) && IsPointer(t) && pos + 8 <= |m.bytes| && c.offset <= |m.bytes|
    ensures var p, r := GetUint(m.bytes, pos, 8), ValidateSlot(m, sc, t, pos, c);
            var q := pos + p;
            && (p == 0 ==> r == if MayBeNull(t) then Valid(c) else Invalid(UNEXPECTED_NULL_POINTER))
            && (p != 0 && q > 0x1F_FFFF_FFFF_FFFF ==> r == Invalid(ILLEGAL_POINTER))
            && (p != 0 && q <= 0x1F_FFFF_FFFF_FFFF ==> r == ValidateBlock(m, sc, t, q, c))
  {
    hide WellFormedSchema, WellFormed, ValidateBlock, GetUint;
    NullMeaning(t);
  }

  lemma BlockErrors(m: Message, sc: Schema, t: Type, q: nat, c: Cursor)
    requires WellFormedSchema(sc) && IsPointer(t) && WellFormed(sc, t) && c.offset <= |m.bytes|
    ensures var r := ValidateBlock(m, sc, t, q, c);
            if q % 8 != 0 then r == Invalid(MISALIGNED_OBJECT)
            else if q < c.offset || |m.bytes| < q + 8 then r == Invalid(ILLEGAL_MEMORY_RANGE)
            else
              var size, word := GetUint(m.bytes, q, 4), GetUint(m.bytes, q + 4, 4);
              if size < 8 + Needed(sc, t, word) || (t.ArrayOf? && t.length != 0 && word != t.length) then
                r == Invalid(if t.PointerTo? || t.MapOf? then UNEXPECTED_STRUCT_HEADER else UNEXPECTED_ARRAY_HEADER)
              else if |m.bytes| < q + size then r == Invalid(ILLEGAL_MEMORY_RANGE)
              else ContentsDecide(m, sc, t, q, size, word, c, r)
  {
    hide WellFormedSchema, WellFormed, ValidateSlots, GetUint, HeaderFits, ChecksItems, LooksInto, Needed, Inside,
      BlockSlots, ArrayLength;
    if q % 8 == 0 && c.offset <= q && q + 8 <= |m.bytes| {
      var size, word := GetUint(m.bytes, q, 4), GetUint(m.bytes, q + 4, 4);
      HeaderMeaning(sc, t, size, word);
      if LooksInto(t) { BlockSlotsWellFormed(sc, t, word); }
    }
  }

  /** What is left to decide once the header of a block is right. */
  predicate ContentsDecide(m: Message, sc: Schema, t: Type, q: nat, size: nat, word: nat, c: Cursor, r: Verdict)
    requires q + size <= |m.bytes|
  {
    var ts, claimed := Inside(sc, t, word), Cursor(q + size, c.handleIndex);
    if !LooksInto(t) then r == Valid(claimed)
    else
      WellFormedSchema(sc) && WellFormedAll(sc, ts) && q + 8 + SlotsSize(ts) <= |m.bytes|
      && var inner := ValidateSlots(m, sc, ts, q + 8, claimed);
         if inner.Valid? && t.MapOf? && q + 24 <= |m.bytes| && ArrayLength(m, q + 8) != ArrayLength(m, q + 16)
         then r == Invalid(DIFFERENT_SIZED_ARRAYS_IN_MAP)
         else r == inner
  }

  /** Of several slots, the first that is refused gives the error. */
  lemma {:induction false} FirstRefused(m: Message, sc: Schema, ts: seq<Type>, pos: nat, c: Cursor) returns (k: nat)
    requires WellFormedSchema(sc) && WellFormedAll(sc, ts)
    requires pos + SlotsSize(ts) <= |m.bytes| && c.offset <= |m.bytes|
    requires ValidateSlots(m, sc, ts, pos, c).Invalid?
    ensures k < |ts| && WellFormedAll(sc, ts[..k]) && WellFormed(sc, ts[k])
    ensures SlotsSize(ts[..k]) + SlotSize(ts[k]) <= SlotsSize(ts)
    ensures var before := ValidateSlots(m, sc, ts[..k], pos, c);
            && before.Valid?
            && ValidateSlots(m, sc, ts, pos, c) == ValidateSlot(m, sc, ts[k], pos + SlotsSize(ts[..k]), before.at)
    decreases |ts|
  {
    hide WellFormedSchema, WellFormed, ValidateSlots, ValidateSlot, SlotSize;
    NoSlotsValidated(m, sc, pos, c);
    k := |ts| - 1;
    ValidateSlotsStep(m, sc, ts, pos, c);
    if ValidateSlots(m, sc, ts[..k], pos, c).Invalid? {
      var last := k;
      k := FirstRefused(m, sc, ts[..last], pos, c);
      assert ts[..last][..k] == ts[..k];
    }
  }
}
