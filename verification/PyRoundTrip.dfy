/** What either implementation wrote, Python reads back, whatever versions of the struct classes the two ends have. */
module PyRoundTrip {
  import opened Bytes
  import opened Wire
  import opened PyGroups
  import opened Options
  import opened PyValues
  import opened PyReading

  /** The reader takes a struct apart into those of the written groups that it knows. */
  predicate CompatibleClass(written: seq<Group>, known: seq<Group>, version: nat)
    requires NoneEmpty(written) && NoneEmpty(known) && AllAligned(written)
  {
    && ReadingGroups(known, GetVersion(written)) == FilterGroups(written, version)
    && Stable(written, version)
    && (GetVersion(written) <= GetVersion(known) ==> FilterGroups(written, version) == written)
  }

  predicate Compatible(written: Definitions, known: Definitions, versions: seq<nat>)
    requires WellDefined(written) && WellDefined(known)
  {
    && |written| == |known| == |versions|
    && forall k :: 0 <= k < |written| ==> CompatibleClass(written[k], known[k], versions[k])
  }

  /** One message, and the class definitions at both ends. */
  datatype Exchange = Exchange(side: Side, m: Message, written: Definitions, known: Definitions, versions: seq<nat>)

  predicate Ready(e: Exchange) {
    && WellDefined(e.written) && WellDefined(e.known) && Compatible(e.written, e.known, e.versions)
    && 2 * |e.m.handles| < TWO32 && |e.m.bytes| < TWO32 * TWO32
  }

  lemma ClassesMatch(e: Exchange)
    requires Ready(e)
    ensures WellDefined(e.written) && WellDefined(e.known)
    ensures |e.written| == |e.known| == |e.versions| == |Lowered(e.written)|
  {
  }

  function Known(e: Exchange, t: Type, v: Value): Option<Value>
    requires Ready(e)
  {
    ClassesMatch(e);
    Seen(e.side, e.written, e.versions, t, v)
  }

  predicate ReadsAs(r: Read, seen: Option<Value>, memory: int, handle: int) {
    (r.Got? <==> seen.Some?) && (r.Got? ==> r.value == seen.value && r.at.memory <= memory && r.at.handle <= handle)
  }

  predicate ReadsAllAs(r: Reads, seen: Option<seq<Value>>, memory: int, handle: int) {
    (r.GotAll? <==> seen.Some?) && (r.GotAll? ==> r.values == seen.value && r.at.memory <= memory && r.at.handle <= handle)
  }

  predicate ReadsFieldsAs(r: Reads, seen: Option<Fields>, memory: int, handle: int) {
    && (r.GotAll? <==> seen.Some?)
    && (r.GotAll? ==>
          r.values == seen.value.values && r.stray == seen.value.stray && r.at.memory <= memory && r.at.handle <= handle)
  }

  // ---- handles and integers ----

  lemma HandleReads(e: Exchange, nullable: bool, v: Value, pos: nat, h: nat, c: Mark)
    requires Ready(e) && c.handle <= h && (v.Null? || v.HandleValue?)
    requires var o := EncodeHandle(e.side, v, h); At(e.m.bytes, pos, o.slots) && At(e.m.handles, h, o.handles)
    ensures pos + 4 <= |e.m.bytes|
    ensures ReadsAs(ReadHandle(e.m, nullable, pos, c), if e.side.Python? && v.Null? && !nullable then None else Some(v),
                    c.memory, Max(c.handle, h + |EncodeHandle(e.side, v, h).handles|))
    ensures ReadHandle(e.m, nullable, pos, c).Got? ==> ReadHandle(e.m, nullable, pos, c).at.memory == c.memory
  {
    hide Ready, ToLE;
    assert Pow256(4) == TWO32;
    if e.side.JavaScript? || !v.Null? {
      AtOne(e.m.handles, h, v);
      MessageFits(e);
      GetAt(e.m.bytes, pos, h, 4);
    } else {
      LowBytes(-1, 4);
      GetAt(e.m.bytes, pos, TWO32 - 1, 4);
    }
  }

  lemma MessageFits(e: Exchange)
    requires Ready(e)
    ensures 2 * |e.m.handles| < TWO32 && |e.m.bytes| < TWO32 * TWO32
  {
  }

  lemma IntegerReads(m: Message, size: nat, signed: bool, n: int, pos: nat)
    requires InRange(n, size, signed) && At(m.bytes, pos, ToLE(n, size))
    ensures pos + size <= |m.bytes|
    ensures n == if signed then Signed(GetUint(m.bytes, pos, size), size) else GetUint(m.bytes, pos, size)
  {
    hide ToLE, FromLE, Signed;
    IntegerRoundTrip(n, size);
  }

  /** A pointer slot holds the distance to its block. */
  lemma DistanceReads(m: Message, pos: nat, p: nat)
    requires At(m.bytes, pos, ToLE(p, 8)) && p < TWO32 * TWO32
    ensures pos + 8 <= |m.bytes| && GetUint(m.bytes, pos, 8) == p
  {
    assert Pow256(8) == 0x1_0000_0000_0000_0000;
    GetAt(m.bytes, pos, p, 8);
  }

  /** A multiple of eight. */
  predicate Whole(n: int) { n % 8 == 0 }

  lemma WholeSum(a: int, b: int)
    requires Whole(a) && b % 8 == 0
    ensures Whole(a + b)
  {
  }

  /** The end of the message stays aligned when the position moves and the end grows. */
  lemma Moved(pos: int, gap: int, n: int, grown: int)
    requires Whole(pos + gap) && grown % 8 == 0
    ensures Whole(pos + n + (gap + grown - n))
  {
    hide Whole;
    WholeSum(pos + gap, grown);
  }

  // ---- one slot ----

  lemma {:induction false} SlotReads(e: Exchange, t: Type, generic: bool, v: Value, pos: nat, gap: nat, h: nat, c: Mark,
                                     o: Out)
    requires Ready(e) && Declared(|e.known|, t) && Fits(e.written, t, v)
    requires SlotSize(t) <= gap && Whole(pos + gap) && (IsPointer(t) ==> Whole(pos))
    requires c.memory <= pos + gap && c.handle <= h
    requires o == Encode(e.side, Lowered(e.written), t, Lower(e.written, t, v), gap, h)
    requires |o.tail| < TWO32 && Placed(e.m, pos, gap, h, o)
    ensures pos + SlotSize(t) <= |e.m.bytes| && c.memory <= |e.m.bytes|
    ensures ReadsAs(ReadSlot(e.m, e.known, t, generic, pos, c), Known(e, t, v), pos + gap + |o.tail|, h + |o.handles|)
    decreases v, 4
  {
    hide Ready, Whole, WellDefined, EncodeBody, ReadBlock, ShapedAll, Block, GetUint, ToLE, IsKind, BlockSlots,
      BlockSize, BlockWord, Signed, ReadHandle, Lowered, WellFormed, IsPlain;
    ClassesMatch(e);
    DeclaredKind(|e.known|, t);
    if t.Integer? {
      IntegerReads(e.m, t.size, t.signed, v.n, pos);
    } else if t.Handle? {
      HandleReads(e, t.nullable, v, pos, h, c);
    } else if IsPointer(t) {
      PointerReads(e, t, generic, v, pos, gap, h, c, o);
    }
  }

  lemma DeclaredKind(n: nat, t: Type)
    requires Declared(n, t)
    ensures t.Integer? || t.Handle? || IsPointer(t)
  {
  }

  lemma {:induction false} PointerReads(e: Exchange, t: Type, generic: bool, v: Value, pos: nat, gap: nat, h: nat,
                                        c: Mark, o: Out)
    requires Ready(e) && Declared(|e.known|, t) && Fits(e.written, t, v) && IsPointer(t)
    requires 8 <= gap && Whole(pos + gap) && Whole(pos)
    requires c.memory <= pos + gap && c.handle <= h
    requires o == Encode(e.side, Lowered(e.written), t, Lower(e.written, t, v), gap, h)
    requires |o.tail| < TWO32 && Placed(e.m, pos, gap, h, o)
    ensures pos + 8 <= |e.m.bytes| && c.memory <= |e.m.bytes|
    ensures ReadsAs(ReadSlot(e.m, e.known, t, generic, pos, c), Known(e, t, v), pos + gap + |o.tail|, h + |o.handles|)
    decreases v, 3
  {
    hide Ready, Whole, WellDefined, Encode, EncodeBody, ReadBlock, Shaped, ShapedAll, Block, GetUint, ToLE, BlockSlots,
      BlockSize, BlockWord, IsKind, Lowered, Lower, Declared, Seen, Align;
    ClassesMatch(e);
    var sc, lv := Lowered(e.written), Lower(e.written, t, v);
    PlacedFits(e.m, pos, gap, h, o);
    MessageFits(e);
    NullsMatch(e, t, v);
    if lv.Null? {
      EncodeNull(e.side, sc, t, gap, h);
      DistanceReads(e.m, pos, 0);
    } else {
      var b := EncodePresent(e.side, sc, t, lv, gap, h);
      DistanceReads(e.m, pos, gap);
      DistanceAligned(pos, gap);
      BlockReads(e, t, generic, v, pos + gap, h, c, b);
    }
  }

  lemma DistanceAligned(pos: nat, gap: nat)
    requires Whole(pos) && Whole(pos + gap)
    ensures gap % 8 == 0
  {
  }

  lemma NullsMatch(e: Exchange, t: Type, v: Value)
    requires Ready(e) && IsPointer(t) && Fits(e.written, t, v)
    ensures v.Null? <==> Lower(e.written, t, v).Null?
    ensures v.Null? ==> Known(e, t, v) == if Nullable(t) then Some(Null) else None
  {
    hide Ready, Whole, WellDefined, ShapedAll;
  }

  // ---- blocks ----

  lemma {:induction false} BlockReads(e: Exchange, t: Type, generic: bool, v: Value, q: nat, h: nat, c: Mark, b: Out)
    requires Ready(e) && Declared(|e.known|, t) && Fits(e.written, t, v) && IsPointer(t) && !v.Null?
    requires IsPresent(Lowered(e.written), t, Lower(e.written, t, v))
    requires Whole(q) && c.memory <= q && c.handle <= h
    requires b == EncodeBody(e.side, Lowered(e.written), t, Lower(e.written, t, v), h)
    requires var sc, lv := Lowered(e.written), Lower(e.written, t, v);
             var s := Block(BlockSize(sc, t, lv), BlockWord(sc, t, lv), b);
             |s| < TWO32 && At(e.m.bytes, q, s) && At(e.m.handles, h, b.handles)
    ensures c.memory <= |e.m.bytes|
    ensures var sc, lv := Lowered(e.written), Lower(e.written, t, v);
            ReadsAs(ReadBlock(e.m, e.known, t, generic, q, c), Known(e, t, v),
                    q + Align(BlockSize(sc, t, lv)) + |b.tail|, h + |b.handles|)
    decreases v, 2
  {
    hide Ready, Whole, WellDefined, EncodeBody, ReadContents, Shaped, Block, GetUint, BlockSlots, BlockSize, BlockWord,
      Lowered, Lower, Declared, Seen, Placed, Align, SlotSize, WellFormed, Fits;
    ClassesMatch(e);
    var sc, lv := Lowered(e.written), Lower(e.written, t, v);
    var size, word := BlockSize(sc, t, lv), BlockWord(sc, t, lv);
    DefinitionsLowered(e.written);
    BlockWordFits(sc, t, lv);
    PlacedBlock(e.m, q, h, size, word, b);
    WholeSum(q, Align(size));
    WholeSum(q, 8);
    ContentsRead(e, t, generic, v, q, size, word, h, Mark(q + size, c.handle), b);
  }

  lemma DefinitionsLowered(defs: Definitions)
    requires WellDefined(defs)
    ensures WellFormedSchema(Lowered(defs))
  {
    hide WellFormedAll, StructCodes;
    var sc := Lowered(defs);
    forall k | 0 <= k < |sc| ensures WellFormedAll(sc, sc[k].slots) {
      StructCodesWellFormed(|sc|, sc, defs[k]);
    }
  }

  lemma StructCodesWellFormed(n: nat, sc: Schema, gs: seq<Group>)
    requires |sc| == n && DeclaredGroups(n, gs) && AllAligned(gs)
    ensures WellFormedAll(sc, StructCodes(gs))
  {
    hide Codes, NeededPaddingForAlignment;
    CodesWellFormed(n, sc, gs);
    PadWellFormed(sc, Codes(gs), NeededPaddingForAlignment(End(gs), 8));
  }

  lemma PadWellFormed(sc: Schema, ts: seq<Type>, n: nat)
    requires WellFormedAll(sc, ts)
    ensures WellFormedAll(sc, ts + Pad(n))
  {
    if n == 0 { assert ts + [] == ts; } else { assert (ts + [Padding(n)])[..|ts|] == ts; }
  }

  lemma {:induction false} CodesWellFormed(n: nat, sc: Schema, gs: seq<Group>)
    requires |sc| == n && DeclaredGroups(n, gs) && AllAligned(gs)
    ensures WellFormedAll(sc, Codes(gs))
  {
    hide NeededPaddingForAlignment, WellFormed, IsPlain;
    if gs != [] {
      var k := |gs| - 1;
      CodesWellFormed(n, sc, gs[..k]);
      var ts := Codes(gs[..k]) + Pad(NeededPaddingForAlignment(End(gs[..k]), GetAlignment(gs[k])));
      PadWellFormed(sc, Codes(gs[..k]), NeededPaddingForAlignment(End(gs[..k]), GetAlignment(gs[k])));
      assert (ts + [Slot(gs[k])])[..|ts|] == ts;
      SlotWellFormed(n, sc, gs[k]);
    }
  }

  lemma SlotWellFormed(n: nat, sc: Schema, g: Group)
    requires |sc| == n && DeclaredGroup(n, g)
    ensures WellFormed(sc, Slot(g))
  {
    if g.SingleFieldGroup? { SameWellFormed(n, sc, g.field.fieldType); }
  }

  lemma {:induction false} ContentsRead(e: Exchange, t: Type, generic: bool, v: Value, q: nat, size: nat, word: nat,
                                        h: nat, c: Mark, b: Out)
    requires Ready(e) && Declared(|e.known|, t) && Fits(e.written, t, v) && IsPointer(t) && !v.Null?
    requires WellFormedSchema(Lowered(e.written)) && IsPresent(Lowered(e.written), t, Lower(e.written, t, v))
    requires Whole(q) && Whole(q + Align(size)) && Whole(q + 8)
    requires c.memory == q + size && c.handle <= h
    requires size < TWO32 && size == BlockSize(Lowered(e.written), t, Lower(e.written, t, v))
    requires word == BlockWord(Lowered(e.written), t, Lower(e.written, t, v))
    requires b == EncodeBody(e.side, Lowered(e.written), t, Lower(e.written, t, v), h) && size == 8 + |b.slots|
    requires |b.tail| < TWO32 && q + Align(size) + |b.tail| <= |e.m.bytes|
    requires Placed(e.m, q + 8, Align(size) - 8, h, b)
    requires GetUint(e.m.bytes, q, 4) == size && GetUint(e.m.bytes, q + 4, 4) == word
    ensures ReadsAs(ReadContents(e.m, e.known, t, generic, q, size, c), Known(e, t, v),
                    q + Align(size) + |b.tail|, h + |b.handles|)
    decreases v, 1
  {
    hide Ready, Whole, WellDefined, EncodeBody, Shaped, ShapedAll, GetUint, BlockSlots, BlockSize, BlockWord, Lowered,
      Lower, Declared, Seen, Placed, Align, SlotSize, WellFormed, WellFormedSchema, Fits, ReadObject, ReadMap,
      ReadArray, IsRaw, Known, WellFormedAll, EncodeSlots, SlotsSize, IsColumns;
    ClassesMatch(e);
    DeclaredParts(|e.known|, t);
    NotRaw(t);
    if t.String? || (IsArray(t) && t.elem.PackedBool?) {
      RawReads(e, t, generic, v, q, size, word, h, c, b);
    } else {
      var sc, lv := Lowered(e.written), Lower(e.written, t, v);
      var ts := BodyIsSlots(e.side, sc, t, lv, h);
      KindMatches(sc, t, lv);
      if t.MapOf? { ColumnsSize(t); }
      if t.PointerTo? {
        ObjectReads(e, t, v, q, size, h, c, b);
      } else if t.MapOf? {
        MapReads(e, t, v, q, size, h, c, b);
      } else {
        ArrayReads(e, t, generic, v, q, size, h, c, b);
      }
    }
  }

  lemma KindMatches(sc: Schema, t: Type, v: Value)
    requires IsPresent(sc, t, v)
    ensures t.PointerTo? ==> v.Record?
    ensures t.MapOf? ==> v.Dict?
    ensures IsArray(t) ==> v.Seq?
  {
    hide ShapedAll, WellFormed;
  }

  lemma ColumnsSize(t: Type)
    requires t.MapOf?
    ensures SlotsSize([ArrayOf(t.key, 0), ArrayOf(t.value, 0)]) == 16 && Align(24) == 24
  {
    PairSize(ArrayOf(t.key, 0), ArrayOf(t.value, 0));
  }

  lemma NotRaw(t: Type)
    ensures IsRaw(t) <==> t.String? || (IsArray(t) && t.elem.PackedBool?)
  {
  }

  lemma RawReads(e: Exchange, t: Type, generic: bool, v: Value, q: nat, size: nat, word: nat, h: nat, c: Mark, b: Out)
    requires Ready(e) && Declared(|e.known|, t) && Fits(e.written, t, v) && IsPointer(t) && !v.Null? && IsRaw(t)
    requires IsPresent(Lowered(e.written), t, Lower(e.written, t, v))
    requires size == BlockSize(Lowered(e.written), t, Lower(e.written, t, v))
    requires word == BlockWord(Lowered(e.written), t, Lower(e.written, t, v))
    requires b == EncodeBody(e.side, Lowered(e.written), t, Lower(e.written, t, v), h)
    requires Placed(e.m, q + 8, Align(size) - 8, h, b) && q + size <= |e.m.bytes|
    requires c.memory == q + size && c.handle <= h && GetUint(e.m.bytes, q + 4, 4) == word
    ensures ReadsAs(ReadContents(e.m, e.known, t, generic, q, size, c), Known(e, t, v), q + Align(size), h)
    ensures c.memory <= q + Align(size)
  {
    hide Ready, Whole, WellDefined, GetUint, Lowered, Declared, Align, WellFormed, BoolBytes, UnpackBools, FlagValues,
      Flags, ReadItems, IsPlain, ShapedAll;
    ClassesMatch(e);
    if IsArray(t) { ReadBools(v.items); }
  }

  // ---- structs ----

  /** What is known of a class at both ends. */
  lemma ClassReady(e: Exchange, cls: nat)
    requires Ready(e) && cls < |e.written|
    ensures |e.known| == |e.written| == |e.versions|
    ensures NoneEmpty(e.written[cls]) && AllAligned(e.written[cls]) && NoneEmpty(e.known[cls])
    ensures DeclaredGroups(|e.known|, e.written[cls]) && Stable(e.written[cls], e.versions[cls])
    ensures var gs, known := e.written[cls], e.known[cls];
            var fs := FilterGroups(gs, e.versions[cls]);
            && ReadingGroups(known, GetVersion(gs)) == fs && AllAligned(fs) && End(fs) <= End(gs)
            && (GetVersion(gs) <= GetVersion(known) ==> fs == gs)
  {
    hide DeclaredGroups, AllAligned, NoneEmpty, Stable, FilterGroups, ReadingGroups, GetVersion, End;
    assert CompatibleClass(e.written[cls], e.known[cls], e.versions[cls]);
    FilterFits(e.written[cls], e.versions[cls]);
  }

  lemma ObjectShape(e: Exchange, t: Type, v: Value)
    requires Ready(e) && t.PointerTo? && Lower(e.written, t, v).Record?
    ensures t.cls < |e.written| && IsObject(e.written[t.cls], v) && v.Dict? && |v.items| == 2
    ensures var gs, sc := e.written[t.cls], Lowered(e.written);
            && v.items[1].Seq? && |v.items[1].items| == |gs| && AllAligned(gs)
            && sc[t.cls] == StructDef(GetVersion(gs), StructCodes(gs))
            && Lower(e.written, t, v).items
                 == Items(e.written, gs, v.items[1].items) + Nulls(NeededPaddingForAlignment(End(gs), 8))
            && StructCodes(gs) == Codes(gs) + Pad(NeededPaddingForAlignment(End(gs), 8))
            && SlotsSize(StructCodes(gs)) == StructSize(gs) && SlotsSize(Codes(gs)) == End(gs)
  {
    hide Items, Codes, NeededPaddingForAlignment, SlotsSize, DeclaredGroups, NoneEmpty, GetVersion, Object;
    ClassesMatch(e);
    StructCodesSize(e.written[t.cls]);
    CodesSize(e.written[t.cls]);
  }

  lemma SizesMatch(fs: seq<Group>, gs: seq<Group>, size: nat)
    requires AllAligned(fs) && AllAligned(gs) && End(fs) <= End(gs) && size == 8 + StructSize(gs)
    ensures 8 + StructSize(fs) <= size && Align(size) == size && End(gs) <= size - 8
  {
    hide NeededPaddingForAlignment, End, AllAligned;
    MultiplesOfEight(StructSize(fs), StructSize(gs));
  }

  lemma MultiplesOfEight(a: nat, b: nat)
    requires a % 8 == 0 && b % 8 == 0 && a < b + 8
    ensures a <= b && Align(8 + b) == 8 + b
  {
  }

  /** Padding is written as zeros. */
  lemma EncodePad(side: Side, sc: Schema, ts: seq<Type>, vs: seq<Value>, n: nat, gap: int, h: nat)
    requires ShapedAll(sc, ts + Pad(n), vs + Nulls(n))
    ensures ShapedAll(sc, ts, vs)
    ensures EncodeSlots(side, sc, ts + Pad(n), vs + Nulls(n), gap, h)
         == Append(EncodeSlots(side, sc, ts, vs, gap, h), Out(Zeros(n), [], []))
  {
    if n == 0 {
      assert ts + [] == ts && vs + [] == vs;
      var o := EncodeSlots(side, sc, ts, vs, gap, h);
      assert o.slots + Zeros(0) == o.slots && o.tail + [] == o.tail && o.handles + [] == o.handles;
    } else {
      assert |ts + Pad(n)| == |vs + Nulls(n)|;
      assert (ts + [Padding(n)])[..|ts|] == ts && (vs + [Null])[..|vs|] == vs;
      hide EncodeSlots;
      var a, b := EncodeLast(side, sc, ts + Pad(n), vs + Nulls(n), gap, h);
    }
  }

  lemma {:induction false} ObjectReads(e: Exchange, t: Type, v: Value, q: nat, size: nat, h: nat, c: Mark, b: Out)
    requires Ready(e) && t.PointerTo? && Lower(e.written, t, v).Record?
    requires t.cls < |e.known| && t.cls < |Lowered(e.written)| && Whole(q + 8) && Whole(q + Align(size))
    requires c.memory == q + size && c.handle <= h && 8 <= size
    requires var lv, sc := Lower(e.written, t, v), Lowered(e.written);
             && ShapedAll(sc, sc[t.cls].slots, lv.items)
             && b == EncodeSlots(e.side, sc, sc[t.cls].slots, lv.items, Align(size) - 8, h)
             && size == 8 + SlotsSize(sc[t.cls].slots)
    requires |b.tail| < TWO32 && q + Align(size) + |b.tail| <= |e.m.bytes|
    requires GetUint(e.m.bytes, q + 4, 4) == Lowered(e.written)[t.cls].version
    requires Placed(e.m, q + 8, Align(size) - 8, h, b)
    ensures q + size <= |e.m.bytes|
    ensures ReadsAs(ReadObject(e.m, e.known, t.cls, q, size, c), Known(e, t, v),
                    q + Align(size) + |b.tail|, h + |b.handles|)
    decreases v, 0, 1
  {
    hide Ready, Whole, WellDefined, EncodeSlots, ShapedAll, GetUint, DeclaredGroups, AllAligned, NoneEmpty, Stable,
      FilterGroups, ReadingGroups, GetVersion, SeenFields, Placed, Align, Object, ReadFields, SlotsSize, End,
      StructSize, StructCodes, NeededPaddingForAlignment, Items, Codes, Lower, Lowered, Pad, Nulls, IsObject;
    ClassesMatch(e);
    ObjectShape(e, t, v);
    ClassReady(e, t.cls);
    var sc, gs, vs := Lowered(e.written), e.written[t.cls], v.items[1].items;
    var fs := FilterGroups(gs, e.versions[t.cls]);
    SizesMatch(fs, gs, size);
    var p := NeededPaddingForAlignment(End(gs), 8);
    EncodePad(e.side, sc, Codes(gs), Items(e.written, gs, vs), p, size - 8, h);
    var o := EncodeSlots(e.side, sc, Codes(gs), Items(e.written, gs, vs), size - 8, h);
    PlacedAppend(e.m, q + 8, size - 8, h, o, Out(Zeros(p), [], []));
    assert q + 8 + (size - 8) == q + Align(size);
    FieldsRead(e, gs, e.versions[t.cls], vs, q + 8, size - 8, h, c, o);
    SeenIsObject(e, t, v);
  }

  lemma SeenIsObject(e: Exchange, t: Type, v: Value)
    requires Ready(e) && t.PointerTo? && t.cls < |e.written| && IsObject(e.written[t.cls], v)
    ensures NoneEmpty(e.written[t.cls]) && |e.versions| == |e.written|
    ensures Known(e, t, v) ==
            var fields := SeenFields(e.side, e.written, e.versions, e.written[t.cls], e.versions[t.cls], v.items[1].items);
            if fields.None? then None
            else Some(Object(FilterGroups(e.written[t.cls], e.versions[t.cls]), fields.value.values, fields.value.stray))
  {
    hide SeenFields, FilterGroups, AllAligned, DeclaredGroups, GetVersion;
    assert !v.Null? && Known(e, t, v) == SeenObject(e.side, e.written, e.versions, t.cls, v);
  }

  /** The last group is written behind the padding that aligns it. */
  lemma CodesLast(side: Side, defs: Definitions, gs: seq<Group>, vs: seq<Value>, gap: int, h: nat) returns (a: Out, b: Out)
    requires WellDefined(defs) && AllAligned(gs) && gs != [] && |vs| == |gs|
    requires ShapedAll(Lowered(defs), Codes(gs), Items(defs, gs, vs))
    ensures AllAligned(gs[..|gs| - 1]) && Aligned(gs[|gs| - 1])
    ensures var k, sc := |gs| - 1, Lowered(defs);
            var g, n := gs[k], Offset(gs[..k], gs[k]);
            && ShapedAll(sc, Codes(gs[..k]), Items(defs, gs[..k], vs[..k])) && Fits(defs, Slot(g), vs[k])
            && a == EncodeSlots(side, sc, Codes(gs[..k]), Items(defs, gs[..k], vs[..k]), gap, h)
            && b == Encode(side, sc, Slot(g), Lower(defs, Slot(g), vs[k]), gap + |a.tail| - n, h + |a.handles|)
            && End(gs[..k]) == |a.slots| <= n && End(gs) == n + GetByteSize(g)
            && EncodeSlots(side, sc, Codes(gs), Items(defs, gs, vs), gap, h)
               == Append(Append(a, Out(Zeros(n - |a.slots|), [], [])), b)
  {
    hide WellDefined, AllAligned, Encode, EncodeSlots, Append, Shaped, ShapedAll, Lowered, Lower, Slot, SlotSize,
      SlotsSize, NeededPaddingForAlignment, Pad, Nulls, Aligned, GetByteSize, Codes, Items, End, Offset;
    var k, sc := |gs| - 1, Lowered(defs);
    EndLast(gs);
    var p := Offset(gs[..k], gs[k]) - End(gs[..k]);
    SameLength(sc, Codes(gs), Items(defs, gs, vs));
    CodesSplit(defs, gs, vs);
    var o, b' := EncodeLast(side, sc, Codes(gs), Items(defs, gs, vs), gap, h);
    b := b';
    EncodePad(side, sc, Codes(gs[..k]), Items(defs, gs[..k], vs[..k]), p, gap, h);
    a := EncodeSlots(side, sc, Codes(gs[..k]), Items(defs, gs[..k], vs[..k]), gap, h);
    CodesSize(gs[..k]);
    PadLengths(a, p);
  }

  lemma PadLengths(a: Out, p: nat)
    ensures var o := Append(a, Out(Zeros(p), [], []));
            |o.slots| == |a.slots| + p && |o.tail| == |a.tail| && |o.handles| == |a.handles|
  {
  }

  lemma CodesSplit(defs: Definitions, gs: seq<Group>, vs: seq<Value>)
    requires WellDefined(defs) && AllAligned(gs) && gs != [] && |vs| == |gs| && Aligned(gs[|gs| - 1])
    ensures var k, ts, items := |gs| - 1, Codes(gs), Items(defs, gs, vs);
            var p := Offset(gs[..k], gs[k]) - End(gs[..k]);
            && ts != [] && ts[..|ts| - 1] == Codes(gs[..k]) + Pad(p) && ts[|ts| - 1] == Slot(gs[k])
            && items != [] && items[..|items| - 1] == Items(defs, gs[..k], vs[..k]) + Nulls(p)
            && items[|items| - 1] == Lower(defs, Slot(gs[k]), vs[k])
  {
    hide WellDefined, Lower, Slot, SlotSize, NeededPaddingForAlignment, Pad, Nulls, Aligned, GetByteSize, End;
  }

  lemma SameLength(sc: Schema, ts: seq<Type>, vs: seq<Value>)
    requires ShapedAll(sc, ts, vs)
    ensures |ts| == |vs|
  {
  }

  lemma FilterLast(gs: seq<Group>, version: nat)
    requires NoneEmpty(gs) && AllAligned(gs) && gs != [] && Stable(gs, version)
    ensures var k := |gs| - 1;
            && NoneEmpty(gs[..k]) && AllAligned(gs[..k]) && Stable(gs[..k], version) && NotEmpty(gs[k]) && Aligned(gs[k])
            && AllAligned(FilterGroups(gs[..k], version)) && AllAligned(FilterGroups(gs, version))
            && var f := FilterGroups(gs[..k], version);
            if version < GetMinVersion(gs[k]) then FilterGroups(gs, version) == f
            else
              && FilterGroups(gs, version) == f + [Filter(gs[k], version)]
              && Aligned(Filter(gs[k], version))
              && Offset(f, Filter(gs[k], version)) == Offset(gs[..k], gs[k])
              && KeepsBits(gs[k], version)
  {
    hide Filter, GetMinVersion, Offset, KeepsBits;
    var k := |gs| - 1;
    FilterGroupsAligned(gs, version);
    assert NotEmpty(gs[k]) && Aligned(gs[k]);
    assert FilterGroups(gs[..k], version) + [] == FilterGroups(gs[..k], version);
    FilterAligned(gs[k], version);
    if GetMinVersion(gs[k]) <= version { OffsetOfFiltered(FilterGroups(gs[..k], version), gs[k], version); }
  }

  lemma {:induction false} FieldsRead(e: Exchange, gs: seq<Group>, version: nat, vs: seq<Value>,
                                      pos: nat, gap: int, h: nat, c: Mark, o: Out)
    requires Ready(e) && NoneEmpty(gs) && AllAligned(gs) && DeclaredGroups(|e.known|, gs) && Stable(gs, version)
    requires |vs| == |gs| && |e.versions| == |e.written|
    requires ShapedAll(Lowered(e.written), Codes(gs), Items(e.written, gs, vs))
    requires End(gs) <= gap && Whole(pos) && Whole(pos + gap)
    requires c.memory <= pos + gap && c.handle <= h
    requires o == EncodeSlots(e.side, Lowered(e.written), Codes(gs), Items(e.written, gs, vs), gap, h)
    requires |o.tail| < TWO32 && Placed(e.m, pos, gap, h, o)
    ensures c.memory <= |e.m.bytes|
    ensures var fs := FilterGroups(gs, version);
            && DeclaredGroups(|e.known|, fs) && AllAligned(fs) && pos + End(fs) <= |e.m.bytes|
            && ReadsFieldsAs(ReadFields(e.m, e.known, fs, pos, c),
                             SeenFields(e.side, e.written, e.versions, gs, version, vs),
                             pos + gap + |o.tail|, h + |o.handles|)
    decreases vs, 0, 0
  {
    hide Ready, Whole, WellDefined, EncodeSlots, ShapedAll, DeclaredGroups, AllAligned, NoneEmpty, Stable, FilterGroups,
      SeenFields, Placed, ReadFields, SlotsSize, End, Items, Codes, Lowered;
    ClassesMatch(e);
    PlacedFits(e.m, pos, gap, h, o);
    FilterGroupsAligned(gs, version);
    FilterFits(gs, version);
    DeclaredFiltered(|e.known|, gs, version);
    CodesSize(gs);
    if gs == [] {
      ReadsNothing(e, version, pos, c);
    } else {
      LastFieldRead(e, gs, version, vs, pos, gap, h, c, o);
    }
  }

  lemma ReadsNothing(e: Exchange, version: nat, pos: nat, c: Mark)
    requires Ready(e) && |e.versions| == |e.written| && pos <= |e.m.bytes| && c.memory <= |e.m.bytes|
    ensures FilterGroups([], version) == [] && DeclaredGroups(|e.known|, []) && End([]) == 0
    ensures ReadFields(e.m, e.known, [], pos, c) == GotAll([], false, c, [], [])
    ensures SeenFields(e.side, e.written, e.versions, [], version, []) == Some(Fields([], false))
  {
    hide WellDefined;
  }

  lemma {:induction false} LastFieldRead(e: Exchange, gs: seq<Group>, version: nat, vs: seq<Value>,
                                         pos: nat, gap: int, h: nat, c: Mark, o: Out)
    requires Ready(e) && NoneEmpty(gs) && AllAligned(gs) && DeclaredGroups(|e.known|, gs) && Stable(gs, version)
    requires |vs| == |gs| && |e.versions| == |e.written| && gs != []
    requires ShapedAll(Lowered(e.written), Codes(gs), Items(e.written, gs, vs))
    requires End(gs) <= gap && Whole(pos) && Whole(pos + gap)
    requires c.memory <= pos + gap && c.handle <= h && c.memory <= |e.m.bytes|
    requires o == EncodeSlots(e.side, Lowered(e.written), Codes(gs), Items(e.written, gs, vs), gap, h)
    requires |o.tail| < TWO32 && Placed(e.m, pos, gap, h, o)
    requires var fs := FilterGroups(gs, version);
             DeclaredGroups(|e.known|, fs) && AllAligned(fs) && pos + End(fs) <= |e.m.bytes|
    ensures ReadsFieldsAs(ReadFields(e.m, e.known, FilterGroups(gs, version), pos, c),
                          SeenFields(e.side, e.written, e.versions, gs, version, vs),
                          pos + gap + |o.tail|, h + |o.handles|)
    decreases vs, 0, -1
  {
    hide Ready, Whole, WellDefined, EncodeSlots, Encode, ShapedAll, DeclaredGroups, DeclaredGroup, AllAligned, Aligned,
      NoneEmpty, NotEmpty, Stable, FilterGroups, Filter, GetMinVersion, SeenFields, Placed, ReadFields, ReadGroup,
      SlotsSize, End, Offset, Items, Codes, Lowered, Fits, Lower, KeepsBits, GetByteSize, Slot;
    ClassesMatch(e);
    var k, defs := |gs| - 1, e.written;
    var g := gs[k];
    FilterLast(gs, version);
    var n := Offset(gs[..k], g);
    DeclaredLast(|e.known|, gs);
    var a, b := CodesLast(e.side, defs, gs, vs, gap, h);
    var pad := Out(Zeros(n - |a.slots|), [], []);
    PlacedAppend(e.m, pos, gap, h, Append(a, pad), b);
    PlacedAppend(e.m, pos, gap, h, a, pad);
    FieldsRead(e, gs[..k], version, vs[..k], pos, gap, h, c, a);
    SeenLast(e, gs, version, vs);
    if GetMinVersion(g) <= version {
      var fs := FilterGroups(gs, version);
      ReadFieldsLast(e.m, e.known, fs, pos, c);
      assert fs[..|fs| - 1] == FilterGroups(gs[..k], version);
      var r := ReadFields(e.m, e.known, fs[..|fs| - 1], pos, c);
      if r.GotAll? {
        FilterAligned(g, version);
        OffsetAligned(gs[..k], g, pos);
        Moved(pos, gap, n, |a.tail|);
        GroupRead(e, g, version, vs[k], pos + n, gap + |a.tail| - n, h + |a.handles|, r, b);
      }
    }
  }

  lemma OffsetAligned(gs: seq<Group>, g: Group, pos: nat)
    requires AllAligned(gs) && Aligned(g) && Whole(pos)
    ensures IsPointer(Slot(g)) ==> Whole(pos + Offset(gs, g))
  {
    hide AllAligned, Offset, Whole;
    if IsPointer(Slot(g)) { WholeSum(pos, Offset(gs, g)); }
  }

  /** What a reader sees of one more group. */
  function SeenMore(e: Exchange, before: Fields, g: Group, version: nat, v: Value): Option<Fields>
    requires Ready(e) && |e.versions| == |e.written|
  {
    if g.BooleanGroup? then
      var n := |FilterFields(g.descriptors, version)|;
      if v.Record? && n <= |v.items| then
        Some(Fields(before.values + [Record(v.items[..n])], before.stray || Flag(true) in v.items[n..]))
      else None
    else
      var last := Seen(e.side, e.written, e.versions, g.field.fieldType, v);
      if last.None? then None else Some(Fields(before.values + [last.value], before.stray))
  }

  lemma SeenLast(e: Exchange, gs: seq<Group>, version: nat, vs: seq<Value>)
    requires Ready(e) && NoneEmpty(gs) && gs != [] && |vs| == |gs| && |e.versions| == |e.written|
    ensures var k := |gs| - 1;
            && NoneEmpty(gs[..k]) && NotEmpty(gs[k])
            && var before := SeenFields(e.side, e.written, e.versions, gs[..k], version, vs[..k]);
            SeenFields(e.side, e.written, e.versions, gs, version, vs)
              == if before.None? || version < GetMinVersion(gs[k]) then before
                 else SeenMore(e, before.value, gs[k], version, vs[k])
  {
    hide WellDefined, Seen, FilterGroups, GetMinVersion;
    assert NotEmpty(gs[|gs| - 1]);
  }

  lemma {:induction false} GroupRead(e: Exchange, g: Group, version: nat, v: Value, pos: nat, gap: int, h: nat, r: Reads,
                                     o: Out)
    requires Ready(e) && NotEmpty(g) && Aligned(g) && DeclaredGroup(|e.known|, g) && Fits(e.written, Slot(g), v)
    requires GetMinVersion(g) <= version && KeepsBits(g, version) && |e.versions| == |e.written|
    requires GetByteSize(g) <= gap && Whole(pos + gap) && (IsPointer(Slot(g)) ==> Whole(pos))
    requires r.GotAll? && r.at.memory <= pos + gap && r.at.handle <= h && r.at.memory <= |e.m.bytes|
    requires o == Encode(e.side, Lowered(e.written), Slot(g), Lower(e.written, Slot(g), v), gap, h)
    requires |o.tail| < TWO32 && Placed(e.m, pos, gap, h, o)
    requires DeclaredGroup(|e.known|, Filter(g, version)) && pos + GetByteSize(Filter(g, version)) <= |e.m.bytes|
    ensures ReadsFieldsAs(ReadGroup(e.m, e.known, Filter(g, version), pos, r),
                          SeenMore(e, Fields(r.values, r.stray), g, version, v),
                          pos + gap + |o.tail|, h + |o.handles|)
    decreases v, 5
  {
    hide Ready, Whole, WellDefined, Encode, ReadSlot, Declared, Seen, Shaped, Lowered, Placed, GetMinVersion, Lower;
    ClassesMatch(e);
    if g.SingleFieldGroup? {
      SlotReads(e, g.field.fieldType, false, v, pos, gap, h, r.at, o);
    } else {
      BooleansRead(e, g, version, v, pos, gap, h, r, o);
    }
  }

  lemma BooleansRead(e: Exchange, g: Group, version: nat, v: Value, pos: nat, gap: int, h: nat, r: Reads, o: Out)
    requires Ready(e) && g.BooleanGroup? && Fits(e.written, Slot(g), v) && KeepsBits(g, version)
    requires |e.versions| == |e.written|
    requires r.GotAll? && r.at.memory <= pos + gap && r.at.handle <= h && r.at.memory <= |e.m.bytes|
    requires o == Encode(e.side, Lowered(e.written), Slot(g), Lower(e.written, Slot(g), v), gap, h)
    requires Placed(e.m, pos, gap, h, o)
    requires DeclaredGroup(|e.known|, Filter(g, version)) && pos + 1 <= |e.m.bytes|
    ensures ReadsFieldsAs(ReadGroup(e.m, e.known, Filter(g, version), pos, r),
                          SeenMore(e, Fields(r.values, r.stray), g, version, v),
                          pos + gap + |o.tail|, h + |o.handles|)
  {
    hide Ready, Whole, WellDefined, Lowered, FilterFields, PackBits, Flags, UnpackBits, FlagValues;
    ClassesMatch(e);
    var n := |FilterFields(g.descriptors, version)|;
    AtOne(e.m.bytes, pos, PackByte(Flags(v.items)));
    ReadFewerBits(v.items, n);
  }

  /** The known booleans are the lowest bits of the byte; any other that is set makes the byte larger than they can. */
  lemma ReadFewerBits(vs: seq<Value>, n: nat)
    requires AllFlags(vs) && n <= |vs| <= 8
    ensures FlagValues(UnpackBits(PackByte(Flags(vs)), n)) == vs[..n]
    ensures Pow2(n) <= PackByte(Flags(vs)) <==> Flag(true) in vs[n..]
  {
    var bs := Flags(vs);
    forall i | 0 <= i < n ensures Bit(PackByte(bs), i) == bs[i] { BitOfPack(bs, i); }
    BitsAbove(bs, n);
    if true in bs[n..] {
      var i :| 0 <= i < |bs[n..]| && bs[n..][i];
      assert vs[n..][i] == Flag(true);
    }
    if Flag(true) in vs[n..] {
      var i :| 0 <= i < |vs[n..]| && vs[n..][i] == Flag(true);
      assert bs[n..][i];
    }
  }

  // ---- arrays and maps ----

  lemma {:induction false} ArrayReads(e: Exchange, t: Type, generic: bool, v: Value, q: nat, size: nat, h: nat, c: Mark,
                                      b: Out)
    requires Ready(e) && Declared(|e.known|, t) && IsArray(t) && !t.elem.PackedBool? && Lower(e.written, t, v).Seq?
    requires Whole(q) && Whole(q + 8) && Whole(q + Align(size))
    requires c.memory == q + size && c.handle <= h && 8 <= size
    requires var lv, sc := Lower(e.written, t, v), Lowered(e.written);
             && ShapedAll(sc, Repeat(t.elem, |lv.items|), lv.items)
             && b == EncodeSlots(e.side, sc, Repeat(t.elem, |lv.items|), lv.items, Align(size) - 8, h)
             && size == 8 + SlotsSize(Repeat(t.elem, |lv.items|)) && WellFormed(sc, t)
    requires q + 8 <= |e.m.bytes| && GetUint(e.m.bytes, q + 4, 4) == |Lower(e.written, t, v).items|
    requires |b.tail| < TWO32 && q + Align(size) + |b.tail| <= |e.m.bytes|
    requires Placed(e.m, q + 8, Align(size) - 8, h, b)
    ensures q + size <= |e.m.bytes|
    ensures ReadsAs(ReadArray(e.m, e.known, t, generic, q, size, c), Known(e, t, v),
                    q + Align(size) + |b.tail|, h + |b.handles|)
    decreases v, 0, 1
  {
    hide Ready, Whole, WellDefined, EncodeSlots, ShapedAll, GetUint, Declared, Seen, SeenAll, Placed, Align, SlotsSize,
      SlotSize, ReadItems, Lower, Lowered, IsPlain, Repeat;
    ClassesMatch(e);
    DeclaredParts(|e.known|, t);
    ArrayShape(e, t, v);
    ElementSize(|e.known|, t.elem);
    var n := |v.items|;
    RepeatSize(t.elem, n);
    TimesBack(n, SlotSize(t.elem));
    if t.length == 0 || n == t.length {
      ItemsRead(e, t.elem, v.items, q + 8, Align(size) - 8, h, c, b);
    }
  }

  lemma ArrayShape(e: Exchange, t: Type, v: Value)
    requires Ready(e) && IsArray(t) && !t.elem.PackedBool? && Lower(e.written, t, v).Seq?
    ensures |e.versions| == |e.written|
    ensures v.Seq? && Lower(e.written, t, v) == Seq(LowerAll(e.written, t.elem, v.items))
    ensures Known(e, t, v) ==
            if t.length != 0 && |v.items| != t.length then None
            else
              var items := SeenAll(e.side, e.written, e.versions, t.elem, v.items);
              if items.None? then None else Some(Seq(items.value))
  {
    hide WellDefined;
  }

  lemma ElementSize(n: nat, t: Type)
    requires Declared(n, t)
    ensures SlotSize(t) > 0
  {
  }

  lemma TimesBack(n: nat, k: nat)
    requires k > 0
    ensures n * k / k == n && n * k % k == 0
  {
    ModUnique(n * k, n, 0, k);
  }

  lemma {:induction false} ItemsRead(e: Exchange, t: Type, vs: seq<Value>, pos: nat, gap: int, h: nat, c: Mark, o: Out)
    requires Ready(e) && Declared(|e.known|, t) && |e.versions| == |e.written|
    requires ShapedAll(Lowered(e.written), Repeat(t, |vs|), LowerAll(e.written, t, vs))
    requires |vs| * SlotSize(t) <= gap && Whole(pos) && Whole(pos + gap)
    requires c.memory <= pos + gap && c.handle <= h
    requires o == EncodeSlots(e.side, Lowered(e.written), Repeat(t, |vs|), LowerAll(e.written, t, vs), gap, h)
    requires |o.tail| < TWO32 && Placed(e.m, pos, gap, h, o)
    ensures c.memory <= |e.m.bytes| && pos + |vs| * SlotSize(t) <= |e.m.bytes|
    ensures ReadsAllAs(ReadItems(e.m, e.known, t, |vs|, pos, c), SeenAll(e.side, e.written, e.versions, t, vs),
                       pos + gap + |o.tail|, h + |o.handles|)
    decreases vs, 0, 0
  {
    hide Ready, Whole, WellDefined, Encode, EncodeSlots, Shaped, ShapedAll, Declared, Seen, SeenAll, Placed, SlotSize,
      ReadSlot, ReadItems, Lower, LowerAll, Lowered, SlotsSize, Repeat;
    ClassesMatch(e);
    PlacedFits(e.m, pos, gap, h, o);
    RepeatSize(t, |vs|);
    if vs == [] {
      ReadsNoItems(e, t, pos, c);
    } else {
      var k := |vs| - 1;
      var a, b := ItemsLast(e.side, e.written, t, vs, gap, h);
      PlacedAppend(e.m, pos, gap, h, a, b);
      OneMore(|vs|, SlotSize(t));
      ItemsRead(e, t, vs[..k], pos, gap, h, c, a);
      Moved(pos, gap, |a.slots|, |a.tail|);
      LastItemRead(e, t, vs, pos, pos + |a.slots|, gap + |a.tail| - |a.slots|, h + |a.handles|, c, b);
    }
  }

  /** The last of several items. */
  lemma ItemsLast(side: Side, defs: Definitions, t: Type, vs: seq<Value>, gap: int, h: nat) returns (a: Out, b: Out)
    requires WellDefined(defs) && vs != []
    requires ShapedAll(Lowered(defs), Repeat(t, |vs|), LowerAll(defs, t, vs))
    ensures var k, sc := |vs| - 1, Lowered(defs);
            && ShapedAll(sc, Repeat(t, k), LowerAll(defs, t, vs[..k])) && Fits(defs, t, vs[k])
            && a == EncodeSlots(side, sc, Repeat(t, k), LowerAll(defs, t, vs[..k]), gap, h)
            && b == Encode(side, sc, t, Lower(defs, t, vs[k]), gap + |a.tail| - |a.slots|, h + |a.handles|)
            && EncodeSlots(side, sc, Repeat(t, |vs|), LowerAll(defs, t, vs), gap, h) == Append(a, b)
            && |a.slots| == k * SlotSize(t) && |b.slots| == SlotSize(t)
  {
    hide WellDefined, Encode, EncodeSlots, Shaped, ShapedAll, SlotSize, Lower, Lowered, SlotsSize;
    var k, lvs := |vs| - 1, LowerAll(defs, t, vs);
    assert Repeat(t, |vs|)[..k] == Repeat(t, k) && lvs[..k] == LowerAll(defs, t, vs[..k]);
    RepeatSize(t, k);
    a, b := EncodeLast(side, Lowered(defs), Repeat(t, |vs|), lvs, gap, h);
  }

  lemma {:induction false} LastItemRead(e: Exchange, t: Type, vs: seq<Value>, start: nat, pos: nat, gap: int, h: nat,
                                        c: Mark, o: Out)
    requires Ready(e) && Declared(|e.known|, t) && |e.versions| == |e.written| && vs != []
    requires Fits(e.written, t, vs[|vs| - 1]) && c.memory <= |e.m.bytes|
    requires SlotSize(t) <= gap && Whole(start) && Whole(pos + gap)
    requires pos == start + (|vs| - 1) * SlotSize(t) && start + |vs| * SlotSize(t) <= |e.m.bytes|
    requires (|vs| - 1) * SlotSize(t) + SlotSize(t) == |vs| * SlotSize(t)
    requires start + (|vs| - 1) * SlotSize(t) <= |e.m.bytes|
    requires ReadsAllAs(ReadItems(e.m, e.known, t, |vs| - 1, start, c),
                        SeenAll(e.side, e.written, e.versions, t, vs[..|vs| - 1]), pos + gap, h)
    requires o == Encode(e.side, Lowered(e.written), t, Lower(e.written, t, vs[|vs| - 1]), gap, h)
    requires |o.tail| < TWO32 && Placed(e.m, pos, gap, h, o)
    ensures ReadsAllAs(ReadItems(e.m, e.known, t, |vs|, start, c), SeenAll(e.side, e.written, e.versions, t, vs),
                       pos + gap + |o.tail|, h + |o.handles|)
    decreases vs, 0, -1
  {
    hide Ready, Whole, WellDefined, Encode, Fits, Declared, Seen, SeenAll, Placed, SlotSize, ReadSlot, ReadItems, Lower,
      Lowered;
    ClassesMatch(e);
    var k := |vs| - 1;
    SeenItemsLast(e, t, vs);
    ReadItemsLast(e.m, e.known, t, |vs|, start, c);
    PointerAligned(t, k, start);
    var r := ReadItems(e.m, e.known, t, k, start, c);
    if r.GotAll? { SlotReads(e, t, false, vs[k], pos, gap, h, r.at, o); }
  }

  lemma SeenItemsLast(e: Exchange, t: Type, vs: seq<Value>)
    requires Ready(e) && vs != []
    ensures |e.versions| == |e.written|
    ensures var k := |vs| - 1;
            var before := SeenAll(e.side, e.written, e.versions, t, vs[..k]);
            var last := Seen(e.side, e.written, e.versions, t, vs[k]);
            SeenAll(e.side, e.written, e.versions, t, vs)
              == if before.None? || last.None? then None else Some(before.value + [last.value])
  {
    hide WellDefined, Seen;
  }

  lemma PointerAligned(t: Type, k: nat, pos: nat)
    requires Whole(pos)
    ensures IsPointer(t) ==> Whole(pos + k * SlotSize(t))
  {
  }

  lemma ReadsNoItems(e: Exchange, t: Type, pos: nat, c: Mark)
    requires Ready(e) && Declared(|e.known|, t) && pos <= |e.m.bytes| && c.memory <= |e.m.bytes|
    ensures ReadItems(e.m, e.known, t, 0, pos, c) == GotAll([], false, c, [], [])
    ensures |e.versions| == |e.written| && SeenAll(e.side, e.written, e.versions, t, []) == Some([])
  {
    hide WellDefined, Declared;
  }

  lemma {:induction false} MapReads(e: Exchange, t: Type, v: Value, q: nat, size: nat, h: nat, c: Mark, b: Out)
    requires Ready(e) && t.MapOf? && Declared(|e.known|, t) && Lower(e.written, t, v).Dict?
    requires Whole(q) && Whole(q + 8) && size == 24
    requires c.memory == q + size && c.handle <= h
    requires var lv, sc, ts := Lower(e.written, t, v), Lowered(e.written), [ArrayOf(t.key, 0), ArrayOf(t.value, 0)];
             && ShapedAll(sc, ts, lv.items)
             && b == EncodeSlots(e.side, sc, ts, lv.items, 16, h)
    requires |b.tail| < TWO32 && q + 24 + |b.tail| <= |e.m.bytes|
    requires Placed(e.m, q + 8, 16, h, b) && GetUint(e.m.bytes, q + 4, 4) == 0
    ensures ReadsAs(ReadMap(e.m, e.known, t, q, size, c), Known(e, t, v), q + 24 + |b.tail|, h + |b.handles|)
    decreases v, 0, 1
  {
    hide Ready, Whole, WellDefined, EncodeSlots, Encode, Shaped, ShapedAll, GetUint, Declared, Seen, Placed, Align,
      SlotsSize, ReadSlot, Lower, Lowered, SeenMap;
    ClassesMatch(e);
    DeclaredParts(|e.known|, t);
    MapShape(e, t, v);
    var sc, ts := Lowered(e.written), [ArrayOf(t.key, 0), ArrayOf(t.value, 0)];
    var lvs := Lower(e.written, t, v).items;
    var a, o := EncodeLast(e.side, sc, ts, lvs, 16, h);
    PlacedAppend(e.m, q + 8, 16, h, a, o);
    var none, a1 := EncodeLast(e.side, sc, ts[..1], lvs[..1], 16, h);
    assert ts[..1][..0] == [] && lvs[..1][..0] == [];
    EncodeNone(e.side, sc, 16, h);
    PlacedAppend(e.m, q + 8, 16, h, none, a1);
    WholeSum(q, 24);
    WholeSum(q, 16);
    Moved(q + 8, 16, 8, |a.tail|);
    SlotReads(e, ArrayOf(t.key, 0), true, v.items[0], q + 8, 16, h, c, a1);
    var keys := ReadSlot(e.m, e.known, ArrayOf(t.key, 0), true, q + 8, c);
    if keys.Got? {
      SlotReads(e, ArrayOf(t.value, 0), true, v.items[1], q + 16, 8 + |a.tail|, h + |a.handles|, keys.at, o);
    }
  }

  lemma MapShape(e: Exchange, t: Type, v: Value)
    requires Ready(e) && t.MapOf? && Lower(e.written, t, v).Dict?
    ensures |e.versions| == |e.written|
    ensures v.Dict? && |v.items| == 2
    ensures Lower(e.written, t, v).items
         == [Lower(e.written, ArrayOf(t.key, 0), v.items[0]), Lower(e.written, ArrayOf(t.value, 0), v.items[1])]
    ensures Known(e, t, v) ==
            var keys, values := Known(e, ArrayOf(t.key, 0), v.items[0]), Known(e, ArrayOf(t.value, 0), v.items[1]);
            if keys.None? || values.None? then None else SeenMap(keys.value, values.value)
  {
    hide WellDefined, SeenMap;
  }
}
