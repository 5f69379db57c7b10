/** What JavaScript decodes depends on contents alone: not on where blocks lie, how large their headers say they are, or which
    version a struct is. */
module JsContents {
  import opened Bytes
  import opened Wire
  import opened JsValidation
  import opened JsDecoding
  import opened Layouts
  import opened JsLayout

  /** The same bytes at both places. */
  predicate SameBytes(m: Message, pos: nat, m': Message, pos': nat, n: nat) {
    pos + n <= |m.bytes| && pos' + n <= |m'.bytes| && m.bytes[pos..pos + n] == m'.bytes[pos'..pos' + n]
  }

  /** Two trees with the same numbers, strings, flags and handles at the same places in them. Arrays of maps, into which trees
      do not lead, are alike only if they are empty. */
  predicate Alike(sc: Schema, t: Type, m: Message, pos: nat, p: Part, m': Message, pos': nat, p': Part)
    decreases p, 0
  {
    match p
    case Plain => p'.Plain? && SameBytes(m, pos, m', pos', SlotSize(t))
    case NoHandle => p'.NoHandle?
    case Entry(i) => p'.Entry? && i < |m.handles| && p'.index < |m'.handles| && m.handles[i] == m'.handles[p'.index]
    case NullPointer => p'.NullPointer?
    case Nested(start, _, word, parts) =>
      && p'.Nested? && (t.PointerTo? || t.MapOf? || word == p'.word)
      && if LooksInto(t) then AllAlike(sc, Inside(sc, t, word), m, start + 8, parts, m', p'.start + 8, p'.parts)
         else if IsArray(t) && t.elem.MapOf? then word == 0
         else SameBytes(m, start + 8, m', p'.start + 8, Needed(sc, t, word))
  }

  predicate AllAlike(sc: Schema, ts: seq<Type>, m: Message, pos: nat, ps: seq<Part>, m': Message, pos': nat,
                     ps': seq<Part>)
    decreases ps, 1
  {
    |ts| == |ps| == |ps'| &&
    (ps == [] ||
     var k := |ps| - 1;
     && AllAlike(sc, ts[..k], m, pos, ps[..k], m', pos', ps'[..k])
     && Alike(sc, ts[k], m, pos + SlotsSize(ts[..k]), ps[k], m', pos' + SlotsSize(ts[..k]), ps'[k]))
  }

  predicate SameResult(r: Decoded, r': Decoded) { (r.Done? <==> r'.Done?) && (r.Done? ==> r.value == r'.value) }

  predicate SameResults(r: DecodedAll, r': DecodedAll) {
    (r.DoneAll? <==> r'.DoneAll?) && (r.DoneAll? ==> r.values == r'.values)
  }

  lemma SameUint(m: Message, pos: nat, m': Message, pos': nat, n: nat)
    requires SameBytes(m, pos, m', pos', n)
    ensures GetUint(m.bytes, pos, n) == GetUint(m'.bytes, pos', n)
  {
  }

  lemma SamePart(m: Message, pos: nat, m': Message, pos': nat, n: nat, i: nat, k: nat)
    requires SameBytes(m, pos, m', pos', n) && i + k <= n
    ensures SameBytes(m, pos + i, m', pos' + i, k)
  {
    assert m.bytes[pos + i..pos + i + k] == m.bytes[pos..pos + n][i..i + k];
    assert m'.bytes[pos' + i..pos' + i + k] == m'.bytes[pos'..pos' + n][i..i + k];
  }

  /** Handle tables that 32-bit indices can address. */
  predicate TablesFit(m: Message, m': Message) { |m.handles| < 0xFFFF_FFFF && |m'.handles| < 0xFFFF_FFFF }

  lemma {:induction false} SlotAlike(sc: Schema, t: Type, m: Message, pos: nat, p: Part, m': Message, pos': nat, p': Part)
    requires WellFormedSchema(sc) && WellFormed(sc, t) && TablesFit(m, m')
    requires pos + SlotSize(t) <= |m.bytes| && pos' + SlotSize(t) <= |m'.bytes|
    requires Right(m, sc, t, pos, p) && Right(m', sc, t, pos', p') && Alike(sc, t, m, pos, p, m', pos', p')
    ensures SameResult(DecodeSlot(m, sc, t, pos), DecodeSlot(m', sc, t, pos'))
    decreases p, 0
  {
    hide WellFormedSchema, WellFormed, DecodeBlock, GetUint, BlockRight, UnpackBits, LooksInto, Signed;
    if p.Plain? {
      PlainAlike(sc, t, m, pos, m', pos');
    } else if IsPointer(t) && p.Nested? {
      BlockAlike(sc, t, m, pos, p, m', pos', p');
    }
  }

  lemma PlainAlike(sc: Schema, t: Type, m: Message, pos: nat, m': Message, pos': nat)
    requires WellFormedSchema(sc) && WellFormed(sc, t) && !t.Handle? && !t.Interface? && !IsPointer(t)
    requires SameBytes(m, pos, m', pos', SlotSize(t))
    ensures SameResult(DecodeSlot(m, sc, t, pos), DecodeSlot(m', sc, t, pos'))
  {
    hide WellFormedSchema, GetUint, UnpackBits, Signed;
    SameUint(m, pos, m', pos', SlotSize(t));
    if t.Bits? { assert m.bytes[pos..pos + 1][0] == m'.bytes[pos'..pos' + 1][0]; }
  }

  lemma {:induction false} BlockAlike(sc: Schema, t: Type, m: Message, pos: nat, p: Part, m': Message, pos': nat, p': Part)
    requires WellFormedSchema(sc) && WellFormed(sc, t) && IsPointer(t) && TablesFit(m, m') && p.Nested? && p'.Nested?
    requires BlockRight(m, sc, t, p) && BlockRight(m', sc, t, p') && Alike(sc, t, m, pos, p, m', pos', p')
    ensures SameResult(DecodeBlock(m, sc, t, p.start), DecodeBlock(m', sc, t, p'.start))
    decreases p.parts, 2
  {
    hide WellFormedSchema, WellFormed, GetUint, DecodeSlots, LooksInto, Needed, Inside, BlockSlots, AllRight, AllAlike,
      SameBytes, UnpackBools, ContentSize, Assemble, FlagValues;
    HeaderMeaning(sc, t, p.size, p.word);
    HeaderMeaning(sc, t, p'.size, p'.word);
    SameSlots(sc, t, p.word, p'.word);
    if IsRaw(t) {
      RawAlike(sc, t, m, p, m', p');
    } else if LooksInto(t) {
      BlockSlotsWellFormed(sc, t, p.word);
      BlockSlotsWellFormed(sc, t, p'.word);
      SlotsAlike(sc, Inside(sc, t, p.word), m, p.start + 8, p.parts, m', p'.start + 8, p'.parts);
    } else {
      ItemsAlike(sc, t, m, p, m', p');
    }
  }

  lemma SameSlots(sc: Schema, t: Type, word: nat, word': nat)
    requires t.PointerTo? || t.MapOf? || word == word'
    ensures Inside(sc, t, word) == Inside(sc, t, word') && Needed(sc, t, word) == Needed(sc, t, word')
  {
  }

  lemma RawAlike(sc: Schema, t: Type, m: Message, p: Part, m': Message, p': Part)
    requires WellFormedSchema(sc) && WellFormed(sc, t) && IsPointer(t) && IsRaw(t) && p.Nested? && p'.Nested?
    requires BlockRight(m, sc, t, p) && BlockRight(m', sc, t, p') && p.word == p'.word
    requires SameBytes(m, p.start + 8, m', p'.start + 8, Needed(sc, t, p.word))
    ensures SameResult(DecodeBlock(m, sc, t, p.start), DecodeBlock(m', sc, t, p'.start))
  {
    hide WellFormedSchema, WellFormed, GetUint, UnpackBools, FlagValues, AllRight;
  }

  lemma UnlookedItems(sc: Schema, t: Type, word: nat)
    requires WellFormed(sc, t) && IsArray(t) && !IsRaw(t) && !LooksInto(t)
    ensures WellFormed(sc, t.elem) && (t.elem.Integer? || t.elem.MapOf?)
    ensures Needed(sc, t, word) == word * SlotSize(t.elem)
  {
  }

  /** Arrays of numbers, and arrays of no maps. */
  lemma ItemsAlike(sc: Schema, t: Type, m: Message, p: Part, m': Message, p': Part)
    requires WellFormedSchema(sc) && WellFormed(sc, t) && IsArray(t) && !IsRaw(t) && !LooksInto(t)
    requires p.Nested? && p'.Nested? && BlockRight(m, sc, t, p) && BlockRight(m', sc, t, p') && p.word == p'.word
    requires if t.elem.MapOf? then p.word == 0
             else SameBytes(m, p.start + 8, m', p'.start + 8, Needed(sc, t, p.word))
    ensures SameResult(DecodeBlock(m, sc, t, p.start), DecodeBlock(m', sc, t, p'.start))
  {
    hide WellFormedSchema, WellFormed, GetUint, DecodeSlots, AllRight, SameBytes, LooksInto, Needed;
    UnlookedItems(sc, t, p.word);
    BlockSlotsWellFormed(sc, t, p.word);
    NumbersAlike(sc, t.elem, m, p.start + 8, m', p'.start + 8, p.word);
  }

  lemma {:induction false} NumbersAlike(sc: Schema, t: Type, m: Message, pos: nat, m': Message, pos': nat, n: nat)
    requires WellFormedSchema(sc) && WellFormed(sc, t) && pos <= |m.bytes| && pos' <= |m'.bytes|
    requires n > 0 ==> t.Integer? && SameBytes(m, pos, m', pos', n * SlotSize(t))
    ensures WellFormedAll(sc, Repeat(t, n))
    ensures SameResults(DecodeSlots(m, sc, Repeat(t, n), pos), DecodeSlots(m', sc, Repeat(t, n), pos'))
  {
    hide WellFormedSchema, WellFormed, DecodeSlots, DecodeSlot, SameBytes, SlotSize, SlotsSize;
    RepeatWellFormed(sc, t, n);
    var ts := Repeat(t, n);
    if n == 0 {
      NothingDecoded(m, sc, pos);
      NothingDecoded(m', sc, pos');
    } else {
      OneMore(n, SlotSize(t));
      assert ts[..n - 1] == Repeat(t, n - 1);
      RepeatSize(t, n - 1);
      SamePart(m, pos, m', pos', n * SlotSize(t), 0, (n - 1) * SlotSize(t));
      NumbersAlike(sc, t, m, pos, m', pos', n - 1);
      SamePart(m, pos, m', pos', n * SlotSize(t), (n - 1) * SlotSize(t), SlotSize(t));
      PlainAlike(sc, t, m, pos + (n - 1) * SlotSize(t), m', pos' + (n - 1) * SlotSize(t));
      DecodeLast(m, sc, ts, pos);
      DecodeLast(m', sc, ts, pos');
    }
  }

  lemma NothingDecoded(m: Message, sc: Schema, pos: nat)
    requires WellFormedSchema(sc) && pos <= |m.bytes|
    ensures WellFormedAll(sc, []) && SlotsSize([]) == 0 && DecodeSlots(m, sc, [], pos) == DoneAll([], [], [])
  {
  }

  lemma {:induction false} SlotsAlike(sc: Schema, ts: seq<Type>, m: Message, pos: nat, ps: seq<Part>, m': Message, pos': nat,
                                      ps': seq<Part>)
    requires WellFormedSchema(sc) && WellFormedAll(sc, ts) && TablesFit(m, m')
    requires pos + SlotsSize(ts) <= |m.bytes| && pos' + SlotsSize(ts) <= |m'.bytes|
    requires AllRight(m, sc, ts, pos, ps) && AllRight(m', sc, ts, pos', ps') && AllAlike(sc, ts, m, pos, ps, m', pos', ps')
    ensures SameResults(DecodeSlots(m, sc, ts, pos), DecodeSlots(m', sc, ts, pos'))
    decreases ps, 1
  {
    hide WellFormedSchema, WellFormed, DecodeSlots, DecodeSlot, Right, Alike, SlotSize;
    if ts == [] {
      NothingDecoded(m, sc, pos);
      NothingDecoded(m', sc, pos');
    } else {
      var k := |ts| - 1;
      DecodeLast(m, sc, ts, pos);
      DecodeLast(m', sc, ts, pos');
      SlotsAlike(sc, ts[..k], m, pos, ps[..k], m', pos', ps'[..k]);
      var at := SlotsSize(ts[..k]);
      SlotAlike(sc, ts[k], m, pos + at, ps[k], m', pos' + at, ps'[k]);
    }
  }
}
