/** Which bytes Python deserializes without an exception: those that hold a tree of blocks and handles in which each part is
    right by itself, and in which the blocks, and the handles, follow each other. */
module PyLayout {
  import opened Bytes
  import opened Wire
  import opened Extents
  import opened Layouts
  import opened PyGroups
  import opened PyValues
  import opened PyReading

  predicate NullTaken(t: Type) {
    match t
    case NullableArrayOf(_, _) => true
    case String(nullable) => nullable
    case PointerTo(_, nullable) => nullable
    case MapOf(_, _, nullable) => nullable
    case Handle(nullable) => nullable
    case _ => false
  }

  /** p is what the message has in the slot at pos, and by itself it is as the type asks. `generic` marks the columns of a
      map, which are not taken as native arrays. */
  predicate Right(m: Message, defs: Definitions, t: Type, generic: bool, pos: nat, p: Part)
    requires WellDefined(defs)
    decreases p, 0
  {
    match p
    case Plain => t.Integer?
    case NoHandle => t.Handle? && pos + 4 <= |m.bytes| && GetUint(m.bytes, pos, 4) == 0xFFFF_FFFF && NullTaken(t)
    case Entry(index) => t.Handle? && pos + 4 <= |m.bytes| && GetUint(m.bytes, pos, 4) == index && index < 0x8000_0000
    case NullPointer => IsPointer(t) && pos + 8 <= |m.bytes| && GetUint(m.bytes, pos, 8) == 0 && NullTaken(t)
    case Nested(start, _, _, _) =>
      && IsPointer(t) && pos + 8 <= |m.bytes| && GetUint(m.bytes, pos, 8) != 0 && GetUint(m.bytes, pos, 8) % 8 == 0
      && start == pos + GetUint(m.bytes, pos, 8) && BlockRight(m, defs, t, generic, p)
  }

  /** The header of a block gives its size and another word. */
  predicate HeaderRight(m: Message, p: Part)
    requires p.Nested?
  {
    && p.start + 8 <= |m.bytes| && 8 <= p.size && p.start + p.size <= |m.bytes|
    && p.size == GetUint(m.bytes, p.start, 4) && p.word == GetUint(m.bytes, p.start + 4, 4)
  }

  predicate BlockRight(m: Message, defs: Definitions, t: Type, generic: bool, p: Part)
    requires WellDefined(defs) && p.Nested?
    decreases p.parts, 3
  {
    && HeaderRight(m, p)
    && match t
       case String(_) => p.parts == []
       case PointerTo(cls, _) => StructRight(m, defs, cls, p)
       case MapOf(key, value, _) => MapRight(m, defs, key, value, p)
       case ArrayOf(elem, length) => ArrayRight(m, defs, elem, length, generic, p)
       case NullableArrayOf(elem, length) => ArrayRight(m, defs, elem, length, generic, p)
       case _ => false
  }

  /** A struct is at least as large as the groups of its version need, and exactly as large if its version is known. */
  predicate StructRight(m: Message, defs: Definitions, cls: nat, p: Part)
    requires WellDefined(defs) && p.Nested?
    decreases p.parts, 2
  {
    && cls < |defs| && NoneEmpty(defs[cls]) && AllAligned(ReadingGroups(defs[cls], p.word))
    && 8 + StructSize(ReadingGroups(defs[cls], p.word)) <= p.size
    && (p.word <= GetVersion(defs[cls]) ==> p.size == 8 + StructSize(ReadingGroups(defs[cls], p.word)))
    && FieldsRight(m, defs, ReadingGroups(defs[cls], p.word), p.start + 8, p.parts)
  }

  /** A map is a struct of two arrays of one length. */
  predicate MapRight(m: Message, defs: Definitions, key: Type, value: Type, p: Part)
    requires WellDefined(defs) && p.Nested?
    decreases p.parts, 2
  {
    && 24 <= p.size && (p.word == 0 ==> p.size == 24)
    && |p.parts| == 2 && p.parts[0].Nested? && p.parts[1].Nested? && p.parts[0].word == p.parts[1].word
    && Right(m, defs, ArrayOf(key, 0), true, p.start + 8, p.parts[0])
    && Right(m, defs, ArrayOf(value, 0), true, p.start + 16, p.parts[1])
  }

  /** An array has room for its items, as many as its type asks for; a native array is whole items through and through. */
  predicate ArrayRight(m: Message, defs: Definitions, elem: Type, length: nat, generic: bool, p: Part)
    requires WellDefined(defs) && p.Nested?
    decreases p.parts, 2
  {
    && (length != 0 ==> p.word == length)
    && 8 + (if elem.PackedBool? then (p.word + 7) / 8 else p.word * SlotSize(elem)) <= p.size
    && if elem.PackedBool? then p.parts == []
       else if elem.Integer? then p.parts == [] && (generic || (elem.size != 0 && (p.size - 8) % elem.size == 0))
       else |p.parts| == p.word && ItemsRight(m, defs, elem, p.start + 8, p.parts)
  }

  predicate ItemsRight(m: Message, defs: Definitions, t: Type, pos: nat, ps: seq<Part>)
    requires WellDefined(defs)
    decreases ps, 1
  {
    ps == [] ||
    var k := |ps| - 1;
    ItemsRight(m, defs, t, pos, ps[..k]) && Right(m, defs, t, false, pos + k * SlotSize(t), ps[k])
  }

  /** A part for each group; the byte of a boolean group can be anything. */
  predicate FieldsRight(m: Message, defs: Definitions, fs: seq<Group>, pos: nat, ps: seq<Part>)
    requires WellDefined(defs) && AllAligned(fs)
    decreases ps, 1
  {
    |fs| == |ps| &&
    (ps == [] ||
     var k := |ps| - 1;
     FieldsRight(m, defs, fs[..k], pos, ps[..k])
     && if fs[k].BooleanGroup? then ps[k] == Plain
        else Right(m, defs, fs[k].field.fieldType, false, pos + Offset(fs[..k], fs[k]), ps[k]))
  }

  /** The blocks and the handles come one behind the other, in their order in the tree. */
  predicate InOrder(m: Message, c: Mark, blocks: seq<Extent>, entries: seq<Extent>) {
    Chain(c.memory, blocks, |m.bytes|) && Chain(c.handle, entries, Larger(c.handle, |m.handles|))
  }

  function Behind(c: Mark, blocks: seq<Extent>, entries: seq<Extent>): Mark {
    Mark(After(c.memory, blocks), After(c.handle, entries))
  }

  lemma NothingInOrder(m: Message, c: Mark)
    ensures InOrder(m, c, [], []) <==> c.memory <= |m.bytes|
    ensures Behind(c, [], []) == c
  {
  }

  lemma OneBlock(m: Message, c: Mark, q: nat, size: nat)
    ensures InOrder(m, c, [Extent(q, size)], []) <==> c.memory <= q && q + size <= |m.bytes|
    ensures Behind(c, [Extent(q, size)], []) == Mark(q + size, c.handle)
  {
    OneExtent(c.memory, Extent(q, size), |m.bytes|);
  }

  lemma OneEntry(m: Message, c: Mark, i: nat)
    ensures InOrder(m, c, [], [Extent(i, 1)]) <==> c.memory <= |m.bytes| && c.handle <= i < |m.handles|
    ensures Behind(c, [], [Extent(i, 1)]) == c.(handle := i + 1)
  {
    OneExtent(c.handle, Extent(i, 1), Larger(c.handle, |m.handles|));
  }

  lemma InOrderSplit(m: Message, c: Mark, bs: seq<Extent>, es: seq<Extent>, bs': seq<Extent>, es': seq<Extent>)
    ensures Behind(c, bs + bs', es + es') == Behind(Behind(c, bs, es), bs', es')
    ensures InOrder(m, c, bs + bs', es + es') <==> InOrder(m, c, bs, es) && InOrder(m, Behind(c, bs, es), bs', es')
  {
    hide Chain, After;
    BytesSplit(c.memory, bs, bs', |m.bytes|);
    EntriesSplit(c.handle, es, es', |m.handles|);
  }

  /** r is a value with the claims of p, and the marks are behind them. */
  predicate Claimed(c: Mark, r: Read, p: Part) {
    r.Got? && r.blocks == Blocks(p) && r.handles == Entries(p) && r.at == Behind(c, Blocks(p), Entries(p))
  }

  predicate AllClaimed(c: Mark, r: Reads, ps: seq<Part>) {
    r.GotAll? && r.blocks == BlocksOf(ps) && r.handles == EntriesOf(ps) && r.at == Behind(c, BlocksOf(ps), EntriesOf(ps))
  }

  /** r reads these parts from c on. */
  predicate PartsClaimed(c: Mark, r: Read, ps: seq<Part>) {
    r.Got? && r.blocks == BlocksOf(ps) && r.handles == EntriesOf(ps) && r.at == Behind(c, BlocksOf(ps), EntriesOf(ps))
  }

  /** A column of a map has as many items as the header of its block says. */
  predicate ColumnRead(t: Type, generic: bool, r: Read, p: Part) {
    generic && t.ArrayOf? && r.Got? ==> p.Nested? && r.value.Seq? && |r.value.items| == p.word
  }

  lemma NullMeaning(t: Type)
    ensures IsPointer(t) ==> (Nullable(t) <==> NullTaken(t))
    ensures t.Handle? ==> (t.nullable <==> NullTaken(t))
  {
  }

  lemma SignMeaning(u: nat)
    requires u < TWO32
    ensures Signed(u, 4) == if u < 0x8000_0000 then u else u - TWO32
  {
    assert Pow256(4) == TWO32;
  }

  lemma WordBelow(m: Message, pos: nat)
    requires pos + 4 <= |m.bytes|
    ensures GetUint(m.bytes, pos, 4) < TWO32
  {
    assert Pow256(4) == TWO32;
  }

  // ---- what is read ----

  lemma GotHandle(m: Message, defs: Definitions, t: Type, pos: nat, c: Mark) returns (p: Part)
    requires WellDefined(defs) && t.Handle? && pos + 4 <= |m.bytes| && c.memory <= |m.bytes|
    requires ReadHandle(m, t.nullable, pos, c).Got?
    ensures Right(m, defs, t, false, pos, p) && Right(m, defs, t, true, pos, p)
    ensures InOrder(m, c, Blocks(p), Entries(p)) && Claimed(c, ReadHandle(m, t.nullable, pos, c), p)
  {
    hide WellDefined, GetUint, Signed, InOrder, Behind;
    var u := GetUint(m.bytes, pos, 4);
    WordBelow(m, pos);
    SignMeaning(u);
    NothingInOrder(m, c);
    OneEntry(m, c, u);
    p := if u == 0xFFFF_FFFF then NoHandle else Entry(u);
  }

  /** What is read is a right tree whose parts come in order, and its claims are those of the tree. */
  lemma {:induction false} GotSlot(m: Message, defs: Definitions, t: Type, generic: bool, pos: nat, c: Mark)
    returns (p: Part)
    requires WellDefined(defs) && Declared(|defs|, t)
    requires pos + SlotSize(t) <= |m.bytes| && c.memory <= |m.bytes|
    requires ReadSlot(m, defs, t, generic, pos, c).Got?
    ensures Right(m, defs, t, generic, pos, p) && InOrder(m, c, Blocks(p), Entries(p))
    ensures Claimed(c, ReadSlot(m, defs, t, generic, pos, c), p)
    ensures ColumnRead(t, generic, ReadSlot(m, defs, t, generic, pos, c), p)
    decreases |m.bytes| - c.memory, 1, 0
  {
    hide WellDefined, Declared, GetUint, ReadBlock, Signed, ReadHandle, BlockRight, InOrder, Behind;
    NothingInOrder(m, c);
    NullMeaning(t);
    if t.Handle? {
      p := GotHandle(m, defs, t, pos, c);
    } else if t.Integer? {
      p := Plain;
    } else if GetUint(m.bytes, pos, 8) == 0 {
      p := NullPointer;
    } else {
      p := GotBlock(m, defs, t, generic, pos + GetUint(m.bytes, pos, 8), c);
    }
  }

  lemma {:induction false} GotBlock(m: Message, defs: Definitions, t: Type, generic: bool, q: nat, c: Mark)
    returns (p: Part)
    requires WellDefined(defs) && IsPointer(t) && Declared(|defs|, t) && c.memory <= |m.bytes|
    requires ReadBlock(m, defs, t, generic, q, c).Got?
    ensures p.Nested? && p.start == q && BlockRight(m, defs, t, generic, p) && InOrder(m, c, Blocks(p), Entries(p))
    ensures Claimed(c, ReadBlock(m, defs, t, generic, q, c), p)
    ensures ColumnRead(t, generic, ReadBlock(m, defs, t, generic, q, c), p)
    decreases |m.bytes| - c.memory, 0, 0
  {
    hide WellDefined, Declared, GetUint, ReadContents, BlockRight, InOrder, Behind;
    var size, word := GetUint(m.bytes, q, 4), GetUint(m.bytes, q + 4, 4);
    var d := Mark(q + size, c.handle);
    var parts := GotContents(m, defs, t, generic, q, size, d);
    p := Nested(q, size, word, parts);
    OneBlock(m, c, q, size);
    InOrderSplit(m, c, [Extent(q, size)], [], BlocksOf(parts), EntriesOf(parts));
    assert [] + EntriesOf(parts) == EntriesOf(parts);
  }

  lemma {:induction false} GotContents(m: Message, defs: Definitions, t: Type, generic: bool, q: nat, size: nat,
                                       c: Mark)
    returns (parts: seq<Part>)
    requires WellDefined(defs) && IsPointer(t) && Declared(|defs|, t)
    requires 8 <= size && q + size <= |m.bytes| && c.memory <= |m.bytes| && size == GetUint(m.bytes, q, 4)
    requires ReadContents(m, defs, t, generic, q, size, c).Got?
    ensures var r, word := ReadContents(m, defs, t, generic, q, size, c), GetUint(m.bytes, q + 4, 4);
            && BlockRight(m, defs, t, generic, Nested(q, size, word, parts))
            && InOrder(m, c, BlocksOf(parts), EntriesOf(parts))
            && PartsClaimed(c, r, parts)
            && ColumnRead(t, generic, r, Nested(q, size, word, parts))
    decreases |m.bytes| - c.memory, 4, 0
  {
    hide WellDefined, Declared, GetUint, ReadObject, ReadMap, ReadArray, StructRight, MapRight, ArrayRight, InOrder,
      Behind;
    DeclaredParts(|defs|, t);
    NothingInOrder(m, c);
    if t.String? {
      parts := [];
    } else if t.PointerTo? {
      parts := GotObject(m, defs, t.cls, q, size, c);
    } else if t.MapOf? {
      parts := GotMap(m, defs, t, q, size, c);
    } else {
      parts := GotArray(m, defs, t, generic, q, size, c);
    }
  }

  lemma {:induction false} GotObject(m: Message, defs: Definitions, cls: nat, q: nat, size: nat, c: Mark)
    returns (parts: seq<Part>)
    requires WellDefined(defs) && cls < |defs|
    requires 8 <= size && q + size <= |m.bytes| && c.memory <= |m.bytes|
    requires ReadObject(m, defs, cls, q, size, c).Got?
    ensures var r := ReadObject(m, defs, cls, q, size, c);
            && StructRight(m, defs, cls, Nested(q, size, GetUint(m.bytes, q + 4, 4), parts))
            && InOrder(m, c, BlocksOf(parts), EntriesOf(parts))
            && PartsClaimed(c, r, parts)
    decreases |m.bytes| - c.memory, 3, 0
  {
    hide WellDefined, DeclaredGroups, AllAligned, NoneEmpty, GetUint, ReadFields, ReadingGroups, Object, FieldsRight,
      InOrder, Behind, StructSize, GetVersion, End;
    var version := GetUint(m.bytes, q + 4, 4);
    ReadingDeclared(defs, cls, version);
    parts := GotFields(m, defs, ReadingGroups(defs[cls], version), q + 8, c);
  }

  lemma {:induction false} GotMap(m: Message, defs: Definitions, t: Type, q: nat, size: nat, c: Mark)
    returns (parts: seq<Part>)
    requires WellDefined(defs) && t.MapOf? && Declared(|defs|, t)
    requires 8 <= size && q + size <= |m.bytes| && c.memory <= |m.bytes|
    requires ReadMap(m, defs, t, q, size, c).Got?
    ensures var r := ReadMap(m, defs, t, q, size, c);
            && MapRight(m, defs, t.key, t.value, Nested(q, size, GetUint(m.bytes, q + 4, 4), parts))
            && InOrder(m, c, BlocksOf(parts), EntriesOf(parts))
            && PartsClaimed(c, r, parts)
    decreases |m.bytes| - c.memory, 3, 0
  {
    hide WellDefined, Declared, GetUint, ReadSlot, MakeDict, Right, InOrder, Behind;
    DeclaredParts(|defs|, t);
    var ks, vs := ArrayOf(t.key, 0), ArrayOf(t.value, 0);
    var k := GotSlot(m, defs, ks, true, q + 8, c);
    var keys := ReadSlot(m, defs, ks, true, q + 8, c);
    var v := GotSlot(m, defs, vs, true, q + 16, keys.at);
    parts := [k, v];
    PairOf(k, v);
    InOrderSplit(m, c, Blocks(k), Entries(k), Blocks(v), Entries(v));
  }

  lemma PairOf(a: Part, b: Part)
    ensures BlocksOf([a, b]) == Blocks(a) + Blocks(b) && EntriesOf([a, b]) == Entries(a) + Entries(b)
  {
    OnePart(a);
    MoreParts([a], b);
    assert [a] + [b] == [a, b];
  }

  lemma {:induction false} GotArray(m: Message, defs: Definitions, t: Type, generic: bool, q: nat, size: nat, c: Mark)
    returns (parts: seq<Part>)
    requires WellDefined(defs) && IsArray(t) && Declared(|defs|, t)
    requires 8 <= size && q + size <= |m.bytes| && c.memory <= |m.bytes|
    requires ReadArray(m, defs, t, generic, q, size, c).Got?
    ensures var r, word := ReadArray(m, defs, t, generic, q, size, c), GetUint(m.bytes, q + 4, 4);
            && ArrayRight(m, defs, t.elem, t.length, generic, Nested(q, size, word, parts))
            && InOrder(m, c, BlocksOf(parts), EntriesOf(parts))
            && PartsClaimed(c, r, parts)
            && ColumnRead(t, generic, r, Nested(q, size, word, parts))
    decreases |m.bytes| - c.memory, 3, 0
  {
    hide WellDefined, Declared, GetUint, ReadItems, UnpackBools, FlagValues, SlotSize, ItemsRight, InOrder, Behind;
    DeclaredParts(|defs|, t);
    NothingInOrder(m, c);
    parts := [];
    var length := GetUint(m.bytes, q + 4, 4);
    if t.elem.Integer? {
      IntegerSize(t.elem);
      DivideBack(size - 8, SlotSize(t.elem));
      IntegersRead(m, defs, t.elem, if generic then length else (size - 8) / SlotSize(t.elem), q + 8, c);
    } else if !t.elem.PackedBool? {
      parts := GotItems(m, defs, t.elem, length, q + 8, c);
    }
  }

  lemma IntegerSize(t: Type)
    requires t.Integer?
    ensures SlotSize(t) == t.size
  {
  }

  lemma {:induction false} IntegersRead(m: Message, defs: Definitions, t: Type, n: nat, pos: nat, c: Mark)
    requires WellDefined(defs) && Declared(|defs|, t) && t.Integer?
    requires pos + n * SlotSize(t) <= |m.bytes| && c.memory <= |m.bytes|
    ensures var r := ReadItems(m, defs, t, n, pos, c);
            r.GotAll? && r.at == c && r.blocks == [] && r.handles == []
    decreases n
  {
    hide WellDefined, Declared, ReadItems, GetUint, Signed;
    if n == 0 {
      ReadNoItems(m, defs, t, pos, c);
    } else {
      ReadItemsLast(m, defs, t, n, pos, c);
      IntegersRead(m, defs, t, n - 1, pos, c);
    }
  }

  lemma {:induction false} GotItems(m: Message, defs: Definitions, t: Type, n: nat, pos: nat, c: Mark)
    returns (ps: seq<Part>)
    requires WellDefined(defs) && Declared(|defs|, t)
    requires pos + n * SlotSize(t) <= |m.bytes| && c.memory <= |m.bytes|
    requires ReadItems(m, defs, t, n, pos, c).GotAll?
    ensures |ps| == n && ItemsRight(m, defs, t, pos, ps) && InOrder(m, c, BlocksOf(ps), EntriesOf(ps))
    ensures AllClaimed(c, ReadItems(m, defs, t, n, pos, c), ps)
    decreases |m.bytes| - c.memory, 2, n
  {
    hide WellDefined, Declared, SlotSize, ReadSlot, ReadItems, Right, InOrder, Behind;
    if n == 0 {
      ps := [];
      ReadNoItems(m, defs, t, pos, c);
      NothingInOrder(m, c);
    } else {
      ReadItemsLast(m, defs, t, n, pos, c);
      var before := GotItems(m, defs, t, n - 1, pos, c);
      var a := ReadItems(m, defs, t, n - 1, pos, c);
      var last := GotSlot(m, defs, t, false, pos + (n - 1) * SlotSize(t), a.at);
      ps := before + [last];
      assert ps[..n - 1] == before;
      MoreParts(before, last);
      InOrderSplit(m, c, BlocksOf(before), EntriesOf(before), Blocks(last), Entries(last));
    }
  }

  lemma {:induction false} GotFields(m: Message, defs: Definitions, fs: seq<Group>, pos: nat, c: Mark)
    returns (ps: seq<Part>)
    requires WellDefined(defs) && DeclaredGroups(|defs|, fs) && AllAligned(fs)
    requires pos + End(fs) <= |m.bytes| && c.memory <= |m.bytes|
    requires ReadFields(m, defs, fs, pos, c).GotAll?
    ensures FieldsRight(m, defs, fs, pos, ps) && InOrder(m, c, BlocksOf(ps), EntriesOf(ps))
    ensures AllClaimed(c, ReadFields(m, defs, fs, pos, c), ps)
    decreases |m.bytes| - c.memory, 2, |fs|
  {
    hide WellDefined, DeclaredGroups, ReadFields, ReadSlot, GetByteSize, Aligned, AllAligned, End, Offset, Right,
      InOrder, Behind, UnpackBits, FlagValues, Declared;
    if fs == [] {
      ps := [];
      ReadNoFields(m, defs, pos, c);
      NothingInOrder(m, c);
    } else {
      var k := |fs| - 1;
      ReadFieldsLast(m, defs, fs, pos, c);
      var before := GotFields(m, defs, fs[..k], pos, c);
      var a := ReadFields(m, defs, fs[..k], pos, c);
      var last := Plain;
      NothingInOrder(m, a.at);
      if fs[k].SingleFieldGroup? {
        GroupSize(fs[k]);
        last := GotSlot(m, defs, fs[k].field.fieldType, false, pos + Offset(fs[..k], fs[k]), a.at);
      }
      ps := before + [last];
      assert ps[..k] == before;
      MoreParts(before, last);
      InOrderSplit(m, c, BlocksOf(before), EntriesOf(before), Blocks(last), Entries(last));
    }
  }

  lemma GroupSize(g: Group)
    requires g.SingleFieldGroup?
    ensures GetByteSize(g) == SlotSize(g.field.fieldType)
  {
  }

  // ---- and nothing else ----

  lemma RightHandle(m: Message, defs: Definitions, t: Type, generic: bool, pos: nat, c: Mark, p: Part)
    requires WellDefined(defs) && t.Handle? && pos + 4 <= |m.bytes| && c.memory <= |m.bytes|
    requires Right(m, defs, t, generic, pos, p) && InOrder(m, c, Blocks(p), Entries(p))
    ensures Claimed(c, ReadHandle(m, t.nullable, pos, c), p)
  {
    hide WellDefined, GetUint, Signed, InOrder, Behind;
    var u := GetUint(m.bytes, pos, 4);
    WordBelow(m, pos);
    SignMeaning(u);
    NothingInOrder(m, c);
    OneEntry(m, c, u);
  }

  /** Every right tree whose parts come in order is read. */
  lemma {:induction false} RightSlot(m: Message, defs: Definitions, t: Type, generic: bool, pos: nat, c: Mark, p: Part)
    requires WellDefined(defs) && Declared(|defs|, t)
    requires pos + SlotSize(t) <= |m.bytes| && c.memory <= |m.bytes|
    requires Right(m, defs, t, generic, pos, p) && InOrder(m, c, Blocks(p), Entries(p))
    ensures Claimed(c, ReadSlot(m, defs, t, generic, pos, c), p)
    ensures t.ArrayOf? ==> p.Nested?
    ensures ColumnRead(t, generic, ReadSlot(m, defs, t, generic, pos, c), p)
    decreases p, 0
  {
    hide WellDefined, Declared, GetUint, ReadBlock, Signed, ReadHandle, BlockRight, InOrder, Behind;
    NothingInOrder(m, c);
    NullMeaning(t);
    if t.Handle? {
      RightHandle(m, defs, t, generic, pos, c, p);
    } else if p.Nested? {
      RightBlock(m, defs, t, generic, c, p);
    }
  }

  lemma {:induction false} RightBlock(m: Message, defs: Definitions, t: Type, generic: bool, c: Mark, p: Part)
    requires WellDefined(defs) && IsPointer(t) && Declared(|defs|, t) && c.memory <= |m.bytes|
    requires p.Nested? && BlockRight(m, defs, t, generic, p) && InOrder(m, c, Blocks(p), Entries(p))
    ensures Claimed(c, ReadBlock(m, defs, t, generic, p.start, c), p)
    ensures ColumnRead(t, generic, ReadBlock(m, defs, t, generic, p.start, c), p)
    decreases p.parts, 4
  {
    hide WellDefined, Declared, GetUint, ReadContents, BlockRight, InOrder, Behind;
    var d := Mark(p.start + p.size, c.handle);
    OneBlock(m, c, p.start, p.size);
    InOrderSplit(m, c, [Extent(p.start, p.size)], [], BlocksOf(p.parts), EntriesOf(p.parts));
    assert [] + EntriesOf(p.parts) == EntriesOf(p.parts);
    RightHeader(m, defs, t, generic, p);
    RightContents(m, defs, t, generic, d, p);
  }

  lemma RightHeader(m: Message, defs: Definitions, t: Type, generic: bool, p: Part)
    requires WellDefined(defs) && p.Nested? && BlockRight(m, defs, t, generic, p)
    ensures HeaderRight(m, p)
  {
    hide WellDefined, HeaderRight, StructRight, MapRight, ArrayRight;
  }

  lemma {:induction false} RightContents(m: Message, defs: Definitions, t: Type, generic: bool, c: Mark, p: Part)
    requires WellDefined(defs) && IsPointer(t) && Declared(|defs|, t) && c.memory <= |m.bytes|
    requires p.Nested? && HeaderRight(m, p) && BlockRight(m, defs, t, generic, p)
    requires InOrder(m, c, BlocksOf(p.parts), EntriesOf(p.parts))
    ensures PartsClaimed(c, ReadContents(m, defs, t, generic, p.start, p.size, c), p.parts)
    ensures ColumnRead(t, generic, ReadContents(m, defs, t, generic, p.start, p.size, c), p)
    decreases p.parts, 3
  {
    hide WellDefined, Declared, GetUint, ReadObject, ReadMap, ReadArray, StructRight, MapRight, ArrayRight, InOrder,
      Behind;
    DeclaredParts(|defs|, t);
    NothingInOrder(m, c);
    if t.PointerTo? {
      RightObject(m, defs, t.cls, c, p);
    } else if t.MapOf? {
      RightMap(m, defs, t, c, p);
    } else if !t.String? {
      RightArray(m, defs, t, generic, c, p);
    }
  }

  lemma {:induction false} RightObject(m: Message, defs: Definitions, cls: nat, c: Mark, p: Part)
    requires WellDefined(defs) && cls < |defs| && c.memory <= |m.bytes|
    requires p.Nested? && HeaderRight(m, p) && StructRight(m, defs, cls, p)
    requires InOrder(m, c, BlocksOf(p.parts), EntriesOf(p.parts))
    ensures PartsClaimed(c, ReadObject(m, defs, cls, p.start, p.size, c), p.parts)
    decreases p.parts, 2
  {
    hide WellDefined, DeclaredGroups, AllAligned, NoneEmpty, GetUint, ReadFields, ReadingGroups, Object, FieldsRight,
      InOrder, Behind, StructSize, GetVersion, End;
    ReadingDeclared(defs, cls, p.word);
    RightFields(m, defs, ReadingGroups(defs[cls], p.word), p.start + 8, c, p.parts);
  }

  lemma {:induction false} RightMap(m: Message, defs: Definitions, t: Type, c: Mark, p: Part)
    requires WellDefined(defs) && t.MapOf? && Declared(|defs|, t) && c.memory <= |m.bytes|
    requires p.Nested? && HeaderRight(m, p) && MapRight(m, defs, t.key, t.value, p)
    requires InOrder(m, c, BlocksOf(p.parts), EntriesOf(p.parts))
    ensures PartsClaimed(c, ReadMap(m, defs, t, p.start, p.size, c), p.parts)
    decreases p.parts, 2
  {
    hide WellDefined, Declared, GetUint, ReadSlot, MakeDict, Right, InOrder, Behind;
    DeclaredParts(|defs|, t);
    var ks, vs := ArrayOf(t.key, 0), ArrayOf(t.value, 0);
    var k, v := p.parts[0], p.parts[1];
    assert p.parts == [k, v];
    PairOf(k, v);
    InOrderSplit(m, c, Blocks(k), Entries(k), Blocks(v), Entries(v));
    RightSlot(m, defs, ks, true, p.start + 8, c, k);
    var keys := ReadSlot(m, defs, ks, true, p.start + 8, c);
    RightSlot(m, defs, vs, true, p.start + 16, keys.at, v);
  }

  lemma {:induction false} RightArray(m: Message, defs: Definitions, t: Type, generic: bool, c: Mark, p: Part)
    requires WellDefined(defs) && IsArray(t) && Declared(|defs|, t) && c.memory <= |m.bytes|
    requires p.Nested? && HeaderRight(m, p) && ArrayRight(m, defs, t.elem, t.length, generic, p)
    requires InOrder(m, c, BlocksOf(p.parts), EntriesOf(p.parts))
    ensures PartsClaimed(c, ReadArray(m, defs, t, generic, p.start, p.size, c), p.parts)
    ensures ColumnRead(t, generic, ReadArray(m, defs, t, generic, p.start, p.size, c), p)
    decreases p.parts, 2
  {
    hide WellDefined, Declared, GetUint, ReadItems, UnpackBools, FlagValues, SlotSize, ItemsRight, InOrder, Behind;
    DeclaredParts(|defs|, t);
    NothingInOrder(m, c);
    if t.elem.Integer? {
      IntegerSize(t.elem);
      DivideBack(p.size - 8, SlotSize(t.elem));
      IntegersRead(m, defs, t.elem, if generic then p.word else (p.size - 8) / SlotSize(t.elem), p.start + 8, c);
    } else if !t.elem.PackedBool? {
      RightItems(m, defs, t.elem, p.start + 8, c, p.parts);
    }
  }

  lemma {:induction false} RightItems(m: Message, defs: Definitions, t: Type, pos: nat, c: Mark, ps: seq<Part>)
    requires WellDefined(defs) && Declared(|defs|, t)
    requires pos + |ps| * SlotSize(t) <= |m.bytes| && c.memory <= |m.bytes|
    requires ItemsRight(m, defs, t, pos, ps) && InOrder(m, c, BlocksOf(ps), EntriesOf(ps))
    ensures AllClaimed(c, ReadItems(m, defs, t, |ps|, pos, c), ps)
    decreases ps, 1
  {
    hide WellDefined, Declared, SlotSize, ReadSlot, ReadItems, Right, ItemsRight, InOrder, Behind, BlocksOf, EntriesOf,
      Blocks, Entries;
    NoParts();
    if ps == [] {
      ReadNoItems(m, defs, t, pos, c);
      NothingInOrder(m, c);
    } else {
      var k := |ps| - 1;
      var before, last := ps[..k], ps[k];
      assert ps == before + [last];
      MoreParts(before, last);
      InOrderSplit(m, c, BlocksOf(before), EntriesOf(before), Blocks(last), Entries(last));
      LastItemRight(m, defs, t, pos, ps);
      ReadItemsLast(m, defs, t, k + 1, pos, c);
      RightItems(m, defs, t, pos, c, before);
      RightSlot(m, defs, t, false, pos + k * SlotSize(t), ReadItems(m, defs, t, k, pos, c).at, last);
    }
  }

  lemma NoParts()
    ensures BlocksOf([]) == [] && EntriesOf([]) == []
  {
  }

  lemma LastItemRight(m: Message, defs: Definitions, t: Type, pos: nat, ps: seq<Part>)
    requires WellDefined(defs) && ItemsRight(m, defs, t, pos, ps) && ps != []
    ensures var k := |ps| - 1;
            ItemsRight(m, defs, t, pos, ps[..k]) && Right(m, defs, t, false, pos + k * SlotSize(t), ps[k])
  {
    hide WellDefined, Right, SlotSize;
  }

  lemma {:induction false} RightFields(m: Message, defs: Definitions, fs: seq<Group>, pos: nat, c: Mark, ps: seq<Part>)
    requires WellDefined(defs) && DeclaredGroups(|defs|, fs) && AllAligned(fs)
    requires pos + End(fs) <= |m.bytes| && c.memory <= |m.bytes|
    requires FieldsRight(m, defs, fs, pos, ps) && InOrder(m, c, BlocksOf(ps), EntriesOf(ps))
    ensures AllClaimed(c, ReadFields(m, defs, fs, pos, c), ps)
    decreases ps, 1
  {
    hide WellDefined, DeclaredGroups, ReadFields, ReadSlot, GetByteSize, Aligned, AllAligned, End, Offset, Right,
      InOrder, Behind, UnpackBits, FlagValues, Declared;
    if fs == [] {
      ReadNoFields(m, defs, pos, c);
      NothingInOrder(m, c);
    } else {
      var k := |fs| - 1;
      var before, last := ps[..k], ps[k];
      assert ps == before + [last];
      MoreParts(before, last);
      InOrderSplit(m, c, BlocksOf(before), EntriesOf(before), Blocks(last), Entries(last));
      ReadFieldsLast(m, defs, fs, pos, c);
      RightFields(m, defs, fs[..k], pos, c, before);
      var a := ReadFields(m, defs, fs[..k], pos, c);
      NothingInOrder(m, a.at);
      if fs[k].SingleFieldGroup? {
        GroupSize(fs[k]);
        RightSlot(m, defs, fs[k].field.fieldType, false, pos + Offset(fs[..k], fs[k]), a.at, last);
      }
    }
  }

  // ---- both ways ----

  /** On any bytes whatever, a slot is read without an exception if and only if what it leads to is right part by part and
      comes in order, behind the marks. */
  lemma SlotReadIff(m: Message, defs: Definitions, t: Type, generic: bool, pos: nat, c: Mark)
    requires WellDefined(defs) && Declared(|defs|, t)
    requires pos + SlotSize(t) <= |m.bytes| && c.memory <= |m.bytes|
    ensures ReadSlot(m, defs, t, generic, pos, c).Got?
       <==> exists p: Part :: Right(m, defs, t, generic, pos, p) && InOrder(m, c, Blocks(p), Entries(p))
  {
    hide WellDefined, Declared, ReadSlot, Right, InOrder, Blocks, Entries, SlotSize;
    if ReadSlot(m, defs, t, generic, pos, c).Got? {
      var p := GotSlot(m, defs, t, generic, pos, c);
    }
    if p: Part :| Right(m, defs, t, generic, pos, p) && InOrder(m, c, Blocks(p), Entries(p)) {
      RightSlot(m, defs, t, generic, pos, c, p);
    }
  }

  /** A message that starts with a struct is deserialized if and only if the struct, and what it leads to, is right and comes
      in order; then the claims made are those of its blocks and handles. */
  lemma RootReadIff(m: Message, defs: Definitions, cls: nat)
    requires WellDefined(defs) && cls < |defs|
    ensures ReadRoot(m, defs, cls).Got?
       <==> exists p: Part :: RootRight(m, defs, cls, p)
    ensures forall p: Part :: RootRight(m, defs, cls, p) ==>
              ReadRoot(m, defs, cls).blocks == Blocks(p) && ReadRoot(m, defs, cls).handles == Entries(p)
  {
    hide WellDefined, RootRight;
    if ReadRoot(m, defs, cls).Got? {
      var p := GotRoot(m, defs, cls);
    }
    forall p: Part | RootRight(m, defs, cls, p)
      ensures Claimed(Mark(0, 0), ReadRoot(m, defs, cls), p)
    {
      RightRoot(m, defs, cls, p);
    }
  }

  predicate RootRight(m: Message, defs: Definitions, cls: nat, p: Part)
    requires WellDefined(defs)
  {
    && p.Nested? && p.start == 0 && HeaderRight(m, p) && StructRight(m, defs, cls, p)
    && InOrder(m, Mark(0, 0), Blocks(p), Entries(p))
  }

  lemma GotRoot(m: Message, defs: Definitions, cls: nat) returns (p: Part)
    requires WellDefined(defs) && cls < |defs| && ReadRoot(m, defs, cls).Got?
    ensures RootRight(m, defs, cls, p) && Claimed(Mark(0, 0), ReadRoot(m, defs, cls), p)
  {
    hide WellDefined, ReadObject, StructRight, GetUint, InOrder, Behind;
    var size := GetUint(m.bytes, 0, 4);
    var parts := GotObject(m, defs, cls, 0, size, Mark(size, 0));
    p := Nested(0, size, GetUint(m.bytes, 4, 4), parts);
    OneBlock(m, Mark(0, 0), 0, size);
    InOrderSplit(m, Mark(0, 0), [Extent(0, size)], [], BlocksOf(parts), EntriesOf(parts));
    assert [] + EntriesOf(parts) == EntriesOf(parts);
  }

  lemma RightRoot(m: Message, defs: Definitions, cls: nat, p: Part)
    requires WellDefined(defs) && cls < |defs| && RootRight(m, defs, cls, p)
    ensures Claimed(Mark(0, 0), ReadRoot(m, defs, cls), p)
  {
    hide WellDefined, ReadObject, StructRight, GetUint, InOrder, Behind;
    OneBlock(m, Mark(0, 0), 0, p.size);
    InOrderSplit(m, Mark(0, 0), [Extent(0, p.size)], [], BlocksOf(p.parts), EntriesOf(p.parts));
    assert [] + EntriesOf(p.parts) == EntriesOf(p.parts);
    RightObject(m, defs, cls, Mark(p.size, 0), p);
  }

  // ---- where sizes count, and not lengths ----

  /** A string is all the bytes of its block, and a native array all the items in them, whatever the length in the header. */
  lemma SizeCounts(m: Message, defs: Definitions, t: Type, generic: bool, q: nat, c: Mark)
    requires WellDefined(defs) && IsPointer(t) && Declared(|defs|, t) && c.memory <= |m.bytes|
    requires ReadBlock(m, defs, t, generic, q, c).Got?
    ensures q + 8 <= |m.bytes| && 8 <= GetUint(m.bytes, q, 4) && q + GetUint(m.bytes, q, 4) <= |m.bytes|
    ensures var size, word, r := GetUint(m.bytes, q, 4), GetUint(m.bytes, q + 4, 4), ReadBlock(m, defs, t, generic, q, c);
            && (t.String? ==> r.value == Text(m.bytes[q + 8..q + size]))
            && (IsArray(t) ==> r.value.Seq?)
            && (IsArray(t) && t.elem.Integer? && t.elem.size > 0 && !generic ==>
                  |r.value.items| == (size - 8) / t.elem.size)
            && (IsArray(t) && (generic || !t.elem.Integer?) ==> |r.value.items| == word)
  {
    hide WellDefined, Declared, GetUint, ReadArray, ReadObject, ReadMap;
    DeclaredParts(|defs|, t);
    if IsArray(t) {
      var size := GetUint(m.bytes, q, 4);
      assert ReadBlock(m, defs, t, generic, q, c).value
          == ReadArray(m, defs, t, generic, q, size, Mark(q + size, c.handle)).value;
      ArrayCounts(m, defs, t, generic, q, size, Mark(q + size, c.handle));
    }
  }

  lemma ArrayCounts(m: Message, defs: Definitions, t: Type, generic: bool, q: nat, size: nat, c: Mark)
    requires WellDefined(defs) && IsArray(t) && Declared(|defs|, t)
    requires 8 <= size && q + size <= |m.bytes| && c.memory <= |m.bytes|
    requires ReadArray(m, defs, t, generic, q, size, c).Got?
    ensures var word, r := GetUint(m.bytes, q + 4, 4), ReadArray(m, defs, t, generic, q, size, c);
            && r.value.Seq?
            && (t.elem.Integer? && t.elem.size > 0 && !generic ==> |r.value.items| == (size - 8) / t.elem.size)
            && (generic || !t.elem.Integer? ==> |r.value.items| == word)
  {
    hide WellDefined, Declared, GetUint, ReadItems;
    DeclaredParts(|defs|, t);
    if t.elem.Integer? { IntegerSize(t.elem); }
  }
}
