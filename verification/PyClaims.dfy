/** On any bytes whatever, Python's deserialization claims each part of a message at most once, in ascending order. */
module PyClaims {
  import opened Bytes
  import opened Wire
  import opened Extents
  import opened PyGroups
  import opened PyValues
  import opened PyReading

  /** Only the distance to a block is checked for alignment; that is enough to keep every block aligned. */
  predicate AlignedBlocks(blocks: seq<Extent>) {
    forall i :: 0 <= i < |blocks| ==> blocks[i].start % 8 == 0 && 8 <= blocks[i].size
  }

  predicate ClaimedBetween(m: Message, c: Mark, blocks: seq<Extent>, handles: seq<Extent>, d: Mark) {
    && Chain(c.memory, blocks, d.memory) && AlignedBlocks(blocks)
    && Chain(c.handle, handles, d.handle) && (d.handle == c.handle || d.handle <= |m.handles|)
  }

  predicate Claims(m: Message, c: Mark, r: Read) {
    r.Got? ==> ClaimedBetween(m, c, r.blocks, r.handles, r.at)
  }

  predicate ClaimsAll(m: Message, c: Mark, r: Reads) {
    r.GotAll? ==> ClaimedBetween(m, c, r.blocks, r.handles, r.at)
  }

  lemma ClaimedNothing(m: Message, c: Mark)
    ensures ClaimedBetween(m, c, [], [], c)
  {
  }

  lemma ClaimedJoin(m: Message, c: Mark, bs: seq<Extent>, hs: seq<Extent>, d: Mark, bs': seq<Extent>, hs': seq<Extent>,
                    e: Mark)
    requires ClaimedBetween(m, c, bs, hs, d) && ClaimedBetween(m, d, bs', hs', e)
    ensures ClaimedBetween(m, c, bs + bs', hs + hs', e)
  {
    hide Chain;
    ChainAppend(c.memory, bs, d.memory, bs', e.memory);
    ChainAppend(c.handle, hs, d.handle, hs', e.handle);
  }

  lemma ClaimedBlock(m: Message, c: Mark, q: nat, size: nat)
    requires c.memory <= q && q % 8 == 0 && 8 <= size
    ensures ClaimedBetween(m, c, [Extent(q, size)], [], Mark(q + size, c.handle))
  {
    assert [Extent(q, size)][..0] == [];
  }

  lemma ClaimedEntry(m: Message, c: Mark, i: nat)
    requires c.handle <= i < |m.handles|
    ensures ClaimedBetween(m, c, [], [Extent(i, 1)], c.(handle := i + 1))
  {
    assert [Extent(i, 1)][..0] == [];
  }

  lemma ReadHandleClaims(m: Message, nullable: bool, pos: nat, c: Mark)
    requires pos + 4 <= |m.bytes|
    ensures Claims(m, c, ReadHandle(m, nullable, pos, c))
  {
    hide GetUint, Signed, ClaimedBetween;
    var i := Signed(GetUint(m.bytes, pos, 4), 4);
    ClaimedNothing(m, c);
    if c.handle <= i < |m.handles| { ClaimedEntry(m, c, i); }
  }

  lemma {:induction false} SlotClaims(m: Message, defs: Definitions, t: Type, generic: bool, pos: nat, c: Mark)
    requires WellDefined(defs) && Declared(|defs|, t)
    requires pos + SlotSize(t) <= |m.bytes| && c.memory <= |m.bytes|
    requires SlotSize(t) == 8 ==> pos % 8 == 0
    ensures Claims(m, c, ReadSlot(m, defs, t, generic, pos, c))
    decreases |m.bytes| - c.memory, 1, 0
  {
    hide WellDefined, Declared, ClaimedBetween, GetUint, ReadBlock, Signed, ReadHandle;
    ClaimedNothing(m, c);
    if t.Handle? {
      ReadHandleClaims(m, t.nullable, pos, c);
    } else if IsPointer(t) {
      var p := GetUint(m.bytes, pos, 8);
      if p != 0 && p % 8 == 0 {
        AddAligned(pos, p);
        BlockClaims(m, defs, t, generic, pos + p, c);
      }
    }
  }

  lemma {:induction false} BlockClaims(m: Message, defs: Definitions, t: Type, generic: bool, q: nat, c: Mark)
    requires WellDefined(defs) && IsPointer(t) && Declared(|defs|, t) && c.memory <= |m.bytes| && q % 8 == 0
    ensures Claims(m, c, ReadBlock(m, defs, t, generic, q, c))
    decreases |m.bytes| - c.memory, 0, 0
  {
    hide WellDefined, Declared, ClaimedBetween, GetUint, ReadContents;
    if |m.bytes| >= q + 8 {
      var size := GetUint(m.bytes, q, 4);
      if 8 <= size && q + size <= |m.bytes| && c.memory <= q {
        var d := Mark(q + size, c.handle);
        ContentsClaims(m, defs, t, generic, q, size, d);
        var r := ReadContents(m, defs, t, generic, q, size, d);
        if r.Got? {
          ClaimedBlock(m, c, q, size);
          ClaimedJoin(m, c, [Extent(q, size)], [], d, r.blocks, r.handles, r.at);
          assert [] + r.handles == r.handles;
        }
      }
    }
  }

  lemma {:induction false} ContentsClaims(m: Message, defs: Definitions, t: Type, generic: bool, q: nat, size: nat,
                                          c: Mark)
    requires WellDefined(defs) && IsPointer(t) && Declared(|defs|, t) && q % 8 == 0
    requires 8 <= size && q + size <= |m.bytes| && c.memory <= |m.bytes|
    ensures Claims(m, c, ReadContents(m, defs, t, generic, q, size, c))
    decreases |m.bytes| - c.memory, 4, 0
  {
    hide WellDefined, Declared, ClaimedBetween, GetUint, ReadObject, ReadMap, ReadItems, ReadSlot, UnpackBools,
      FlagValues, SlotSize;
    DeclaredParts(|defs|, t);
    ClaimedNothing(m, c);
    AddAligned(q, 8);
    if t.PointerTo? {
      ObjectClaims(m, defs, t.cls, q, size, c);
    } else if t.MapOf? {
      MapClaims(m, defs, t, q, size, c);
    } else if IsArray(t) {
      ArrayClaims(m, defs, t, generic, q, size, c);
    }
  }

  lemma {:induction false} ObjectClaims(m: Message, defs: Definitions, cls: nat, q: nat, size: nat, c: Mark)
    requires WellDefined(defs) && cls < |defs| && q % 8 == 0
    requires 8 <= size && q + size <= |m.bytes| && c.memory <= |m.bytes|
    ensures Claims(m, c, ReadObject(m, defs, cls, q, size, c))
    decreases |m.bytes| - c.memory, 3, 0
  {
    hide WellDefined, DeclaredGroups, AllAligned, NoneEmpty, ClaimedBetween, GetUint, ReadFields, ReadingGroups, Object;
    var version := GetUint(m.bytes, q + 4, 4);
    ReadingDeclared(defs, cls, version);
    var fs := ReadingGroups(defs[cls], version);
    AddAligned(q, 8);
    if 8 + StructSize(fs) <= size { FieldsClaim(m, defs, fs, q + 8, c); }
  }

  lemma {:induction false} MapClaims(m: Message, defs: Definitions, t: Type, q: nat, size: nat, c: Mark)
    requires WellDefined(defs) && t.MapOf? && Declared(|defs|, t) && q % 8 == 0
    requires 8 <= size && q + size <= |m.bytes| && c.memory <= |m.bytes|
    ensures Claims(m, c, ReadMap(m, defs, t, q, size, c))
    decreases |m.bytes| - c.memory, 3, 0
  {
    hide WellDefined, Declared, ClaimedBetween, GetUint, ReadSlot, SeenMap;
    DeclaredParts(|defs|, t);
    AddAligned(q, 8);
    AddAligned(q, 16);
    if 24 <= size {
      SlotClaims(m, defs, ArrayOf(t.key, 0), true, q + 8, c);
      var keys := ReadSlot(m, defs, ArrayOf(t.key, 0), true, q + 8, c);
      if keys.Got? {
        SlotClaims(m, defs, ArrayOf(t.value, 0), true, q + 16, keys.at);
        var values := ReadSlot(m, defs, ArrayOf(t.value, 0), true, q + 16, keys.at);
        if values.Got? {
          ClaimedJoin(m, c, keys.blocks, keys.handles, keys.at, values.blocks, values.handles, values.at);
        }
      }
    }
  }

  lemma {:induction false} ArrayClaims(m: Message, defs: Definitions, t: Type, generic: bool, q: nat, size: nat, c: Mark)
    requires WellDefined(defs) && IsArray(t) && Declared(|defs|, t) && q % 8 == 0
    requires 8 <= size && q + size <= |m.bytes| && c.memory <= |m.bytes|
    ensures Claims(m, c, ReadArray(m, defs, t, generic, q, size, c))
    decreases |m.bytes| - c.memory, 3, 0
  {
    hide WellDefined, Declared, ClaimedBetween, GetUint, ReadItems, UnpackBools, FlagValues, SlotSize;
    DeclaredParts(|defs|, t);
    ClaimedNothing(m, c);
    var length := GetUint(m.bytes, q + 4, 4);
    if !t.elem.PackedBool? {
      var native := t.elem.Integer? && !generic;
      if 8 + length * SlotSize(t.elem) <= size && !(native && (SlotSize(t.elem) == 0 || (size - 8) % SlotSize(t.elem) != 0)) {
        var n := if native then (size - 8) / SlotSize(t.elem) else length;
        DivideBack(size - 8, SlotSize(t.elem));
        AddAligned(q, 8);
        ItemsClaim(m, defs, t.elem, n, q + 8, c);
      }
    }
  }

  lemma {:induction false} ItemsClaim(m: Message, defs: Definitions, t: Type, n: nat, pos: nat, c: Mark)
    requires WellDefined(defs) && Declared(|defs|, t) && pos % 8 == 0
    requires pos + n * SlotSize(t) <= |m.bytes| && c.memory <= |m.bytes|
    ensures ClaimsAll(m, c, ReadItems(m, defs, t, n, pos, c))
    decreases |m.bytes| - c.memory, 2, n
  {
    hide WellDefined, Declared, ClaimedBetween, SlotSize, ReadSlot, ReadItems, Joined;
    if n == 0 {
      ReadNoItems(m, defs, t, pos, c);
      ClaimedNothing(m, c);
    } else {
      ReadItemsLast(m, defs, t, n, pos, c);
      ItemsClaim(m, defs, t, n - 1, pos, c);
      var a := ReadItems(m, defs, t, n - 1, pos, c);
      if a.GotAll? {
        ItemAligned(t, n - 1, pos);
        SlotClaims(m, defs, t, false, pos + (n - 1) * SlotSize(t), a.at);
        JoinedClaims(m, c, a, ReadSlot(m, defs, t, false, pos + (n - 1) * SlotSize(t), a.at));
      }
    }
  }

  lemma ItemAligned(t: Type, i: nat, pos: nat)
    requires pos % 8 == 0
    ensures SlotSize(t) == 8 ==> (pos + i * SlotSize(t)) % 8 == 0
  {
  }

  lemma JoinedClaims(m: Message, c: Mark, a: Reads, b: Read)
    requires a.GotAll? && ClaimsAll(m, c, a) && Claims(m, a.at, b)
    ensures ClaimsAll(m, c, Joined(a, b))
  {
    hide ClaimedBetween;
    if b.Got? { ClaimedJoin(m, c, a.blocks, a.handles, a.at, b.blocks, b.handles, b.at); }
  }

  lemma {:induction false} FieldsClaim(m: Message, defs: Definitions, fs: seq<Group>, pos: nat, c: Mark)
    requires WellDefined(defs) && DeclaredGroups(|defs|, fs) && AllAligned(fs) && pos % 8 == 0
    requires pos + End(fs) <= |m.bytes| && c.memory <= |m.bytes|
    ensures ClaimsAll(m, c, ReadFields(m, defs, fs, pos, c))
    decreases |m.bytes| - c.memory, 2, |fs|
  {
    hide WellDefined, DeclaredGroups, DeclaredGroup, ClaimedBetween, ReadFields, ReadGroup, GetByteSize, Aligned,
      AllAligned, End, Offset;
    if fs == [] {
      ReadNoFields(m, defs, pos, c);
      ClaimedNothing(m, c);
    } else {
      var k := |fs| - 1;
      ReadFieldsLast(m, defs, fs, pos, c);
      FieldsClaim(m, defs, fs[..k], pos, c);
      var a := ReadFields(m, defs, fs[..k], pos, c);
      if a.GotAll? {
        GroupOffsetAligned(fs[..k], fs[k], pos);
        GroupClaims(m, defs, fs[k], pos + Offset(fs[..k], fs[k]), c, a);
      }
    }
  }

  lemma GroupOffsetAligned(gs: seq<Group>, g: Group, pos: nat)
    requires AllAligned(gs) && Aligned(g) && pos % 8 == 0
    ensures GetByteSize(g) == 8 ==> (pos + Offset(gs, g)) % 8 == 0
  {
    hide AllAligned, SlotSize, Slot, Offset;
    AddAligned(pos, Offset(gs, g));
  }

  lemma {:induction false} GroupClaims(m: Message, defs: Definitions, g: Group, pos: nat, c: Mark, a: Reads)
    requires WellDefined(defs) && DeclaredGroup(|defs|, g) && a.GotAll? && ClaimsAll(m, c, a)
    requires pos + GetByteSize(g) <= |m.bytes| && a.at.memory <= |m.bytes|
    requires GetByteSize(g) == 8 ==> pos % 8 == 0
    ensures ClaimsAll(m, c, ReadGroup(m, defs, g, pos, a))
    decreases |m.bytes| - a.at.memory, 1, 1
  {
    hide WellDefined, Declared, ClaimedBetween, ReadSlot, UnpackBits;
    if g.SingleFieldGroup? {
      SlotClaims(m, defs, g.field.fieldType, false, pos, a.at);
      JoinedClaims(m, c, a, ReadSlot(m, defs, g.field.fieldType, false, pos, a.at));
    }
  }

  /** Whatever the message: if a struct is deserialized from it, the ranges claimed are in bounds, aligned, ascending
      and pairwise disjoint, and no handle is taken twice. */
  lemma RootClaims(m: Message, defs: Definitions, cls: nat)
    requires WellDefined(defs) && cls < |defs| && ReadRoot(m, defs, cls).Got?
    ensures var r := ReadRoot(m, defs, cls);
            && (forall i :: 0 <= i < |r.blocks| ==>
                  && r.blocks[i].start % 8 == 0 && r.blocks[i].start + r.blocks[i].size <= |m.bytes|)
            && (forall i, j :: 0 <= i < j < |r.blocks| ==> r.blocks[i].start + r.blocks[i].size <= r.blocks[j].start)
            && (forall i :: 0 <= i < |r.handles| ==> r.handles[i].start + r.handles[i].size <= |m.handles|)
            && (forall i, j :: 0 <= i < j < |r.handles| ==> r.handles[i].start + r.handles[i].size <= r.handles[j].start)
  {
    hide WellDefined, ReadObject, GetUint, Chain;
    var size := GetUint(m.bytes, 0, 4);
    ObjectClaims(m, defs, cls, 0, size, Mark(size, 0));
    var r := ReadRoot(m, defs, cls);
    var o := ReadObject(m, defs, cls, 0, size, Mark(size, 0));
    ClaimedBlock(m, Mark(0, 0), 0, size);
    ClaimedJoin(m, Mark(0, 0), [Extent(0, size)], [], Mark(size, 0), o.blocks, o.handles, o.at);
    assert [] + o.handles == o.handles;
    ChainDisjoint(0, r.blocks, r.at.memory);
    ChainDisjoint(0, r.handles, r.at.handle);
  }
}
