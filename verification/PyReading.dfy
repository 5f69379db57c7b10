/** What Python's deserialization makes of a message. */
module PyReading {
  import opened Bytes
  import opened Wire
  import opened Extents
  import opened PyGroups
  import opened PyValues

  /** The marks of a deserialization context: the next memory and the next handle that may be claimed. */
  datatype Mark = Mark(memory: nat, handle: nat)

  /** Raised stands for an exception; otherwise a value, with the claims made on the way, in order. */
  datatype Read = Raised | Got(value: Value, at: Mark, blocks: seq<Extent>, handles: seq<Extent>)
  datatype Reads = AllRaised | GotAll(values: seq<Value>, stray: bool, at: Mark, blocks: seq<Extent>, handles: seq<Extent>)

  /** The element type of a declared array or map is itself declared. */
  lemma DeclaredParts(n: nat, t: Type)
    requires Declared(n, t)
    ensures IsArray(t) && !t.elem.PackedBool? ==> Declared(n, t.elem)
    ensures t.MapOf? ==> Declared(n, ArrayOf(t.key, 0)) && Declared(n, ArrayOf(t.value, 0))
    ensures t.PointerTo? ==> t.cls < n
  {
    if IsArray(t) {
      assert WellFormedElement(Classes(n), t.elem);
      assert IsPlain(t.elem);
    } else if t.MapOf? {
      assert WellFormedElement(Classes(n), t.key) && WellFormedElement(Classes(n), t.value);
    }
  }

  lemma DeclaredLast(n: nat, gs: seq<Group>)
    requires DeclaredGroups(n, gs) && gs != []
    ensures DeclaredGroups(n, gs[..|gs| - 1]) && DeclaredGroup(n, gs[|gs| - 1])
  {
    hide DeclaredGroup;
  }

  lemma {:induction false} DeclaredFiltered(n: nat, gs: seq<Group>, version: nat)
    requires DeclaredGroups(n, gs) && NoneEmpty(gs)
    ensures DeclaredGroups(n, FilterGroups(gs, version))
  {
    hide DeclaredGroup, Filter, GetMinVersion, NotEmpty;
    if gs != [] {
      var k := |gs| - 1;
      DeclaredFiltered(n, gs[..k], version);
      DeclaredKept(n, gs[k], version);
      var f := FilterGroups(gs[..k], version);
      assert (f + [Filter(gs[k], version)])[..|f|] == f && f + [] == f;
    }
  }

  lemma DeclaredKept(n: nat, g: Group, version: nat)
    requires DeclaredGroup(n, g)
    ensures NotEmpty(g) && (GetMinVersion(g) <= version ==> DeclaredGroup(n, Filter(g, version)))
  {
    hide Declared;
    KeptNotEmpty(g, version);
    if g.BooleanGroup? { FilterFieldsFewer(g.descriptors, version); }
  }

  lemma {:induction false} FilterFieldsFewer(fs: seq<Field>, version: nat)
    ensures |FilterFields(fs, version)| <= |fs|
  {
    if fs != [] { FilterFieldsFewer(fs[..|fs| - 1], version); }
  }

  /** The groups a reader uses are declared like all of its groups. */
  lemma ReadingDeclared(defs: Definitions, cls: nat, version: nat)
    requires WellDefined(defs) && cls < |defs|
    ensures NoneEmpty(defs[cls])
    ensures var fs := ReadingGroups(defs[cls], version); DeclaredGroups(|defs|, fs) && AllAligned(fs)
  {
    DeclaredFiltered(|defs|, defs[cls], version);
    FilterGroupsAligned(defs[cls], version);
  }

  function ReadHandle(m: Message, nullable: bool, pos: nat, c: Mark): (r: Read)
    requires pos + 4 <= |m.bytes|
  {
    var i := Signed(GetUint(m.bytes, pos, 4), 4);
    if i == -1 then if nullable then Got(Null, c, [], []) else Raised
    else if i < c.handle || |m.handles| <= i then Raised
    else Got(m.handles[i], c.(handle := i + 1), [], [Extent(i, 1)])
  }

  /** `generic` marks the arrays that hold a map's keys and values: they are unpacked item by item. */
  function ReadSlot(m: Message, defs: Definitions, t: Type, generic: bool, pos: nat, c: Mark): (r: Read)
    requires WellDefined(defs) && Declared(|defs|, t)
    requires pos + SlotSize(t) <= |m.bytes| && c.memory <= |m.bytes|
    ensures r.Got? ==> c.memory <= r.at.memory <= |m.bytes|
    decreases |m.bytes| - c.memory, 1, 0
  {
    hide WellDefined, Declared;
    if t.Integer? then
      var n := GetUint(m.bytes, pos, t.size);
      Got(Number(if t.signed then Signed(n, t.size) else n), c, [], [])
    else if t.Handle? then ReadHandle(m, t.nullable, pos, c)
    else if !IsPointer(t) then Raised
    else
      var p := GetUint(m.bytes, pos, 8);
      if p == 0 then if Nullable(t) then Got(Null, c, [], []) else Raised
      else if p % 8 != 0 then Raised
      else ReadBlock(m, defs, t, generic, pos + p, c)
  }

  function ReadBlock(m: Message, defs: Definitions, t: Type, generic: bool, q: nat, c: Mark): (r: Read)
    requires WellDefined(defs) && IsPointer(t) && Declared(|defs|, t) && c.memory <= |m.bytes|
    ensures r.Got? ==> c.memory <= r.at.memory <= |m.bytes|
    decreases |m.bytes| - c.memory, 0, 0
  {
    hide WellDefined, Declared;
    if |m.bytes| < q + 8 then Raised
    else
      var size := GetUint(m.bytes, q, 4);
      if size < 8 || |m.bytes| < q + size || q < c.memory then Raised
      else
        var r := ReadContents(m, defs, t, generic, q, size, Mark(q + size, c.handle));
        if r.Raised? then Raised else r.(blocks := [Extent(q, size)] + r.blocks)
  }

  function ReadContents(m: Message, defs: Definitions, t: Type, generic: bool, q: nat, size: nat, c: Mark): (r: Read)
    requires WellDefined(defs) && IsPointer(t) && Declared(|defs|, t)
    requires 8 <= size && q + size <= |m.bytes| && c.memory <= |m.bytes|
    ensures r.Got? ==> c.memory <= r.at.memory <= |m.bytes|
    decreases |m.bytes| - c.memory, 4, 0
  {
    hide WellDefined, Declared;
    DeclaredParts(|defs|, t);
    if t.String? then Got(Text(m.bytes[q + 8..q + size]), c, [], [])
    else if t.PointerTo? then ReadObject(m, defs, t.cls, q, size, c)
    else if t.MapOf? then ReadMap(m, defs, t, q, size, c)
    else ReadArray(m, defs, t, generic, q, size, c)
  }

  function ReadObject(m: Message, defs: Definitions, cls: nat, q: nat, size: nat, c: Mark): (r: Read)
    requires WellDefined(defs) && cls < |defs|
    requires 8 <= size && q + size <= |m.bytes| && c.memory <= |m.bytes|
    ensures r.Got? ==> c.memory <= r.at.memory <= |m.bytes|
    decreases |m.bytes| - c.memory, 3, 0
  {
    ReadingDeclared(defs, cls, GetUint(m.bytes, q + 4, 4));
    hide WellDefined, DeclaredGroups, AllAligned, NoneEmpty;
    var version := GetUint(m.bytes, q + 4, 4);
    var fs := ReadingGroups(defs[cls], version);
    if (version <= GetVersion(defs[cls]) && size != 8 + StructSize(fs)) || size < 8 + StructSize(fs) then Raised
    else
      var r := ReadFields(m, defs, fs, q + 8, c);
      if r.AllRaised? then Raised else Got(Object(fs, r.values, r.stray), r.at, r.blocks, r.handles)
  }

  function ReadMap(m: Message, defs: Definitions, t: Type, q: nat, size: nat, c: Mark): (r: Read)
    requires WellDefined(defs) && t.MapOf? && Declared(|defs|, t)
    requires 8 <= size && q + size <= |m.bytes| && c.memory <= |m.bytes|
    ensures r.Got? ==> c.memory <= r.at.memory <= |m.bytes|
    decreases |m.bytes| - c.memory, 3, 0
  {
    hide WellDefined, Declared;
    DeclaredParts(|defs|, t);
    var version := GetUint(m.bytes, q + 4, 4);
    if (version == 0 && size != 24) || size < 24 then Raised
    else
      var keys := ReadSlot(m, defs, ArrayOf(t.key, 0), true, q + 8, c);
      if keys.Raised? then Raised
      else
        var values := ReadSlot(m, defs, ArrayOf(t.value, 0), true, q + 16, keys.at);
        if values.Raised? then Raised
        else
          var dict := SeenMap(keys.value, values.value);
          if dict.None? then Raised
          else Got(dict.value, values.at, keys.blocks + values.blocks, keys.handles + values.handles)
  }

  /** An array of integers is taken from all the bytes of its block, whatever length the header gives. */
  function ReadArray(m: Message, defs: Definitions, t: Type, generic: bool, q: nat, size: nat, c: Mark): (r: Read)
    requires WellDefined(defs) && IsArray(t) && Declared(|defs|, t)
    requires 8 <= size && q + size <= |m.bytes| && c.memory <= |m.bytes|
    ensures r.Got? ==> c.memory <= r.at.memory <= |m.bytes|
    decreases |m.bytes| - c.memory, 3, 0
  {
    hide WellDefined, Declared;
    DeclaredParts(|defs|, t);
    var length := GetUint(m.bytes, q + 4, 4);
    var needed := if t.elem.PackedBool? then (length + 7) / 8 else length * SlotSize(t.elem);
    if (t.length != 0 && length != t.length) || size < 8 + needed then Raised
    else if t.elem.PackedBool? then Got(Seq(FlagValues(UnpackBools(m.bytes[q + 8..q + size], length))), c, [], [])
    else
      var native := t.elem.Integer? && !generic;
      if native && (SlotSize(t.elem) == 0 || (size - 8) % SlotSize(t.elem) != 0) then Raised
      else
        var n := if native then (size - 8) / SlotSize(t.elem) else length;
        DivideBack(size - 8, SlotSize(t.elem));
        var r := ReadItems(m, defs, t.elem, n, q + 8, c);
        if r.AllRaised? then Raised else Got(Seq(r.values), r.at, r.blocks, r.handles)
  }

  lemma DivideBack(n: nat, k: nat)
    ensures k > 0 && n % k == 0 ==> n / k * k == n
  {
  }

  function ReadItems(m: Message, defs: Definitions, t: Type, n: nat, pos: nat, c: Mark): (r: Reads)
    requires WellDefined(defs) && Declared(|defs|, t)
    requires pos + n * SlotSize(t) <= |m.bytes| && c.memory <= |m.bytes|
    ensures r.GotAll? ==> c.memory <= r.at.memory <= |m.bytes| && |r.values| == n
    decreases |m.bytes| - c.memory, 2, n
  {
    hide WellDefined, Declared, SlotSize;
    if n == 0 then GotAll([], false, c, [], [])
    else
      OneMore(n, SlotSize(t));
      var a := ReadItems(m, defs, t, n - 1, pos, c);
      if a.AllRaised? then AllRaised
      else Joined(a, ReadSlot(m, defs, t, false, pos + (n - 1) * SlotSize(t), a.at))
  }

  function Joined(a: Reads, b: Read): (r: Reads)
    requires a.GotAll?
    ensures r.GotAll? ==> b.Got? && r.at == b.at && |r.values| == |a.values| + 1
  {
    if b.Raised? then AllRaised
    else GotAll(a.values + [b.value], a.stray, b.at, a.blocks + b.blocks, a.handles + b.handles)
  }

  function ReadFields(m: Message, defs: Definitions, fs: seq<Group>, pos: nat, c: Mark): (r: Reads)
    requires WellDefined(defs) && DeclaredGroups(|defs|, fs) && AllAligned(fs)
    requires pos + End(fs) <= |m.bytes| && c.memory <= |m.bytes|
    ensures r.GotAll? ==> c.memory <= r.at.memory <= |m.bytes| && |r.values| == |fs|
    decreases |m.bytes| - c.memory, 2, |fs|
  {
    hide WellDefined, Declared, NeededPaddingForAlignment, SlotSize, UnpackBits;
    if fs == [] then GotAll([], false, c, [], [])
    else
      var k := |fs| - 1;
      var a := ReadFields(m, defs, fs[..k], pos, c);
      if a.AllRaised? then AllRaised
      else ReadGroup(m, defs, fs[k], pos + Offset(fs[..k], fs[k]), a)
  }

  lemma ReadFieldsLast(m: Message, defs: Definitions, fs: seq<Group>, pos: nat, c: Mark)
    requires WellDefined(defs) && DeclaredGroups(|defs|, fs) && AllAligned(fs) && fs != []
    requires pos + End(fs) <= |m.bytes| && c.memory <= |m.bytes|
    ensures var k := |fs| - 1;
            && DeclaredGroups(|defs|, fs[..k]) && DeclaredGroup(|defs|, fs[k]) && AllAligned(fs[..k]) && Aligned(fs[k])
            && End(fs[..k]) <= Offset(fs[..k], fs[k]) && Offset(fs[..k], fs[k]) + GetByteSize(fs[k]) == End(fs)
            && ReadFields(m, defs, fs, pos, c) ==
               var a := ReadFields(m, defs, fs[..k], pos, c);
               if a.AllRaised? then AllRaised else ReadGroup(m, defs, fs[k], pos + Offset(fs[..k], fs[k]), a)
  {
    hide WellDefined, DeclaredGroup, GetByteSize, Aligned, AllAligned, ReadGroup, Offset, End;
    EndLast(fs);
  }

  lemma ReadNoFields(m: Message, defs: Definitions, pos: nat, c: Mark)
    requires WellDefined(defs) && pos <= |m.bytes| && c.memory <= |m.bytes|
    ensures DeclaredGroups(|defs|, []) && AllAligned([]) && End([]) == 0
    ensures ReadFields(m, defs, [], pos, c) == GotAll([], false, c, [], [])
  {
    hide WellDefined;
  }

  lemma ReadNoItems(m: Message, defs: Definitions, t: Type, pos: nat, c: Mark)
    requires WellDefined(defs) && Declared(|defs|, t) && pos <= |m.bytes| && c.memory <= |m.bytes|
    ensures ReadItems(m, defs, t, 0, pos, c) == GotAll([], false, c, [], [])
  {
    hide WellDefined, Declared;
  }

  lemma ReadItemsLast(m: Message, defs: Definitions, t: Type, n: nat, pos: nat, c: Mark)
    requires WellDefined(defs) && Declared(|defs|, t) && n > 0
    requires pos + n * SlotSize(t) <= |m.bytes| && c.memory <= |m.bytes|
    ensures (n - 1) * SlotSize(t) + SlotSize(t) == n * SlotSize(t)
    ensures ReadItems(m, defs, t, n, pos, c) ==
            var a := ReadItems(m, defs, t, n - 1, pos, c);
            if a.AllRaised? then AllRaised
            else Joined(a, ReadSlot(m, defs, t, false, pos + (n - 1) * SlotSize(t), a.at))
  {
    hide WellDefined, Declared, SlotSize, ReadSlot, Joined;
    OneMore(n, SlotSize(t));
  }

  function ReadGroup(m: Message, defs: Definitions, g: Group, pos: nat, a: Reads): (r: Reads)
    requires WellDefined(defs) && DeclaredGroup(|defs|, g) && a.GotAll?
    requires pos + GetByteSize(g) <= |m.bytes| && a.at.memory <= |m.bytes|
    ensures r.GotAll? ==> a.at.memory <= r.at.memory <= |m.bytes| && |r.values| == |a.values| + 1
    decreases |m.bytes| - a.at.memory, 1, 1
  {
    hide WellDefined, Declared, UnpackBits;
    if g.BooleanGroup? then
      var n := |g.descriptors|;
      a.(values := a.values + [Record(FlagValues(UnpackBits(m.bytes[pos], n)))],
         stray := a.stray || Pow2(n) <= m.bytes[pos])
    else Joined(a, ReadSlot(m, defs, g.field.fieldType, false, pos, a.at))
  }

  /** Deserializing a struct that begins the message. */
  function ReadRoot(m: Message, defs: Definitions, cls: nat): (r: Read)
    requires WellDefined(defs) && cls < |defs|
  {
    hide WellDefined;
    if |m.bytes| < 8 then Raised
    else
      var size := GetUint(m.bytes, 0, 4);
      if size < 8 || |m.bytes| < size then Raised
      else
        var r := ReadObject(m, defs, cls, 0, size, Mark(size, 0));
        if r.Raised? then Raised else r.(blocks := [Extent(0, size)] + r.blocks)
  }
}
