/** Python's Deserialize methods: each does what the specification of reading says. */
module PyDeserializer {
  import opened Bytes
  import opened Wire
  import opened PyGroups
  import opened PyValues
  import opened PyReading
  import opened PySerialization
  import opened PyContexts
  import opened PyRoundTrip
  import opened PyVersions
  import opened PySerializer
  import opened Dictionaries

  datatype Result = Exception | Returned(value: Value)

  predicate Gives(r: Result, read: Read, at: Mark) {
    (r.Returned? <==> read.Got?) && (read.Got? ==> r.value == read.value && at == read.at)
  }

  predicate GivesAll(ok: bool, values: seq<Value>, read: Reads, at: Mark) {
    (ok <==> read.GotAll?) && (read.GotAll? ==> values == read.values && at == read.at)
  }

  /** Reading a struct where its header has not been looked at yet. */
  function ReadStruct(m: Message, defs: Definitions, cls: nat, q: nat, initial: bool, c: Mark): Read
    requires WellDefined(defs) && cls < |defs| && c.memory <= |m.bytes|
  {
    if |m.bytes| < q + 8 then Raised
    else
      var size := GetUint(m.bytes, q, 4);
      if size < 8 || |m.bytes| < q + size || (initial && q < c.memory) then Raised
      else ReadObject(m, defs, cls, q, size, if initial then Mark(q + size, c.handle) else c)
  }

  method DeserializeValue(registry: seq<Serialization>, ghost defs: Definitions, t: Type, generic: bool, value: int,
                          context: Context)
    returns (r: Result)
    requires WellDefined(defs) && Serves(registry, defs) && Declared(|defs|, t)
    requires context.offset + SlotSize(t) <= |context.root.data|
    requires value == RawValue(context.root.data, t, context.offset)
    requires context.root.nextMemory <= |context.root.data|
    modifies context.root, registry
    ensures Serves(registry, defs)
    ensures Gives(r, ReadSlot(context.root.Contents(), defs, t, generic, context.offset, old(context.root.At())),
                  context.root.At())
    decreases |context.root.data| - context.root.nextMemory, 1, 0
  {
    hide WellDefined, Serves, WellFormed, IsPlain, GetUint, Signed, ReadBlock;
    DeclaredKind(|defs|, t);
    if t.Integer? {
      return Returned(Number(value));
    } else if t.Handle? {
      if value == -1 { return if t.nullable then Returned(Null) else Exception; }
      var ok, handle := context.root.ClaimHandle(value);
      return if ok then Returned(handle) else Exception;
    } else {
      if value == 0 { return if Nullable(t) then Returned(Null) else Exception; }
      if value % 8 != 0 { return Exception; }
      r := DeserializePointer(registry, defs, t, generic, context.GetSubContext(value));
    }
  }

  method DeserializePointer(registry: seq<Serialization>, ghost defs: Definitions, t: Type, generic: bool,
                            subContext: Context)
    returns (r: Result)
    requires WellDefined(defs) && Serves(registry, defs) && Declared(|defs|, t) && IsPointer(t)
    requires subContext.root.nextMemory <= |subContext.root.data| && !subContext.initial
    modifies subContext.root, registry
    ensures Serves(registry, defs)
    ensures Gives(r, ReadBlock(subContext.root.Contents(), defs, t, generic, subContext.offset, old(subContext.root.At())),
                  subContext.root.At())
    decreases |subContext.root.data| - subContext.root.nextMemory, 0, 0
  {
    hide WellDefined, Serves, Declared, GetUint, ReadContents;
    var root, q := subContext.root, subContext.offset;
    if subContext.Length() < 8 { return Exception; }
    var size, nbElements := GetUint(root.data, q, 4), GetUint(root.data, q + 4, 4);
    if subContext.Length() < size || size < 8 { return Exception; }
    var ok := root.ClaimMemory(q, size);
    if !ok { return Exception; }
    r := DeserializeContents(registry, defs, t, generic, size, nbElements, subContext);
  }

  method DeserializeContents(registry: seq<Serialization>, ghost defs: Definitions, t: Type, generic: bool,
                             size: nat, nbElements: nat, context: Context)
    returns (r: Result)
    requires WellDefined(defs) && Serves(registry, defs) && Declared(|defs|, t) && IsPointer(t)
    requires 8 <= size && context.offset + size <= |context.root.data| && !context.initial
    requires GetUint(context.root.data, context.offset, 4) == size
    requires GetUint(context.root.data, context.offset + 4, 4) == nbElements
    requires context.root.nextMemory <= |context.root.data|
    modifies context.root, registry
    ensures Serves(registry, defs)
    ensures Gives(r, ReadContents(context.root.Contents(), defs, t, generic, context.offset, size, old(context.root.At())),
                  context.root.At())
    decreases |context.root.data| - context.root.nextMemory, 6, 0
  {
    hide WellDefined, Serves, Declared, GetUint, ReadObject, ReadMap, ReadArray;
    DeclaredParts(|defs|, t);
    if t.String? {
      return Returned(Text(context.root.data[context.offset + 8..context.offset + size]));
    } else if t.PointerTo? {
      RegistrySize(registry, defs);
      r := DeserializeStruct(registry, defs, t.cls, context);
    } else if t.MapOf? {
      r := DeserializeMap(registry, defs, t, size, context);
    } else {
      r := DeserializeArray(registry, defs, t, generic, size, nbElements, context);
    }
  }

  lemma RegistrySize(registry: seq<Serialization>, defs: Definitions)
    requires Serves(registry, defs)
    ensures |registry| == |defs|
  {
  }

  // ---- structs ----

  /** Serialization.Deserialize: only a struct that begins the message claims its own memory. */
  method DeserializeStruct(registry: seq<Serialization>, ghost defs: Definitions, cls: nat, context: Context)
    returns (r: Result)
    requires WellDefined(defs) && Serves(registry, defs) && cls < |registry| && cls < |defs|
    requires context.root.nextMemory <= |context.root.data|
    modifies context.root, registry
    ensures Serves(registry, defs)
    ensures Gives(r, ReadStruct(context.root.Contents(), defs, cls, context.offset, context.initial, old(context.root.At())),
                  context.root.At())
    decreases |context.root.data| - context.root.nextMemory, 5, 0
  {
    hide WellDefined, Serves, GetUint, ReadObject;
    var root, q := context.root, context.offset;
    if context.Length() < 8 { return Exception; }
    var size := GetUint(root.data, q, 4);
    if context.Length() < size || size < 8 { return Exception; }
    if context.initial {
      var ok := root.ClaimMemory(q, size);
      if !ok { return Exception; }
    }
    r := DeserializeObject(registry, defs, cls, size, context);
  }

  method DeserializeObject(registry: seq<Serialization>, ghost defs: Definitions, cls: nat, size: nat, context: Context)
    returns (r: Result)
    requires WellDefined(defs) && Serves(registry, defs) && cls < |registry| && cls < |defs|
    requires 8 <= size && context.offset + size <= |context.root.data|
    requires context.root.nextMemory <= |context.root.data|
    modifies context.root, registry
    ensures Serves(registry, defs)
    ensures Gives(r, ReadObject(context.root.Contents(), defs, cls, context.offset, size, old(context.root.At())),
                  context.root.At())
    decreases |context.root.data| - context.root.nextMemory, 4, 0
  {
    hide WellDefined, Serves, Declared, DeclaredGroups, GetUint, ReadFields, ReadingGroups, StructSize, StructCodes,
      AllAligned, NoneEmpty, GetVersion, Object, SlotsSize, Unpack, NoPadding, FilterGroups, RawValue, Aligned, Offset,
      GetByteSize, End;
    var root, q := context.root, context.offset;
    var version := GetUint(root.data, q + 4, 4);
    ReadingDeclared(defs, cls, version);
    var versionStruct, filteredGroups := VersionOf(registry, defs, cls, version);
    if context.Length() < 8 + SlotsSize(versionStruct) { return Exception; }
    FieldsUnpacked(root.data, |defs|, filteredGroups, q + 8, |filteredGroups|);
    var entities := Unpack(root.data, versionStruct, q + 8);
    SelfVersion(registry, defs, cls);
    var self := registry[cls];
    if (version <= self.version && size != SlotsSize(versionStruct) + 8) || size < SlotsSize(versionStruct) + 8 {
      return Exception;
    }
    var ok, values, stray := DeserializeFields(registry, defs, filteredGroups, entities, context);
    return if ok then Returned(Object(filteredGroups, values, stray)) else Exception;
  }

  /** The format and the groups of a struct that carries this version, from the caches of its class. */
  method VersionOf(registry: seq<Serialization>, ghost defs: Definitions, cls: nat, version: nat)
    returns (codes: seq<Type>, gs: seq<Group>)
    requires Serves(registry, defs) && cls < |registry| && cls < |defs| && NoneEmpty(defs[cls])
    modifies registry
    ensures Serves(registry, defs)
    ensures gs == ReadingGroups(defs[cls], version)
    ensures AllAligned(gs) && codes == StructCodes(gs) && SlotsSize(codes) == StructSize(gs)
  {
    hide ReadingGroups, NoneEmpty, AllAligned, StructCodes, StructSize, SlotsSize, Serialization.Valid;
    assert registry[cls].Valid();
    codes := registry[cls].GetStruct(version);
    gs := registry[cls].GetGroups(version);
  }

  lemma SelfVersion(registry: seq<Serialization>, defs: Definitions, cls: nat)
    requires Serves(registry, defs) && cls < |registry| && cls < |defs|
    ensures registry[cls].version == GetVersion(defs[cls])
  {
    hide GetVersion, NoneEmpty, AllAligned, StructSize, ReadingGroups, IsStructOf;
    assert registry[cls].Valid();
  }

  lemma FieldsUnpacked(bytes: seq<byte>, n: nat, gs: seq<Group>, pos: nat, i: nat)
    requires DeclaredGroups(n, gs) && AllAligned(gs) && pos + StructSize(gs) <= |bytes|
    ensures SlotsSize(StructCodes(gs)) == StructSize(gs) && |Unpack(bytes, StructCodes(gs), pos)| == |gs|
    ensures i < |gs| ==>
              && AllAligned(gs[..i]) && Aligned(gs[i]) && pos + Offset(gs[..i], gs[i]) + GetByteSize(gs[i]) <= |bytes|
              && Unpack(bytes, StructCodes(gs), pos)[i] == RawValue(bytes, Slot(gs[i]), pos + Offset(gs[..i], gs[i]))
  {
    hide Unpack, RawValue, SlotsSize, Slot, AllAligned, Aligned, Offset, GetByteSize, StructCodes, StructSize,
      DeclaredGroups;
    forall k | 0 <= k < |gs| ensures !Slot(gs[k]).Padding? { GroupDeclared(n, gs, k); }
    UnpackedStruct(bytes, gs, pos, i);
  }

  lemma {:induction false} FieldsPrefix(n: nat, gs: seq<Group>, i: nat)
    requires DeclaredGroups(n, gs) && AllAligned(gs) && i <= |gs|
    ensures DeclaredGroups(n, gs[..i]) && AllAligned(gs[..i]) && End(gs[..i]) <= End(gs)
    decreases |gs|
  {
    hide DeclaredGroup, Aligned, AllAligned, Offset, End, GetByteSize;
    assert gs[..|gs|] == gs;
    if i < |gs| {
      EndLast(gs);
      FieldsPrefix(n, gs[..|gs| - 1], i);
      assert gs[..|gs| - 1][..i] == gs[..i];
    }
  }

  /** What the first i groups of a struct give. */
  function FieldsUpTo(m: Message, defs: Definitions, fs: seq<Group>, i: nat, pos: nat, c: Mark): (r: Reads)
    requires WellDefined(defs) && DeclaredGroups(|defs|, fs) && AllAligned(fs) && i <= |fs|
    requires pos + End(fs) <= |m.bytes| && c.memory <= |m.bytes|
    ensures r.GotAll? ==> c.memory <= r.at.memory <= |m.bytes|
  {
    FieldsPrefix(|defs|, fs, i);
    ReadFields(m, defs, fs[..i], pos, c)
  }

  lemma NextGroup(m: Message, defs: Definitions, fs: seq<Group>, i: nat, pos: nat, c: Mark)
    requires WellDefined(defs) && DeclaredGroups(|defs|, fs) && AllAligned(fs) && i < |fs|
    requires pos + End(fs) <= |m.bytes| && c.memory <= |m.bytes|
    ensures DeclaredGroup(|defs|, fs[i]) && AllAligned(fs[..i]) && Aligned(fs[i])
    ensures pos + Offset(fs[..i], fs[i]) + GetByteSize(fs[i]) <= |m.bytes| && AllAligned(fs[..i + 1])
    ensures End(fs[..i + 1]) == Offset(fs[..i], fs[i]) + GetByteSize(fs[i])
    ensures FieldsUpTo(m, defs, fs, i + 1, pos, c) ==
            var a := FieldsUpTo(m, defs, fs, i, pos, c);
            if a.AllRaised? then AllRaised else ReadGroup(m, defs, fs[i], pos + Offset(fs[..i], fs[i]), a)
  {
    hide WellDefined, DeclaredGroups, DeclaredGroup, AllAligned, Aligned, Offset, End, GetByteSize, ReadGroup,
      ReadFields;
    FieldsPrefix(|defs|, fs, i + 1);
    ReadFieldsLast(m, defs, fs[..i + 1], pos, c);
    assert fs[..i + 1][..i] == fs[..i] && fs[..i + 1][i] == fs[i];
  }

  lemma FieldsUpToEnds(m: Message, defs: Definitions, fs: seq<Group>, pos: nat, c: Mark)
    requires WellDefined(defs) && DeclaredGroups(|defs|, fs) && AllAligned(fs)
    requires pos + End(fs) <= |m.bytes| && c.memory <= |m.bytes|
    ensures FieldsUpTo(m, defs, fs, 0, pos, c) == GotAll([], false, c, [], []) && End(fs[..0]) == 0
    ensures FieldsUpTo(m, defs, fs, |fs|, pos, c) == ReadFields(m, defs, fs, pos, c)
  {
    hide WellDefined, DeclaredGroup, Aligned, Offset, ReadFields;
    ReadNoFields(m, defs, pos, c);
    assert fs[..0] == [] && fs[..|fs|] == fs;
  }

  /** Once reading has failed it stays failed. */
  lemma {:induction false} FieldFails(m: Message, defs: Definitions, fs: seq<Group>, i: nat, pos: nat, c: Mark)
    requires WellDefined(defs) && DeclaredGroups(|defs|, fs) && AllAligned(fs) && i <= |fs|
    requires pos + End(fs) <= |m.bytes| && c.memory <= |m.bytes|
    requires FieldsUpTo(m, defs, fs, i, pos, c).AllRaised?
    ensures ReadFields(m, defs, fs, pos, c).AllRaised?
    decreases |fs| - i
  {
    hide WellDefined, DeclaredGroups, DeclaredGroup, AllAligned, Aligned, Offset, End, ReadFields, ReadGroup,
      FieldsUpTo;
    if i == |fs| {
      FieldsUpToEnds(m, defs, fs, pos, c);
    } else {
      NextGroup(m, defs, fs, i, pos, c);
      FieldFails(m, defs, fs, i + 1, pos, c);
    }
  }

  ghost predicate FieldsGot(m: Message, defs: Definitions, fs: seq<Group>, i: nat, pos: nat, c: Mark,
                            values: seq<Value>, stray: bool, at: Mark)
    requires WellDefined(defs) && DeclaredGroups(|defs|, fs) && AllAligned(fs) && i <= |fs|
    requires pos + End(fs) <= |m.bytes| && c.memory <= |m.bytes|
  {
    var r := FieldsUpTo(m, defs, fs, i, pos, c);
    r.GotAll? && values == r.values && stray == r.stray && at == r.at
  }

  /** The deserializing loop, which counts its own positions. */
  method DeserializeFields(registry: seq<Serialization>, ghost defs: Definitions, fs: seq<Group>, entities: seq<int>,
                           context: Context)
    returns (ok: bool, values: seq<Value>, stray: bool)
    requires WellDefined(defs) && Serves(registry, defs) && DeclaredGroups(|defs|, fs) && AllAligned(fs)
    requires context.offset + 8 + StructSize(fs) <= |context.root.data|
    requires SlotsSize(StructCodes(fs)) == StructSize(fs)
    requires entities == Unpack(context.root.data, StructCodes(fs), context.offset + 8)
    requires context.root.nextMemory <= |context.root.data|
    modifies context.root, registry
    ensures Serves(registry, defs)
    ensures var r := ReadFields(context.root.Contents(), defs, fs, context.offset + 8, old(context.root.At()));
            (ok <==> r.GotAll?) && (ok ==> values == r.values && stray == r.stray && context.root.At() == r.at)
    decreases |context.root.data| - context.root.nextMemory, 3, 0
  {
    hide WellDefined, Serves, Declared, DeclaredGroups, ReadFields, StructSize, StructCodes, AllAligned, Aligned,
      SlotsSize, Unpack, FieldsUpTo, NeededPaddingForAlignment, End, Offset, GetByteSize, RawValue, Pow2, UnpackBits,
      ReadSlot;
    ghost var m, pos, c := context.root.Contents(), context.offset + 8, context.root.At();
    StructEnd(fs);
    values, stray := [], false;
    var position: nat := 8;
    FieldsUpToEnds(m, defs, fs, pos, c);
    for i := 0 to |fs|
      invariant Serves(registry, defs) && AllAligned(fs[..i]) && position == 8 + End(fs[..i])
      invariant FieldsGot(m, defs, fs, i, pos, c, values, stray, context.root.At())
    {
      var group := fs[i];
      NextGroup(m, defs, fs, i, pos, c);
      FieldsUnpacked(context.root.data, |defs|, fs, pos, i);
      AlignmentPositive(group);
      NextPosition(fs[..i], group);
      position := position + NeededPaddingForAlignment(position, GetAlignment(group));
      var value := entities[i];
      SizeOfSlot(group);
      if group.BooleanGroup? {
        RawByte(context.root.data, group, context.offset + position);
        var flags, more := DeserializeBooleans(|group.descriptors|, value);
        values := values + [Record(FlagValues(flags))];
        stray := stray || more;
      } else {
        var r := DeserializeValue(registry, defs, group.field.fieldType, false, value, context.GetSubContext(position));
        if r.Exception? {
          FieldFails(m, defs, fs, i + 1, pos, c);
          return false, [], false;
        }
        values := values + [r.value];
      }
      position := position + GetByteSize(group);
    }
    return true, values, stray;
  }

  lemma StructEnd(fs: seq<Group>)
    requires AllAligned(fs)
    ensures End(fs) <= StructSize(fs) && AllAligned(fs[..0])
  {
  }

  lemma NextPosition(gs: seq<Group>, g: Group)
    requires AllAligned(gs) && Aligned(g)
    ensures GetAlignment(g) > 0
    ensures 8 + End(gs) + NeededPaddingForAlignment(8 + End(gs), GetAlignment(g)) == 8 + Offset(gs, g)
  {
    hide NeededPaddingForAlignment, End, AllAligned;
    PositionsAgree(End(gs), GetAlignment(g));
  }

  lemma RawByte(bytes: seq<byte>, g: Group, pos: nat)
    requires g.BooleanGroup? && pos + GetByteSize(g) <= |bytes|
    ensures GetByteSize(g) == 1 && RawValue(bytes, Slot(g), pos) == bytes[pos]
  {
    assert bytes[pos..pos + 1] == [bytes[pos]];
    assert FromLE([bytes[pos]]) == bytes[pos] + 256 * FromLE([bytes[pos]][1..]);
  }

  /** One flag for each of n names; bits beyond them have no name. */
  method DeserializeBooleans(n: nat, value: nat) returns (flags: seq<bool>, stray: bool)
    ensures flags == UnpackBits(value, n) && (stray <==> Pow2(n) <= value)
  {
    hide Bit, Pow2;
    var bits := ConvertByteToBooleans(value, 0);
    flags := [];
    for i := 0 to n
      invariant |flags| == i && forall k :: 0 <= k < i ==> flags[k] == Bit(value, k)
    {
      if i < |bits| {
        flags := flags + [bits[i]];
      } else {
        BitOfSmall(value, |bits|, i);
        flags := flags + [false];
      }
    }
    stray := n < |bits|;
    if n < |bits| { Pow2Monotone(n, |bits| - 1); } else { Pow2Monotone(|bits|, n); }
  }

  // ---- maps ----

  method DeserializeMap(registry: seq<Serialization>, ghost defs: Definitions, t: Type, size: nat, context: Context)
    returns (r: Result)
    requires WellDefined(defs) && Serves(registry, defs) && t.MapOf? && Declared(|defs|, t)
    requires 8 <= size && context.offset + size <= |context.root.data|
    requires context.root.nextMemory <= |context.root.data|
    modifies context.root, registry
    ensures Serves(registry, defs)
    ensures Gives(r, ReadMap(context.root.Contents(), defs, t, context.offset, size, old(context.root.At())),
                  context.root.At())
    decreases |context.root.data| - context.root.nextMemory, 4, 0
  {
    hide WellDefined, Serves, Declared, GetUint, ReadSlot, RawValue, SetAll;
    DeclaredParts(|defs|, t);
    var root, q := context.root, context.offset;
    var version := GetUint(root.data, q + 4, 4);
    if (version == 0 && size != 24) || size < 24 { return Exception; }
    var keysValue, valuesValue := RawValue(root.data, ArrayOf(t.key, 0), q + 8), RawValue(root.data, ArrayOf(t.value, 0), q + 16);
    var keys := DeserializeValue(registry, defs, ArrayOf(t.key, 0), true, keysValue, context.GetSubContext(8));
    if keys.Exception? { return Exception; }
    var values := DeserializeValue(registry, defs, ArrayOf(t.value, 0), true, valuesValue, context.GetSubContext(16));
    if values.Exception? { return Exception; }
    if !keys.value.Seq? || !values.value.Seq? || |keys.value.items| != |values.value.items| { return Exception; }
    return Returned(MakeDict(keys.value.items, values.value.items));
  }

  // ---- arrays ----

  method DeserializeArray(registry: seq<Serialization>, ghost defs: Definitions, t: Type, generic: bool,
                          size: nat, nbElements: nat, context: Context)
    returns (r: Result)
    requires WellDefined(defs) && Serves(registry, defs) && IsArray(t) && Declared(|defs|, t)
    requires 8 <= size && context.offset + size <= |context.root.data|
    requires GetUint(context.root.data, context.offset + 4, 4) == nbElements
    requires context.root.nextMemory <= |context.root.data|
    modifies context.root, registry
    ensures Serves(registry, defs)
    ensures Gives(r, ReadArray(context.root.Contents(), defs, t, generic, context.offset, size, old(context.root.At())),
                  context.root.At())
    decreases |context.root.data| - context.root.nextMemory, 4, 0
  {
    hide WellDefined, Serves, Declared, GetUint, ReadItems, RawValue, SlotSize, UnpackBools, FlagValues, NativeItems;
    DeclaredParts(|defs|, t);
    var root, start := context.root, context.offset + 8;
    if t.length != 0 && nbElements != t.length { return Exception; }
    if size < 8 + SizeForLength(t.elem, nbElements) { return Exception; }
    if t.elem.PackedBool? {
      var elements := DeserializeBoolArray(root.data[start..context.offset + size], nbElements);
      return Returned(Seq(FlagValues(elements)));
    } else if t.elem.Integer? && !generic {
      ElementSize(|defs|, t.elem);
      NativeArrayRead(root.Contents(), defs, t.elem, size - 8, start, root.At());
      if (size - 8) % SlotSize(t.elem) != 0 { return Exception; }
      return Returned(Seq(NativeItems(root.data, t.elem, (size - 8) / SlotSize(t.elem), start)));
    }
    var ok, items := DeserializeItems(registry, defs, t.elem, nbElements, context.GetSubContext(8));
    return if ok then Returned(Seq(items)) else Exception;
  }

  lemma NativeArrayRead(m: Message, defs: Definitions, t: Type, room: nat, pos: nat, c: Mark)
    requires WellDefined(defs) && Declared(|defs|, t) && t.Integer? && SlotSize(t) > 0 && pos + room <= |m.bytes|
    requires c.memory <= |m.bytes|
    ensures room % SlotSize(t) == 0 ==>
              var n := room / SlotSize(t);
              && pos + n * SlotSize(t) <= |m.bytes|
              && ReadItems(m, defs, t, n, pos, c) == GotAll(NativeItems(m.bytes, t, n, pos), false, c, [], [])
  {
    hide WellDefined, Declared, ReadItems, NativeItems, SlotSize;
    DivideBack(room, SlotSize(t));
    if room % SlotSize(t) == 0 { NativeItemsRead(m, defs, t, room / SlotSize(t), pos, c); }
  }

  function SizeForLength(elem: Type, n: nat): nat {
    if elem.PackedBool? then (n + 7) / 8 else n * SlotSize(elem)
  }

  /** The booleans of all the bytes, eight from each, cut off at the length. */
  method DeserializeBoolArray(converted: seq<byte>, n: nat) returns (elements: seq<bool>)
    requires n <= 8 * |converted|
    ensures elements == UnpackBools(converted, n)
  {
    hide Bit, Pow2;
    elements := [];
    for j := 0 to |converted|
      invariant elements == UnpackBools(converted, 8 * j)
    {
      var bits := ConvertByteToBooleans(converted[j], 8);
      EightBits(converted[j], |bits|);
      elements := elements + bits;
    }
    elements := elements[..n];
  }

  lemma EightBits(b: byte, n: nat)
    requires 8 <= n && (8 < n ==> Pow2(n - 1) <= b)
    ensures n == 8
  {
    assert Pow2(8) == 256;
    if 8 < n { Pow2Monotone(8, n - 1); }
  }

  /** The integers in the memory of a native array. */
  function NativeItems(bytes: seq<byte>, t: Type, n: nat, pos: nat): seq<Value>
    requires pos + n * SlotSize(t) <= |bytes|
  {
    hide SlotSize;
    if n == 0 then []
    else
      OneMore(n, SlotSize(t));
      NativeItems(bytes, t, n - 1, pos) + [Number(RawValue(bytes, t, pos + (n - 1) * SlotSize(t)))]
  }

  lemma {:induction false} NativeItemsRead(m: Message, defs: Definitions, t: Type, n: nat, pos: nat, c: Mark)
    requires WellDefined(defs) && Declared(|defs|, t) && t.Integer? && pos + n * SlotSize(t) <= |m.bytes|
    requires c.memory <= |m.bytes|
    ensures ReadItems(m, defs, t, n, pos, c) == GotAll(NativeItems(m.bytes, t, n, pos), false, c, [], [])
  {
    hide WellDefined, Declared, GetUint, Signed, ReadItems, Joined;
    if n == 0 {
      ReadNoItems(m, defs, t, pos, c);
    } else {
      OneMore(n, SlotSize(t));
      ReadItemsLast(m, defs, t, n, pos, c);
      NativeItemsRead(m, defs, t, n - 1, pos, c);
      JoinInteger(GotAll(NativeItems(m.bytes, t, n - 1, pos), false, c, [], []),
                  Number(RawValue(m.bytes, t, pos + (n - 1) * SlotSize(t))));
    }
  }

  lemma JoinInteger(a: Reads, v: Value)
    requires a.GotAll? && a.blocks == [] && a.handles == []
    ensures Joined(a, Got(v, a.at, [], [])) == a.(values := a.values + [v])
  {
  }

  lemma {:induction false} ItemFails(m: Message, defs: Definitions, t: Type, i: nat, n: nat, pos: nat, c: Mark)
    requires WellDefined(defs) && Declared(|defs|, t) && i <= n && pos + n * SlotSize(t) <= |m.bytes|
    requires c.memory <= |m.bytes| && pos + i * SlotSize(t) <= |m.bytes|
    requires ReadItems(m, defs, t, i, pos, c).AllRaised?
    ensures ReadItems(m, defs, t, n, pos, c).AllRaised?
    decreases n - i
  {
    hide WellDefined, Declared, SlotSize, ReadItems, ReadSlot, Joined;
    if i < n {
      OneMore(n, SlotSize(t));
      ReadItemsLast(m, defs, t, n, pos, c);
      ItemFails(m, defs, t, i, n - 1, pos, c);
    }
  }

  method DeserializeItems(registry: seq<Serialization>, ghost defs: Definitions, t: Type, n: nat, context: Context)
    returns (ok: bool, result: seq<Value>)
    requires WellDefined(defs) && Serves(registry, defs) && Declared(|defs|, t)
    requires context.offset + n * SlotSize(t) <= |context.root.data|
    requires context.root.nextMemory <= |context.root.data|
    modifies context.root, registry
    ensures Serves(registry, defs)
    ensures GivesAll(ok, result, ReadItems(context.root.Contents(), defs, t, n, context.offset, old(context.root.At())),
                     context.root.At())
    decreases |context.root.data| - context.root.nextMemory, 3, 0
  {
    hide WellDefined, Serves, Declared, ReadItems, ReadSlot, RawValue, SlotSize, Unpack, Repeat, SlotsSize;
    ghost var m, pos, c := context.root.Contents(), context.offset, context.root.At();
    DeclaredKind(|defs|, t);
    UnpackedItems(context.root.data, t, n, pos, n);
    var values := Unpack(context.root.data, Repeat(t, n), context.offset);
    result := [];
    var subContext := context;
    ReadNoItems(m, defs, t, pos, c);
    for i := 0 to n
      invariant Serves(registry, defs) && subContext.root == context.root && |result| == i
      invariant subContext.offset == pos + i * SlotSize(t) && pos + i * SlotSize(t) <= |m.bytes|
      invariant GivesAll(true, result, ReadItems(m, defs, t, i, pos, c), context.root.At())
    {
      UnpackedItems(context.root.data, t, n, pos, i);
      OneMore(i + 1, SlotSize(t));
      ReadItemsLast(m, defs, t, i + 1, pos, c);
      var r := DeserializeValue(registry, defs, t, false, values[i], subContext);
      if r.Exception? {
        ItemFails(m, defs, t, i + 1, n, pos, c);
        return false, [];
      }
      result := result + [r.value];
      subContext := subContext.GetSubContext(SlotSize(t));
    }
    ok := true;
  }

  // ---- there and back ----

  /** Deserializing from the initial context is reading the struct that begins the message. */
  lemma InitialIsRoot(m: Message, defs: Definitions, cls: nat)
    requires WellDefined(defs) && cls < |defs|
    ensures var a, b := ReadStruct(m, defs, cls, 0, true, Mark(0, 0)), ReadRoot(m, defs, cls);
            (a.Got? <==> b.Got?) && (a.Got? ==> a.value == b.value && a.at == b.at)
  {
    hide WellDefined, ReadObject, GetUint;
  }

  /** Serializes a struct and deserializes the result with the classes it was written with. */
  method SerializeDeserialize(registry: seq<Serialization>, ghost defs: Definitions, cls: nat, v: Value)
    returns (ok: bool, r: Result)
    requires WellDefined(defs) && Serves(registry, defs) && cls < |defs| && !v.Null?
    requires IsPresent(Lowered(defs), PointerTo(cls, false), Lower(defs, PointerTo(cls, false), v))
    requires var m := Serialized(PYTHON, defs, cls, v); |m.bytes| < TWO32 && 2 * |m.handles| < TWO32
    modifies registry
    ensures Serves(registry, defs)
    ensures ok <==> Accepted(defs, PointerTo(cls, false), v)
    ensures ok ==> r == Returned(v)
  {
    hide WellDefined, Serves, Lowered, Lower, Shaped, Seen, ReadObject, ReadRoot, ReadStruct, EncodeBody, Block,
      BlockSize, BlockWord;
    r := Exception;
    var data, handles;
    ok, data, handles := SerializeObject(registry, defs, PointerTo(cls, false), v, 0);
    if !ok { return; }
    ghost var m := Serialized(PYTHON, defs, cls, v);
    StructRoundTrip(defs, cls, v, m);
    InitialIsRoot(m, defs, cls);
    RegistrySize(registry, defs);
    var root := new RootDeserializationContext(data, handles);
    r := DeserializeStruct(registry, defs, cls, Context(root, 0, true));
  }
}
