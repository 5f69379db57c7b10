/** Python's serialization as it is written: nested blocks are appended to a byte array while the entries of the block
    that points to them are collected, to be packed at the end. */
module PySerialization {
  import opened Bytes
  import opened Wire
  import opened PyGroups
  import opened Options
  import opened PyValues
  import opened PyRoundTrip
  import opened PyVersions

  class ByteArray {
    var bytes: seq<byte>

    constructor (size: nat)
      ensures bytes == Zeros(size)
    {
      bytes := Zeros(size);
    }

    method Extend(s: seq<byte>)
      modifies this
      ensures bytes == old(bytes) + s
    {
      bytes := bytes + s;
    }

    method PackInto(offset: nat, s: seq<byte>)
      requires offset + |s| <= |bytes|
      modifies this
      ensures bytes == Put(old(bytes), offset, s)
    {
      bytes := bytes[..offset] + s + bytes[offset + |s|..];
    }
  }

  /** Packs one number a code; padding takes none. */
  function Pack(codes: seq<Type>, entries: seq<int>): (s: seq<byte>) {
    if codes == [] then []
    else
      var k := |codes| - 1;
      if codes[k].Padding? then Pack(codes[..k], entries) + Zeros(codes[k].size)
      else if entries == [] then []
      else Pack(codes[..k], entries[..|entries| - 1]) + ToLE(entries[|entries| - 1], SlotSize(codes[k]))
  }

  lemma PackPad(codes: seq<Type>, n: nat, entries: seq<int>)
    ensures Pack(codes + Pad(n), entries) == Pack(codes, entries) + Zeros(n)
  {
    if n == 0 {
      assert codes + [] == codes && Pack(codes, entries) + Zeros(0) == Pack(codes, entries);
    } else {
      assert (codes + [Padding(n)])[..|codes|] == codes;
    }
  }

  lemma PackMore(codes: seq<Type>, t: Type, entries: seq<int>, entry: int)
    requires !t.Padding?
    ensures Pack(codes + [t], entries + [entry]) == Pack(codes, entries) + ToLE(entry, SlotSize(t))
  {
    hide SlotSize, ToLE;
    assert (codes + [t])[..|codes|] == codes && (entries + [entry])[..|entries|] == entries;
  }

  lemma PackNothing()
    ensures Pack([], []) == []
  {
  }

  /** What serializing gives: the number to put in the slot and the handles to send, or an exception. */
  datatype Result = Refused | Entry(entry: int, handles: seq<Value>)

  function Output(defs: Definitions, t: Type, v: Value, dataOffset: int, handleOffset: nat): Out
    requires WellDefined(defs) && Fits(defs, t, v)
  {
    Encode(PYTHON, Lowered(defs), t, Lower(defs, t, v), dataOffset, handleOffset)
  }

  predicate Accepted(defs: Definitions, t: Type, v: Value)
    requires WellDefined(defs)
  {
    Seen(PYTHON, defs, Own(defs), t, v).Some?
  }

  /** Serializing raises exactly when the value is not one a reader of the same version could see; otherwise it appends
      and returns what the wire format asks for. */
  predicate Serializes(defs: Definitions, t: Type, v: Value, dataOffset: int, handleOffset: nat,
                       before: seq<byte>, after: seq<byte>, r: Result)
    requires WellDefined(defs) && Fits(defs, t, v)
  {
    var o := Output(defs, t, v, dataOffset, handleOffset);
    && (r.Entry? <==> Accepted(defs, t, v))
    && (r.Entry? ==> ToLE(r.entry, SlotSize(t)) == o.slots && after == before + o.tail && r.handles == o.handles)
  }

  // ---- the caches of a struct class ----

  class Serialization {
    const groups: seq<Group>
    const version: nat
    const size: nat
    var groupsPerVersion: map<nat, seq<Group>>
    var structPerVersion: map<nat, seq<Type>>

    ghost predicate Valid()
      reads this
    {
      && NoneEmpty(groups) && AllAligned(groups)
      && version == GetVersion(groups) && size == 8 + StructSize(groups)
      && version in groupsPerVersion && version in structPerVersion
      && (forall v :: v in groupsPerVersion ==> v <= version && groupsPerVersion[v] == ReadingGroups(groups, v))
      && (forall v :: v in structPerVersion ==> v <= version && IsStructOf(structPerVersion[v], ReadingGroups(groups, v)))
    }

    constructor (groups: seq<Group>)
      requires NoneEmpty(groups) && AllAligned(groups)
      ensures Valid() && this.groups == groups
    {
      hide StructCodes, StructSize;
      var mainStruct := PyGroups.GetStruct(groups);
      this.groups := groups;
      version := GetVersion(groups);
      size := 8 + SlotsSize(mainStruct);
      groupsPerVersion := map[GetVersion(groups) := groups];
      structPerVersion := map[GetVersion(groups) := mainStruct];
    }

    method GetGroups(asked: nat) returns (gs: seq<Group>)
      requires Valid()
      modifies this`groupsPerVersion
      ensures Valid() && gs == ReadingGroups(groups, asked)
    {
      hide FilterGroups, NoneEmpty, AllAligned, StructSize, IsStructOf;
      // A later version than its own has no groups of its own.
      var known := if asked < version then asked else version;
      if known !in groupsPerVersion {
        groupsPerVersion := groupsPerVersion[known := FilterGroups(groups, known)];
      }
      return groupsPerVersion[known];
    }

    method GetStruct(asked: nat) returns (codes: seq<Type>)
      requires Valid()
      modifies this
      ensures Valid() && IsStructOf(codes, ReadingGroups(groups, asked))
    {
      hide FilterGroups, NoneEmpty, AllAligned, StructSize, StructCodes, SlotsSize;
      var known := if asked < version then asked else version;
      if known !in structPerVersion {
        var gs := GetGroups(known);
        FilterGroupsAligned(groups, known);
        var made := PyGroups.GetStruct(gs);
        structPerVersion := structPerVersion[known := made];
      }
      return structPerVersion[known];
    }
  }

  predicate IsStructOf(codes: seq<Type>, gs: seq<Group>) {
    AllAligned(gs) && codes == StructCodes(gs) && SlotsSize(codes) == StructSize(gs)
  }

  /** The serialization objects of all struct classes. */
  ghost predicate Serves(registry: seq<Serialization>, defs: Definitions)
    reads registry
  {
    |registry| == |defs| && forall k :: 0 <= k < |defs| ==> registry[k].Valid() && registry[k].groups == defs[k]
  }

  // ---- packing booleans and numbers ----

  method ConvertBooleansToByte(booleans: seq<bool>) returns (n: nat)
    ensures n == PackBits(booleans)
  {
    n := 0;
    for i := |booleans| downto 0
      invariant n == PackBits(booleans[i..])
    {
      assert booleans[i..][0] == booleans[i] && booleans[i..][1..] == booleans[i + 1..];
      n := n * 2 + (if booleans[i] then 1 else 0);
    }
    assert booleans[0..] == booleans;
  }

  method ConvertOctets(value: seq<bool>) returns (converted: seq<byte>)
    ensures converted == BoolBytes(value)
  {
    hide PackBits;
    converted := [];
    for j := 0 to (|value| + 7) / 8
      invariant converted == BoolBytes(value)[..j]
    {
      var n := ConvertBooleansToByte(Octet(value, j));
      PackFits(Octet(value, j));
      converted := converted + [n];
    }
  }

  /** The memory of a native array of integers. */
  function NativeBytes(vs: seq<Value>, size: nat): seq<byte> {
    if vs == [] then []
    else
      var k := |vs| - 1;
      NativeBytes(vs[..k], size) + (if vs[k].Number? then ToLE(vs[k].n, size) else [])
  }

  lemma {:induction false} NativeSlots(defs: Definitions, t: Type, vs: seq<Value>, gap: int, h: nat)
    requires WellDefined(defs) && t.Integer? && ShapedAll(Lowered(defs), Repeat(t, |vs|), LowerAll(defs, t, vs))
    ensures EncodeSlots(PYTHON, Lowered(defs), Repeat(t, |vs|), LowerAll(defs, t, vs), gap, h)
         == Out(NativeBytes(vs, t.size), [], [])
  {
    hide WellDefined, Lowered, ShapedAll, EncodeSlots, ToLE, LowerAll;
    if vs == [] {
      NoItems(defs, t, gap, h);
    } else {
      var a, b := ItemsLast(PYTHON, defs, t, vs, gap, h);
      NativeSlots(defs, t, vs[..|vs| - 1], gap, h);
    }
  }

  lemma NoItems(defs: Definitions, t: Type, gap: int, h: nat)
    requires WellDefined(defs)
    ensures Repeat(t, 0) == [] && LowerAll(defs, t, []) == [] && ShapedAll(Lowered(defs), [], [])
    ensures EncodeSlots(PYTHON, Lowered(defs), [], [], gap, h) == Out([], [], [])
    ensures SeenAll(PYTHON, defs, Own(defs), t, []) == Some([])
  {
    hide WellDefined, Lowered;
  }

  /** A block whose contents point nowhere. */
  method SerializeNativeArray(value: seq<byte>, data: ByteArray, length: nat)
    modifies data
    ensures data.bytes == old(data.bytes) + Block(8 + |value|, length, Out(value, [], []))
  {
    hide Header;
    var dataSize := |data.bytes|;
    data.Extend(Zeros(8));
    data.Extend(value);
    var dataLength := |data.bytes| - dataSize;
    data.Extend(Zeros(NeededPaddingForAlignment(dataLength, 8)));
    data.PackInto(dataSize, Header(dataLength, length));
    AlignPadding(dataLength);
    FilledBlock(old(data.bytes), dataLength, length, value, [], data.bytes);
  }

  /** Packing a header and slots over the zeros reserved for them, with more already behind. */
  lemma PackedBlock(before: seq<byte>, size: nat, word: nat, slots: seq<byte>, tail: seq<byte>, bytes: seq<byte>)
    requires size == 8 + |slots| && bytes == before + Zeros(Align(size)) + tail
    ensures |before| + size <= |bytes|
    ensures Put(Put(bytes, |before|, Header(size, word)), |before| + 8, slots)
         == before + Block(size, word, Out(slots, tail, []))
  {
    hide Header, Align, Block;
    var pad := Align(size) - size;
    assert Zeros(Align(size)) == Zeros(8) + Zeros(|slots|) + Zeros(pad);
    var header := Header(size, word);
    assert Put(bytes, |before|, header) == before + header + (Zeros(|slots|) + Zeros(pad) + tail);
    var r := Put(Put(bytes, |before|, header), |before| + 8, slots);
    assert r == before + header + slots + Zeros(pad) + tail;
    FilledBlock(before, size, word, slots, tail, r);
  }

  /** Packing the slots behind a header that is already there. */
  lemma PackedSlots(size: nat, word: nat, body: Out)
    requires size == 8 + |body.slots| && Align(size) == size
    ensures var bytes := Header(size, word) + Zeros(|body.slots|) + body.tail;
            Put(bytes, 8, body.slots) == Block(size, word, body)
  {
    hide Header, Align;
    var bytes := Header(size, word) + Zeros(|body.slots|) + body.tail;
    assert bytes[..8] == Header(size, word) && bytes[8 + |body.slots|..] == body.tail;
    assert Header(size, word) + body.slots + Zeros(0) == Header(size, word) + body.slots;
  }

  lemma AlignPadding(size: nat)
    ensures NeededPaddingForAlignment(size, 8) == Align(size) - size
  {
  }

  lemma FilledBlock(before: seq<byte>, size: nat, word: nat, slots: seq<byte>, tail: seq<byte>, after: seq<byte>)
    requires size == 8 + |slots|
    requires after == before + Header(size, word) + slots + Zeros(Align(size) - size) + tail
    ensures after == before + Block(size, word, Out(slots, tail, []))
  {
    hide Header, Align;
  }
}
