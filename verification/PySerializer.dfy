/** Serializing Python values: what every type's Serialize method appends and returns is what the wire format asks for. */
module PySerializer {
  import opened Bytes
  import opened Wire
  import opened PyGroups
  import opened Options
  import opened PyValues
  import opened PyReading
  import opened PyRoundTrip
  import opened PyVersions
  import opened PySerialization

  // ---- what has been serialized so far ----

  lemma {:induction false} SomeItemsShaped(defs: Definitions, t: Type, vs: seq<Value>, i: nat)
    requires WellDefined(defs) && ShapedAll(Lowered(defs), Repeat(t, |vs|), LowerAll(defs, t, vs)) && i <= |vs|
    ensures ShapedAll(Lowered(defs), Repeat(t, i), LowerAll(defs, t, vs[..i]))
    decreases |vs|
  {
    hide WellDefined, Lowered, ShapedAll, Shaped, Encode, EncodeSlots, LowerAll, Lower, Repeat, SlotSize;
    assert vs[..|vs|] == vs;
    if i < |vs| {
      var k := |vs| - 1;
      var a, b := ItemsLast(PYTHON, defs, t, vs, 0, 0);
      SomeItemsShaped(defs, t, vs[..k], i);
      assert vs[..k][..i] == vs[..i];
    }
  }

  /** What the first i items of an array put into its block and behind it. */
  function SomeItems(defs: Definitions, t: Type, vs: seq<Value>, i: nat, gap: int, h: nat): Out
    requires WellDefined(defs) && ShapedAll(Lowered(defs), Repeat(t, |vs|), LowerAll(defs, t, vs)) && i <= |vs|
  {
    SomeItemsShaped(defs, t, vs, i);
    EncodeSlots(PYTHON, Lowered(defs), Repeat(t, i), LowerAll(defs, t, vs[..i]), gap, h)
  }

  lemma NextItem(defs: Definitions, t: Type, vs: seq<Value>, i: nat, gap: int, h: nat) returns (b: Out)
    requires WellDefined(defs) && ShapedAll(Lowered(defs), Repeat(t, |vs|), LowerAll(defs, t, vs)) && i < |vs|
    ensures Fits(defs, t, vs[i])
    ensures var a := SomeItems(defs, t, vs, i, gap, h);
            && b == Output(defs, t, vs[i], gap + |a.tail| - |a.slots|, h + |a.handles|)
            && SomeItems(defs, t, vs, i + 1, gap, h) == Append(a, b)
            && |a.slots| == i * SlotSize(t) && |b.slots| == SlotSize(t)
  {
    hide WellDefined, Lowered, ShapedAll, Encode, EncodeSlots, LowerAll, Lower, Repeat, SlotSize;
    SomeItemsShaped(defs, t, vs, i + 1);
    var a, b' := ItemsLast(PYTHON, defs, t, vs[..i + 1], gap, h);
    b := b';
    assert vs[..i + 1][..i] == vs[..i] && vs[..i + 1][i] == vs[i];
  }

  lemma {:induction false} SeenItems(defs: Definitions, t: Type, vs: seq<Value>, i: nat)
    requires WellDefined(defs) && i < |vs| && SeenAll(PYTHON, defs, Own(defs), t, vs[..i]).Some?
    ensures SeenAll(PYTHON, defs, Own(defs), t, vs[..i + 1]).Some? <==> Accepted(defs, t, vs[i])
  {
    hide WellDefined, Seen, Own;
    assert vs[..i + 1][..i] == vs[..i];
  }

  lemma {:induction false} OneItemRefused(defs: Definitions, t: Type, vs: seq<Value>, i: nat)
    requires WellDefined(defs) && i <= |vs| && SeenAll(PYTHON, defs, Own(defs), t, vs[..i]).None?
    ensures SeenAll(PYTHON, defs, Own(defs), t, vs).None?
    decreases |vs|
  {
    hide WellDefined, Seen, Own;
    assert vs[..|vs|] == vs;
    if i < |vs| {
      assert vs[..|vs| - 1][..i] == vs[..i];
      OneItemRefused(defs, t, vs[..|vs| - 1], i);
    }
  }

  // ---- the types ----

  method SerializeValue(registry: seq<Serialization>, ghost defs: Definitions, t: Type, generic: bool, value: Value,
                        dataOffset: int, data: ByteArray, handleOffset: nat)
    returns (r: Result)
    requires WellDefined(defs) && Serves(registry, defs) && Declared(|defs|, t) && Fits(defs, t, value)
    modifies data
    ensures Serializes(defs, t, value, dataOffset, handleOffset, old(data.bytes), data.bytes, r)
    decreases value, 4
  {
    hide WellDefined, Serves, Lowered, ShapedAll, WellFormed, IsPlain, EncodeBody, ToLE, IsKind, BlockSlots, Own;
    DeclaredKind(|defs|, t);
    if t.Integer? {
      return Entry(value.n, []);
    } else if t.Handle? {
      if value.Null? { return if t.nullable then Entry(-1, []) else Refused; }
      return Entry(handleOffset, [value]);
    } else {
      NullLowered(defs, t, value, dataOffset, handleOffset);
      if value.Null? { return if Nullable(t) then Entry(0, []) else Refused; }
      r := SerializePointer(registry, defs, t, generic, value, dataOffset, data, handleOffset);
    }
  }

  lemma NullLowered(defs: Definitions, t: Type, v: Value, gap: int, h: nat)
    requires WellDefined(defs) && IsPointer(t) && Fits(defs, t, v)
    ensures v.Null? <==> Lower(defs, t, v).Null?
    ensures v.Null? ==> Output(defs, t, v, gap, h) == Out(ToLE(0, 8), [], []) && (Accepted(defs, t, v) <==> Nullable(t))
    ensures SlotSize(t) == 8
  {
    hide WellDefined, Lowered, ToLE, ShapedAll, Lower;
    LowerNull(defs, t, v);
    if v.Null? { EncodeNull(PYTHON, Lowered(defs), t, gap, h); }
  }

  /** The block a pointer leads to. */
  function BlockOf(defs: Definitions, t: Type, v: Value, h: nat): (b: Out)
    requires WellDefined(defs) && IsPresent(Lowered(defs), t, Lower(defs, t, v))
  {
    EncodeBody(PYTHON, Lowered(defs), t, Lower(defs, t, v), h)
  }

  function BlockBytes(defs: Definitions, t: Type, v: Value, h: nat): seq<byte>
    requires WellDefined(defs) && IsPresent(Lowered(defs), t, Lower(defs, t, v))
  {
    var sc, lv := Lowered(defs), Lower(defs, t, v);
    Block(BlockSize(sc, t, lv), BlockWord(sc, t, lv), BlockOf(defs, t, v, h))
  }

  predicate SerializesBlock(defs: Definitions, t: Type, v: Value, h: nat, before: seq<byte>, after: seq<byte>,
                            ok: bool, handles: seq<Value>)
    requires WellDefined(defs) && IsPresent(Lowered(defs), t, Lower(defs, t, v))
  {
    && (ok <==> Accepted(defs, t, v))
    && (ok ==> after == before + BlockBytes(defs, t, v, h) && handles == BlockOf(defs, t, v, h).handles)
  }

  method SerializePointer(registry: seq<Serialization>, ghost defs: Definitions, t: Type, generic: bool, value: Value,
                          dataOffset: int, data: ByteArray, handleOffset: nat)
    returns (r: Result)
    requires WellDefined(defs) && Serves(registry, defs) && Declared(|defs|, t) && Fits(defs, t, value)
    requires IsPointer(t) && IsPresent(Lowered(defs), t, Lower(defs, t, value)) && !value.Null? && SlotSize(t) == 8
    modifies data
    ensures Serializes(defs, t, value, dataOffset, handleOffset, old(data.bytes), data.bytes, r)
    decreases value, 3
  {
    hide WellDefined, Serves, Lowered, ShapedAll, Shaped, WellFormed, Declared, EncodeBody, Encode, Seen, Lower, ToLE,
      Own, BlockSize, BlockWord, Block;
    ghost var sc, lv := Lowered(defs), Lower(defs, t, value);
    ghost var b := EncodePresent(PYTHON, sc, t, lv, dataOffset, handleOffset);
    ghost var before := data.bytes;
    var handles: seq<Value> := [];
    var ok := true;
    if t.String? {
      StringBlock(defs, t, value, handleOffset);
      SerializeNativeArray(value.bytes, data, |value.bytes|);
    } else if t.PointerTo? {
      var newData: seq<byte>;
      ok, newData, handles := SerializeObject(registry, defs, t, value, handleOffset);
      data.Extend(newData);
    } else if t.MapOf? {
      ok, handles := SerializeMap(registry, defs, t, value, data, handleOffset);
    } else {
      ok, handles := SerializeArray(registry, defs, t, generic, value, data, handleOffset);
    }
    return if ok then Entry(dataOffset, handles) else Refused;
  }

  lemma StringBlock(defs: Definitions, t: Type, v: Value, h: nat)
    requires WellDefined(defs) && t.String? && IsPresent(Lowered(defs), t, Lower(defs, t, v))
    ensures v.Text? && Accepted(defs, t, v) && BlockOf(defs, t, v, h) == Out(v.bytes, [], [])
    ensures BlockBytes(defs, t, v, h) == Block(8 + |v.bytes|, |v.bytes|, Out(v.bytes, [], []))
  {
    hide WellDefined, Lowered, Block;
  }

  // ---- arrays ----

  method SerializeArray(registry: seq<Serialization>, ghost defs: Definitions, t: Type, generic: bool, value: Value,
                        data: ByteArray, handleOffset: nat)
    returns (ok: bool, handles: seq<Value>)
    requires WellDefined(defs) && Serves(registry, defs) && Declared(|defs|, t) && IsArray(t) && !value.Null?
    requires IsPresent(Lowered(defs), t, Lower(defs, t, value))
    modifies data
    ensures SerializesBlock(defs, t, value, handleOffset, old(data.bytes), data.bytes, ok, handles)
    decreases value, 2
  {
    hide WellDefined, Serves, Lowered, ShapedAll, WellFormed, IsPlain, Declared, Seen, SeenAll, Lower, LowerAll, Own,
      Block, BlockOf, BlockBytes, Shaped, Repeat, EncodeSlots, NativeBytes, BoolBytes, SlotSize, Flags, Accepted, Align,
      IsPresent, WellFormedElement, SlotsSize;
    DeclaredParts(|defs|, t);
    ArrayBlock(defs, t, value, handleOffset);
    handles := [];
    if t.length != 0 && |value.items| != t.length { return false, []; }
    if t.elem.PackedBool? {
      var converted := ConvertOctets(Flags(value.items));
      SerializeNativeArray(converted, data, |value.items|);
      ok := true;
    } else if t.elem.Integer? && !generic {
      NativeSlots(defs, t.elem, value.items, Align(8 + |value.items| * SlotSize(t.elem)) - 8, handleOffset);
      IntegersSeen(defs, t.elem, value.items);
      RepeatSize(t.elem, |value.items|);
      SerializeNativeArray(NativeBytes(value.items, t.elem.size), data, |value.items|);
      ok := true;
    } else {
      ok, handles := SerializeItems(registry, defs, t.elem, value.items, data, handleOffset);
    }
  }

  lemma ArrayBlock(defs: Definitions, t: Type, v: Value, h: nat)
    requires WellDefined(defs) && IsArray(t) && !v.Null? && IsPresent(Lowered(defs), t, Lower(defs, t, v))
    ensures v.Seq?
    ensures Accepted(defs, t, v) <==>
            && (t.length == 0 || |v.items| == t.length)
            && (t.elem.PackedBool? || SeenAll(PYTHON, defs, Own(defs), t.elem, v.items).Some?)
    ensures t.elem.PackedBool? ==> IsBoolBlock(defs, t, v, h)
    ensures !t.elem.PackedBool? ==> IsItemsBlock(defs, t, v, h)
  {
    hide WellDefined, Lowered, ShapedAll, WellFormed, Seen, SeenAll, Own, Block, EncodeSlots, SlotSize, SlotsSize,
      BoolBytes, Flags, Align, IsBoolBlock, Lower, BlockOf, BlockSize, BlockWord, LowerAll, Repeat;
    LowerNull(defs, t, v);
    ArrayIsSeq(defs, t, v);
    ArraySeen(defs, t, v);
    if t.elem.PackedBool? {
      BoolBlock(defs, t, v, h);
    } else {
      ItemsShaped(defs, t, v);
      RepeatSize(t.elem, |v.items|);
      ArrayLowered(defs, t, v, h);
    }
  }

  predicate IsBoolBlock(defs: Definitions, t: Type, v: Value, h: nat)
    requires WellDefined(defs) && IsPresent(Lowered(defs), t, Lower(defs, t, v)) && v.Seq?
  {
    var raw := BoolBytes(Flags(v.items));
    && BlockOf(defs, t, v, h) == Out(raw, [], [])
    && BlockBytes(defs, t, v, h) == Block(8 + |raw|, |v.items|, Out(raw, [], []))
  }

  predicate IsItemsBlock(defs: Definitions, t: Type, v: Value, h: nat)
    requires WellDefined(defs) && IsArray(t) && IsPresent(Lowered(defs), t, Lower(defs, t, v)) && v.Seq?
  {
    var n, sc := |v.items|, Lowered(defs);
    var size, lvs := 8 + n * SlotSize(t.elem), LowerAll(defs, t.elem, v.items);
    && ShapedAll(sc, Repeat(t.elem, n), lvs)
    && BlockOf(defs, t, v, h) == EncodeSlots(PYTHON, sc, Repeat(t.elem, n), lvs, Align(size) - 8, h)
    && BlockBytes(defs, t, v, h) == Block(size, n, BlockOf(defs, t, v, h))
  }

  lemma ArrayIsSeq(defs: Definitions, t: Type, v: Value)
    requires WellDefined(defs) && IsArray(t) && !v.Null? && IsPresent(Lowered(defs), t, Lower(defs, t, v))
    ensures v.Seq?
  {
    hide WellDefined, Lowered, ShapedAll, WellFormed;
  }

  lemma BoolBlock(defs: Definitions, t: Type, v: Value, h: nat)
    requires WellDefined(defs) && IsArray(t) && t.elem.PackedBool? && v.Seq?
    requires IsPresent(Lowered(defs), t, Lower(defs, t, v))
    ensures IsBoolBlock(defs, t, v, h)
  {
    hide WellDefined, Lowered, ShapedAll, WellFormed, Block, BoolBytes, Flags;
  }

  lemma ArraySeen(defs: Definitions, t: Type, v: Value)
    requires WellDefined(defs) && IsArray(t) && v.Seq?
    ensures Accepted(defs, t, v) <==>
            && (t.length == 0 || |v.items| == t.length)
            && (t.elem.PackedBool? || SeenAll(PYTHON, defs, Own(defs), t.elem, v.items).Some?)
  {
    hide WellDefined, Own;
  }

  lemma ArrayLowered(defs: Definitions, t: Type, v: Value, h: nat)
    requires WellDefined(defs) && IsArray(t) && !t.elem.PackedBool? && v.Seq?
    requires IsPresent(Lowered(defs), t, Lower(defs, t, v))
    ensures var n, sc := |v.items|, Lowered(defs);
            var lvs := LowerAll(defs, t.elem, v.items);
            && Lower(defs, t, v) == Seq(lvs) && ShapedAll(sc, Repeat(t.elem, n), lvs)
            && BlockSize(sc, t, Seq(lvs)) == 8 + SlotsSize(Repeat(t.elem, n)) && BlockWord(sc, t, Seq(lvs)) == n
            && BlockOf(defs, t, v, h)
               == EncodeSlots(PYTHON, sc, Repeat(t.elem, n), lvs, Align(8 + SlotsSize(Repeat(t.elem, n))) - 8, h)
  {
    hide WellDefined, Lowered, ShapedAll, WellFormed, EncodeSlots, SlotsSize, Align, Repeat, LowerAll;
  }

  lemma {:induction false} IntegersSeen(defs: Definitions, t: Type, vs: seq<Value>)
    requires WellDefined(defs) && t.Integer?
    ensures SeenAll(PYTHON, defs, Own(defs), t, vs).Some?
  {
    hide WellDefined, Own;
    if vs != [] { IntegersSeen(defs, t, vs[..|vs| - 1]); }
  }

  method SerializeItems(registry: seq<Serialization>, ghost defs: Definitions, t: Type, value: seq<Value>,
                        data: ByteArray, handleOffset: nat)
    returns (ok: bool, handles: seq<Value>)
    requires WellDefined(defs) && Serves(registry, defs) && Declared(|defs|, t)
    requires ShapedAll(Lowered(defs), Repeat(t, |value|), LowerAll(defs, t, value))
    modifies data
    ensures ok <==> SeenAll(PYTHON, defs, Own(defs), t, value).Some?
    ensures ok ==>
              var size := 8 + |value| * SlotSize(t);
              var o := EncodeSlots(PYTHON, Lowered(defs), Repeat(t, |value|), LowerAll(defs, t, value), Align(size) - 8, handleOffset);
              data.bytes == old(data.bytes) + Block(size, |value|, o) && handles == o.handles
    decreases value, 0
  {
    hide WellDefined, Serves, Lowered, ShapedAll, Declared, SeenAll, LowerAll, Own, Block, Repeat, EncodeSlots,
      SlotSize, Pack, SomeItems, Output, Fits, Align, Header, ToLE, Zeros, Accepted, ItemsSoFar, Put;
    var size := 8 + |value| * SlotSize(t);
    var dataEnd := |data.bytes|;
    var position: nat := |data.bytes| + 8;
    ghost var before := data.bytes;
    ghost var gap := Align(size) - 8;
    data.Extend(Zeros(Align(size)));
    handles := [];
    var toPack: seq<int> := [];
    DeclaredKind(|defs|, t);
    FirstItems(defs, t, value, gap, handleOffset, before, data.bytes);
    for i := 0 to |value|
      invariant ItemsSoFar(defs, t, value, i, gap, handleOffset, before, data.bytes, position, toPack, handles)
    {
      ghost var b := NextItem(defs, t, value, i, gap, handleOffset);
      ghost var bytes := data.bytes;
      ItemOffset(defs, t, value, i, gap, handleOffset, before, data.bytes, position, toPack, handles);
      var r := SerializeValue(registry, defs, t, false, value[i], |data.bytes| - position, data, handleOffset + |handles|);
      SeenItems(defs, t, value, i);
      if r.Refused? {
        OneItemRefused(defs, t, value, i + 1);
        return false, [];
      }
      OneMoreItem(defs, t, value, i, gap, handleOffset, before, bytes, position, toPack, handles, b, r);
      toPack := toPack + [r.entry];
      handles := handles + r.handles;
      position := position + SlotSize(t);
    }
    AllItems(defs, t, value, size, gap, handleOffset, before, data.bytes, position, toPack, handles);
    data.PackInto(dataEnd, Header(size, |value|));
    data.PackInto(dataEnd + 8, Pack(Repeat(t, |value|), toPack));
    ok := true;
  }

  ghost predicate ItemsSoFar(defs: Definitions, t: Type, vs: seq<Value>, i: nat, gap: nat, h: nat,
                             before: seq<byte>, bytes: seq<byte>, position: nat, toPack: seq<int>, handles: seq<Value>)
    requires WellDefined(defs) && ShapedAll(Lowered(defs), Repeat(t, |vs|), LowerAll(defs, t, vs)) && i <= |vs|
  {
    var a := SomeItems(defs, t, vs, i, gap, h);
    && bytes == before + Zeros(gap + 8) + a.tail
    && position == |before| + 8 + |a.slots|
    && Pack(Repeat(t, i), toPack) == a.slots
    && handles == a.handles
    && SeenAll(PYTHON, defs, Own(defs), t, vs[..i]).Some?
  }

  lemma FirstItems(defs: Definitions, t: Type, vs: seq<Value>, gap: nat, h: nat, before: seq<byte>, bytes: seq<byte>)
    requires WellDefined(defs) && ShapedAll(Lowered(defs), Repeat(t, |vs|), LowerAll(defs, t, vs))
    requires bytes == before + Zeros(gap + 8)
    ensures ItemsSoFar(defs, t, vs, 0, gap, h, before, bytes, |before| + 8, [], [])
  {
    hide WellDefined, Lowered, ShapedAll, Own, SeenAll, EncodeSlots, LowerAll;
    NoItems(defs, t, gap, h);
    assert vs[..0] == [];
  }

  lemma ItemOffset(defs: Definitions, t: Type, vs: seq<Value>, i: nat, gap: nat, h: nat,
                   before: seq<byte>, bytes: seq<byte>, position: nat, toPack: seq<int>, handles: seq<Value>)
    requires WellDefined(defs) && ShapedAll(Lowered(defs), Repeat(t, |vs|), LowerAll(defs, t, vs)) && i < |vs|
    requires ItemsSoFar(defs, t, vs, i, gap, h, before, bytes, position, toPack, handles)
    ensures var a := SomeItems(defs, t, vs, i, gap, h);
            |bytes| - position == gap + |a.tail| - |a.slots| && |handles| == |a.handles|
    ensures SeenAll(PYTHON, defs, Own(defs), t, vs[..i]).Some?
  {
    hide WellDefined, Lowered, ShapedAll, Own, SeenAll, SomeItems, LowerAll, Pack, Repeat;
  }

  lemma OneMoreItem(defs: Definitions, t: Type, vs: seq<Value>, i: nat, gap: nat, h: nat,
                    before: seq<byte>, bytes: seq<byte>, position: nat, toPack: seq<int>, handles: seq<Value>,
                    b: Out, r: PySerialization.Result)
    requires WellDefined(defs) && ShapedAll(Lowered(defs), Repeat(t, |vs|), LowerAll(defs, t, vs)) && i < |vs|
    requires ItemsSoFar(defs, t, vs, i, gap, h, before, bytes, position, toPack, handles)
    requires SomeItems(defs, t, vs, i + 1, gap, h) == Append(SomeItems(defs, t, vs, i, gap, h), b)
    requires r.Entry? && ToLE(r.entry, SlotSize(t)) == b.slots && r.handles == b.handles && |b.slots| == SlotSize(t)
    requires SeenAll(PYTHON, defs, Own(defs), t, vs[..i + 1]).Some? && !t.Padding?
    ensures ItemsSoFar(defs, t, vs, i + 1, gap, h, before, bytes + b.tail, position + SlotSize(t), toPack + [r.entry],
                       handles + r.handles)
  {
    hide WellDefined, Lowered, ShapedAll, Own, SeenAll, SomeItems, LowerAll, Pack, ToLE, SlotSize;
    PackMore(Repeat(t, i), t, toPack, r.entry);
    assert Repeat(t, i + 1) == Repeat(t, i) + [t];
  }

  lemma AllItems(defs: Definitions, t: Type, vs: seq<Value>, size: nat, gap: nat, h: nat,
                 before: seq<byte>, bytes: seq<byte>, position: nat, toPack: seq<int>, handles: seq<Value>)
    requires WellDefined(defs) && ShapedAll(Lowered(defs), Repeat(t, |vs|), LowerAll(defs, t, vs))
    requires ItemsSoFar(defs, t, vs, |vs|, gap, h, before, bytes, position, toPack, handles)
    requires size == 8 + |vs| * SlotSize(t) && gap + 8 == Align(size)
    ensures var o := EncodeSlots(PYTHON, Lowered(defs), Repeat(t, |vs|), LowerAll(defs, t, vs), gap, h);
            var slots := Pack(Repeat(t, |vs|), toPack);
            && |slots| == size - 8 && |before| + size <= |bytes|
            && Put(Put(bytes, |before|, Header(size, |vs|)), |before| + 8, slots) == before + Block(size, |vs|, o)
            && handles == o.handles
    ensures SeenAll(PYTHON, defs, Own(defs), t, vs).Some?
  {
    hide WellDefined, Lowered, ShapedAll, Own, SeenAll, LowerAll, Pack, SlotSize, EncodeSlots, Align, Put, Header,
      Zeros;
    assert vs[..|vs|] == vs;
    var o := EncodeSlots(PYTHON, Lowered(defs), Repeat(t, |vs|), LowerAll(defs, t, vs), gap, h);
    RepeatSize(t, |vs|);
    PackedBlock(before, size, |vs|, o.slots, o.tail, bytes);
  }

  // ---- maps ----

  /** A map is serialized as a struct of two arrays. */
  method SerializeMap(registry: seq<Serialization>, ghost defs: Definitions, t: Type, value: Value,
                      data: ByteArray, handleOffset: nat)
    returns (ok: bool, handles: seq<Value>)
    requires WellDefined(defs) && Serves(registry, defs) && Declared(|defs|, t) && t.MapOf? && !value.Null?
    requires IsPresent(Lowered(defs), t, Lower(defs, t, value))
    modifies data
    ensures SerializesBlock(defs, t, value, handleOffset, old(data.bytes), data.bytes, ok, handles)
    decreases value, 2
  {
    hide WellDefined, Serves, Lowered, ShapedAll, Shaped, Declared, Lower, Own, Block, BlockOf, BlockBytes, Output,
      ToLE, Header, Zeros, Accepted, Put, Pack, Append;
    DeclaredParts(|defs|, t);
    MapBlock(defs, t, value);
    var keysType, valuesType := ArrayOf(t.key, 0), ArrayOf(t.value, 0);
    var newData := new ByteArray(24);
    newData.PackInto(0, Header(24, 0));
    HeaderPacked(24, Header(24, 0));
    var keys := SerializeValue(registry, defs, keysType, true, value.items[0], 16, newData, handleOffset);
    if keys.Refused? { return false, []; }
    var values := SerializeValue(registry, defs, valuesType, true, value.items[1], |newData.bytes| - 16, newData,
                                 handleOffset + |keys.handles|);
    if values.Refused? { return false, []; }
    MapPacked(defs, t, value, handleOffset, keys.entry, values.entry);
    newData.PackInto(8, Pack([keysType, valuesType], [keys.entry, values.entry]));
    data.Extend(newData.bytes);
    return true, keys.handles + values.handles;
  }

  lemma MapBlock(defs: Definitions, t: Type, v: Value)
    requires WellDefined(defs) && t.MapOf? && !v.Null? && IsPresent(Lowered(defs), t, Lower(defs, t, v))
    ensures v.Dict? && |v.items| == 2
    ensures Fits(defs, ArrayOf(t.key, 0), v.items[0]) && Fits(defs, ArrayOf(t.value, 0), v.items[1])
    ensures Accepted(defs, t, v) <==> Accepted(defs, ArrayOf(t.key, 0), v.items[0]) && Accepted(defs, ArrayOf(t.value, 0), v.items[1])
  {
    hide WellDefined, Lowered, Shaped, Lower, Own;
    ColumnsFit(defs, t, v);
    if Accepted(defs, ArrayOf(t.key, 0), v.items[0]) && Accepted(defs, ArrayOf(t.value, 0), v.items[1]) {
      SeesItself(PYTHON, defs, ArrayOf(t.key, 0), v.items[0]);
      SeesItself(PYTHON, defs, ArrayOf(t.value, 0), v.items[1]);
    }
  }

  lemma MapPacked(defs: Definitions, t: Type, v: Value, h: nat, keysEntry: int, valuesEntry: int)
    requires WellDefined(defs) && t.MapOf? && !v.Null? && IsPresent(Lowered(defs), t, Lower(defs, t, v))
    requires v.Dict? && |v.items| == 2
    requires Fits(defs, ArrayOf(t.key, 0), v.items[0]) && Fits(defs, ArrayOf(t.value, 0), v.items[1])
    requires var a := Output(defs, ArrayOf(t.key, 0), v.items[0], 16, h);
             var b := Output(defs, ArrayOf(t.value, 0), v.items[1], 8 + |a.tail|, h + |a.handles|);
             ToLE(keysEntry, 8) == a.slots && ToLE(valuesEntry, 8) == b.slots
    ensures var a := Output(defs, ArrayOf(t.key, 0), v.items[0], 16, h);
            var b := Output(defs, ArrayOf(t.value, 0), v.items[1], 8 + |a.tail|, h + |a.handles|);
            var slots := Pack([ArrayOf(t.key, 0), ArrayOf(t.value, 0)], [keysEntry, valuesEntry]);
            && |slots| == 16
            && Put(Header(24, 0) + Zeros(16) + a.tail + b.tail, 8, slots) == BlockBytes(defs, t, v, h)
            && BlockOf(defs, t, v, h).handles == a.handles + b.handles
  {
    hide WellDefined, Lowered, Shaped, ShapedAll, Lower, ToLE, Header, Encode, EncodeSlots, Put, Block, Pack, Zeros,
      BlockSize, BlockWord, EncodeBody, Align;
    var a := Output(defs, ArrayOf(t.key, 0), v.items[0], 16, h);
    var b := Output(defs, ArrayOf(t.value, 0), v.items[1], 8 + |a.tail|, h + |a.handles|);
    MapEncoded(defs, t, v, h);
    PackPair(ArrayOf(t.key, 0), ArrayOf(t.value, 0), keysEntry, valuesEntry);
    ColumnsSize(t);
    PackedSlots(24, 0, Append(a, b));
    assert Header(24, 0) + Zeros(16) + a.tail + b.tail == Header(24, 0) + Zeros(16) + (a.tail + b.tail);
  }

  lemma PackPair(a: Type, b: Type, x: int, y: int)
    requires !a.Padding? && !b.Padding?
    ensures Pack([a, b], [x, y]) == ToLE(x, SlotSize(a)) + ToLE(y, SlotSize(b))
  {
    hide Pack, ToLE, SlotSize;
    PackNothing();
    PackMore([], a, [], x);
    PackMore([a], b, [x], y);
    assert [] + [a] == [a] && [] + [x] == [x] && [a] + [b] == [a, b] && [x] + [y] == [x, y];
    assert [] + ToLE(x, SlotSize(a)) == ToLE(x, SlotSize(a));
  }

  lemma MapEncoded(defs: Definitions, t: Type, v: Value, h: nat)
    requires WellDefined(defs) && t.MapOf? && !v.Null? && IsPresent(Lowered(defs), t, Lower(defs, t, v))
    requires v.Dict? && |v.items| == 2
    requires Fits(defs, ArrayOf(t.key, 0), v.items[0]) && Fits(defs, ArrayOf(t.value, 0), v.items[1])
    ensures var a := Output(defs, ArrayOf(t.key, 0), v.items[0], 16, h);
            var b := Output(defs, ArrayOf(t.value, 0), v.items[1], 8 + |a.tail|, h + |a.handles|);
            BlockOf(defs, t, v, h) == Append(a, b) && BlockBytes(defs, t, v, h) == Block(24, 0, Append(a, b))
  {
    hide WellDefined, Lowered, Shaped, ShapedAll, WellFormed, Lower, Encode, EncodeSlots, Block, EncodeBody,
      WellFormedAll, WellFormedSchema, SlotsSize, Align;
    var sc, ts := Lowered(defs), [ArrayOf(t.key, 0), ArrayOf(t.value, 0)];
    DefinitionsLowered(defs);
    MapLoweredTo(defs, t, v);
    ColumnsSize(t);
    var lv := Lower(defs, t, v);
    var ts' := BodyIsSlots(PYTHON, sc, t, lv, h);
    var o, b := EncodeLast(PYTHON, sc, ts, lv.items, 16, h);
    var none, a := EncodeLast(PYTHON, sc, ts[..1], lv.items[..1], 16, h);
    assert ts[..1][..0] == [] && lv.items[..1][..0] == [];
    EncodeNone(PYTHON, sc, 16, h);
    assert [] + a.slots == a.slots && [] + a.tail == a.tail && [] + a.handles == a.handles;
  }

  lemma MapLoweredTo(defs: Definitions, t: Type, v: Value)
    requires WellDefined(defs) && t.MapOf? && !v.Null? && IsPresent(Lowered(defs), t, Lower(defs, t, v))
    requires v.Dict? && |v.items| == 2
    ensures Lower(defs, t, v) == Dict([Lower(defs, ArrayOf(t.key, 0), v.items[0]), Lower(defs, ArrayOf(t.value, 0), v.items[1])])
    ensures BlockSize(Lowered(defs), t, Lower(defs, t, v)) == 24 && BlockWord(Lowered(defs), t, Lower(defs, t, v)) == 0
  {
    hide WellDefined, Lowered, ShapedAll, WellFormed, SlotsSize;
    ColumnsSize(t);
  }

  // ---- structs ----

  lemma {:induction false} SomeFieldsShaped(defs: Definitions, gs: seq<Group>, vs: seq<Value>, i: nat)
    requires WellDefined(defs) && AllAligned(gs) && |vs| == |gs| && i <= |gs|
    requires ShapedAll(Lowered(defs), Codes(gs), Items(defs, gs, vs))
    ensures AllAligned(gs[..i]) && ShapedAll(Lowered(defs), Codes(gs[..i]), Items(defs, gs[..i], vs[..i]))
    decreases |gs|
  {
    hide WellDefined, Lowered, ShapedAll, Shaped, Encode, EncodeSlots, Lower, Items, Codes, AllAligned, End, Offset,
      GetByteSize;
    assert gs[..|gs|] == gs && vs[..|vs|] == vs;
    if i < |gs| {
      var k := |gs| - 1;
      var a, b := CodesLast(PYTHON, defs, gs, vs, 0, 0);
      SomeFieldsShaped(defs, gs[..k], vs[..k], i);
      assert gs[..k][..i] == gs[..i] && vs[..k][..i] == vs[..i];
    }
  }

  /** What the first i groups of an object put into its block and behind it. */
  function SomeFields(defs: Definitions, gs: seq<Group>, vs: seq<Value>, i: nat, gap: int, h: nat): Out
    requires WellDefined(defs) && AllAligned(gs) && |vs| == |gs| && i <= |gs|
    requires ShapedAll(Lowered(defs), Codes(gs), Items(defs, gs, vs))
  {
    SomeFieldsShaped(defs, gs, vs, i);
    EncodeSlots(PYTHON, Lowered(defs), Codes(gs[..i]), Items(defs, gs[..i], vs[..i]), gap, h)
  }

  lemma NextField(defs: Definitions, gs: seq<Group>, vs: seq<Value>, i: nat, gap: int, h: nat) returns (b: Out)
    requires WellDefined(defs) && AllAligned(gs) && |vs| == |gs| && i < |gs|
    requires ShapedAll(Lowered(defs), Codes(gs), Items(defs, gs, vs))
    ensures AllAligned(gs[..i]) && AllAligned(gs[..i + 1]) && Aligned(gs[i]) && Fits(defs, Slot(gs[i]), vs[i])
    ensures var a, n := SomeFields(defs, gs, vs, i, gap, h), Offset(gs[..i], gs[i]);
            && b == Output(defs, Slot(gs[i]), vs[i], gap + |a.tail| - n, h + |a.handles|)
            && End(gs[..i]) == |a.slots| <= n && End(gs[..i + 1]) == n + GetByteSize(gs[i])
            && SomeFields(defs, gs, vs, i + 1, gap, h) == Append(Append(a, Out(Zeros(n - |a.slots|), [], [])), b)
            && Codes(gs[..i + 1]) == Codes(gs[..i]) + Pad(n - |a.slots|) + [Slot(gs[i])]
            && |b.slots| == GetByteSize(gs[i])
  {
    hide WellDefined, Lowered, ShapedAll, Encode, EncodeSlots, Lower, Items, AllAligned, End, Offset, SlotSize, Slot,
      Append, Aligned, Codes;
    SomeFieldsShaped(defs, gs, vs, i + 1);
    var a, b' := CodesLast(PYTHON, defs, gs[..i + 1], vs[..i + 1], gap, h);
    b := b';
    assert gs[..i + 1][..i] == gs[..i] && gs[..i + 1][i] == gs[i] && vs[..i + 1][..i] == vs[..i] && vs[..i + 1][i] == vs[i];
    CodesMore(gs[..i + 1]);
  }

  /** At the writer's own version every group counts. */
  lemma {:induction false} SeenField(defs: Definitions, gs: seq<Group>, vs: seq<Value>, i: nat, version: nat)
    requires WellDefined(defs) && NoneEmpty(gs) && |vs| == |gs| && i < |gs| && GetVersion(gs) <= version
    requires SeenFields(PYTHON, defs, Own(defs), gs[..i], version, vs[..i]).Some? && Fits(defs, Slot(gs[i]), vs[i])
    ensures SeenFields(PYTHON, defs, Own(defs), gs[..i + 1], version, vs[..i + 1]).Some?
            <==> Accepted(defs, Slot(gs[i]), vs[i])
  {
    hide WellDefined, Own, Seen, GetMinVersion, GetMaxVersion, FilterFields, FilterGroups, Lowered, NotEmpty;
    assert gs[..i + 1][..i] == gs[..i] && vs[..i + 1][..i] == vs[..i];
    VersionBounds(gs, i, version);
    if gs[i].BooleanGroup? {
      BooleansFit(defs, gs[i], vs[i]);
      BitsAccepted(defs, Slot(gs[i]), vs[i]);
    }
  }

  lemma BitsAccepted(defs: Definitions, t: Type, v: Value)
    requires WellDefined(defs) && t.Bits?
    ensures Accepted(defs, t, v)
  {
    hide WellDefined, Own;
  }

  lemma {:induction false} VersionBounds(gs: seq<Group>, i: nat, version: nat)
    requires NoneEmpty(gs) && i < |gs| && GetVersion(gs) <= version
    ensures NotEmpty(gs[i]) && GetMinVersion(gs[i]) <= version && Filter(gs[i], version) == gs[i]
    decreases |gs|
  {
    hide GetMinVersion, GetMaxVersion, Filter, NotEmpty;
    var k := |gs| - 1;
    assert NotEmpty(gs[i]);
    if i == k { FilterAll(gs[k], version); } else { VersionBounds(gs[..k], i, version); }
  }

  lemma {:induction false} OneFieldRefused(defs: Definitions, gs: seq<Group>, vs: seq<Value>, i: nat, version: nat)
    requires WellDefined(defs) && NoneEmpty(gs) && |vs| == |gs| && i <= |gs|
    requires SeenFields(PYTHON, defs, Own(defs), gs[..i], version, vs[..i]).None?
    ensures SeenFields(PYTHON, defs, Own(defs), gs, version, vs).None?
    decreases |gs|
  {
    hide WellDefined, Own, Seen, GetMinVersion, FilterFields, FilterGroups, NotEmpty;
    assert gs[..|gs|] == gs && vs[..|vs|] == vs;
    if i < |gs| {
      var k := |gs| - 1;
      assert gs[..k][..i] == gs[..i] && vs[..k][..i] == vs[..i];
      OneFieldRefused(defs, gs[..k], vs[..k], i, version);
    }
  }

  method SerializeGroup(registry: seq<Serialization>, ghost defs: Definitions, g: Group, value: Value,
                        dataOffset: int, data: ByteArray, handleOffset: nat)
    returns (r: PySerialization.Result)
    requires WellDefined(defs) && Serves(registry, defs) && DeclaredGroup(|defs|, g) && Fits(defs, Slot(g), value)
    modifies data
    ensures Serializes(defs, Slot(g), value, dataOffset, handleOffset, old(data.bytes), data.bytes, r)
    decreases value, 5
  {
    hide WellDefined, Serves, Lowered, Own, Declared, ToLE, PackBits, Lower;
    if g.SingleFieldGroup? {
      r := SerializeValue(registry, defs, g.field.fieldType, false, value, dataOffset, data, handleOffset);
    } else {
      BooleansPacked(defs, g, value, dataOffset, handleOffset);
      var n := ConvertBooleansToByte(Flags(value.items));
      return Entry(n, []);
    }
  }

  lemma BooleansPacked(defs: Definitions, g: Group, v: Value, gap: int, h: nat)
    requires WellDefined(defs) && g.BooleanGroup? && Fits(defs, Slot(g), v)
    ensures v.Record? && Accepted(defs, Slot(g), v)
    ensures Output(defs, Slot(g), v, gap, h) == Out(ToLE(PackBits(Flags(v.items)), 1), [], [])
    ensures SlotSize(Slot(g)) == 1
  {
    hide WellDefined, Lowered, Own;
    PackFits(Flags(v.items));
    assert ToLE(PackBits(Flags(v.items)), 1)[0] == PackByte(Flags(v.items));
  }

  ghost predicate FieldsSoFar(defs: Definitions, gs: seq<Group>, vs: seq<Value>, i: nat, size: nat, h: nat,
                              bytes: seq<byte>, position: nat, toPack: seq<int>, handles: seq<Value>)
    requires WellDefined(defs) && AllAligned(gs) && NoneEmpty(gs) && |vs| == |gs| && i <= |gs|
    requires ShapedAll(Lowered(defs), Codes(gs), Items(defs, gs, vs)) && 8 <= size
  {
    var a := SomeFields(defs, gs, vs, i, size - 8, h);
    SomeFieldsShaped(defs, gs, vs, i);
    && bytes == Header(size, GetVersion(gs)) + Zeros(size - 8) + a.tail
    && position == 8 + End(gs[..i]) && End(gs[..i]) == |a.slots|
    && Pack(Codes(gs[..i]), toPack) == a.slots
    && handles == a.handles
    && SeenFields(PYTHON, defs, Own(defs), gs[..i], GetVersion(gs), vs[..i]).Some?
  }

  lemma FirstFields(defs: Definitions, gs: seq<Group>, vs: seq<Value>, size: nat, h: nat)
    requires WellDefined(defs) && AllAligned(gs) && NoneEmpty(gs) && |vs| == |gs|
    requires ShapedAll(Lowered(defs), Codes(gs), Items(defs, gs, vs)) && 8 <= size
    ensures FieldsSoFar(defs, gs, vs, 0, size, h, Header(size, GetVersion(gs)) + Zeros(size - 8), 8, [], [])
  {
    hide WellDefined, Lowered, ShapedAll, Own, Header, GetVersion;
    NoFields(defs, size - 8, h);
    assert gs[..0] == [] && vs[..0] == [];
    assert Header(size, GetVersion(gs)) + Zeros(size - 8) + [] == Header(size, GetVersion(gs)) + Zeros(size - 8);
  }

  lemma HeaderPacked(size: nat, header: seq<byte>)
    requires 8 <= size && |header| == 8
    ensures Put(Zeros(size), 0, header) == header + Zeros(size - 8)
  {
    assert Zeros(size)[8..] == Zeros(size - 8);
    assert Put(Zeros(size), 0, header) == [] + header + Zeros(size - 8);
  }

  lemma NoFields(defs: Definitions, gap: int, h: nat)
    requires WellDefined(defs)
    ensures AllAligned([]) && NoneEmpty([]) && Codes([]) == [] && Items(defs, [], []) == [] && End([]) == 0
    ensures ShapedAll(Lowered(defs), [], []) && EncodeSlots(PYTHON, Lowered(defs), [], [], gap, h) == Out([], [], [])
    ensures forall version: nat :: SeenFields(PYTHON, defs, Own(defs), [], version, []) == Some(Fields([], false))
  {
    hide WellDefined, Lowered;
  }

  lemma FieldOffset(defs: Definitions, gs: seq<Group>, vs: seq<Value>, i: nat, size: nat, h: nat,
                    bytes: seq<byte>, position: nat, toPack: seq<int>, handles: seq<Value>)
    requires WellDefined(defs) && AllAligned(gs) && NoneEmpty(gs) && |vs| == |gs| && i < |gs|
    requires ShapedAll(Lowered(defs), Codes(gs), Items(defs, gs, vs)) && 8 <= size
    requires FieldsSoFar(defs, gs, vs, i, size, h, bytes, position, toPack, handles)
    ensures AllAligned(gs[..i]) && Aligned(gs[i]) && GetAlignment(gs[i]) > 0
    ensures var a := SomeFields(defs, gs, vs, i, size - 8, h);
            var next := position + NeededPaddingForAlignment(position, GetAlignment(gs[i]));
            && next == 8 + Offset(gs[..i], gs[i])
            && |bytes| - next == size - 8 + |a.tail| - Offset(gs[..i], gs[i]) && |handles| == |a.handles|
    ensures SeenFields(PYTHON, defs, Own(defs), gs[..i], GetVersion(gs), vs[..i]).Some?
  {
    hide WellDefined, Lowered, ShapedAll, Own, SeenFields, SomeFields, Pack, NeededPaddingForAlignment, End, GetVersion,
      Codes, Items, GetByteSize;
    SomeFieldsShaped(defs, gs, vs, i);
    assert Aligned(gs[i]);
    AlignmentPositive(gs[i]);
    PositionsAgree(End(gs[..i]), GetAlignment(gs[i]));
  }

  lemma OneMoreField(defs: Definitions, gs: seq<Group>, vs: seq<Value>, i: nat, size: nat, h: nat,
                     bytes: seq<byte>, position: nat, toPack: seq<int>, handles: seq<Value>,
                     b: Out, r: PySerialization.Result)
    requires WellDefined(defs) && AllAligned(gs) && NoneEmpty(gs) && |vs| == |gs| && i < |gs|
    requires ShapedAll(Lowered(defs), Codes(gs), Items(defs, gs, vs)) && 8 <= size
    requires FieldsSoFar(defs, gs, vs, i, size, h, bytes, position, toPack, handles)
    requires AllAligned(gs[..i]) && AllAligned(gs[..i + 1]) && Aligned(gs[i]) && !Slot(gs[i]).Padding?
    requires var a, n := SomeFields(defs, gs, vs, i, size - 8, h), Offset(gs[..i], gs[i]);
             && |a.slots| <= n && End(gs[..i + 1]) == n + GetByteSize(gs[i]) && |b.slots| == GetByteSize(gs[i])
             && SomeFields(defs, gs, vs, i + 1, size - 8, h) == Append(Append(a, Out(Zeros(n - |a.slots|), [], [])), b)
             && Codes(gs[..i + 1]) == Codes(gs[..i]) + Pad(n - |a.slots|) + [Slot(gs[i])]
    requires r.Entry? && ToLE(r.entry, SlotSize(Slot(gs[i]))) == b.slots && r.handles == b.handles
    requires SeenFields(PYTHON, defs, Own(defs), gs[..i + 1], GetVersion(gs), vs[..i + 1]).Some?
    ensures FieldsSoFar(defs, gs, vs, i + 1, size, h, bytes + b.tail, 8 + Offset(gs[..i], gs[i]) + GetByteSize(gs[i]),
                        toPack + [r.entry], handles + r.handles)
  {
    hide WellDefined, Lowered, ShapedAll, Own, SeenFields, SomeFields, Items, Pack, ToLE, End, Codes, Header,
      GetVersion, SlotSize, Offset, AllAligned, NoneEmpty, Pad, Slot;
    var a, n := SomeFields(defs, gs, vs, i, size - 8, h), Offset(gs[..i], gs[i]);
    var codes := Codes(gs[..i]);
    PackPad(codes, n - |a.slots|, toPack);
    PackMore(codes + Pad(n - |a.slots|), Slot(gs[i]), toPack, r.entry);
    SomeFieldsShaped(defs, gs, vs, i + 1);
    assert a.tail + [] == a.tail && a.handles + [] == a.handles;
  }

  lemma AllFields(defs: Definitions, t: Type, v: Value, gs: seq<Group>, vs: seq<Value>, size: nat, h: nat,
                  bytes: seq<byte>, position: nat, toPack: seq<int>, handles: seq<Value>)
    requires WellDefined(defs) && t.PointerTo? && !v.Null? && IsPresent(Lowered(defs), t, Lower(defs, t, v))
    requires t.cls < |defs| && gs == defs[t.cls] && IsObject(gs, v) && vs == v.items[1].items
    requires AllAligned(gs) && NoneEmpty(gs) && size == 8 + StructSize(gs) && |vs| == |gs|
    requires ShapedAll(Lowered(defs), Codes(gs), Items(defs, gs, vs))
    requires FieldsSoFar(defs, gs, vs, |gs|, size, h, bytes, position, toPack, handles)
    ensures var slots := Pack(StructCodes(gs), toPack);
            && 8 + |slots| <= |bytes| && Put(bytes, 8, slots) == BlockBytes(defs, t, v, h)
            && handles == BlockOf(defs, t, v, h).handles
    ensures Accepted(defs, t, v)
  {
    hide WellDefined, Lowered, Shaped, ShapedAll, Own, Lower, SeenFields, Items, Pack, End, Codes, Header, GetVersion,
      Put, AllAligned, NoneEmpty, Object, EncodeSlots, BlockOf, BlockBytes, Block, NeededPaddingForAlignment, Pad,
      Zeros, FilterGroups, IsObject, StructSize, Append, StructCodes, FieldsSoFar, Accepted, SomeFields, EncodeBody,
      BlockSize, BlockWord, SlotsSize, SlotSize, WellFormed, Seen, SeenObject, IsPresent, DeclaredGroups, Aligned,
      NotEmpty, Declared, DeclaredGroup;
    EveryField(defs, gs, vs, size, h, bytes, position, toPack, handles);
    var o := EncodeSlots(PYTHON, Lowered(defs), Codes(gs), Items(defs, gs, vs), size - 8, h);
    ObjectEncoded(defs, t, v, h);
    ObjectAccepted(defs, t, v);
    assert size - 8 == StructSize(gs);
    assert BlockBytes(defs, t, v, h) == Block(size, GetVersion(gs), BlockOf(defs, t, v, h));
    FinishedStruct(gs, size, o, BlockOf(defs, t, v, h), toPack, bytes);
  }

  lemma EveryField(defs: Definitions, gs: seq<Group>, vs: seq<Value>, size: nat, h: nat,
                   bytes: seq<byte>, position: nat, toPack: seq<int>, handles: seq<Value>)
    requires WellDefined(defs) && AllAligned(gs) && NoneEmpty(gs) && |vs| == |gs| && 8 <= size
    requires ShapedAll(Lowered(defs), Codes(gs), Items(defs, gs, vs))
    requires FieldsSoFar(defs, gs, vs, |gs|, size, h, bytes, position, toPack, handles)
    ensures var o := EncodeSlots(PYTHON, Lowered(defs), Codes(gs), Items(defs, gs, vs), size - 8, h);
            && bytes == Header(size, GetVersion(gs)) + Zeros(size - 8) + o.tail
            && Pack(Codes(gs), toPack) == o.slots && |o.slots| == End(gs) && handles == o.handles
    ensures SeenFields(PYTHON, defs, Own(defs), gs, GetVersion(gs), vs).Some?
  {
    hide WellDefined, Lowered, ShapedAll, Items, Codes, AllAligned, EncodeSlots, Own, SeenFields, Pack, End, Header,
      GetVersion, NoneEmpty, Zeros;
    assert gs[..|gs|] == gs && vs[..|vs|] == vs;
  }

  lemma FinishedStruct(gs: seq<Group>, size: nat, o: Out, body: Out, toPack: seq<int>, bytes: seq<byte>)
    requires AllAligned(gs) && size == 8 + StructSize(gs) && Pack(Codes(gs), toPack) == o.slots && |o.slots| == End(gs)
    requires bytes == Header(size, GetVersion(gs)) + Zeros(size - 8) + o.tail
    requires body == Append(o, Out(Zeros(NeededPaddingForAlignment(End(gs), 8)), [], []))
    ensures var slots := Pack(StructCodes(gs), toPack);
            && 8 + |slots| <= |bytes| && Put(bytes, 8, slots) == Block(size, GetVersion(gs), body)
    ensures body.handles == o.handles
  {
    hide Pack, End, Codes, Header, GetVersion, Put, AllAligned, Block, NeededPaddingForAlignment, Pad, Zeros,
      StructSize;
    var p := NeededPaddingForAlignment(End(gs), 8);
    PackPad(Codes(gs), p, toPack);
    StructEnds(gs, size, |o.slots|, p);
    assert o.tail + [] == o.tail && o.handles + [] == o.handles;
    PackedSlots(size, GetVersion(gs), body);
  }

  lemma StructEnds(gs: seq<Group>, size: nat, slots: nat, p: nat)
    requires AllAligned(gs) && size == 8 + StructSize(gs) && slots == End(gs) && p == NeededPaddingForAlignment(End(gs), 8)
    ensures slots + p == size - 8 && Align(size) == size
  {
    hide NeededPaddingForAlignment, End, AllAligned;
    SizesMatch(gs, gs, size);
  }

  lemma ObjectAccepted(defs: Definitions, t: Type, v: Value)
    requires WellDefined(defs) && t.PointerTo? && !v.Null? && t.cls < |defs| && IsObject(defs[t.cls], v)
    ensures NoneEmpty(defs[t.cls])
    ensures Accepted(defs, t, v)
       <==> SeenFields(PYTHON, defs, Own(defs), defs[t.cls], GetVersion(defs[t.cls]), v.items[1].items).Some?
  {
    hide Object, SeenFields, FilterGroups, DeclaredGroups, GetVersion, AllAligned;
    assert Seen(PYTHON, defs, Own(defs), t, v) == SeenObject(PYTHON, defs, Own(defs), t.cls, v);
  }

  lemma ObjectEncoded(defs: Definitions, t: Type, v: Value, h: nat)
    requires WellDefined(defs) && t.PointerTo? && !v.Null? && IsPresent(Lowered(defs), t, Lower(defs, t, v))
    ensures t.cls < |defs| && IsObject(defs[t.cls], v)
    ensures v.Dict? && |v.items| == 2 && v.items[1].Seq? && |v.items[1].items| == |defs[t.cls]|
    ensures AllAligned(defs[t.cls]) && NoneEmpty(defs[t.cls]) && DeclaredGroups(|defs|, defs[t.cls])
    ensures var gs, vs, sc := defs[t.cls], v.items[1].items, Lowered(defs);
            var size, p := 8 + StructSize(gs), NeededPaddingForAlignment(End(gs), 8);
            && ShapedAll(sc, Codes(gs), Items(defs, gs, vs))
            && BlockOf(defs, t, v, h) == Append(EncodeSlots(PYTHON, sc, Codes(gs), Items(defs, gs, vs), StructSize(gs), h),
                                                Out(Zeros(p), [], []))
            && BlockBytes(defs, t, v, h) == Block(size, GetVersion(gs), BlockOf(defs, t, v, h))
  {
    hide WellDefined, Lowered, Shaped, ShapedAll, WellFormed, Lower, Items, End, Codes, Header, GetVersion, AllAligned,
      NoneEmpty, Object, EncodeSlots, EncodeBody, Block, NeededPaddingForAlignment, Pad, Zeros, IsObject, StructSize,
      DeclaredGroups, WellFormedAll, WellFormedSchema, SlotsSize, IsColumns, Align, Append, Nulls;
    var sc, lv := Lowered(defs), Lower(defs, t, v);
    FieldsShaped(defs, t, v);
    ClassDefined(defs, t.cls);
    DefinitionsLowered(defs);
    var ts := BodyIsSlots(PYTHON, sc, t, lv, h);
    ObjectLowered(defs, t, v);
    ClassLowered(defs, t.cls);
    var gs, vs := defs[t.cls], v.items[1].items;
    StructCodesSize(gs);
    SizesMatch(gs, gs, 8 + StructSize(gs));
    EncodePad(PYTHON, sc, Codes(gs), Items(defs, gs, vs), NeededPaddingForAlignment(End(gs), 8), StructSize(gs), h);
  }

  lemma ClassLowered(defs: Definitions, cls: nat)
    requires WellDefined(defs) && cls < |defs|
    ensures AllAligned(defs[cls]) && Lowered(defs)[cls] == StructDef(GetVersion(defs[cls]), StructCodes(defs[cls]))
  {
    hide DeclaredGroups, AllAligned, NoneEmpty, GetVersion, StructCodes;
  }

  /** Serialization.Serialize */
  method SerializeObject(registry: seq<Serialization>, ghost defs: Definitions, t: Type, value: Value, handleOffset: nat)
    returns (ok: bool, newData: seq<byte>, handles: seq<Value>)
    requires WellDefined(defs) && Serves(registry, defs) && t.PointerTo? && !value.Null?
    requires IsPresent(Lowered(defs), t, Lower(defs, t, value))
    ensures ok <==> Accepted(defs, t, value)
    ensures ok ==> newData == BlockBytes(defs, t, value, handleOffset)
                   && handles == BlockOf(defs, t, value, handleOffset).handles
    decreases value, 2
  {
    hide WellDefined, Lowered, Shaped, ShapedAll, Lower, Own, SeenFields, Items, Pack, End, Codes, Header, GetVersion,
      Put, AllAligned, NoneEmpty, Object, EncodeSlots, NeededPaddingForAlignment, Zeros, IsObject, StructSize,
      StructCodes, DeclaredGroups, DeclaredGroup, FieldsSoFar, SomeFields, Output, Fits, ToLE, Append, Pad, GetByteSize,
      Offset, SlotsSize, BlockOf, BlockBytes, Accepted, FilterGroups, Serves, Aligned, Slot;
    ObjectEncoded(defs, t, value, handleOffset);
    ClassServed(registry, defs, t.cls);
    ghost var gs := defs[t.cls];
    var self := registry[t.cls];
    var mainStruct, values := self.structPerVersion[self.version], value.items[1].items;
    handles := [];
    var data := new ByteArray(self.size);
    var position: nat := 8;
    var toPack: seq<int> := [];
    FirstFields(defs, gs, values, self.size, handleOffset);
    data.PackInto(0, Header(self.size, self.version));
    HeaderPacked(self.size, Header(self.size, self.version));
    for i := 0 to |self.groups|
      invariant FieldsSoFar(defs, gs, values, i, self.size, handleOffset, data.bytes, position, toPack, handles)
    {
      var group := self.groups[i];
      ghost var b := NextField(defs, gs, values, i, self.size - 8, handleOffset);
      ghost var bytes := data.bytes;
      ghost var start: nat := position;
      FieldOffset(defs, gs, values, i, self.size, handleOffset, bytes, position, toPack, handles);
      GroupDeclared(|defs|, gs, i);
      position := position + NeededPaddingForAlignment(position, GetAlignment(group));
      var r := SerializeGroup(registry, defs, group, values[i], |data.bytes| - position, data, handleOffset + |handles|);
      SeenField(defs, gs, values, i, GetVersion(gs));
      if r.Refused? {
        OneFieldRefused(defs, gs, values, i + 1, GetVersion(gs));
        ObjectAccepted(defs, t, value);
        return false, [], [];
      }
      OneMoreField(defs, gs, values, i, self.size, handleOffset, bytes, start, toPack, handles, b, r);
      toPack := toPack + [r.entry];
      handles := handles + r.handles;
      position := position + GetByteSize(group);
    }
    AllFields(defs, t, value, gs, values, self.size, handleOffset, data.bytes, position, toPack, handles);
    data.PackInto(8, Pack(mainStruct, toPack));
    return true, data.bytes, handles;
  }

  lemma ClassServed(registry: seq<Serialization>, defs: Definitions, cls: nat)
    requires Serves(registry, defs) && cls < |defs|
    ensures cls < |registry|
    ensures var s, gs := registry[cls], defs[cls];
            && s.groups == gs && AllAligned(gs) && s.version == GetVersion(gs) && s.size == 8 + StructSize(gs)
            && s.version in s.structPerVersion && s.structPerVersion[s.version] == StructCodes(gs)
  {
    hide AllAligned, NoneEmpty, GetVersion, StructSize, StructCodes, FilterGroups, SlotsSize;
    assert registry[cls].Valid();
  }

  lemma {:induction false} GroupDeclared(n: nat, gs: seq<Group>, i: nat)
    requires DeclaredGroups(n, gs) && i < |gs|
    ensures DeclaredGroup(n, gs[i]) && !Slot(gs[i]).Padding?
    decreases |gs|
  {
    hide IsPlain, WellFormed;
    var k := |gs| - 1;
    if i < k { GroupDeclared(n, gs[..k], i); }
  }
}
