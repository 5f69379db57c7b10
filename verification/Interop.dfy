/** The two implementations against each other: where their bytes agree, and what one makes of the other's messages. */
module Interop {
  import opened Bytes
  import opened Wire
  import opened JsValidation
  import opened JsDecoding
  import opened JsMessaging
  import opened PyGroups
  import opened Options
  import opened PyValues
  import opened PyReading
  import opened PyRoundTrip
  import opened PyVersions

  // ---- byte for byte ----

  /** How many null handles a value holds. */
  function NullHandles(sc: Schema, t: Type, v: Value): nat
    requires Shaped(sc, t, v)
    decreases v, 1
  {
    if t.Handle? || t.Interface? then if v.Null? then 1 else 0
    else if !IsPointer(t) || v.Null? || IsRaw(t) then 0
    else NullHandlesAll(sc, BlockSlots(sc, t, |v.items|), v.items)
  }

  function NullHandlesAll(sc: Schema, ts: seq<Type>, vs: seq<Value>): nat
    requires ShapedAll(sc, ts, vs)
    decreases vs, 0
  {
    if |vs| == 0 then 0
    else
      var k := |vs| - 1;
      NullHandlesAll(sc, ts[..k], vs[..k]) + NullHandles(sc, ts[k], vs[k])
  }

  /** No interface in the value comes with a version. */
  predicate Unversioned(python: Side, sc: Schema, t: Type, v: Value)
    requires Shaped(sc, t, v)
    decreases v, 1
  {
    if t.Interface? then InterfaceVersion(python, v) == 0
    else if !IsPointer(t) || v.Null? || IsRaw(t) then true
    else UnversionedAll(python, sc, BlockSlots(sc, t, |v.items|), v.items)
  }

  predicate UnversionedAll(python: Side, sc: Schema, ts: seq<Type>, vs: seq<Value>)
    requires ShapedAll(sc, ts, vs)
    decreases vs, 0
  {
    |vs| == 0 ||
    var k := |vs| - 1;
    UnversionedAll(python, sc, ts[..k], vs[..k]) && Unversioned(python, sc, ts[k], vs[k])
  }

  /** JavaScript sends the null handles as well, wherever the two encoders stand; both append equally many bytes. */
  lemma {:induction false} NullHandlesSent(python: Side, sc: Schema, t: Type, v: Value, gap: int, h: nat, gap': int,
                                           h': nat)
    requires WellFormedSchema(sc) && Shaped(sc, t, v) && python.Python?
    ensures var o, o' := Encode(JavaScript, sc, t, v, gap, h), Encode(python, sc, t, v, gap', h');
            |o.handles| == |o'.handles| + NullHandles(sc, t, v) && |o.tail| == |o'.tail|
    decreases v, 1
  {
    hide EncodeBody, EncodeSlots, ShapedAll, WellFormedSchema, Block, ToLE, BlockSize, BlockWord, BlockSlots, IsKind,
      NullHandlesAll, WellFormed, PackByte, Align, WellFormedAll, SlotsSize, IsRaw;
    if IsPointer(t) && !v.Null? {
      var b := EncodePresent(JavaScript, sc, t, v, gap, h);
      var b' := EncodePresent(python, sc, t, v, gap', h');
      if IsRaw(t) {
        RawBody(JavaScript, sc, t, v, h);
        RawBody(python, sc, t, v, h');
      } else {
        var ts := BodyIsSlots(JavaScript, sc, t, v, h);
        var _ := BodyIsSlots(python, sc, t, v, h');
        var g := Align(BlockSize(sc, t, v)) - 8;
        NullHandlesSentAll(python, sc, ts, v.items, g, h, g, h');
      }
    }
  }

  lemma {:induction false} NullHandlesSentAll(python: Side, sc: Schema, ts: seq<Type>, vs: seq<Value>, gap: int, h: nat,
                                              gap': int, h': nat)
    requires WellFormedSchema(sc) && ShapedAll(sc, ts, vs) && python.Python?
    ensures var o, o' := EncodeSlots(JavaScript, sc, ts, vs, gap, h), EncodeSlots(python, sc, ts, vs, gap', h');
            |o.handles| == |o'.handles| + NullHandlesAll(sc, ts, vs) && |o.tail| == |o'.tail|
    decreases vs, 0
  {
    hide EncodeSlots, Encode, Shaped, ShapedAll, WellFormedSchema, NullHandles, SlotsSize;
    if |vs| == 0 {
      NoSlotsNoHandles(python, sc, ts, vs, gap, h, gap', h');
    } else {
      var k := |vs| - 1;
      var a, b := EncodeLast(JavaScript, sc, ts, vs, gap, h);
      var a', b' := EncodeLast(python, sc, ts, vs, gap', h');
      NullHandlesSentAll(python, sc, ts[..k], vs[..k], gap, h, gap', h');
      NullHandlesSent(python, sc, ts[k], vs[k], gap + |a.tail| - |a.slots|, h + |a.handles|,
                      gap' + |a'.tail| - |a'.slots|, h' + |a'.handles|);
    }
  }

  lemma NoSlotsNoHandles(python: Side, sc: Schema, ts: seq<Type>, vs: seq<Value>, gap: int, h: nat, gap': int, h': nat)
    requires ShapedAll(sc, ts, vs) && |vs| == 0
    ensures EncodeSlots(JavaScript, sc, ts, vs, gap, h) == EncodeSlots(python, sc, ts, vs, gap', h') == Out([], [], [])
  {
  }

  /** Equal blocks of one size have equal contents. */
  lemma BlockContents(size: nat, word: nat, b: Out, b': Out)
    requires |b.slots| == |b'.slots| && size == 8 + |b.slots|
    ensures Block(size, word, b) == Block(size, word, b') <==> b.slots == b'.slots && b.tail == b'.tail
  {
    hide Wire.Header, Align;
    var s, s' := Block(size, word, b), Block(size, word, b');
    assert b.slots == s[8..8 + |b.slots|] && b'.slots == s'[8..8 + |b.slots|];
    assert b.tail == s[Align(size)..] && b'.tail == s'[Align(size)..];
  }

  lemma AppendedContents(a: Out, b: Out, a': Out, b': Out)
    requires |a.slots| == |a'.slots| && |a.tail| == |a'.tail| && |a.handles| == |a'.handles|
    ensures Append(a, b) == Append(a', b') <==> a == a' && b == b'
  {
    var o, o' := Append(a, b), Append(a', b');
    assert a == Out(o.slots[..|a.slots|], o.tail[..|a.tail|], o.handles[..|a.handles|]);
    assert a' == Out(o'.slots[..|a.slots|], o'.tail[..|a.tail|], o'.handles[..|a.handles|]);
    assert b == Out(o.slots[|a.slots|..], o.tail[|a.tail|..], o.handles[|a.handles|..]);
    assert b' == Out(o'.slots[|a.slots|..], o'.tail[|a.tail|..], o'.handles[|a.handles|..]);
  }

  /** Versions that fit their field; others make Python's `struct` raise. */
  predicate VersionsFit(python: Side) {
    python.Python? && forall id :: id in python.versions ==> python.versions[id] < TWO32
  }

  lemma InterfaceAgrees(python: Side, v: Value, h: nat)
    requires VersionsFit(python) && v.HandleValue?
    ensures EncodeHandle(JavaScript, v, h) == EncodeHandle(python, v, h) && |EncodeHandle(python, v, h).slots| == 4
    ensures EncodeHandle(JavaScript, v, h).slots + ToLE(0, 4)
         == EncodeHandle(python, v, h).slots + ToLE(InterfaceVersion(python, v), 4)
       <==> InterfaceVersion(python, v) == 0
  {
    hide ToLE, FromLE;
    var n, s := InterfaceVersion(python, v), EncodeHandle(python, v, h).slots;
    assert Pow256(4) == TWO32;
    IntegerRoundTrip(n, 4);
    IntegerRoundTrip(0, 4);
    assert (s + ToLE(0, 4))[4..] == ToLE(0, 4) && (s + ToLE(n, 4))[4..] == ToLE(n, 4);
  }

  lemma {:induction false} AgreeWithoutNulls(python: Side, sc: Schema, t: Type, v: Value, gap: int, h: nat)
    requires WellFormedSchema(sc) && Shaped(sc, t, v) && NullHandles(sc, t, v) == 0 && VersionsFit(python)
    ensures Encode(JavaScript, sc, t, v, gap, h) == Encode(python, sc, t, v, gap, h) <==> Unversioned(python, sc, t, v)
    decreases v, 1
  {
    hide EncodeBody, EncodeSlots, EncodeHandle, ShapedAll, WellFormedSchema, Block, ToLE, BlockSize, BlockWord,
      BlockSlots, IsKind, NullHandlesAll, UnversionedAll, WellFormed, PackByte, Align, WellFormedAll, SlotsSize, IsRaw,
      VersionsFit;
    if t.Handle? || t.Interface? {
      InterfaceAgrees(python, v, h);
    } else if IsPointer(t) && !v.Null? {
      var b := EncodePresent(JavaScript, sc, t, v, gap, h);
      var b' := EncodePresent(python, sc, t, v, gap, h);
      BlockContents(BlockSize(sc, t, v), BlockWord(sc, t, v), b, b');
      if IsRaw(t) {
        RawBody(JavaScript, sc, t, v, h);
        RawBody(python, sc, t, v, h);
      } else {
        var ts := BodyIsSlots(JavaScript, sc, t, v, h);
        var _ := BodyIsSlots(python, sc, t, v, h);
        AgreeWithoutNullsAll(python, sc, ts, v.items, Align(BlockSize(sc, t, v)) - 8, h);
      }
    }
  }

  lemma {:induction false} AgreeWithoutNullsAll(python: Side, sc: Schema, ts: seq<Type>, vs: seq<Value>, gap: int,
                                                h: nat)
    requires WellFormedSchema(sc) && ShapedAll(sc, ts, vs) && NullHandlesAll(sc, ts, vs) == 0 && VersionsFit(python)
    ensures EncodeSlots(JavaScript, sc, ts, vs, gap, h) == EncodeSlots(python, sc, ts, vs, gap, h)
       <==> UnversionedAll(python, sc, ts, vs)
    decreases vs, 0
  {
    hide EncodeSlots, Encode, Shaped, ShapedAll, WellFormedSchema, NullHandles, Unversioned, SlotsSize, VersionsFit,
      Append;
    PythonOnly(python);
    if |vs| == 0 {
      NoSlotsNoHandles(python, sc, ts, vs, gap, h, gap, h);
    } else {
      var k := |vs| - 1;
      var a, b := EncodeLast(JavaScript, sc, ts, vs, gap, h);
      var a', b' := EncodeLast(python, sc, ts, vs, gap, h);
      NullHandlesSentAll(python, sc, ts[..k], vs[..k], gap, h, gap, h);
      AgreeWithoutNullsAll(python, sc, ts[..k], vs[..k], gap, h);
      AgreeWithoutNulls(python, sc, ts[k], vs[k], gap + |a.tail| - |a.slots|, h + |a.handles|);
      AppendedContents(a, b, a', b');
    }
  }

  lemma PythonOnly(python: Side)
    requires VersionsFit(python)
    ensures python.Python?
  {
  }

  /** The encodings of a value are the same exactly when it has no null handle and no interface that comes with a
      version. */
  lemma EncodingsAgreeIff(python: Side, sc: Schema, t: Type, v: Value, gap: int, h: nat)
    requires WellFormedSchema(sc) && Shaped(sc, t, v) && VersionsFit(python)
    ensures Encode(JavaScript, sc, t, v, gap, h) == Encode(python, sc, t, v, gap, h)
       <==> NullHandles(sc, t, v) == 0 && Unversioned(python, sc, t, v)
  {
    hide Encode, Shaped, WellFormedSchema, NullHandles, Unversioned;
    NullHandlesSent(python, sc, t, v, gap, h, gap, h);
    if NullHandles(sc, t, v) == 0 { AgreeWithoutNulls(python, sc, t, v, gap, h); }
  }

  // ---- what Python refuses ----

  /** Python serializes the value: nulls only where the types allow them, and every length as the types ask, also that of
      a nullable array. */
  predicate Takes(sc: Schema, t: Type, v: Value)
    requires Shaped(sc, t, v)
    decreases v, 1
  {
    if t.Handle? || t.Interface? then !v.Null? || t.nullable
    else if !IsPointer(t) then true
    else if v.Null? then Nullable(t)
    else
      && (IsArray(t) ==> t.length == 0 || |v.items| == t.length)
      && (IsRaw(t) || TakesAll(sc, BlockSlots(sc, t, |v.items|), v.items))
  }

  predicate TakesAll(sc: Schema, ts: seq<Type>, vs: seq<Value>)
    requires ShapedAll(sc, ts, vs)
    decreases vs, 0
  {
    |vs| == 0 ||
    var k := |vs| - 1;
    TakesAll(sc, ts[..k], vs[..k]) && Takes(sc, ts[k], vs[k])
  }

  /** What an implementation writes for a value, if it does not raise an exception: JavaScript writes whatever it is
      given. */
  function Sent(side: Side, sc: Schema, t: Type, v: Value, gap: int, h: nat): Option<Out>
    requires Shaped(sc, t, v)
  {
    if side.Python? && !Takes(sc, t, v) then None else Some(Encode(side, sc, t, v, gap, h))
  }

  /** Both implementations write the same bytes and the same handles if and only if Python does not refuse the value, no
      handle in it is null, and no interface comes with a version. */
  lemma SidesAgreeIff(python: Side, sc: Schema, t: Type, v: Value, gap: int, h: nat)
    requires WellFormedSchema(sc) && Shaped(sc, t, v) && VersionsFit(python)
    ensures Sent(JavaScript, sc, t, v, gap, h) == Sent(python, sc, t, v, gap, h)
       <==> Takes(sc, t, v) && NullHandles(sc, t, v) == 0 && Unversioned(python, sc, t, v)
  {
    hide Encode, Shaped, WellFormedSchema, NullHandles, Unversioned, Takes;
    EncodingsAgreeIff(python, sc, t, v, gap, h);
  }

  /** What Python takes conforms, so the JavaScript validator accepts it. */
  lemma {:induction false} TakesConforms(sc: Schema, t: Type, v: Value)
    requires Shaped(sc, t, v) && Takes(sc, t, v)
    ensures Conforms(PYTHON, sc, t, v)
    decreases v, 1
  {
    hide ShapedAll, TakesAll, ConformsAll, BlockSlots, WellFormed;
    if IsPointer(t) && !v.Null? && ChecksItems(t) {
      ItemsOfBlock(sc, t, v);
      TakesAllConform(sc, BlockSlots(sc, t, |v.items|), v.items);
    }
  }

  lemma ItemsOfBlock(sc: Schema, t: Type, v: Value)
    requires IsPresent(sc, t, v) && !IsRaw(t)
    ensures ShapedAll(sc, BlockSlots(sc, t, |v.items|), v.items)
  {
    hide ShapedAll;
  }

  lemma {:induction false} TakesAllConform(sc: Schema, ts: seq<Type>, vs: seq<Value>)
    requires ShapedAll(sc, ts, vs) && TakesAll(sc, ts, vs)
    ensures ConformsAll(PYTHON, sc, ts, vs)
    decreases vs, 0
  {
    hide Shaped, Takes, Conforms;
    if |vs| > 0 {
      var k := |vs| - 1;
      TakesAllConform(sc, ts[..k], vs[..k]);
      TakesConforms(sc, ts[k], vs[k]);
    }
  }

  // ---- from Python to JavaScript ----

  /** Serializing objects of Python classes raises exactly where their encoding is refused. */
  lemma {:induction false} TakesSeen(defs: Definitions, t: Type, v: Value)
    requires WellDefined(defs) && Declared(|defs|, t) && Fits(defs, t, v)
    ensures Seen(PYTHON, defs, Own(defs), t, v).Some? <==> Takes(Lowered(defs), t, Lower(defs, t, v))
    decreases v, 2
  {
    hide WellDefined, Lowered, ShapedAll, BlockSlots, WellFormed, Object, Own, TakesAll, IsPlain;
    DeclaredKind(|defs|, t);
    LowerNull(defs, t, v);
    if IsPointer(t) && !v.Null? && !t.String? {
      TakesBlock(defs, t, v);
    }
  }

  lemma {:induction false} TakesBlock(defs: Definitions, t: Type, v: Value)
    requires WellDefined(defs) && Declared(|defs|, t) && Fits(defs, t, v) && IsPointer(t) && !v.Null? && !t.String?
    ensures Seen(PYTHON, defs, Own(defs), t, v).Some? <==> Takes(Lowered(defs), t, Lower(defs, t, v))
    decreases v, 1
  {
    hide WellDefined, Lowered, ShapedAll, WellFormed, Own, TakesAll, Seen, Declared, Lower;
    if t.PointerTo? {
      TakesObject(defs, t, v);
    } else if t.MapOf? {
      TakesMap(defs, t, v);
    } else {
      TakesArray(defs, t, v);
    }
  }

  lemma {:induction false} TakesObject(defs: Definitions, t: Type, v: Value)
    requires WellDefined(defs) && Fits(defs, t, v) && t.PointerTo? && !v.Null?
    ensures Seen(PYTHON, defs, Own(defs), t, v).Some? <==> Takes(Lowered(defs), t, Lower(defs, t, v))
    decreases v, 0
  {
    hide WellDefined, DeclaredGroups, AllAligned, NoneEmpty, Lowered, ShapedAll, Own, TakesAll, Seen, Lower, Object,
      Items, Codes, End, NeededPaddingForAlignment, Pad, Nulls, SeenFields, GetVersion, IsObject;
    FieldsShaped(defs, t, v);
    ClassDefined(defs, t.cls);
    ObjectLowered(defs, t, v);
    var gs, vs := defs[t.cls], v.items[1].items;
    SeenObjectFields(defs, t, v);
    TakesFields(defs, gs, GetVersion(gs), vs);
    TakesPad(Lowered(defs), Codes(gs), Items(defs, gs, vs), NeededPaddingForAlignment(End(gs), 8));
  }

  lemma SeenObjectFields(defs: Definitions, t: Type, v: Value)
    requires WellDefined(defs) && t.PointerTo? && !v.Null?
    requires t.cls < |defs| && IsObject(defs[t.cls], v)
    ensures NoneEmpty(defs[t.cls])
    ensures Seen(PYTHON, defs, Own(defs), t, v).Some?
       <==> SeenFields(PYTHON, defs, Own(defs), defs[t.cls], GetVersion(defs[t.cls]), v.items[1].items).Some?
  {
    hide Object, SeenFields, FilterGroups, DeclaredGroups, GetVersion, AllAligned;
    assert Seen(PYTHON, defs, Own(defs), t, v) == SeenObject(PYTHON, defs, Own(defs), t.cls, v);
  }

  lemma TakesLast(sc: Schema, ts: seq<Type>, vs: seq<Value>)
    requires ShapedAll(sc, ts, vs) && |vs| > 0
    ensures var k := |vs| - 1;
            && |ts| == |vs| && ShapedAll(sc, ts[..k], vs[..k]) && Shaped(sc, ts[k], vs[k])
            && (TakesAll(sc, ts, vs) <==> TakesAll(sc, ts[..k], vs[..k]) && Takes(sc, ts[k], vs[k]))
  {
    hide Shaped, Takes;
  }

  lemma TakesPad(sc: Schema, ts: seq<Type>, vs: seq<Value>, n: nat)
    requires ShapedAll(sc, ts + Pad(n), vs + Nulls(n))
    ensures ShapedAll(sc, ts, vs)
    ensures TakesAll(sc, ts + Pad(n), vs + Nulls(n)) <==> TakesAll(sc, ts, vs)
  {
    hide TakesAll, ShapedAll;
    if n == 0 {
      assert ts + [] == ts && vs + [] == vs;
    } else {
      SameLength(sc, ts + Pad(n), vs + Nulls(n));
      assert (ts + [Padding(n)])[..|ts|] == ts && (vs + [Null])[..|vs|] == vs;
      TakesLast(sc, ts + Pad(n), vs + Nulls(n));
    }
  }

  lemma {:induction false} TakesFields(defs: Definitions, gs: seq<Group>, version: nat, vs: seq<Value>)
    requires WellDefined(defs) && DeclaredGroups(|defs|, gs) && AllAligned(gs) && NoneEmpty(gs) && |vs| == |gs|
    requires ShapedAll(Lowered(defs), Codes(gs), Items(defs, gs, vs)) && GetVersion(gs) <= version
    ensures SeenFields(PYTHON, defs, Own(defs), gs, version, vs).Some?
       <==> TakesAll(Lowered(defs), Codes(gs), Items(defs, gs, vs))
    decreases vs, 0
  {
    hide WellDefined, DeclaredGroups, Declared, Lowered, ShapedAll, Shaped, Seen, Own, Encode, EncodeSlots, Lower,
      Items, Codes, SlotSize, GetMinVersion, GetMaxVersion, FilterGroups, AllAligned, End, Offset, FilterFields,
      GetByteSize, Takes, TakesAll;
    var sc := Lowered(defs);
    if gs == [] {
      TakesNothing(defs);
    } else {
      var k := |gs| - 1;
      DeclaredLast(|defs|, gs);
      var a, b := CodesLast(PYTHON, defs, gs, vs, 0, 0);
      FilterAll(gs[k], version);
      TakesFields(defs, gs[..k], version, vs[..k]);
      SameLength(sc, Codes(gs), Items(defs, gs, vs));
      CodesSplit(defs, gs, vs);
      TakesLast(sc, Codes(gs), Items(defs, gs, vs));
      TakesPad(sc, Codes(gs[..k]), Items(defs, gs[..k], vs[..k]), Offset(gs[..k], gs[k]) - End(gs[..k]));
      if gs[k].SingleFieldGroup? {
        TakesSeen(defs, gs[k].field.fieldType, vs[k]);
      } else {
        BooleansFit(defs, gs[k], vs[k]);
        TakesBits(sc, Slot(gs[k]), Lower(defs, Slot(gs[k]), vs[k]));
      }
    }
  }

  lemma TakesNothing(defs: Definitions)
    requires WellDefined(defs)
    ensures AllAligned([]) && Codes([]) == [] && Items(defs, [], []) == []
    ensures ShapedAll(Lowered(defs), [], []) && TakesAll(Lowered(defs), [], [])
  {
    hide WellDefined;
  }

  lemma TakesBits(sc: Schema, t: Type, v: Value)
    requires t.Bits? && Shaped(sc, t, v)
    ensures Takes(sc, t, v)
  {
  }

  lemma {:induction false} TakesMap(defs: Definitions, t: Type, v: Value)
    requires WellDefined(defs) && Declared(|defs|, t) && Fits(defs, t, v) && t.MapOf? && !v.Null?
    ensures Seen(PYTHON, defs, Own(defs), t, v).Some? <==> Takes(Lowered(defs), t, Lower(defs, t, v))
    decreases v, 0
  {
    hide WellDefined, Lowered, ShapedAll, WellFormed, Own, TakesAll, Lower, LowerAll, Declared, IsPlain, Shaped;
    var ks, vs := ArrayOf(t.key, 0), ArrayOf(t.value, 0);
    DeclaredParts(|defs|, t);
    ColumnsFit(defs, t, v);
    TakesSeen(defs, ks, v.items[0]);
    TakesSeen(defs, vs, v.items[1]);
    MapLowered(defs, t, v);
    TakesPair(Lowered(defs), [ks, vs], Lower(defs, t, v).items);
  }

  lemma MapLowered(defs: Definitions, t: Type, v: Value)
    requires WellDefined(defs) && t.MapOf? && v.Dict? && |v.items| == 2 && Fits(defs, t, v)
    ensures var lvs := [Lower(defs, ArrayOf(t.key, 0), v.items[0]), Lower(defs, ArrayOf(t.value, 0), v.items[1])];
            && Lower(defs, t, v) == Dict(lvs)
            && ShapedAll(Lowered(defs), [ArrayOf(t.key, 0), ArrayOf(t.value, 0)], lvs)
            && (TakesAll(Lowered(defs), [ArrayOf(t.key, 0), ArrayOf(t.value, 0)], lvs)
                <==> Takes(Lowered(defs), t, Lower(defs, t, v)))
  {
    hide WellDefined, ShapedAll, TakesAll, Lowered;
  }

  lemma TakesPair(sc: Schema, ts: seq<Type>, vs: seq<Value>)
    requires |ts| == |vs| == 2 && ShapedAll(sc, ts, vs)
    requires Shaped(sc, ts[0], vs[0]) && Shaped(sc, ts[1], vs[1])
    ensures TakesAll(sc, ts, vs) <==> Takes(sc, ts[0], vs[0]) && Takes(sc, ts[1], vs[1])
  {
    hide Shaped, Takes, ShapedAll;
    TakesLast(sc, ts, vs);
    TakesLast(sc, ts[..1], vs[..1]);
    assert ts[..1][..0] == [] && vs[..1][..0] == [];
  }

  lemma {:induction false} TakesArray(defs: Definitions, t: Type, v: Value)
    requires WellDefined(defs) && Declared(|defs|, t) && Fits(defs, t, v) && IsArray(t) && !v.Null?
    ensures Seen(PYTHON, defs, Own(defs), t, v).Some? <==> Takes(Lowered(defs), t, Lower(defs, t, v))
    decreases v, 0
  {
    hide WellDefined, Lowered, ShapedAll, WellFormed, Own, TakesAll, Repeat, Declared;
    DeclaredParts(|defs|, t);
    if !t.elem.PackedBool? {
      ItemsShaped(defs, t, v);
      TakesItems(defs, t.elem, v.items);
    }
  }

  lemma {:induction false} TakesItems(defs: Definitions, t: Type, vs: seq<Value>)
    requires WellDefined(defs) && Declared(|defs|, t)
    requires ShapedAll(Lowered(defs), Repeat(t, |vs|), LowerAll(defs, t, vs))
    ensures SeenAll(PYTHON, defs, Own(defs), t, vs).Some?
       <==> TakesAll(Lowered(defs), Repeat(t, |vs|), LowerAll(defs, t, vs))
    decreases vs, 0
  {
    hide WellDefined, Declared, Lowered, ShapedAll, Shaped, Seen, Own, Encode, EncodeSlots, Lower, SlotSize, Takes,
      TakesAll;
    if vs == [] {
      TakesNothing(defs);
      assert Repeat(t, 0) == [];
    } else {
      var k, lvs := |vs| - 1, LowerAll(defs, t, vs);
      var a, b := ItemsLast(PYTHON, defs, t, vs, 0, 0);
      TakesItems(defs, t, vs[..k]);
      TakesSeen(defs, t, vs[k]);
      assert Repeat(t, |vs|)[..k] == Repeat(t, k) && lvs[..k] == LowerAll(defs, t, vs[..k]);
      TakesLast(Lowered(defs), Repeat(t, |vs|), lvs);
    }
  }

  /** What Python serializes without an exception conforms. */
  lemma SerializableConforms(defs: Definitions, t: Type, v: Value)
    requires WellDefined(defs) && Declared(|defs|, t) && Fits(defs, t, v)
    requires Seen(PYTHON, defs, Own(defs), t, v).Some?
    ensures Conforms(PYTHON, Lowered(defs), t, Lower(defs, t, v))
  {
    hide WellDefined, Declared, Lowered, Lower, Shaped, Seen, Own, Takes, Conforms;
    TakesSeen(defs, t, v);
    TakesConforms(Lowered(defs), t, Lower(defs, t, v));
  }

  /** A message that Python sends: JavaScript validates its payload and decodes the value that was sent. */
  lemma PythonToJavaScript(defs: Definitions, cls: nat, v: Value, name: nat, e: Envelope, c: Cursor)
    requires WellDefined(defs) && cls < |defs|
    requires IsPresent(Lowered(defs), PointerTo(cls, false), Lower(defs, PointerTo(cls, false), v))
    requires Seen(PYTHON, defs, Own(defs), PointerTo(cls, false), v).Some?
    requires Sendable(name, e, MessageOf(PYTHON, Lowered(defs), cls, Lower(defs, PointerTo(cls, false), v), name, e))
    requires c.offset <= HeaderSize(e) && c.handleIndex == 0
    ensures WellFormedSchema(Lowered(defs)) && WellFormed(Lowered(defs), PointerTo(cls, false))
    ensures var sc, t := Lowered(defs), PointerTo(cls, false);
            var lv := Lower(defs, t, v);
            var m := MessageOf(PYTHON, sc, cls, lv, name, e);
            ValidateBlock(m, sc, t, HeaderSize(e), c).Valid? && JsDecoding.Reads(DecodeBlock(m, sc, t, HeaderSize(e)), lv)
  {
    hide WellDefined, WellFormedSchema, Lowered, Lower, MessageOf, Sendable, ValidateBlock, DecodeBlock, Conforms,
      Shaped, HeaderOf, Seen;
    var t := PointerTo(cls, false);
    DefinitionsLowered(defs);
    SerializableConforms(defs, t, v);
    Delivered(PYTHON, Lowered(defs), cls, Lower(defs, t, v), name, e, c);
  }
}
