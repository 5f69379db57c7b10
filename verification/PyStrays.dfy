/** When an older reader of a newer struct gets more than its own fields. */
module PyStrays {
  import opened Wire
  import opened Dictionaries
  import opened PyGroups
  import opened Options
  import opened PyValues
  import opened PyReading
  import opened PyRoundTrip
  import opened PyVersions

  // ---- in what is read ----

  /** Some object in a value that was read, at any depth, has an entry under False, which names no field. */
  predicate Strays(defs: Definitions, a: seq<nat>, t: Type, u: Value)
    requires WellDefined(defs) && |a| == |defs|
    decreases u, 1
  {
    if t.PointerTo? then
      && t.cls < |defs| && u.Dict? && |u.items| == 2 && u.items[0].Seq? && u.items[1].Seq?
      && (Flag(false) in u.items[0].items
          || StraysInFields(defs, a, FilterGroups(defs[t.cls], a[t.cls]), u.items[1].items))
    else if t.MapOf? then
      u.Dict? && |u.items| == 2 && u.items[1].Seq? && StraysInItems(defs, a, t.value, u.items[1].items)
    else
      IsArray(t) && u.Seq? && StraysInItems(defs, a, t.elem, u.items)
  }

  predicate StraysInItems(defs: Definitions, a: seq<nat>, t: Type, us: seq<Value>)
    requires WellDefined(defs) && |a| == |defs|
    decreases us, 0
  {
    exists i :: 0 <= i < |us| && Strays(defs, a, t, us[i])
  }

  predicate StraysInFields(defs: Definitions, a: seq<nat>, gs: seq<Group>, us: seq<Value>)
    requires WellDefined(defs) && |a| == |defs|
    decreases us, 0
  {
    exists i :: 0 <= i < |gs| && i < |us| && gs[i].SingleFieldGroup? && Strays(defs, a, gs[i].field.fieldType, us[i])
  }

  // ---- in what is written ----

  /** A boolean that the reader does not know is set, in a byte of which it knows another. */
  predicate LaterBit(g: Group, version: nat, v: Value)
    requires NotEmpty(g)
  {
    && g.BooleanGroup? && GetMinVersion(g) <= version && v.Record?
    && var n := |FilterFields(g.descriptors, version)|; n <= |v.items| && Flag(true) in v.items[n..]
  }

  /** There is such a boolean in some object that the reader gets to see, at any depth. */
  predicate Unknown(defs: Definitions, a: seq<nat>, t: Type, v: Value)
    requires WellDefined(defs) && |a| == |defs|
    decreases v, 1
  {
    if t.PointerTo? then
      && t.cls < |defs| && IsObject(defs[t.cls], v)
      && UnknownInFields(defs, a, defs[t.cls], a[t.cls], v.items[1].items)
    else if t.MapOf? then
      v.Dict? && |v.items| == 2 && v.items[1].Seq? && UnknownInItems(defs, a, t.value, v.items[1].items)
    else
      IsArray(t) && v.Seq? && UnknownInItems(defs, a, t.elem, v.items)
  }

  predicate UnknownInItems(defs: Definitions, a: seq<nat>, t: Type, vs: seq<Value>)
    requires WellDefined(defs) && |a| == |defs|
    decreases vs, 0
  {
    exists i :: 0 <= i < |vs| && Unknown(defs, a, t, vs[i])
  }

  predicate UnknownInFields(defs: Definitions, a: seq<nat>, gs: seq<Group>, version: nat, vs: seq<Value>)
    requires WellDefined(defs) && |a| == |defs| && NoneEmpty(gs)
    decreases vs, 0
  {
    exists i :: 0 <= i < |gs| && i < |vs| && (LaterBit(gs[i], version, vs[i]) || UnknownInField(defs, a, gs[i], version, vs[i]))
  }

  predicate UnknownInField(defs: Definitions, a: seq<nat>, g: Group, version: nat, v: Value)
    requires WellDefined(defs) && |a| == |defs| && NotEmpty(g)
    decreases v, 2
  {
    g.SingleFieldGroup? && GetMinVersion(g) <= version && Unknown(defs, a, g.field.fieldType, v)
  }

  // ---- the one mirrors the other ----

  lemma LastUnknown(defs: Definitions, a: seq<nat>, t: Type, vs: seq<Value>)
    requires WellDefined(defs) && |a| == |defs| && vs != []
    ensures UnknownInItems(defs, a, t, vs)
       <==> UnknownInItems(defs, a, t, vs[..|vs| - 1]) || Unknown(defs, a, t, vs[|vs| - 1])
  {
    hide WellDefined, Unknown;
    var k := |vs| - 1;
    if UnknownInItems(defs, a, t, vs) && !Unknown(defs, a, t, vs[k]) {
      var i :| 0 <= i < |vs| && Unknown(defs, a, t, vs[i]);
      assert Unknown(defs, a, t, vs[..k][i]);
    }
    if UnknownInItems(defs, a, t, vs[..k]) {
      var i :| 0 <= i < k && Unknown(defs, a, t, vs[..k][i]);
      assert Unknown(defs, a, t, vs[i]);
    }
  }

  lemma LastStrays(defs: Definitions, a: seq<nat>, t: Type, us: seq<Value>, u: Value)
    requires WellDefined(defs) && |a| == |defs|
    ensures StraysInItems(defs, a, t, us + [u]) <==> StraysInItems(defs, a, t, us) || Strays(defs, a, t, u)
  {
    hide WellDefined, Strays;
    var ws := us + [u];
    assert ws[|us|] == u && forall i :: 0 <= i < |us| ==> ws[i] == us[i];
  }

  lemma LastField(defs: Definitions, a: seq<nat>, gs: seq<Group>, version: nat, vs: seq<Value>)
    requires WellDefined(defs) && |a| == |defs| && NoneEmpty(gs) && |vs| == |gs| && gs != []
    ensures var k := |gs| - 1;
            NoneEmpty(gs[..k]) && NotEmpty(gs[k])
            && (UnknownInFields(defs, a, gs, version, vs)
                <==> UnknownInFields(defs, a, gs[..k], version, vs[..k])
                     || LaterBit(gs[k], version, vs[k]) || UnknownInField(defs, a, gs[k], version, vs[k]))
  {
    hide WellDefined, UnknownInField, LaterBit, NotEmpty;
    var k := |gs| - 1;
    assert forall i :: 0 <= i < k ==> gs[..k][i] == gs[i] && vs[..k][i] == vs[i];
  }

  lemma LastKept(defs: Definitions, a: seq<nat>, gs: seq<Group>, g: Group, us: seq<Value>, u: Value)
    requires WellDefined(defs) && |a| == |defs| && |us| == |gs|
    ensures StraysInFields(defs, a, gs + [g], us + [u])
       <==> StraysInFields(defs, a, gs, us) || (g.SingleFieldGroup? && Strays(defs, a, g.field.fieldType, u))
  {
    hide WellDefined, Strays;
    var hs, ws := gs + [g], us + [u];
    assert forall i :: 0 <= i < |gs| ==> hs[i] == gs[i] && ws[i] == us[i];
    assert hs[|gs|] == g && ws[|gs|] == u;
  }

  lemma {:induction false} SeenStrays(side: Side, defs: Definitions, a: seq<nat>, t: Type, v: Value)
    requires WellDefined(defs) && |a| == |defs| && Fits(defs, t, v) && Seen(side, defs, a, t, v).Some?
    ensures Strays(defs, a, t, Seen(side, defs, a, t, v).value) <==> Unknown(defs, a, t, v)
    decreases v, 1
  {
    hide WellDefined, Fits, SeenAll, SeenMap, SeenObject, StraysInItems, StraysInFields, UnknownInItems, UnknownInFields,
      Object, FilterGroups;
    if v.Null? || !IsPointer(t) || t.String? {
    } else if t.PointerTo? {
      ObjectStrays(side, defs, a, t, v);
    } else if t.MapOf? {
      MapStrays(side, defs, a, t, v);
    } else if t.elem.PackedBool? {
      NoItemStrays(defs, a, v.items);
    } else {
      ItemsShaped(defs, t, v);
      ItemsStray(side, defs, a, t.elem, v.items);
    }
  }

  lemma NoItemStrays(defs: Definitions, a: seq<nat>, vs: seq<Value>)
    requires WellDefined(defs) && |a| == |defs|
    ensures !StraysInItems(defs, a, PackedBool, vs) && !UnknownInItems(defs, a, PackedBool, vs)
  {
    hide WellDefined;
  }

  lemma {:induction false} ItemsStray(side: Side, defs: Definitions, a: seq<nat>, t: Type, vs: seq<Value>)
    requires WellDefined(defs) && |a| == |defs| && ShapedAll(Lowered(defs), Repeat(t, |vs|), LowerAll(defs, t, vs))
    requires SeenAll(side, defs, a, t, vs).Some?
    ensures StraysInItems(defs, a, t, SeenAll(side, defs, a, t, vs).value) <==> UnknownInItems(defs, a, t, vs)
    decreases vs, 0
  {
    hide WellDefined, Lowered, ShapedAll, Shaped, Seen, Encode, EncodeSlots, Lower, LowerAll, SlotSize, StraysInItems,
      UnknownInItems, Strays, Unknown;
    if vs == [] {
      NothingStrays(defs, a, t);
    } else {
      var k := |vs| - 1;
      var _, _ := ItemsLast(side, defs, t, vs, 0, 0);
      ItemsStray(side, defs, a, t, vs[..k]);
      SeenStrays(side, defs, a, t, vs[k]);
      LastUnknown(defs, a, t, vs);
      LastStrays(defs, a, t, SeenAll(side, defs, a, t, vs[..k]).value, Seen(side, defs, a, t, vs[k]).value);
    }
  }

  lemma NothingStrays(defs: Definitions, a: seq<nat>, t: Type)
    requires WellDefined(defs) && |a| == |defs|
    ensures !StraysInItems(defs, a, t, []) && !UnknownInItems(defs, a, t, [])
  {
  }

  lemma {:induction false} AtomsSeen(side: Side, defs: Definitions, a: seq<nat>, t: Type, vs: seq<Value>)
    requires WellDefined(defs) && |a| == |defs| && (t.Integer? || t.PackedBool? || t.String?)
    requires SeenAll(side, defs, a, t, vs).Some?
    ensures SeenAll(side, defs, a, t, vs) == Some(vs)
  {
    hide WellDefined;
    if vs != [] {
      AtomsSeen(side, defs, a, t, vs[..|vs| - 1]);
      assert vs == vs[..|vs| - 1] + [vs[|vs| - 1]];
    }
  }

  lemma KeysSeen(side: Side, defs: Definitions, a: seq<nat>, t: Type, v: Value)
    requires WellDefined(defs) && |a| == |defs| && (t.Integer? || t.PackedBool? || t.String?) && v.Seq?
    requires Seen(side, defs, a, ArrayOf(t, 0), v).Some?
    ensures Seen(side, defs, a, ArrayOf(t, 0), v) == Some(v)
  {
    hide WellDefined;
    if !t.PackedBool? { AtomsSeen(side, defs, a, t, v.items); }
  }

  lemma {:induction false} MapStrays(side: Side, defs: Definitions, a: seq<nat>, t: Type, v: Value)
    requires WellDefined(defs) && |a| == |defs| && t.MapOf? && !v.Null? && Fits(defs, t, v)
    requires Seen(side, defs, a, t, v).Some?
    ensures Strays(defs, a, t, Seen(side, defs, a, t, v).value) <==> Unknown(defs, a, t, v)
    decreases v, 0
  {
    hide WellDefined, Fits, SetAll, StraysInItems, UnknownInItems, SeenAll;
    ColumnsFit(defs, t, v);
    var vs := ArrayOf(t.value, 0);
    KeysSeen(side, defs, a, t.key, v.items[0]);
    SeenStrays(side, defs, a, vs, v.items[1]);
    var keys, values := v.items[0].items, Seen(side, defs, a, vs, v.items[1]).value.items;
    SetDistinct(keys, values, |keys|);
    assert keys[..|keys|] == keys && values[..|values|] == values;
  }

  lemma {:induction false} ObjectStrays(side: Side, defs: Definitions, a: seq<nat>, t: Type, v: Value)
    requires WellDefined(defs) && |a| == |defs| && t.PointerTo? && !v.Null? && Fits(defs, t, v)
    requires Seen(side, defs, a, t, v).Some?
    ensures Strays(defs, a, t, Seen(side, defs, a, t, v).value) <==> Unknown(defs, a, t, v)
    decreases v, 0
  {
    hide ShapedAll, Object, SeenFields, FilterGroups, Items, Codes, NeededPaddingForAlignment, DeclaredGroups, Fits,
      GetVersion, AllAligned, NoneEmpty, End, Pad, Nulls, StraysInFields, UnknownInFields;
    FieldsShaped(defs, t, v);
    var gs, version, vs := defs[t.cls], a[t.cls], v.items[1].items;
    FieldsStray(side, defs, a, gs, version, vs);
    var fields := SeenFields(side, defs, a, gs, version, vs).value;
    ObjectEntries(defs, a, FilterGroups(gs, version), fields.values, fields.stray);
  }

  lemma ObjectEntries(defs: Definitions, a: seq<nat>, gs: seq<Group>, us: seq<Value>, stray: bool)
    requires WellDefined(defs) && |a| == |defs| && |us| == |gs|
    ensures var u := Object(gs, us, stray);
            && u.Dict? && |u.items| == 2 && u.items[0].Seq? && u.items[1].Seq?
            && (Flag(false) in u.items[0].items <==> stray)
            && (StraysInFields(defs, a, gs, u.items[1].items) <==> StraysInFields(defs, a, gs, us))
  {
    hide WellDefined, Strays;
    var u := Object(gs, us, stray);
    assert forall i :: 0 <= i < |gs| ==> u.items[0].items[i] == Key(gs[i]) && u.items[1].items[i] == us[i];
    assert stray ==> u.items[0].items[|gs|] == Flag(false);
  }

  lemma {:induction false} FieldsStray(side: Side, defs: Definitions, a: seq<nat>, gs: seq<Group>, version: nat,
                                       vs: seq<Value>)
    requires WellDefined(defs) && |a| == |defs| && AllAligned(gs) && NoneEmpty(gs) && |vs| == |gs|
    requires ShapedAll(Lowered(defs), Codes(gs), Items(defs, gs, vs))
    requires SeenFields(side, defs, a, gs, version, vs).Some?
    ensures var fields := SeenFields(side, defs, a, gs, version, vs).value;
            (StraysInFields(defs, a, FilterGroups(gs, version), fields.values) || fields.stray
             <==> UnknownInFields(defs, a, gs, version, vs))
    decreases vs, 0
  {
    hide WellDefined, Lowered, ShapedAll, Shaped, Seen, Encode, EncodeSlots, Lower, Items, Codes, SlotSize, Filter,
      GetMinVersion, GetMaxVersion, AllAligned, End, Offset, FilterFields, GetByteSize, NoneEmpty, NotEmpty, Strays,
      Unknown, StraysInFields, UnknownInFields;
    if gs == [] {
      NoFields(defs, a, version);
    } else {
      var k := |gs| - 1;
      var _, _ := CodesLast(side, defs, gs, vs, 0, 0);
      LastField(defs, a, gs, version, vs);
      FieldsStray(side, defs, a, gs[..k], version, vs[..k]);
      if version < GetMinVersion(gs[k]) {
        assert FilterGroups(gs, version) == FilterGroups(gs[..k], version);
      } else {
        var before := SeenFields(side, defs, a, gs[..k], version, vs[..k]).value;
        var fields := SeenFields(side, defs, a, gs, version, vs).value;
        var u := fields.values[|fields.values| - 1];
        assert fields.values == before.values + [u];
        LastKept(defs, a, FilterGroups(gs[..k], version), Filter(gs[k], version), before.values, u);
        KeptKind(gs[k], version);
        assert FilterGroups(gs, version) == FilterGroups(gs[..k], version) + [Filter(gs[k], version)];
        if gs[k].SingleFieldGroup? {
          SeenStrays(side, defs, a, gs[k].field.fieldType, vs[k]);
        } else {
          assert fields.stray <==> before.stray || LaterBit(gs[k], version, vs[k]);
        }
      }
    }
  }

  lemma KeptKind(g: Group, version: nat)
    requires NotEmpty(g)
    ensures if g.SingleFieldGroup? then Filter(g, version) == g else Filter(g, version).BooleanGroup?
  {
    hide FilterFields;
  }

  lemma NoFields(defs: Definitions, a: seq<nat>, version: nat)
    requires WellDefined(defs) && |a| == |defs|
    ensures FilterGroups([], version) == [] && NoneEmpty([])
    ensures !StraysInFields(defs, a, [], []) && !UnknownInFields(defs, a, [], version, [])
  {
  }

  /** What a reader gets of a message has no entry beyond its own fields, at any depth, if and only if no boolean that it
      does not know, in a byte of which it knows another, is set at any depth. */
  lemma StrayIff(side: Side, defs: Definitions, w: seq<nat>, r: seq<nat>, cls: nat, v: Value, m: Message)
    requires WellDefined(defs) && |w| == |r| == |defs| && Meets(defs, w, r) && cls < |defs|
    requires WellDefined(View(defs, w)) && WellDefined(View(defs, r))
    requires IsPresent(Lowered(View(defs, w)), PointerTo(cls, false), Lower(View(defs, w), PointerTo(cls, false), v))
    requires m == Serialized(side, View(defs, w), cls, v) && |m.bytes| < TWO32 && 2 * |m.handles| < TWO32
    requires ReadRoot(m, View(defs, r), cls).Got?
    ensures var t := PointerTo(cls, false);
            (Strays(View(defs, w), Common(w, r), t, ReadRoot(m, View(defs, r), cls).value)
             <==> Unknown(View(defs, w), Common(w, r), t, v))
  {
    hide WellDefined, Meets, Shaped, Serialized, Lowered, Lower, ReadRoot, View, Common, Seen, Strays, Unknown;
    VersionsMeet(side, defs, w, r, cls, v, m);
    SeenStrays(side, View(defs, w), Common(w, r), PointerTo(cls, false), v);
  }

  // ---- an example ----

  /** A class with a boolean, to which version 1 added another. */
  function TwoFlags(): Definitions {
    [[FlagGroup()]]
  }

  function BothSet(): Value { Object(TwoFlags()[0], [BothFlags()], false) }

  /** An old reader of a new struct in which both are set: it gets its own field, and a stray entry besides. */
  lemma StrayKey()
    ensures var defs := TwoFlags();
            && WellDefined(defs) && WellDefined(View(defs, [1])) && WellDefined(View(defs, [0]))
            && IsPresent(Lowered(View(defs, [1])), PointerTo(0, false), Lower(View(defs, [1]), PointerTo(0, false), BothSet()))
            && var r := ReadRoot(Serialized(PYTHON, View(defs, [1]), 0, BothSet()), View(defs, [0]), 0);
            && r.Got? && r.value == Object(FilterGroups(defs[0], 0), [Record([Flag(true)])], true)
  {
    hide WellDefined, Meets, IsPresent, Serialized, Lowered, Lower, ReadRoot, Seen, Object, TwoFlags, View;
    var defs, t := TwoFlags(), PointerTo(0, false);
    TwoFlagsMeet();
    BothSetFits();
    BothSetSeen();
    ViewDefined(defs, [1]);
    ViewDefined(defs, [0]);
    VersionsMeet(PYTHON, defs, [1], [0], 0, BothSet(), Serialized(PYTHON, View(defs, [1]), 0, BothSet()));
  }

  /** The group of the example, and what is left of it in version 0. */
  function FlagGroup(): Group { BooleanGroup([Field([97], PackedBool, 0), Field([98], PackedBool, 1)]) }

  lemma FlagFields()
    ensures var fs := FlagGroup().descriptors;
            Newest(fs) == 1 && Oldest(fs) == 0 && FilterFields(fs, 0) == [fs[0]]
  {
    var fs := FlagGroup().descriptors;
    assert fs[..1] == [fs[0]] && [fs[0]][..0] == [];
    assert FilterFields([fs[0]], 0) == [fs[0]];
    assert Newest([fs[0]]) == 0 && Oldest([fs[0]]) == 0;
  }

  lemma FlagGroupSound()
    ensures NotEmpty(FlagGroup()) && Aligned(FlagGroup()) && DeclaredGroup(1, FlagGroup()) && BitsAppended(FlagGroup())
    ensures GetMinVersion(FlagGroup()) == 0 && GetMaxVersion(FlagGroup()) == 1
    ensures Filter(FlagGroup(), 0) == BooleanGroup([FlagGroup().descriptors[0]])
    ensures Slot(FlagGroup()) == Bits(2) && GetByteSize(FlagGroup()) == 1
  {
    hide Newest, Oldest, FilterFields;
    FlagFields();
  }

  lemma FlagGroups()
    ensures var gs := [FlagGroup()];
            && TwoFlags() == [gs] && gs[..0] == [] && NoneEmpty([]) && AllAligned([])
            && NoneEmpty(gs) && AllAligned(gs) && DeclaredGroups(1, gs)
            && Appended(gs) && GetVersion(gs) == 1 && FilterGroups(gs, 0) == [Filter(FlagGroup(), 0)]
            && End(gs) == 1 && End([]) == 0 && Offset([], FlagGroup()) == 0
  {
    hide FlagGroup, GetMinVersion, GetMaxVersion, Filter, BitsAppended, DeclaredGroup, NotEmpty, Aligned;
    FlagGroupSound();
    var gs := [FlagGroup()];
    assert gs[..0] == [];
    assert [] + [Filter(FlagGroup(), 0)] == [Filter(FlagGroup(), 0)];
  }

  lemma TwoFlagsMeet()
    ensures |TwoFlags()| == 1 && WellDefined(TwoFlags()) && Meets(TwoFlags(), [1], [0])
    ensures View(TwoFlags(), [1]) == TwoFlags()
  {
    hide FlagGroup, FilterGroups, GetVersion, NoneEmpty, AllAligned, DeclaredGroups, Appended, Stable, End;
    FlagGroups();
    FilterGroupsAll([FlagGroup()], 1);
    AppendedMeets(TwoFlags(), [1], [0]);
  }

  /** The class takes a byte for the flags and seven to fill up. */
  lemma FlagSlots()
    requires WellDefined(TwoFlags())
    ensures var gs := [FlagGroup()];
            && AllAligned(gs) && End(gs) == 1 && NeededPaddingForAlignment(1, 8) == 7
            && Codes(gs) == [Bits(2)] && StructCodes(gs) == [Bits(2), Padding(7)]
            && Lowered(TwoFlags()) == [StructDef(1, [Bits(2), Padding(7)])]
            && Items(TwoFlags(), gs, [BothFlags()]) == [BothFlags()]
  {
    hide WellDefined, FlagGroup, NoneEmpty, DeclaredGroups, Appended, FilterFields, Filter, GetVersion, FilterGroups,
      AllAligned;
    FlagGroups();
    FlagGroupSound();
    var gs, vs := [FlagGroup()], [BothFlags()];
    assert gs[..0] == [] && vs[..0] == [] && Codes([]) == [] && Items(TwoFlags(), [], []) == [];
    assert [] + Pad(0) + [Bits(2)] == [Bits(2)] && [] + Nulls(0) + [BothFlags()] == [BothFlags()];
    assert [Bits(2)] + Pad(7) == [Bits(2), Padding(7)];
  }

  function BothFlags(): Value { Record([Flag(true), Flag(true)]) }

  lemma MadeObject(gs: seq<Group>, vs: seq<Value>)
    requires |vs| == |gs|
    ensures var v := Object(gs, vs, false);
            IsObject(gs, v) && v.Dict? && |v.items| == 2 && v.items[1].Seq? && v.items[1].items == vs
  {
    hide Key;
    assert vs + [] == vs;
  }

  lemma BothSetFits()
    requires WellDefined(TwoFlags())
    ensures IsPresent(Lowered(TwoFlags()), PointerTo(0, false), Lower(TwoFlags(), PointerTo(0, false), BothSet()))
    ensures |Serialized(PYTHON, TwoFlags(), 0, BothSet()).bytes| == 16
    ensures Serialized(PYTHON, TwoFlags(), 0, BothSet()).handles == []
  {
    hide WellDefined, FlagGroup, NoneEmpty, DeclaredGroups, AllAligned, GetVersion, Object, Codes, StructCodes, End,
      Lowered, NeededPaddingForAlignment, Items, EncodeBody, Shaped, BlockSize, BlockWord, IsObject;
    FlagGroups();
    FlagSlots();
    MadeObject([FlagGroup()], [BothFlags()]);
    var vs := [BothFlags(), Null];
    assert [BothFlags()] + Nulls(7) == vs;
    assert Lower(TwoFlags(), PointerTo(0, false), BothSet()) == Record(vs);
    FlagRecord(Lowered(TwoFlags()), vs);
  }

  lemma FlagRecord(sc: Schema, vs: seq<Value>)
    requires sc == [StructDef(1, [Bits(2), Padding(7)])] && vs == [BothFlags(), Null]
    ensures IsPresent(sc, PointerTo(0, false), Record(vs)) && BlockSize(sc, PointerTo(0, false), Record(vs)) == 16
    ensures var b := EncodeBody(PYTHON, sc, PointerTo(0, false), Record(vs), 0); b.tail == [] && b.handles == []
  {
    var ts := [Bits(2), Padding(7)];
    assert ts[..1] == [Bits(2)] && vs[..1] == [BothFlags()] && ts[..1][..0] == [] && vs[..1][..0] == [];
    FlagSlot(sc, 8, 0);
    PaddingSlot(sc, 8, 0);
    assert ShapedAll(sc, [], []) && ShapedAll(sc, ts[..1], vs[..1]);
    PairSize(Bits(2), Padding(7));
    hide EncodeSlots, Encode, Shaped, ShapedAll, SlotsSize;
    var a, b := EncodeLast(PYTHON, sc, ts, vs, 8, 0);
    var none, a' := EncodeLast(PYTHON, sc, ts[..1], vs[..1], 8, 0);
    EncodeNone(PYTHON, sc, 8, 0);
    FlagSlot(sc, 8, 0);
    PaddingSlot(sc, 8 + |a.tail| - |a.slots|, |a.handles|);
  }

  lemma FlagSlot(sc: Schema, gap: int, h: nat)
    ensures Shaped(sc, Bits(2), BothFlags())
    ensures var o := Encode(PYTHON, sc, Bits(2), BothFlags(), gap, h); o.tail == [] && o.handles == []
  {
  }

  lemma PaddingSlot(sc: Schema, gap: int, h: nat)
    ensures Shaped(sc, Padding(7), Null)
    ensures var o := Encode(PYTHON, sc, Padding(7), Null, gap, h); o.tail == [] && o.handles == []
  {
  }

  lemma BothSetSeen()
    requires WellDefined(TwoFlags())
    ensures Seen(PYTHON, TwoFlags(), Common([1], [0]), PointerTo(0, false), BothSet())
         == Some(Object(FilterGroups(TwoFlags()[0], 0), [Record([Flag(true)])], true))
  {
    hide WellDefined, NoneEmpty, AllAligned, DeclaredGroups, Appended, FilterFields, Filter, Oldest, End, Object,
      GetVersion, FilterGroups;
    FlagGroups();
    FlagGroupSound();
    FlagFields();
    var gs, vs := [FlagGroup()], [BothFlags()];
    assert vs[..0] == [] && [Flag(true), Flag(true)][..1] == [Flag(true)] && [Flag(true), Flag(true)][1..] == [Flag(true)];
    MadeObject(gs, vs);
    var a := Common([1], [0]);
    assert SeenFields(PYTHON, TwoFlags(), a, [], 0, []) == Some(Fields([], false));
    var n := |FilterFields(FlagGroup().descriptors, 0)|;
    assert n == 1 && BothFlags().items[..n] == [Flag(true)] && BothFlags().items[n..] == [Flag(true)];
    assert [] + [Record([Flag(true)])] == [Record([Flag(true)])];
    assert SeenFields(PYTHON, TwoFlags(), a, gs, 0, vs) == Some(Fields([Record([Flag(true)])], true));
    assert Seen(PYTHON, TwoFlags(), a, PointerTo(0, false), BothSet())
        == SeenObject(PYTHON, TwoFlags(), a, 0, BothSet());
  }
}
