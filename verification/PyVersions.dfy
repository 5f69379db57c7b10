/** Structs that cross versions, and whole messages. */
module PyVersions {
  import opened Bytes
  import opened Wire
  import opened Dictionaries
  import opened PyGroups
  import opened Options
  import opened PyValues
  import opened PyReading
  import opened PyRoundTrip

  // ---- two ends of one definition ----

  /** The classes as they were at these versions. */
  function View(defs: Definitions, versions: seq<nat>): (r: Definitions)
    requires WellDefined(defs) && |versions| == |defs|
    ensures |r| == |defs|
  {
    seq(|defs|, k requires 0 <= k < |defs| => FilterGroups(defs[k], versions[k]))
  }

  function Common(w: seq<nat>, r: seq<nat>): (a: seq<nat>)
    requires |w| == |r|
    ensures |a| == |w|
  {
    seq(|w|, k requires 0 <= k < |w| => Min(w[k], r[k]))
  }

  /** A reader newer than the writer needs nothing; for an older one, what it knows must lie where the newer fields
      leave it. */
  predicate Meets(defs: Definitions, w: seq<nat>, r: seq<nat>)
    requires WellDefined(defs) && |w| == |r| == |defs|
  {
    forall k :: 0 <= k < |defs| ==> w[k] <= r[k] || (Stable(defs[k], w[k]) && Stable(defs[k], r[k]))
  }

  /** Definitions that only grew at their ends always meet that. */
  lemma AppendedMeets(defs: Definitions, w: seq<nat>, r: seq<nat>)
    requires WellDefined(defs) && |w| == |r| == |defs|
    requires forall k :: 0 <= k < |defs| ==> Appended(defs[k])
    ensures Meets(defs, w, r)
  {
    hide Stable, Appended, GetVersion, DeclaredGroups, AllAligned, NoneEmpty;
    forall k | 0 <= k < |defs| ensures w[k] <= r[k] || (Stable(defs[k], w[k]) && Stable(defs[k], r[k])) {
      AppendedStable(defs[k], w[k]);
      AppendedStable(defs[k], r[k]);
    }
  }

  /** With all of its groups nothing moves. */
  lemma {:induction false} WholeStable(gs: seq<Group>, v: nat)
    requires NoneEmpty(gs) && AllAligned(gs) && GetVersion(gs) <= v
    ensures Stable(gs, v)
  {
    hide Filter, GetMinVersion, GetMaxVersion, Aligned, NotEmpty, Offset, FilterFields;
    if gs != [] {
      var k := |gs| - 1;
      WholeStable(gs[..k], v);
      FilterGroupsAll(gs[..k], v);
      FilterAll(gs[k], v);
      assert Filter(gs[k], v) == gs[k] ==> KeepsBits(gs[k], v) by { WholeKeepsBits(gs[k], v); }
      assert NotEmpty(gs[k]);
    }
  }

  lemma WholeKeepsBits(g: Group, v: nat)
    ensures Filter(g, v) == g ==> KeepsBits(g, v)
  {
  }

  lemma {:induction false} StableView(gs: seq<Group>, a: nat, w: nat)
    requires NoneEmpty(gs) && AllAligned(gs) && Stable(gs, a) && Stable(gs, w) && a <= w
    ensures AllAligned(FilterGroups(gs, w)) && Stable(FilterGroups(gs, w), a)
  {
    hide NoneEmpty, AllAligned, Stable, FilterGroups, Filter, GetMinVersion, Offset, KeepsBits, Aligned, NotEmpty;
    if gs == [] {
      StableNothing(a, w);
    } else {
      var k := |gs| - 1;
      FilterLast(gs, w);
      FilterLast(gs, a);
      StableView(gs[..k], a, w);
      if GetMinVersion(gs[k]) <= w { StableOneMore(gs[..k], gs[k], a, w); }
    }
  }

  lemma StableNothing(a: nat, w: nat)
    ensures FilterGroups([], w) == [] && AllAligned([]) && NoneEmpty([]) && Stable([], a)
  {
  }

  lemma StableOneMore(gs: seq<Group>, g: Group, a: nat, w: nat)
    requires NoneEmpty(gs) && AllAligned(gs) && NotEmpty(g) && Aligned(g) && a <= w && GetMinVersion(g) <= w
    requires var f := FilterGroups(gs, w);
             && AllAligned(f) && Stable(f, a) && Aligned(Filter(g, w)) && Offset(f, Filter(g, w)) == Offset(gs, g)
             && AllAligned(f + [Filter(g, w)]) && NoneEmpty(f + [Filter(g, w)])
    requires GetMinVersion(g) <= a ==>
               && AllAligned(FilterGroups(gs, a)) && Aligned(Filter(g, a))
               && Offset(FilterGroups(gs, a), Filter(g, a)) == Offset(gs, g) && KeepsBits(g, a) && KeepsBits(g, w)
    ensures Stable(FilterGroups(gs, w) + [Filter(g, w)], a)
  {
    hide NoneEmpty, AllAligned, FilterGroups, Filter, GetMinVersion, Offset, Aligned, NotEmpty, KeepsBits;
    var f, u := FilterGroups(gs, w), Filter(g, w);
    assert (f + [u])[..|f + [u]| - 1] == f;
    FilterGroupsTwice(gs, a, w);
    FilterGroupsAligned(f, a);
    FilterTwice(g, a, w);
    if GetMinVersion(g) <= a {
      OffsetOfFiltered(FilterGroups(gs, a), u, a);
      BitsKept(g, a, w);
    }
  }

  lemma BitsKept(g: Group, a: nat, w: nat)
    requires KeepsBits(g, a) && KeepsBits(g, w) && a <= w
    ensures KeepsBits(Filter(g, w), a)
  {
    if g.BooleanGroup? {
      var fs := g.descriptors;
      FilterFieldsTwice(fs, a, w);
      FilterFieldsFewer(FilterFields(fs, w), a);
    }
  }

  /** A writer and a reader that know one set of definitions up to versions w and r understand the fields that both
      know. */
  lemma ViewsCompatible(defs: Definitions, w: seq<nat>, r: seq<nat>)
    requires WellDefined(defs) && |w| == |r| == |defs| && Meets(defs, w, r)
    ensures WellDefined(View(defs, w)) && WellDefined(View(defs, r))
    ensures Compatible(View(defs, w), View(defs, r), Common(w, r))
  {
    hide Stable, FilterGroups, ReadingGroups, GetVersion, NoneEmpty, AllAligned, DeclaredGroups;
    ViewDefined(defs, w);
    ViewDefined(defs, r);
    forall k | 0 <= k < |defs| ensures CompatibleClass(View(defs, w)[k], View(defs, r)[k], Common(w, r)[k]) {
      CommonGroups(defs[k], w[k], r[k]);
      if w[k] <= r[k] {
        FilterGroupsAll(defs[k], w[k]);
        WholeStable(View(defs, w)[k], w[k]);
      } else {
        StableView(defs[k], r[k], w[k]);
      }
    }
  }

  lemma ViewDefined(defs: Definitions, w: seq<nat>)
    requires WellDefined(defs) && |w| == |defs|
    ensures WellDefined(View(defs, w))
  {
    hide FilterGroups, GetVersion, NoneEmpty, AllAligned, DeclaredGroups;
    forall k | 0 <= k < |defs|
      ensures var gs := View(defs, w)[k];
              DeclaredGroups(|defs|, gs) && NoneEmpty(gs) && AllAligned(gs) && GetVersion(gs) < TWO32
    {
      DeclaredFiltered(|defs|, defs[k], w[k]);
      FilterGroupsAligned(defs[k], w[k]);
      FilterGroupsAll(defs[k], w[k]);
    }
  }

  // ---- whole messages ----

  /** The struct v of class cls on its own. */
  function Serialized(side: Side, defs: Definitions, cls: nat, v: Value): Message
    requires WellDefined(defs) && IsPresent(Lowered(defs), PointerTo(cls, false), Lower(defs, PointerTo(cls, false), v))
  {
    var t, sc := PointerTo(cls, false), Lowered(defs);
    var lv := Lower(defs, t, v);
    var b := EncodeBody(side, sc, t, lv, 0);
    Message(Block(BlockSize(sc, t, lv), BlockWord(sc, t, lv), b), b.handles)
  }

  /** A message that starts with a struct reads as what is known of that struct. */
  lemma RootReads(e: Exchange, cls: nat, v: Value)
    requires Ready(e) && cls < |e.known| && |e.m.bytes| < TWO32
    requires IsPresent(Lowered(e.written), PointerTo(cls, false), Lower(e.written, PointerTo(cls, false), v))
    requires e.m == Serialized(e.side, e.written, cls, v)
    ensures ReadsAs(ReadRoot(e.m, e.known, cls), Known(e, PointerTo(cls, false), v), |e.m.bytes|, |e.m.handles|)
  {
    hide Ready, Whole, WellDefined, EncodeBody, EncodeSlots, Shaped, ShapedAll, Block, BlockSize, BlockWord, Lowered,
      Lower, GetUint, ReadObject, SlotsSize, Align, Seen, WellFormedAll, WellFormedSchema, IsColumns, Placed, Header;
    ClassesMatch(e);
    var t, sc := PointerTo(cls, false), Lowered(e.written);
    var lv := Lower(e.written, t, v);
    var b := EncodeBody(e.side, sc, t, lv, 0);
    var size := BlockSize(sc, t, lv);
    KindMatches(sc, t, lv);
    DefinitionsLowered(e.written);
    var ts := BodyIsSlots(e.side, sc, t, lv, 0);
    assert e.m.bytes[0..0 + |e.m.bytes|] == e.m.bytes && e.m.handles[0..0 + |e.m.handles|] == e.m.handles;
    BlockWordFits(sc, t, lv);
    PlacedBlock(e.m, 0, 0, size, BlockWord(sc, t, lv), b);
    WholeStart(size);
    ObjectReads(e, t, v, 0, size, 0, Mark(size, 0), b);
  }

  lemma WholeStart(size: nat)
    ensures Whole(0 + 8) && Whole(0 + Align(size))
  {
  }

  /** The main theorem on versions: whatever versions of the definitions the two ends have, and at every depth, the
      reader gets exactly the fields that both versions of a class have. */
  lemma VersionsMeet(side: Side, defs: Definitions, w: seq<nat>, r: seq<nat>, cls: nat, v: Value, m: Message)
    requires WellDefined(defs) && |w| == |r| == |defs| && Meets(defs, w, r) && cls < |defs|
    requires WellDefined(View(defs, w)) && WellDefined(View(defs, r))
    requires IsPresent(Lowered(View(defs, w)), PointerTo(cls, false), Lower(View(defs, w), PointerTo(cls, false), v))
    requires m == Serialized(side, View(defs, w), cls, v) && |m.bytes| < TWO32 && 2 * |m.handles| < TWO32
    ensures var seen := Seen(side, View(defs, w), Common(w, r), PointerTo(cls, false), v);
            var read := ReadRoot(m, View(defs, r), cls);
            && (read.Got? <==> seen.Some?) && (read.Got? ==> read.value == seen.value)
  {
    hide WellDefined, Meets, IsPresent, Serialized, Lowered, Lower, Compatible, ReadRoot, View, Common, Seen;
    ViewsCompatible(defs, w, r);
    RootReads(Exchange(side, m, View(defs, w), View(defs, r), Common(w, r)), cls, v);
  }

  // ---- field by field ----

  /** What is seen of a struct has the groups that the reader knows in their order, each with what is seen of its value. */
  lemma {:induction false} SeenAt(side: Side, defs: Definitions, a: seq<nat>, gs: seq<Group>, version: nat,
                                  vs: seq<Value>, i: nat)
    requires WellDefined(defs) && |a| == |defs| && NoneEmpty(gs) && |vs| == |gs|
    requires i < |gs| && NotEmpty(gs[i]) && GetMinVersion(gs[i]) <= version
    requires SeenFields(side, defs, a, gs, version, vs).Some?
    ensures NoneEmpty(gs[..i])
    ensures var us, j := SeenFields(side, defs, a, gs, version, vs).value.values, |FilterGroups(gs[..i], version)|;
            && j < |us| == |FilterGroups(gs, version)| && FilterGroups(gs, version)[j] == Filter(gs[i], version)
            && (gs[i].SingleFieldGroup? ==> Seen(side, defs, a, gs[i].field.fieldType, vs[i]) == Some(us[j]))
            && (gs[i].BooleanGroup? ==>
                  var n := |FilterFields(gs[i].descriptors, version)|;
                  vs[i].Record? && n <= |vs[i].items| && us[j] == Record(vs[i].items[..n]))
    decreases |gs|
  {
    hide WellDefined, Seen, GetMinVersion, FilterFields, Filter, NotEmpty, FilterGroups;
    var k := |gs| - 1;
    LastGroup(gs, version);
    if i < k {
      assert gs[..k][..i] == gs[..i];
      SeenAt(side, defs, a, gs[..k], version, vs[..k], i);
    }
  }

  /** A number, a handle or a string in a field that both versions know arrives under its name. */
  lemma FieldSurvives(side: Side, defs: Definitions, w: seq<nat>, r: seq<nat>, cls: nat, v: Value, m: Message, i: nat)
    requires WellDefined(defs) && |w| == |r| == |defs| && Meets(defs, w, r) && cls < |defs|
    requires WellDefined(View(defs, w)) && WellDefined(View(defs, r))
    requires IsPresent(Lowered(View(defs, w)), PointerTo(cls, false), Lower(View(defs, w), PointerTo(cls, false), v))
    requires m == Serialized(side, View(defs, w), cls, v) && |m.bytes| < TWO32 && 2 * |m.handles| < TWO32
    requires ReadRoot(m, View(defs, r), cls).Got?
    requires var gs := View(defs, w)[cls];
             && i < |gs| && NotEmpty(gs[i]) && gs[i].SingleFieldGroup? && gs[i].field.version <= Common(w, r)[cls]
             && (gs[i].field.fieldType.Integer? || gs[i].field.fieldType.Handle? || gs[i].field.fieldType.String?)
    ensures v.Dict? && |v.items| == 2 && v.items[1].Seq? && i < |v.items[1].items|
    ensures var u := ReadRoot(m, View(defs, r), cls).value;
            && u.Dict? && |u.items| == 2 && u.items[0].Seq? && u.items[1].Seq? && |u.items[0].items| == |u.items[1].items|
            && exists j :: 0 <= j < |u.items[0].items| && u.items[0].items[j] == Text(View(defs, w)[cls][i].field.name)
                           && u.items[1].items[j] == v.items[1].items[i]
  {
    hide WellDefined, Meets, Shaped, Serialized, Lowered, Lower, ReadRoot, View, Common, NoneEmpty, AllAligned, SeenFields,
      IsObject, FilterGroups, ShapedAll;
    var t, d, a := PointerTo(cls, false), View(defs, w), Common(w, r);
    VersionsMeet(side, defs, w, r, cls, v, m);
    FieldsShaped(d, t, v);
    ClassDefined(d, cls);
    var gs, vs := d[cls], v.items[1].items;
    assert Seen(side, d, a, t, v) == SeenObject(side, d, a, cls, v);
    SingleMin(gs[i]);
    SeenAt(side, d, a, gs, a[cls], vs, i);
    var fields, kept := SeenFields(side, d, a, gs, a[cls], vs).value, FilterGroups(gs, a[cls]);
    var j := |FilterGroups(gs[..i], a[cls])|;
    var u := ReadRoot(m, View(defs, r), cls).value;
    SameKeys(kept, fields.values, fields.stray);
    assert u.items[0].items[j] == Key(kept[j]) && u.items[1].items[j] == fields.values[j];
  }

  lemma SingleMin(g: Group)
    requires g.SingleFieldGroup? && NotEmpty(g)
    ensures GetMinVersion(g) == g.field.version && forall version :: Filter(g, version) == g
  {
  }

  lemma SameKeys(gs: seq<Group>, vs: seq<Value>, stray: bool)
    requires |vs| == |gs|
    ensures var u := Object(gs, vs, stray);
            && u.Dict? && |u.items| == 2 && u.items[0].Seq? && u.items[1].Seq? && |u.items[0].items| == |u.items[1].items|
            && |gs| <= |u.items[0].items|
            && forall j :: 0 <= j < |gs| ==> u.items[0].items[j] == Key(gs[j]) && u.items[1].items[j] == vs[j]
  {
    hide Key;
  }

  // ---- one version ----

  function Own(defs: Definitions): (a: seq<nat>)
    ensures |a| == |defs|
  {
    seq(|defs|, k requires 0 <= k < |defs| => GetVersion(defs[k]))
  }

  lemma {:induction false} AtomsStay(defs: Definitions, t: Type, vs: seq<Value>)
    requires WellDefined(defs) && (t.Integer? || t.PackedBool? || t.String?)
    ensures LowerAll(defs, t, vs) == vs
  {
    hide WellDefined;
    if vs != [] {
      AtomsStay(defs, t, vs[..|vs| - 1]);
      assert vs == vs[..|vs| - 1] + [vs[|vs| - 1]];
    }
  }

  /** A reader of the writer's own version sees the value itself. */
  lemma {:induction false} SeesItself(side: Side, defs: Definitions, t: Type, v: Value)
    requires WellDefined(defs) && Fits(defs, t, v) && Seen(side, defs, Own(defs), t, v).Some?
    ensures Seen(side, defs, Own(defs), t, v) == Some(v)
    decreases v, 1
  {
    hide WellDefined, Lowered, ShapedAll, BlockSlots, WellFormed, Object, SetAll, Own, FlagValues;
    if !IsPointer(t) || v.Null? || t.String? {
    } else if t.PointerTo? {
      SeesObject(side, defs, t, v);
    } else if t.MapOf? {
      SeesMap(side, defs, t, v);
    } else if !t.elem.PackedBool? {
      ItemsShaped(defs, t, v);
      SeesItems(side, defs, t.elem, v.items);
    }
  }

  lemma ItemsShaped(defs: Definitions, t: Type, v: Value)
    requires WellDefined(defs) && IsArray(t) && !t.elem.PackedBool? && v.Seq? && Fits(defs, t, v)
    ensures ShapedAll(Lowered(defs), Repeat(t.elem, |v.items|), LowerAll(defs, t.elem, v.items))
  {
    hide WellDefined, Lowered, ShapedAll, WellFormed;
  }

  lemma {:induction false} SeesItems(side: Side, defs: Definitions, t: Type, vs: seq<Value>)
    requires WellDefined(defs) && ShapedAll(Lowered(defs), Repeat(t, |vs|), LowerAll(defs, t, vs))
    requires SeenAll(side, defs, Own(defs), t, vs).Some?
    ensures SeenAll(side, defs, Own(defs), t, vs) == Some(vs)
    decreases vs, 0
  {
    hide WellDefined, Lowered, ShapedAll, Shaped, Seen, Own, Encode, EncodeSlots, Lower, LowerAll, SlotSize;
    if vs != [] {
      var k := |vs| - 1;
      var a, b := ItemsLast(side, defs, t, vs, 0, 0);
      SeesItems(side, defs, t, vs[..k]);
      SeesItself(side, defs, t, vs[k]);
      assert vs == vs[..k] + [vs[k]];
    }
  }

  lemma {:induction false} SeesMap(side: Side, defs: Definitions, t: Type, v: Value)
    requires WellDefined(defs) && t.MapOf? && !v.Null? && Fits(defs, t, v) && Seen(side, defs, Own(defs), t, v).Some?
    ensures Seen(side, defs, Own(defs), t, v) == Some(v)
    decreases v, 0
  {
    hide WellDefined, Lowered, ShapedAll, Own, SetAll;
    var ks, vs := ArrayOf(t.key, 0), ArrayOf(t.value, 0);
    ColumnsFit(defs, t, v);
    SeesItself(side, defs, ks, v.items[0]);
    SeesItself(side, defs, vs, v.items[1]);
    var keys, values := v.items[0].items, v.items[1].items;
    SetDistinct(keys, values, |keys|);
    assert keys[..|keys|] == keys && values[..|values|] == values;
    assert v.items == [v.items[0], v.items[1]];
  }

  lemma ColumnsFit(defs: Definitions, t: Type, v: Value)
    requires WellDefined(defs) && t.MapOf? && !v.Null? && Fits(defs, t, v)
    ensures v.Dict? && |v.items| == 2 && v.items[0].Seq? && v.items[1].Seq?
    ensures t.key.Integer? || t.key.PackedBool? || t.key.String?
    ensures |v.items[0].items| == |v.items[1].items| && Distinct(v.items[0].items)
    ensures Fits(defs, ArrayOf(t.key, 0), v.items[0]) && Fits(defs, ArrayOf(t.value, 0), v.items[1])
  {
    hide WellDefined, Lowered, ShapedAll, Lower, LowerAll;
    LowerNull(defs, t, v);
    ColumnsLowered(defs, t, v);
    var sc, lv := Lowered(defs), Lower(defs, t, v);
    ShapedColumns(sc, BlockSlots(sc, t, 2), lv.items);
    ColumnItems(defs, t.key, v.items[0]);
    ColumnItems(defs, t.value, v.items[1]);
    KeysStay(defs, t, v);
  }

  lemma LowerNull(defs: Definitions, t: Type, v: Value)
    requires WellDefined(defs)
    ensures IsPointer(t) ==> (v.Null? <==> Lower(defs, t, v).Null?)
  {
    hide WellDefined;
  }

  lemma ColumnsLowered(defs: Definitions, t: Type, v: Value)
    requires WellDefined(defs) && t.MapOf? && !v.Null? && Lower(defs, t, v).Dict?
    ensures v.Dict? && |v.items| == 2
    ensures Lower(defs, t, v).items == [Lower(defs, ArrayOf(t.key, 0), v.items[0]), Lower(defs, ArrayOf(t.value, 0), v.items[1])]
  {
    hide WellDefined;
  }

  lemma ColumnItems(defs: Definitions, t: Type, v: Value)
    requires WellDefined(defs) && Lower(defs, ArrayOf(t, 0), v).Seq?
    ensures v.Seq? && |v.items| == |Lower(defs, ArrayOf(t, 0), v).items|
  {
    hide WellDefined;
  }

  lemma KeysStay(defs: Definitions, t: Type, v: Value)
    requires WellDefined(defs) && t.MapOf? && v.Dict? && |v.items| == 2 && v.items[0].Seq?
    requires t.key.Integer? || t.key.PackedBool? || t.key.String?
    ensures Lower(defs, ArrayOf(t.key, 0), v.items[0]) == v.items[0]
  {
    hide WellDefined;
    AtomsStay(defs, t.key, v.items[0].items);
  }

  lemma {:induction false} SeesObject(side: Side, defs: Definitions, t: Type, v: Value)
    requires WellDefined(defs) && t.PointerTo? && !v.Null? && Fits(defs, t, v)
    requires Seen(side, defs, Own(defs), t, v).Some?
    ensures Seen(side, defs, Own(defs), t, v) == Some(v)
    decreases v, 0
  {
    hide ShapedAll, Object, SeenFields, FilterGroups, Items, Codes, NeededPaddingForAlignment, DeclaredGroups,
      GetVersion, AllAligned, NoneEmpty, End, Pad, Nulls;
    var gs, vs := defs[t.cls], v.items[1].items;
    assert Seen(side, defs, Own(defs), t, v) == SeenObject(side, defs, Own(defs), t.cls, v);
    FilterGroupsAll(gs, GetVersion(gs));
    FieldsShaped(defs, t, v);
    SeesFields(side, defs, gs, GetVersion(gs), vs);
  }

  lemma FieldsShaped(defs: Definitions, t: Type, v: Value)
    requires WellDefined(defs) && t.PointerTo? && !v.Null? && Fits(defs, t, v)
    ensures t.cls < |defs| && IsObject(defs[t.cls], v) && v.Dict? && |v.items| == 2 && v.items[1].Seq?
    ensures var gs, vs := defs[t.cls], v.items[1].items;
            AllAligned(gs) && |vs| == |gs| && ShapedAll(Lowered(defs), Codes(gs), Items(defs, gs, vs))
  {
    hide ShapedAll, Object, Items, Codes, NeededPaddingForAlignment, DeclaredGroups, NoneEmpty, End, Pad, Nulls;
    var gs := defs[t.cls];
    EncodePad(PYTHON, Lowered(defs), Codes(gs), Items(defs, gs, v.items[1].items), NeededPaddingForAlignment(End(gs), 8), 0, 0);
  }

  lemma ClassDefined(defs: Definitions, cls: nat)
    requires WellDefined(defs) && cls < |defs|
    ensures DeclaredGroups(|defs|, defs[cls]) && AllAligned(defs[cls]) && NoneEmpty(defs[cls])
  {
    hide DeclaredGroups, AllAligned, NoneEmpty, GetVersion;
  }

  lemma ObjectLowered(defs: Definitions, t: Type, v: Value)
    requires WellDefined(defs) && t.PointerTo? && t.cls < |defs| && IsObject(defs[t.cls], v) && AllAligned(defs[t.cls])
    requires v.Dict? && |v.items| == 2 && v.items[1].Seq? && |v.items[1].items| == |defs[t.cls]|
    ensures Lower(defs, t, v) == Record(Items(defs, defs[t.cls], v.items[1].items)
                                        + Nulls(NeededPaddingForAlignment(End(defs[t.cls]), 8)))
    ensures Lowered(defs)[t.cls].slots
         == Codes(defs[t.cls]) + Pad(NeededPaddingForAlignment(End(defs[t.cls]), 8))
  {
    hide AllAligned, DeclaredGroups, NoneEmpty, Object, Items, Codes, End, NeededPaddingForAlignment, Pad, Nulls;
  }

  lemma {:induction false} SeesFields(side: Side, defs: Definitions, gs: seq<Group>, version: nat, vs: seq<Value>)
    requires WellDefined(defs) && AllAligned(gs) && NoneEmpty(gs) && |vs| == |gs| && GetVersion(gs) <= version
    requires ShapedAll(Lowered(defs), Codes(gs), Items(defs, gs, vs))
    requires SeenFields(side, defs, Own(defs), gs, version, vs).Some?
    ensures SeenFields(side, defs, Own(defs), gs, version, vs) == Some(Fields(vs, false))
    decreases vs, 0
  {
    hide WellDefined, Lowered, ShapedAll, Shaped, Seen, Own, Encode, EncodeSlots, Lower, Items, Codes, SlotSize,
      GetMinVersion, GetMaxVersion, FilterGroups, AllAligned, End, Offset, FilterFields, GetByteSize;
    if gs != [] {
      var k := |gs| - 1;
      var a, b := CodesLast(side, defs, gs, vs, 0, 0);
      FilterAll(gs[k], version);
      SeesFields(side, defs, gs[..k], version, vs[..k]);
      if gs[k].SingleFieldGroup? {
        SeesItself(side, defs, gs[k].field.fieldType, vs[k]);
      } else {
        BooleansFit(defs, gs[k], vs[k]);
        assert vs[k].items[..|vs[k].items|] == vs[k].items;
      }
      assert vs == vs[..k] + [vs[k]];
    }
  }

  lemma BooleansFit(defs: Definitions, g: Group, v: Value)
    requires WellDefined(defs) && g.BooleanGroup? && Fits(defs, Slot(g), v)
    ensures v.Record? && |v.items| == |g.descriptors|
  {
    hide WellDefined, Lowered;
  }

  /** What is serialized is deserialized: the same object, its handles included, wherever nulls and lengths are as the
      types ask. */
  lemma StructRoundTrip(defs: Definitions, cls: nat, v: Value, m: Message)
    requires WellDefined(defs) && cls < |defs|
    requires IsPresent(Lowered(defs), PointerTo(cls, false), Lower(defs, PointerTo(cls, false), v))
    requires m == Serialized(PYTHON, defs, cls, v) && |m.bytes| < TWO32 && 2 * |m.handles| < TWO32
    requires Seen(PYTHON, defs, Own(defs), PointerTo(cls, false), v).Some?
    ensures var r := ReadRoot(m, defs, cls); r.Got? && r.value == v
  {
    hide Lowered, Lower, ReadRoot, Seen, Serialized, Shaped, Stable, FilterGroups, GetVersion, NoneEmpty, AllAligned,
      DeclaredGroups, ReadingGroups;
    SeesItself(PYTHON, defs, PointerTo(cls, false), v);
    forall k | 0 <= k < |defs| ensures CompatibleClass(defs[k], defs[k], Own(defs)[k]) {
      FilterGroupsAll(defs[k], Own(defs)[k]);
      CommonGroups(defs[k], Own(defs)[k], Own(defs)[k]);
      WholeStable(defs[k], Own(defs)[k]);
    }
    RootReads(Exchange(PYTHON, m, defs, defs, Own(defs)), cls, v);
  }
}
