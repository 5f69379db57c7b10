/** Field groups of a Python struct class: which of them a version has, and where they lie. */
module PyGroups {
  import opened Bytes
  import opened Wire

  datatype Field = Field(name: seq<byte>, fieldType: Type, version: nat)

  /** Fields that are serialized together: one field, or up to eight booleans in one byte. */
  datatype Group = SingleFieldGroup(field: Field) | BooleanGroup(descriptors: seq<Field>)

  function Max(a: int, b: int): int { if a < b then b else a }

  // ---- versions ----

  function Oldest(fs: seq<Field>): nat
    requires fs != []
  {
    var k := |fs| - 1;
    if k == 0 then fs[0].version else Min(Oldest(fs[..k]), fs[k].version)
  }

  function Newest(fs: seq<Field>): nat {
    if fs == [] then 0 else Max(Newest(fs[..|fs| - 1]), fs[|fs| - 1].version)
  }

  predicate NotEmpty(g: Group) { g.BooleanGroup? ==> g.descriptors != [] }

  predicate NoneEmpty(gs: seq<Group>) {
    forall i :: 0 <= i < |gs| ==> NotEmpty(gs[i])
  }

  function GetMinVersion(g: Group): nat
    requires NotEmpty(g)
  {
    if g.SingleFieldGroup? then g.field.version else Oldest(g.descriptors)
  }

  function GetMaxVersion(g: Group): nat {
    if g.SingleFieldGroup? then g.field.version else Newest(g.descriptors)
  }

  function FilterFields(fs: seq<Field>, version: nat): seq<Field> {
    if fs == [] then []
    else
      var k := |fs| - 1;
      FilterFields(fs[..k], version) + (if fs[k].version <= version then [fs[k]] else [])
  }

  function Filter(g: Group, version: nat): Group {
    if g.SingleFieldGroup? then g else BooleanGroup(FilterFields(g.descriptors, version))
  }

  function GetVersion(gs: seq<Group>): nat {
    if gs == [] then 0 else Max(GetVersion(gs[..|gs| - 1]), GetMaxVersion(gs[|gs| - 1]))
  }

  function FilterGroups(gs: seq<Group>, version: nat): (r: seq<Group>)
    requires NoneEmpty(gs)
    ensures NoneEmpty(r)
  {
    hide Filter, GetMinVersion;
    if gs == [] then []
    else
      var k := |gs| - 1;
      KeptNotEmpty(gs[k], version);
      FilterGroups(gs[..k], version) + (if GetMinVersion(gs[k]) <= version then [Filter(gs[k], version)] else [])
  }

  lemma {:induction false} SomeOldEnough(fs: seq<Field>, version: nat)
    requires fs != []
    ensures Oldest(fs) <= version <==> FilterFields(fs, version) != []
  {
    var k := |fs| - 1;
    if k > 0 { SomeOldEnough(fs[..k], version); } else { assert FilterFields(fs[..0], version) == []; }
  }

  lemma KeptNotEmpty(g: Group, version: nat)
    requires NotEmpty(g)
    ensures GetMinVersion(g) <= version ==> NotEmpty(Filter(g, version))
  {
    if g.BooleanGroup? { SomeOldEnough(g.descriptors, version); }
  }

  lemma {:induction false} FilterFieldsTwice(fs: seq<Field>, u: nat, v: nat)
    ensures FilterFields(FilterFields(fs, v), u) == FilterFields(fs, Min(u, v))
  {
    if fs != [] {
      var k := |fs| - 1;
      FilterFieldsTwice(fs[..k], u, v);
      var r := FilterFields(fs[..k], v);
      assert (r + [fs[k]])[..|r|] == r;
      assert r + [] == r;
    }
  }

  lemma NewestMore(fs: seq<Field>, f: Field)
    ensures Newest(fs + [f]) == Max(Newest(fs), f.version)
  {
    assert (fs + [f])[..|fs|] == fs;
  }

  lemma {:induction false} FilterFieldsAll(fs: seq<Field>, v: nat)
    ensures Newest(fs) <= v ==> FilterFields(fs, v) == fs
    ensures Newest(FilterFields(fs, v)) <= v && Newest(FilterFields(fs, v)) <= Newest(fs)
  {
    hide Newest, FilterFields;
    if fs == [] {
      NoFields(v);
    } else {
      var k := |fs| - 1;
      FilterFieldsAll(fs[..k], v);
      LastField(fs, v);
      NewestMore(FilterFields(fs[..k], v), fs[k]);
    }
  }

  lemma NoFields(v: nat)
    ensures Newest([]) == 0 && FilterFields([], v) == []
  {
  }

  lemma LastField(fs: seq<Field>, v: nat)
    requires fs != []
    ensures var k := |fs| - 1;
            && Newest(fs) == Max(Newest(fs[..k]), fs[k].version) && fs == fs[..k] + [fs[k]]
            && FilterFields(fs, v) == if fs[k].version <= v then FilterFields(fs[..k], v) + [fs[k]] else FilterFields(fs[..k], v)
  {
  }

  lemma FilterTwice(g: Group, u: nat, v: nat)
    requires NotEmpty(g)
    ensures Filter(Filter(g, v), u) == Filter(g, Min(u, v))
    ensures GetMinVersion(g) <= v ==>
              NotEmpty(Filter(g, v)) && (GetMinVersion(Filter(g, v)) <= u <==> GetMinVersion(g) <= Min(u, v))
  {
    KeptNotEmpty(g, v);
    if g.BooleanGroup? {
      FilterFieldsTwice(g.descriptors, u, v);
      SomeOldEnough(g.descriptors, Min(u, v));
      if GetMinVersion(g) <= v { SomeOldEnough(FilterFields(g.descriptors, v), u); }
    }
  }

  lemma FilterAll(g: Group, v: nat)
    requires NotEmpty(g)
    ensures GetMaxVersion(g) <= v ==> Filter(g, v) == g && GetMinVersion(g) <= v
    ensures GetMinVersion(g) <= v ==> GetMaxVersion(Filter(g, v)) <= v && GetMaxVersion(Filter(g, v)) <= GetMaxVersion(g)
  {
    if g.BooleanGroup? {
      FilterFieldsAll(g.descriptors, v);
      SomeOldEnough(g.descriptors, v);
    }
  }

  lemma {:induction false} FilterGroupsTwice(gs: seq<Group>, u: nat, v: nat)
    requires NoneEmpty(gs)
    ensures FilterGroups(FilterGroups(gs, v), u) == FilterGroups(gs, Min(u, v))
  {
    hide Filter, GetMinVersion, NotEmpty;
    if gs != [] {
      var k := |gs| - 1;
      FilterGroupsTwice(gs[..k], u, v);
      FilterTwice(gs[k], u, v);
      var r := FilterGroups(gs[..k], v);
      assert (r + [Filter(gs[k], v)])[..|r|] == r;
      assert r + [] == r;
    }
  }

  lemma {:induction false} FilterGroupsAll(gs: seq<Group>, v: nat)
    requires NoneEmpty(gs)
    ensures GetVersion(gs) <= v ==> FilterGroups(gs, v) == gs
    ensures GetVersion(FilterGroups(gs, v)) <= v && GetVersion(FilterGroups(gs, v)) <= GetVersion(gs)
  {
    hide Filter, GetMinVersion, GetMaxVersion, NotEmpty, FilterGroups, GetVersion;
    if gs == [] {
      NoGroups(v);
    } else {
      var k := |gs| - 1;
      FilterGroupsAll(gs[..k], v);
      LastGroup(gs, v);
      FilterAll(gs[k], v);
      VersionMore(FilterGroups(gs[..k], v), Filter(gs[k], v));
    }
  }

  lemma NoGroups(v: nat)
    ensures GetVersion([]) == 0 && FilterGroups([], v) == []
  {
  }

  lemma LastGroup(gs: seq<Group>, v: nat)
    requires NoneEmpty(gs) && gs != []
    ensures var k := |gs| - 1;
            && NoneEmpty(gs[..k]) && NotEmpty(gs[k]) && gs == gs[..k] + [gs[k]]
            && GetVersion(gs) == Max(GetVersion(gs[..k]), GetMaxVersion(gs[k]))
            && FilterGroups(gs, v)
               == if GetMinVersion(gs[k]) <= v then FilterGroups(gs[..k], v) + [Filter(gs[k], v)] else FilterGroups(gs[..k], v)
  {
    hide Filter, GetMinVersion, GetMaxVersion, NotEmpty;
  }

  lemma VersionMore(gs: seq<Group>, g: Group)
    ensures GetVersion(gs + [g]) == Max(GetVersion(gs), GetMaxVersion(g))
  {
    hide GetMaxVersion;
    assert (gs + [g])[..|gs|] == gs;
  }

  /** The version an old writer stamps selects, from any newer definition, exactly the groups the old writer had. */
  lemma StampSelects(gs: seq<Group>, v: nat)
    requires NoneEmpty(gs)
    ensures FilterGroups(gs, GetVersion(FilterGroups(gs, v))) == FilterGroups(gs, v)
  {
    hide FilterGroups, GetVersion;
    var written := FilterGroups(gs, v);
    FilterGroupsAll(gs, v);
    FilterGroupsAll(written, GetVersion(written));
    FilterGroupsTwice(gs, GetVersion(written), v);
  }

  /** The groups with which a reader takes apart a struct that carries this version. */
  function ReadingGroups(gs: seq<Group>, version: nat): seq<Group>
    requires NoneEmpty(gs)
  {
    if version < GetVersion(gs) then FilterGroups(gs, version) else gs
  }

  /** Two ends that know one definition up to versions w and r understand the groups both know: the older end's. */
  lemma CommonGroups(definition: seq<Group>, w: nat, r: nat)
    requires NoneEmpty(definition)
    ensures var written, known := FilterGroups(definition, w), FilterGroups(definition, r);
            && ReadingGroups(known, GetVersion(written)) == FilterGroups(written, Min(w, r))
                                                        == FilterGroups(definition, Min(w, r))
            && (GetVersion(written) <= GetVersion(known) ==> FilterGroups(written, Min(w, r)) == written)
  {
    hide FilterGroups, GetVersion;
    var written, known := FilterGroups(definition, w), FilterGroups(definition, r);
    var s := GetVersion(written);
    FilterGroupsTwice(definition, Min(w, r), w);
    FilterGroupsTwice(definition, s, r);
    FilterGroupsTwice(definition, s, w);
    FilterGroupsAll(definition, w);
    FilterGroupsAll(definition, r);
    FilterGroupsAll(written, s);
    FilterGroupsAll(written, Min(w, r));
    FilterGroupsAll(known, s);
    FilterGroupsTwice(definition, r, w);
  }

  // ---- layout ----

  function NeededPaddingForAlignment(value: nat, alignment: nat): (p: nat)
    requires alignment > 0
    ensures p < alignment && (value + p) % alignment == 0
  {
    if value % alignment != 0 then
      PaddingAligns(value, alignment);
      alignment - value % alignment
    else 0
  }

  lemma PaddingAligns(value: nat, alignment: nat)
    requires alignment > 0
    ensures (value + (alignment - value % alignment)) % alignment == 0
  {
    var q := value / alignment;
    assert value + (alignment - value % alignment) == (q + 1) * alignment + 0;
    ModUnique(value + (alignment - value % alignment), q + 1, 0, alignment);
  }

  /** What a group occupies: the type of its field, or the byte of its booleans. */
  function Slot(g: Group): Type {
    if g.SingleFieldGroup? then g.field.fieldType else Bits(|g.descriptors|)
  }

  function GetByteSize(g: Group): nat { SlotSize(Slot(g)) }

  /** Every type code packs one number, so a group is aligned to its size. */
  function GetAlignment(g: Group): nat { GetByteSize(g) }

  predicate Aligned(g: Group) { GetAlignment(g) in {1, 2, 4, 8} }

  predicate AllAligned(gs: seq<Group>) {
    forall i :: 0 <= i < |gs| ==> Aligned(gs[i])
  }

  /** Where a group lies when it follows gs, counted from the end of the header. */
  function Offset(gs: seq<Group>, g: Group): (n: nat)
    requires AllAligned(gs) && Aligned(g)
    ensures End(gs) <= n && n % GetAlignment(g) == 0
    decreases |gs|, 1
  {
    hide NeededPaddingForAlignment, End;
    End(gs) + NeededPaddingForAlignment(End(gs), GetAlignment(g))
  }

  function End(gs: seq<Group>): nat
    requires AllAligned(gs)
    decreases |gs|, 0
  {
    hide Aligned, GetByteSize;
    if gs == [] then 0
    else
      var k := |gs| - 1;
      Offset(gs[..k], gs[k]) + GetByteSize(gs[k])
  }

  lemma EndLast(gs: seq<Group>)
    requires AllAligned(gs) && gs != []
    ensures var k := |gs| - 1;
            && AllAligned(gs[..k]) && Aligned(gs[k])
            && End(gs[..k]) <= Offset(gs[..k], gs[k]) && Offset(gs[..k], gs[k]) + GetByteSize(gs[k]) == End(gs)
  {
    hide Aligned, GetByteSize, Offset;
    assert Aligned(gs[|gs| - 1]);
  }

  /** The size of a struct without its header. */
  function StructSize(gs: seq<Group>): (n: nat)
    requires AllAligned(gs)
    ensures n % 8 == 0 && End(gs) <= n < End(gs) + 8
  {
    hide Padded, End;
    Padded(End(gs))
  }

  function Padded(n: nat): (r: nat)
    ensures r % 8 == 0 && n <= r < n + 8
  {
    hide NeededPaddingForAlignment;
    n + NeededPaddingForAlignment(n, 8)
  }

  function Pad(n: nat): seq<Type> { if n == 0 then [] else [Padding(n)] }

  function Codes(gs: seq<Group>): seq<Type>
    requires AllAligned(gs)
  {
    if gs == [] then []
    else
      var k := |gs| - 1;
      Codes(gs[..k]) + Pad(NeededPaddingForAlignment(End(gs[..k]), GetAlignment(gs[k]))) + [Slot(gs[k])]
  }

  function StructCodes(gs: seq<Group>): seq<Type>
    requires AllAligned(gs)
  {
    Codes(gs) + Pad(NeededPaddingForAlignment(End(gs), 8))
  }

  lemma CodesMore(gs: seq<Group>)
    requires AllAligned(gs) && gs != []
    ensures var k := |gs| - 1;
            && AllAligned(gs[..k]) && Aligned(gs[k])
            && Codes(gs) == Codes(gs[..k]) + Pad(Offset(gs[..k], gs[k]) - End(gs[..k])) + [Slot(gs[k])]
  {
    hide NeededPaddingForAlignment, End, GetByteSize, Slot, AllAligned, Aligned, Pad;
    EndLast(gs);
  }

  /** The layout loop that makes the format of a struct. */
  method GetStruct(groups: seq<Group>) returns (codes: seq<Type>)
    requires AllAligned(groups)
    ensures codes == StructCodes(groups) && SlotsSize(codes) == StructSize(groups)
  {
    hide NeededPaddingForAlignment, GetByteSize, Aligned, SlotsSize, Slot;
    var index := 0;
    codes := [];
    for i := 0 to |groups|
      invariant AllAligned(groups[..i]) && codes == Codes(groups[..i]) && index == End(groups[..i])
    {
      var group := groups[i];
      assert Aligned(group) && groups[..i + 1][..i] == groups[..i];
      AlignmentPositive(group);
      var neededPadding := NeededPaddingForAlignment(index, GetAlignment(group));
      if neededPadding != 0 {
        codes := codes + [Padding(neededPadding)];
        index := index + neededPadding;
      }
      codes := codes + [Slot(group)];
      index := index + GetByteSize(group);
    }
    assert groups[..|groups|] == groups;
    var alignmentNeeded := NeededPaddingForAlignment(index, 8);
    if alignmentNeeded != 0 {
      codes := codes + [Padding(alignmentNeeded)];
    }
    StructCodesSize(groups);
  }

  lemma AlignmentPositive(g: Group)
    requires Aligned(g)
    ensures GetAlignment(g) > 0
  {
  }

  lemma SlotsSizeMore(ts: seq<Type>, t: Type)
    ensures SlotsSize(ts + [t]) == SlotsSize(ts) + SlotSize(t)
  {
    assert (ts + [t])[..|ts|] == ts;
  }

  lemma SlotsSizePad(ts: seq<Type>, n: nat)
    ensures SlotsSize(ts + Pad(n)) == SlotsSize(ts) + n
  {
    if n == 0 { assert ts + [] == ts; } else { SlotsSizeMore(ts, Padding(n)); }
  }

  lemma {:induction false} CodesSize(gs: seq<Group>)
    requires AllAligned(gs)
    ensures SlotsSize(Codes(gs)) == End(gs)
  {
    hide NeededPaddingForAlignment, SlotsSize, Aligned, SlotSize, Slot;
    if gs == [] {
      NoSlots();
    } else {
      var k := |gs| - 1;
      CodesSize(gs[..k]);
      assert Aligned(gs[k]);
      AlignmentPositive(gs[k]);
      var p := NeededPaddingForAlignment(End(gs[..k]), GetAlignment(gs[k]));
      SlotsSizePad(Codes(gs[..k]), p);
      SlotsSizeMore(Codes(gs[..k]) + Pad(p), Slot(gs[k]));
    }
  }

  lemma StructCodesSize(gs: seq<Group>)
    requires AllAligned(gs)
    ensures SlotsSize(StructCodes(gs)) == StructSize(gs)
  {
    hide Codes, SlotsSize;
    CodesSize(gs);
    SlotsSizePad(Codes(gs), NeededPaddingForAlignment(End(gs), 8));
  }

  /** The header does not disturb alignment, so positions counted from the start of the struct, as the serializing and
      deserializing loops count them, are those of the layout loop. */
  lemma PositionsAgree(index: nat, alignment: nat)
    requires alignment in {1, 2, 4, 8}
    ensures NeededPaddingForAlignment(8 + index, alignment) == NeededPaddingForAlignment(index, alignment)
  {
    hide NeededPaddingForAlignment;
    var q := index / alignment;
    if alignment == 1 {
      SamePadding(8 + index, index, 1);
    } else if alignment == 2 {
      ModUnique(8 + index, q + 4, index % 2, 2);
      SamePadding(8 + index, index, 2);
    } else if alignment == 4 {
      ModUnique(8 + index, q + 2, index % 4, 4);
      SamePadding(8 + index, index, 4);
    } else {
      ModUnique(8 + index, q + 1, index % 8, 8);
      SamePadding(8 + index, index, 8);
    }
  }

  lemma SamePadding(m: nat, n: nat, alignment: nat)
    requires alignment > 0 && m % alignment == n % alignment
    ensures NeededPaddingForAlignment(m, alignment) == NeededPaddingForAlignment(n, alignment)
  {
  }

  // ---- what does not move ----

  /** Every group that version a has lies where the newer groups leave it, and its booleans keep their bits. */
  predicate Stable(gs: seq<Group>, a: nat)
    requires NoneEmpty(gs) && AllAligned(gs)
  {
    gs == [] ||
    var k := |gs| - 1;
    && Stable(gs[..k], a)
    && AllAligned(FilterGroups(gs[..k], a))
    && (GetMinVersion(gs[k]) <= a ==>
          && Offset(FilterGroups(gs[..k], a), gs[k]) == Offset(gs[..k], gs[k])
          && KeepsBits(gs[k], a))
  }

  predicate KeepsBits(g: Group, a: nat) {
    g.BooleanGroup? ==> FilterFields(g.descriptors, a) <= g.descriptors
  }

  lemma FilterAligned(g: Group, a: nat)
    requires Aligned(g)
    ensures Aligned(Filter(g, a)) && GetByteSize(Filter(g, a)) == GetByteSize(g)
  {
  }

  lemma {:induction false} FilterGroupsAligned(gs: seq<Group>, a: nat)
    requires NoneEmpty(gs) && AllAligned(gs)
    ensures AllAligned(FilterGroups(gs, a))
  {
    hide Filter, GetMinVersion, Aligned, NotEmpty;
    if gs != [] {
      var k := |gs| - 1;
      FilterGroupsAligned(gs[..k], a);
      assert Aligned(gs[k]);
      FilterAligned(gs[k], a);
    }
  }

  /** The groups a version has never need more room than all groups. */
  lemma {:induction false} FilterFits(gs: seq<Group>, a: nat)
    requires NoneEmpty(gs) && AllAligned(gs) && Stable(gs, a)
    ensures AllAligned(FilterGroups(gs, a)) && End(FilterGroups(gs, a)) <= End(gs)
  {
    hide Filter, GetMinVersion, Aligned, NotEmpty, GetByteSize, NeededPaddingForAlignment, KeepsBits, Offset;
    FilterGroupsAligned(gs, a);
    if gs != [] {
      var k := |gs| - 1;
      EndLast(gs);
      FilterFits(gs[..k], a);
      assert Aligned(gs[k]);
      var f := FilterGroups(gs[..k], a);
      assert (f + [Filter(gs[k], a)])[..|f|] == f && f + [] == f;
      FilterAligned(gs[k], a);
      hide FilterGroups, Stable;
      OffsetOfFiltered(f, gs[k], a);
    }
  }

  lemma OffsetOfFiltered(gs: seq<Group>, g: Group, a: nat)
    requires AllAligned(gs) && Aligned(g)
    ensures Aligned(Filter(g, a)) && Offset(gs, Filter(g, a)) == Offset(gs, g)
  {
    FilterAligned(g, a);
  }

  /** A definition that only ever grew at its end. */
  predicate Appended(gs: seq<Group>)
    requires NoneEmpty(gs)
  {
    && (forall i, j :: 0 <= i < j < |gs| ==> GetMinVersion(gs[i]) <= GetMinVersion(gs[j]))
    && (forall i :: 0 <= i < |gs| ==> BitsAppended(gs[i]))
  }

  predicate BitsAppended(g: Group) {
    g.BooleanGroup? ==>
      forall i, j :: 0 <= i < j < |g.descriptors| ==> g.descriptors[i].version <= g.descriptors[j].version
  }

  lemma {:induction false} OldFieldsFirst(fs: seq<Field>, a: nat)
    requires forall i, j :: 0 <= i < j < |fs| ==> fs[i].version <= fs[j].version
    ensures FilterFields(fs, a) <= fs
    ensures fs != [] && fs[|fs| - 1].version <= a ==> FilterFields(fs, a) == fs
  {
    if fs != [] {
      var k := |fs| - 1;
      OldFieldsFirst(fs[..k], a);
      assert fs == fs[..k] + [fs[k]];
    }
  }

  lemma {:induction false} AppendedStable(gs: seq<Group>, a: nat)
    requires NoneEmpty(gs) && AllAligned(gs) && Appended(gs)
    ensures Stable(gs, a)
    ensures gs != [] && GetMinVersion(gs[|gs| - 1]) <= a ==> EndsAlike(FilterGroups(gs, a), gs)
  {
    hide Filter, FilterGroups, GetMinVersion, Aligned, NotEmpty, GetByteSize, BitsAppended, KeepsBits, Offset, End,
      Stable, EndsAlike;
    if gs == [] {
      NothingStable(a);
    } else {
      var k := |gs| - 1;
      AppendedStable(gs[..k], a);
      FilterGroupsAligned(gs[..k], a);
      assert Aligned(gs[k]) && BitsAppended(gs[k]);
      KeepsItsBits(gs[k], a);
      if k == 0 { NothingStable(a); }
      if GetMinVersion(gs[k]) <= a {
        if k > 0 { assert GetMinVersion(gs[k - 1]) <= GetMinVersion(gs[k]); }
        SameOffset(FilterGroups(gs[..k], a), gs[..k], gs[k]);
        SameEnd(gs, a);
      }
      StableLast(gs, a);
    }
  }

  lemma NothingStable(a: nat)
    ensures Stable([], a) && EndsAlike(FilterGroups([], a), [])
  {
  }

  lemma StableLast(gs: seq<Group>, a: nat)
    requires NoneEmpty(gs) && AllAligned(gs) && gs != []
    ensures var k := |gs| - 1;
            NoneEmpty(gs[..k]) && AllAligned(gs[..k]) && Aligned(gs[k]) && NotEmpty(gs[k])
            && (Stable(gs[..k], a) && AllAligned(FilterGroups(gs[..k], a))
                && (GetMinVersion(gs[k]) <= a ==>
                      Offset(FilterGroups(gs[..k], a), gs[k]) == Offset(gs[..k], gs[k]) && KeepsBits(gs[k], a))
                ==> Stable(gs, a))
  {
    hide FilterGroups, GetMinVersion, Aligned, NotEmpty, KeepsBits, Offset, End;
    assert Aligned(gs[|gs| - 1]) && NotEmpty(gs[|gs| - 1]);
  }

  lemma SameOffset(fs: seq<Group>, gs: seq<Group>, g: Group)
    requires EndsAlike(fs, gs) && Aligned(g)
    ensures Offset(fs, g) == Offset(gs, g)
  {
    hide End, Aligned, NeededPaddingForAlignment, GetAlignment;
  }

  /** With its last group, a filtered list still ends where the whole one does. */
  lemma SameEnd(gs: seq<Group>, a: nat)
    requires NoneEmpty(gs) && AllAligned(gs) && gs != []
    requires var k := |gs| - 1;
             NoneEmpty(gs[..k]) && NotEmpty(gs[k]) && GetMinVersion(gs[k]) <= a && EndsAlike(FilterGroups(gs[..k], a), gs[..k])
    ensures EndsAlike(FilterGroups(gs, a), gs)
  {
    hide Filter, FilterGroups, GetMinVersion, Aligned, NotEmpty, GetByteSize, Offset, End, GetVersion;
    var k := |gs| - 1;
    var f, g := FilterGroups(gs[..k], a), Filter(gs[k], a);
    LastGroup(gs, a);
    FilterGroupsAligned(gs, a);
    EndLast(gs);
    assert (f + [g])[..|f|] == f && (f + [g])[|f|] == g;
    EndLast(f + [g]);
    FilterAligned(gs[k], a);
    OffsetOfFiltered(f, gs[k], a);
    SameOffset(f, gs[..k], gs[k]);
  }

  predicate EndsAlike(fs: seq<Group>, gs: seq<Group>) {
    AllAligned(fs) && AllAligned(gs) && End(fs) == End(gs)
  }

  lemma KeepsItsBits(g: Group, a: nat)
    requires BitsAppended(g)
    ensures KeepsBits(g, a)
  {
    if g.BooleanGroup? { OldFieldsFirst(g.descriptors, a); }
  }
}
