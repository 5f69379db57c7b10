/** Python values: what is written for them, and what a reader of another version sees of them. */
module PyValues {
  import opened Wire
  import opened PyGroups
  import opened Dictionaries
  import opened Options

  /** The struct classes of a program, each given by its field groups. */
  type Definitions = seq<seq<Group>>

  /** Types that Python serializes without creating anything: no interfaces. */
  predicate IsPlain(t: Type) {
    match t
    case Interface(_) => false
    case ArrayOf(elem, _) => IsPlain(elem)
    case NullableArrayOf(elem, _) => IsPlain(elem)
    case MapOf(key, value, _) => IsPlain(key) && IsPlain(value)
    case _ => true
  }

  /** The types of single fields, of n classes. */
  predicate Declared(n: nat, t: Type) {
    !t.Padding? && !t.Bits? && IsPlain(t) && WellFormed(Classes(n), t)
  }

  /** Types refer to classes by number; what is in the classes does not matter for that. */
  function Classes(n: nat): (sc: Schema)
    ensures |sc| == n
  {
    seq(n, i => StructDef(0, []))
  }

  predicate DeclaredGroup(n: nat, g: Group) {
    if g.SingleFieldGroup? then Declared(n, g.field.fieldType) else 1 <= |g.descriptors| <= 8
  }

  predicate DeclaredGroups(n: nat, gs: seq<Group>) {
    gs == [] || (DeclaredGroups(n, gs[..|gs| - 1]) && DeclaredGroup(n, gs[|gs| - 1]))
  }

  predicate WellDefined(defs: Definitions) {
    forall k :: 0 <= k < |defs| ==>
      DeclaredGroups(|defs|, defs[k]) && NoneEmpty(defs[k]) && AllAligned(defs[k]) && GetVersion(defs[k]) < TWO32
  }

  /** The classes as the wire format sees them. */
  function Lowered(defs: Definitions): (sc: Schema)
    requires WellDefined(defs)
    ensures |sc| == |defs|
  {
    seq(|defs|, k requires 0 <= k < |defs| => StructDef(GetVersion(defs[k]), StructCodes(defs[k])))
  }

  lemma {:induction false} SameWellFormed(n: nat, sc: Schema, t: Type)
    requires |sc| == n
    ensures WellFormed(Classes(n), t) <==> WellFormed(sc, t)
    ensures WellFormedElement(Classes(n), t) <==> WellFormedElement(sc, t)
  {
    match t
    case ArrayOf(elem, _) => SameWellFormed(n, sc, elem);
    case NullableArrayOf(elem, _) => SameWellFormed(n, sc, elem);
    case MapOf(key, value, _) => SameWellFormed(n, sc, key); SameWellFormed(n, sc, value);
    case _ =>
  }

  // ---- objects ----

  /** The name of a group's field; the names of a boolean group's fields, together. */
  function Key(g: Group): Value {
    if g.SingleFieldGroup? then Text(g.field.name) else Seq(FieldNames(g.descriptors))
  }

  function FieldNames(fs: seq<Field>): (vs: seq<Value>)
    ensures |vs| == |fs|
  {
    seq(|fs|, i requires 0 <= i < |fs| => Text(fs[i].name))
  }

  function Keys(gs: seq<Group>): (vs: seq<Value>)
    ensures |vs| == |gs|
  {
    seq(|gs|, i requires 0 <= i < |gs| => Key(gs[i]))
  }

  /** An object is the dictionary of its fields, listed group by group; `stray` is the entry that a reader adds under
      the key False, not a field name, when a boolean byte has bits beyond the fields it knows. */
  function Object(gs: seq<Group>, vs: seq<Value>, stray: bool): Value {
    Dict([Seq(Keys(gs) + (if stray then [Flag(false)] else [])), Seq(vs + (if stray then [Flag(true)] else []))])
  }

  /** v is an object of the class with these groups, with a value for each of them. */
  predicate IsObject(gs: seq<Group>, v: Value) {
    && v.Dict? && |v.items| == 2 && v.items[1].Seq? && |v.items[1].items| == |gs|
    && v == Object(gs, v.items[1].items, false)
  }

  // ---- as the wire format sees it ----

  function Misfit(v: Value): Value { if v.Null? then Null else Undefined }

  function Nulls(n: nat): seq<Value> { if n == 0 then [] else [Null] }

  /** A value with every object laid out as a record of slots. What does not fit its type has no shape. */
  function Lower(defs: Definitions, t: Type, v: Value): Value
    requires WellDefined(defs)
    decreases v, 3, 0
  {
    hide DeclaredGroups, AllAligned, NoneEmpty;
    if t.PointerTo? then
      if t.cls < |defs| && IsObject(defs[t.cls], v) then
        var gs := defs[t.cls];
        Record(Items(defs, gs, v.items[1].items) + Nulls(NeededPaddingForAlignment(End(gs), 8)))
      else Misfit(v)
    else if t.MapOf? then
      if v.Dict? && |v.items| == 2 then
        Dict([Lower(defs, ArrayOf(t.key, 0), v.items[0]), Lower(defs, ArrayOf(t.value, 0), v.items[1])])
      else Misfit(v)
    else if IsArray(t) && !t.elem.PackedBool? then
      if v.Seq? then Seq(LowerAll(defs, t.elem, v.items)) else Misfit(v)
    else v
  }

  function LowerAll(defs: Definitions, t: Type, vs: seq<Value>): (r: seq<Value>)
    requires WellDefined(defs)
    ensures |r| == |vs|
    decreases vs, 1, 0
  {
    if vs == [] then []
    else
      var k := |vs| - 1;
      LowerAll(defs, t, vs[..k]) + [Lower(defs, t, vs[k])]
  }

  function Items(defs: Definitions, gs: seq<Group>, vs: seq<Value>): (r: seq<Value>)
    requires WellDefined(defs) && AllAligned(gs) && |gs| == |vs|
    decreases vs, 2, 0
  {
    if gs == [] then []
    else
      var k := |gs| - 1;
      Items(defs, gs[..k], vs[..k]) + Nulls(NeededPaddingForAlignment(End(gs[..k]), GetAlignment(gs[k])))
        + [Lower(defs, Slot(gs[k]), vs[k])]
  }

  /** The value is one that the type describes. */
  predicate Fits(defs: Definitions, t: Type, v: Value)
    requires WellDefined(defs)
  {
    Shaped(Lowered(defs), t, Lower(defs, t, v))
  }

  // ---- as a reader sees it ----

  /** What a reader gets of a value, when of the fields of class k it knows those of version a[k]: None stands for an
      exception, on account of a null or a length its types do not allow. */
  function Seen(side: Side, defs: Definitions, a: seq<nat>, t: Type, v: Value): Option<Value>
    requires WellDefined(defs) && |a| == |defs|
    decreases v, 3, 0
  {
    if t.Handle? then if side.Python? && v.Null? && !t.nullable then None else Some(v)
    else if !IsPointer(t) then Some(v)
    else if v.Null? then if Nullable(t) then Some(Null) else None
    else if t.PointerTo? then
      if t.cls < |defs| && IsObject(defs[t.cls], v)
      then SeenObject(side, defs, a, t.cls, v)
      else None
    else if t.MapOf? then
      if v.Dict? && |v.items| == 2 then
        var keys := Seen(side, defs, a, ArrayOf(t.key, 0), v.items[0]);
        var values := Seen(side, defs, a, ArrayOf(t.value, 0), v.items[1]);
        if keys.None? || values.None? then None else SeenMap(keys.value, values.value)
      else None
    else if t.String? then Some(v)
    else if !v.Seq? || (t.length != 0 && |v.items| != t.length) then None
    else if t.elem.PackedBool? then Some(v)
    else
      var items := SeenAll(side, defs, a, t.elem, v.items);
      if items.None? then None else Some(Seq(items.value))
  }

  function SeenAll(side: Side, defs: Definitions, a: seq<nat>, t: Type, vs: seq<Value>): (r: Option<seq<Value>>)
    requires WellDefined(defs) && |a| == |defs|
    ensures r.Some? ==> |r.value| == |vs|
    decreases vs, 1, 0
  {
    if vs == [] then Some([])
    else
      var k := |vs| - 1;
      var before, last := SeenAll(side, defs, a, t, vs[..k]), Seen(side, defs, a, t, vs[k]);
      if before.None? || last.None? then None else Some(before.value + [last.value])
  }

  /** dict(zip(keys, values)) */
  function SeenMap(keys: Value, values: Value): Option<Value> {
    if keys.Seq? && values.Seq? && |keys.items| == |values.items| then Some(MakeDict(keys.items, values.items)) else None
  }

  function MakeDict(keys: seq<Value>, values: seq<Value>): Value {
    var (ks, vs) := SetAll(keys, values);
    Dict([Seq(ks), Seq(vs)])
  }

  /** The values of the known groups, and whether a boolean byte has bits set beyond the known fields. */
  datatype Fields = Fields(values: seq<Value>, stray: bool)

  function SeenObject(side: Side, defs: Definitions, a: seq<nat>, cls: nat, v: Value): Option<Value>
    requires WellDefined(defs) && |a| == |defs| && cls < |defs| && IsObject(defs[cls], v)
    decreases v, 2, 1
  {
    var fields := SeenFields(side, defs, a, defs[cls], a[cls], v.items[1].items);
    if fields.None? then None
    else Some(Object(FilterGroups(defs[cls], a[cls]), fields.value.values, fields.value.stray))
  }

  function SeenFields(side: Side, defs: Definitions, a: seq<nat>, gs: seq<Group>, version: nat, vs: seq<Value>)
    : (r: Option<Fields>)
    requires WellDefined(defs) && |a| == |defs| && NoneEmpty(gs) && |vs| == |gs|
    ensures r.Some? ==> |r.value.values| == |FilterGroups(gs, version)|
    decreases vs, 2, 0
  {
    if gs == [] then Some(Fields([], false))
    else
      var k := |gs| - 1;
      var before := SeenFields(side, defs, a, gs[..k], version, vs[..k]);
      if before.None? || version < GetMinVersion(gs[k]) then before
      else if gs[k].BooleanGroup? then
        var n := |FilterFields(gs[k].descriptors, version)|;
        if vs[k].Record? && n <= |vs[k].items| then
          Some(Fields(before.value.values + [Record(vs[k].items[..n])],
                      before.value.stray || Flag(true) in vs[k].items[n..]))
        else None
      else
        var last := Seen(side, defs, a, gs[k].field.fieldType, vs[k]);
        if last.None? then None else Some(Fields(before.value.values + [last.value], before.value.stray))
  }
}
