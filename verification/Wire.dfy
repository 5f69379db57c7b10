/**
 The Mojo wire format as one function from typed values to bytes.

 A value occupies a slot. Strings, arrays, maps and structs put a relative 64-bit pointer in the slot and
 their contents in an 8-byte-aligned block; blocks follow each other depth first. Handles travel beside the
 bytes and the slot holds an index. Encode says what is written for a slot that lies `gap` bytes before the
 next free byte; it never mentions an absolute position.
 */
module Wire {
  import opened Bytes

  /** One more than the largest array length and header word. */
  const TWO32 := 0x1_0000_0000

  // ---- types ----

  datatype Type =
    | Integer(size: nat, signed: bool)
    | Padding(size: nat)               // unused bytes between the fields of a struct
    | Bits(count: nat)                 // up to eight boolean fields of a struct, sharing a byte
    | PackedBool                       // only as the element class of an array
    | String(nullable: bool)
    | Handle(nullable: bool)
    | Interface(nullable: bool)
    | PointerTo(cls: nat, nullable: bool)      // a struct class, by its index in the schema
    | ArrayOf(elem: Type, length: nat)         // length 0: any length
    | NullableArrayOf(elem: Type, length: nat)
    | MapOf(key: Type, value: Type, nullable: bool)

  /** A struct class: the version its header carries and its slots, in order. */
  datatype StructDef = StructDef(version: nat, slots: seq<Type>)
  type Schema = seq<StructDef>

  predicate IsArray(t: Type) { t.ArrayOf? || t.NullableArrayOf? }

  predicate IsPointer(t: Type) { t.String? || t.PointerTo? || t.MapOf? || IsArray(t) }

  /** The block of a raw type holds bytes rather than slots. */
  predicate IsRaw(t: Type) { t.String? || (IsArray(t) && t.elem.PackedBool?) }

  predicate Nullable(t: Type)
    requires IsPointer(t)
  {
    if IsArray(t) then t.NullableArrayOf? else t.nullable
  }

  /** The length JavaScript holds an array to: its NullableArrayOf drops the length, which only Python checks. */
  function FixedLength(t: Type): nat { if t.ArrayOf? then t.length else 0 }

  function SlotSize(t: Type): nat {
    match t
    case Integer(size, _) => size
    case Padding(size) => size
    case Bits(_) => 1
    case PackedBool => 1
    case Handle(_) => 4
    case _ => 8
  }

  function SlotsSize(ts: seq<Type>): nat {
    if ts == [] then 0 else SlotsSize(ts[..|ts| - 1]) + SlotSize(ts[|ts| - 1])
  }

  lemma NoSlots()
    ensures SlotsSize([]) == 0
  {
  }

  lemma PairSize(a: Type, b: Type)
    ensures SlotsSize([a, b]) == SlotSize(a) + SlotSize(b)
  {
    assert [a, b][..1] == [a] && [a][..0] == [];
    assert SlotsSize([a]) == SlotSize(a);
  }

  function Repeat(t: Type, n: nat): (ts: seq<Type>)
    ensures |ts| == n
    ensures forall i :: 0 <= i < n ==> ts[i] == t
  {
    seq(n, i => t)
  }

  lemma OneMore(n: nat, x: nat)
    ensures n * x == (n - 1) * x + x
  {
  }

  lemma {:induction false} RepeatSize(t: Type, n: nat)
    ensures SlotsSize(Repeat(t, n)) == n * SlotSize(t)
  {
    hide SlotSize;
    if n > 0 {
      RepeatSize(t, n - 1);
      assert Repeat(t, n)[..n - 1] == Repeat(t, n - 1);
      OneMore(n, SlotSize(t));
    }
  }

  /** The slots inside the block of a pointer type that holds n items. */
  function BlockSlots(sc: Schema, t: Type, n: nat): seq<Type>
    requires IsPointer(t) && !IsRaw(t) && WellFormed(sc, t)
  {
    if IsArray(t) then Repeat(t.elem, n)
    else if t.PointerTo? then sc[t.cls].slots
    else [ArrayOf(t.key, 0), ArrayOf(t.value, 0)]
  }

  /** Keys are the types mojom allows as keys: integers, booleans and strings. */
  predicate WellFormed(sc: Schema, t: Type)
    decreases t, 0
  {
    match t
    case Integer(size, _) => size in {1, 2, 4, 8}
    case Bits(count) => count <= 8
    case PackedBool => false
    case PointerTo(cls, _) => cls < |sc|
    case ArrayOf(elem, _) => WellFormedElement(sc, elem)
    case NullableArrayOf(elem, _) => WellFormedElement(sc, elem)
    case MapOf(key, value, _) =>
      && (key.Integer? || key.PackedBool? || key.String?) && WellFormedElement(sc, key)
      && WellFormedElement(sc, value)
    case _ => true
  }

  predicate WellFormedElement(sc: Schema, t: Type)
    decreases t, 1
  {
    t.PackedBool? || (!t.Padding? && !t.Bits? && WellFormed(sc, t))
  }

  predicate WellFormedAll(sc: Schema, ts: seq<Type>) {
    ts == [] || (WellFormedAll(sc, ts[..|ts| - 1]) && WellFormed(sc, ts[|ts| - 1]))
  }

  predicate WellFormedSchema(sc: Schema) {
    forall k :: 0 <= k < |sc| ==> sc[k].version < TWO32 && WellFormedAll(sc, sc[k].slots)
  }

  lemma {:induction false} RepeatWellFormed(sc: Schema, t: Type, n: nat)
    requires WellFormed(sc, t)
    ensures WellFormedAll(sc, Repeat(t, n))
  {
    if n > 0 {
      RepeatWellFormed(sc, t, n - 1);
      assert Repeat(t, n)[..n - 1] == Repeat(t, n - 1);
    }
  }

  lemma {:induction false} WellFormedPrefix(sc: Schema, ts: seq<Type>, i: nat)
    requires WellFormedAll(sc, ts) && i <= |ts|
    ensures WellFormedAll(sc, ts[..i]) && SlotsSize(ts[..i]) <= SlotsSize(ts)
    decreases |ts|
  {
    hide WellFormed, SlotSize;
    assert ts[..|ts|] == ts;
    if i < |ts| {
      WellFormedPrefix(sc, ts[..|ts| - 1], i);
      assert ts[..|ts| - 1][..i] == ts[..i];
    }
  }

  lemma BlockSlotsWellFormed(sc: Schema, t: Type, n: nat)
    requires WellFormedSchema(sc) && IsPointer(t) && !IsRaw(t) && WellFormed(sc, t)
    ensures WellFormedAll(sc, BlockSlots(sc, t, n))
  {
    if IsArray(t) {
      RepeatWellFormed(sc, t.elem, n);
    } else if t.MapOf? {
      var ks, vs := ArrayOf(t.key, 0), ArrayOf(t.value, 0);
      assert [ks, vs][..1] == [ks] && [ks][..0] == [];
      assert WellFormed(sc, ks) && WellFormed(sc, vs);
    }
  }

  // ---- values ----

  datatype Value =
    | Null
    | Undefined
    | Number(n: int)
    | Flag(b: bool)
    | Text(bytes: seq<byte>)
    | HandleValue(id: nat)
    | Seq(items: seq<Value>)
    | Record(items: seq<Value>)        // one item a slot
    | Dict(items: seq<Value>)          // a map in insertion order: its keys, then its values

  function Flags(vs: seq<Value>): (bs: seq<bool>)
    ensures |bs| == |vs|
  {
    seq(|vs|, i requires 0 <= i < |vs| => vs[i] == Flag(true))
  }

  function FlagValues(bs: seq<bool>): (vs: seq<Value>)
    ensures |vs| == |bs|
  {
    seq(|bs|, i requires 0 <= i < |bs| => Flag(bs[i]))
  }

  predicate AllFlags(vs: seq<Value>) {
    forall i :: 0 <= i < |vs| ==> vs[i].Flag?
  }

  predicate Distinct(vs: seq<Value>) {
    forall i, j :: 0 <= i < j < |vs| ==> vs[i] != vs[j]
  }

  predicate InRange(n: int, size: nat, signed: bool) {
    var p := Pow256(size);
    if signed then 0 <= 2 * n + p && 2 * n < p else 0 <= n < p
  }

  /** Two columns of one length, no key twice. */
  predicate IsMap(v: Value) {
    && v.Dict? && |v.items| == 2 && v.items[0].Seq? && v.items[1].Seq?
    && |v.items[0].items| == |v.items[1].items| && Distinct(v.items[0].items)
  }

  /** v is the kind of value a pointer of type t leads to. */
  predicate IsKind(t: Type, v: Value)
    requires IsPointer(t)
  {
    if t.String? then v.Text?
    else if t.PointerTo? then v.Record?
    else if t.MapOf? then IsMap(v)
    else v.Seq? && |v.items| < TWO32 && (t.elem.PackedBool? ==> AllFlags(v.items))
  }

  /** v has the shape its type asks for; nulls and array lengths are left to Conforms. */
  predicate Shaped(sc: Schema, t: Type, v: Value)
    decreases v, 1
  {
    WellFormed(sc, t) &&
    if t.Integer? then v.Number? && InRange(v.n, t.size, t.signed)
    else if t.Padding? then v.Null?
    else if t.Bits? then v.Record? && |v.items| == t.count && AllFlags(v.items)
    else if t.Handle? || t.Interface? then v.Null? || v.HandleValue?
    else v.Null? || (IsKind(t, v) && (IsRaw(t) || ShapedAll(sc, BlockSlots(sc, t, |v.items|), v.items)))
  }

  predicate ShapedAll(sc: Schema, ts: seq<Type>, vs: seq<Value>)
    decreases vs, 0
  {
    |ts| == |vs| &&
    (|vs| == 0 ||
     var k := |vs| - 1;
     ShapedAll(sc, ts[..k], vs[..k]) && Shaped(sc, ts[k], vs[k]))
  }

  lemma ShapedType(sc: Schema, t: Type, v: Value)
    requires Shaped(sc, t, v)
    ensures WellFormed(sc, t)
  {
  }

  // ---- encoding ----

  function Align(n: nat): (a: nat)
    ensures a % 8 == 0 && n <= a < n + 8
  {
    n + (8 - n % 8) % 8
  }

  lemma AddAligned(a: int, b: int)
    ensures a % 8 == 0 && b % 8 == 0 ==> (a + b) % 8 == 0
  {
  }

  /** What encoding writes: into the slots, at the end of the bytes, and onto the handle table. */
  datatype Out = Out(slots: seq<byte>, tail: seq<byte>, handles: seq<Value>)

  /** The two implementations differ in two points: JavaScript sends a null handle as an entry of the handle table, and
      Python sends no entry and the index -1; and beside the handle of an interface JavaScript writes 0, and Python the
      version of the interface behind it, here by handle. */
  datatype Side = JavaScript | Python(versions: map<nat, nat>)

  /** Python where no interface comes with a version. */
  const PYTHON := Python(map[])

  function InterfaceVersion(side: Side, v: Value): nat {
    if side.Python? && v.HandleValue? && v.id in side.versions then side.versions[v.id] else 0
  }

  function EncodeHandle(side: Side, v: Value, h: nat): Out {
    if side.Python? && v.Null? then Out(ToLE(-1, 4), [], []) else Out(ToLE(h, 4), [], [v])
  }

  function RawBytes(t: Type, v: Value): seq<byte>
    requires IsRaw(t) && if t.String? then v.Text? else v.Seq?
  {
    if t.String? then v.bytes else BoolBytes(Flags(v.items))
  }

  predicate IsPresent(sc: Schema, t: Type, v: Value) {
    IsPointer(t) && Shaped(sc, t, v) && !v.Null?
  }

  /** The first header word of a block: its size in bytes, without the padding that aligns the next one. */
  function BlockSize(sc: Schema, t: Type, v: Value): nat
    requires IsPresent(sc, t, v)
  {
    8 + if IsRaw(t) then |RawBytes(t, v)| else SlotsSize(BlockSlots(sc, t, |v.items|))
  }

  /** The second header word: the length of an array or string, the version of a struct. */
  function BlockWord(sc: Schema, t: Type, v: Value): nat
    requires IsPresent(sc, t, v)
  {
    if t.String? then |v.bytes|
    else if IsArray(t) then |v.items|
    else if t.PointerTo? then sc[t.cls].version
    else 0
  }

  lemma BlockWordFits(sc: Schema, t: Type, v: Value)
    requires WellFormedSchema(sc) && IsPresent(sc, t, v) && BlockSize(sc, t, v) < TWO32
    ensures BlockWord(sc, t, v) < TWO32
  {
  }

  function Header(size: nat, word: nat): (s: seq<byte>)
    ensures |s| == 8
  {
    ToLE(size, 4) + ToLE(word, 4)
  }

  function Encode(side: Side, sc: Schema, t: Type, v: Value, gap: int, h: nat): (o: Out)
    requires Shaped(sc, t, v)
    ensures |o.slots| == SlotSize(t)
    ensures |o.tail| % 8 == 0
    decreases v, 3
  {
    hide ShapedAll, BlockSlots;
    if t.Integer? then Out(ToLE(v.n, t.size), [], [])
    else if t.Padding? then Out(Zeros(t.size), [], [])
    else if t.Bits? then Out([PackByte(Flags(v.items))], [], [])
    else if t.Handle? then EncodeHandle(side, v, h)
    else if t.Interface? then var o := EncodeHandle(side, v, h); o.(slots := o.slots + ToLE(InterfaceVersion(side, v), 4))
    else EncodeReference(side, sc, t, v, gap, h)
  }

  function EncodeReference(side: Side, sc: Schema, t: Type, v: Value, gap: int, h: nat): (o: Out)
    requires IsPointer(t) && Shaped(sc, t, v)
    ensures |o.slots| == 8
    ensures |o.tail| % 8 == 0
    decreases v, 2
  {
    hide Shaped, ShapedAll, WellFormed, IsKind, Align, BlockSize, BlockWord, EncodeBody, Block, ToLE;
    if v.Null? then Out(ToLE(0, 8), [], [])
    else
      var b := EncodeBody(side, sc, t, v, h);
      Out(ToLE(gap, 8), Block(BlockSize(sc, t, v), BlockWord(sc, t, v), b), b.handles)
  }

  /** A block with its header, contents and padding, then the blocks its own slots point to. */
  function Block(size: nat, word: nat, body: Out): (s: seq<byte>)
    ensures |s| == 8 + |body.slots| + (Align(size) - size) + |body.tail|
    ensures size == 8 + |body.slots| && |body.tail| % 8 == 0 ==> |s| == Align(size) + |body.tail| && |s| % 8 == 0
  {
    hide Align, Header;
    AddAligned(Align(size), |body.tail|);
    Header(size, word) + body.slots + Zeros(Align(size) - size) + body.tail
  }

  function EncodeBody(side: Side, sc: Schema, t: Type, v: Value, h: nat): (o: Out)
    requires IsPresent(sc, t, v)
    ensures |o.slots| + 8 == BlockSize(sc, t, v)
    ensures |o.tail| % 8 == 0
    decreases v, 1
  {
    if IsRaw(t) then Out(RawBytes(t, v), [], [])
    else EncodeSlots(side, sc, BlockSlots(sc, t, |v.items|), v.items, Align(BlockSize(sc, t, v)) - 8, h)
  }

  /** Consecutive slots, left to right; the first one lies `gap` bytes before the next free byte. */
  function EncodeSlots(side: Side, sc: Schema, ts: seq<Type>, vs: seq<Value>, gap: int, h: nat): (o: Out)
    requires ShapedAll(sc, ts, vs)
    ensures |o.slots| == SlotsSize(ts)
    ensures |o.tail| % 8 == 0
    decreases vs, 0
  {
    hide Shaped, SlotSize;
    if |vs| == 0 then Out([], [], [])
    else
      var k := |vs| - 1;
      var a := EncodeSlots(side, sc, ts[..k], vs[..k], gap, h);
      var b := Encode(side, sc, ts[k], vs[k], gap + |a.tail| - |a.slots|, h + |a.handles|);
      AddAligned(|a.tail|, |b.tail|);
      Append(a, b)
  }

  lemma EncodeNone(side: Side, sc: Schema, gap: int, h: nat)
    ensures ShapedAll(sc, [], []) && EncodeSlots(side, sc, [], [], gap, h) == Out([], [], [])
  {
  }

  /** The last of several slots is written after all the others. */
  lemma EncodeLast(side: Side, sc: Schema, ts: seq<Type>, vs: seq<Value>, gap: int, h: nat) returns (a: Out, b: Out)
    requires ShapedAll(sc, ts, vs) && |vs| > 0
    ensures var k := |vs| - 1;
            && |ts| == |vs| && ShapedAll(sc, ts[..k], vs[..k]) && Shaped(sc, ts[k], vs[k])
            && a == EncodeSlots(side, sc, ts[..k], vs[..k], gap, h)
            && b == Encode(side, sc, ts[k], vs[k], gap + |a.tail| - |a.slots|, h + |a.handles|)
            && EncodeSlots(side, sc, ts, vs, gap, h) == Append(a, b)
    ensures SlotsSize(ts) == |a.slots| + |b.slots|
  {
    hide Shaped, Append, Encode;
    var k := |vs| - 1;
    a := EncodeSlots(side, sc, ts[..k], vs[..k], gap, h);
    b := Encode(side, sc, ts[k], vs[k], gap + |a.tail| - |a.slots|, h + |a.handles|);
  }

  function Append(a: Out, b: Out): Out {
    Out(a.slots + b.slots, a.tail + b.tail, a.handles + b.handles)
  }

  /** A pointer slot holds the distance to the block of its value. */
  lemma EncodePresent(side: Side, sc: Schema, t: Type, v: Value, gap: int, h: nat) returns (b: Out)
    requires IsPointer(t) && Shaped(sc, t, v) && !v.Null?
    ensures b == EncodeBody(side, sc, t, v, h) && 8 + |b.slots| == BlockSize(sc, t, v) && |b.tail| % 8 == 0
    ensures Encode(side, sc, t, v, gap, h)
         == Out(ToLE(gap, 8), Block(BlockSize(sc, t, v), BlockWord(sc, t, v), b), b.handles)
  {
    hide EncodeBody, Block, BlockSize, BlockWord, ToLE, Shaped, IsKind;
    b := EncodeBody(side, sc, t, v, h);
  }

  lemma EncodeNull(side: Side, sc: Schema, t: Type, gap: int, h: nat)
    requires IsPointer(t) && Shaped(sc, t, Null)
    ensures Encode(side, sc, t, Null, gap, h) == Out(ToLE(0, 8), [], [])
  {
    hide EncodeBody, ToLE, Shaped;
  }

  lemma RawBody(side: Side, sc: Schema, t: Type, v: Value, h: nat)
    requires IsPresent(sc, t, v) && IsRaw(t)
    ensures EncodeBody(side, sc, t, v, h) == Out(RawBytes(t, v), [], [])
  {
    hide RawBytes;
  }

  /** The contents of a block of slots: their types, and what they are in the case of a map. */
  lemma BodyIsSlots(side: Side, sc: Schema, t: Type, v: Value, h: nat) returns (ts: seq<Type>)
    requires WellFormedSchema(sc) && IsPresent(sc, t, v) && !IsRaw(t)
    ensures WellFormed(sc, t) && (v.Seq? || v.Record? || v.Dict?) && ts == BlockSlots(sc, t, |v.items|)
    ensures BlockWord(sc, t, v) == if t.PointerTo? then sc[t.cls].version else if t.MapOf? then 0 else |v.items|
    ensures WellFormedAll(sc, ts) && ShapedAll(sc, ts, v.items) && BlockSize(sc, t, v) == 8 + SlotsSize(ts)
    ensures EncodeBody(side, sc, t, v, h)
         == EncodeSlots(side, sc, ts, v.items, Align(BlockSize(sc, t, v)) - 8, h)
    ensures t.MapOf? ==> ts == [ArrayOf(t.key, 0), ArrayOf(t.value, 0)] && IsColumns(v.items)
    ensures t.PointerTo? ==> t.cls < |sc| && ts == sc[t.cls].slots
    ensures IsArray(t) ==> ts == Repeat(t.elem, |v.items|)
  {
    hide EncodeSlots, ShapedAll, WellFormedAll, WellFormedSchema, SlotsSize;
    ts := BlockSlots(sc, t, |v.items|);
    BlockSlotsWellFormed(sc, t, |v.items|);
    if t.MapOf? { ShapedColumns(sc, ts, v.items); }
  }

  /** Two arrays of one length. */
  predicate IsColumns(vs: seq<Value>) {
    |vs| == 2 && vs[0].Seq? && vs[1].Seq? && |vs[0].items| == |vs[1].items| < TWO32
  }

  lemma ShapedColumns(sc: Schema, ts: seq<Type>, vs: seq<Value>)
    requires |ts| == 2 && IsArray(ts[0]) && IsArray(ts[1]) && IsMap(Dict(vs))
    requires ShapedAll(sc, ts, vs)
    ensures IsColumns(vs) && Shaped(sc, ts[0], vs[0]) && Shaped(sc, ts[1], vs[1])
  {
    ShapedPair(sc, ts, vs);
    hide ShapedAll, WellFormed;
  }

  lemma ShapedPair(sc: Schema, ts: seq<Type>, vs: seq<Value>)
    requires |ts| == 2 && ShapedAll(sc, ts, vs)
    ensures |vs| == 2 && Shaped(sc, ts[0], vs[0]) && Shaped(sc, ts[1], vs[1])
  {
    assert ts[..1] == [ts[0]] && vs[..1] == [vs[0]];
    hide Shaped;
  }

  // ---- the first few of several slots ----

  lemma {:induction false} ShapedPrefix(sc: Schema, ts: seq<Type>, vs: seq<Value>, i: nat)
    requires ShapedAll(sc, ts, vs) && i <= |vs|
    ensures |ts| == |vs| && ShapedAll(sc, ts[..i], vs[..i])
    ensures i < |vs| ==> Shaped(sc, ts[i], vs[i])
    decreases |vs|
  {
    hide Shaped;
    assert ts[..|ts|] == ts && vs[..|vs|] == vs;
    if i < |vs| {
      var k := |vs| - 1;
      if i < k { ShapedPrefix(sc, ts[..k], vs[..k], i); }
      assert ts[..k][..i] == ts[..i] && vs[..k][..i] == vs[..i];
    }
  }

  /** What is written for the first i of several slots. */
  function Prefix(side: Side, sc: Schema, ts: seq<Type>, vs: seq<Value>, gap: int, h: nat, i: nat): Out
    requires ShapedAll(sc, ts, vs) && i <= |vs|
  {
    ShapedPrefix(sc, ts, vs, i);
    EncodeSlots(side, sc, ts[..i], vs[..i], gap, h)
  }

  lemma PrefixNone(side: Side, sc: Schema, ts: seq<Type>, vs: seq<Value>, gap: int, h: nat)
    requires ShapedAll(sc, ts, vs)
    ensures Prefix(side, sc, ts, vs, gap, h, 0) == Out([], [], [])
  {
    hide ShapedAll;
  }

  lemma PrefixAll(side: Side, sc: Schema, ts: seq<Type>, vs: seq<Value>, gap: int, h: nat)
    requires ShapedAll(sc, ts, vs)
    ensures Prefix(side, sc, ts, vs, gap, h, |vs|) == EncodeSlots(side, sc, ts, vs, gap, h)
  {
    hide EncodeSlots, Shaped;
    assert ts[..|ts|] == ts && vs[..|vs|] == vs;
  }

  /** One more slot; nothing in it goes beyond what all the slots together need. */
  lemma PrefixStep(side: Side, sc: Schema, ts: seq<Type>, vs: seq<Value>, gap: int, h: nat, i: nat) returns (b: Out)
    requires ShapedAll(sc, ts, vs) && i < |vs|
    ensures |ts| == |vs| && Shaped(sc, ts[i], vs[i])
    ensures var a := Prefix(side, sc, ts, vs, gap, h, i);
            && b == Encode(side, sc, ts[i], vs[i], gap + |a.tail| - |a.slots|, h + |a.handles|)
            && Prefix(side, sc, ts, vs, gap, h, i + 1) == Append(a, b)
            && |a.slots| + SlotSize(ts[i]) <= SlotsSize(ts)
            && |a.tail| + |b.tail| <= |EncodeSlots(side, sc, ts, vs, gap, h).tail|
  {
    hide EncodeSlots, Encode, Shaped, ShapedAll, SlotsSize;
    ShapedPrefix(sc, ts, vs, i);
    ShapedPrefix(sc, ts, vs, i + 1);
    assert ts[..i + 1][..i] == ts[..i] && vs[..i + 1][..i] == vs[..i];
    var a, b' := EncodeLast(side, sc, ts[..i + 1], vs[..i + 1], gap, h);
    b := b';
    PrefixGrows(side, sc, ts, vs, gap, h, i + 1);
  }

  lemma {:induction false} PrefixGrows(side: Side, sc: Schema, ts: seq<Type>, vs: seq<Value>, gap: int, h: nat, i: nat)
    requires ShapedAll(sc, ts, vs) && i <= |vs|
    ensures var a, o := Prefix(side, sc, ts, vs, gap, h, i), EncodeSlots(side, sc, ts, vs, gap, h);
            |a.slots| <= |o.slots| && |a.tail| <= |o.tail|
    decreases |vs|
  {
    hide EncodeSlots, Encode, Shaped, ShapedAll, SlotsSize;
    if i == |vs| {
      PrefixAll(side, sc, ts, vs, gap, h);
    } else {
      var k := |vs| - 1;
      var a, b := EncodeLast(side, sc, ts, vs, gap, h);
      PrefixGrows(side, sc, ts[..k], vs[..k], gap, h, i);
      assert ts[..k][..i] == ts[..i] && vs[..k][..i] == vs[..i];
    }
  }

  // ---- booleans read back ----

  lemma ReadBits(vs: seq<Value>)
    requires AllFlags(vs) && |vs| <= 8
    ensures FlagValues(UnpackBits(PackByte(Flags(vs)), |vs|)) == vs
  {
    var bs := Flags(vs);
    forall i | 0 <= i < |vs| ensures Bit(PackByte(bs), i) == bs[i] { BitOfPack(bs, i); }
  }

  lemma ReadBools(vs: seq<Value>)
    requires AllFlags(vs)
    ensures FlagValues(UnpackBools(BoolBytes(Flags(vs)), |vs|)) == vs
  {
    var bs := Flags(vs);
    forall i | 0 <= i < |vs| ensures Bit(BoolBytes(bs)[i / 8], i % 8) == bs[i] { BoolBytesBit(bs, i); }
  }

  // ---- where encoded parts lie in a message ----

  datatype Message = Message(bytes: seq<byte>, handles: seq<Value>)

  predicate At<T(==)>(m: seq<T>, pos: int, s: seq<T>) {
    0 <= pos && pos + |s| <= |m| && m[pos..pos + |s|] == s
  }

  lemma AtSplit<T>(m: seq<T>, pos: int, a: seq<T>, b: seq<T>)
    requires At(m, pos, a + b)
    ensures At(m, pos, a) && At(m, pos + |a|, b)
  {
    var s := m[pos..pos + |a + b|];
    assert s[..|a|] == a && s[|a|..] == b;
    assert m[pos..pos + |a|] == s[..|a|];
    assert m[pos + |a|..pos + |a| + |b|] == s[|a|..];
  }

  lemma AtOne<T>(m: seq<T>, pos: int, x: T)
    requires At(m, pos, [x])
    ensures pos < |m| && m[pos] == x
  {
    assert m[pos..pos + |[x]|][0] == [x][0];
  }

  /** The output o of an encoding lies in m: its slots at pos, its tail gap bytes further, its handles at h. */
  predicate Placed(m: Message, pos: nat, gap: int, h: nat, o: Out) {
    At(m.bytes, pos, o.slots) && At(m.bytes, pos + gap, o.tail) && At(m.handles, h, o.handles)
  }

  lemma PlacedFits(m: Message, pos: nat, gap: int, h: nat, o: Out)
    requires Placed(m, pos, gap, h, o)
    ensures pos + |o.slots| <= |m.bytes| && 0 <= pos + gap && pos + gap + |o.tail| <= |m.bytes|
    ensures h + |o.handles| <= |m.handles|
  {
  }

  lemma PlacedAppend(m: Message, pos: nat, gap: int, h: nat, a: Out, b: Out)
    requires Placed(m, pos, gap, h, Append(a, b))
    ensures Placed(m, pos, gap, h, a)
    ensures Placed(m, pos + |a.slots|, gap + |a.tail| - |a.slots|, h + |a.handles|, b)
  {
    AtSplit(m.bytes, pos, a.slots, b.slots);
    AtSplit(m.bytes, pos + gap, a.tail, b.tail);
    AtSplit(m.handles, h, a.handles, b.handles);
  }

  lemma GetAt(m: seq<byte>, pos: nat, n: int, k: nat)
    requires At(m, pos, ToLE(n, k)) && 0 <= n < Pow256(k)
    ensures GetUint(m, pos, k) == n
  {
    IntegerRoundTrip(n, k);
  }

  lemma PlacedBlock(m: Message, q: nat, h: nat, size: nat, word: nat, body: Out)
    requires At(m.bytes, q, Block(size, word, body)) && At(m.handles, h, body.handles)
    requires size < TWO32 && word < TWO32 && 8 + |body.slots| == size
    ensures GetUint(m.bytes, q, 4) == size && GetUint(m.bytes, q + 4, 4) == word
    ensures Placed(m, q + 8, Align(size) - 8, h, body)
    ensures q + Align(size) + |body.tail| <= |m.bytes|
  {
    var pad := Zeros(Align(size) - size);
    AtSplit(m.bytes, q, Header(size, word) + body.slots + pad, body.tail);
    AtSplit(m.bytes, q, Header(size, word) + body.slots, pad);
    AtSplit(m.bytes, q, Header(size, word), body.slots);
    AtSplit(m.bytes, q, ToLE(size, 4), ToLE(word, 4));
    assert Pow256(4) == TWO32;
    GetAt(m.bytes, q, size, 4);
    GetAt(m.bytes, q + 4, word, 4);
  }
}
