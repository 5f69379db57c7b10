/** Which types the JavaScript Validator can be led past: those that lead it, through blocks it can accept, to items that it
    does not look at. */
module JsExposure {
  import opened Bytes
  import opened Wire
  import opened JsValidation

  /** No 32-bit size can hold an array of so many pointers. */
  predicate TooLong(length: nat) { TWO32 <= 8 + 8 * length }

  function ArraySize(elem: Type, length: nat): nat {
    8 + if elem.PackedBool? then (length + 7) / 8 else length * SlotSize(elem)
  }

  /** Some content of a slot is accepted, with structs nested at most n deep: a null, an empty array or map, or structs and
      arrays of a fixed length whose own slots have such content. */
  predicate Acceptable(sc: Schema, t: Type, n: nat)
    decreases n, 0, t
  {
    if t.PointerTo? then t.nullable || (n > 0 && t.cls < |sc| && StructAcceptable(sc, sc[t.cls].slots, n - 1))
    else if t.ArrayOf? && t.length != 0 then
      && t.length < TWO32 && ArraySize(t.elem, t.length) < TWO32
      && (t.elem.PackedBool? || t.elem.MapOf? || Acceptable(sc, t.elem, n))
    else true
  }

  predicate StructAcceptable(sc: Schema, ts: seq<Type>, n: nat)
    decreases n, 1, |ts|, 1
  {
    8 + SlotsSize(ts) < TWO32 && AllAcceptable(sc, ts, n)
  }

  predicate AllAcceptable(sc: Schema, ts: seq<Type>, n: nat)
    decreases n, 1, |ts|, 0
  {
    ts == [] || (AllAcceptable(sc, ts[..|ts| - 1], n) && Acceptable(sc, ts[|ts| - 1], n))
  }

  /** What is accepted in a slot may hide items that are not looked at: an array of maps or a map of maps, at any depth of
      arrays and maps and at most n structs deep. JavaScript's NullableArrayOf drops the length. */
  predicate Exposed(sc: Schema, t: Type, n: nat)
    decreases n, 0, t
  {
    match t
    case ArrayOf(elem, length) => !TooLong(length) && (elem.MapOf? || Exposed(sc, elem, n))
    case NullableArrayOf(elem, _) => elem.MapOf? || Exposed(sc, elem, n)
    case MapOf(_, value, _) => value.MapOf? || Exposed(sc, value, n)
    case PointerTo(cls, _) =>
      n > 0 && cls < |sc| && StructAcceptable(sc, sc[cls].slots, n - 1) && SomeExposed(sc, sc[cls].slots, n - 1)
    case _ => false
  }

  predicate SomeExposed(sc: Schema, ts: seq<Type>, n: nat)
    decreases n, 1, |ts|
  {
    ts != [] && (SomeExposed(sc, ts[..|ts| - 1], n) || Exposed(sc, ts[|ts| - 1], n))
  }

  /** The validator looks at everything that the decoder reads. */
  ghost predicate Clear(sc: Schema, t: Type) { forall n: nat :: !Exposed(sc, t, n) }

  ghost predicate AllClear(sc: Schema, ts: seq<Type>) {
    forall k :: 0 <= k < |ts| ==> Clear(sc, ts[k])
  }

  lemma {:induction false} AcceptableDeeper(sc: Schema, t: Type, n: nat, d: nat)
    requires Acceptable(sc, t, n) && n <= d
    ensures Acceptable(sc, t, d)
    decreases n, 0, t
  {
    if t.PointerTo? {
      if !t.nullable { AllAcceptableDeeper(sc, sc[t.cls].slots, n - 1, d - 1); }
    } else if t.ArrayOf? && t.length != 0 && !t.elem.PackedBool? && !t.elem.MapOf? {
      AcceptableDeeper(sc, t.elem, n, d);
    }
  }

  lemma {:induction false} AllAcceptableDeeper(sc: Schema, ts: seq<Type>, n: nat, d: nat)
    requires AllAcceptable(sc, ts, n) && n <= d
    ensures AllAcceptable(sc, ts, d)
    decreases n, 1, |ts|
  {
    hide Acceptable;
    if ts != [] {
      AllAcceptableDeeper(sc, ts[..|ts| - 1], n, d);
      AcceptableDeeper(sc, ts[|ts| - 1], n, d);
    }
  }

  lemma {:induction false} ExposedDeeper(sc: Schema, t: Type, n: nat, d: nat)
    requires Exposed(sc, t, n) && n <= d
    ensures Exposed(sc, t, d)
    decreases n, 0, t
  {
    match t
    case ArrayOf(elem, _) => if !elem.MapOf? { ExposedDeeper(sc, elem, n, d); }
    case NullableArrayOf(elem, _) => if !elem.MapOf? { ExposedDeeper(sc, elem, n, d); }
    case MapOf(_, value, _) => if !value.MapOf? { ExposedDeeper(sc, value, n, d); }
    case PointerTo(cls, _) =>
      AllAcceptableDeeper(sc, sc[cls].slots, n - 1, d - 1);
      SomeExposedDeeper(sc, sc[cls].slots, n - 1, d - 1);
  }

  lemma {:induction false} SomeExposedDeeper(sc: Schema, ts: seq<Type>, n: nat, d: nat)
    requires SomeExposed(sc, ts, n) && n <= d
    ensures SomeExposed(sc, ts, d)
    decreases n, 1, |ts|
  {
    hide Exposed;
    var k := |ts| - 1;
    if Exposed(sc, ts[k], n) { ExposedDeeper(sc, ts[k], n, d); } else { SomeExposedDeeper(sc, ts[..k], n, d); }
  }

  lemma {:induction false} ExposedAmong(sc: Schema, ts: seq<Type>, k: nat, n: nat)
    requires k < |ts| && Exposed(sc, ts[k], n)
    ensures SomeExposed(sc, ts, n)
    decreases |ts|
  {
    hide Exposed;
    if k < |ts| - 1 { ExposedAmong(sc, ts[..|ts| - 1], k, n); }
  }

  // ---- what is accepted is acceptable ----

  lemma {:induction false} SlotAcceptable(m: Message, sc: Schema, t: Type, pos: nat, c: Cursor, n: nat)
    requires WellFormedSchema(sc) && WellFormed(sc, t)
    requires pos + SlotSize(t) <= |m.bytes| && c.offset <= |m.bytes| <= c.offset + n
    requires ValidateSlot(m, sc, t, pos, c).Valid?
    ensures Acceptable(sc, t, n)
    decreases |m.bytes| - c.offset, 1, 0
  {
    hide WellFormedSchema, WellFormed, ValidateBlock, GetUint;
    if IsPointer(t) {
      var p := GetUint(m.bytes, pos, 8);
      if p == 0 {
      } else {
        BlockAcceptable(m, sc, t, pos + p, c, n);
      }
    }
  }

  lemma {:induction false} BlockAcceptable(m: Message, sc: Schema, t: Type, q: nat, c: Cursor, n: nat)
    requires WellFormedSchema(sc) && IsPointer(t) && WellFormed(sc, t) && c.offset <= |m.bytes| <= c.offset + n
    requires ValidateBlock(m, sc, t, q, c).Valid?
    ensures Acceptable(sc, t, n)
    ensures t.PointerTo? ==> n > 0 && t.cls < |sc| && StructAcceptable(sc, sc[t.cls].slots, n - 1)
    decreases |m.bytes| - c.offset, 0, 0
  {
    hide WellFormedSchema, ValidateSlots, GetUint, AllAcceptable, ArrayLength, WellFormedAll, SlotsSize;
    var size, word := GetUint(m.bytes, q, 4), GetUint(m.bytes, q + 4, 4);
    WordsBelow(m, q);
    var claimed := Cursor(q + size, c.handleIndex);
    if t.PointerTo? || (t.ArrayOf? && t.length != 0 && ChecksItems(t)) {
      BlockSlotsWellFormed(sc, t, word);
      SlotsAcceptable(m, sc, BlockSlots(sc, t, word), q + 8, claimed, n - 1);
      AllAcceptableDeeper(sc, BlockSlots(sc, t, word), n - 1, n);
    }
    if t.ArrayOf? && t.length != 0 {
      if !t.elem.PackedBool? { RepeatSize(t.elem, word); }
      if ChecksItems(t) { OneOfMany(sc, t.elem, word, n); }
    }
  }

  lemma WordsBelow(m: Message, q: nat)
    requires q + 8 <= |m.bytes|
    ensures GetUint(m.bytes, q, 4) < TWO32 && GetUint(m.bytes, q + 4, 4) < TWO32
  {
    assert Pow256(4) == TWO32;
  }

  lemma OneOfMany(sc: Schema, t: Type, count: nat, n: nat)
    requires count > 0 && AllAcceptable(sc, Repeat(t, count), n)
    ensures Acceptable(sc, t, n)
  {
  }

  lemma {:induction false} SlotsAcceptable(m: Message, sc: Schema, ts: seq<Type>, pos: nat, c: Cursor, n: nat)
    requires WellFormedSchema(sc) && WellFormedAll(sc, ts)
    requires pos + SlotsSize(ts) <= |m.bytes| && c.offset <= |m.bytes| <= c.offset + n
    requires ValidateSlots(m, sc, ts, pos, c).Valid?
    ensures AllAcceptable(sc, ts, n)
    decreases |m.bytes| - c.offset, 2, |ts|
  {
    hide WellFormedSchema, WellFormed, ValidateSlots, ValidateSlot, Acceptable, SlotSize;
    if ts != [] {
      var k := |ts| - 1;
      ValidateSlotsStep(m, sc, ts, pos, c);
      SlotsAcceptable(m, sc, ts[..k], pos, c, n);
      SlotAcceptable(m, sc, ts[k], pos + SlotsSize(ts[..k]), ValidateSlots(m, sc, ts[..k], pos, c).at, n);
    }
  }

  // ---- where classes hide nothing ----

  /** No array has maps as its items and no map has maps as its values, at any depth of arrays and maps, unless the array
      cannot be accepted at all. */
  predicate Covered(t: Type) {
    match t
    case ArrayOf(elem, length) => TooLong(length) || (!elem.MapOf? && Covered(elem))
    case NullableArrayOf(elem, _) => !elem.MapOf? && Covered(elem)
    case MapOf(_, value, _) => !value.MapOf? && Covered(value)
    case _ => true
  }

  predicate CoveredSchema(sc: Schema) {
    forall k, i :: 0 <= k < |sc| && 0 <= i < |sc[k].slots| ==> Covered(sc[k].slots[i])
  }

  /** If the fields of all classes are covered, the types that hide nothing are the covered ones. */
  lemma ClearIffCovered(sc: Schema, t: Type)
    requires CoveredSchema(sc)
    ensures Clear(sc, t) <==> Covered(t)
  {
    if Covered(t) {
      forall n: nat ensures !Exposed(sc, t, n) { CoveredNotExposed(sc, t, n); }
    } else {
      UncoveredExposed(sc, t);
    }
  }

  lemma {:induction false} CoveredNotExposed(sc: Schema, t: Type, n: nat)
    requires CoveredSchema(sc) && Covered(t)
    ensures !Exposed(sc, t, n)
    decreases n, 0, t
  {
    hide CoveredSchema;
    match t
    case ArrayOf(elem, length) => if !TooLong(length) { CoveredNotExposed(sc, elem, n); }
    case NullableArrayOf(elem, _) => CoveredNotExposed(sc, elem, n);
    case MapOf(_, value, _) => CoveredNotExposed(sc, value, n);
    case PointerTo(cls, _) => if n > 0 && cls < |sc| { CoveredFields(sc, cls, |sc[cls].slots|, n - 1); }
    case _ =>
  }

  lemma {:induction false} CoveredFields(sc: Schema, cls: nat, i: nat, n: nat)
    requires CoveredSchema(sc) && cls < |sc| && i <= |sc[cls].slots|
    ensures !SomeExposed(sc, sc[cls].slots[..i], n)
    ensures i == |sc[cls].slots| ==> !SomeExposed(sc, sc[cls].slots, n)
    decreases n, 1, i
  {
    hide Exposed, Covered;
    var ts := sc[cls].slots;
    assert ts[..|ts|] == ts;
    if i > 0 {
      CoveredFields(sc, cls, i - 1, n);
      CoveredNotExposed(sc, ts[i - 1], n);
      assert ts[..i][..i - 1] == ts[..i - 1];
    }
  }

  lemma {:induction false} UncoveredExposed(sc: Schema, t: Type)
    requires !Covered(t)
    ensures Exposed(sc, t, 0)
  {
    match t
    case ArrayOf(elem, _) => if !elem.MapOf? { UncoveredExposed(sc, elem); }
    case NullableArrayOf(elem, _) => if !elem.MapOf? { UncoveredExposed(sc, elem); }
    case MapOf(_, value, _) => if !value.MapOf? { UncoveredExposed(sc, value); }
  }
}
