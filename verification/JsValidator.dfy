/** The JavaScript Validator as it is written: two marks that move up while element loops run and return early. */
module JsValidator {
  import opened Bytes
  import opened Wire
  import opened JsValidation

  datatype Check = NONE | Failure(error: ValidationError)

  /** A method's result and final marks are what the specification says. */
  predicate Agrees(expected: Verdict, err: Check, mark: Cursor) {
    if err.NONE? then expected == Valid(mark) else expected == Invalid(err.error)
  }

  /** The fixed lengths of an array type and of the array types nested in it, outermost first. */
  function Dimensions(t: Type): seq<nat> {
    if IsArray(t) then [FixedLength(t)] + Dimensions(t.elem) else []
  }

  /** Arguments under which validateArray checks a block of type t: a string is an array of Uint8. */
  predicate Describes(t: Type, elementType: Type, dimensions: seq<nat>, current: nat) {
    && current < |dimensions|
    && (t.String? || IsArray(t))
    && dimensions[current] == FixedLength(t)
    && (t.String? ==> elementType == Integer(1, false))
    && (IsArray(t) ==> t.elem == elementType && dimensions[current + 1..] == Dimensions(elementType))
  }

  lemma InnerDescribed(t: Type, elementType: Type, dimensions: seq<nat>, current: nat)
    requires Describes(t, elementType, dimensions, current)
    ensures elementType.String? ==> Describes(elementType, Integer(1, false), [0], 0)
    ensures IsArray(elementType) ==> Describes(elementType, elementType.elem, dimensions, current + 1)
  {
    if IsArray(elementType) {
      assert dimensions[current + 1..][0] == dimensions[current + 1];
      assert dimensions[current + 1..][1..] == dimensions[current + 2..];
    }
  }

  lemma ItemsWellFormed(sc: Schema, t: Type)
    requires WellFormed(sc, t)
    ensures IsArray(t) && !t.elem.PackedBool? ==> WellFormed(sc, t.elem)
  {
  }

  class Validator {
    const schema: Schema
    const message: Message
    var offset: nat
    var handleIndex: nat

    constructor (schema: Schema, message: Message)
      ensures this.schema == schema && this.message == message && Mark() == Cursor(0, 0)
    {
      this.schema, this.message, offset, handleIndex := schema, message, 0, 0;
    }

    function Mark(): Cursor
      reads this
    {
      Cursor(offset, handleIndex)
    }

    predicate Valid()
      reads this
    {
      WellFormedSchema(schema) && offset <= |message.bytes| <= MAX_SAFE_INTEGER
    }

    method IsValidRange(start: nat, numBytes: nat) returns (ok: bool)
      requires |message.bytes| <= MAX_SAFE_INTEGER
      ensures ok <==> InBounds(message, Mark(), start, numBytes)
    {
      if start < offset || numBytes <= 0 || MAX_SAFE_INTEGER < start || MAX_SAFE_INTEGER < numBytes { return false; }
      var newOffset := start + numBytes;
      if MAX_SAFE_INTEGER < newOffset || |message.bytes| < newOffset { return false; }
      return true;
    }

    method ClaimRange(start: nat, numBytes: nat) returns (ok: bool)
      requires |message.bytes| <= MAX_SAFE_INTEGER
      modifies this`offset
      ensures ok <==> InBounds(message, old(Mark()), start, numBytes)
      ensures offset == if ok then start + numBytes else old(offset)
    {
      ok := IsValidRange(start, numBytes);
      if ok { offset := start + numBytes; }
    }

    method ClaimHandle(index: nat) returns (ok: bool)
      modifies this`handleIndex
      ensures ok <==> index == INVALID_HANDLE || old(handleIndex) <= index < |message.handles|
      ensures handleIndex == if ok && index != INVALID_HANDLE then index + 1 else old(handleIndex)
    {
      if index == INVALID_HANDLE { return true; }
      if index < handleIndex || index >= |message.handles| { return false; }
      handleIndex := index + 1;
      return true;
    }

    /** Also validateInterface, which only forwards to it. */
    method ValidateHandleAt(offset: nat, nullable: bool) returns (err: Check)
      requires offset + 4 <= |message.bytes|
      modifies this`handleIndex
      ensures Agrees(ValidateHandle(message, nullable, offset, old(Mark())), err, Mark())
    {
      var index := GetUint(message.bytes, offset, 4);
      if index == INVALID_HANDLE {
        return if nullable then NONE else Failure(UNEXPECTED_INVALID_HANDLE);
      }
      var ok := ClaimHandle(index);
      if !ok { return Failure(ILLEGAL_HANDLE); }
      return NONE;
    }

    method ValidateStructHeader(offset: nat, minNumBytes: nat, minVersion: nat) returns (err: Check)
      requires |message.bytes| <= MAX_SAFE_INTEGER
      modifies this`offset
      ensures Agrees(StructHeader(message, offset, minNumBytes, minVersion, old(Mark())), err, Mark())
    {
      if offset % 8 != 0 { return Failure(MISALIGNED_OBJECT); }
      var ok := IsValidRange(offset, 8);
      if !ok { return Failure(ILLEGAL_MEMORY_RANGE); }
      var numBytes := GetUint(message.bytes, offset, 4);
      var version := GetUint(message.bytes, offset + 4, 4);
      if numBytes < minNumBytes || version < minVersion { return Failure(UNEXPECTED_STRUCT_HEADER); }
      ok := ClaimRange(offset, numBytes);
      if !ok { return Failure(ILLEGAL_MEMORY_RANGE); }
      return NONE;
    }

    method ValidateArrayPointer(offset: nat, elementSize: nat, elementType: Type, nullable: bool,
                                dimensions: seq<nat>, current: nat, ghost t: Type) returns (err: Check)
      requires Valid() && WellFormed(schema, t) && Describes(t, elementType, dimensions, current)
      requires IsPointer(t) && nullable == Nullable(t) && elementSize == SlotSize(elementType)
      requires offset + 8 <= |message.bytes|
      modifies this
      ensures Agrees(ValidateSlot(message, schema, t, offset, old(Mark())), err, Mark())
      decreases |message.bytes| - this.offset, 1, 0
    {
      hide WellFormedSchema, WellFormed, ValidateBlock, Describes, GetUint;
      var pointerValue := GetUint(message.bytes, offset, 8);
      if pointerValue == 0 { return if nullable then NONE else Failure(UNEXPECTED_NULL_POINTER); }
      if offset + pointerValue > MAX_SAFE_INTEGER { return Failure(ILLEGAL_POINTER); }
      err := ValidateArray(offset + pointerValue, elementSize, elementType, dimensions, current, t);
    }

    method ValidateStringPointer(offset: nat, nullable: bool) returns (err: Check)
      requires Valid() && offset + 8 <= |message.bytes|
      modifies this
      ensures Agrees(ValidateSlot(message, schema, String(nullable), offset, old(Mark())), err, Mark())
      decreases |message.bytes| - this.offset, 2, 0
    {
      err := ValidateArrayPointer(offset, 1, Integer(1, false), nullable, [0], 0, String(nullable));
    }

    method ValidateStructPointer(offset: nat, cls: nat, nullable: bool) returns (err: Check)
      requires Valid() && cls < |schema| && offset + 8 <= |message.bytes|
      modifies this
      ensures Agrees(ValidateSlot(message, schema, PointerTo(cls, nullable), offset, old(Mark())), err, Mark())
      decreases |message.bytes| - this.offset, 1, 0
    {
      hide WellFormedSchema, ValidateBlock, GetUint;
      var pointerValue := GetUint(message.bytes, offset, 8);
      if pointerValue == 0 { return if nullable then NONE else Failure(UNEXPECTED_NULL_POINTER); }
      if offset + pointerValue > MAX_SAFE_INTEGER { return Failure(ILLEGAL_POINTER); }
      err := ValidateStruct(cls, offset + pointerValue, nullable);
    }

    /** What a generated class does: check the header, then each field in turn. */
    method ValidateStruct(cls: nat, offset: nat, ghost nullable: bool) returns (err: Check)
      requires Valid() && cls < |schema|
      modifies this
      ensures Agrees(ValidateBlock(message, schema, PointerTo(cls, nullable), offset, old(Mark())), err, Mark())
      decreases |message.bytes| - this.offset, 0, 0
    {
      hide WellFormed, ValidateSlots, GetUint, SlotsSize;
      var ts := schema[cls].slots;
      err := ValidateStructHeader(offset, 8 + SlotsSize(ts), 0);
      if err.Failure? { return err; }
      err := ValidateFields(ts, offset + 8);
    }

    method ValidateFields(ts: seq<Type>, offset: nat) returns (err: Check)
      requires Valid() && WellFormedAll(schema, ts) && offset + SlotsSize(ts) <= |message.bytes|
      modifies this
      ensures Agrees(ValidateSlots(message, schema, ts, offset, old(Mark())), err, Mark())
      decreases |message.bytes| - this.offset, 4, 0
    {
      hide WellFormedSchema, WellFormed, WellFormedAll, ValidateSlot, ValidateSlots, SlotsSize, SlotSize;
      ghost var c := Mark();
      PrefixValid(message, schema, ts, offset, c, 0);
      for i := 0 to |ts|
        invariant Valid() && WellFormedAll(schema, ts[..i]) && c.offset <= this.offset
        invariant offset + SlotsSize(ts[..i]) <= |message.bytes|
        invariant ValidateSlots(message, schema, ts[..i], offset, c) == JsValidation.Valid(Mark())
      {
        PrefixValid(message, schema, ts, offset, c, i + 1);
        err := ValidateField(ts[i], offset + SlotsSize(ts[..i]));
        if err.Failure? {
          FailureStays(message, schema, ts, offset, c, i + 1);
          return err;
        }
      }
      assert ts[..|ts|] == ts;
      return NONE;
    }

    /** The call a generated class makes for a field of type t. */
    method ValidateField(t: Type, offset: nat) returns (err: Check)
      requires Valid() && WellFormed(schema, t) && offset + SlotSize(t) <= |message.bytes|
      modifies this
      ensures Agrees(ValidateSlot(message, schema, t, offset, old(Mark())), err, Mark())
      decreases |message.bytes| - this.offset, 3, 0
    {
      hide WellFormedSchema, ValidateBlock, ValidateHandle, GetUint;
      if t.Handle? || t.Interface? {
        err := ValidateHandleAt(offset, t.nullable);
      } else if t.String? {
        err := ValidateStringPointer(offset, t.nullable);
      } else if IsArray(t) {
        err := ValidateArrayPointer(offset, SlotSize(t.elem), t.elem, t.NullableArrayOf?, Dimensions(t), 0, t);
      } else if t.PointerTo? {
        err := ValidateStructPointer(offset, t.cls, t.nullable);
      } else if t.MapOf? {
        err := ValidateMapPointer(offset, t.nullable, t.key, t.value);
      } else {
        return NONE;
      }
    }

    /** The element count of an array that has been validated. */
    method ArrayLengthAt(arrayPointerOffset: nat) returns (n: nat)
      requires arrayPointerOffset + 8 <= |message.bytes|
      requires arrayPointerOffset + GetUint(message.bytes, arrayPointerOffset, 8) + 8 <= |message.bytes|
      ensures n == ArrayLength(message, arrayPointerOffset)
    {
      var arrayOffset := arrayPointerOffset + GetUint(message.bytes, arrayPointerOffset, 8);
      return GetUint(message.bytes, arrayOffset + 4, 4);
    }

    /** The implicit struct of a map: its keys array, its values array, and their lengths. */
    method ValidateMapPointer(offset: nat, mapIsNullable: bool, keyClass: Type, valueClass: Type) returns (err: Check)
      requires Valid() && WellFormed(schema, MapOf(keyClass, valueClass, mapIsNullable))
      requires offset + 8 <= |message.bytes|
      modifies this
      ensures Agrees(ValidateSlot(message, schema, MapOf(keyClass, valueClass, mapIsNullable), offset, old(Mark())),
                     err, Mark())
      decreases |message.bytes| - this.offset, 2, 0
    {
      hide WellFormedSchema, WellFormedElement, ValidateSlots, GetUint, SlotsSize, WellFormedAll, ArrayLength;
      var pointerValue := GetUint(message.bytes, offset, 8);
      if pointerValue == 0 { return if mapIsNullable then NONE else Failure(UNEXPECTED_NULL_POINTER); }
      if offset + pointerValue > MAX_SAFE_INTEGER { return Failure(ILLEGAL_POINTER); }
      var structOffset := offset + pointerValue;
      ghost var t := MapOf(keyClass, valueClass, mapIsNullable);
      PairSize(ArrayOf(keyClass, 0), ArrayOf(valueClass, 0));
      BlockSlotsWellFormed(schema, t, 0);
      err := ValidateStructHeader(structOffset, 24, 0);
      if err.Failure? { return err; }
      err := ValidateColumns(structOffset + 8, keyClass, valueClass);
    }

    method ValidateColumns(keysArrayPointerOffset: nat, keyClass: Type, valueClass: Type) returns (err: Check)
      requires Valid() && WellFormed(schema, ArrayOf(keyClass, 0)) && WellFormed(schema, ArrayOf(valueClass, 0))
      requires !IsArray(keyClass) && keysArrayPointerOffset + 16 <= |message.bytes|
      requires WellFormedAll(schema, [ArrayOf(keyClass, 0), ArrayOf(valueClass, 0)])
      modifies this
      ensures SlotsSize([ArrayOf(keyClass, 0), ArrayOf(valueClass, 0)]) == 16
      ensures var r := ValidateSlots(message, schema, [ArrayOf(keyClass, 0), ArrayOf(valueClass, 0)],
                                     keysArrayPointerOffset, old(Mark()));
              Agrees(if r.Valid? && ArrayLength(message, keysArrayPointerOffset)
                                    != ArrayLength(message, keysArrayPointerOffset + 8)
                     then Invalid(DIFFERENT_SIZED_ARRAYS_IN_MAP) else r, err, Mark())
      decreases |message.bytes| - this.offset, 2, 0
    {
      hide WellFormedSchema, WellFormed, WellFormedAll, ValidateSlots, ValidateSlot, GetUint, SlotsSize, ArrayLength;
      ghost var ks, vs, c := ArrayOf(keyClass, 0), ArrayOf(valueClass, 0), Mark();
      PairSize(ks, vs);
      PairValid(message, schema, ks, vs, keysArrayPointerOffset, c);
      err := ValidateArrayPointer(keysArrayPointerOffset, SlotSize(keyClass), keyClass, false, [0], 0, ks);
      if err.Failure? { return err; }
      var valuesArrayPointerOffset := keysArrayPointerOffset + 8;
      var valuesArrayDimensions := [0];
      if IsArray(valueClass) { valuesArrayDimensions := valuesArrayDimensions + Dimensions(valueClass); }
      ghost var d := Mark();
      err := ValidateArrayPointer(valuesArrayPointerOffset, SlotSize(valueClass), valueClass, false,
                                  valuesArrayDimensions, 0, vs);
      if err.Failure? { return err; }
      PointerInRange(message, schema, ks, keysArrayPointerOffset, c);
      PointerInRange(message, schema, vs, valuesArrayPointerOffset, d);
      var keysArrayLength := ArrayLengthAt(keysArrayPointerOffset);
      var valuesArrayLength := ArrayLengthAt(valuesArrayPointerOffset);
      if keysArrayLength != valuesArrayLength { return Failure(DIFFERENT_SIZED_ARRAYS_IN_MAP); }
      return NONE;
    }

    method ValidateArray(offset: nat, elementSize: nat, elementType: Type, dimensions: seq<nat>, current: nat,
                         ghost t: Type) returns (err: Check)
      requires Valid() && WellFormed(schema, t) && Describes(t, elementType, dimensions, current) && IsPointer(t)
      requires elementSize == SlotSize(elementType)
      modifies this
      ensures Agrees(ValidateBlock(message, schema, t, offset, old(Mark())), err, Mark())
      decreases |message.bytes| - this.offset, 0, 0
    {
      hide WellFormedSchema, WellFormedElement, WellFormedAll, ValidateSlots, GetUint, SlotsSize, Dimensions;
      if offset % 8 != 0 { return Failure(MISALIGNED_OBJECT); }
      var ok := IsValidRange(offset, 8);
      if !ok { return Failure(ILLEGAL_MEMORY_RANGE); }
      var numBytes := GetUint(message.bytes, offset, 4);
      var numElements := GetUint(message.bytes, offset + 4, 4);
      var elementsTotalSize := if elementType.PackedBool? then (numElements + 7) / 8 else elementSize * numElements;
      ArrayContent(schema, t, elementType, numElements);
      if numBytes < 8 + elementsTotalSize { return Failure(UNEXPECTED_ARRAY_HEADER); }
      if dimensions[current] != 0 && numElements != dimensions[current] { return Failure(UNEXPECTED_ARRAY_HEADER); }
      ok := ClaimRange(offset, numBytes);
      if !ok { return Failure(ILLEGAL_MEMORY_RANGE); }
      if !IsRaw(t) { BlockSlotsWellFormed(schema, t, numElements); }
      err := ValidateElements(offset + 8, numElements, elementType, dimensions, current, t);
    }

    /** Validates the array's elements if they are pointers or handles. */
    method ValidateElements(elementsOffset: nat, numElements: nat, elementType: Type, dimensions: seq<nat>,
                            current: nat, ghost t: Type) returns (err: Check)
      requires Valid() && IsPointer(t) && WellFormed(schema, t) && Describes(t, elementType, dimensions, current)
      requires ChecksItems(t) ==>
                 && WellFormedAll(schema, Repeat(elementType, numElements))
                 && elementsOffset + SlotsSize(Repeat(elementType, numElements)) <= |message.bytes|
      modifies this
      ensures Agrees(if ChecksItems(t)
                     then ValidateSlots(message, schema, Repeat(elementType, numElements), elementsOffset, old(Mark()))
                     else JsValidation.Valid(old(Mark())), err, Mark())
      decreases |message.bytes| - this.offset, 5, 0
    {
      hide WellFormedSchema, WellFormedAll, ValidateSlots, SlotsSize, Dimensions;
      InnerDescribed(t, elementType, dimensions, current);
      ItemsWellFormed(schema, t);
      if elementType.Handle? || elementType.Interface? {
        err := ValidateHandleElements(elementsOffset, numElements, elementType);
      } else if elementType.String? {
        err := ValidateArrayElements(elementsOffset, numElements, Integer(1, false), elementType.nullable, [0], 0,
                                     elementType);
      } else if elementType.PointerTo? {
        err := ValidateStructElements(elementsOffset, numElements, elementType.cls, elementType.nullable, elementType);
      } else if IsArray(elementType) {
        err := ValidateArrayElements(elementsOffset, numElements, elementType.elem, elementType.NullableArrayOf?,
                                     dimensions, current + 1, elementType);
      } else {
        return NONE;
      }
    }

    /** validateHandleElements and validateInterfaceElements: elements of four and of eight bytes. */
    method ValidateHandleElements(offset: nat, numElements: nat, t: Type) returns (err: Check)
      requires Valid() && (t.Handle? || t.Interface?)
      requires WellFormedAll(schema, Repeat(t, numElements))
      requires offset + SlotsSize(Repeat(t, numElements)) <= |message.bytes|
      modifies this
      ensures Agrees(ValidateSlots(message, schema, Repeat(t, numElements), offset, old(Mark())), err, Mark())
      decreases |message.bytes| - this.offset, 4, 0
    {
      hide WellFormedSchema, WellFormed, WellFormedAll, ValidateSlots, SlotsSize, ValidateHandle;
      var elementSize := SlotSize(t);
      ghost var c, ts := Mark(), Repeat(t, numElements);
      PrefixValid(message, schema, ts, offset, c, 0);
      for i := 0 to numElements
        invariant Valid() && WellFormedAll(schema, ts[..i]) && c.offset <= this.offset
        invariant offset + SlotsSize(ts[..i]) <= |message.bytes|
        invariant ValidateSlots(message, schema, ts[..i], offset, c) == JsValidation.Valid(Mark())
      {
        PrefixValid(message, schema, ts, offset, c, i + 1);
        ElementOffset(t, numElements, i);
        var elementOffset := offset + i * elementSize;
        err := ValidateHandleAt(elementOffset, t.nullable);
        if err.Failure? {
          FailureStays(message, schema, ts, offset, c, i + 1);
          return err;
        }
      }
      assert ts[..numElements] == ts;
      return NONE;
    }

    /** Elements that are arrays or strings, of which elementClass is the class of the items. */
    method ValidateArrayElements(offset: nat, numElements: nat, elementClass: Type, nullable: bool,
                                 dimensions: seq<nat>, current: nat, ghost t: Type) returns (err: Check)
      requires Valid() && WellFormed(schema, t) && Describes(t, elementClass, dimensions, current)
      requires IsPointer(t) && nullable == Nullable(t)
      requires WellFormedAll(schema, Repeat(t, numElements))
      requires offset + SlotsSize(Repeat(t, numElements)) <= |message.bytes|
      modifies this
      ensures Agrees(ValidateSlots(message, schema, Repeat(t, numElements), offset, old(Mark())), err, Mark())
      decreases |message.bytes| - this.offset, 4, 0
    {
      hide WellFormedSchema, WellFormed, WellFormedAll, ValidateSlots, SlotsSize, ValidateSlot, Describes;
      var elementSize := 8;
      ghost var c, ts := Mark(), Repeat(t, numElements);
      PrefixValid(message, schema, ts, offset, c, 0);
      for i := 0 to numElements
        invariant Valid() && WellFormedAll(schema, ts[..i]) && c.offset <= this.offset
        invariant offset + SlotsSize(ts[..i]) <= |message.bytes|
        invariant ValidateSlots(message, schema, ts[..i], offset, c) == JsValidation.Valid(Mark())
      {
        PrefixValid(message, schema, ts, offset, c, i + 1);
        ElementOffset(t, numElements, i);
        var elementOffset := offset + i * elementSize;
        err := ValidateArrayPointer(elementOffset, SlotSize(elementClass), elementClass, nullable, dimensions, current, t);
        if err.Failure? {
          FailureStays(message, schema, ts, offset, c, i + 1);
          return err;
        }
      }
      assert ts[..numElements] == ts;
      return NONE;
    }

    /** Elements that are struct pointers. */
    method ValidateStructElements(offset: nat, numElements: nat, structClass: nat, nullable: bool, ghost t: Type) returns (err: Check)
      requires Valid() && t == PointerTo(structClass, nullable) && structClass < |schema|
      requires WellFormedAll(schema, Repeat(t, numElements))
      requires offset + SlotsSize(Repeat(t, numElements)) <= |message.bytes|
      modifies this
      ensures Agrees(ValidateSlots(message, schema, Repeat(t, numElements), offset, old(Mark())), err, Mark())
      decreases |message.bytes| - this.offset, 4, 0
    {
      hide WellFormedSchema, WellFormed, WellFormedAll, ValidateSlots, SlotsSize, ValidateSlot;
      var elementSize := 8;
      ghost var c, ts := Mark(), Repeat(t, numElements);
      PrefixValid(message, schema, ts, offset, c, 0);
      for i := 0 to numElements
        invariant Valid() && WellFormedAll(schema, ts[..i]) && c.offset <= this.offset
        invariant offset + SlotsSize(ts[..i]) <= |message.bytes|
        invariant ValidateSlots(message, schema, ts[..i], offset, c) == JsValidation.Valid(Mark())
      {
        PrefixValid(message, schema, ts, offset, c, i + 1);
        ElementOffset(t, numElements, i);
        var elementOffset := offset + i * elementSize;
        err := ValidateStructPointer(elementOffset, structClass, nullable);
        if err.Failure? {
          FailureStays(message, schema, ts, offset, c, i + 1);
          return err;
        }
      }
      assert ts[..numElements] == ts;
      return NONE;
    }
  }

  /** What validateStructHeader decides. */
  function StructHeader(m: Message, offset: nat, minNumBytes: nat, minVersion: nat, c: Cursor): Verdict {
    if offset % 8 != 0 then Invalid(MISALIGNED_OBJECT)
    else if !InBounds(m, c, offset, 8) then Invalid(ILLEGAL_MEMORY_RANGE)
    else
      var numBytes, version := GetUint(m.bytes, offset, 4), GetUint(m.bytes, offset + 4, 4);
      if numBytes < minNumBytes || version < minVersion then Invalid(UNEXPECTED_STRUCT_HEADER)
      else if !InBounds(m, c, offset, numBytes) then Invalid(ILLEGAL_MEMORY_RANGE)
      else JsValidation.Valid(Cursor(offset + numBytes, c.handleIndex))
  }

  // ---- the first few of several slots ----

  lemma PrefixValid(m: Message, sc: Schema, ts: seq<Type>, offset: nat, c: Cursor, i: nat)
    requires WellFormedSchema(sc) && WellFormedAll(sc, ts) && i <= |ts|
    requires offset + SlotsSize(ts) <= |m.bytes| && c.offset <= |m.bytes|
    ensures WellFormedAll(sc, ts[..i]) && offset + SlotsSize(ts[..i]) <= |m.bytes|
    ensures i == 0 ==> ValidateSlots(m, sc, ts[..i], offset, c) == JsValidation.Valid(c)
    ensures i > 0 ==>
              && WellFormedAll(sc, ts[..i - 1]) && WellFormed(sc, ts[i - 1])
              && SlotsSize(ts[..i]) == SlotsSize(ts[..i - 1]) + SlotSize(ts[i - 1])
              && ValidateSlots(m, sc, ts[..i], offset, c) ==
                 var r := ValidateSlots(m, sc, ts[..i - 1], offset, c);
                 if r.Invalid? then r else ValidateSlot(m, sc, ts[i - 1], offset + SlotsSize(ts[..i - 1]), r.at)
  {
    hide WellFormedSchema, WellFormed, SlotSize, ValidateSlot;
    WellFormedPrefix(sc, ts, i);
    if i > 0 {
      assert ts[..i][..i - 1] == ts[..i - 1];
      ValidateSlotsStep(m, sc, ts[..i], offset, c);
    }
  }

  lemma {:induction false} FailureStays(m: Message, sc: Schema, ts: seq<Type>, offset: nat, c: Cursor, i: nat)
    requires WellFormedSchema(sc) && WellFormedAll(sc, ts) && i <= |ts|
    requires offset + SlotsSize(ts) <= |m.bytes| && c.offset <= |m.bytes|
    requires WellFormedAll(sc, ts[..i]) && offset + SlotsSize(ts[..i]) <= |m.bytes|
    requires ValidateSlots(m, sc, ts[..i], offset, c).Invalid?
    ensures ValidateSlots(m, sc, ts, offset, c) == ValidateSlots(m, sc, ts[..i], offset, c)
    decreases |ts|
  {
    hide WellFormedSchema, WellFormed, WellFormedAll, SlotsSize, ValidateSlot, ValidateSlots;
    assert ts[..|ts|] == ts;
    if i < |ts| {
      var k := |ts| - 1;
      PrefixValid(m, sc, ts, offset, c, |ts|);
      PrefixValid(m, sc, ts, offset, c, k);
      assert ts[..k][..i] == ts[..i];
      FailureStays(m, sc, ts[..k], offset, c, i);
    }
  }

  lemma ElementOffset(t: Type, n: nat, i: nat)
    requires i <= n
    ensures SlotsSize(Repeat(t, n)[..i]) == i * SlotSize(t)
  {
    assert Repeat(t, n)[..i] == Repeat(t, i);
    RepeatSize(t, i);
  }

  /** The size of the items that validateArray computes. */
  lemma ArrayContent(sc: Schema, t: Type, elementType: Type, n: nat)
    requires IsPointer(t) && WellFormed(sc, t)
    requires if t.String? then elementType == Integer(1, false) else IsArray(t) && t.elem == elementType
    ensures ContentSize(sc, t, n)
         == if elementType.PackedBool? then (n + 7) / 8 else SlotSize(elementType) * n
  {
    RepeatSize(elementType, n);
  }

  lemma PairValid(m: Message, sc: Schema, a: Type, b: Type, offset: nat, c: Cursor)
    requires WellFormedSchema(sc) && WellFormedAll(sc, [a, b]) && WellFormed(sc, a) && WellFormed(sc, b)
    requires SlotsSize([a, b]) == SlotSize(a) + SlotSize(b)
    requires offset + SlotsSize([a, b]) <= |m.bytes| && c.offset <= |m.bytes|
    ensures ValidateSlots(m, sc, [a, b], offset, c) ==
            var r := ValidateSlot(m, sc, a, offset, c);
            if r.Invalid? then r else ValidateSlot(m, sc, b, offset + SlotSize(a), r.at)
  {
    hide WellFormedSchema, WellFormed, WellFormedAll, SlotsSize, SlotSize, ValidateSlot, ValidateSlots;
    assert [a, b][..1] == [a] && [a, b][..0] == [];
    PrefixValid(m, sc, [a, b], offset, c, 0);
    PrefixValid(m, sc, [a, b], offset, c, 1);
    PrefixValid(m, sc, [a, b], offset, c, 2);
    NoSlots();
    assert [a, b][..2] == [a, b];
  }

  /** A validated array pointer that may not be null leads to a header inside the message. */
  lemma PointerInRange(m: Message, sc: Schema, t: Type, offset: nat, c: Cursor)
    requires WellFormedSchema(sc) && WellFormed(sc, t) && t.ArrayOf? && c.offset <= |m.bytes|
    requires offset + 8 <= |m.bytes| && ValidateSlot(m, sc, t, offset, c).Valid?
    ensures offset + GetUint(m.bytes, offset, 8) + 8 <= |m.bytes|
  {
    hide WellFormedSchema, WellFormed, ValidateSlots, GetUint, BlockSlots;
  }
}
