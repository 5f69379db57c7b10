/** The JavaScript Decoder as it is written: a cursor moving over the message, new decoders where pointers lead. */
module JsDecoder {
  import opened Bytes
  import opened Wire
  import opened JsDecoding
  import opened Dictionaries
  import opened JsBuffer

  /** What a decoding call gives: a value, or the RangeError or TypeError it runs into. */
  datatype Result = Thrown | Returned(value: Value)

  function Outcome(d: Decoded): Result {
    if d.Done? then Returned(d.value) else Thrown
  }

  datatype Number = NoNumber | Read(n: int)

  class Decoder {
    const schema: Schema
    const message: Message
    const base: nat
    var next: nat

    constructor (schema: Schema, message: Message, base: nat)
      ensures this.schema == schema && this.message == message && this.base == next == base
    {
      this.schema, this.message, this.base, next := schema, message, base, base;
    }

    /** How many bytes a decoder at `pos` still has before it. */
    function Left(pos: nat): nat {
      if pos < |message.bytes| then |message.bytes| - pos else 0
    }

    method Skip(offset: nat)
      modifies this
      ensures next == old(next) + offset
    {
      next := next + offset;
    }

    /** readUint8, readUint16, readUint32 and, from two halves, readUint64. */
    method ReadUint(size: nat) returns (r: Number)
      requires size in {1, 2, 4, 8}
      modifies this
      ensures if |message.bytes| < old(next) + size then r.NoNumber?
              else r == Read(GetUint(message.bytes, old(next), size)) && next == old(next) + size
    {
      if |message.bytes| < next + size { return NoNumber; }
      if size == 8 {
        var lo := GetUint(message.bytes, next, 4);
        var hi := GetUint(message.bytes, next + 4, 4);
        r := Read(lo + hi * HIGH_WORD);
        UnsignedHalves(message.bytes, next);
      } else {
        r := Read(GetUint(message.bytes, next, size));
      }
      next := next + size;
    }

    /** readInt8, readInt16, readInt32 and, from an unsigned and a signed half, readInt64. */
    method ReadInt(size: nat) returns (r: Number)
      requires size in {1, 2, 4, 8}
      modifies this
      ensures if |message.bytes| < old(next) + size then r.NoNumber?
              else r == Read(Signed(GetUint(message.bytes, old(next), size), size)) && next == old(next) + size
    {
      if |message.bytes| < next + size { return NoNumber; }
      if size == 8 {
        var lo := GetUint(message.bytes, next, 4);
        var hi := Signed(GetUint(message.bytes, next + 4, 4), 4);
        r := Read(lo + hi * HIGH_WORD);
        SignedHalves(message.bytes, next);
      } else {
        r := Read(Signed(GetUint(message.bytes, next, size), size));
      }
      next := next + size;
    }

    /** The position a pointer leads to, or 0 for a null pointer. */
    method DecodePointer() returns (r: Number)
      modifies this
      ensures if |message.bytes| < old(next) + 8 then r.NoNumber?
              else
                && next == old(next) + 8
                && r == Read(var p := GetUint(message.bytes, old(next), 8); if p == 0 then 0 else old(next) + p)
    {
      var offsetPointer := next;
      r := ReadUint(8);
      if r.Read? && r.n != 0 { r := Read(offsetPointer + r.n); }
    }

    method DecodeHandle() returns (r: Result)
      modifies this
      ensures if |message.bytes| < old(next) + 4 then r.Thrown?
              else r == Outcome(JsDecoding.DecodeHandle(message, old(next))) && next == old(next) + 4
    {
      var index := ReadUint(4);
      if index.NoNumber? { return Thrown; }
      return Returned(LookUp(message.handles, index.n));
    }

    /** Decodes one slot. */
    method Decode(t: Type) returns (r: Result)
      requires WellFormedSchema(schema) && WellFormed(schema, t)
      modifies this
      ensures r == Outcome(DecodeSlot(message, schema, t, old(next)))
      ensures r.Returned? ==> next == old(next) + SlotSize(t)
      decreases Left(next), 1, 0
    {
      hide WellFormedSchema, WellFormedElement, DecodeBlock, GetUint, UnpackBits, FlagValues, LookUp;
      if t.Integer? {
        var n: Number;
        if t.signed { n := ReadInt(t.size); } else { n := ReadUint(t.size); }
        return if n.Read? then Returned(Value.Number(n.n)) else Thrown;
      } else if t.Padding? {
        if |message.bytes| < next + t.size { return Thrown; }
        Skip(t.size);
        return Returned(Null);
      } else if t.Bits? {
        var packed := ReadUint(1);
        if packed.NoNumber? { return Thrown; }
        OneByteRead(message.bytes, old(next));
        return Returned(Record(FlagValues(UnpackBits(packed.n, t.count))));
      } else if t.Handle? {
        r := DecodeHandle();
      } else if t.Interface? {
        r := DecodeHandle();
        if r.Thrown? { return Thrown; }
        HandleReadable(message, old(next));
        var version := ReadUint(4);
        if version.NoNumber? { return Thrown; }
      } else {
        r := DecodeReference(t);
      }
    }

    /** decodeStringPointer, decodeArrayPointer, decodeStructPointer and decodeMapPointer: null, or what a new
        decoder at the pointer's target finds. */
    method DecodeReference(t: Type) returns (r: Result)
      requires WellFormedSchema(schema) && WellFormed(schema, t) && IsPointer(t)
      modifies this
      ensures r == Outcome(DecodeSlot(message, schema, t, old(next)))
      ensures r.Returned? ==> next == old(next) + 8
      decreases Left(next), 0, 1
    {
      hide WellFormedSchema, WellFormedElement, DecodeBlock, GetUint;
      var pointer := DecodePointer();
      if pointer.NoNumber? { return Thrown; }
      if pointer.n == 0 { return Returned(Null); }
      var decoder := new Decoder(schema, message, pointer.n);
      if t.String? {
        r := decoder.DecodeString(t);
      } else if IsArray(t) {
        r := decoder.DecodeArray(t.elem, t);
      } else if t.PointerTo? {
        r := decoder.DecodeStruct(t.cls, t);
      } else {
        r := decoder.DecodeMap(t.key, t.value, t);
      }
    }

    method DecodeString(ghost t: Type) returns (r: Result)
      requires WellFormedSchema(schema) && t.String?
      modifies this
      ensures r == Outcome(DecodeBlock(message, schema, t, old(next)))
    {
      hide WellFormedSchema, GetUint;
      var numberOfBytes := ReadUint(4);
      if numberOfBytes.NoNumber? { return Thrown; }
      var numberOfElements := ReadUint(4);
      if numberOfElements.NoNumber? { return Thrown; }
      var start := next;
      Skip(numberOfElements.n);
      if |message.bytes| < next { return Thrown; }
      return Returned(Text(message.bytes[start..next]));
    }

    method DecodeArray(cls: Type, ghost t: Type) returns (r: Result)
      requires WellFormedSchema(schema) && WellFormed(schema, t) && IsArray(t) && t.elem == cls
      modifies this
      ensures r == Outcome(DecodeBlock(message, schema, t, old(next)))
      decreases Left(next), 0, 0
    {
      hide WellFormedSchema, GetUint, DecodeSlots, UnpackBools, FlagValues, SlotsSize, WellFormedAll;
      var numberOfBytes := ReadUint(4);
      if numberOfBytes.NoNumber? { return Thrown; }
      var numberOfElements := ReadUint(4);
      if numberOfElements.NoNumber? { return Thrown; }
      if cls.PackedBool? {
        r := DecodeBools(numberOfElements.n);
      } else {
        BlockSlotsWellFormed(schema, t, numberOfElements.n);
        var values := DecodeItems(Repeat(cls, numberOfElements.n));
        return if values.Some? then Returned(Seq(values.items)) else Thrown;
      }
    }

    method DecodeBools(n: nat) returns (r: Result)
      requires next <= |message.bytes|
      modifies this
      ensures var size := (n + 7) / 8;
              if |message.bytes| < old(next) + size then r.Thrown?
              else r == Returned(Seq(FlagValues(UnpackBools(message.bytes[old(next)..old(next) + size], n))))
    {
      hide Bit, GetUint, UnpackBools, FlagValues;
      var val: seq<Value> := [];
      var packed := 0;
      var start := next;
      for i := 0 to n
        invariant next == start + (i + 7) / 8 <= |message.bytes|
        invariant i % 8 != 0 ==> packed == message.bytes[start + i / 8]
        invariant val == FlagsRead(message.bytes[start..], i)
      {
        OctetCount(i, n);
        if i % 8 == 0 {
          var b := ReadUint(1);
          if b.NoNumber? { return Thrown; }
          OneByteRead(message.bytes, start + i / 8);
          packed := b.n;
        }
        val := val + [Flag(Bit(packed, i % 8))];
      }
      FlagsAreRead(message.bytes, start, n);
      return Returned(Seq(val));
    }

    /** Decodes consecutive slots into consecutive values. */
    method DecodeItems(ts: seq<Type>) returns (r: Items)
      requires WellFormedSchema(schema) && WellFormedAll(schema, ts) && next <= |message.bytes|
      modifies this
      ensures var d := DecodeSlots(message, schema, ts, old(next));
              r == if d.DoneAll? then Some(d.values) else NoItems
      decreases Left(next), 2, 0
    {
      hide WellFormedSchema, WellFormed, WellFormedAll, DecodeSlot, DecodeSlots, SlotsSize, SlotSize;
      var values: seq<Value> := [];
      ghost var start := next;
      PrefixDecoded(message, schema, ts, start, 0);
      for i := 0 to |ts|
        invariant WellFormedAll(schema, ts[..i]) && next == start + SlotsSize(ts[..i])
        invariant var d := DecodeSlots(message, schema, ts[..i], start); d.DoneAll? && d.values == values
      {
        PrefixDecoded(message, schema, ts, start, i + 1);
        var v := Decode(ts[i]);
        if v.Thrown? {
          DecodeFailureStays(message, schema, ts, start, i + 1);
          return NoItems;
        }
        values := values + [v.value];
      }
      assert ts[..|ts|] == ts;
      return Some(values);
    }

    /** What a generated class does: read the two header words, then each field in turn. */
    method DecodeStruct(cls: nat, ghost t: Type) returns (r: Result)
      requires WellFormedSchema(schema) && cls < |schema| && t.PointerTo? && t.cls == cls
      modifies this
      ensures r == Outcome(DecodeBlock(message, schema, t, old(next)))
      decreases Left(next), 0, 0
    {
      hide GetUint, DecodeSlots, WellFormedAll;
      var numberOfBytes := ReadUint(4);
      if numberOfBytes.NoNumber? { return Thrown; }
      var version := ReadUint(4);
      if version.NoNumber? { return Thrown; }
      var values := DecodeItems(schema[cls].slots);
      return if values.Some? then Returned(Record(values.items)) else Thrown;
    }

    method DecodeMap(keyClass: Type, valueClass: Type, ghost t: Type) returns (r: Result)
      requires WellFormedSchema(schema) && WellFormed(schema, t) && t.MapOf?
      requires t.key == keyClass && t.value == valueClass
      modifies this
      ensures r == Outcome(DecodeBlock(message, schema, t, old(next)))
      decreases Left(next), 0, 0
    {
      hide WellFormedSchema, WellFormedElement, WellFormedAll, DecodeSlot, DecodeSlots, SetAll;
      if |message.bytes| < next + 8 { return Thrown; }
      BlockSlotsWellFormed(schema, t, GetUint(message.bytes, next + 4, 4));
      ColumnsDecoded(message, schema, ArrayOf(keyClass, 0), ArrayOf(valueClass, 0), next + 8);
      Skip(4);
      Skip(4);
      var keys := Decode(ArrayOf(keyClass, 0));
      if keys.Thrown? { return Thrown; }
      var values := Decode(ArrayOf(valueClass, 0));
      if values.Thrown? || !keys.value.Seq? { return Thrown; }
      if keys.value.items != [] && !values.value.Seq? { return Thrown; }
      var vs := if values.value.Seq? then values.value.items else [];
      var columns := SetEach(keys.value.items, vs);
      return Returned(columns);
    }

    /** `val.set(keys[i], values[i])` for each key. */
    static method SetEach(keys: seq<Value>, values: seq<Value>) returns (val: Value)
      ensures var (ks, vs) := SetAll(keys, values); val == Dict([Seq(ks), Seq(vs)])
    {
      var ks: seq<Value>, vs: seq<Value> := [], [];
      for i := 0 to |keys|
        invariant (ks, vs) == SetAll(keys[..i], values)
      {
        assert keys[..i + 1][..i] == keys[..i];
        var value := if i < |values| then values[i] else Undefined;
        if keys[i] in ks {
          vs := vs[IndexOf(ks, keys[i]) := value];
        } else {
          ks, vs := ks + [keys[i]], vs + [value];
        }
      }
      assert keys[..|keys|] == keys;
      return Dict([Seq(ks), Seq(vs)]);
    }
  }

  /** The first n bits of the bytes. */
  function FlagsRead(bytes: seq<byte>, n: nat): seq<Value>
    requires (n + 7) / 8 <= |bytes|
  {
    if n == 0 then [] else FlagsRead(bytes, n - 1) + [Flag(Bit(bytes[(n - 1) / 8], (n - 1) % 8))]
  }

  lemma {:induction false} FlagsReadAt(bytes: seq<byte>, n: nat)
    requires (n + 7) / 8 <= |bytes|
    ensures |FlagsRead(bytes, n)| == n
    ensures forall i :: 0 <= i < n ==> FlagsRead(bytes, n)[i] == Flag(Bit(bytes[i / 8], i % 8))
  {
    hide Bit;
    if n > 0 { FlagsReadAt(bytes, n - 1); }
  }

  lemma FlagsAreRead(m: seq<byte>, pos: nat, n: nat)
    requires pos + (n + 7) / 8 <= |m|
    ensures FlagsRead(m[pos..], n) == FlagValues(UnpackBools(m[pos..pos + (n + 7) / 8], n))
  {
    hide Bit;
    FlagsReadAt(m[pos..], n);
    var raw := m[pos..pos + (n + 7) / 8];
    assert forall k :: 0 <= k < |raw| ==> raw[k] == m[pos..][k];
  }

  lemma OctetCount(i: nat, n: nat)
    requires i < n
    ensures (i + 7) / 8 == if i % 8 == 0 then i / 8 else i / 8 + 1
    ensures (i + 8) / 8 == i / 8 + 1 && (i + 8) / 8 <= (n + 7) / 8
    ensures (i + 1) % 8 != 0 ==> (i + 1) / 8 == i / 8
  {
  }

  datatype Items = NoItems | Some(items: seq<Value>)

  // ---- numbers from halves ----

  lemma UnsignedHalves(m: seq<byte>, pos: nat)
    requires pos + 8 <= |m|
    ensures GetUint(m, pos, 8) == GetUint(m, pos, 4) + GetUint(m, pos + 4, 4) * HIGH_WORD
  {
    assert Pow256(4) == HIGH_WORD;
    assert m[pos..pos + 8] == m[pos..pos + 4] + m[pos + 4..pos + 8];
    JoinLE(m[pos..pos + 4], m[pos + 4..pos + 8]);
  }

  lemma SignedHalves(m: seq<byte>, pos: nat)
    requires pos + 8 <= |m|
    ensures Signed(GetUint(m, pos, 8), 8)
         == GetUint(m, pos, 4) + Signed(GetUint(m, pos + 4, 4), 4) * HIGH_WORD
  {
    hide GetUint;
    UnsignedHalves(m, pos);
    assert Pow256(4) == HIGH_WORD && Pow256(8) == HIGH_WORD * HIGH_WORD;
  }

  lemma OneByteRead(m: seq<byte>, pos: nat)
    requires pos < |m|
    ensures GetUint(m, pos, 1) == m[pos]
  {
    assert m[pos..pos + 1] == [m[pos]];
  }

  lemma HandleReadable(m: Message, pos: nat)
    requires pos + 4 <= |m.bytes|
    ensures JsDecoding.DecodeHandle(m, pos).Done?
  {
  }

  // ---- the first few of several slots ----

  lemma PrefixDecoded(m: Message, sc: Schema, ts: seq<Type>, pos: nat, i: nat)
    requires WellFormedSchema(sc) && WellFormedAll(sc, ts) && i <= |ts| && pos <= |m.bytes|
    ensures WellFormedAll(sc, ts[..i])
    ensures i == 0 ==> SlotsSize(ts[..i]) == 0 && DecodeSlots(m, sc, ts[..i], pos) == DoneAll([], [], [])
    ensures i > 0 ==>
              && WellFormedAll(sc, ts[..i - 1]) && WellFormed(sc, ts[i - 1])
              && SlotsSize(ts[..i]) == SlotsSize(ts[..i - 1]) + SlotSize(ts[i - 1])
              && var a, b := DecodeSlots(m, sc, ts[..i - 1], pos),
                             DecodeSlot(m, sc, ts[i - 1], pos + SlotsSize(ts[..i - 1]));
                 DecodeSlots(m, sc, ts[..i], pos)
                 == if a.FailedAll? || b.Failed? then FailedAll
                    else DoneAll(a.values + [b.value], a.blocks + b.blocks, a.handles + b.handles)
  {
    hide WellFormedSchema, WellFormed, SlotSize, DecodeSlot, WellFormedAll;
    WellFormedPrefix(sc, ts, i);
    if i > 0 {
      assert ts[..i][..i - 1] == ts[..i - 1];
      DecodeLast(m, sc, ts[..i], pos);
    }
  }

  lemma {:induction false} DecodeFailureStays(m: Message, sc: Schema, ts: seq<Type>, pos: nat, i: nat)
    requires WellFormedSchema(sc) && WellFormedAll(sc, ts) && i <= |ts| && pos <= |m.bytes|
    requires WellFormedAll(sc, ts[..i]) && DecodeSlots(m, sc, ts[..i], pos).FailedAll?
    ensures DecodeSlots(m, sc, ts, pos).FailedAll?
    decreases |ts|
  {
    hide WellFormedSchema, WellFormed, WellFormedAll, DecodeSlot, DecodeSlots, SlotsSize;
    assert ts[..|ts|] == ts;
    if i < |ts| {
      var k := |ts| - 1;
      PrefixDecoded(m, sc, ts, pos, |ts|);
      assert ts[..k][..i] == ts[..i];
      DecodeFailureStays(m, sc, ts[..k], pos, i);
    }
  }

  lemma ColumnsDecoded(m: Message, sc: Schema, a: Type, b: Type, pos: nat)
    requires WellFormedSchema(sc) && WellFormedAll(sc, [a, b]) && pos <= |m.bytes|
    ensures WellFormed(sc, a) && WellFormed(sc, b)
    ensures var d, e := DecodeSlot(m, sc, a, pos), DecodeSlot(m, sc, b, pos + SlotSize(a));
            var r := DecodeSlots(m, sc, [a, b], pos);
            if d.Failed? || e.Failed? then r.FailedAll? else r.DoneAll? && r.values == [d.value, e.value]
  {
    hide WellFormedSchema, WellFormed, WellFormedAll, DecodeSlot, DecodeSlots, SlotsSize, SlotSize;
    var ts := [a, b];
    assert ts[..0] == [] && ts[..1] == [a] && ts[..2] == ts;
    PrefixDecoded(m, sc, ts, pos, 0);
    PrefixDecoded(m, sc, ts, pos, 1);
    PrefixDecoded(m, sc, ts, pos, 2);
  }
}
