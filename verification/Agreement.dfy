/** One value given to the serializing methods of both implementations. */
module Agreement {
  import opened Bytes
  import opened Wire
  import opened JsBuffer
  import opened JsEncoder
  import opened PyValues
  import opened PySerialization
  import PySerializer
  import Interop

  /** Where no interface comes with a version, none in a value does. */
  lemma {:induction false} PlainUnversioned(sc: Schema, t: Type, v: Value)
    requires Shaped(sc, t, v)
    ensures Interop.Unversioned(PYTHON, sc, t, v)
    decreases v, 1
  {
    hide ShapedAll, Interop.UnversionedAll, WellFormed, BlockSlots;
    if IsPointer(t) && !v.Null? && !IsRaw(t) {
      Interop.ItemsOfBlock(sc, t, v);
      PlainAllUnversioned(sc, BlockSlots(sc, t, |v.items|), v.items);
    }
  }

  lemma {:induction false} PlainAllUnversioned(sc: Schema, ts: seq<Type>, vs: seq<Value>)
    requires ShapedAll(sc, ts, vs)
    ensures Interop.UnversionedAll(PYTHON, sc, ts, vs)
    decreases vs, 0
  {
    hide Shaped, Interop.Unversioned;
    if |vs| > 0 {
      var k := |vs| - 1;
      PlainAllUnversioned(sc, ts[..k], vs[..k]);
      PlainUnversioned(sc, ts[k], vs[k]);
    }
  }

  lemma WrittenAlone(o: Out, size: nat)
    requires |o.slots| == size
    ensures IsBlank(Zeros(size), 0, size) && Written(Zeros(size), 0, o) == o.slots + o.tail
  {
    assert Zeros(size)[0..size] == Zeros(size);
  }

  /** A slot and what is appended behind it, as JavaScript leaves it in a new buffer. */
  method EncodeSlot(schema: Schema, t: Type, v: Value) returns (m: Message)
    requires WellFormedSchema(schema) && Shaped(schema, t, v)
    requires AllAllocatable(Memory(SlotSize(t), SlotSize(t)), Allocations(schema, t, v))
    ensures var o := Wire.Encode(JavaScript, schema, t, v, SlotSize(t), 0); m == Message(o.slots + o.tail, o.handles)
  {
    hide WellFormedSchema, Shaped, Allocations, AllAllocatable, AllocateAll, Wire.Encode, SlotSize, IsBlank, Written, Zeros;
    var buffer := new Buffer(SlotSize(t));
    var r := buffer.Alloc(SlotSize(t));
    var handles := new HandleTable();
    var encoder := new Encoder(schema, buffer, handles, r.pointer);
    ghost var o := Wire.Encode(JavaScript, schema, t, v, SlotSize(t), 0);
    assert buffer.Used() == Zeros(SlotSize(t));
    WrittenAlone(o, SlotSize(t));
    encoder.Encode(t, v);
    buffer.Trim();
    m := Message(buffer.arrayBuffer[..], handles.items);
  }

  /** The same from Python, if it does not raise an exception. */
  method SerializeSlot(registry: seq<Serialization>, ghost defs: Definitions, t: Type, v: Value)
    returns (ok: bool, m: Message)
    requires WellDefined(defs) && Serves(registry, defs) && Declared(|defs|, t) && Fits(defs, t, v)
    ensures ok <==> Accepted(defs, t, v)
    ensures ok ==> var o := Output(defs, t, v, SlotSize(t), 0); m == Message(o.slots + o.tail, o.handles)
  {
    hide WellDefined, Serves, Declared, Fits, Accepted, Output, SlotSize;
    var data := new ByteArray(0);
    var r := PySerializer.SerializeValue(registry, defs, t, false, v, SlotSize(t), data, 0);
    if r.Refused? { return false, Message([], []); }
    assert data.bytes == Output(defs, t, v, SlotSize(t), 0).tail;
    return true, Message(ToLE(r.entry, SlotSize(t)) + data.bytes, r.handles);
  }

  lemma SameParts(a: Out, b: Out)
    requires |a.slots| == |b.slots|
    ensures a.slots + a.tail == b.slots + b.tail <==> a.slots == b.slots && a.tail == b.tail
  {
    assert a.slots == (a.slots + a.tail)[..|a.slots|] && b.slots == (b.slots + b.tail)[..|b.slots|];
    assert a.tail == (a.slots + a.tail)[|a.slots|..] && b.tail == (b.slots + b.tail)[|b.slots|..];
  }

  /** Gives one value to both: they send the same bytes and handles if and only if Python accepts the value and no handle
      in it is null. */
  method SerializeBoth(registry: seq<Serialization>, defs: Definitions, t: Type, v: Value)
    returns (ok: bool, python: Message, javaScript: Message)
    requires WellDefined(defs) && Serves(registry, defs) && Declared(|defs|, t) && Fits(defs, t, v)
    requires AllAllocatable(Memory(SlotSize(t), SlotSize(t)), Allocations(Lowered(defs), t, Lower(defs, t, v)))
    ensures ok && python == javaScript
       <==> Accepted(defs, t, v) && Interop.NullHandles(Lowered(defs), t, Lower(defs, t, v)) == 0
  {
    hide WellDefined, Serves, Declared, Shaped, Accepted, Lowered, Lower, Allocations, AllAllocatable, Wire.Encode,
      SlotSize, Interop.NullHandles, Interop.Unversioned;
    PyRoundTrip.DefinitionsLowered(defs);
    ok, python := SerializeSlot(registry, defs, t, v);
    javaScript := EncodeSlot(Lowered(defs), t, Lower(defs, t, v));
    Interop.EncodingsAgreeIff(PYTHON, Lowered(defs), t, Lower(defs, t, v), SlotSize(t), 0);
    PlainUnversioned(Lowered(defs), t, Lower(defs, t, v));
    SameParts(Wire.Encode(JavaScript, Lowered(defs), t, Lower(defs, t, v), SlotSize(t), 0),
              Output(defs, t, v, SlotSize(t), 0));
  }
}
