/** Whole JavaScript messages: built, validated and read back. */
module JsMessaging {
  import opened Bytes
  import opened Wire
  import opened JsValidation
  import opened JsDecoding
  import opened JsBuffer
  import opened JsEncoder
  import opened JsValidator
  import opened JsDecoder

  /** The two kinds of message header. */
  datatype Envelope = Plain(flags: nat) | WithRequestID(flags: nat, requestID: nat)

  function HeaderSize(e: Envelope): nat { if e.Plain? then 16 else 24 }
  function Version(e: Envelope): nat { if e.Plain? then 0 else 1 }

  function HeaderBytes(name: nat, e: Envelope): (s: seq<byte>)
    ensures |s| == HeaderSize(e)
  {
    ToLE(HeaderSize(e), 4) + ToLE(Version(e), 4) + ToLE(name, 4) + ToLE(e.flags, 4)
    + (if e.Plain? then [] else ToLE(e.requestID, 8))
  }

  /** A message with the given header whose payload is the struct v of class cls. */
  function MessageOf(side: Side, sc: Schema, cls: nat, v: Value, name: nat, e: Envelope): Message
    requires IsPresent(sc, PointerTo(cls, false), v)
  {
    var t := PointerTo(cls, false);
    var b := EncodeBody(side, sc, t, v, 0);
    Message(HeaderBytes(name, e) + Block(BlockSize(sc, t, v), BlockWord(sc, t, v), b), b.handles)
  }

  predicate ExpectsResponse(flags: nat) { flags % 2 == 1 }
  predicate IsResponse(flags: nat) { flags / 2 % 2 == 1 }

  /** What validateMessageHeader decides for a new validator. */
  function MessageHeader(m: Message): (r: Verdict) {
    var r := StructHeader(m, 0, 16, 0, Cursor(0, 0));
    if r.Invalid? then r
    else
      var numBytes, version := GetUint(m.bytes, 0, 4), GetUint(m.bytes, 4, 4);
      var flags := GetUint(m.bytes, 12, 4);
      if !((version == 0 && numBytes == 16) || (version == 1 && numBytes == 24) || (version > 1 && numBytes >= 24))
      then Invalid(UNEXPECTED_STRUCT_HEADER)
      else if version == 0 && (ExpectsResponse(flags) || IsResponse(flags))
      then Invalid(MESSAGE_HEADER_MISSING_REQUEST_ID)
      else if IsResponse(flags) && ExpectsResponse(flags) then Invalid(MESSAGE_HEADER_INVALID_FLAGS)
      else r
  }

  /** On any bytes: which headers are accepted, and what is claimed then. Later versions may have longer headers. */
  lemma MessageHeaderIff(m: Message)
    ensures MessageHeader(m).Valid?
       <==> && 16 <= |m.bytes| && GetUint(m.bytes, 0, 4) <= |m.bytes|
            && var size, version, flags := GetUint(m.bytes, 0, 4), GetUint(m.bytes, 4, 4), GetUint(m.bytes, 12, 4);
               if version == 0 then size == 16 && flags % 4 == 0
               else (if version == 1 then size == 24 else 24 <= size) && flags % 4 != 3
    ensures MessageHeader(m).Valid? ==> MessageHeader(m).at == Cursor(GetUint(m.bytes, 0, 4), 0)
    ensures 16 <= |m.bytes| && 16 <= GetUint(m.bytes, 0, 4) <= |m.bytes| ==>
              var size, version, flags := GetUint(m.bytes, 0, 4), GetUint(m.bytes, 4, 4), GetUint(m.bytes, 12, 4);
              if (version == 0 && size != 16) || (version == 1 && size != 24) || (version > 1 && size < 24) then
                MessageHeader(m) == Invalid(UNEXPECTED_STRUCT_HEADER)
              else if version == 0 && flags % 4 != 0 then MessageHeader(m) == Invalid(MESSAGE_HEADER_MISSING_REQUEST_ID)
              else if flags % 4 == 3 then MessageHeader(m) == Invalid(MESSAGE_HEADER_INVALID_FLAGS)
              else MessageHeader(m).Valid?
    ensures |m.bytes| < 8 ==> MessageHeader(m) == Invalid(ILLEGAL_MEMORY_RANGE)
    ensures 8 <= |m.bytes| ==>
              && (GetUint(m.bytes, 0, 4) < 16 ==> MessageHeader(m) == Invalid(UNEXPECTED_STRUCT_HEADER))
              && (16 <= GetUint(m.bytes, 0, 4) && |m.bytes| < GetUint(m.bytes, 0, 4) ==>
                    MessageHeader(m) == Invalid(ILLEGAL_MEMORY_RANGE))
  {
    hide GetUint;
    if 16 <= |m.bytes| { LowFlags(GetUint(m.bytes, 12, 4)); }
  }

  lemma LowFlags(flags: nat)
    ensures ExpectsResponse(flags) <==> flags % 4 == 1 || flags % 4 == 3
    ensures IsResponse(flags) <==> flags % 4 == 2 || flags % 4 == 3
  {
  }

  method ValidateMessageHeader(v: Validator) returns (err: Check)
    requires v.Valid() && v.Mark() == Cursor(0, 0)
    modifies v`offset
    ensures Agrees(MessageHeader(v.message), err, v.Mark())
  {
    err := v.ValidateStructHeader(0, 16, 0);
    if err.Failure? { return err; }
    var numBytes := GetUint(v.message.bytes, 0, 4);
    var version := GetUint(v.message.bytes, 4, 4);
    var validVersionAndNumBytes :=
      (version == 0 && numBytes == 16) || (version == 1 && numBytes == 24) || (version > 1 && numBytes >= 24);
    if !validVersionAndNumBytes { return Failure(UNEXPECTED_STRUCT_HEADER); }
    var flags := GetUint(v.message.bytes, 12, 4);
    var expectsResponse, isResponse := ExpectsResponse(flags), IsResponse(flags);
    if version == 0 && (expectsResponse || isResponse) { return Failure(MESSAGE_HEADER_MISSING_REQUEST_ID); }
    if isResponse && expectsResponse { return Failure(MESSAGE_HEADER_INVALID_FLAGS); }
    return NONE;
  }

  /** What a MessageReader learns before it decodes the payload. */
  datatype Header = NoHeader | Header(size: nat, version: nat, name: nat, flags: nat, requestID: nat)

  function HeaderOf(m: Message): Header {
    if |m.bytes| < 16 then NoHeader
    else
      var version := GetUint(m.bytes, 4, 4);
      if version >= 1 && |m.bytes| < 24 then NoHeader
      else Header.Header(GetUint(m.bytes, 0, 4), version, GetUint(m.bytes, 8, 4), GetUint(m.bytes, 12, 4),
                         if version >= 1 then GetUint(m.bytes, 16, 8) else 0)
  }

  /** A message of any version but the first has a request id. */
  lemma HeaderWords(m: Message)
    requires 24 <= |m.bytes|
    ensures var h := HeaderOf(m);
            && h.Header? && h.size == GetUint(m.bytes, 0, 4) && h.version == GetUint(m.bytes, 4, 4)
            && h.name == GetUint(m.bytes, 8, 4) && h.flags == GetUint(m.bytes, 12, 4)
            && (h.version != 0 ==> h.requestID == GetUint(m.bytes, 16, 8)) && (h.version == 0 ==> h.requestID == 0)
  {
    hide GetUint;
  }

  /** Reads the header and leaves the decoder at the payload. */
  method ReadHeader(d: Decoder) returns (h: Header)
    requires d.next == 0
    modifies d
    ensures h == HeaderOf(d.message)
    ensures h.Header? ==> d.next == h.size
  {
    hide GetUint;
    var size := d.ReadUint(4);
    if size.NoNumber? { return NoHeader; }
    var version := d.ReadUint(4);
    if version.NoNumber? { return NoHeader; }
    var name := d.ReadUint(4);
    if name.NoNumber? { return NoHeader; }
    var flags := d.ReadUint(4);
    if flags.NoNumber? { return NoHeader; }
    var requestID := 0;
    if version.n >= 1 {
      var id := d.ReadUint(8);
      if id.NoNumber? { return NoHeader; }
      requestID := id.n;
    }
    d.next := size.n;
    return Header.Header(size.n, version.n, name.n, flags.n, requestID);
  }

  // ---- what is built is accepted and read back ----

  predicate Sendable(name: nat, e: Envelope, m: Message) {
    && name < TWO32 && e.flags < TWO32 && (e.WithRequestID? ==> e.requestID < TWO32 * TWO32)
    && |m.bytes| < TWO32 && |m.handles| < INVALID_HANDLE
  }

  lemma HeaderFields(m: Message, name: nat, e: Envelope, payload: seq<byte>)
    requires m.bytes == HeaderBytes(name, e) + payload && Sendable(name, e, m)
    ensures HeaderOf(m) == Header.Header(HeaderSize(e), Version(e), name, e.flags, if e.Plain? then 0 else e.requestID)
    ensures At(m.bytes, HeaderSize(e), payload)
  {
    hide ToLE, GetUint, HeaderBytes, At;
    HeaderPlaced(m, name, e, payload);
    assert Pow256(4) == TWO32 && Pow256(8) == TWO32 * TWO32;
    GetAt(m.bytes, 0, HeaderSize(e), 4);
    GetAt(m.bytes, 4, Version(e), 4);
    GetAt(m.bytes, 8, name, 4);
    GetAt(m.bytes, 12, e.flags, 4);
    if e.WithRequestID? { GetAt(m.bytes, 16, e.requestID, 8); }
  }

  lemma HeaderPlaced(m: Message, name: nat, e: Envelope, payload: seq<byte>)
    requires m.bytes == HeaderBytes(name, e) + payload
    ensures At(m.bytes, 0, ToLE(HeaderSize(e), 4)) && At(m.bytes, 4, ToLE(Version(e), 4))
    ensures At(m.bytes, 8, ToLE(name, 4)) && At(m.bytes, 12, ToLE(e.flags, 4))
    ensures e.WithRequestID? ==> At(m.bytes, 16, ToLE(e.requestID, 8))
    ensures At(m.bytes, HeaderSize(e), payload)
  {
    hide ToLE;
    var a, b, c, d := ToLE(HeaderSize(e), 4), ToLE(Version(e), 4), ToLE(name, 4), ToLE(e.flags, 4);
    var id: seq<byte> := if e.Plain? then [] else ToLE(e.requestID, 8);
    assert m.bytes[0..|m.bytes|] == m.bytes;
    AtSplit(m.bytes, 0, a + b + c + d + id, payload);
    AtSplit(m.bytes, 0, a + b + c + d, id);
    AtSplit(m.bytes, 0, a + b + c, d);
    AtSplit(m.bytes, 0, a + b, c);
    AtSplit(m.bytes, 0, a, b);
  }

  /** The header passes unless its flags call for a request id that it does not have, or call the message a response
      that expects a response. */
  lemma HeaderAccepted(m: Message, name: nat, e: Envelope, payload: seq<byte>)
    requires m.bytes == HeaderBytes(name, e) + payload && Sendable(name, e, m)
    ensures MessageHeader(m) == if e.Plain? && (ExpectsResponse(e.flags) || IsResponse(e.flags))
                                then Invalid(MESSAGE_HEADER_MISSING_REQUEST_ID)
                                else if ExpectsResponse(e.flags) && IsResponse(e.flags)
                                then Invalid(MESSAGE_HEADER_INVALID_FLAGS)
                                else JsValidation.Valid(Cursor(HeaderSize(e), 0))
  {
    HeaderFields(m, name, e, payload);
  }

  /** Every message that either implementation sends is read back whole by JavaScript, and the validator accepts its
      payload exactly when the value conforms to its type. */
  lemma Delivered(side: Side, sc: Schema, cls: nat, v: Value, name: nat, e: Envelope, c: Cursor)
    requires WellFormedSchema(sc) && IsPresent(sc, PointerTo(cls, false), v)
    requires c.offset <= HeaderSize(e) && c.handleIndex == 0
    requires Sendable(name, e, MessageOf(side, sc, cls, v, name, e))
    ensures WellFormed(sc, PointerTo(cls, false)) && cls < |sc|
    ensures var m, t, q := MessageOf(side, sc, cls, v, name, e), PointerTo(cls, false), HeaderSize(e);
            && HeaderOf(m) == Header.Header(q, Version(e), name, e.flags, if e.Plain? then 0 else e.requestID)
            && (ValidateBlock(m, sc, t, q, c).Valid? <==> Conforms(side, sc, t, v))
            && Reads(DecodeBlock(m, sc, t, q), v)
  {
    hide WellFormedSchema, WellFormed, Shaped, EncodeBody, Block, BlockSize, BlockWord, HeaderBytes, ValidateBlock,
      DecodeBlock, Conforms, HeaderOf, IsKind;
    var m, t, q := MessageOf(side, sc, cls, v, name, e), PointerTo(cls, false), HeaderSize(e);
    var b := EncodeBody(side, sc, t, v, 0);
    var _ := BodyIsSlots(side, sc, t, v, 0);
    var payload := Block(BlockSize(sc, t, v), BlockWord(sc, t, v), b);
    HeaderFields(m, name, e, payload);
    assert At(m.handles, 0, b.handles) by { assert m.handles[0..0 + |b.handles|] == b.handles; }
    AcceptBlock(side, m, sc, t, v, q, 0, c, b);
    ReadBlock(side, m, sc, t, v, q, 0, b);
  }

  // ---- building ----

  /** The four words that every header starts with. */
  method WriteWords(encoder: Encoder, size: nat, version: nat, name: nat, flags: nat)
    requires encoder.buffer.Valid() && encoder.next + 16 <= encoder.buffer.next
    modifies encoder`next, encoder.buffer.arrayBuffer
    ensures encoder.buffer.Valid() && encoder.next == old(encoder.next) + 16
    ensures encoder.buffer.Used() == Put(old(encoder.buffer.Used()), old(encoder.next),
                                         ToLE(size, 4) + ToLE(version, 4) + ToLE(name, 4) + ToLE(flags, 4))
  {
    hide ToLE, Put;
    var _ := encoder.WriteUint(size, 4);
    var _ := encoder.WriteUint(version, 4);
    var _ := encoder.WriteUint(name, 4);
    var _ := encoder.WriteUint(flags, 4);
    FourWords(old(encoder.buffer.Used()), old(encoder.next), ToLE(size, 4), ToLE(version, 4), ToLE(name, 4), ToLE(flags, 4));
  }

  class MessageBuilder {
    const schema: Schema
    const buffer: Buffer
    const handles: HandleTable

    ghost predicate Valid()
      reads this, buffer, buffer.arrayBuffer
    {
      WellFormedSchema(schema) && buffer.Valid()
    }

    /** A message without a request id. */
    constructor Plain(schema: Schema, messageName: nat, payloadSize: nat)
      requires WellFormedSchema(schema)
      ensures Valid() && fresh(buffer) && fresh(buffer.arrayBuffer) && fresh(handles) && handles.items == []
      ensures this.schema == schema && buffer.Used() == HeaderBytes(messageName, Envelope.Plain(0))
      ensures buffer.Extent() == Memory(16 + payloadSize, 16)
    {
      this.schema := schema;
      buffer := new Buffer(16 + payloadSize);
      handles := new HandleTable();
      new;
      hide WellFormedSchema, ToLE, Put, HeaderBytes, Zeros;
      HeaderFilled(messageName, 0, 0);
      var encoder := CreateEncoder(16);
      assert buffer.Used() == Zeros(16);
      WriteWords(encoder, 16, 0, messageName, 0);
    }

    /** A message with flags and a request id. */
    constructor WithRequestID(schema: Schema, messageName: nat, payloadSize: nat, flags: nat, requestID: nat)
      requires WellFormedSchema(schema)
      ensures Valid() && fresh(buffer) && fresh(buffer.arrayBuffer) && fresh(handles) && handles.items == []
      ensures this.schema == schema && buffer.Extent() == Memory(24 + payloadSize, 24)
      ensures buffer.Used() == HeaderBytes(messageName, Envelope.WithRequestID(flags, requestID))
    {
      this.schema := schema;
      buffer := new Buffer(24 + payloadSize);
      handles := new HandleTable();
      new;
      hide WellFormedSchema, ToLE, Put, HeaderBytes, Zeros;
      HeaderFilled(messageName, flags, requestID);
      var encoder := CreateEncoder(24);
      assert buffer.Used() == Zeros(24);
      WriteWords(encoder, 24, 1, messageName, flags);
      var _ := encoder.WriteUint(requestID, 8);
    }

    method CreateEncoder(size: nat) returns (e: Encoder)
      requires Valid() && Allocatable(buffer.Extent(), size)
      modifies buffer
      ensures Valid() && (buffer.arrayBuffer == old(buffer.arrayBuffer) || fresh(buffer.arrayBuffer))
      ensures buffer.Used() == old(buffer.Used()) + Zeros(size) && buffer.Extent() == Allocate(old(buffer.Extent()), size)
      ensures fresh(e) && e.schema == schema && e.buffer == buffer && e.handles == handles
      ensures e.base == e.next == old(buffer.next)
    {
      var r := buffer.Alloc(size);
      e := new Encoder(schema, buffer, handles, r.pointer);
    }

    /** Appends the struct. Its class's encodedSize is a multiple of eight, as that of every generated class is. */
    method EncodeStruct(cls: nat, val: Value)
      requires Valid() && IsPresent(schema, PointerTo(cls, false), val)
      requires BlockSize(schema, PointerTo(cls, false), val) % 8 == 0
      requires AllAllocatable(buffer.Extent(), Allocations(schema, PointerTo(cls, false), val))
      modifies buffer, buffer.arrayBuffer, handles
      ensures Valid() && (buffer.arrayBuffer == old(buffer.arrayBuffer) || fresh(buffer.arrayBuffer))
      ensures var t := PointerTo(cls, false);
              var b := EncodeBody(JavaScript, schema, t, val, |old(handles.items)|);
              && buffer.Used() == old(buffer.Used())
                                  + Block(BlockSize(schema, t, val), BlockWord(schema, t, val), b)
              && handles.items == old(handles.items) + b.handles
    {
      hide WellFormedSchema, WellFormed, Shaped, IsKind, EncodeBody, EncodeSlots, Block, BlockSize, BlockWord, SlotsSize,
        Allocatable, Allocate, AllocateAll, AllAllocatable, Allocations, InnerAllocations, Align;
      ghost var t := PointerTo(cls, false);
      ghost var b := EncodeBody(JavaScript, schema, t, val, |handles.items|);
      ghost var ts := BodyIsSlots(JavaScript, schema, t, val, |handles.items|);
      var encodedSize := 8 + SlotsSize(schema[cls].slots);
      Aligned(encodedSize);
      BlockAllocated(buffer.Extent(), schema, t, val);
      InnerOf(schema, t, val, buffer.Extent());
      ghost var start := buffer.Used();
      var e := CreateEncoder(encodedSize);
      e.EncodeSlotBlock(encodedSize, schema[cls].version, schema[cls].slots, val.items, start);
    }

    method Finish() returns (m: Message)
      requires Valid()
      modifies buffer
      ensures m == Message(old(buffer.Used()), handles.items)
    {
      buffer.Trim();
      m := Message(buffer.arrayBuffer[..], handles.items);
    }
  }

  lemma Aligned(size: nat)
    requires size % 8 == 0
    ensures Align(size) == size
  {
  }

  /** Four words written one after the other. */
  lemma FourWords(s: seq<byte>, pos: nat, a: seq<byte>, b: seq<byte>, c: seq<byte>, d: seq<byte>)
    requires |a| == |b| == |c| == |d| == 4 && pos + 16 <= |s|
    ensures Put(Put(Put(Put(s, pos, a), pos + 4, b), pos + 8, c), pos + 12, d) == Put(s, pos, a + b + c + d)
  {
    hide Put;
    PutTwice(s, pos, a, b);
    PutTwice(s, pos, a + b, c);
    PutTwice(s, pos, a + b + c, d);
  }

  /** A header written over zeros, the id behind the other words. */
  lemma HeaderFilled(messageType: nat, flags: nat, requestId: nat)
    ensures var words := (size, version) => ToLE(size, 4) + ToLE(version, 4) + ToLE(messageType, 4) + ToLE(flags, 4);
            && Put(Zeros(16), 0, words(16, 0)) == HeaderBytes(messageType, Envelope.Plain(flags))
            && Put(Put(Zeros(24), 0, words(24, 1)), 16, ToLE(requestId, 8))
               == HeaderBytes(messageType, Envelope.WithRequestID(flags, requestId))
  {
    hide ToLE, Zeros;
    var words := ToLE(24, 4) + ToLE(1, 4) + ToLE(messageType, 4) + ToLE(flags, 4);
    assert Put(Zeros(24), 0, words)[..16] == words;
  }

  method BuildMessage(schema: Schema, cls: nat, val: Value, messageName: nat, payloadSize: nat)
    returns (m: Message)
    requires WellFormedSchema(schema) && IsPresent(schema, PointerTo(cls, false), val)
    requires BlockSize(schema, PointerTo(cls, false), val) % 8 == 0
    requires AllAllocatable(Memory(16 + payloadSize, 16), Allocations(schema, PointerTo(cls, false), val))
    ensures m == MessageOf(JavaScript, schema, cls, val, messageName, Envelope.Plain(0))
  {
    hide WellFormedSchema, WellFormed, Shaped, EncodeBody, Block, BlockSize, BlockWord, HeaderBytes, IsKind;
    var builder := new MessageBuilder.Plain(schema, messageName, payloadSize);
    builder.EncodeStruct(cls, val);
    m := builder.Finish();
  }

  /** Builds a message around a struct, validates the struct and reads it back. */
  method StructEncodeDecode(schema: Schema, cls: nat, val: Value, messageName: nat, payloadSize: nat)
    returns (err: Check, result: Result)
    requires WellFormedSchema(schema) && IsPresent(schema, PointerTo(cls, false), val)
    requires BlockSize(schema, PointerTo(cls, false), val) % 8 == 0
    requires AllAllocatable(Memory(16 + payloadSize, 16), Allocations(schema, PointerTo(cls, false), val))
    requires Sendable(messageName, Envelope.Plain(0), MessageOf(JavaScript, schema, cls, val, messageName, Envelope.Plain(0)))
    ensures err.NONE? <==> Conforms(JavaScript, schema, PointerTo(cls, false), val)
    ensures result == Returned(val)
  {
    hide WellFormedSchema, WellFormed, IsPresent, BlockSize, ValidateBlock, DecodeBlock, Conforms, HeaderOf, MessageOf;
    Delivered(JavaScript, schema, cls, val, messageName, Envelope.Plain(0), Cursor(0, 0));
    var message := BuildMessage(schema, cls, val, messageName, payloadSize);
    var validator := new Validator(schema, message);
    err := validator.ValidateStruct(cls, 16, false);
    var d := new Decoder(schema, message, 0);
    var header := ReadHeader(d);
    result := d.DecodeStruct(cls, PointerTo(cls, false));
  }
}
