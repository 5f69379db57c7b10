/** Python message headers: the bytes a request goes out with, and what they say at the other end. */
module PyMessaging {
  import opened Bytes
  import opened Wire
  import opened JsMessaging
  import opened PySerialization

  predicate HasRequestId(flags: nat) { ExpectsResponse(flags) || IsResponse(flags) }

  /** The header that goes with these flags. */
  function EnvelopeFor(flags: nat, requestId: nat): Envelope {
    if HasRequestId(flags) then WithRequestID(flags, requestId) else Plain(flags)
  }

  datatype Parsed = Malformed | Parsed(messageType: nat, flags: nat, requestId: nat)

  /** MessageHeader.Deserialize */
  function Deserialize(data: seq<byte>): Parsed {
    if |data| < 16 then Malformed
    else
      var size, version := GetUint(data, 0, 4), GetUint(data, 4, 4);
      var messageType, flags := GetUint(data, 8, 4), GetUint(data, 12, 4);
      if !HasRequestId(flags) then Parsed.Parsed(messageType, flags, 0)
      else if version < 1 || size < 24 || |data| < 24 then Malformed
      else Parsed.Parsed(messageType, flags, GetUint(data, 16, 8))
  }

  /** Which messages have a readable header, of whatever version: without a request id, any of 16 bytes; with one, those of a
      version above 0 whose header says it has 24 bytes, and does. */
  lemma ReadableIff(data: seq<byte>)
    ensures Deserialize(data).Malformed?
       <==> |data| < 16
            || (GetUint(data, 12, 4) % 4 != 0 && (GetUint(data, 4, 4) == 0 || GetUint(data, 0, 4) < 24 || |data| < 24))
    ensures Deserialize(data).Parsed? ==>
              Deserialize(data) == Parsed.Parsed(GetUint(data, 8, 4), GetUint(data, 12, 4),
                                                 if GetUint(data, 12, 4) % 4 == 0 then 0 else GetUint(data, 16, 8))
  {
    hide GetUint;
    if 16 <= |data| { LowFlags(GetUint(data, 12, 4)); }
  }

  /** A header and the byte array it was serialized to. Payloads are appended to that same array, so a message holds
      whatever is later written through the header. */
  class Header {
    const messageType: nat
    const flags: nat
    var requestId: nat
    var data: ByteArray?

    constructor (messageType: nat, flags: nat, requestId: nat)
      ensures this.messageType == messageType && this.flags == flags && this.requestId == requestId && data == null
    {
      this.messageType, this.flags, this.requestId, data := messageType, flags, requestId, null;
    }

    method Serialize() returns (d: ByteArray)
      modifies this`data
      ensures data == d && (old(data) != null ==> d == old(data) && d.bytes == old(d.bytes))
      ensures old(data) == null ==> fresh(d) && d.bytes == HeaderBytes(messageType, EnvelopeFor(flags, requestId))
    {
      hide ToLE, Zeros, Put, HeaderBytes;
      if data == null {
        var made := new ByteArray(if HasRequestId(flags) then 24 else 16);
        var version, size := 0, 16;
        if HasRequestId(flags) { version, size := 1, 24; }
        HeaderFilled(messageType, flags, requestId);
        made.PackInto(0, ToLE(size, 4) + ToLE(version, 4) + ToLE(messageType, 4) + ToLE(flags, 4));
        if HasRequestId(flags) { made.PackInto(16, ToLE(requestId, 8)); }
        data := made;
      }
      return data;
    }

    /** Writes the id into the serialized header, wherever that has got to. */
    method SetRequestId(id: nat)
      requires HasRequestId(flags) && data != null && 24 <= |data.bytes|
      modifies this`requestId, data
      ensures requestId == id && data.bytes == Put(old(data.bytes), 16, ToLE(id, 8))
    {
      requestId := id;
      data.PackInto(16, ToLE(id, 8));
    }
  }

  /** Setting the id leaves the rest of a message alone. */
  lemma IdReplaced(messageType: nat, flags: nat, before: nat, id: nat, payload: seq<byte>)
    requires HasRequestId(flags)
    ensures 24 <= |HeaderBytes(messageType, WithRequestID(flags, before)) + payload|
    ensures Put(HeaderBytes(messageType, WithRequestID(flags, before)) + payload, 16, ToLE(id, 8))
         == HeaderBytes(messageType, WithRequestID(flags, id)) + payload
  {
    hide ToLE;
    var start := ToLE(24, 4) + ToLE(1, 4) + ToLE(messageType, 4) + ToLE(flags, 4);
    var bytes := HeaderBytes(messageType, WithRequestID(flags, before)) + payload;
    assert bytes == start + ToLE(before, 8) + payload;
    assert bytes[..16] == start && bytes[24..] == payload;
  }

  /** A request as the router sends it: made without an id, given one when it is known, and then the bytes that go out
      carry that id and the untouched payload. */
  method Request(messageType: nat, payload: seq<byte>, requestId: nat) returns (bytes: seq<byte>)
    ensures bytes == HeaderBytes(messageType, WithRequestID(1, requestId)) + payload
  {
    hide HeaderBytes, ToLE, Put;
    var header := new Header(messageType, 1, 0);
    var data := header.Serialize();
    data.Extend(payload);
    IdReplaced(messageType, 1, 0, requestId, payload);
    header.SetRequestId(requestId);
    bytes := data.bytes;
  }

  /** What a header of either kind says to Python is what was put into it; it cannot be read exactly if its flags call
      for a request id that it does not have. */
  lemma HeaderRead(messageType: nat, e: Envelope, payload: seq<byte>, handles: seq<Value>)
    requires Sendable(messageType, e, Message(HeaderBytes(messageType, e) + payload, handles))
    ensures Deserialize(HeaderBytes(messageType, e) + payload)
         == if e.Plain? && HasRequestId(e.flags) then Malformed
            else Parsed.Parsed(messageType, e.flags, if HasRequestId(e.flags) then e.requestID else 0)
  {
    hide HeaderBytes, GetUint;
    HeaderFields(Message(HeaderBytes(messageType, e) + payload, handles), messageType, e, payload);
  }

  /** What a header that Python makes says is what was put into it, and JavaScript's validator takes every Python message
      but a response that expects a response. */
  lemma HeaderDelivered(messageType: nat, flags: nat, requestId: nat, payload: seq<byte>, handles: seq<Value>)
    requires var e := EnvelopeFor(flags, requestId);
             Sendable(messageType, e, Message(HeaderBytes(messageType, e) + payload, handles))
    ensures var e := EnvelopeFor(flags, requestId);
            var m := Message(HeaderBytes(messageType, e) + payload, handles);
            && Deserialize(m.bytes) == Parsed.Parsed(messageType, flags, if HasRequestId(flags) then requestId else 0)
            && (MessageHeader(m).Valid? <==> !(ExpectsResponse(flags) && IsResponse(flags)))
  {
    hide HeaderBytes, Deserialize, MessageHeader;
    var e := EnvelopeFor(flags, requestId);
    HeaderRead(messageType, e, payload, handles);
    HeaderAccepted(Message(HeaderBytes(messageType, e) + payload, handles), messageType, e, payload);
  }
}
