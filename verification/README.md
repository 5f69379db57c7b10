# Proofs about the Mojo bindings

A Dafny model of four parts of this repository, with proofs about them:

* the **wire format** as `js/codec.js`, `js/buffer.js` and `js/validator.js` write, check and read it;
* the **Python implementation** of the same format (`python/mojo_bindings/serialization.py`, `descriptor.py`), which adds
  struct versions, boolean packing and deserialization contexts, and what the two implementations make of each other's
  messages;
* the **Dart handle watcher** (`platform/dart/dart_handle_watcher.cc`), four parallel vectors and an index map;
* **calls and promises in Python** (`messaging.py`, `interface_reflection.py`, `promise.py`).

`dafny verify dfyconfig.toml` checks everything.

## The files

| file | what it holds |
|---|---|
| `Bytes.dfy`, `Extents.dfy`, `Dictionaries.dfy`, `Options.dfy` | little-endian integers and packed bits; runs that do not overlap; dictionaries in insertion order; values that may be missing |
| `Wire.dfy` | types, values and **one** function from a typed value to the bytes and handles written for it |
| `JsBuffer.dfy`, `JsEncoder.dfy` | the growing buffer and the encoder as imperative classes, proved to write what `Wire.Encode` says |
| `JsValidation.dfy`, `JsValidator.dfy`, `Layouts.dfy`, `JsLayout.dfy` | what validation decides, as a function and as the validator class with its two cursors; which bytes that accepts, said without cursors |
| `JsDecoding.dfy`, `JsDecoder.dfy`, `JsContents.dfy` | what decoding gives, as a function and as the decoder class, and what it depends on |
| `JsExposure.dfy`, `JsDefaults.dfy`, `JsSafety.dfy`, `JsBlindSpot.dfy`, `JsMessaging.dfy` | validated bytes decode safely, and exactly for which types; whole messages there and back |
| `PyGroups.dfy`, `PyValues.dfy` | field groups, versions and layout; Python values, and what a reader of another version sees of them |
| `PySerialization.dfy`, `PySerializer.dfy` | the serializing methods, proved to write what `Wire.Encode` says |
| `PyReading.dfy`, `PyClaims.dfy`, `PyLayout.dfy`, `PyRoundTrip.dfy`, `PyVersions.dfy`, `PyStrays.dfy` | what deserialization gives, that its claims never overlap, that it reads back what was written, across versions |
| `PyContexts.dfy`, `PyDeserializer.dfy` | contexts and the deserializing methods, proved to do what the specification of reading says |
| `Interop.dfy`, `Agreement.dfy`, `PyMessaging.dfy` | JavaScript against Python, and both given one value; message headers |
| `WatcherSpec.dfy`, `HandleWatcher.dfy`, `Timers.dfy` | the watcher as a machine over a map, as it is written, and its timer set |
| `PySession.dfy`, `PyRouting.dfy`, `PyPromise.dfy` | calls as a machine; the tables that implement it; promises and Promise.All |

Code that changes state is modelled by classes with the source's own fields, and each method is proved against a
specification function; the theorems are about those functions. One encoding function serves both languages; it uses only
distances from a slot to the next free byte, so nothing in it depends on where a block ends up.

## What the code turned out not to do

These are proved, each with the condition under which the code does what one would expect.

* JavaScript sends a null handle as an entry of the handle table. Its validator never notices, not even where handles must
  not be null, and the bytes then differ from Python's. They differ as well where Python sends an interface with a version
  other than 0, which JavaScript always writes. For values that Python serializes there is no other case. What it refuses,
  JavaScript writes: a null where the type allows none, or an array of another length than its type's, also if the array may
  be null. `Interop.SidesAgreeIff`; `Agreement.SerializeBoth` gives one value to the methods of both.
* `validateArray` does not look inside an array of maps, nor `validateMapPointer` inside maps that are a map's values, so bytes
  they accept can make the decoder fail. That can happen for a type if and only if it leads to such an array or map through
  arrays, maps and structs of which some block can be accepted: `JsBlindSpot.SafeIff`, where `JsExposure.Clear` is computed
  from the types. If no class has such a field, the nesting of arrays and maps alone decides: `JsExposure.ClearIffCovered`.
  JavaScript's NullableArrayOf drops its length, so that a length which no 32-bit size can hold protects other arrays only.
* An older Python reader of a newer struct gets more than its own fields if and only if a boolean it does not know is set in a
  byte of which it knows another, in this struct or in any that it reads inside it: `izip_longest` then adds an entry under the
  key `False` to the dictionary of fields: `PyStrays.StrayIff`, with an example in `PyStrays.StrayKey`.
* The timer set is ordered on deadlines alone, so a port is never told when another port already waits for the same deadline.
  The set holds each port's latest deadline throughout a run if and only if no update asks for a deadline that another port
  then waits for: `Timers.LatestKeptIff`, carried out on the set itself by `Timers.RunTimers`; an example is
  `Timers.SharedDeadline`.
* Python checks only that the *distance* to a block is a multiple of eight; that is enough to keep every block aligned:
  `PyClaims.RootClaims`.
* Python takes a string, and an array of numbers that is not a map's column, from all the bytes of its block, whatever length
  the header gives: `PyLayout.SizeCounts`.
* The search for a request id ends exactly while fewer than 2^64 - 1 requests wait: `PyRouting.FreeIdIff`.
* A Python proxy takes a message for a connection error, and rejects all pending calls, when its header can be read but it is
  not a good response that some call waits for. When the header cannot be read (fewer than 16 bytes, say, or flags that call
  for a request id in version 0), the exception leaves the connector without a waiter and with its handle open: pending calls
  stay pending, nothing is read any more, and nothing but closing the proxy settles them. `PySession.ReadingEnds` says exactly
  when reading ends which way, `PySession.DeafStays` that nothing settles afterwards, and `PyRouting.StuckCall` carries it out.

## Assumptions

* The host is little-endian. Integers are exact (JavaScript's are below 2^53 where a double is involved), and each growth of
  JavaScript's buffer stays below the 2^31 of its `ToInt32` conversion (`JsBuffer.AllAllocatable`).
* Generated JavaScript struct classes are not part of the repository. They are modelled on the map block that is
  (`js/codec.js:392-404`): a header, then the slots in order, with unused bytes between them; validation checks the header
  and then each field. A struct's size is a multiple of eight.
* Strings are byte strings. Map keys are integers, booleans or strings, and a map is listed in the order in which the
  language iterates it.
* A Python object has all its attributes set, listed group by group in the order of the class definition.
* A Python struct definition's boolean groups hold one to eight fields.
* Callbacks do not re-enter what calls them; promises are settled with plain values.
* The wait, close and post system calls of the watcher are parameters and logs; in `PyRouting` a write succeeds if the pipe is
  open and a parameter says so, and what can be read from the pipe is a parameter.
* The version of a Python interface is below 2^32, as `struct` demands.

## Model

| member | source | states |
|---|---|---|
| Bytes.IntegerRoundTrip | js/buffer.js:57-144 | an integer written at a width reads back, unsigned or signed, whenever it is in range |
| Bytes.SplitLE | js/buffer.js:115-124 | a 64-bit integer is its two 32-bit halves, low half first, also in two's complement |
| Bytes.LowBytes | js/buffer.js:106-134 | reducing a value to the width first, as DataView setters do, changes no byte written |
| Bytes.BoolBytesBit | js/codec.js:330-342 | bit i modulo 8 of byte i / 8 of a packed boolean array is its i-th boolean |
| Bytes.BitsAbove | python/mojo_bindings/descriptor.py:782-786 | a packed byte reaches 2^n exactly when a boolean from position n on is set |
| Extents.ChainDisjoint | js/validator.js:67-88 | monotone claims are pairwise disjoint, ascending and within the claimed range |
| Extents.ChainSplit | js/validator.js:67-88 | claims made one after the other are in order if and only if the first are, and the others are behind them |
| Dictionaries.SetDistinct | js/codec.js:191-200 | setting distinct keys one by one gives the map with those columns, in that order |
| Dictionaries.SetAllMeaning | js/codec.js:191-200 | setting any keys one by one: each key is there once, in the order of first settings, with the value of its last |
| Wire.Encode | js/codec.js:228-426 | a slot is as wide as its type and what it appends is a multiple of eight bytes |
| Wire.EncodeReference | js/codec.js:299-303 | a pointer slot has eight bytes and all appended blocks together stay aligned |
| Wire.Block | js/codec.js:360-375 | a block takes its aligned size plus the blocks behind it |
| Wire.EncodePresent | js/codec.js:290-303 | a present value puts the distance to the next free byte in its slot and its block there |
| Wire.PlacedBlock | js/codec.js:299-404 | wherever an encoded block lies, its header words read back and its contents and tail are where its slots point |
| Wire.PlacedAppend | js/codec.js:320-344 | of two consecutive encodings in a message, each is where the other leaves it, with its own distances and handle index |
| Wire.BodyIsSlots | js/codec.js:360-404 | a block that is not raw is an encoding of its slots, its header word the length, version or 0 |
| JsBuffer.Buffer.Alloc | js/buffer.js:31-39 | gives the next bytes, zero-filled, loses none written before, and copies at most twice the growth in all; refuses a size exactly outside the 32-bit limit |
| JsBuffer.Buffer.Grow | js/buffer.js:41-50 | a larger array with the same bytes and zeros behind |
| JsBuffer.Buffer.Trim | js/buffer.js:52-55 | exactly the used bytes |
| JsBuffer.Buffer.SetUint64 | js/buffer.js:115-124 | the two halves written are the eight bytes of the value |
| JsBuffer.Buffer.SetInt64 | js/buffer.js:135-144 | the same for a negative value in two's complement |
| JsEncoder.Encoder.WriteInt | js/codec.js:228-270 | writes the value's bytes at the cursor and moves it |
| JsEncoder.Encoder.WriteUint | js/codec.js:233-278 | the same, and refuses exactly the negative values, writing nothing |
| JsEncoder.Encoder.EncodePointer | js/codec.js:290-297 | writes the distance from the slot, or 0 for none |
| JsEncoder.Encoder.CreateAndEncodeEncoder | js/codec.js:299-303 | a zero-filled aligned block, and the pointer to it in this slot |
| JsEncoder.Encoder.EncodeHandle | js/codec.js:305-308 | pushes the handle, null or not, and writes its index |
| JsEncoder.Encoder.Encode | js/codec.js:543-825 | the buffer and handle table become exactly what the wire format says, whatever growth happens midway |
| JsEncoder.Encoder.EncodeReference | js/codec.js:350-418 | null as 0, anything else as a pointer with its block |
| JsEncoder.Encoder.EncodeString | js/codec.js:310-318 | header and bytes of a string |
| JsEncoder.Encoder.EncodeItems | js/codec.js:320-344 | the element loop writes the slots of all items and appends their blocks in order |
| JsEncoder.Encoder.EncodeBools | js/codec.js:326-340 | the accumulating byte loop writes the packed booleans |
| JsEncoder.Encoder.EncodeSlotBlock | js/codec.js:346-404 | header and slots of a struct or map, nested blocks behind |
| JsValidation.ValidateHandle | js/validator.js:90-112 | an accepted handle moves the handle mark up, within the table, and not the byte mark |
| JsValidation.ValidateSlot | js/validator.js:171-300 | validation ends on every input, and the marks never move down or past their limits |
| JsValidation.ValidateBlock | js/validator.js:187-361 | a followed pointer moves the byte mark up, within the message |
| JsValidation.AcceptSlot | js/validator.js:187-427 | an encoded value, wherever its parts lie behind the marks, is accepted if and only if it conforms, and the marks stay within its parts |
| JsValidation.AcceptBlock | js/validator.js:202-361 | the same for the block of a value |
| JsValidation.AcceptSlots | js/validator.js:363-427 | the same for consecutive slots: encoder order and validator order agree at every nesting |
| JsValidation.MapLengths | js/validator.js:242-292 | the two columns of an encoded map pass the length comparison |
| JsLayout.SlotAcceptedIff | js/validator.js:171-427 | on any bytes: a slot is accepted if and only if it leads to a tree of blocks and handles in which pointers are in the exact integers, blocks aligned, in the message, and at least as large as their contents need, nulls and lengths as the types ask, the columns of maps equally long, and blocks and handles each behind the one before |
| JsLayout.BlockAcceptedIff | js/validator.js:118-361 | the same for a block that is validated by itself |
| JsLayout.BlockErrors | js/validator.js:118-361 | the error for a block: alignment first, then its place, its header, its size, and its contents |
| JsLayout.PointerErrors | js/validator.js:171-213 | the error for a pointer that is null or leads too far |
| JsLayout.HandleErrors | js/validator.js:90-116 | the error for a handle |
| JsLayout.FirstRefused | js/validator.js:363-427 | of several slots the first that is refused gives the error |
| JsValidator.Validator.IsValidRange | js/validator.js:67-80 | in bounds and behind the mark |
| JsValidator.Validator.ClaimRange | js/validator.js:82-88 | moves the mark to the end of a valid range, and only then |
| JsValidator.Validator.ClaimHandle | js/validator.js:90-100 | accepts exactly the indices at or above the mark that are in the table |
| JsValidator.Validator.ValidateHandleAt | js/validator.js:102-116 | decides as the specification does |
| JsValidator.Validator.ValidateStructHeader | js/validator.js:118-137 | decides as the specification does and claims the size in the header |
| JsValidator.Validator.ValidateArrayPointer | js/validator.js:187-200 | decides as the specification does, the same error included |
| JsValidator.Validator.ValidateStructPointer | js/validator.js:202-213 | decides as the specification does |
| JsValidator.Validator.ValidateStringPointer | js/validator.js:295-301 | decides as the specification does |
| JsValidator.Validator.ValidateMapPointer | js/validator.js:247-293 | decides as the specification does, comparing the lengths of both arrays |
| JsValidator.Validator.ValidateArray | js/validator.js:303-361 | decides as the specification does, for every dimension list that describes the type |
| JsValidator.Validator.ValidateHandleElements | js/validator.js:363-386 | the loop stops at the first error and otherwise has claimed every handle |
| JsValidator.Validator.ValidateArrayElements | js/validator.js:388-401 | the loop agrees with validating the slots in order |
| JsValidator.Validator.ValidateStructElements | js/validator.js:403-414 | the loop agrees with validating the slots in order |
| JsDecoding.ReadSlot | js/codec.js:117-209 | an encoded value, wherever its parts lie, decodes to itself |
| JsDecoding.ReadBlock | js/codec.js:135-200 | the same for the block of a value |
| JsDecoding.ReadSlots | js/codec.js:144-161 | the same for consecutive slots |
| JsDecoding.MakeMapOfColumns | js/codec.js:191-200 | the two decoded columns of a map give the map |
| JsContents.SlotAlike | js/codec.js:117-209 | what is decoded depends on numbers, strings, flags and handles alone, not on where blocks lie, how large their headers say they are, or on versions |
| JsDecoder.Decoder.ReadUint | js/codec.js:63-103 | reads the bytes at the cursor, or runs into the end |
| JsDecoder.Decoder.ReadInt | js/codec.js:57-97 | the same, as a signed number |
| JsDecoder.Decoder.DecodePointer | js/codec.js:117-125 | the absolute position, or 0 |
| JsDecoder.Decoder.DecodeHandle | js/codec.js:131-133 | the table entry, null where there is none |
| JsDecoder.Decoder.Decode | js/codec.js:543-825 | gives what the specification of decoding gives, exceptions included |
| JsDecoder.Decoder.DecodeString | js/codec.js:135-142 | the bytes of the string |
| JsDecoder.Decoder.DecodeArray | js/codec.js:144-161 | all items in order |
| JsDecoder.Decoder.DecodeBools | js/codec.js:148-154 | the bit loop unpacks every boolean |
| JsDecoder.Decoder.DecodeMap | js/codec.js:191-200 | the map built from both columns, a later binding of a key winning |
| JsDecoder.Decoder.DecodeStruct | js/codec.js:163-173 | the record of the struct's slots |
| JsSafety.SlotSafe | js/validator.js:187-301 | on any bytes, for every type that hides nothing: what is accepted decodes, from blocks and handle entries that are disjoint, ascending and claimed |
| JsSafety.BlockSafe | js/validator.js:303-361 | the same for the block a pointer leads to |
| JsSafety.SlotsSafe | js/validator.js:363-427 | the same for consecutive slots |
| JsExposure.SlotAcceptable | js/validator.js:171-300 | only slots are accepted for whose type there is acceptable content: structs can be null, or all their fields have such content |
| JsExposure.ClearIffCovered | js/validator.js:247-357 | if no class has uncovered fields, a type hides nothing if and only if no array that can be accepted has maps as items and no map has maps as values, at any depth |
| JsDefaults.DefaultFine | js/validator.js:171-427 | where content can be accepted, a value that is as empty as its type allows conforms |
| JsBlindSpot.SafeIff | js/validator.js:247-357 | for every type: everything accepted can be decoded if and only if the type does not lead, through blocks that can be accepted, to an array of maps or a map of maps |
| JsBlindSpot.WildBlockAccepted | js/validator.js:247-357 | for every other type: a block that is accepted, with the marks inside its bytes and handles, and cannot be decoded |
| JsMessaging.ValidateMessageHeader | js/validator.js:139-169 | the error, or none, that sizes, version and flags call for |
| JsMessaging.MessageHeaderIff | js/validator.js:139-169 | on any bytes, of any version: which headers are accepted, what is claimed, and the error for each of the others |
| JsMessaging.ReadHeader | js/codec.js:524-534 | the header's fields, and the cursor at the payload |
| JsMessaging.HeaderWords | js/codec.js:524-534 | the words of a header, with a request id in every version but the first |
| JsMessaging.HeaderFields | js/codec.js:429-456 | the fields of a built header read back, and the payload follows |
| JsMessaging.HeaderAccepted | js/validator.js:139-169 | a built header passes unless its flags call it a response that expects one |
| JsMessaging.Delivered | js/codec.js:466-541 | a message of either implementation: header read back, payload accepted exactly if it conforms, value decoded |
| JsMessaging.MessageBuilder.Plain | js/codec.js:466-477 | a buffer that holds exactly a header without request id |
| JsMessaging.MessageBuilder.WithRequestID | js/codec.js:501-517 | a buffer that holds exactly a header with flags and request id |
| JsMessaging.MessageBuilder.EncodeStruct | js/codec.js:479-486 | appends exactly the struct's block and its handles |
| JsMessaging.MessageBuilder.Finish | js/codec.js:488-497 | the trimmed message |
| JsMessaging.BuildMessage | js/codec.js:466-497 | the whole message is the header followed by the encoded struct |
| JsMessaging.StructEncodeDecode | js/codec.js:466-541 | build, validate, decode: no error exactly if the value conforms, and always the value back |
| PyGroups.FilterFieldsTwice | python/mojo_bindings/descriptor.py:788-790 | filtering by two versions is filtering by the smaller |
| PyGroups.FilterGroupsTwice | python/mojo_bindings/serialization.py:204-206 | the same for groups, booleans inside a group included |
| PyGroups.FilterGroupsAll | python/mojo_bindings/serialization.py:198-206 | filtering by the own version or a later one drops nothing; what is left has no later version |
| PyGroups.StampSelects | python/mojo_bindings/serialization.py:198-206 | the version an old writer stamps selects from any newer definition exactly its groups |
| PyGroups.CommonGroups | python/mojo_bindings/serialization.py:122-134 | a reader takes a struct apart into the groups of the older end, and equal sizes are demanded only when nothing is dropped |
| PyGroups.NeededPaddingForAlignment | python/mojo_bindings/serialization.py:191-195 | less than the alignment, and aligns the value |
| PyGroups.GetStruct | python/mojo_bindings/serialization.py:209-223 | the layout loop makes the format, of the struct's aligned size |
| PyGroups.PositionsAgree | python/mojo_bindings/serialization.py:146-188 | positions counted from the start of the struct need the padding that the layout loop gives, for alignments 1, 2, 4 and 8 |
| PyGroups.CodesSize | python/mojo_bindings/serialization.py:209-223 | the format's codes end where the positions end |
| PyGroups.FilterFits | python/mojo_bindings/serialization.py:160-188 | the groups of an older version need no more room |
| PyGroups.AppendedStable | python/mojo_bindings/serialization.py:204-223 | a definition that only grew at its end, in groups and within boolean groups, leaves every older field where it was |
| PyValues.SameWellFormed | python/mojo_bindings/descriptor.py:556-569 | whether a type is well formed depends only on how many classes there are |
| PySerialization.Serialization.GetGroups | python/mojo_bindings/serialization.py:122-127 | the cache is transparent: the groups of the asked version, or of the own one if that is older |
| PySerialization.Serialization.GetStruct | python/mojo_bindings/serialization.py:129-134 | the same for the format |
| PySerialization.ConvertBooleansToByte | python/mojo_bindings/descriptor.py:803-805 | the first boolean in the lowest bit |
| PySerialization.ConvertOctets | python/mojo_bindings/descriptor.py:442-445 | the bytes of a boolean array are JavaScript's |
| PySerialization.NativeSlots | python/mojo_bindings/descriptor.py:526-543 | the memory of a native array is the slots of its integers |
| PySerialization.SerializeNativeArray | python/mojo_bindings/descriptor.py:793-800 | appends one block with header and padding |
| PySerializer.SerializeValue | python/mojo_bindings/descriptor.py:217-308 | raises exactly on a null or a length the types forbid; otherwise entry, appended bytes and handles are the wire format's |
| PySerializer.SerializePointer | python/mojo_bindings/descriptor.py:217-223 | the same for a value that is not null |
| PySerializer.SerializeArray | python/mojo_bindings/descriptor.py:407-445 | the same for arrays of booleans, integers and anything else |
| PySerializer.SerializeItems | python/mojo_bindings/descriptor.py:473-498 | the element loop, with space reserved first and packed last, appends exactly the encoded array |
| PySerializer.SerializeMap | python/mojo_bindings/descriptor.py:618-626 | a map goes out as a struct of two arrays |
| PySerializer.SerializeObject | python/mojo_bindings/serialization.py:136-158 | the serializing loop gives exactly the encoded struct, its positions agreeing with the separately made format |
| PySerializer.SerializeGroup | python/mojo_bindings/descriptor.py:743-780 | a group's entry is its slot |
| PyReading.ReadSlot | python/mojo_bindings/descriptor.py:225-305 | reading ends on every input, also for types that contain themselves: the memory mark never moves down and stays in the message |
| PyReading.ReadBlock | python/mojo_bindings/descriptor.py:225-243 | the same for the block a pointer leads to |
| PyReading.ReadFields | python/mojo_bindings/serialization.py:174-188 | one value for each group the reader uses |
| PyClaims.SlotClaims | python/mojo_bindings/serialization.py:66-75 | on any bytes: the claims made form an ascending chain of aligned blocks and of handles |
| PyClaims.ObjectClaims | python/mojo_bindings/serialization.py:160-188 | the same for a struct |
| PyClaims.RootClaims | python/mojo_bindings/serialization.py:56-100 | on any bytes: claimed ranges are in bounds, aligned, ascending and disjoint, and no handle is claimed twice |
| PyLayout.SlotReadIff | python/mojo_bindings/descriptor.py:225-308 | on any bytes: a slot is read without an exception if and only if it leads to a tree of blocks and handles in which each struct is at least as large as the groups of its version need, and exactly so large if its version is known, maps have 24 bytes, or more in later versions, arrays room for their items, nulls and lengths are as the types ask, and blocks and handles each lie behind the one before |
| PyLayout.RootReadIff | python/mojo_bindings/serialization.py:160-188 | the same for a message that starts with a struct; the claims are its blocks and handles |
| PyLayout.SizeCounts | python/mojo_bindings/descriptor.py:416-553 | a string, and a native array, is all that its block holds, whatever length the header gives; other arrays have that length |
| PyRoundTrip.SlotReads | python/mojo_bindings/descriptor.py:225-308 | what either implementation wrote for a value reads as what a reader of these versions sees of it, or raises where that is nothing |
| PyRoundTrip.BlockReads | python/mojo_bindings/descriptor.py:225-243 | the same for a block |
| PyRoundTrip.FieldsRead | python/mojo_bindings/serialization.py:174-188 | the same for the groups of a struct, whatever later groups lie among them or behind them |
| PyRoundTrip.ReadFewerBits | python/mojo_bindings/descriptor.py:782-790 | a reader with fewer booleans gets its own, and notices others exactly if one is set |
| PyRoundTrip.ArrayReads | python/mojo_bindings/descriptor.py:416-553 | the same for arrays, unpacked item by item or as native memory |
| PyRoundTrip.MapReads | python/mojo_bindings/descriptor.py:628-635 | the same for maps |
| PyVersions.ViewsCompatible | python/mojo_bindings/serialization.py:122-134 | two ends that know one set of definitions up to any versions understand the fields both have |
| PyVersions.AppendedMeets | python/mojo_bindings/serialization.py:204-223 | definitions that only grew at their ends suit every pair of versions |
| PyVersions.StableView | python/mojo_bindings/serialization.py:204-223 | fields that stay put in a definition stay put in every version of it |
| PyVersions.RootReads | python/mojo_bindings/serialization.py:160-188 | a message that starts with a struct reads as what is known of the struct |
| PyVersions.VersionsMeet | python/mojo_bindings/serialization.py:160-188 | whatever versions the two ends have, at every depth the reader gets exactly the fields that both have |
| PyVersions.FieldSurvives | python/mojo_bindings/serialization.py:160-188 | a number, handle or string in a field that both versions have arrives under its name |
| PyStrays.SeenStrays | python/mojo_bindings/descriptor.py:782-786 | at every depth, what a reader sees of a value has a stray entry exactly where a boolean unknown to it is set in a byte it knows |
| PyStrays.StrayIff | python/mojo_bindings/serialization.py:174-188 | the object read from a whole message has a stray entry, at any depth, if and only if such a boolean is set, at any depth, in the object written |
| PyStrays.StrayKey | python/mojo_bindings/descriptor.py:782-786 | two booleans in a byte, the newer one set: an old reader's object has its own field and an entry under False |
| PyVersions.SeesItself | python/mojo_bindings/serialization.py:136-188 | a reader of the writer's own version sees the value itself |
| PyVersions.StructRoundTrip | python/mojo_bindings/serialization.py:136-188 | what is serialized without an exception deserializes to the same object with the same handles |
| PyContexts.RootDeserializationContext.ClaimHandle | python/mojo_bindings/serialization.py:66-70 | accepts exactly the handles at or above the mark that are in the table |
| PyContexts.RootDeserializationContext.ClaimMemory | python/mojo_bindings/serialization.py:72-75 | accepts exactly starts at or above the mark, which moves to the end |
| PyContexts.ContextsCompose | python/mojo_bindings/serialization.py:77-100 | nested contexts show the root's data from the sum of their offsets |
| PyContexts.UnpackedStruct | python/mojo_bindings/serialization.py:168-188 | the number the format unpacks for a group is the one at the position the deserializing loop gives the group |
| PyContexts.UnpackedItems | python/mojo_bindings/descriptor.py:500-519 | the same for the items of an array |
| PyContexts.ConvertByteToBooleans | python/mojo_bindings/descriptor.py:808-815 | the bits up to the highest one set, and at least as many as asked for |
| PyDeserializer.DeserializeValue | python/mojo_bindings/descriptor.py:225-305 | gives what the specification of reading gives, with the marks where it leaves them |
| PyDeserializer.DeserializePointer | python/mojo_bindings/descriptor.py:225-243 | the same for a pointer |
| PyDeserializer.DeserializeStruct | python/mojo_bindings/serialization.py:160-166 | the same for a struct; only one that begins the message claims its own memory |
| PyDeserializer.DeserializeObject | python/mojo_bindings/serialization.py:167-173 | the same behind the header: version, sizes, format and groups |
| PyDeserializer.DeserializeFields | python/mojo_bindings/serialization.py:174-188 | the same for the loop over the groups |
| PyDeserializer.DeserializeBooleans | python/mojo_bindings/descriptor.py:782-786 | one flag for each name, and whether a bit is left over |
| PyDeserializer.DeserializeBoolArray | python/mojo_bindings/descriptor.py:447-454 | eight booleans from each byte, cut off at the length |
| PyDeserializer.DeserializeArray | python/mojo_bindings/descriptor.py:416-553 | gives what the specification gives |
| PyDeserializer.DeserializeItems | python/mojo_bindings/descriptor.py:500-519 | gives what the specification gives |
| PyDeserializer.DeserializeMap | python/mojo_bindings/descriptor.py:628-635 | gives what the specification gives |
| PyDeserializer.SerializeDeserialize | python/mojo_bindings/serialization.py:136-188 | serialize and deserialize: refused exactly as the types demand, otherwise the object itself |
| PyMessaging.Header.Serialize | python/mojo_bindings/messaging.py:105-118 | JavaScript's header bytes, made once |
| PyMessaging.Header.SetRequestId | python/mojo_bindings/messaging.py:80-85 | the id is written into the shared byte array |
| PyMessaging.Request | python/mojo_bindings/messaging.py:327-336 | the bytes that go out carry the new id and the untouched payload |
| PyMessaging.HeaderRead | python/mojo_bindings/messaging.py:49-66 | a header of either kind says what was put into it; it is unreadable if and only if its flags call for a request id that it does not have |
| PyMessaging.ReadableIff | python/mojo_bindings/messaging.py:49-66 | on any bytes, of any version: which headers can be read, and what they say |
| PyMessaging.HeaderDelivered | python/mojo_bindings/messaging.py:49-66 | a header that Python makes says what was put into it, and JavaScript accepts it unless both flags are set |
| Interop.NullHandlesSent | js/codec.js:305-308 | JavaScript's handle table is longer than Python's by the number of null handles, and the bytes are as many |
| Interop.EncodingsAgreeIff | python/mojo_bindings/descriptor.py:368-498 | the encodings of a value are the same bytes and handles if and only if it has no null handle and no interface with a version other than 0 |
| Interop.SidesAgreeIff | python/mojo_bindings/descriptor.py:217-498 | both implementations send the same bytes and handles if and only if Python does not raise on a null or a length, no handle is null, and no interface has a version other than 0 |
| Interop.TakesSeen | python/mojo_bindings/descriptor.py:217-409 | serializing an object raises exactly where its encoding has a null or a length that the types forbid |
| Agreement.SerializeBoth | python/mojo_bindings/descriptor.py:217-553 | both implementations' methods, given one value: the same bytes and handles if and only if Python accepts it and no handle is null |
| Interop.SerializableConforms | python/mojo_bindings/descriptor.py:217-308 | what Python serializes conforms to its types |
| Interop.PythonToJavaScript | js/validator.js:202-213 | a Python message: JavaScript validates its payload and decodes the value sent |
| WatcherSpec.EndAllMore | platform/dart/dart_handle_watcher.cc:417-459 | ending one more subscription removes it, records how it ended, posts once and closes it if it is pruned |
| WatcherSpec.StepKeepsBooks | platform/dart/dart_handle_watcher.cc:134-215 | no step loses a subscription or ends one twice, or posts or closes otherwise than the books say |
| WatcherSpec.RunBalanced | platform/dart/dart_handle_watcher.cc:134-446 | over every run: each accepted subscription is watched or has ended in exactly one way; the signals posted to a port about a handle are as many as its subscriptions there that were signalled, pruned or refused; each handle was closed once for each pruning and each close command; each such command was confirmed once; the control handle stays |
| WatcherSpec.FireTellsOnce | platform/dart/dart_handle_watcher.cc:417-459 | exactly the handles whose signals are met go, each port is told once of exactly those signals, and the rest keep everything |
| WatcherSpec.PruneTellsOnce | platform/dart/dart_handle_watcher.cc:361-401 | exactly the handles found gone go, each is closed once and its port told once that the peer is gone; nothing else is closed, posted or changed |
| WatcherSpec.StepTrips | platform/dart/dart_handle_watcher.cc:168-215 | a check is tripped exactly when the control handle would be dropped |
| WatcherSpec.StepWatches | platform/dart/dart_handle_watcher.cc:134-215 | each command, firing and pruning drops exactly its handles, adds at most one, and leaves the others alone |
| WatcherSpec.AddRefuses | platform/dart/dart_handle_watcher.cc:134-152 | a handle bound to another port is refused: that port is told that the peer is gone, and nothing changes |
| WatcherSpec.RunWatches | platform/dart/dart_handle_watcher.cc:134-166 | over every run: a signal is watched for if and only if some AddHandle for the handle and port asked for it since the handle was last added anew, and the state known of it is what the last wait since then saw |
| HandleWatcher.DropRow | platform/dart/dart_handle_watcher.cc:250-280 | removal by swapping with the last entry removes exactly one row of the map and keeps the index its inverse |
| HandleWatcher.SelectDistinct | platform/dart/dart_handle_watcher.cc:372-400 | collecting handles from the vector gives each chosen one once |
| HandleWatcher.TurnsRun | platform/dart/dart_handle_watcher.cc:403-484 | whatever the turns of the watcher's loop bring, they are a run of the machine, so that its books are right after each |
| HandleWatcher.TurnRuns | platform/dart/dart_handle_watcher.cc:403-459 | which run a turn is: a wait, then firing and the command if the control handle has a watched signal, or pruning the handles found gone |
| HandleWatcher.GoneMeaning | platform/dart/dart_handle_watcher.cc:361-394 | a handle is gone if the wait saw the closed-peer signal on it, or, after an invalid argument, if asking says so and it is not the invalid handle |
| HandleWatcher.ShutdownStops | platform/dart/dart_handle_watcher.cc:461-484 | nothing comes after a shutdown that is obeyed, and everything else goes on |
| HandleWatcher.HandleWatcherThreadState.AddHandle | platform/dart/dart_handle_watcher.cc:134-166 | simulates adding to the map, merging signals for the same port and refusing another |
| HandleWatcher.HandleWatcherThreadState.RemoveHandleAtIndex | platform/dart/dart_handle_watcher.cc:250-280 | simulates ending one subscription, keeps the index an inverse and the entries before the place, the control handle among them |
| HandleWatcher.HandleWatcherThreadState.RemoveHandle | platform/dart/dart_handle_watcher.cc:168-182 | simulates removal; trips the check exactly on the control handle |
| HandleWatcher.HandleWatcherThreadState.CloseHandle | platform/dart/dart_handle_watcher.cc:184-215 | simulates closing, or pruning with one post, and closes the handle once |
| HandleWatcher.HandleWatcherThreadState.PruneClosedHandles | platform/dart/dart_handle_watcher.cc:361-401 | prunes exactly the handles found gone, each closed and reported once, and touches no other |
| HandleWatcher.HandleWatcherThreadState.NotifyFired | platform/dart/dart_handle_watcher.cc:417-441 | posts once for each fired handle and lists their indices in descending order |
| HandleWatcher.HandleWatcherThreadState.RemoveFired | platform/dart/dart_handle_watcher.cc:442-448 | because they descend, removing by index removes exactly the listed handles |
| HandleWatcher.HandleWatcherThreadState.ProcessControlMessage | platform/dart/dart_handle_watcher.cc:282-318 | carries out each command as the machine does |
| HandleWatcher.HandleWatcherThreadState.ProcessWaitManyResults | platform/dart/dart_handle_watcher.cc:403-459 | after a wait: firing and then at most one command, or pruning, as the machine does |
| HandleWatcher.HandleWatcherThreadState.Run | platform/dart/dart_handle_watcher.cc:461-484 | the loop comes to what its turns make of the machine, of the deadlines and of the ports told, until one shuts it down or trips a check |
| Timers.TimerQueue.UpdateTimer | platform/dart/dart_handle_watcher.cc:217-243 | sets, moves or cancels the port's deadline in the map of deadlines |
| Timers.TimerQueue.ProcessTimers | platform/dart/dart_handle_watcher.cc:325-340 | completes due timers in order, tells their ports, if legal, and leaves only deadlines after the last clock reading |
| Timers.ElapsedBy | platform/dart/dart_handle_watcher.cc:325-340 | at one reading of the clock exactly the deadlines that have come pass, and each legal port of theirs is told once |
| Timers.LatestKeptIff | platform/dart/dart_handle_watcher.cc:55-65 | over every sequence of updates and completions: after each operation the set holds what each port last asked for and has not had, if and only if no update asks for a deadline that another port then waits for |
| Timers.RunTimers | platform/dart/dart_handle_watcher.cc:217-340 | the same of the timer set itself |
| Timers.SharedDeadline | platform/dart/dart_handle_watcher.cc:217-340 | two ports, one deadline: when it has come the first port has been told, the second has not, and no timer is left |
| Timers.CompletedInOrder | platform/dart/dart_handle_watcher.cc:325-340 | completed timers have increasing deadlines and different ports, and the others keep theirs |
| PySession.StepKeeps | python/mojo_bindings/interface_reflection.py:332-368 | every step keeps calls and waiting requests in correspondence and never changes a settled call |
| PySession.OnlyOwnResponseResolves | python/mojo_bindings/messaging.py:354-359 | a pending call is resolved only by a good response with its own id |
| PySession.RunSound | python/mojo_bindings/interface_reflection.py:277-368 | over every run: each call has one status, pending ones wait under exactly one id each, and after an end none is pending |
| PySession.StandingIs | python/mojo_bindings/messaging.py:258-287 | a session is over after an end, or a response that no request waits for or that does not suit, and not otherwise |
| PySession.RunSettles | python/mojo_bindings/interface_reflection.py:332-368 | over every run, from the actions alone: a message without response is resolved if and only if it went out while the session was going on; a call is rejected if it did not, resolved if and only if a response that suits it came under its own id before the session was over, pending if and only if the session goes on without one, and otherwise rejected |
| PySession.DeliverRuns | python/mojo_bindings/messaging.py:278-287 | reading many messages at once is a run of the machine |
| PySession.ReadingEnds | python/mojo_bindings/messaging.py:278-287 | reading ends without a waiter if and only if the first message that is not dispatched has an unreadable header, waiting again if and only if all are dispatched and the pipe says to wait, and otherwise with the session closed |
| PySession.DeafStays | python/mojo_bindings/messaging.py:258-287 | a connector left without a waiter stays so, and no pending call is settled, until the session is ended |
| PyRouting.FreeIdIff | python/mojo_bindings/messaging.py:365-370 | there is a free id if and only if fewer than 2^64 - 1 requests wait |
| PyRouting.AheadDistinct | python/mojo_bindings/messaging.py:365-370 | the search visits no id twice before it has come around |
| PyRouting.Proxy.NextRequestId | python/mojo_bindings/messaging.py:365-370 | ends, and gives the first id from the next one on, around 2^64, that is neither zero nor waiting |
| PyRouting.Proxy.RemoveCallback | python/mojo_bindings/interface_reflection.py:303-305 | takes the callback out; never asked for one that is absent |
| PyRouting.Proxy.RunCallbacks | python/mojo_bindings/interface_reflection.py:282-297 | in whatever order: every pending call rejected, every observer told once on an error and none on closing |
| PyRouting.Proxy.OnError | python/mojo_bindings/messaging.py:265-269 | ends the session |
| PyRouting.Proxy.Close | python/mojo_bindings/interface_reflection.py:187-193 | ends the session without telling observers |
| PyRouting.Proxy.AcceptWithResponder | python/mojo_bindings/messaging.py:327-336 | registers the responder under a fresh id exactly when the message was written |
| PyRouting.Proxy.Call | python/mojo_bindings/interface_reflection.py:332-365 | simulates a call: pending in both tables, or rejected and in neither; also where its message cannot be made |
| PyRouting.Proxy.Notify | python/mojo_bindings/interface_reflection.py:332-367 | settled at once by whether the message was made and written |
| PyRouting.Proxy.HandleResponse | python/mojo_bindings/messaging.py:354-359 | takes the responder out and settles its call, resolved or rejected |
| PyRouting.ReplyClassified | python/mojo_bindings/messaging.py:344-363 | the bytes of a message with any header and payload are a reply under the request id in them if and only if the flags say response and not expects-response |
| PyRouting.CallAnswered | python/mojo_bindings/messaging.py:327-363 | a call, and then the reply bytes that carry its id, leaves exactly that call resolved and the others as they were |
| PyRouting.Proxy.HandleIncomingMessage | python/mojo_bindings/messaging.py:344-363 | by the header: raises and changes nothing, dispatches exactly a good response that is waited for, and takes nothing else |
| PyRouting.Proxy.ReadOutstandingMessages | python/mojo_bindings/messaging.py:278-287 | handles messages until one is not dispatched, which ends the session and tells each observer once, or raises, which leaves everything but the waiter |
| PyRouting.Proxy.OnAsyncWaiterResult | python/mojo_bindings/messaging.py:258-263 | the waiter has fired: reads, or ends the session |
| PyRouting.StuckCall | python/mojo_bindings/messaging.py:49-66 | a call, and then any message whose header cannot be read: the call is pending, the connector without a waiter |
| PyPromise.Promise.Resolve | python/mojo_bindings/promise.py:167-180 | only the first settlement counts; every registered callback runs once, in order |
| PyPromise.Promise.Reject | python/mojo_bindings/promise.py:182-190 | the same for rejection |
| PyPromise.Promise.Then | python/mojo_bindings/promise.py:122-146 | registers, or runs the right callback at once |
| PyPromise.RunPromise | python/mojo_bindings/promise.py:122-190 | over any uses of a promise: the first settlement is its outcome, and exactly then one callback has run for each registration, in order, with that outcome |
| PyPromise.CountComplete | python/mojo_bindings/promise.py:61-93 | the counter reaches the number of promises exactly when no result is missing |
| PyPromise.All.OnFulfilled | python/mojo_bindings/promise.py:76-84 | keeps the promise for all what the events so far make it |
| PyPromise.All.OnRejected | python/mojo_bindings/promise.py:85-89 | the same for a rejection |
| PyPromise.RunAll | python/mojo_bindings/promise.py:61-93 | settled in any order: rejected with the first rejection, or fulfilled with the results in argument order |
| PyPromise.AllDecided | python/mojo_bindings/promise.py:61-93 | it fulfils if and only if each fulfils, with each result in its place, and rejects if and only if one rejects |

## Left out

- Unions: the JavaScript union classes are generated, and Python's inline unions use placeholder offsets, so no round trip
  holds for them in general.
- Interfaces as Python values: serializing one creates a pipe and binds a router.
- Floating point, UTF-8 and unicode conversion: they rest on built-ins.
- Python's attribute conversion and default values: objects are taken with all attributes set to values of their types.
- Python sizes of 4 GiB and more and handle indices of 2^31 and more, on which `struct` raises.
- JsEncoder.Encoder.Encode: asks that each of its allocations be within the buffer's limit; beyond that the source goes on until
  it writes past the end of the shortened array, if it ever does.
- JsMessaging.MessageBuilder.EncodeStruct: asks for a class whose encodedSize is a multiple of eight, as that of every generated
  class is; createEncoder itself aligns nothing.
- JsBlindSpot.SafeIff: asks, for a type that is not safe, that some message which shows it be small enough: at most 2^52 bytes,
  as JavaScript's exact integers cannot address more, and below 2^32 where structs are in it.
- JavaScript's `valueIsNullable` set to true: it is passed as nullability of the map's values array, whose null marker has no
  array length.
- Keys of maps that are not integers, booleans or strings; NullableMapOf, which the validator does not recognize as nullable,
  is modelled as a nullable map where the class passes that on.
- JsValidator.Validator.ValidateMapPointer: not modelled for a nullable values array, for the reason above.
- HandleWatcher.HandleWatcherThreadState.ProcessControlMessage: reading the command from the control pipe is a parameter.
- HandleWatcher.HandleWatcherThreadState.Run: closing the control handle behind the loop is left out.
- Timers.TimerQueue.ProcessTimers: the clock is a function; how long the watcher waits for the next timer is left out.
- PyRouting.Proxy.Call: the message's bytes are in PyMessaging; whether the message can be made and whether a response
  deserializes are parameters.
- PyPromise.Promise.Then: the promise that it returns, settled by what its callbacks return, is not modelled.
- PyRouting.Proxy.Close: PassMessagePipe is the same step, as no write succeeds on the handle it leaves behind.
- Promises settled with other promises, Promise.Race, and Promise.All of no promises, which never settles.
- js/router.js and js/connector.js, a simpler relative of the Python router, and stubs, the serving side of a connection.
