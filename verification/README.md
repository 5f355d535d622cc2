# MongoDB wire stack: a verified model

This project models the MongoDB wire stack of the repository in Dafny and proves
what its layers promise to each other.

* **BSON.** A value is a recursive datatype, a document is its bytes. The encoder
  appends to a buffer and patches length prefixes in place; the decoder scans a
  document field by field and recurses under a depth guard, and accepts exactly the
  language of a grammar of parse trees. A second, independent scalar parser exists
  beside the borrowing one.
* **Messages and framing.** OP_MSG with its section loop and checksum-aware end,
  OP_QUERY, OP_REPLY and OP_COMPRESSED, the header, and the framer that takes
  frames off a growing buffer. CRC-32C is a function parameter.
* **SCRAM and the SASL bridge.** Client and server as step functions and as the
  objects that refine them, the text layer (attributes, escaping, base64, XOR),
  whole runs, and the bridge that drives one server per connection. Hash, HMAC,
  PBKDF2 and MD5 are function parameters; only HMAC's output length is assumed.
* **Connection loop and calendar.** The request loop with an arbitrary handler,
  reading frames and writing replies, and the day-number arithmetic of log dates.

Code that changes things step by step is a class or a method with loops
(`Buffer`, `Encode`, `SliceReader`, `ScalarReader`, `ValueReader`, `Decoder`,
`OpMsgLoops`, `FramingLoops`, `ScramMachines`, `BridgeMachine`,
`ConnectionLoop`). Each such method is proved equal to a function on values, and
the theorems are about those functions.

What those functions compute is also said without them. `BsonWire`, `MessageWire`,
`ScramWire` and `BridgeWire` write every format out in literal bytes, offsets and
numbers; `Utf8Reference`, `Grammar`, `OpMsgAccepts` and `ConnectionReplies` say by
an if-and-only-if, over an independent definition, which inputs are accepted and
which reply every request of a run gets; `Carrier` reads replies and error documents
back by raw lookup.

Strings are their UTF-8 bytes, doubles, object ids and decimals their wire bytes.
Fixed-width integers are integers with explicit ranges, so every wraparound and
truncation is written out. `usize` is 64 bits wide: a 32-bit length always fits.

Where comments in the repository and its code disagree, the code is followed:

* The scanner branch at wirebson/src/decode.rs:151-158 is called unreachable for
  validated documents. It is reachable, and `Scan.RunsOffIff` says exactly when.
* `encode_scalar` is documented as infallible (mongo_common/src/bson/scalar.rs:452-453);
  it fails for oversized strings and binaries and for NULs in regex parts
  (`Faults.ScalarEncodingCanFail`).
* A document of more than 2^31 - 1 bytes can decode and not encode again, because
  lengths are read unsigned and written signed
  (`Reencode.OversizeDocumentDoesNotReencode`).

## Model

| member | source | states |
|---|---|---|
| Bytes.LE32RoundTrip | mongo_common/src/io.rs:63-80 | Reading a written 32-bit integer, signed or unsigned, gives it back; writing out of range keeps the value modulo 2^32. |
| Bytes.LE64RoundTrip | mongo_common/src/io.rs:81-91 | The same for signed 64-bit integers. |
| BsonWire.LE32Weights | mongo_common/src/io.rs:176-184 | The four bytes written are the number modulo 2^32 in base 256, least significant first. |
| BsonWire.LE64Weights | mongo_common/src/io.rs:186-195 | Eight bytes are the low word and then the high word. |
| Utf8Reference.ValidIff | mongo_common/src/bson/scalar.rs:417-440 | Text is accepted exactly when it is the UTF-8 encoding of some sequence of Unicode scalar values: no surrogates, no overlong forms, nothing above U+10FFFF. |
| SliceReader.SliceCursor.TakeBytes | mongo_common/src/io.rs:107-118 | A read moves the cursor by what it returns; a short read reports what was needed and leaves the cursor alone. |
| SliceReader.SliceCursor.TakeCString | mongo_common/src/io.rs:133-146 | The search loop finds the first NUL, returns what precedes it and steps over it; without a NUL nothing moves. |
| Buffer.ByteBuffer.PutCString | mongo_common/src/io.rs:199-208 | Appends string and NUL exactly when the string has no NUL; otherwise writes nothing. |
| Buffer.ByteBuffer.PlaceholderI32 | mongo_common/src/io.rs:209-216 | Four zero bytes are appended and their position returned. |
| Buffer.ByteBuffer.PutI32LeAt | mongo_common/src/io.rs:217-224 | Exactly the four bytes at the position change. |
| ScalarCodec.SubtypeRoundTrip | mongo_common/src/bson/scalar.rs:178-211 | A binary subtype survives its byte exactly unless it is a user subtype below 0x80. |
| BsonWire.SubtypeAcceptedIff | mongo_common/src/bson/scalar.rs:195-211 | Subtypes 0 to 6 and 0x80 to 0xFF are accepted, the reserved ones between refused. |
| BsonWire.NumberElements | mongo_common/src/bson/scalar.rs:14-34 | Double, int32, int64, datetime and decimal elements in literal tags and byte order. |
| BsonWire.TextElements | mongo_common/src/bson/scalar.rs:455-520 | String, JavaScript and symbol elements: tag, name, NUL, length with terminator, text, NUL. |
| BsonWire.IdentityElements | mongo_common/src/bson/scalar.rs:455-508 | ObjectId, DBPointer and bool elements; true is 1 and false is 0. |
| BsonWire.EmptyElements | mongo_common/src/bson/scalar.rs:455-508 | Undefined, null, min key and max key have a tag and no value. |
| BsonWire.PairElements | mongo_common/src/bson/scalar.rs:455-508 | Regex parts each end in NUL; a timestamp has its increment before its seconds. |
| BsonWire.BinaryElements | mongo_common/src/bson/scalar.rs:461-479 | Binary elements with literal subtype bytes; the obsolete subtype 2 counts and writes its inner length. |
| BsonWire.MoreBinaryElements | mongo_common/src/bson/scalar.rs:178-192 | The same for both UUID subtypes, MD5 and encrypted. |
| BsonWire.CompositeElements | wirebson/src/encode.rs:16-93 | Documents, arrays and code-with-scope: total length, elements and NUL, under their literal tags. |
| BsonModel.IndexedAt | wirebson/src/encode.rs:31-41 | Element i of an array is written under the numeral of i. |
| BsonWire.NumeralDigit | wirebson/src/encode.rs:31-41 | A numeral is its decimal digits, most significant first. |
| BsonWire.HelloWorld | wirebson/src/raw.rs:264-271 | `{"hello": "world"}` is its published 22 bytes, both ways. |
| ScalarCodec.ParseScalarOf | mongo_common/src/bson/scalar.rs:330-415 | Parsing an encoded scalar followed by anything returns that scalar and its exact length, for every representable scalar. |
| ScalarCodec.ParseScalarExact | mongo_common/src/bson/scalar.rs:330-440 | Every accepted input begins with the encoding of the returned scalar, under the same tag: the scalar grammar is unambiguous. |
| Truncation.ScalarCut | mongo_common/src/bson/scalar.rs:570-580 | No proper prefix of an encoded scalar is accepted under its tag, for every scalar and every cut. |
| ScalarReader.TakeScalar | mongo_common/src/bson/scalar.rs:330-413 | The tag dispatch over a moving cursor returns the scalar, or the error, of the specification and stops behind it; the tags are those `BsonWire` writes out. |
| ScalarReader.TakeString | mongo_common/src/bson/scalar.rs:417-434 | The length-prefixed string reader, with its zero-length, NUL and UTF-8 errors, on the cursor. |
| ScalarReader.TakeBinary | mongo_common/src/bson/scalar.rs:336-363 | The binary reader, including the inner length of the obsolete subtype. |
| ScalarReader.ReadScalar | mongo_common/src/bson/scalar.rs:330-415 | The value and the number of bytes consumed. |
| Encode.EncodeScalar | mongo_common/src/bson/scalar.rs:455-508 | Appends exactly the scalar's bytes and returns how many, or fails with exactly the error of the first part that has no encoding; earlier bytes are never touched. |
| Faults.ScalarEncodingCanFail | mongo_common/src/bson/scalar.rs:452-495 | Inputs on which the encoding documented as infallible fails: any regex with a NUL. |
| Faults.ValueFaultIff | wirebson/src/encode.rs:16-104 | The encoder's error, defined by writing order and offset, is absent exactly when the value encodes, wherever it is written. |
| Faults.FirstFault | wirebson/src/encode.rs:16-104 | The first field that cannot be written decides the error, at the offset behind the bytes of all fields before it. |
| Faults.BadNameIsReported | wirebson/src/encode.rs:16-59 | A NUL in a name is reported at the offset where its field was to begin, at the top level and inside a nested document. |
| Encode.PutString | mongo_common/src/bson/scalar.rs:510-520 | Appends the length-prefixed string, or nothing when its length has no i32. |
| Decode.ScalarParsersAgree | wirebson/src/decode.rs:195-378 | For every non-composite tag and every input the borrowing and the owning parser accept the same inputs with the same value and rest. |
| Decode.FromBytes | wirebson/src/raw.rs:45-72 | A raw document is accepted exactly when its declared length is its length, at least 5, and its last byte is NUL. |
| Truncation.DocumentCut | wirebson/src/raw.rs:45-72 | Every cut of a valid document is refused as too short to look at or with its declared and actual length, and so is every extension. |
| Truncation.LastByteDamaged | wirebson/src/raw.rs:45-72 | A valid document with another last byte is refused at the offset of that byte. |
| ValueReader.ReadValue | wirebson/src/decode.rs:195-311 | The value parser on a cursor returns the value and byte count of the specification, composites and scopes included. |
| ValueReader.ReadScope | wirebson/src/decode.rs:215-258 | Code-with-scope: inner lengths, the scope's own validation and the total length are all checked, in the source's order. |
| ValueReader.TakeStr | wirebson/src/decode.rs:336-347 | The borrowing string reader on the cursor. |
| ValueReader.TakeBinaryValue | wirebson/src/decode.rs:361-378 | The borrowing binary reader on the cursor. |
| RawValue.ParseValueOf | wirebson/src/decode.rs:195-311 | Parsing the bytes of any valid raw value followed by anything returns it and leaves what followed. |
| RawValue.ParseValueExact | wirebson/src/decode.rs:195-311 | Every accepted value is valid and its bytes are exactly those consumed. |
| Truncation.ValueCut | wirebson/src/decode.rs:195-311 | No proper prefix of any valid raw value, composites included, is accepted under its tag. |
| Documents.ScanNext | wirebson/src/decode.rs:150-187 | Every step advances by at least 2 bytes and stays in the body; a nested composite is at least 6 bytes shorter than its document, so recursion is bounded. |
| Documents.ModesAgree | wirebson/src/decode.rs:72-119 | Shallow and deep decoding agree on every input, errors included. |
| Documents.ShallowerDecodes | wirebson/src/decode.rs:42-70 | What decodes at some depth decodes to the same fields at every smaller depth. |
| Documents.RawGetAgrees | wirebson/src/raw.rs:110-118 | Whenever a document decodes, the first-match lookup in the raw bytes, materialised either way, equals the lookup in the decoded document. |
| Decoder.Scanner.Next | wirebson/src/decode.rs:150-187 | The mutable scanner yields the specification's field and moves to the offset behind it; the end and every error are those of the specification. |
| Decoder.DecodeFieldsLoop | wirebson/src/decode.rs:42-95 | The loop that pushes decoded fields returns exactly the recursive decoding, or its first error, including the depth guard. |
| Decoder.DecodeArrayLoop | wirebson/src/decode.rs:52-65 | The same for arrays, with element names dropped. |
| Decoder.MaterializeRaw | wirebson/src/decode.rs:97-119 | A raw value becomes its eager value under the mode and depth. |
| Decoder.FindRaw | wirebson/src/raw.rs:110-118 | The iterator loop returns the first match, stopping at the first error before it. |
| BsonModel.DocumentEncodesIff | wirebson/src/encode.rs:16-104 | Encoding fails only for a NUL in a name or regex, an unusable scope, or a total size beyond i32::MAX: no inner length overflows on its own. |
| Encode.EncodeDocument | wirebson/src/encode.rs:16-29 | Placeholder, fields, terminator, patch: appends exactly the document's bytes behind what was there, or returns exactly the first error in writing order, with its offset. |
| Encode.EncodeArray | wirebson/src/encode.rs:31-41 | The same for arrays, with decimal index names. |
| Encode.PatchLen | wirebson/src/encode.rs:43-50 | The prefix becomes the length of the region behind it and nothing else changes, or the length error at the prefix. |
| Encode.EncodeField | wirebson/src/encode.rs:52-59 | Tag, name and value are appended, or the name's or value's error is returned with its offset; the bytes are those of `BsonWire`, kind by kind. |
| Encode.EncodeValue | wirebson/src/encode.rs:61-93 | The dispatch over value kinds appends exactly the value's bytes or returns its error. |
| Encode.EncodeScope | wirebson/src/encode.rs:65-75 | Code-with-scope with its own patched length and its three errors. |
| Encode.EncodeToRaw | wirebson/src/document.rs:110-115 | The encoded document always passes raw validation; a failure carries the encoder's error. |
| RoundTrip.DecodeOfEncode | wirebson/src/encode.rs:16-91 | For every document with NUL-free names and regexes, valid subtypes and scopes: decoding its encoding returns it if nesting is at most 20 and `NestedTooDeep` otherwise. |
| RoundTrip.ScanOfField | wirebson/src/decode.rs:150-187 | The scanner reads back a written field at any offset, whatever follows. |
| Scan.RunsOffIff | wirebson/src/decode.rs:150-158 | For every validated document: the scan reaches the branch that reads past the body if and only if the body is clean items to its last byte, so that the final NUL belongs to the last item; then it reports `ShortInput`. |
| Scan.EndsIff | wirebson/src/decode.rs:150-187 | For every validated document: the scan ends at a terminator if and only if the body is clean items and one NUL. |
| Scan.RunOffFails | wirebson/src/decode.rs:72-95 | A document that runs off the end never decodes. |
| Scan.ValidatedYetUnterminated | wirebson/src/decode.rs:150-158 | A family of validated inputs that run off the end: every int32 below 2^24 in last place. |
| Scan.ScanExact | wirebson/src/decode.rs:150-187 | Each scanned item is valid and occupies exactly the bytes it re-encodes to under its own name. |
| Scan.ScanOfItem | wirebson/src/decode.rs:150-187 | The scanner reads any written raw item back at any offset, whatever follows. |
| Grammar.DecodesIff | wirebson/src/decode.rs:42-119 | A byte string validates and decodes to given fields if and only if a parse tree of at most twenty levels derives it and means those fields. |
| Grammar.DerivedDecodes | wirebson/src/decode.rs:42-119 | Every derived document validates; it decodes to its meaning within twenty levels and to `NestedTooDeep` beyond. |
| Grammar.OneDerivation | wirebson/src/decode.rs:150-187 | The grammar is unambiguous: equal bytes have equal trees, array element names included. |
| Reencode.DecodedIsFaithful | wirebson/src/decode.rs:72-119 | Every decoded document is one the encoder accepts, within the nesting limit. |
| Reencode.ReencodeDecoded | fuzz/fuzz_targets/fuzz_document.rs:6-10 | A validated, decoded document encodes again exactly when that fits i32::MAX, the result decodes to the same document, and it equals the input exactly when all array names were "0", "1", … |
| Reencode.ReencodeIsIdempotent | fuzz/fuzz_targets/fuzz_document.rs:6-10 | One re-encoding reaches a byte-stable form. |
| Reencode.ReencodeWithinLimit | wirebson/src/encode.rs:31-49 | A document of n bytes, n at most 48000000, re-encodes to at most 5n bytes, so no length check can fail. |
| Reencode.GrowthItems | wirebson/src/encode.rs:31-49 | The inductive form over items: at least two bytes per element against at most eight index digits. |
| Reencode.RoundTripIff | wirebson/src/encode.rs:16-91 | An encodable document survives the round trip if and only if its user subtypes are 0x80 or above, its scopes are documents and its nesting is at most 20. |
| Reencode.OversizeDocumentDoesNotReencode | wirebson/src/encode.rs:43-50 | A concrete family that decodes and does not encode again. |
| Reencode.LowUserSubtypeDoesNotRoundTrip | mongo_common/src/bson/scalar.rs:176-211 | A user subtype below 0x80 encodes and does not come back. |
| Calendar.EpochIsFirstOfJanuary1970 | wirebson/src/encode.rs:369-380 | Day 0 is 1970-01-01. |
| Calendar.CivilFollowsCalendar | wirebson/src/encode.rs:369-380 | For every integer day: a valid date, and the next day number is the Gregorian successor. |
| Calendar.CivilIsInjective | wirebson/src/encode.rs:369-380 | Later day numbers are later dates. |
| Calendar.DaysOfCivil | wirebson/src/encode.rs:369-380 | Counting the days of the computed date on the calendar gives the day number back, for every integer. |
| Calendar.CivilOfDays | wirebson/src/encode.rs:369-380 | The other way round: every valid date is reached, and by its own day number. |
| Calendar.DateTimeRecombines | wirebson/src/encode.rs:353-367 | The parts are in range, and the day counted from the date with the clock time recombines to the original value, negative ones included. |
| OpMsgCodec.FlagsRoundTripIff | mongowire/src/messages/op_msg.rs:49-64 | Parsed flags write back to the same word exactly when no unknown optional bit was set. |
| OpMsgAccepts.FlagsIff | mongowire/src/messages/op_msg.rs:49-64 | A flag word is accepted exactly when bits 2 to 15 are clear; bits 0, 1 and 16 are the three flags. |
| OpMsgAccepts.FlagBitsAre | mongowire/src/messages/op_msg.rs:224-261 | Written flags set exactly bits 0, 1 and 16. |
| OpMsgCodec.OpMsgLenIsLength | mongowire/src/messages/op_msg.rs:141-148 | The computed body length is the number of bytes encoded. |
| OpMsgTheorems.StepStaysInside | mongowire/src/messages/op_msg.rs:288-372 | Each section moves the cursor forward and never past the checksum-aware end; its error is never one of the two defensive ones. |
| OpMsgTheorems.SectionLoopStaysInside | mongowire/src/messages/op_msg.rs:288-372 | From any cursor below the end the loop terminates, never reports an overrun cursor or a truncated section kind, and stops exactly at the end. |
| OpMsgTheorems.ReencodeAccepted | mongowire/src/messages/op_msg.rs:263-396 | Sections of an accepted body fill it exactly, and re-encoding gives the same bytes exactly when no unknown optional flag bit was set. |
| OpMsgTheorems.LargeIff | mongowire/src/messages/op_msg.rs:315-325 | A sequence is too small for the parser exactly when it has no documents and an identifier of at most three bytes. |
| OpMsgTheorems.ParseOfEncode | mongowire/src/messages/op_msg.rs:224-396 | Parsing an encoded message returns it if and only if every sequence without documents has an identifier of at least four bytes; otherwise the parser rejects it as too small. |
| OpMsgTheorems.ConstructedYetRejected | mongowire/src/messages/op_msg.rs:199-210 | Messages the constructor accepts and the parser rejects: the empty document with one empty sequence named by one to three bytes. |
| OpMsgTheorems.NewIsWellFormed | mongowire/src/messages/op_msg.rs:199-210 | Every message built by the constructor over valid documents is in the scope of the round trip. |
| OpMsgAccepts.NewOpMsgIff | mongowire/src/messages/op_msg.rs:108-210 | The constructor accepts exactly messages without sequences and those whose body scans to its end and whose identifiers are all non-empty, NUL-free and no name of a top-level field; it clears the checksum flag and keeps the rest. |
| OpMsgAccepts.FirstBadIdentifier | mongowire/src/messages/op_msg.rs:120-135 | The first identifier that is not free decides, as empty, holding a NUL, or repeating a field name. |
| OpMsgAccepts.ParseIff | mongowire/src/messages/op_msg.rs:263-396 | OP_MSG accepts a body and returns a message if and only if the body spells it: flag word, body section, sequences large enough, and a checksum when flagged. |
| OpMsgTheorems.PrefixesThatParse | mongowire/src/messages/op_msg.rs:263-396 | The proper prefixes of an encoding that parse are exactly those that end at a section boundary at or behind the body document. |
| OpMsgLoops.RunSectionsLoop | mongowire/src/messages/op_msg.rs:288-372 | The section loop over offset, body and sequences computes the recursive run, or its first error. |
| OpMsgLoops.TakeSequenceLoop | mongowire/src/messages/op_msg.rs:310-362 | A kind-1 section: size, identifier and documents to the section's end. |
| OpMsgLoops.ParseBody | mongowire/src/messages/op_msg.rs:263-396 | The whole body parser equals its specification. |
| OpMsgLoops.NewSectionsLoop | mongowire/src/messages/op_msg.rs:108-137 | Identifiers are checked against the collected set of body field names in order; the result is that of the function `OpMsgAccepts.NewOpMsgIff` speaks of. |
| OpMsgLoops.EncodeBody | mongowire/src/messages/op_msg.rs:224-261 | Flags, sections and checksum are appended behind what the buffer held. |
| LegacyCodec.ReplyAcceptsExactly | mongowire/src/messages/op_reply.rs:96-132 | OP_REPLY is accepted exactly when it is the fixed part plus `numberReturned` complete documents filling the rest; the early count guard rejects none of these. |
| LegacyCodec.ReplyPrefixesRejected | mongowire/src/messages/op_reply.rs:96-132 | Every proper prefix of an accepted OP_REPLY body is rejected. |
| LegacyCodec.SelfDelimiting | mongowire/src/messages/op_reply.rs:52-64 | Documents delimit themselves: one list of documents is never a proper prefix of another of the same count. |
| LegacyCodec.ParseReplyOf | mongowire/src/messages/op_reply.rs:79-132 | Parsing an encoded reply returns it. |
| LegacyCodec.ReencodeReply | mongowire/src/messages/op_reply.rs:79-132 | Re-encoding an accepted reply keeps every byte but unknown flag bits. |
| LegacyCodec.ParseQueryOf | mongowire/src/messages/op_query.rs:88-145 | Parsing an encoded query returns it. |
| LegacyCodec.ReencodeQuery | mongowire/src/messages/op_query.rs:88-145 | Re-encoding an accepted query keeps every byte but unknown flag bits. |
| Messages.OpcodeRoundTrip | mongowire/src/messages/header.rs:28-60 | Opcodes and their numbers are one to one. |
| MessageWire.OpcodeNumbers | mongowire/src/messages/header.rs:28-42 | The ten opcodes in literal numbers. |
| MessageWire.OpcodeIff | mongowire/src/messages/header.rs:44-60 | No other number is an opcode. |
| MessageWire.HeaderIff | mongowire/src/messages/header.rs:94-126 | A header is accepted exactly when sixteen bytes are there, the length is at least 16 and within both limits, and the opcode is known; above a limit the error names the smaller one exceeded. |
| MessageWire.HeaderLayout | mongowire/src/messages/header.rs:128-134 | Length, id, id answered and opcode stand at offsets 0, 4, 8 and 12. |
| MessageWire.SectionLayout | mongowire/src/messages/op_msg.rs:224-261 | Kind 0 and the body, then kind 1, size, name and documents of each sequence; the size counts itself. |
| MessageWire.ReplyLayout | mongowire/src/messages/op_reply.rs:79-94 | The fields of OP_REPLY at their offsets; the count written is the number of documents. |
| MessageWire.ReplyFlagsKept | mongowire/src/messages/op_reply.rs:96-132 | Bits 0 to 3 of the reply flags are kept, others dropped. |
| MessageWire.QueryLayout | mongowire/src/messages/op_query.rs:88-103 | The fields of OP_QUERY at their offsets. |
| MessageWire.QueryFlagsKept | mongowire/src/messages/op_query.rs:105-145 | Bits 1 to 7 of the query flags are kept, others dropped. |
| MessageWire.QueryIff | mongowire/src/messages/op_query.rs:105-145 | OP_QUERY accepts exactly the bodies of well-formed queries, whatever the unknown flag bits. |
| MessageWire.CompressorIds | mongowire/src/compression/mod.rs:26-45 | The four compressor ids in literal numbers. |
| MessageWire.CompressedIff | mongowire/src/messages/op_compressed.rs:111-132 | OP_COMPRESSED is accepted exactly for a known opcode, a size that is not negative and a known compressor, and read field by field. |
| MessageWire.UnwrapIff | mongowire/src/messages/op_compressed.rs:71-94 | Unwrapping succeeds exactly for a right size within the limit, the enabled compressor, no nesting, and a body that parses under the original opcode. |
| Messages.ParseHeaderOf | mongowire/src/messages/header.rs:94-134 | An encoded header within the limits is read back. |
| Messages.BodyLenIsLength | mongowire/src/messages/mod.rs:65-73 | The computed length of every body type is the number of bytes encoded. |
| Messages.ParseBodyOf | mongowire/src/messages/mod.rs:75-102 | Every well-formed body is read back under its own opcode. |
| Messages.WrapRoundTrip | mongowire/src/messages/op_compressed.rs:40-94 | Wrap, write, read and unwrap give the body back up to the size limit; nested compression is refused. |
| Messages.UnwrapIsFlat | mongowire/src/messages/op_compressed.rs:71-94 | Unwrapping never yields another compressed body. |
| Framing.MoreBytesKeepOutcome | mongowire/src/framing.rs:24-79 | A delivered message or an error is unchanged by bytes that arrive later. |
| Framing.MessageConsumes | mongowire/src/framing.rs:24-79 | A delivered message takes at least a header off the buffer. |
| MessageWire.MessageIff | mongowire/src/framing.rs:24-79 | A message is delivered exactly when the buffer begins with an accepted header, the whole frame is there, its checksum is right if flagged, and its body parses. |
| MessageWire.FailureIff | mongowire/src/framing.rs:24-79 | It fails exactly on a refused header or a frame that is not intact, leaving the buffer, and on a body that does not parse, taking the frame. |
| MessageWire.WaitsIff | mongowire/src/framing.rs:24-79 | It waits exactly while the header or the announced frame is incomplete. |
| Framing.DrainThenFeed | mongowire/src/framing.rs:24-79 | Draining early and feeding the rest later is draining everything at once. |
| Framing.ChunkingIsInvisible | mongowire/src/framing.rs:24-79 | For any stream and any split into chunks: the same messages, waiting bytes and error as draining it whole. |
| Framing.AnyTwoChunkingsAgree | mongowire/src/framing.rs:24-79 | Two chunkings of the same bytes give the same result. |
| Framing.FrameLength | mongowire/src/framing.rs:87-138 | The header's length field is the number of bytes written. |
| Framing.FrameRoundTrip | mongowire/src/framing.rs:24-138 | A well-formed body is read back from its frame followed by any suffix, leaving exactly the suffix; under `checksum` an OP_MSG arrives flagged, with the CRC of all preceding bytes. |
| Framing.StaleChecksum | mongowire/src/framing.rs:58-73 | A body that already carries a checksum is accepted exactly when it is still right; otherwise the mismatch is reported and nothing consumed. |
| Framing.TrailerNeedsOpMsg | mongowire/src/framing.rs:108-138 | No other body type is read back from a frame with a trailer. |
| FramingLoops.ReadMessage | mongowire/src/framing.rs:24-79 | The framer on the buffer: nothing consumed while waiting or on a header or checksum error, exactly one frame otherwise. |
| FramingLoops.WriteMessage | mongowire/src/framing.rs:87-138 | Succeeds exactly within the size limit and without a checksum already present; appends exactly the frame, flag word patched in place, and leaves earlier bytes alone. |
| FramingLoops.PatchedFlags | mongowire/src/framing.rs:127-134 | Patching the bit in the written word is writing the message with that flag. |
| FramingLoops.ParseReplyBody | mongowire/src/messages/op_reply.rs:96-132 | The cursor and document loop of OP_REPLY equal the specification. |
| FramingLoops.ParseQueryBody | mongowire/src/messages/op_query.rs:105-145 | The cursor code of OP_QUERY equals the specification. |
| FramingLoops.ParseCompressedBody | mongowire/src/messages/op_compressed.rs:111-132 | The cursor code of OP_COMPRESSED equals the specification. |
| FramingLoops.EncodeMessageBody | mongowire/src/messages/mod.rs:75-83 | The dispatch appends exactly the body's bytes. |
| Base64.EncodeChunks | wirebson/src/encode.rs:328-350 | The chunk loop over 24-bit words writes the encoding of the bytes. |
| Base64.DecodeOfEncode | wirebson/src/encode.rs:328-350 | Decoding undoes encoding. |
| Base64.EncodeOfDecode | mongo_common/src/auth/scram.rs:253-258 | The strict decoder accepts only what the encoder writes. |
| Base64.EncodeIsPlain | mongo_common/src/auth/scram.rs:600-606 | The encoding is ASCII without commas, so it is one attribute value. |
| ScramWire.AlphabetIs | wirebson/src/encode.rs:328-350 | Sextet v is written as character v of A-Z a-z 0-9 + /. |
| ScramWire.SameBits | wirebson/src/encode.rs:328-350 | Four symbols spell the 24 bits of three bytes. |
| ScramWire.GroupShape | wirebson/src/encode.rs:328-350 | Two bytes are padded with one equals sign, one byte with two. |
| ScramText.EscapeTokens | mongo_common/src/auth/scram.rs:157-159 | The two replacement passes together are byte-by-byte escaping. |
| ScramWire.TokenIs | mongo_common/src/auth/scram.rs:157-159 | A comma becomes =2C, an equals sign =3D, every other byte itself. |
| ScramText.EscapeIsCommaFree | mongo_common/src/auth/scram.rs:157-159 | The escaped name has no comma. |
| ScramText.UnescapeOfEscape | mongowire/src/api/auth.rs:197-203 | Unescaping undoes escaping for every name, also names that spell an escape sequence. |
| ScramText.SplitOfJoin | mongo_common/src/auth/scram.rs:185-197 | Splitting at commas recovers the parts. |
| ScramText.ParseAttribute | mongo_common/src/auth/scram.rs:185-197 | An accepted attribute is exactly its key, an equals sign and its value. |
| ScramWire.AttributeIff | mongo_common/src/auth/scram.rs:185-197 | An attribute is exactly one character, an equals sign and anything. |
| ScramText.XorTwice | mongo_common/src/auth/scram.rs:145-148 | XOR with the same mask twice is the identity. |
| ScramWire.XorIsBitwise | mongo_common/src/auth/scram.rs:145-148 | Bit i of byte j of the XOR is the sum modulo 2 of the two bits, for all strings, bytes and bits. |
| ScramWire.PasswordIs | mongo_common/src/auth/scram.rs:94-169 | SCRAM-SHA-256 takes the password itself; SCRAM-SHA-1 lower-case hexadecimal digits that read back to the MD5 of user, ":mongo:" and password. |
| ScramWire.DeriveIs | mongo_common/src/auth/scram.rs:223-240 | Stored key and server key from one salted password, with the literal labels. |
| ScramWire.ClientFirstIs | mongo_common/src/auth/scram.rs:376-386 | Client-first is `n,,n=<escaped user>,r=<nonce>`. |
| ScramWire.ServerFirstIs | mongo_common/src/auth/scram.rs:554-609 | Server-first is `r=<both nonces>,s=<salt>,i=<count>`. |
| ScramWire.ClientFinalIs | mongo_common/src/auth/scram.rs:417-446 | Client-final is `c=biws,r=<nonce>,p=` and the client key XOR the HMAC of the transcript under its hash. |
| ScramWire.BindingText | mongo_common/src/auth/scram.rs:417-446 | The text in front of the nonce is `c=biws,r=`. |
| ScramWire.TranscriptIs | mongo_common/src/auth/scram.rs:656-662 | The transcript is client-first without header, server-first and client-final without proof, joined by commas. |
| ScramWire.ServerFinalIs | mongo_common/src/auth/scram.rs:656-676 | The answer to an accepted client-final is `v=` and the HMAC of the transcript under the server key. |
| ScramTheorems.ParseServerFirstOf | mongo_common/src/auth/scram.rs:246-283 | The client reads back nonce, salt and iterations from the server's message. |
| ScramTheorems.ServerFirstIff | mongo_common/src/auth/scram.rs:246-283 | A server-first message is accepted exactly when its first nonce is non-empty, its first salt is base64 and its first count is in range, in any order. |
| ScramWire.IterationsIff | mongo_common/src/auth/scram.rs:259-269 | An iteration count is taken exactly from 1 to 1000000. |
| ScramWire.ClientFirstIff | mongo_common/src/auth/scram.rs:554-609 | The server takes client-first exactly when it waits for one, the message begins `n,,`, and its attributes are `n`, a non-empty `r`, and nothing mandatory. |
| ScramWire.ServerFirstAcceptedIff | mongo_common/src/auth/scram.rs:394-411 | The client takes server-first exactly when it waits for one, the message parses, and its nonce extends the client's own. |
| ScramTheorems.ClientProofIff | mongo_common/src/auth/scram.rs:628-654 | A client-final message carries a proof exactly when its parts are channel binding, full nonce and proof, each once, in any order, and nothing else. |
| ScramTheorems.FinalAcceptedIff | mongo_common/src/auth/scram.rs:622-677 | The server accepts client-final exactly when it waits for one and the message proves the stored key over the transcript. |
| ScramTheorems.WrongProofIsRefused | mongo_common/src/auth/scram.rs:654-668 | A well-formed client-final with a wrong proof is refused for its length or as a mismatch, and the server stays as it was. |
| ScramRuns.SameTranscript | mongo_common/src/auth/scram.rs:376-446 | Whatever the credentials, once the client accepts the server's first message its auth message after client-final is the server's, byte for byte. |
| ScramRuns.ClientKeyRecovered | mongo_common/src/auth/scram.rs:656-668 | The server recovers the client key from the proof by XOR. |
| ScramRuns.LastRounds | mongo_common/src/auth/scram.rs:417-492 | With matching keys and transcripts, the proof convinces the server and its signature the client. |
| ScramRuns.HonestExchange | mongo_common/src/auth/scram.rs:376-677 | For every username, password, salt, iteration count in range and comma-free nonces, the exchange completes: both sides done, same transcript, right username. |
| ScramRuns.EveryClientRun | mongo_common/src/auth/scram.rs:376-492 | Over every sequence of calls the accepted ones are in protocol order; nonce, keys and transcript come from the messages exchanged, and a finished client saw the one signature its password determines. |
| ScramRuns.ClientIgnoresRejected | mongo_common/src/auth/scram.rs:376-492 | Dropping rejected calls from a run changes nothing. |
| ScramRuns.VerifierIsExact | mongo_common/src/auth/scram.rs:456-492 | The client accepts one server-final message only. |
| ScramRuns.ServerErrorIsReported | mongo_common/src/auth/scram.rs:456-492 | An `e=` message reaches the caller word for word and leaves the client as it was. |
| ScramRuns.EveryServerRun | mongo_common/src/auth/scram.rs:554-677 | Over every sequence of calls at most one client-first and then one client-final is accepted, and a finished server has a proof of the stored key over the transcript of the messages exchanged. |
| ScramRuns.ServerIgnoresRejected | mongo_common/src/auth/scram.rs:554-677 | Dropping rejected calls from a run changes nothing. |
| ScramMachines.ReadServerFirst | mongo_common/src/auth/scram.rs:246-283 | The attribute loop with first-occurrence guards equals the specification, errors included. |
| ScramMachines.ReadClientProof | mongo_common/src/auth/scram.rs:628-654 | The client-final attribute loop and its checks equal the specification. |
| ScramMachines.ScramClient.FirstMessage | mongo_common/src/auth/scram.rs:376-386 | The object's step is the step function; out of order it changes nothing. |
| ScramMachines.ScramClient.TakeServerFirst | mongo_common/src/auth/scram.rs:394-411 | As above, for server-first. |
| ScramMachines.ScramClient.FinalMessage | mongo_common/src/auth/scram.rs:417-446 | As above, for client-final; what the message says is `ScramWire.ClientFinalIs`. |
| ScramMachines.ScramClient.TakeServerFinal | mongo_common/src/auth/scram.rs:456-492 | As above, for server-final. |
| ScramMachines.ScramServer.TakeClientFirst | mongo_common/src/auth/scram.rs:554-609 | As above, for the server's first step. |
| ScramMachines.ScramServer.TakeClientFinal | mongo_common/src/auth/scram.rs:622-677 | As above, for the server's last step. |
| BridgeTheorems.ClaimedIsParsed | mongowire/src/api/auth.rs:197-203 | For every accepted client-first, the name the bridge looks up is the unescaped `n=` attribute the server itself parses. |
| BridgeTheorems.ApplyCases | mongowire/src/api/auth.rs:75-131 | A command leaves the state alone, is a handler's own write, opens an exchange, drops it, or closes it with a verified client-final; the bridge changes the identity only by the last, and every `saslContinue` with a readable message leaves no exchange behind. |
| BridgeTheorems.ContinueIs | mongowire/src/api/auth.rs:99-115 | `saslContinue` in full: an unreadable message changes nothing; a readable one ends the exchange, whether it verifies, and then sets the identity, or fails, and then is refused with its reason. |
| BridgeTheorems.NoSecondTry | mongowire/src/api/auth.rs:99-115 | After a readable client-final, right or wrong, the next one is refused and changes nothing. |
| BridgeTheorems.OneTryPerStart | mongowire/src/api/auth.rs:75-131 | Over every run, at most one readable client-final is checked against the server a `saslStart` put in flight. |
| BridgeWire.MechanismIff | mongo_common/src/auth/scram.rs:64-79 | Exactly the two names SCRAM-SHA-1 and SCRAM-SHA-256 are known. |
| BridgeWire.MechanismReadIff | mongowire/src/api/auth.rs:139-148 | The mechanism is read exactly from a string field that names it. |
| BridgeWire.TextReadIff | mongowire/src/api/auth.rs:150-164 | The message is read exactly from binary of any subtype or a string under `payload`, when it is UTF-8. |
| BridgeWire.ConversationIdIs | mongowire/src/api/auth.rs:166-173 | A 32-bit conversation id as it is, a 64-bit one modulo 2^32, and 1 otherwise. |
| BridgeWire.StartIff | mongowire/src/api/auth.rs:75-96 | `saslStart` opens an exchange exactly when none is open and mechanism, message, name and credentials are all there; the raw reply then has id 1, `done` false, the server's message and `ok` 1.0. While one is open it is refused. |
| BridgeWire.ContinueReplies | mongowire/src/api/auth.rs:99-115 | The raw reply to a verified `saslContinue` has the command's id, `done` true, the server's signature and `ok` 1.0. |
| BridgeWire.ReplyIsRead | mongowire/src/api/auth.rs:183-191 | Looking up the four fields in an encoded SASL reply finds exactly the values put in. |
| BridgeWire.MechanismKey | mongowire/src/api/auth.rs:139-148 | The key `mechanism`, byte by byte. |
| BridgeWire.PayloadKey | mongowire/src/api/auth.rs:150-158 | The key `payload`, byte by byte. |
| BridgeWire.ConversationKey | mongowire/src/api/auth.rs:166-173 | The key `conversationId`, byte by byte. |
| BridgeWire.DoneAndOkKeys | mongowire/src/api/auth.rs:183-191 | The keys `done` and `ok`, byte by byte. |
| BridgeTheorems.EveryRun | mongowire/src/api/auth.rs:75-131 | Over every run of commands, with any inner handler: an exchange in flight was opened by one earlier `saslStart` and untouched since, and the identity is one a `saslStart` claimed and a later `saslContinue` proved, standing since; the only other origin of either is a handler's own write. |
| BridgeTheorems.BridgeIsTheOnlyOrigin | mongowire/src/api/auth.rs:75-131 | When handlers leave the state alone, every server in flight and every identity comes from a `saslStart`. |
| BridgeTheorems.OpenServer | mongowire/src/api/auth.rs:75-96 | A server in flight awaits client-final with the credentials looked up for its username, which is the unescaped `n=` attribute it parsed. |
| BridgeTheorems.ClosedServer | mongowire/src/api/auth.rs:99-115 | A verified `saslContinue` carries a proof of the stored key over the transcript. |
| BridgeLogin.ReplyEncodesIff | mongowire/src/api/auth.rs:183-191 | A SASL reply fails to encode only when it passes i32::MAX bytes. |
| Carrier.FlatIsRead | wirebson/src/raw.rs:110-118 | From the encoding of any flat document with distinct names, raw lookup finds every scalar under its name. |
| BridgeLogin.ReplyCarries | mongowire/src/api/auth.rs:175-191 | Looking `payload` up in the encoded reply returns the server's message. |
| BridgeLogin.HonestLogin | mongowire/src/api/auth.rs:75-115 | With the right password the login completes if and only if the reply carrying server-first fits a document; then the client, fed only from the bridge's replies, is done, both transcripts agree, and the bridge authenticated exactly the name given. |
| BridgeLogin.StartCarries | mongowire/src/api/auth.rs:139-163 | From the encoded `saslStart` document the bridge reads the mechanism and message put into it. |
| BridgeLogin.ContinueCarries | mongowire/src/api/auth.rs:150-172 | From the encoded `saslContinue` document it reads the conversation id and message. |
| BridgeLogin.HonestLoginOverBson | mongowire/src/api/auth.rs:75-115 | The same with the command documents drivers send: all four messages go through BSON encoding and raw lookup. |
| BridgeMachine.AuthState.Start | mongowire/src/api/auth.rs:75-96 | `saslStart` on the mutable state equals its step function; the server stored is a fresh one. |
| BridgeMachine.AuthState.Continue | mongowire/src/api/auth.rs:99-115 | `saslContinue` takes the server out, and equals its step function on every path. |
| BridgeMachine.FindText | mongowire/src/api/auth.rs:150-163 | The payload lookup over the raw document, with its type and UTF-8 errors. |
| Connection.CommandIsFirstField | wirebson/src/raw.rs:137-156 | On every document that decodes, the command is the first field's name, or empty. |
| ConnectionReplies.CommandIff | wirebson/src/raw.rs:137-156 | On all bytes: the command is empty for an empty document, otherwise the UTF-8 text between the first type byte and the next NUL. |
| ConnectionTheorems.EveryRunIsFaithful | mongowire/src/api/mod.rs:126-220 | After every number of requests and for any handler: open exactly while nothing fatal came, and the replies are exactly those of the answered requests, in order, one each, with id, `responseTo`, opcode, length and trailer determined. |
| ConnectionTheorems.RepliesKeepOrder | mongowire/src/api/mod.rs:126-220 | Replies in request order, at most one per request, under its id; none to `moreToCome`, none at or after a fatal request; when the handler draws no ids, reply a has an id congruent to a modulo 2^32. |
| ConnectionTheorems.FatalIsFinal | mongowire/src/api/mod.rs:126-220 | After a fatal request the connection is never open again. |
| ConnectionTheorems.MoreToComeIsSilent | mongowire/src/api/mod.rs:184-190 | A `moreToCome` request is never answered, also inside OP_COMPRESSED. |
| ConnectionReplies.RepliedIff | mongowire/src/api/mod.rs:126-222 | Over every run: request i gets a given reply if and only if the connection is open after it and the request, plain or unwrapped, wants that reply: the handler's answer, its refusal as an error, the handshake document, or error 59. |
| ConnectionReplies.OpenIff | mongowire/src/api/mod.rs:126-222 | A request ends the connection exactly when its wrapper holds no request, its command is unreadable, the handler failed or refused with an error too long to write, a handshake document is missing, or the reply has no frame. |
| ConnectionReplies.CommandIsAnswered | mongowire/src/api/mod.rs:175-212 | While the connection lives, a readable command without `moreToCome` gets the handler's answer, or its refusal as a document that holds code, name and message, or nothing when the handler gives no reply. |
| ConnectionReplies.QueryIsAnswered | mongowire/src/api/mod.rs:148-174 | While the connection lives, a legacy hello gets the handshake document with flags 8, any other legacy command error 59 with flags 10. |
| ConnectionReplies.SilenceIsKept | mongowire/src/api/mod.rs:185-214 | `moreToCome` messages and OP_REPLY frames get no reply. |
| ConnectionReplies.ReplyFrames | mongowire/src/api/mod.rs:250-269 | Every reply carries its request's id, an id of its own congruent to the replies and draws before it, its exact length, its opcode, and a trailer exactly for an OP_MSG under the checksum setting. |
| ConnectionReplies.HandlerRunsIff | mongowire/src/api/mod.rs:175-188 | The handler runs exactly for OP_MSG requests with a readable command. |
| ConnectionReplies.HelloIff | mongowire/src/api/mod.rs:152 | Exactly hello, isMaster and ismaster open a handshake. |
| ConnectionReplies.ErrorEncodesIff | mongowire/src/api/mod.rs:229-240 | An error has a reply exactly when message and name leave its document within 2^31 - 1 bytes. |
| ConnectionReplies.ErrorIsRead | mongowire/src/error.rs:79-93 | Raw lookup in an error document finds `ok` 0.0, `errmsg`, `code`, `codeName` and `$db`. |
| ConnectionReplies.ShortKeys | mongowire/src/error.rs:79-90 | The keys `ok` and `$db`, byte by byte. |
| ConnectionReplies.MessageKey | mongowire/src/error.rs:79-90 | The key `errmsg`, byte by byte. |
| ConnectionReplies.CodeKeys | mongowire/src/error.rs:79-90 | The keys `code` and `codeName`, byte by byte. |
| ConnectionReplies.AdminName | mongowire/src/error.rs:79-90 | The database name `admin`, byte by byte. |
| ConnectionReplies.OnlyHelloName | mongowire/src/api/mod.rs:152-157 | The code name of error 59 is CommandNotFound, byte by byte. |
| ConnectionTheorems.PeerReadsReplies | mongowire/src/api/mod.rs:250-269 | When handlers answer with well-formed messages without a checksum and the handshake document is valid, a peer that drains the written bytes reads exactly the replies, in order and to the last byte, whatever the checksum setting. |
| ConnectionLoop.ConnectionInfo.NextRequestId | mongowire/src/api/client_info.rs:36-38 | The counter's old value is returned, and the counter is then one more, modulo 2^32. |
| ConnectionLoop.SendReply | mongowire/src/api/mod.rs:250-269 | An id is drawn first; the frame is appended exactly when it encodes, otherwise nothing is written. |
| ConnectionLoop.AnswerQuery | mongowire/src/api/mod.rs:148-175 | The OP_QUERY arm: unreadable command closes, other commands get an error reply, a handshake its document. |
| ConnectionLoop.AnswerMsg | mongowire/src/api/mod.rs:176-209 | The OP_MSG arm: the handler runs, and its result is dropped, sent, turned into an error reply, or closes the connection, as `ConnectionReplies.CommandIsAnswered` says of whole runs. |
| ConnectionLoop.Dispatch | mongowire/src/api/mod.rs:126-220 | One iteration, unwrapping included, is one step. |
| ConnectionLoop.ProcessSocket | mongowire/src/api/mod.rs:111-220 | For all input bytes and any handler, the bytes written are exactly the replies of the step machine on the frames the input holds. |

## Left out

- Sockets, tokio, flushing, write failures and the accept loop: I/O. A connection is its input bytes and its output bytes.
- zlib, snappy and zstd: foreign libraries. The model has the noop compressor and rejects the others as a build without them does.
- The inside of CRC-32C, SHA, HMAC, PBKDF2 and MD5, random nonces and constant-time comparison: parameters, inputs and plain equality.
- `handshake_reply`, `ping_reply`, `negotiate` and the example server: fixed documents and a filter; the handshake document is an input of the loop.
- Numeric conversions (`convert.rs`), ObjectId hex and generation, PLAIN, the `doc!` macros, log formatting and `Display`: easy members with no property across functions.
- `Document::remove`, `replace` and `get_mut`: one-loop edits of a field list.
- Zero-copy identity of slices and buffer capacity: not observable in the values.
- Error payloads: UTF-8 errors carry no position, message texts of the bridge are variants, and protocol errors keep only the data they are compared by.
- Flag words hold the known bits as fields (OP_MSG) or as their number (OP_REPLY, OP_QUERY).
- The scalar variants of the value enum share one constructor, as `as_scalar` and its inverse convert them one to one.
- A handler is everything it can do to the loop and the bridge: its result, the ids it draws, the checksum setting and the SASL state it writes; what it does beyond that is not modelled.
