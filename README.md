# Sofar logger frame codec, in Dafny

This project models the frame codec a Sofar solar-inverter Wi-Fi data logger uses to talk to
its server, and proves properties of that model. The logger sends request frames (heartbeat,
data, hello, hello-CD, "unknown 44"). The server decodes each one and answers with a 10-byte
server-response frame.

A frame is a start byte 0xA5, then a little-endian u16 body length N, a u16 type code, two
message numbers and a u32 data-logger serial number. The N-byte body follows, then an 8-bit
wrapping checksum of bytes [1, 11+N), then the end byte 0x15.

Modules:

- `Wire`: the bounded integer types, little-endian reads and writes, and bincode's
  fixed-width integer reads at an offset.
- `Utf8`: the test `String::from_utf8` applies. It is the well-formed byte syntax of
  section 4 of RFC 3629.
- `Helpers`: the field readers `divide_i16_by`, `divide_u16_by`, `divide_u32_by` and
  `parse_string`. Its `visit_seq` loop is a method over an array, proved against a
  recursive specification.
- `Messages`: the type-code table, every body layout, the serialization of the server
  response, and `from_incoming_message`. The 63-field Data layout is read as four
  consecutive spans. bincode stops at the first field that fails, and so do the spans,
  with the same error.
- `Buffer`: the `BytesMut` byte buffer, as a class whose readable bytes are a `seq` field.
- `Codec`: the frame codec.
  - `decode` is the method `Decode`, proved against the function `DecodeFrame`, which gives
    the result and the bytes left behind.
  - `encode` is the method `Encode`, proved against `AppendedReply`.
  - `calc_checksum` is `CalcChecksum`.
  - The unit tests' heartbeat exchange is worked out byte by byte.
- `Models`: the older copy of the layouts. It has the two-code `MessageType`, a
  deserializable `ServerResponse`, `Heartbeat`, and the shared `Data` layout.

Edge cases modelled as the code has them:

- A body layout is read from everything after the 11-byte header, not only from the N
  announced bytes. So a frame whose body is too short for its layout can still decode when
  more bytes follow it in the buffer.
- On an error, `decode` has already consumed part of the buffer. That is 5 bytes for an
  unknown type code, 11 for a layout error, and everything but the end byte for a checksum
  mismatch.
- The start byte and the end byte are never checked.
- Scaled readings are exact rationals.
- Strings keep their raw bytes, padding included.
- The reply's first message number is incremented modulo 256.

`models.rs` imports its readers from `helpers.rs`. `messages.rs` imports readers of the
same names from a `serde_helpers` module, which no file of the repository defines, and
`main.rs` declares neither `messages` nor `serde_helpers`. The model assumes that
`serde_helpers` is `helpers.rs` and uses it for both layout files.

## Model

| member | source | states |
|---|---|---|
| Wire.U16RoundTrip | src/codec.rs:131-132 | writing a u16 little-endian and reading it back gives the value; reading two bytes and writing them back gives the bytes |
| Wire.U32ReadOfWrite | src/codec.rs:135 | reading back the four little-endian bytes of a u32 gives the value |
| Wire.U32WriteOfRead | src/codec.rs:70 | writing back a u32 read from four bytes gives those bytes |
| Wire.ReadU8 | src/messages.rs:33 | a u8 read at offset p succeeds exactly when the slice holds byte p, and is that byte; otherwise end of input |
| Wire.ReadU16 | src/messages.rs:34 | a u16 read at p succeeds exactly when the slice holds bytes p and p+1, and is their little-endian value |
| Wire.ReadI16 | src/messages.rs:90 | an i16 read at p succeeds under the same condition, and is the two's-complement reading of that u16 |
| Wire.ReadU32 | src/messages.rs:35 | a u32 read at p succeeds exactly when the slice holds bytes p to p+3, and is their little-endian value |
| Wire.ReadBytes | src/messages.rs:141 | the six-byte MAC address read at offset p succeeds exactly when the slice holds p+n bytes, and is those bytes |
| Utf8.AsciiIsValid | src/helpers.rs:64 | ASCII text, NUL padding included, passes `from_utf8` |
| Utf8.NoForbiddenBytes | src/helpers.rs:64 | text that passes `from_utf8` never holds 0xC0, 0xC1 or 0xF5..0xFF |
| Helpers.DivideI16By | src/helpers.rs:9-15 | succeeds exactly when the i16 can be read, and the result times N is the i16 read; otherwise UnexpectedEof |
| Helpers.DivideU16By | src/helpers.rs:17-23 | the same for a u16 |
| Helpers.DivideU32By | src/helpers.rs:25-31 | the same for a u32 |
| Helpers.BincodeTuple | src/helpers.rs:63 | the tuple access yields the bytes from p on, at most LENGTH of them. After them `next_element` yields nothing when the slice held all LENGTH bytes, and an end-of-input error otherwise |
| Helpers.ReadArray | src/helpers.rs:49-60 | the array succeeds exactly when the access yields M elements and is then the first M of them; otherwise it is `invalid_length` at the end of the elements, or the access's own error |
| Helpers.VisitSeq | src/helpers.rs:49-60 | the in-place loop returns exactly what ReadArray specifies |
| Helpers.ParseString | src/helpers.rs:63-64 | `parse_string` succeeds exactly when LENGTH elements arrive and are UTF-8, and is then those bytes |
| Helpers.ParseStringExact | src/helpers.rs:33-65 | `parse_string` succeeds exactly when LENGTH elements arrive and are UTF-8, returns them untouched, and otherwise fails with InvalidUtf8 or `invalid_length` |
| Helpers.ParseStringAt | src/helpers.rs:63-64 | a text field at offset p succeeds exactly when the slice holds it and it is UTF-8, and is those bytes; the error is UnexpectedEof or InvalidUtf8 accordingly |
| Helpers.ScaledLocal | src/helpers.rs:9-31 | a scaled reading depends only on its own bytes |
| Helpers.TextLocal | src/helpers.rs:33-65 | a text field depends only on its own bytes |
| Messages.FromU16 | src/messages.rs:4-11 | `from_u16` knows exactly the five discriminants, and maps each to the kind that has it |
| Messages.FromU16Inverse | src/messages.rs:4-11 | `from_u16` maps a code to a kind exactly when that kind's discriminant is the code, and fails exactly off the five discriminants |
| Messages.SerializeServerResponse | src/messages.rs:13-21 | the reply body is 10 bytes: message id, the 1 byte, the LE timestamp, and the two LE u16 fields, at those offsets |
| Messages.DecodeHeartbeat | src/messages.rs:23-27 | a Heartbeat body is its first byte |
| Messages.DecodeData | src/messages.rs:29-122 | a decoded Data body needs 151 bytes. Its inverter temperature, DC voltages and currents, AC currents and voltages, bus voltage and vice-CPU voltage are their raw fields divided by 10, the frequency and daily energy by 100, and the total energy by 10. The current power and the logger temperature are the raw u32 and i16 |
| Messages.DecodeDataHead | src/messages.rs:31-42 | the Data fields up to the inverter serial number decode exactly when 37 bytes are there and the serial number is UTF-8. The leading field is the first byte, the timestamp the LE u32 at 11, the serial number the raw bytes at 21 |
| Messages.DecodeDataReadings | src/messages.rs:43-72 | the readings from the inverter temperature to the total time decode exactly when 77 bytes are there, with the scalings `DecodeData` names |
| Messages.DecodeDataStatus | src/messages.rs:73-94 | the fields from the inverter status to the vice-CPU voltage decode exactly when 107 bytes are there and the two firmware texts are UTF-8. The logger temperature is the raw i16, the two voltages a tenth of their u16 |
| Messages.DecodeDataTail | src/messages.rs:95-121 | the fields from `_unknown3` to `_unknown6` decode exactly when 151 bytes are there and the two firmware texts at 133 and 137 are UTF-8 |
| Messages.DecodeHello | src/messages.rs:124-149 | a decoded Hello body needs 87 bytes, `one` is its first byte, and `sensor_type_list` is the LE u16 at offset 85 |
| Messages.DecodeHelloCd | src/messages.rs:151-163 | a decoded HelloCd body needs 28 bytes and `one` is its first byte |
| Messages.DecodeUnknown44 | src/messages.rs:198-214 | a decoded Unknown44 body needs 31 bytes and its first field is its first byte |
| Messages.FromIncomingMessage | src/messages.rs:241-268 | the reply echoes the request's leading body byte as message id, carries the timestamp and the constants 1, 0x78 and 0, keeps the kind, the second message number and the serial number, and increments the first message number modulo 256 |
| Messages.DecodeBody | src/codec.rs:72-84 | a decoded body is the variant the type code selects, and the message id a reply echoes is the body's first byte |
| Messages.DataDecodeSucceeds | src/messages.rs:29-122 | the Data layout decodes exactly when 151 bytes are there and its five text fields are UTF-8 |
| Messages.HelloDecodeSucceeds | src/messages.rs:124-149 | the Hello layout decodes exactly when 87 bytes are there and its two text fields are UTF-8 |
| Messages.Unknown44DecodeSucceeds | src/messages.rs:198-214 | the Unknown44 layout decodes exactly when 31 bytes are there and its SSID is UTF-8 |
| Messages.BodyDecodeSucceeds | src/codec.rs:72-84 | for every kind, the body decodes exactly when the slice holds the layout and its text fields are UTF-8 |
| Messages.HeartbeatDecodeLocal | src/messages.rs:23-27 | the Heartbeat decoder reads only its first byte |
| Messages.DataHeadLocal | src/messages.rs:31-42 | the first span of the Data layout reads only the first 37 bytes |
| Messages.DataReadingsLocal | src/messages.rs:43-72 | the readings span reads only the first 77 bytes |
| Messages.DataStatusLocal | src/messages.rs:73-94 | the status span reads only the first 107 bytes |
| Messages.DataTailLocal | src/messages.rs:95-121 | the last span reads only the first 151 bytes |
| Messages.DataDecodeLocal | src/messages.rs:29-122 | the Data decoder reads only its first 151 bytes |
| Messages.HelloDecodeLocal | src/messages.rs:124-149 | the Hello decoder reads only its first 87 bytes |
| Messages.HelloCdDecodeLocal | src/messages.rs:151-163 | the HelloCd decoder reads only its first 28 bytes |
| Messages.Unknown44DecodeLocal | src/messages.rs:198-214 | the Unknown44 decoder reads only its first 31 bytes |
| Messages.BodyDecodeLocal | src/codec.rs:72-84 | every body decoder reads only the bytes of its layout |
| Messages.DataMessageId | src/messages.rs:248 | the Data body's leading field is its first byte |
| Messages.DataTimestampAt | src/messages.rs:37 | the Data timestamp is the LE u32 at body offset 11 |
| Messages.DataSerialNumberAt | src/messages.rs:41-42 | the inverter serial number is the 16 raw bytes at body offset 21 |
| Messages.DataHeaderFieldsAt | src/messages.rs:31-42 | both of the above |
| Messages.MessageIdIsFirstBodyByte | src/messages.rs:246-253 | for every kind, the message id a reply echoes is the first byte of the request body |
| Buffer.ByteBuffer.constructor | src/codec.rs:36 | a buffer over a slice holds exactly its bytes |
| Buffer.ByteBuffer.GetU8 | src/codec.rs:59 | `get_u8` returns the first byte and removes it |
| Buffer.ByteBuffer.GetU16Le | src/codec.rs:61-63 | `get_u16_le` returns the LE value of the first two bytes and removes them |
| Buffer.ByteBuffer.GetU32Le | src/codec.rs:70 | `get_u32_le` returns the LE value of the first four bytes and removes them |
| Buffer.ByteBuffer.Advance | src/codec.rs:88 | `advance(n)` removes the first n bytes |
| Buffer.ByteBuffer.PutU8 | src/codec.rs:130 | `put_u8` appends the byte |
| Buffer.ByteBuffer.PutU16Le | src/codec.rs:131-132 | `put_u16_le` appends the value's two LE bytes |
| Buffer.ByteBuffer.PutU32Le | src/codec.rs:135 | `put_u32_le` appends the value's four LE bytes |
| Buffer.ByteBuffer.Extend | src/codec.rs:136 | `extend` appends the whole slice |
| Codec.FoldWrapping | src/codec.rs:147 | folding with `wrapping_add` gives the start value plus the sum, modulo 256 |
| Codec.CalcChecksum | src/codec.rs:146-148 | no checksum exactly for an empty slice, otherwise the sum modulo 256 |
| Codec.ChecksumDetectsOneByte | src/codec.rs:146-148 | replacing any one byte by a different one changes the checksum |
| Codec.Decode | src/codec.rs:22-106 | decoding the buffer in place returns `DecodeFrame` of its old contents and leaves the bytes `DecodeFrame` says |
| Codec.FrameShape | src/codec.rs:130-140 | in a frame, the length, type code, message numbers, serial number, body, checksum and end byte sit at their offsets, and the checksum is the sum of bytes [1, 11+N) |
| Codec.DecodeNeedsMore | src/codec.rs:31-50 | `decode` returns no message and consumes nothing exactly when the buffer holds less than a header or less than the announced frame |
| Codec.SplitDelivery | src/codec.rs:36-50 | a frame delivered in two pieces decodes as if delivered whole: on any proper prefix of it `decode` waits and leaves the buffer as it was, and once the rest is appended the result is that of the whole buffer |
| Codec.DecodeSucceeds | src/codec.rs:52-105 | `decode` returns a message exactly for an accepted frame: known code, a body that fits its layout with UTF-8 texts, and a matching checksum. The message's header fields are the frame's |
| Codec.FrameDecodes | src/codec.rs:52-105 | a complete frame of a known type whose body decodes and whose checksum matches gives the message with that body and the frame's header fields, and leaves the bytes after the frame |
| Codec.UnknownTypeFails | src/codec.rs:63-65 | a complete frame with an unknown code fails with that code and leaves everything after the code |
| Codec.LayoutErrorFails | src/codec.rs:72-84 | a complete frame whose body does not fit its layout fails with the layout's error and leaves the body and what follows |
| Codec.ChecksumMismatchFails | src/codec.rs:88-94 | a frame whose body decodes but whose checksum byte differs fails with that byte, and leaves only the end byte and what follows |
| Codec.DecodeConsumes | src/codec.rs:58-97 | what is consumed: nothing while waiting, the frame on success, 5 bytes on an unknown code, the header on a layout error, all but the end byte on a checksum mismatch, and always a prefix |
| Codec.BodyDecodeExtended | src/codec.rs:72-84 | a body that decodes decodes the same with more bytes after it |
| Codec.FrameRoundTrip | src/codec.rs:22-106 | a frame built from any decodable body and header fields decodes back to them, consumes exactly the frame, and leaves whatever follows |
| Codec.EmptyDataFrameAlone | src/codec.rs:72-84 | on its own, a Data frame with an empty body is a layout error after the header |
| Codec.AsciiDataBody | src/messages.rs:29-122 | 151 or more bytes whose five text fields (bytes 21..37, 93..101 and 133..141) are ASCII form a valid Data layout |
| Codec.EmptyDataFrameBody | src/codec.rs:72-76 | after an empty-body Data frame, 149 ASCII bytes complete a Data layout |
| Codec.EmptyDataFrameHeader | src/codec.rs:47-65 | the header and checksum of an empty-body Data frame do not depend on what follows it |
| Codec.EmptyDataFrameFollowed | src/codec.rs:72-105 | an empty-body Data frame followed by 149 or more ASCII bytes decodes, and only its 13 bytes are consumed |
| Codec.AsciiHelloBody | src/messages.rs:124-149 | 86 body bytes whose two text fields are ASCII, and any 87th byte, form a valid Hello layout |
| Codec.HelloFrameReadsChecksum | src/codec.rs:160-184 | a Hello frame of 86 body bytes, as in the unit test, with ASCII text fields decodes and consumes exactly the frame, and its `sensor_type_list` is read from the last body byte and the checksum byte |
| Codec.SameDecodeResult | src/codec.rs:52-97 | two buffers of one length that agree from the length field to the checksum, and whose bodies decode alike, decode to the same result |
| Codec.BadChecksumFails | src/codec.rs:88-94 | a complete frame whose checksum byte is not the sum of its bytes modulo 256 never decodes |
| Codec.CorruptionDetected | src/codec.rs:52-94 | replacing any one byte from the type code to the checksum of an accepted frame makes `decode` fail |
| Codec.CorruptionBreaksChecksum | src/codec.rs:52-54 | replacing any one byte from the type code to the checksum byte of a complete frame with a matching checksum keeps its announced length and makes the checksum mismatch |
| Codec.StartByteUnchecked | src/codec.rs:58-59 | the start byte does not influence the result |
| Codec.EndByteUnchecked | src/codec.rs:96-97 | the end byte does not influence the result when the layout ends before it |
| Codec.ResponseCode | src/codec.rs:119-125 | each reply code is its request kind's code minus 0x3000 |
| Codec.ResponseCodeOfRequest | src/codec.rs:119-125 | a reply code is its request's code minus 0x3000, is no request code, and different kinds get different reply codes |
| Codec.ReplyBody | src/codec.rs:126-128 | the reply body is 10 bytes |
| Codec.ReplyFrame | src/codec.rs:130-140 | the reply frame is 23 bytes |
| Codec.AppendedReply | src/codec.rs:130-140 | `encode` appends 23 bytes |
| Codec.Encode | src/codec.rs:112-143 | `encode` leaves the old bytes followed by the header, the body, a checksum over all bytes after the buffer's first, and the end byte |
| Codec.EncodeCorrected | src/codec.rs:130-140 | encoding into a buffer of its own and appending adds exactly the reply frame |
| Codec.AppendedReplyCorrectIff | src/codec.rs:138 | `encode` appends a correct frame if and only if the buffer was empty, or its bytes after the first plus 0xA5 sum to 0 modulo 256 |
| Codec.EncodeIntoEmpty | src/codec.rs:130-140 | into an empty buffer, `encode` writes exactly the reply frame |
| Codec.SecondReplyChecksumWrong | src/codec.rs:138 | with a first reply still in the buffer whose tail sum plus 0xA5 is not 0 modulo 256, the second reply's bytes are not a correct frame |
| Codec.RequestHeader | src/codec.rs:63-105 | a decoded request's kind, numbers and serial number are the frame's header bytes, and its message id is the first body byte |
| Codec.ReplyHeader | src/codec.rs:130-136 | in a reply frame, the reply code, message numbers, serial number, message id, the 1 byte, the timestamp and the two u16 constants sit at offsets 3, 5, 6, 7, 11, 12, 13, 17 and 19 |
| Codec.ReplyToHeader | src/messages.rs:241-268 | for a request with given header fields, the reply frame answers it: code minus 0x3000, first number plus one with 255 going to 0, second number, serial number and message id copied, then 1, the timestamp, 0x78 and 0 |
| Codec.ReplyAnswersRequest | src/messages.rs:241-268 | for each accepted request frame, the reply frame answers that frame's own bytes: its code minus 0x3000, its first number plus one with 255 going to 0, its second number, serial number and first body byte, then 1, the timestamp, 0x78 and 0 |
| Codec.ReplyIsNotARequest | src/codec.rs:119-125 | a reply frame fed back to `decode` fails as an unknown type code |
| Codec.TestNumbersBytes | src/codec.rs:244-247 | the LE bytes of the test's timestamp and serial number |
| Codec.HeartbeatRequestFrame | src/codec.rs:241-243 | the heartbeat request bytes of the unit test are the frame of code 0x4710, numbers 31 and 32, the serial number, and body [0], with checksum 247 |
| Codec.HeartbeatRequestDecodes | src/codec.rs:249-255 | that request decodes to a Heartbeat message with those fields and consumes all 14 bytes |
| Codec.HeartbeatReplyBody | src/codec.rs:244-247 | the bincode bytes of the expected response |
| Codec.HeartbeatReplySum | src/codec.rs:244-247 | the checksummed bytes of the expected reply sum to 0x4C9 |
| Codec.HeartbeatReplyFrame | src/codec.rs:244-247 | the expected reply bytes are the frame of code 0x1710 with checksum 201 |
| Codec.HeartbeatReplyTailSum | src/codec.rs:244-247 | the expected reply's bytes after the first sum to 0x5A7 |
| Codec.HeartbeatResponseBody | src/codec.rs:257-258 | the reply item's body is the expected body |
| Codec.HeartbeatResponseFrame | src/codec.rs:257-261 | the reply item's frame is the expected reply |
| Codec.HeartbeatResponseTailSum | src/codec.rs:257-261 | the reply item's frame sums to 0x5A7 after its first byte |
| Codec.HeartbeatReplyBuilt | src/codec.rs:257-258 | `from_incoming_message` with the test's timestamp gives the expected reply item |
| Codec.HeartbeatReplyEncodes | src/codec.rs:257-261 | encoding that item into an empty buffer gives the expected 23 bytes |
| Models.FromU16 | src/models.rs:3-7 | the older table knows exactly 0x4710 and 0x4210, and maps each to the kind with that discriminant |
| Models.FromU16Inverse | src/models.rs:3-7 | `from_u16` inverts the two-entry table |
| Models.TableIsRestriction | src/models.rs:3-7 | every code the older table knows names the same kind in the current table; it rejects exactly the codes the current table rejects or gives to Hello, HelloCd and Unknown44 |
| Models.CodeAgrees | src/models.rs:3-7 | each older kind keeps its discriminant in the current table |
| Models.DecodeServerResponse | src/models.rs:9-17 | reading the older reply layout succeeds exactly with 10 bytes, and otherwise fails with end of input |
| Models.ServerResponseRoundTrip | src/models.rs:9-17 | reading the older layout from the bytes the current layout writes gives back every field, whatever follows |
| Models.ServerResponseReserialized | src/models.rs:9-17 | writing back what the older layout read gives the 10 bytes it was read from |
| Models.DecodeHeartbeat | src/models.rs:19-23 | the older Heartbeat body is its first byte |
| Models.HeartbeatAgrees | src/models.rs:19-23 | the older and current Heartbeat layouts succeed, read and fail alike |

## Left out

- Floating point: `divide_*` return `f32`/`f64`. The model keeps the exact rational quotient and does not model IEEE rounding.
- Messages.FromIncomingMessage: takes the release-build wrap of `message_number + 1`. A debug build panics at 255 instead.
- HelloEnd: no type code decodes to it. Only its leading `one` byte is modelled, which is enough for the message id of a reply.
- `MacAddr6`: kept as its six raw bytes, with none of its methods.
- tokio's `Framed` wrapper, `reserve`/`capacity` management and the `debug!` tracing calls: they do not change bytes or results.
- The `Result` that `encode` returns: bincode's serialization of a `ServerResponse` cannot fail, and `u16::try_from(10)` cannot either. `Encode` therefore has no error path.
- `decode` on a buffer too short for a field read, the source's panicking `get_*` paths: `DecodeFrame` checks the frame length first, so with the code as written these cannot be reached.
- Messages.DecodeData: its contract names the length, the scaled readings, the current power and the logger temperature. The offsets of the other plain integer fields are not restated one by one. They are fixed by the bodies of the four span decoders and bounded by `DataDecodeLocal`.
- Models.DataBody: the older Data layout has the current one's field widths, order, text lengths and scalings. It is identified with the current layout by a type synonym, not by a lemma. A field-by-field agreement lemma would only restate the shared decoder.
- Models.SofarMessage: the older message enum is declared but has no decoder, as in the source.
- The hello, hello-end and data test vectors of codec.rs: only the heartbeat exchange is worked out byte by byte. The hello vector announces 86 body bytes, one fewer than the 87-byte Hello layout, so it decodes only because the layout goes on to read the checksum byte. `HelloFrameReadsChecksum` proves this for every such frame whose two text fields are ASCII, as that vector's module version and IP address are.
- `serde_helpers`: assumed to be `helpers.rs`, because the repository holds no other copy of `divide_*` and `parse_string`. If it differs, the current layouts' scalings and text checks may differ too.
- main.rs, mqtt.rs, the publisher and the Home Assistant discovery: they are not part of this model.

## Findings

| source | as written | input that shows it | evidently intended | confidence | as-written member | corrected member |
|---|---|---|---|---|---|---|
| src/codec.rs:138 | `encode` computes the checksum over `buf[1..]`, i.e. over every byte in the destination buffer after its first, including replies already waiting there to be written | encoding the heartbeat reply of the unit test twice into one buffer: the first reply's bytes after its start byte sum to 0x5A7, so the second reply's checksum is off by (0x5A7 + 0xA5) mod 256 = 76 | the checksum covers only the new frame's bytes from its length field to the end of its body | medium, not executed | Codec.AppendedReply, Codec.Encode, Codec.SecondReplyChecksumWrong, Codec.HeartbeatResponseTailSum | Codec.ReplyFrame, Codec.EncodeCorrected, Codec.AppendedReplyCorrectIff |
