# RCON packet codec in Dafny

This project models the packet codec of a client for the Source-engine RCON
(remote console) protocol, `src/packet.js`. A packet travels as a
little-endian frame

    [size:int32][id:int32][type:int32][body bytes][0x00][0x00]

in which `size` counts every byte after itself. That is 10 + the body length,
and the frame is 14 + the body length long. The file has three frame
operations and three validators:

- `build(id, type, body)` validates its arguments and writes the frame into a
  zero-initialised buffer, then decodes that buffer.
- `fromByteArray(buffer)` checks the size field against the buffer's length,
  then reads back id, type and the body slice.
- `setId(buffer, id)` overwrites the id field of an existing frame in place.
- `isValidPacketId`, `isValidPacketType` and `isValidPacketBody` are the
  validators.

Two modules make up the model:

- `Bytes` (bytes.dfy) holds the byte type and little-endian int32 reads and
  writes. These are the DataView `getInt32`/`setInt32` calls, with their
  ToInt32 wrap-around written out. It also holds `Uint8Array.set`. Buffers
  are `array<byte>`, and each write is specified by the pure function
  `Overwrite` on the buffer's contents.
- `PacketCodec` (packet_codec.dfy) holds the length constants
  (`EmptyPacketSize` = 10, `EmptyPacketByteLength` = 14) and the closed set
  of type codes. It has the validators as predicates, and `Layout`, the
  byte sequence `build` writes. `Decode` is the pure reading of
  `fromByteArray`. The methods `WriteFrame`, `Build`, `FromByteArray` and
  `SetId` work on arrays and are proved against those functions.

Failures are values, not thrown strings. `Result`/`Outcome` carry
`IllegalArgument` (thrown by `build` and `setId`) and `InvalidPacket` (the
`'Invalid packet'` thrown by `fromByteArray`).

In three places the model follows the code where a reader might expect
otherwise:

- The error names are the code's own: `IllegalArgument` and
  `'Invalid packet'`.
- `build` does not always succeed on valid arguments. It returns the result of
  `fromByteArray` on the buffer it filled. If 10 + the body length exceeds
  2^31 - 1, `setInt32` stores that length after ToInt32, an int32 that
  differs from the buffer length - 4. The size check then fails and `build`
  fails with `InvalidPacket`. `Build` and `DecodeLayout` state this case.
  A JavaScript string body cannot be that long, so the branch is reachable
  only in the model, whose bodies are unbounded byte sequences.
- The type codes are those of the Source RCON protocol: RESPONSE_VALUE = 0,
  EXECCOMMAND = 2, AUTH_RESPONSE = 2, AUTH = 3. The set is therefore
  {0, 2, 3}. The module `./packet_types` that defines them is not part of
  this model.

## Model

| member | source | states |
|---|---|---|
| `Bytes.WrapInt32` | src/packet.js:31-33 | the ToInt32 conversion `setInt32` applies: the result is an int32 congruent to the value modulo 2^32, and it equals the value when the value is already an int32 |
| `Bytes.EncodeInt32` | src/packet.js:31-33 | an int32 field is written as exactly four bytes |
| `Bytes.DecodeInt32` | src/packet.js:43-49 | `getInt32` always yields a value in the int32 range |
| `Bytes.Int32At` | src/packet.js:43-49 | the int32 read at an offset is in the int32 range |
| `Bytes.DecodeEncode` | src/packet.js:31-33 | reading back a written int32 field gives the written value after ToInt32 |
| `Bytes.DecodeEncodeInt32` | src/packet.js:32-33 | every int32 value survives a write and a read unchanged |
| `Bytes.EncodeDecode` | src/packet.js:43-49 | four bytes read as an int32 and written back are the same four bytes, so the field encoding is a bijection |
| `Bytes.Overwrite` | src/packet.js:35 | writing `part` at `offset` keeps the length; bytes inside the range become `part`'s and every other byte is unchanged |
| `Bytes.SetInt32` | src/packet.js:31-33 | `setInt32` makes the buffer's new contents the old contents with the four encoded bytes written at the offset |
| `Bytes.SetBytes` | src/packet.js:35 | `Uint8Array.set` makes the new contents the old contents with the source bytes written from the offset, proved by loop invariants |
| `PacketCodec.EmptyPacketLengths` | src/packet.js:7-15 | `emptyPacketSize` is 10 and `emptyPacketByteLength` is 14; the frame of an empty body is exactly `emptyPacketByteLength` bytes long and its size field holds `emptyPacketSize` |
| `PacketCodec.IsValidPacketType` | src/packet.js:66-68 | the type is accepted only when it is in the closed set of codes, and every accepted code is a non-negative value the int32 type field carries unchanged |
| `PacketCodec.IsValidPacketId` | src/packet.js:70-72 | the id is accepted only when it is an integer in 1..2^31-1, so an accepted id is positive and the int32 id field carries it unchanged |
| `PacketCodec.IsValidPacketBody` | src/packet.js:74-76 | the body, as bytes, is accepted exactly when a search for a null byte from its start finds none (both directions); this is the stateless check, see Findings |
| `PacketCodec.ValidIdIsPositiveInt32` | src/packet.js:70-72 | a valid id is exactly a positive value that the int32 id field carries unchanged (both directions) |
| `PacketCodec.IdRangeBoundaries` | src/packet.js:3 | 1 and 2^31-1 are valid ids; 0, -1 and 2^31 are not |
| `PacketCodec.FirstNullFrom` | src/packet.js:75 | the search for a null byte from a start index returns the first such index at or after it, or none when every byte from there on is non-null |
| `PacketCodec.Layout` | src/packet.js:26-35 | the frame is 14 + len(body) bytes; bytes 0..3 hold the size, which is the length - 4 (= 10 + len(body)); bytes 4..7 hold the id, 8..11 the type and 12.. the body; the last two bytes are 0x00 |
| `PacketCodec.WritesMakeLayout` | src/packet.js:29-35 | the size, id and type writes and then the body copy, applied to a zeroed buffer of 14 + len(body) bytes, produce exactly `Layout` |
| `PacketCodec.WriteFrame` | src/packet.js:26-35 | the freshly allocated, zero-initialised buffer holds exactly `Layout(id, type, body)` after the writes |
| `PacketCodec.Build` | src/packet.js:17-37 | fails with IllegalArgument exactly when the id is invalid, the type is outside the closed set or the body holds a null byte. On valid arguments it fails with InvalidPacket exactly when the size field overflows int32. On valid arguments whose size fits it succeeds, with a fresh buffer equal to `Layout` that reports the given id, type and body |
| `PacketCodec.Decode` | src/packet.js:40-53 | defined on every buffer whose size field can be read and that, when the size check passes, holds at least 14 bytes. Fails with InvalidPacket exactly when the size field differs from the buffer length - 4, whatever the buffer's length. On success the buffer has at least 14 bytes, the id and type are the int32s at offsets 4 and 8, and the body is bytes 12 up to length - 2, excluding both terminators. Id, type and terminators are not checked |
| `PacketCodec.FromByteArray` | src/packet.js:40-53 | reading the buffer fails exactly when its size field differs from its length - 4, and otherwise returns what `Decode` gives for its bytes |
| `PacketCodec.DecodeLayout` | src/packet.js:28-50 | decoding a laid-out frame returns its id, type (after ToInt32) and body when 10 + len(body) fits in an int32, and InvalidPacket otherwise |
| `PacketCodec.RoundTrip` | src/packet.js:37-50 | for valid id, type and body, decoding the built frame yields exactly the same id, type and body |
| `PacketCodec.TerminatorDelimitsBody` | src/packet.js:74-76 | a body passes the check exactly when, in its frame, the first null byte from offset 12 on is the terminator at 12 + len(body) (both directions) |
| `PacketCodec.SetId` | src/packet.js:55-64 | an invalid id fails with IllegalArgument and leaves the buffer unchanged. A valid id passes, and the new contents are the old ones with only bytes 4..7 replaced by the encoded id |
| `PacketCodec.RelabelledDecode` | src/packet.js:55-64 | after the id field of a buffer of at least 8 bytes is overwritten with a valid id, the buffer stays decodable and decodes as before except that it reports the new id. The size check passes or fails as before, and type and body are unchanged |
| `PacketCodec.RelabelBuiltFrame` | src/packet.js:55-64 | overwriting the id field of any laid-out frame with an encoded id gives exactly the frame laid out with that id |
| `PacketCodec.IsValidPacketBodyAsWritten` | src/packet.js:74-76 | the global-flag regular expression check rejects exactly when `lastIndex` is within the body and a null byte lies at or after it (both directions). On rejection `lastIndex` is left just past the first such null byte, every byte between the old `lastIndex` and it is non-null, and the body does fail the intended check. It accepts only with `lastIndex` reset to 0, and agrees with the intended check whenever `lastIndex` starts at 0 |
| `PacketCodec.AsWrittenBodyCheckAcceptsNull` | src/packet.js:5 | the body [0x00] is rejected by a first check and accepted by the next, although it holds a null byte |

## Findings

| source | as written | input that shows it | evidently intended | confidence | as-written member | corrected member |
|---|---|---|---|---|---|---|
| src/packet.js:5 | `nullRegExp` is declared with the global flag, so `isValidPacketBody`'s `test` resumes at the `lastIndex` left by the previous call | `build(1, 2, "\0")` is rejected and sets `lastIndex` to 1; a second `build(1, 2, "\0")` searches from index 1, finds nothing and is accepted, so a frame with a null inside its body is built | a stateless check that the body holds no null byte | not executed; high | `PacketCodec.IsValidPacketBodyAsWritten`, `PacketCodec.AsWrittenBodyCheckAcceptsNull` | `PacketCodec.IsValidPacketBody`, `PacketCodec.TerminatorDelimitsBody` |

The rest of the model uses the corrected, stateless `IsValidPacketBody`.
`IsValidPacketBodyAsWritten` models the check as written, with `lastIndex`
threaded explicitly as a parameter and a result.

## Left out

- Ids and types are Dafny integers. Values that are not integers (fractions, NaN, strings or other JavaScript values) cannot be expressed, so `Number.isInteger` and the `SameValueZero` test of `Set.has` reduce to integer comparisons.
- The body is modelled as raw bytes. The conversion `Buffer.from(body, 'ascii')` (src/packet.js:26) is not modelled; it keeps only the low 8 bits of each UTF-16 code unit. The null check is therefore stated on the bytes, not on the string. In the code it runs on the string (src/packet.js:75), so a body such as `"\u0100"` passes it yet becomes the byte 0x00, and a null byte can reach the frame's body even with a stateless check.
- `Decode` and `FromByteArray` require `Readable`: at least 4 bytes, and at least 14 when the size field matches the length - 4. Shorter buffers whose size field does not match do get `InvalidPacket`. The excluded buffers do not end by the code's own checks: under 4 bytes `getInt32(0)` throws a RangeError; with a matching size, 4 to 11 bytes make `getInt32(4)` or `getInt32(8)` throw one; 12 or 13 bytes pass `Buffer.from` a negative length, whose handling belongs to Node's Buffer and is not modelled.
- `SetId` requires at least 8 bytes, the extent of the id field that `setInt32` writes; shorter buffers raise a RangeError there.
- The `id`, `type` and `body` properties that `fromByteArray` and `setId` attach to the ArrayBuffer are not modelled as mutable state. Decoding returns a `Packet` record alongside the bytes, and `Build` returns both as a `Frame`. The effect of `setId` on the reported id is stated by `RelabelledDecode`.
- The decoded body is a copy of the bytes. In the code it is a Buffer view that shares memory with the frame, so later writes through the frame would show through it.
- `./packet_types` is not part of this model. The type codes are the protocol's published values.
- `src/index.js` (the handle registry) and the `./rcon` session engine are not part of this model. This leaves out sockets, authentication, sentinel-packet reassembly and promises.
