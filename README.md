# Field-stripping text decoder

This project models the text decoder of the report server, which is `getText` and `getInt` in
`helpers.js`. A report field arrives as a byte string. Plain bytes are text. A byte 0x02 (START)
opens an embedded field laid out as follows:

- a kind byte;
- a length written in a variable-length integer encoding;
- the body;
- a byte 0x03 (END).

`getText` copies the text bytes and skips every field. `getInt` reads the length:

- A marker byte below 0xD0 means `marker - 1`.
- Otherwise the low four bits of `marker + 1` form a presence mask. Each set bit `i` pulls one more
  byte into slot `3 - i` of a zeroed 4-byte buffer. The buffer is then read as a little-endian
  unsigned 32-bit integer.

The model has three modules:

- `Framing` (`framing.dfy`): bytes, the START and END markers, and the `Result` and `Error` types.
- `VarIntReader` (`varint.dfy`):
  - `ReadVarInt` is the reader as a function.
  - `GetInt` and `GatherPresent` are the same reader as a method: a loop over the mask bits that
    fills a 4-byte array.
  - `EncodeVarInt` is an encoder, with a round-trip proof against the reader.
- `FieldStreamDecoder` (`field_stream.dfy`):
  - `SkipField` and `Strip` are the specification functions.
  - `GetText` is the scanning loop with its cursor and output sequence.
  - A grammar of pieces (text byte or whole field) describes exactly the buffers that decode.

Decisions that follow the code:

- **Error kinds.** Reading past the end inside `getInt` is `Truncated`; it stands for Node's
  `RangeError` from `readUInt8`. Every other failure is `MissingEnd`, the code's "missing END
  marker".
- **Landing past the end.** If the landing position lies past the end of the buffer, the code
  compares `undefined` with END and throws the missing-END error. The model therefore gives
  `MissingEnd` for a length that runs past the buffer, as the code does, rather than a truncation
  error.
- **One length byte skipped.** After the length, the cursor always moves past exactly one length
  byte, whatever the size of the length's encoding. The model keeps that arithmetic:
  - `SkipAgreesWithReader` states when it matches the reader's own end position.
  - `WideLengthRejected` shows a well-formed field with a two-byte length that the decoder
    rejects.
- **Length markers.** A marker `L + 1` denotes a body of `L` bytes. For example, `41 02 00 01 58
  03 42` is rejected: marker 1 means length 0, so the cursor lands on 0x58. With marker 2 the
  same layout decodes to `41 42` (`KeptAroundField`, `RejectedFields`).

## Model

| member | source | states |
|---|---|---|
| VarIntReader.ReadVarInt | helpers.js:32-51 | On success the reader ends strictly after `pos` and within the buffer. The value lies in [-1, 2^32), and it is negative only for the marker byte 0. |
| VarIntReader.MaskOf | helpers.js:41 | The presence mask `(marker + 1) & 0xF` is below 16, four bits. |
| VarIntReader.ReadPresent | helpers.js:41-50 | For a non-inline marker, the read fails with `Truncated` exactly when the mask's payload bytes run past the end. On success it ends after one byte per set bit, and the value is an unsigned 32-bit integer. |
| VarIntReader.LE32 | helpers.js:50 | `readUInt32LE` of the 4-byte accumulator is below 2^32. |
| VarIntReader.LE32Ends | helpers.js:50 | In the little-endian read, the first byte is the value's low byte and the last byte its high byte. |
| VarIntReader.ReadVarIntConsumes | helpers.js:36-50 | The read fails exactly when the marker or one of its payload bytes lies past the end. On success it consumes `Width(marker)` bytes: 1 for an inline marker, else 1 + the mask's popcount. |
| VarIntReader.ReadShortForms | helpers.js:36-39 | At the end of the buffer the read is `Truncated`. A marker below 0xD0 yields `marker - 1` and consumes one byte. |
| VarIntReader.ReadPresentIsWeightedSum | helpers.js:41-50 | For a non-inline marker, the value is the sum over set mask bits `i` of the i-th payload byte times 256^(3-i). Absent bytes contribute nothing. |
| VarIntReader.ReadOneByte | helpers.js:41-50 | Marker 0xD7 reads one payload byte as the value itself. |
| VarIntReader.ReadTwoBytes | helpers.js:41-50 | Marker 0xDB reads two payload bytes. The first is the more significant. |
| VarIntReader.MaskHasBit | helpers.js:45 | The bitwise test `mask & (1 << i)` agrees with the arithmetic bit `Bit(mask, i)`. |
| VarIntReader.RankMonotone | helpers.js:44-47 | Payload positions grow with the bit index: a set bit takes the next position after all lower set bits. |
| VarIntReader.GetInt | helpers.js:32-51 | The method that reads the marker and dispatches returns exactly `ReadVarInt(buf, pos)`. |
| VarIntReader.GatherPresent | helpers.js:41-50 | The loop that fills slot `3 - i` for each set bit and then reads the 4-byte array as little-endian returns exactly the specification's value and end position. It fails with `Truncated` instead of reading past the end. |
| VarIntReader.BytesOfValue | helpers.js:50 | Reading a 32-bit value's four bytes as little-endian gives the value back. |
| VarIntReader.VarIntRoundTrip | helpers.js:32-51 | For every n < 2^32, the reader decodes `EncodeVarInt(n)` inside any surrounding bytes to n. It ends just past the encoding. |
| FieldStreamDecoder.SkipField | helpers.js:15-23 | A skipped field resumes at `at + 4 + length`. The byte before the resume point is END. The length read succeeded. |
| FieldStreamDecoder.Strip | helpers.js:13-27 | A successful decode is no longer than the input, and it contains no START byte. |
| FieldStreamDecoder.DecodeText | helpers.js:4-28 | What `getText` collects before UTF-8 conversion: on success it is no longer than the input and contains no START byte. |
| FieldStreamDecoder.GetText | helpers.js:4-30 | The scanning loop, cursor and output array return exactly `DecodeText(inputData)`, including the first error. |
| FieldStreamDecoder.NoStartIsIdentity | helpers.js:13-27 | A buffer with no START byte decodes to itself. |
| FieldStreamDecoder.DecodeIdempotent | helpers.js:13-27 | Decoding a decoded text gives the same result again. |
| FieldStreamDecoder.ParsesCovers | helpers.js:13-27 | A parse into pieces covers the buffer byte for byte. |
| FieldStreamDecoder.DecodeSound | helpers.js:15-26 | Every successful decode comes from a parse into text bytes and fields, START through END. The output is the text bytes in order. |
| FieldStreamDecoder.DecodeComplete | helpers.js:15-26 | Every parse into pieces decodes successfully, to its text bytes. |
| FieldStreamDecoder.DecodeIffParses | helpers.js:13-27 | `getText` yields `out` if and only if the buffer parses into pieces whose text bytes are `out`. |
| FieldStreamDecoder.InlineFieldsRemoved | helpers.js:15-23 | Text interleaved with fields whose marker L+1 < 0xD0 precedes L body bytes decodes to the text alone. |
| FieldStreamDecoder.StripThroughPrefix | helpers.js:13-27 | Decoding across any stretch of text bytes and good fields yields that stretch's text, followed by what decoding from its end yields. |
| FieldStreamDecoder.FirstErrorAborts | helpers.js:19-21 | A field that fails to skip, reached after any number of text bytes and good fields, makes the whole decode fail with that field's error. No partial text is returned. |
| FieldStreamDecoder.MissingEndFails | helpers.js:18-21 | For any field the scan reaches, if the landing byte is not END or lies past the end, the decode fails with `MissingEnd`. |
| FieldStreamDecoder.LaterFieldRejected | helpers.js:19-21 | `02 00 02 58 03 02 00 02 58 04`, a good field followed by one whose END byte is 0x04, fails with `MissingEnd`. |
| FieldStreamDecoder.ZeroLengthMarkerFails | helpers.js:17-20 | A length marker 0 reads as -1. The cursor lands back on that marker, and the field is rejected with `MissingEnd`. |
| FieldStreamDecoder.SkipAgreesWithReader | helpers.js:17-18 | Skipping one length byte plus the length agrees with resuming at the reader's end plus the length exactly when the marker is inline or its mask is empty. |
| FieldStreamDecoder.WideLengthRejected | helpers.js:16-20 | `02 00 D7 01 58 03` has a length of 1 followed by END, yet it fails with `MissingEnd`. |
| FieldStreamDecoder.KeptAroundField | helpers.js:13-27 | `41 02 00 02 58 03 42` decodes to `41 42`. |
| FieldStreamDecoder.RejectedFields | helpers.js:15-21 | Three fields fail with `MissingEnd`: a wrong END byte, a length one short, and a length past the buffer. A START as the last byte, or followed only by its kind byte, fails with `Truncated`. |

## Left out

- The UTF-8 conversion of the collected bytes (helpers.js:29) is not modelled. `GetText` returns the bytes. Node's decoder, including its replacement of invalid sequences, is a library call.
- `getInt`'s calling convention is not reproduced. The source's `getInt` takes one cursor object with a mutable `position`, while `getText` calls it with the buffer and an index. The reader is modelled over an explicit buffer and position and returns the new position. Node's behaviour with the mismatched arguments is not modelled.
- Node's `RangeError` from `readUInt8` becomes the single error `Truncated`. The thrown `Error` becomes `MissingEnd`. Messages and exception types are not modelled.
- The presence mask `(marker + 1) & 0xF` is written as a remainder modulo 16, which is equal on these non-negative values. The bitwise form appears only in `MaskHasBit`.
- JavaScript numbers are modelled as unbounded integers. The cursor arithmetic stays far below 2^53 for any buffer, and every length is below 2^32.
- `EncodeVarInt` has no counterpart in the source. It exists only to state the reader's round trip.
- `doReplacements` is not modelled (helpers.js:53-61). It depends on a replacement table in `constants`, which is not part of this model.
- `decodeField` is not modelled (helpers.js:64-70). It wraps Node's base64 decoder.
- `index.js` is not modelled: the HTTP server, the database and the request handling are I/O.
- The unused `Readable` import is not modelled.
