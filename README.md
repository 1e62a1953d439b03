# quantized-mesh decoder, modelled in Dafny

This project models `decode`, the function in `index.js` of the
quantized-mesh decoder. It turns a Cesium quantized-mesh-1.0 terrain tile
into a header, a vertex array, five index lists and an extensions object.
The stages run in turn over one `DataView`, and each stage starts where the
previous one ended:

- `decodeHeader` reads twelve little-endian floats (ten doubles, two
  singles) and ends at byte 88.
- `decodeVertexData` reads a 32-bit vertex count `n`, then three channels
  (u, v, height) of `n` ZigZag-coded 16-bit deltas. It stores their running
  sums, modulo 2^16, into one `Uint16Array` laid out `[u…][v…][height…]`.
- `decodeIndices` chooses 16- or 32-bit indices and pads the position to
  that width. It then decodes the triangle list and the west, south, east
  and north edge lists. Each list is a 32-bit count followed by
  high-water-mark codes, which `decodeIndex` rewrites in place through a
  typed-array view over the tile buffer itself.
- `decodeExtensions` walks the records after the index block. Each record
  is a 1-byte tag, a 32-bit length and a payload. Tag 1 holds the
  oct-encoded vertex normals, tag 2 the water mask, and any other tag is
  reported and skipped.

The model has one module per stage:

- `Bytes`: DataView reads and typed-array stores.
- `ZigZag`: ZigZag decoding.
- `Header`: the header walk.
- `VertexData`: the vertex block.
- `IndexData`: the index lists and the index block.
- `Extensions`: the extension records.
- `QuantizedMesh`: `decode` itself.

Each imperative stage is a method over an `array<u8>`, proved equal to a
function over `seq<u8>`. The properties are proved about those functions.

Every `RangeError` raised by a read, a typed-array view or an extension
view is modelled as an error result:

- a read past the buffer end;
- a typed-array view that is misaligned or runs past the end;
- an extension view that runs past the end.

`decodeIndex` overwrites the caller's buffer, so `DecodeIndex`,
`DecodeIndices` and `Decode` carry `modifies buf`. Their specification
functions also return the buffer afterwards. This includes the buffer left
by a failure that comes after some lists were already rewritten.

Three behaviours of index.js that the model keeps as written:

- `decode` passes `vertexData.length`, which is three times the vertex
  count, as the vertex count of `decodeIndices` (index.js:255). So 32-bit
  indices are chosen from 21846 vertices on (`3n > 65536`), not only above
  65536 vertices.
  `QuantizedMesh.IndexWidthOfVertexCount` states this.
- `decodeIndex` rewrites the caller's buffer: its typed-array view is
  built over `dataView.buffer`, and the loop stores into it
  (index.js:101-112). `QuantizedMesh.DecodeFrame` bounds what can change.
- `decodeWaterMaskExtension` returns a copy of the payload
  (`buffer.slice`, index.js:198-201).

## Model

| member | source | states |
|---|---|---|
| Bytes.Wrap16 | index.js:88-90 | definition: a value assigned to a `Uint16Array` element is kept modulo 2^16 |
| Bytes.Word | index.js:110 | definition: the unsigned value of the w bytes at an offset, lowest byte first, as a typed-array element reads it; bounded by `WordBound`, linked to the DataView reads by `Uint16Word` and `Uint32Word` |
| Bytes.Put | index.js:112 | definition: assigning x to a w-byte typed-array element writes the little-endian bytes of x modulo 256^w there, lowest byte first; keeps the buffer length; `PutEncoding`, `PutFrame` and `PutWord` state what it writes |
| Bytes.GetUint8 | index.js:214 | succeeds exactly when the offset is inside the buffer, and yields the byte there |
| Bytes.GetUint16 | index.js:84-86 | succeeds exactly when both bytes are inside the buffer, and yields their little-endian value |
| Bytes.GetUint32 | index.js:68 | succeeds exactly when all four bytes are inside the buffer, and yields their little-endian value below 2^32 |
| Bytes.GetFloatBits | index.js:56-58 | a float read succeeds exactly when its width fits, and yields the bytes at its offset |
| Bytes.WordBound | index.js:110 | a typed-array element read as a w-byte word is below 256^w |
| Bytes.WordEncoding | index.js:102-104 | a w-byte element is the number whose little-endian encoding is its bytes |
| Bytes.Uint16Word | index.js:84-86 | `getUint16` reads the same value as a 2-byte element |
| Bytes.Uint32Word | index.js:217 | `getUint32` reads the same value as a 4-byte element |
| Bytes.WordOfLittleEndian | index.js:217 | bytes holding the little-endian encoding of x read back as x |
| Bytes.PutEncoding | index.js:112 | storing x into an element writes the little-endian encoding of x modulo 256^w there and nothing else |
| Bytes.PutFrame | index.js:112 | storing into an element leaves every other byte unchanged |
| Bytes.PutWord | index.js:112 | a stored value that fits in the element reads back unchanged |
| ZigZag.XorSignMask | index.js:20 | definition: `x ^ mask` for a mask of all zeros (x) or all ones (`-x-1`), the only masks `-(value & 1)` produces |
| ZigZag.DecodeZigZag | index.js:19-21 | an even code c decodes to c/2 and an odd one to -(c+1)/2, always within [-32768, 32767] |
| ZigZag.DecodeEncode | index.js:19-21 | decoding undoes the ZigZag encoding of every 16-bit signed value |
| ZigZag.EncodeDecode | index.js:19-21 | encoding undoes the decoding of every 16-bit code |
| ZigZag.DecodeZigZagBijective | index.js:19-21 | decoding is injective on [0, 65535] and onto [-32768, 32767] |
| Header.LayoutOffsets | index.js:1-17 | twelve fields; only minHeight and maxHeight are 4 bytes wide, the rest 8; each offset is the sum of the widths before it, and the header ends at 88 |
| Header.FieldFits | index.js:1-17 | every field lies inside the first 88 bytes |
| Header.FieldAt | index.js:55-59 | field k has the table's name and offset, and its raw value is the bytes at that offset |
| Header.HeaderSpec | index.js:51-63 | definition: a buffer shorter than 88 bytes is a RangeError; otherwise the twelve fields in layout order and end position 88; `HeaderFields` states its properties |
| Header.DecodeHeader | index.js:51-63 | the walk yields the header specification: the twelve fields and end position 88, or a RangeError |
| Header.HeaderTooShort | index.js:58 | a field past the buffer end makes the header fail |
| Header.HeaderFields | index.js:51-63 | the header succeeds exactly when the buffer holds 88 bytes; it then has twelve fields, ends at 88, and field k carries its name, its offset and the bytes there |
| VertexData.Codes | index.js:84-86 | definition: the n 16-bit codes of one channel, read two bytes apart from its start; `CodesAt` gives code i |
| VertexData.DeltaSum | index.js:84-86 | definition: the running sum `u += decodeZigZag(...)` after a prefix of codes, as an unbounded integer |
| VertexData.DeltaDecode | index.js:83-91 | definition: entry i of a channel is its running sum after code i, stored modulo 2^16; `DeltaDecodeAt` and `DeltaRoundTrip` state its properties |
| VertexData.VertexSpec | index.js:65-96 | definition: a RangeError when the count or a channel runs past the end; otherwise the three decoded channels one after the other and end position start+4+6n; `VertexLayout` states its layout |
| VertexData.CodesAt | index.js:84-86 | code i of a channel is the `getUint16` value at start+2i |
| VertexData.FirstCode | index.js:84 | the first running sum of a channel is the decoded first code |
| VertexData.DeltaDecodeAt | index.js:83-91 | entry i of a decoded channel is the sum of the first i+1 decoded deltas, modulo 2^16 |
| VertexData.VertexLayout | index.js:65-96 | the vertex array has 3n entries; entries i, i+n and i+2n are the prefix sums of the u, v and height channels, which start at start+4, start+4+2n and start+4+4n; the block ends at start+4+6n, inside the buffer |
| VertexData.SampleTileOffsets | index.js:71-93 | with 189 vertices after the 88-byte header, the block ends at 1226 and holds 567 values; the u, v and height channels start at 92, 470 and 848, whose first codes give entries 0, 189 and 378 |
| VertexData.DeltaRoundTrip | index.js:83-91 | delta decoding undoes delta encoding for every channel of 16-bit values, including wrap-around between values |
| VertexData.DeltaRoundTripStep | index.js:83-91 | appending one value to a channel keeps the round trip |
| VertexData.DecodeVertexData | index.js:65-96 | the method yields the vertex block specification, or the RangeError of a channel that does not fit |
| VertexData.DecodeChannels | index.js:83-91 | the loop fails only when the three channels do not fit; otherwise all n entries of each channel are decoded |
| VertexData.DecodeVertex | index.js:84-90 | one iteration extends the three running sums and the three decoded segments, changing only entries i, i+n and i+2n; or it fails on a read past the end and leaves the array as it was |
| VertexData.StoreVertex | index.js:88-90 | the three stores set entries i, i+n and i+2n and leave every other entry unchanged |
| VertexData.ReadCodes | index.js:84-86 | the three reads of iteration i succeed exactly when the height read fits, and yield the three codes |
| VertexData.ChannelStep | index.js:84-88 | a further code extends the running sum by its decoded delta and the segment by the wrapped sum |
| VertexData.StoreStep | index.js:88-90 | the three stores extend the three segments by one entry each and keep their earlier entries |
| VertexData.VertexStep | index.js:83-91 | one iteration keeps the loop invariant |
| VertexData.ChannelTooShort | index.js:84-86 | a buffer shorter than the three channels makes the block a RangeError |
| VertexData.VertexComplete | index.js:91-95 | the final loop state is the block of the specification |
| IndexData.WrapIndex | index.js:112 | definition: a value assigned to a Uint16Array element is kept modulo 2^16, to a Uint32Array element modulo 2^32 |
| IndexData.HighWaterDecode | index.js:107-117 | definition: index i is the number of zero codes before code i minus code i, wrapped to the width; `HighWaterAt` and `HighWaterRoundTrip` state its properties |
| IndexData.Overwrite | index.js:109-112 | definition: the buffer after the decoded indices are stored one word each from the view's offset on; `OverwriteFrame` and `OverwriteWords` state its properties |
| IndexData.DecodeIndexSpec | index.js:98-120 | definition: Misaligned for an offset not a multiple of the width, then OutOfBounds for a view past the end, each with the buffer unchanged; otherwise the decoded codes and the rewritten buffer; `DecodeIndexErrors`, `DecodeIndexResult` and `DecodeIndexFrame` state its properties |
| IndexData.BytesPerIndex | index.js:124-126 | definition: 4 bytes when the count argument exceeds 65536, else 2; `IndexWidth` states it |
| IndexData.AlignedPosition | index.js:128-130 | definition: the position padded up to the next multiple of the width; `AlignedStart` states its properties |
| IndexData.ListSpec | index.js:132-142 | definition: one list: the 32-bit count read, then `decodeIndex` on count·3 (triangles) or count indices right after it, ending that many words further on; `ListResult` and `ListEnd` state its properties |
| IndexData.IndicesSpec | index.js:122-176 | definition: the width from the count argument, the padded start, then the five lists in order, each starting where the previous ends; the first failing list fails the block, with the buffer as far as it was rewritten; `IndicesResult` and `IndicesCounts` state its properties |
| IndexData.SpanIsProduct | index.js:142 | k words of w bytes span w·k bytes |
| IndexData.HighWaterBound | index.js:112 | every decoded index fits in the index width |
| IndexData.HighWaterAt | index.js:107-117 | entry i is the number of zero codes before it minus code i, modulo 256^w; a zero code decodes to that count, so zero codes give 0, 1, 2, … in order |
| IndexData.HighWaterRoundTrip | index.js:107-117 | decoding undoes the high-water encoding of every representable index list whose indices fit in w bytes |
| IndexData.EncodeZeroCount | index.js:114-116 | the zero codes of an encoding are the indices that raise the high-water mark |
| IndexData.DecodeIndex | index.js:98-120 | the method yields the result and the new buffer given by the `decodeIndex` specification: Misaligned, then OutOfBounds, or the decoded indices with the codes rewritten in place |
| IndexData.RewriteIndices | index.js:107-117 | after the loop the buffer holds the high-water decoding of the original codes in place of those codes |
| IndexData.RewriteIndex | index.js:110-116 | one iteration stores `highest - code` at element i and keeps the loop invariant |
| IndexData.RewriteStep | index.js:110-116 | one iteration's effect on the decoded prefix and the buffer |
| IndexData.IndexStep | index.js:109-117 | one iteration extends the decoded prefix by `highest - code`, wrapped, and counts a zero code |
| IndexData.IndexComplete | index.js:117-119 | the final loop state is the result of the specification, read back from the rewritten buffer |
| IndexData.StoreWord | index.js:112 | assigning to a typed-array element changes the buffer as `Put` describes |
| IndexData.OverwriteFrame | index.js:109-112 | rewriting the codes leaves every byte outside them unchanged |
| IndexData.OverwriteBeyond | index.js:110 | the codes not yet visited still hold their original values |
| IndexData.OverwriteWords | index.js:119 | the view over the rewritten buffer reads back as the stored indices |
| IndexData.DecodeIndexErrors | index.js:101-105 | `decodeIndex` fails with Misaligned exactly on a misaligned offset, and with OutOfBounds exactly on an aligned view past the end; a failure leaves the buffer unchanged |
| IndexData.DecodeIndexResult | index.js:98-120 | a success returns `count` indices, the high-water decoding of the codes, and the rewritten view reads back as them |
| IndexData.DecodeIndexFrame | index.js:101-112 | a success changes no byte outside its view |
| IndexData.DecodeList | index.js:132-142 | one count-prefixed list is read and decoded as the list specification says |
| IndexData.ListOfIndices | index.js:132-142 | the list outcome is the count read followed by the `decodeIndex` outcome |
| IndexData.DecodeIndices | index.js:122-176 | the method yields the index block specification and the buffer it leaves |
| IndexData.TrianglesFail | index.js:132-142 | a failing triangle list fails the block with its error and the buffer it leaves |
| IndexData.WestFails | index.js:144-148 | a failing west list, after a successful triangle list, fails the block with its error and buffer |
| IndexData.SouthFails | index.js:150-154 | a failing south list, after the triangle and west lists, fails the block with its error and buffer |
| IndexData.EastFails | index.js:156-160 | a failing east list, after the triangle, west and south lists, fails the block with its error and buffer |
| IndexData.IndicesOutcome | index.js:162-175 | after four successful lists, a failing north list fails the block; otherwise the five lists make up the block, which ends where the north list ends |
| IndexData.IndexWidth | index.js:124-126 | 32-bit indices are chosen exactly when the count argument exceeds 65536 |
| IndexData.AlignedStart | index.js:128-130 | the padded position is a multiple of the width and less than one width further on; with 16-bit indices an even start is not padded |
| IndexData.ListAligned | index.js:128-142 | a list starting on a multiple of the width never meets a misaligned view |
| IndexData.ListResult | index.js:132-142 | a list holds as many indices as its count says (three per triangle for the triangle list), each fitting in the width, and ends 4 + w per index further on, aligned |
| IndexData.ListEnd | index.js:132-166 | an aligned list is never misaligned, keeps the buffer length, and on success ends inside the buffer on a multiple of the width |
| IndexData.IndicesAligned | index.js:128-166 | `decodeIndices` never raises a misaligned-view error |
| IndexData.IndicesResult | index.js:122-176 | a successful block keeps the buffer length, ends inside the buffer and aligned, and its triangle list holds three indices per triangle, each fitting in the width |
| IndexData.IndicesCounts | index.js:132-169 | the block's layout: the triangle count at the padded start, then each edge list's count right after the previous list; every list spans 4 + w per index, and the block ends after the north list |
| IndexData.ListFrame | index.js:132-142 | a list leaves every byte before its indices unchanged, whether it succeeds or fails |
| IndexData.IndicesFrame | index.js:122-176 | `decodeIndices` changes no byte before the triangle list's indices |
| IndexData.ListKeepsAfter | index.js:136-142 | a successful list changes nothing from its end on |
| IndexData.EdgeStep | index.js:144-148 | an edge list reads its count from the original bytes and holds that many indices |
| Extensions.ApplyRecord | index.js:222-236 | definition: tag 1 sets the normals, failing as their decoding does; tag 2 sets the water mask to the payload; any other tag only adds to the reported tags; `LastRecordWins` states its properties |
| Extensions.ExtLoop | index.js:213-239 | definition: from a position at or past the end the walk stops there; otherwise a length read or payload past the end is a RangeError, and the walk goes on after the record with the record applied; `ExtLoopEnd` and `ExtLoopRecords` state its properties |
| Extensions.ExtensionsSpec | index.js:204-242 | definition: no extensions, position unchanged, when the buffer ends at or before the start; otherwise the record walk from an empty object; `ExtensionsEnd` and `ExtensionsRoundTrip` state its properties |
| Extensions.NormalsSpec | index.js:178-195 | the normals succeed exactly for an even payload and hold one entry per two bytes |
| Extensions.DecodeVertexNormals | index.js:178-195 | the loop yields the normals specification |
| Extensions.NormalsRoundTrip | index.js:181-185 | the normals read from the bytes of a list of pairs are that list |
| Extensions.DecodeExtensions | index.js:204-242 | the method yields the extensions specification |
| Extensions.DecodeRecord | index.js:214-238 | one pass of the loop yields the record specification: the record's end position and the extensions with it applied, or its RangeError |
| Extensions.RecordSpec | index.js:214-238 | one record fails exactly when its length read fails, its payload runs past the end, or applying it fails; otherwise it ends 5 + length bytes on, inside the buffer, with `ApplyRecord` of its tag and payload |
| Extensions.RecordLoop | index.js:213-238 | a failing record ends the walk with its error; a successful one moves strictly forward and the walk continues from where it ends |
| Extensions.ExtStep | index.js:213-238 | one record moves the walk to 5 + length bytes further on, with the record applied |
| Extensions.RecordStep | index.js:214-238 | a failing record ends the walk with its error; otherwise the walk continues after it |
| Extensions.ExtLoopEnd | index.js:213-241 | a successful walk stops exactly at the buffer end, or at its start when that is at or past the end |
| Extensions.ExtensionsEnd | index.js:207-241 | a buffer ending at or before the index block yields no extensions and the position unchanged; otherwise a success ends at the buffer end |
| Extensions.RecordAt | index.js:214-220 | the tag, the length and the payload of an encoded record read back from the buffer |
| Extensions.ExtLoopRecords | index.js:213-239 | the walk over encoded records applies them in order and ends at the buffer end |
| Extensions.ExtensionsRoundTrip | index.js:204-242 | decoding an extension block of encoded records yields the object the records build in order, or the first record's error |
| Extensions.LastRecordWins | index.js:222-236 | the last tag-1 record sets the normals and the last tag-2 record sets the water mask to its payload; other tags add no key and are reported in order |
| QuantizedMesh.DecodeSpec | index.js:244-268 | definition: header, vertex block, index block (given three times the vertex count) and extensions in turn, each from where the previous ended, the first RangeError failing the tile; the buffer afterwards is the one the index block leaves; `DecodeLayout`, `DecodeStages` and `DecodeFrame` state its properties |
| QuantizedMesh.Decode | index.js:244-268 | the method yields the tile specification and the buffer it leaves |
| QuantizedMesh.TooShort | index.js:246-247 | a buffer shorter than 92 bytes fails with a RangeError and stays unchanged |
| QuantizedMesh.IndexWidthOfVertexCount | index.js:255 | with three times the vertex count passed on, 32-bit indices are used exactly from 21846 vertices on |
| QuantizedMesh.DecodeLayout | index.js:244-268 | a decoded tile has twelve header fields and 3n vertex values; its index block starts at the padded end of the vertex block, which with 16-bit indices is the unpadded end 92 + 6n; its triangle list holds three indices per triangle, each fitting in the width |
| QuantizedMesh.EvenVertexEnd | index.js:128-130 | the vertex block, which ends at 92 + 6n, needs no padding for 16-bit indices |
| QuantizedMesh.DecodeFrame | index.js:244-256 | decoding keeps the buffer length and changes no byte before the triangle list's indices |
| QuantizedMesh.StagesFrame | index.js:246-255 | the same bound, stated over the buffer the index block leaves |
| QuantizedMesh.DecodeBuffer | index.js:246-255 | the buffer after decoding is the one the index block leaves, or the input when an earlier stage fails |
| QuantizedMesh.DecodeStages | index.js:244-268 | a decoded tile is assembled from the stage results: the header fields, the vertex array, each of the five index lists in the field of its own name, and the extensions read from the buffer the index block leaves, from where that block ends |
| QuantizedMesh.SampleTile | src/index.test.js:36-47 | a tile of 189 vertices that decodes uses 16-bit indices, reads its triangle count at 1226 and holds three indices per triangle, their codes starting at 1230 inside the buffer |

## Left out

- `decodeOct` and `signNotZero` (index.js:23-49) are not modelled. They are floating-point vector arithmetic on the `THREE` library. Each normal is kept as the raw 2-byte pair it is decoded from.
- The header values are not decoded. The IEEE-754 decoding of `getFloat32`/`getFloat64` is left uninterpreted, and each field keeps its raw bytes.
- The `console.warn` for an unknown extension tag is modelled only as the list `unknownTags`.
- The typed-array views are read as little-endian, whatever the host's byte order.
- A `RangeError` from allocating a `Uint16Array` too large for memory is not modelled; integers are unbounded.
- The returned index arrays alias the tile buffer in the source (they are typed-array views). The model returns their contents as values, read from the rewritten buffer.
- The test harness, its network loading and its assertions on a real tile (src/index.test.js, src/test-utils.js) are not part of this model. Only the encoder log of offsets in src/index.test.js:36-47 is restated, by `SampleTileOffsets` and `SampleTile`.
- The build configuration (rollup.config.js) is not part of this model.
- `DecodeVertexNormals` reads the payload as a sequence copied from the buffer, not through a DataView into it. The bytes read are the same.
