# GLB container encoder of gltf-inspector, in Dafny

gltf-inspector lets a user edit the JSON part of a binary glTF (`.glb`) file
and save it again with the original binary payload reattached. The part with
real substance is `jsonToBinary` in `lib/gltf-io.js`. It takes a document,
which is a JSON value plus a map of resource buffers, and builds the GLB
container of section 4.4 ("GLB File Format Specification") of the Khronos
glTF 2.0 specification:

- a 12-byte header: magic `0x46546C67` ("glTF"), version `2`, total length;
- a JSON chunk: an 8-byte chunk header (data length, type `0x4E4F534A`), then
  the UTF-8 JSON text padded with `0x20` to a multiple of four bytes;
- a BIN chunk, only when the first resource buffer exists and is non-empty:
  an 8-byte chunk header (data length, type `0x004E4942`), then the resource
  bytes padded with `0x00` to a multiple of four bytes.

The model is functional. Bytes are `Bytes.Byte`, the integers 0 to 255, and
buffers are sequences of them.

- `Bytes` models a `Uint32Array` element seen through a byte view. `U32LE`
  stores a value reduced modulo 2^32, as ToUint32 does, and writes it
  little-endian. `ReadU32LE` reads such a word back.
- `Padding` models `BufferUtils.pad`. `PaddedLength` is `Math.ceil(n / 4) * 4`,
  and `Pad` appends the fill byte up to that length. `PadBuffer` does the
  same as a buffer operation, writing one fill byte at a time.
- `Buffers` models `BufferUtils.concat`. `Concat` copies the parts one after
  another and is proved equal to `Flatten`, the parts laid end to end.
- `Glb` holds the constants, the `Document` input, and the closed-form
  encoder `EncodeGlb`. `Document` has the serialised JSON text as bytes and
  the resource buffers in `Object.values` order.
- `GlbSteps.JsonToBinary` follows the source statement by statement. The
  total-length word starts at 12, and each chunk's length is added to it with
  the `Uint32Array` wrap-around. The method is proved equal to `EncodeGlb`.
- `GlbLayout` proves what sits at each fixed offset of the output.
- `GlbReader` is a reader for the GLB layout, written independently of the
  encoder. It checks the header words and walks the chunks. Two round-trip
  lemmas relate it to the encoder:
  - every container shorter than 2^32 bytes that the encoder produces is
    accepted, and the reader finds exactly the padded chunk data that was
    stored;
  - every accepted container whose chunk data the encoder could have produced
    is rebuilt byte for byte when that data is encoded again.

  The format records no unpadded length, so the reader returns chunk data
  with its padding.

The 32-bit words are not restricted by a precondition. Their wrap-around is
modelled explicitly: the header and chunk-length words hold their values
modulo 2^32. The lemmas that equate a length word with the real length
(`GlbLayout.EncodeTotalLength`, and the round trip `GlbReader.EncodeThenRead`,
whose reader checks that word) take as a precondition that the container is
shorter than 2^32 bytes. A longer container is still produced, but its
total-length word has wrapped and a reader rejects it.

## Model

| member | source | states |
|---|---|---|
| `Bytes.U32LE` | lib/gltf-io.js:23 | the four bytes written for a `Uint32Array` element read back, little-endian, as the stored value modulo 2^32 |
| `Bytes.U32LEOfRead` | lib/gltf-io.js:26-27 | writing a word back from the value read at an offset reproduces exactly the four bytes found there, so a 32-bit word and its bytes determine each other |
| `Bytes.U32LEInjective` | lib/gltf-io.js:23 | two stored values give the same four bytes exactly when they agree modulo 2^32 |
| `Padding.PaddedLength` | lib/gltf-io.js:25 | the padded length is a multiple of 4, at least the original length, and at most 3 more |
| `Padding.PaddedLengthFixpoint` | lib/gltf-io.js:25 | padding leaves a length unchanged exactly when it is already a multiple of 4 |
| `Padding.PaddedLengthIsLeast` | lib/gltf-io.js:25 | no multiple of 4 that is at least the original length is smaller than the padded length |
| `Padding.Pad` | lib/gltf-io.js:25 | padding keeps the input as a prefix, reaches the padded length, fills the rest with the fill byte only, and leaves an aligned buffer unchanged |
| `Padding.PadBuffer` | lib/gltf-io.js:25 | writing fill bytes one at a time from the old end up to the next multiple of 4 gives exactly `Pad`'s result: the input as prefix, then only fill bytes, ending aligned |
| `Padding.PadUnique` | lib/gltf-io.js:25 | any buffer with the input as prefix, the padded length and only fill bytes after the input is the padded buffer, so `Pad`'s contract determines it |
| `Padding.PadIdempotent` | lib/gltf-io.js:25 | as a general property of the pad, padding an already padded buffer changes nothing |
| `Buffers.Concat` | lib/gltf-io.js:41 | copying the parts in turn yields them laid end to end, in order, with nothing between |
| `Buffers.FlattenPair` | lib/gltf-io.js:29 | concatenating a chunk header and its data is the header followed by the data |
| `Glb.BinBuffer` | lib/gltf-io.js:31-32 | a BIN buffer is present exactly when the first resource exists and is non-empty, and it is that resource |
| `Glb.Header` | lib/gltf-io.js:23 | the 12-byte header reads back as magic, version 2 and the total modulo 2^32 |
| `Glb.Chunk` | lib/gltf-io.js:26-29 | a chunk is 8 bytes longer than its data; its first word reads back as the data length modulo 2^32 and its second as the type tag; the data follows unchanged |
| `Glb.EncodedLength` | lib/gltf-io.js:23-40 | the running total of the header's third word (12, plus the JSON chunk, plus the BIN chunk when written) is a multiple of 4 and at least 20 plus the padded JSON length |
| `Glb.Words3` | lib/gltf-io.js:33 | a three-word `Uint32Array` viewed as bytes is 12 bytes whose words read back as the three values modulo 2^32 |
| `Glb.JsonChunk` | lib/gltf-io.js:25-29 | the JSON chunk reads back as the padded text length modulo 2^32 and the JSON tag, followed by the text padded with `0x20` |
| `Glb.BinChunk` | lib/gltf-io.js:35-39 | the BIN chunk reads back as the padded resource length modulo 2^32 and the BIN tag, followed by the resource padded with `0x00` |
| `Glb.EncodeGlb` | lib/gltf-io.js:21-42 | the container is 20 bytes plus the padded JSON length, plus 8 and the padded resource length when a BIN chunk is written |
| `GlbSteps.JsonToBinary` | lib/gltf-io.js:21-42 | building the total length incrementally with 32-bit stores gives the closed-form container, whose header reads magic, version 2 and its own length modulo 2^32 |
| `GlbSteps.BuildChunk` | lib/gltf-io.js:26-29 | a chunk built from a two-word `Uint32Array` view and the data is the closed-form chunk: 8 bytes longer than the data, length word modulo 2^32, then the tag, then the data unchanged |
| `GlbLayout.EncodeChunkOrder` | lib/gltf-io.js:33-41 | the output is the header, then the JSON chunk, then the BIN chunk if present, with nothing between or after |
| `GlbLayout.EncodeHeaderFields` | lib/gltf-io.js:23-41 | on both return paths, the words at offsets 0, 4 and 8 are the magic, version 2 and the output length modulo 2^32 |
| `GlbLayout.EncodeTotalLength` | lib/gltf-io.js:30-41 | below 2^32 bytes, the total-length word equals the byte length of the returned buffer |
| `GlbLayout.EncodeJsonChunk` | lib/gltf-io.js:25-29 | the words at offsets 12 and 16 are the padded JSON length (modulo 2^32) and the JSON tag, and the padded text follows from offset 20 |
| `GlbLayout.EncodeJsonText` | lib/gltf-io.js:24-25 | the JSON chunk data starts with the text bytes unchanged, has at most 3 pad bytes, all `0x20`, and ends at a multiple of 4 |
| `GlbLayout.EncodeWithoutBin` | lib/gltf-io.js:31-34 | with no first resource, or an empty one, the output is exactly header and JSON chunk, of length 20 plus the padded JSON length |
| `GlbLayout.EncodeWithBin` | lib/gltf-io.js:35-41 | otherwise a BIN chunk header at offset 20 plus the padded JSON length holds the padded resource length (modulo 2^32) and the BIN tag, and the padded resource runs from there to the end |
| `GlbLayout.BinChunkAt` | lib/gltf-io.js:36-39 | a buffer ending in a BIN chunk ends with the chunk header words and then the padded resource, and its length is accounted for exactly |
| `GlbLayout.EncodeBinData` | lib/gltf-io.js:35 | the BIN chunk data starts at offset 28 plus the padded JSON length with the first resource unchanged, followed by at most 3 bytes, all `0x00` |
| `GlbLayout.EncodeIgnoresLaterResources` | lib/gltf-io.js:31 | resources after the first do not affect the output |
| `GlbLayout.EncodeEmptyResourceIsAbsent` | lib/gltf-io.js:32-33 | an empty first resource gives the same output as no resource at all |
| `GlbLayout.EncodeAligned` | lib/gltf-io.js:25-41 | the output length is a multiple of 4 |
| `GlbReader.EncodeThenRead` | lib/gltf-io.js:21-42 | below 2^32 bytes, a layout reader accepts the output and finds the padded JSON text and, exactly when the first resource is non-empty, the padded resource |
| `GlbReader.EncodeTooLongIsRejected` | lib/gltf-io.js:30-40 | from 2^32 bytes on, the wrapped total-length word no longer matches the output length, so the reader rejects the container |
| `GlbReader.ReadThenEncode` | lib/gltf-io.js:21-42 | a container the reader accepts, with aligned JSON data and non-empty aligned BIN data, is reproduced byte for byte by encoding its chunk data |

## Left out

- `binaryToJson` (lib/gltf-io.js:7-11) is left out. It delegates to `WebIO.binaryToJSON` from `@gltf-transform/core`, whose behaviour is not visible. `GlbReader.ReadGlb` reads the container layout only, to state the round trips; it does not model that library call.
- `JSON.stringify` and `BufferUtils.encodeText` (lib/gltf-io.js:24-25) are host library calls. Their result, the UTF-8 bytes of the serialised JSON, is the input `Document.jsonText`. The serialisation error they can throw, which leaves no output, is therefore not modelled.
- `BufferUtils.pad`, `toView` and `concat` are not part of this model's source. They are modelled by what the encoder relies on: pad to a multiple of four with the given byte, a byte view of the words, and concatenation.
- A `Uint32Array` writes in host byte order. The model uses little-endian, the order GLB requires.
- The resource map is modelled as a sequence in `Object.values` order. How JavaScript orders object keys is not modelled.
- The `async`/`Promise` wrapping of `jsonToBinary` is left out. The transformation is synchronous, so it is modelled as a pure function.
- script.js (editor setup, drag-drop and fetch loading, the paste and save handlers, the global `state`) is left out. It is browser UI and I/O glue.
- lib/saveBlob.js is left out. It only triggers a file download.
