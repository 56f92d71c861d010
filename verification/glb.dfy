/** The binary glTF (GLB) container encoder of `lib/gltf-io.js`.

    The container is a 12-byte header (magic, version, total length), a
    JSON chunk and, when there is a resource buffer to store, a BIN chunk.
    Each chunk is an 8-byte chunk header (data length, type tag) followed
    by its data padded to a multiple of four bytes: with spaces for JSON,
    with zeros for BIN.
 */
module Glb {
  import opened Bytes
  import opened Padding
  import opened Wrappers

  /** "glTF" read as a little-endian word. */
  const MAGIC: nat := 0x46546C67
  const VERSION: nat := 2
  const HEADER_LENGTH: nat := 12
  const CHUNK_HEADER_LENGTH: nat := 8
  /** "JSON" read as a little-endian word. */
  const CHUNK_TYPE_JSON: nat := 0x4E4F534A
  /** "BIN\0" read as a little-endian word. */
  const CHUNK_TYPE_BIN: nat := 0x004E4942
  const JSON_PAD: Byte := 0x20
  const BIN_PAD: Byte := 0x00

  /** The document handed to the encoder: the UTF-8 bytes of the serialised
      JSON and the resource buffers, in the order `Object.values` lists them. */
  datatype Document = Document(jsonText: seq<Byte>, resources: seq<seq<Byte>>)

  /** `Object.values(resources)[0]`, unless it is missing or has no bytes. */
  function BinBuffer(resources: seq<seq<Byte>>): (bin: Option<seq<Byte>>)
    ensures bin.Some? <==> |resources| > 0 && |resources[0]| > 0
    ensures bin.Some? ==> bin.value == resources[0]
  {
    if |resources| == 0 || |resources[0]| == 0 then None else Some(resources[0])
  }

  /** The bytes of a `Uint32Array` of three words viewed as bytes. */
  function Words3(a: nat, b: nat, c: nat): (r: seq<Byte>)
    ensures |r| == 12
    ensures ReadU32LE(r, 0) == a % TWO_TO_THE_32
    ensures ReadU32LE(r, 4) == b % TWO_TO_THE_32
    ensures ReadU32LE(r, 8) == c % TWO_TO_THE_32
  {
    var r := U32LE(a) + U32LE(b) + U32LE(c);
    ReadU32LEPrefix(U32LE(a) + U32LE(b), U32LE(c), 0);
    ReadU32LEPrefix(U32LE(a), U32LE(b), 0);
    ReadU32LEPrefix(U32LE(a) + U32LE(b), U32LE(c), 4);
    ReadU32LESuffix(U32LE(a), U32LE(b), 0);
    ReadU32LESuffix(U32LE(a) + U32LE(b), U32LE(c), 0);
    r
  }

  /** The container header for a container of `total` bytes. */
  function Header(total: nat): (r: seq<Byte>)
    ensures |r| == HEADER_LENGTH
    ensures ReadU32LE(r, 0) == MAGIC && ReadU32LE(r, 4) == VERSION
    ensures ReadU32LE(r, 8) == total % TWO_TO_THE_32
  {
    Words3(MAGIC, VERSION, total)
  }

  /** The bytes a header holds depend on the total length only modulo 2^32. */
  lemma HeaderModulus(total: nat)
    ensures Header(total % TWO_TO_THE_32) == Header(total)
  {
    U32LEModulus(total);
  }

  /** A chunk: its 8-byte chunk header (data length, type tag), then its data. */
  function Chunk(data: seq<Byte>, tag: nat): (r: seq<Byte>)
    requires tag < TWO_TO_THE_32
    ensures |r| == CHUNK_HEADER_LENGTH + |data|
    ensures ReadU32LE(r, 0) == |data| % TWO_TO_THE_32 && ReadU32LE(r, 4) == tag
    ensures r[CHUNK_HEADER_LENGTH..] == data
  {
    ReadU32LEPrefix(U32LE(|data|), U32LE(tag), 0);
    ReadU32LESuffix(U32LE(|data|), U32LE(tag), 0);
    ReadU32LEPrefix(U32LE(|data|) + U32LE(tag), data, 0);
    ReadU32LEPrefix(U32LE(|data|) + U32LE(tag), data, 4);
    U32LE(|data|) + U32LE(tag) + data
  }

  /** Wherever a chunk is found inside a larger buffer, the words at its
      start read back as its data length and tag, and its data follows them. */
  lemma ChunkAt(s: seq<Byte>, off: nat, data: seq<Byte>, tag: nat)
    requires tag < TWO_TO_THE_32
    requires off + CHUNK_HEADER_LENGTH + |data| <= |s|
    requires s[off..off + CHUNK_HEADER_LENGTH + |data|] == Chunk(data, tag)
    ensures ReadU32LE(s, off) == |data| % TWO_TO_THE_32
    ensures ReadU32LE(s, off + 4) == tag
    ensures s[off + CHUNK_HEADER_LENGTH..off + CHUNK_HEADER_LENGTH + |data|] == data
  {
    var c := Chunk(data, tag);
    assert forall i :: 0 <= i < 8 ==> s[off + i] == c[i];
    assert s[off + CHUNK_HEADER_LENGTH..off + CHUNK_HEADER_LENGTH + |data|] == c[CHUNK_HEADER_LENGTH..];
  }

  /** The length of the container `EncodeGlb` produces for `doc`: the
      running total of the header's third word, before any wrap-around. It
      is always a whole number of 4-byte words. */
  function EncodedLength(doc: Document): (n: nat)
    ensures n % 4 == 0
    ensures n >= HEADER_LENGTH + CHUNK_HEADER_LENGTH + PaddedLength(|doc.jsonText|)
  {
    var p := PaddedLength(|doc.jsonText|);
    match BinBuffer(doc.resources)
    case None =>
      AlignedSum(HEADER_LENGTH + CHUNK_HEADER_LENGTH, p, 0, HEADER_LENGTH + CHUNK_HEADER_LENGTH + p);
      HEADER_LENGTH + CHUNK_HEADER_LENGTH + p
    case Some(bin) =>
      var q := PaddedLength(|bin|);
      AlignedSum(HEADER_LENGTH + 2 * CHUNK_HEADER_LENGTH, p, q, HEADER_LENGTH + 2 * CHUNK_HEADER_LENGTH + p + q);
      HEADER_LENGTH + CHUNK_HEADER_LENGTH + p + CHUNK_HEADER_LENGTH + q
  }

  /** The JSON chunk: the text padded with spaces, under its chunk header. */
  function JsonChunk(jsonText: seq<Byte>): (r: seq<Byte>)
    ensures |r| == CHUNK_HEADER_LENGTH + PaddedLength(|jsonText|)
    ensures ReadU32LE(r, 0) == PaddedLength(|jsonText|) % TWO_TO_THE_32
    ensures ReadU32LE(r, 4) == CHUNK_TYPE_JSON
    ensures r[CHUNK_HEADER_LENGTH..] == Pad(jsonText, JSON_PAD)
  {
    Chunk(Pad(jsonText, JSON_PAD), CHUNK_TYPE_JSON)
  }

  /** The BIN chunk: the resource padded with zeros, under its chunk header. */
  function BinChunk(bin: seq<Byte>): (r: seq<Byte>)
    ensures |r| == CHUNK_HEADER_LENGTH + PaddedLength(|bin|)
    ensures ReadU32LE(r, 0) == PaddedLength(|bin|) % TWO_TO_THE_32
    ensures ReadU32LE(r, 4) == CHUNK_TYPE_BIN
    ensures r[CHUNK_HEADER_LENGTH..] == Pad(bin, BIN_PAD)
  {
    Chunk(Pad(bin, BIN_PAD), CHUNK_TYPE_BIN)
  }

  lemma AlignedSum(a: nat, b: nat, c: nat, n: nat)
    requires a % 4 == 0 && b % 4 == 0 && c % 4 == 0 && n == a + b + c
    ensures n % 4 == 0
  {
  }

  /** `jsonToBinary`: the GLB container holding `doc`. The BIN chunk is left
      out, rather than written empty, when there is no non-empty first
      resource buffer. */
  function EncodeGlb(doc: Document): (out: seq<Byte>)
    ensures |out| == EncodedLength(doc)
  {
    var jsonChunk := JsonChunk(doc.jsonText);
    match BinBuffer(doc.resources)
    case None =>
      Header(HEADER_LENGTH + |jsonChunk|) + jsonChunk
    case Some(bin) =>
      var binChunk := BinChunk(bin);
      Header(HEADER_LENGTH + |jsonChunk| + |binChunk|) + jsonChunk + binChunk
  }

  /** The container as its three parts, the BIN part empty when no BIN chunk
      is written. */
  lemma EncodeGlbParts(doc: Document)
    ensures EncodeGlb(doc) == Header(EncodedLength(doc)) + JsonChunk(doc.jsonText)
      + match BinBuffer(doc.resources)
        case None => []
        case Some(bin) => BinChunk(bin)
  {
    match BinBuffer(doc.resources)
    case None =>
      assert JsonChunk(doc.jsonText) + [] == JsonChunk(doc.jsonText);
    case Some(bin) =>
  }
}
