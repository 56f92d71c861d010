/** `jsonToBinary` as the source writes it, step by step: the total-length
    word starts at 12 and each chunk's length is added to it as the chunk is
    built, the `Uint32Array` store reducing the sum modulo 2^32 each time;
    padding and concatenation are the buffer operations.
 */
module GlbSteps {
  import opened Bytes
  import opened Padding
  import opened Buffers
  import opened Glb
  import GlbLayout

  /** The running total agrees with the closed-form container, so the header
      read back from the result carries the magic, version 2 and the
      container's own length modulo 2^32. */
  method JsonToBinary(doc: Document) returns (out: seq<Byte>)
    ensures out == EncodeGlb(doc)
    ensures ReadU32LE(out, 0) == MAGIC && ReadU32LE(out, 4) == VERSION
    ensures ReadU32LE(out, 8) == |out| % TWO_TO_THE_32
  {
    var header: seq<nat> := [MAGIC, VERSION, HEADER_LENGTH];
    var jsonChunkData := PadBuffer(doc.jsonText, JSON_PAD);
    var jsonChunk := BuildChunk(jsonChunkData, CHUNK_TYPE_JSON);
    header := header[2 := (header[2] + |jsonChunk|) % TWO_TO_THE_32];
    var binBuffer := BinBuffer(doc.resources);
    if binBuffer.None? {
      var headerBytes := Words3(header[0], header[1], header[2]);
      out := Concat([headerBytes, jsonChunk]);
      FlattenPair(headerBytes, jsonChunk);
      HeaderModulus(HEADER_LENGTH + |jsonChunk|);
    } else {
      var binChunkData := PadBuffer(binBuffer.value, BIN_PAD);
      var binChunk := BuildChunk(binChunkData, CHUNK_TYPE_BIN);
      var total := HEADER_LENGTH + |jsonChunk| + |binChunk|;
      ModAddMod(HEADER_LENGTH + |jsonChunk|, |binChunk|);
      header := header[2 := (header[2] + |binChunk|) % TWO_TO_THE_32];
      assert header[2] == total % TWO_TO_THE_32;
      var headerBytes := Words3(header[0], header[1], header[2]);
      out := Concat([headerBytes, jsonChunk, binChunk]);
      FlattenTriple(headerBytes, jsonChunk, binChunk);
      HeaderModulus(total);
    }
    EncodeGlbParts(doc);
    GlbLayout.EncodeHeaderFields(doc);
  }

  /** A chunk as the source builds it: a two-word `Uint32Array` (data length,
      type tag) viewed as bytes, concatenated with the data. */
  method BuildChunk(data: seq<Byte>, tag: nat) returns (chunk: seq<Byte>)
    requires tag < TWO_TO_THE_32
    ensures |chunk| == CHUNK_HEADER_LENGTH + |data|
    ensures ReadU32LE(chunk, 0) == |data| % TWO_TO_THE_32 && ReadU32LE(chunk, 4) == tag
    ensures chunk[CHUNK_HEADER_LENGTH..] == data
    ensures chunk == Chunk(data, tag)
  {
    var chunkHeader := U32LE(|data|) + U32LE(tag);
    chunk := Concat([chunkHeader, data]);
    FlattenPair(chunkHeader, data);
  }
}
