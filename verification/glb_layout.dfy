/** What a reader finds at the fixed offsets of the container `EncodeGlb`
    produces: the header words, the JSON chunk, and the BIN chunk exactly
    when there is a non-empty first resource buffer.
 */
module GlbLayout {
  import opened Bytes
  import opened Padding
  import opened Glb

  /** Offset of the JSON chunk data: after the header and the JSON chunk header. */
  const JSON_DATA_OFFSET: nat := HEADER_LENGTH + CHUNK_HEADER_LENGTH

  /** The container is the header, then the JSON chunk, then (when there is
      one) the BIN chunk, with no gap and nothing after. */
  lemma EncodeChunkOrder(doc: Document)
    ensures var out := EncodeGlb(doc);
      && out[..HEADER_LENGTH] == Header(|out|)
      && out[HEADER_LENGTH..JSON_DATA_OFFSET + PaddedLength(|doc.jsonText|)] == JsonChunk(doc.jsonText)
      && match BinBuffer(doc.resources)
         case None => |out| == JSON_DATA_OFFSET + PaddedLength(|doc.jsonText|)
         case Some(bin) => out[JSON_DATA_OFFSET + PaddedLength(|doc.jsonText|)..] == BinChunk(bin)
  {
    var out := EncodeGlb(doc);
    var jsonChunk := JsonChunk(doc.jsonText);
    var jsonEnd := HEADER_LENGTH + |jsonChunk|;
    match BinBuffer(doc.resources)
    case None =>
      var h := Header(jsonEnd);
      assert out == h + jsonChunk;
      assert out[..HEADER_LENGTH] == h;
      assert out[HEADER_LENGTH..jsonEnd] == jsonChunk;
    case Some(bin) =>
      var binChunk := BinChunk(bin);
      var h := Header(jsonEnd + |binChunk|);
      assert out == h + jsonChunk + binChunk;
      assert out[..HEADER_LENGTH] == h;
      assert out[HEADER_LENGTH..jsonEnd] == jsonChunk;
      assert out[jsonEnd..] == binChunk;
  }

  /** The header words read back as the magic, version 2 and the container's
      length modulo 2^32, whether or not a BIN chunk was written. */
  lemma EncodeHeaderFields(doc: Document)
    ensures var out := EncodeGlb(doc);
      && ReadU32LE(out, 0) == MAGIC
      && ReadU32LE(out, 4) == VERSION
      && ReadU32LE(out, 8) == |out| % TWO_TO_THE_32
  {
    var out := EncodeGlb(doc);
    EncodeChunkOrder(doc);
    var h := Header(|out|);
    assert out == h + out[HEADER_LENGTH..];
    ReadU32LEPrefix(h, out[HEADER_LENGTH..], 0);
    ReadU32LEPrefix(h, out[HEADER_LENGTH..], 4);
    ReadU32LEPrefix(h, out[HEADER_LENGTH..], 8);
  }

  /** While the container is shorter than 4 GiB, the total-length word is
      exactly its length in bytes. */
  lemma EncodeTotalLength(doc: Document)
    requires EncodedLength(doc) < TWO_TO_THE_32
    ensures ReadU32LE(EncodeGlb(doc), 8) == |EncodeGlb(doc)|
  {
    var out := EncodeGlb(doc);
    EncodeHeaderFields(doc);
    ModBelow(|out|);
  }

  /** The JSON chunk header holds the padded text length (modulo 2^32) and
      the JSON tag, and the padded text follows it. */
  lemma EncodeJsonChunk(doc: Document)
    ensures var out := EncodeGlb(doc);
      var p := PaddedLength(|doc.jsonText|);
      && JSON_DATA_OFFSET + p <= |out|
      && ReadU32LE(out, 12) == p % TWO_TO_THE_32
      && ReadU32LE(out, 16) == CHUNK_TYPE_JSON
      && out[JSON_DATA_OFFSET..JSON_DATA_OFFSET + p] == Pad(doc.jsonText, JSON_PAD)
  {
    var out := EncodeGlb(doc);
    EncodeChunkOrder(doc);
    ChunkAt(out, HEADER_LENGTH, Pad(doc.jsonText, JSON_PAD), CHUNK_TYPE_JSON);
  }

  /** The JSON chunk data is the text unchanged, followed by at most three
      spaces that bring it to a multiple of four bytes. */
  lemma EncodeJsonText(doc: Document)
    ensures var out := EncodeGlb(doc);
      var n := |doc.jsonText|;
      var p := PaddedLength(n);
      && JSON_DATA_OFFSET + p <= |out|
      && out[JSON_DATA_OFFSET..JSON_DATA_OFFSET + n] == doc.jsonText
      && p - n <= 3 && p % 4 == 0
      && (forall i :: JSON_DATA_OFFSET + n <= i < JSON_DATA_OFFSET + p ==> out[i] == JSON_PAD)
  {
    EncodeJsonChunk(doc);
    PadAt(EncodeGlb(doc), JSON_DATA_OFFSET, doc.jsonText, JSON_PAD);
  }

  /** Without a non-empty first resource buffer the container is the header
      and the JSON chunk alone: 20 bytes plus the padded text, no BIN chunk. */
  lemma EncodeWithoutBin(doc: Document)
    requires |doc.resources| == 0 || |doc.resources[0]| == 0
    ensures |EncodeGlb(doc)| == JSON_DATA_OFFSET + PaddedLength(|doc.jsonText|)
    ensures EncodeGlb(doc) == Header(|EncodeGlb(doc)|) + JsonChunk(doc.jsonText)
  {
    EncodeChunkOrder(doc);
    var out := EncodeGlb(doc);
    assert out == out[..HEADER_LENGTH] + out[HEADER_LENGTH..];
  }

  /** With a non-empty first resource buffer, a BIN chunk follows the JSON
      chunk and ends the container: its header holds the padded resource
      length (modulo 2^32) and the BIN tag, and the padded resource follows. */
  lemma EncodeWithBin(doc: Document)
    requires |doc.resources| > 0 && |doc.resources[0]| > 0
    ensures var out := EncodeGlb(doc);
      var off := JSON_DATA_OFFSET + PaddedLength(|doc.jsonText|);
      var q := PaddedLength(|doc.resources[0]|);
      && |out| == off + CHUNK_HEADER_LENGTH + q
      && ReadU32LE(out, off) == q % TWO_TO_THE_32
      && ReadU32LE(out, off + 4) == CHUNK_TYPE_BIN
      && out[off + CHUNK_HEADER_LENGTH..] == Pad(doc.resources[0], BIN_PAD)
  {
    var out := EncodeGlb(doc);
    var off := JSON_DATA_OFFSET + PaddedLength(|doc.jsonText|);
    EncodeChunkOrder(doc);
    BinChunkAt(out, off, doc.resources[0]);
  }

  /** A BIN chunk at the end of a buffer: the facts `EncodeWithBin` states,
      for any buffer that ends with `BinChunk(bin)` from `off` on. */
  lemma BinChunkAt(out: seq<Byte>, off: nat, bin: seq<Byte>)
    requires off <= |out| && out[off..] == BinChunk(bin)
    ensures var q := PaddedLength(|bin|);
      && |out| == off + CHUNK_HEADER_LENGTH + q
      && ReadU32LE(out, off) == q % TWO_TO_THE_32
      && ReadU32LE(out, off + 4) == CHUNK_TYPE_BIN
      && out[off + CHUNK_HEADER_LENGTH..] == Pad(bin, BIN_PAD)
  {
    var data := Pad(bin, BIN_PAD);
    var c := Chunk(data, CHUNK_TYPE_BIN);
    assert out[off..] == c;
    assert out[off..off + CHUNK_HEADER_LENGTH + |data|] == c;
    ChunkAt(out, off, data, CHUNK_TYPE_BIN);
  }

  /** The BIN chunk data is the first resource unchanged, followed by at most
      three zero bytes that bring it to a multiple of four bytes. */
  lemma EncodeBinData(doc: Document)
    requires |doc.resources| > 0 && |doc.resources[0]| > 0
    ensures var out := EncodeGlb(doc);
      var bin := doc.resources[0];
      var start := JSON_DATA_OFFSET + PaddedLength(|doc.jsonText|) + CHUNK_HEADER_LENGTH;
      && start + |bin| <= |out|
      && out[start..start + |bin|] == bin
      && |out| - (start + |bin|) <= 3
      && (forall i :: start + |bin| <= i < |out| ==> out[i] == BIN_PAD)
  {
    var out := EncodeGlb(doc);
    var start := JSON_DATA_OFFSET + PaddedLength(|doc.jsonText|) + CHUNK_HEADER_LENGTH;
    EncodeWithBin(doc);
    assert out[start..start + PaddedLength(|doc.resources[0]|)] == out[start..];
    PadAt(out, start, doc.resources[0], BIN_PAD);
  }

  /** Only the first resource buffer reaches the container. */
  lemma EncodeIgnoresLaterResources(jsonText: seq<Byte>, resources: seq<seq<Byte>>, others: seq<seq<Byte>>)
    requires |resources| > 0
    ensures EncodeGlb(Document(jsonText, resources + others)) == EncodeGlb(Document(jsonText, resources[..1]))
  {
    assert (resources + others)[0] == resources[..1][0];
  }

  /** A missing first resource buffer and an empty one give the same container. */
  lemma EncodeEmptyResourceIsAbsent(jsonText: seq<Byte>, others: seq<seq<Byte>>)
    ensures EncodeGlb(Document(jsonText, [[]] + others)) == EncodeGlb(Document(jsonText, []))
  {
    assert ([[]] + others)[0] == [];
  }

  /** Every container is a whole number of 4-byte words. */
  lemma EncodeAligned(doc: Document)
    ensures |EncodeGlb(doc)| % 4 == 0
  {
  }
}
