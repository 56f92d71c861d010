/** A reader of the GLB layout, written independently of the encoder: it
    checks the header words, walks the JSON chunk and the optional BIN chunk,
    and returns the chunk data as stored (padding included, since the format
    keeps no unpadded length). Two round-trip lemmas relate it to the
    encoder: the encoder's output is a well-formed container, and the encoder
    rebuilds every container the reader accepts and it could have written.
 */
module GlbReader {
  import opened Bytes
  import opened Padding
  import opened Wrappers
  import opened Glb
  import opened GlbLayout

  datatype ReadError = Truncated | BadMagic | BadVersion | LengthMismatch | BadChunkType

  /** The data of the chunks of a container, as stored. */
  datatype Chunks = Chunks(jsonData: seq<Byte>, binData: Option<seq<Byte>>)

  function ReadGlb(b: seq<Byte>): (r: Result<Chunks, ReadError>)
    ensures r.Success? ==>
      |b| == JSON_DATA_OFFSET + |r.value.jsonData|
             + (if r.value.binData.Some? then CHUNK_HEADER_LENGTH + |r.value.binData.value| else 0)
  {
    if |b| < JSON_DATA_OFFSET then Failure(Truncated)
    else if ReadU32LE(b, 0) != MAGIC then Failure(BadMagic)
    else if ReadU32LE(b, 4) != VERSION then Failure(BadVersion)
    else if ReadU32LE(b, 8) != |b| then Failure(LengthMismatch)
    else if ReadU32LE(b, 16) != CHUNK_TYPE_JSON then Failure(BadChunkType)
    else
      var jsonEnd := JSON_DATA_OFFSET + ReadU32LE(b, 12);
      if jsonEnd > |b| then Failure(Truncated)
      else if jsonEnd == |b| then Success(Chunks(b[JSON_DATA_OFFSET..], None))
      else if jsonEnd + CHUNK_HEADER_LENGTH > |b| then Failure(Truncated)
      else if ReadU32LE(b, jsonEnd + 4) != CHUNK_TYPE_BIN then Failure(BadChunkType)
      else if jsonEnd + CHUNK_HEADER_LENGTH + ReadU32LE(b, jsonEnd) != |b| then Failure(LengthMismatch)
      else Success(Chunks(b[JSON_DATA_OFFSET..jsonEnd], Some(b[jsonEnd + CHUNK_HEADER_LENGTH..])))
  }

  /** The chunk data the encoder stores for `doc`: the padded JSON text and,
      when there is a non-empty first resource, the padded resource. */
  function StoredChunks(doc: Document): (c: Chunks)
    ensures |c.jsonData| % 4 == 0
    ensures c.binData.Some? <==> |doc.resources| > 0 && |doc.resources[0]| > 0
    ensures c.binData.Some? ==> |c.binData.value| > 0 && |c.binData.value| % 4 == 0
  {
    Chunks(Pad(doc.jsonText, JSON_PAD),
           match BinBuffer(doc.resources)
           case None => None
           case Some(bin) => Some(Pad(bin, BIN_PAD)))
  }

  /** Round trip: every container the encoder produces (below 4 GiB, where
      the length words do not wrap) is accepted by the reader, which finds
      exactly the chunk data the encoder stored. */
  lemma EncodeThenRead(doc: Document)
    requires EncodedLength(doc) < TWO_TO_THE_32
    ensures ReadGlb(EncodeGlb(doc)) == Success(StoredChunks(doc))
  {
    if BinBuffer(doc.resources).None? {
      EncodeThenReadWithoutBin(doc);
    } else {
      EncodeThenReadWithBin(doc);
    }
  }

  /** From 4 GiB on, the total-length word has wrapped, so the reader
      rejects the encoder's output: the round trip needs its bound. */
  lemma EncodeTooLongIsRejected(doc: Document)
    requires EncodedLength(doc) >= TWO_TO_THE_32
    ensures ReadGlb(EncodeGlb(doc)).Failure?
  {
    var out := EncodeGlb(doc);
    EncodeHeaderFields(doc);
    assert ReadU32LE(out, 8) != |out|;
  }

  lemma EncodeThenReadWithoutBin(doc: Document)
    requires EncodedLength(doc) < TWO_TO_THE_32
    requires BinBuffer(doc.resources).None?
    ensures ReadGlb(EncodeGlb(doc)) == Success(Chunks(Pad(doc.jsonText, JSON_PAD), None))
  {
    var out := EncodeGlb(doc);
    var p := PaddedLength(|doc.jsonText|);
    EncodeHeaderFields(doc);
    EncodeTotalLength(doc);
    EncodeJsonChunk(doc);
    ModBelow(p);
    EncodeWithoutBin(doc);
    ReadJsonOnly(out, p);
    assert out[JSON_DATA_OFFSET..] == out[JSON_DATA_OFFSET..JSON_DATA_OFFSET + p];
  }

  lemma EncodeThenReadWithBin(doc: Document)
    requires EncodedLength(doc) < TWO_TO_THE_32
    requires BinBuffer(doc.resources).Some?
    ensures ReadGlb(EncodeGlb(doc))
         == Success(Chunks(Pad(doc.jsonText, JSON_PAD), Some(Pad(doc.resources[0], BIN_PAD))))
  {
    var out := EncodeGlb(doc);
    var p := PaddedLength(|doc.jsonText|);
    var q := PaddedLength(|doc.resources[0]|);
    EncodeHeaderFields(doc);
    EncodeTotalLength(doc);
    EncodeJsonChunk(doc);
    ModBelow(p);
    EncodeWithBin(doc);
    ModBelow(q);
    ReadWithBin(out, Pad(doc.jsonText, JSON_PAD), Pad(doc.resources[0], BIN_PAD));
  }

  /** What the reader returns for a container whose words describe a JSON
      chunk of `p` bytes ending the container. */
  lemma ReadJsonOnly(b: seq<Byte>, p: nat)
    requires |b| == JSON_DATA_OFFSET + p
    requires ReadU32LE(b, 0) == MAGIC && ReadU32LE(b, 4) == VERSION && ReadU32LE(b, 8) == |b|
    requires ReadU32LE(b, 12) == p && ReadU32LE(b, 16) == CHUNK_TYPE_JSON
    ensures ReadGlb(b) == Success(Chunks(b[JSON_DATA_OFFSET..], None))
  {
  }

  /** What the reader returns for a container whose words describe a JSON
      chunk of `p` bytes followed by a BIN chunk of `q` bytes ending it. */
  lemma ReadWithBin(b: seq<Byte>, json: seq<Byte>, bin: seq<Byte>)
    requires |b| == JSON_DATA_OFFSET + |json| + CHUNK_HEADER_LENGTH + |bin|
    requires ReadU32LE(b, 0) == MAGIC && ReadU32LE(b, 4) == VERSION && ReadU32LE(b, 8) == |b|
    requires ReadU32LE(b, 12) == |json| && ReadU32LE(b, 16) == CHUNK_TYPE_JSON
    requires ReadU32LE(b, JSON_DATA_OFFSET + |json|) == |bin|
    requires ReadU32LE(b, JSON_DATA_OFFSET + |json| + 4) == CHUNK_TYPE_BIN
    requires b[JSON_DATA_OFFSET..JSON_DATA_OFFSET + |json|] == json
    requires b[JSON_DATA_OFFSET + |json| + CHUNK_HEADER_LENGTH..] == bin
    ensures ReadGlb(b) == Success(Chunks(json, Some(bin)))
  {
  }

  /** Resources from which the encoder selects `bin` as its BIN buffer,
      whenever `bin` is one it could select (absent, or non-empty). */
  function ResourcesFor(bin: Option<seq<Byte>>): (rs: seq<seq<Byte>>)
    ensures (bin.Some? ==> |bin.value| > 0) ==> BinBuffer(rs) == bin
  {
    match bin
    case None => []
    case Some(data) => [data]
  }

  /** The converse: a container the reader accepts, whose chunk data the
      encoder could have produced (JSON data a whole number of words, BIN
      data non-empty and a whole number of words), is rebuilt byte for byte
      by encoding that data again. */
  lemma ReadThenEncode(b: seq<Byte>)
    requires ReadGlb(b).Success?
    requires |ReadGlb(b).value.jsonData| % 4 == 0
    requires ReadGlb(b).value.binData.Some? ==>
      |ReadGlb(b).value.binData.value| > 0 && |ReadGlb(b).value.binData.value| % 4 == 0
    ensures EncodeGlb(Document(ReadGlb(b).value.jsonData, ResourcesFor(ReadGlb(b).value.binData))) == b
  {
    var c := ReadGlb(b).value;
    assert ReadU32LE(b, 12) == |c.jsonData|;
    HeaderOfRead(b);
    JsonChunkOfRead(b, c.jsonData);
    match c.binData
    case None =>
      RebuildWithoutBin(b, c.jsonData);
    case Some(data) =>
      var jsonEnd := JSON_DATA_OFFSET + |c.jsonData|;
      BinChunkOfRead(b, jsonEnd, data);
      RebuildWithBin(b, c.jsonData, data);
  }

  lemma RebuildWithoutBin(b: seq<Byte>, json: seq<Byte>)
    requires |b| == JSON_DATA_OFFSET + |json| && |json| % 4 == 0
    requires b[..HEADER_LENGTH] == Header(|b|)
    requires b[HEADER_LENGTH..] == JsonChunk(json)
    ensures EncodeGlb(Document(json, [])) == b
  {
    assert b == b[..HEADER_LENGTH] + b[HEADER_LENGTH..];
  }

  lemma RebuildWithBin(b: seq<Byte>, json: seq<Byte>, bin: seq<Byte>)
    requires |json| % 4 == 0 && |bin| % 4 == 0 && |bin| > 0
    requires |b| == JSON_DATA_OFFSET + |json| + CHUNK_HEADER_LENGTH + |bin|
    requires b[..HEADER_LENGTH] == Header(|b|)
    requires b[HEADER_LENGTH..JSON_DATA_OFFSET + |json|] == JsonChunk(json)
    requires b[JSON_DATA_OFFSET + |json|..] == BinChunk(bin)
    ensures EncodeGlb(Document(json, [bin])) == b
  {
    var jsonEnd := JSON_DATA_OFFSET + |json|;
    var doc := Document(json, [bin]);
    assert BinBuffer(doc.resources) == Some(bin);
    EncodeGlbParts(doc);
    assert b == b[..HEADER_LENGTH] + b[HEADER_LENGTH..jsonEnd] + b[jsonEnd..];
  }

  /** A header that passed the reader's checks is the header the encoder writes. */
  lemma HeaderOfRead(b: seq<Byte>)
    requires HEADER_LENGTH <= |b| < TWO_TO_THE_32
    requires ReadU32LE(b, 0) == MAGIC && ReadU32LE(b, 4) == VERSION && ReadU32LE(b, 8) == |b|
    ensures b[..HEADER_LENGTH] == Header(|b|)
  {
    U32LEOfRead(b, 0);
    U32LEOfRead(b, 4);
    U32LEOfRead(b, 8);
    assert b[..HEADER_LENGTH] == b[0..4] + b[4..8] + b[8..12];
  }

  /** A JSON chunk that passed the reader's checks, with aligned data, is the
      chunk the encoder writes for that data. */
  lemma JsonChunkOfRead(b: seq<Byte>, data: seq<Byte>)
    requires JSON_DATA_OFFSET + |data| <= |b|
    requires |data| % 4 == 0
    requires ReadU32LE(b, 12) == |data| && ReadU32LE(b, 16) == CHUNK_TYPE_JSON
    requires b[JSON_DATA_OFFSET..JSON_DATA_OFFSET + |data|] == data
    ensures b[HEADER_LENGTH..JSON_DATA_OFFSET + |data|] == JsonChunk(data)
  {
    U32LEOfRead(b, 12);
    U32LEOfRead(b, 16);
    assert b[HEADER_LENGTH..JSON_DATA_OFFSET + |data|]
        == b[12..16] + b[16..20] + b[JSON_DATA_OFFSET..JSON_DATA_OFFSET + |data|];
  }

  /** A BIN chunk that passed the reader's checks, with aligned data, is the
      chunk the encoder writes for that data. */
  lemma BinChunkOfRead(b: seq<Byte>, off: nat, data: seq<Byte>)
    requires off + CHUNK_HEADER_LENGTH + |data| == |b|
    requires |data| % 4 == 0
    requires ReadU32LE(b, off) == |data| && ReadU32LE(b, off + 4) == CHUNK_TYPE_BIN
    requires b[off + CHUNK_HEADER_LENGTH..] == data
    ensures b[off..] == BinChunk(data)
  {
    U32LEOfRead(b, off);
    U32LEOfRead(b, off + 4);
    assert b[off..] == b[off..off + 4] + b[off + 4..off + 8] + b[off + CHUNK_HEADER_LENGTH..];
  }
}
