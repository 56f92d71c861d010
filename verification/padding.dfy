/** Pad-to-4 alignment, as `BufferUtils.pad` performs it for both GLB chunks:
    the buffer is extended to the next multiple of four bytes, every added
    byte being the given fill byte; an already aligned buffer is returned
    as it is.
 */
module Padding {
  import opened Bytes

  /** `Math.ceil(n / 4) * 4`: the length a buffer of `n` bytes has once padded. */
  function PaddedLength(n: nat): (p: nat)
    ensures p % 4 == 0
    ensures n <= p <= n + 3
  {
    (n + 3) / 4 * 4
  }

  /** No multiple of four at or above `n` is below `PaddedLength(n)`. */
  lemma PaddedLengthIsLeast(n: nat, m: nat)
    requires m % 4 == 0 && n <= m
    ensures PaddedLength(n) <= m
  {
  }

  /** An aligned length is left as it is, and only an aligned length is. */
  lemma PaddedLengthFixpoint(n: nat)
    ensures PaddedLength(n) == n <==> n % 4 == 0
  {
  }

  /** `data` followed by fill bytes up to the next multiple of four. */
  function Pad(data: seq<Byte>, fill: Byte): (r: seq<Byte>)
    ensures |r| == PaddedLength(|data|)
    ensures r[..|data|] == data
    ensures forall i :: |data| <= i < |r| ==> r[i] == fill
    ensures |data| % 4 == 0 ==> r == data
  {
    data + seq(PaddedLength(|data|) - |data|, _ => fill)
  }

  /** Padding as a buffer operation: an aligned buffer is returned as it is;
      otherwise the bytes are copied and the fill byte is written at each
      position from the old end up to the padded length. */
  method PadBuffer(src: seq<Byte>, fill: Byte) returns (dst: seq<Byte>)
    ensures |dst| == PaddedLength(|src|) && |dst| % 4 == 0
    ensures dst[..|src|] == src
    ensures forall i :: |src| <= i < |dst| ==> dst[i] == fill
    ensures dst == Pad(src, fill)
  {
    var paddedLength := PaddedLength(|src|);
    if paddedLength == |src| {
      return src;
    }
    dst := src;
    var i := |src|;
    while i < paddedLength
      invariant |src| <= i <= paddedLength
      invariant |dst| == i
      invariant dst[..|src|] == src
      invariant forall k :: |src| <= k < i ==> dst[k] == fill
    {
      dst := dst + [fill];
      i := i + 1;
    }
    PadUnique(src, fill, dst);
  }

  /** The contract of `Pad` determines its result: any buffer that keeps
      `data` as its prefix, has the padded length and holds only fill bytes
      after `data` is `Pad(data, fill)`. */
  lemma PadUnique(data: seq<Byte>, fill: Byte, r: seq<Byte>)
    requires |r| == PaddedLength(|data|)
    requires r[..|data|] == data
    requires forall i :: |data| <= i < |r| ==> r[i] == fill
    ensures r == Pad(data, fill)
  {
    var p := Pad(data, fill);
    forall i | 0 <= i < |r|
      ensures r[i] == p[i]
    {
      if i < |data| {
        assert r[i] == r[..|data|][i] && p[i] == p[..|data|][i];
      }
    }
  }

  /** Wherever `Pad(data, fill)` is found inside a larger buffer, `data` is
      found at the same place, followed by fill bytes only. */
  lemma PadAt(s: seq<Byte>, off: nat, data: seq<Byte>, fill: Byte)
    requires off + PaddedLength(|data|) <= |s|
    requires s[off..off + PaddedLength(|data|)] == Pad(data, fill)
    ensures s[off..off + |data|] == data
    ensures forall i :: off + |data| <= i < off + PaddedLength(|data|) ==> s[i] == fill
  {
    var r := Pad(data, fill);
    assert s[off..off + |data|] == r[..|data|];
    forall i | off + |data| <= i < off + PaddedLength(|data|)
      ensures s[i] == fill
    {
      assert s[i] == r[i - off];
    }
  }

  /** Padding an already padded buffer changes nothing. */
  lemma PadIdempotent(data: seq<Byte>, fill: Byte)
    ensures Pad(Pad(data, fill), fill) == Pad(data, fill)
  {
  }
}
