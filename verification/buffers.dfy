/** Concatenation of byte buffers, as `BufferUtils.concat` assembles the
    chunks and the container from their parts. */
module Buffers {
  import opened Bytes

  /** The parts one after another, in order. */
  function Flatten(parts: seq<seq<Byte>>): (out: seq<Byte>)
  {
    if |parts| == 0 then [] else Flatten(parts[..|parts| - 1]) + parts[|parts| - 1]
  }

  /** Concatenating two parts is plain sequence concatenation. */
  lemma {:induction false} FlattenPair(a: seq<Byte>, b: seq<Byte>)
    ensures Flatten([a, b]) == a + b
  {
    assert [a, b][..1] == [a];
    assert [a][..0] == [];
    assert Flatten([a]) == a;
  }

  /** Concatenating three parts is plain sequence concatenation. */
  lemma {:induction false} FlattenTriple(a: seq<Byte>, b: seq<Byte>, c: seq<Byte>)
    ensures Flatten([a, b, c]) == a + b + c
  {
    assert [a, b, c][..2] == [a, b];
    FlattenPair(a, b);
  }

  /** `BufferUtils.concat`: each part is copied in turn after the previous
      ones; the result is the parts laid end to end, in order. */
  method Concat(parts: seq<seq<Byte>>) returns (out: seq<Byte>)
    ensures out == Flatten(parts)
  {
    out := [];
    var i := 0;
    while i < |parts|
      invariant 0 <= i <= |parts|
      invariant out == Flatten(parts[..i])
    {
      assert parts[..i + 1][..i] == parts[..i];
      out := out + parts[i];
      i := i + 1;
    }
    assert parts[..|parts|] == parts;
  }
}
