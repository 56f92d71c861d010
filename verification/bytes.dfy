/** Bytes and the little-endian 32-bit words the GLB container is built from.

    A `Uint32Array` element store applies ToUint32 to the value written,
    i.e. reduces it modulo 2^32; `BufferUtils.toView` then exposes the
    words' bytes in host order, modelled here as little-endian, the order
    the GLB format requires.
 */
module Bytes {

  type Byte = b: int | 0 <= b < 256

  const TWO_TO_THE_32: nat := 0x1_0000_0000

  /** The unsigned little-endian 32-bit word stored at `off` in `s`. */
  function ReadU32LE(s: seq<Byte>, off: nat): (n: nat)
    requires off + 4 <= |s|
    ensures n < TWO_TO_THE_32
  {
    s[off] as int + 0x100 * (s[off + 1] as int) + 0x1_0000 * (s[off + 2] as int) + 0x100_0000 * (s[off + 3] as int)
  }

  /** The four bytes a `Uint32Array` element holds after `n` is stored in it. */
  function U32LE(n: nat): (r: seq<Byte>)
    ensures |r| == 4
    ensures ReadU32LE(r, 0) == n % TWO_TO_THE_32
  {
    var w := n % TWO_TO_THE_32;
    var b0 := w % 0x100;
    var b1 := (w / 0x100) % 0x100;
    var b2 := (w / 0x1_0000) % 0x100;
    var b3 := w / 0x100_0000;
    ByteDigits(w);
    [b0, b1, b2, b3]
  }

  /** A 32-bit value is the sum of its four base-256 digits. */
  lemma ByteDigits(w: nat)
    requires w < TWO_TO_THE_32
    ensures w == w % 0x100 + 0x100 * ((w / 0x100) % 0x100)
               + 0x1_0000 * ((w / 0x1_0000) % 0x100) + 0x100_0000 * (w / 0x100_0000)
    ensures w / 0x100_0000 < 0x100
  {
    var q1 := w / 0x100;
    var q2 := q1 / 0x100;
    assert w / 0x1_0000 == q2;
    assert w / 0x100_0000 == q2 / 0x100;
  }

  /** A value below 2^32 is its own remainder. */
  lemma ModBelow(x: nat)
    requires x < TWO_TO_THE_32
    ensures x % TWO_TO_THE_32 == x
  {
  }

  /** Adding to a stored word and storing again keeps the sum modulo 2^32. */
  lemma ModAddMod(a: nat, b: nat)
    ensures (a % TWO_TO_THE_32 + b) % TWO_TO_THE_32 == (a + b) % TWO_TO_THE_32
  {
  }

  /** Storing a value and storing its remainder modulo 2^32 write the same bytes. */
  lemma U32LEModulus(n: nat)
    ensures U32LE(n % TWO_TO_THE_32) == U32LE(n)
  {
    ModBelow(n % TWO_TO_THE_32);
  }

  /** Two words with the same 32-bit value have the same bytes, and only those. */
  lemma U32LEInjective(m: nat, n: nat)
    ensures U32LE(m) == U32LE(n) <==> m % TWO_TO_THE_32 == n % TWO_TO_THE_32
  {
    if U32LE(m) == U32LE(n) {
      assert ReadU32LE(U32LE(m), 0) == ReadU32LE(U32LE(n), 0);
    }
  }

  /** Writing back the word read at `off` reproduces the four bytes there. */
  lemma U32LEOfRead(s: seq<Byte>, off: nat)
    requires off + 4 <= |s|
    ensures U32LE(ReadU32LE(s, off)) == s[off..off + 4]
  {
    var b0, b1, b2, b3 := s[off] as int, s[off + 1] as int, s[off + 2] as int, s[off + 3] as int;
    var w := ReadU32LE(s, off);
    assert w == b0 + 0x100 * (b1 + 0x100 * (b2 + 0x100 * b3));
    DigitsOf(w, b0, b1 + 0x100 * (b2 + 0x100 * b3));
    DigitsOf(w / 0x100, b1, b2 + 0x100 * b3);
    DigitsOf(w / 0x1_0000, b2, b3);
    assert w / 0x1_0000 == w / 0x100 / 0x100;
    assert w / 0x100_0000 == w / 0x1_0000 / 0x100;
    ModBelow(w);
  }

  /** Division by 256 splits off the lowest base-256 digit. */
  lemma DigitsOf(w: nat, lo: nat, hi: nat)
    requires lo < 0x100 && w == lo + 0x100 * hi
    ensures w % 0x100 == lo && w / 0x100 == hi
  {
  }

  /** A word read inside the left operand of a concatenation is unaffected by the right one. */
  lemma ReadU32LEPrefix(a: seq<Byte>, b: seq<Byte>, off: nat)
    requires off + 4 <= |a|
    ensures ReadU32LE(a + b, off) == ReadU32LE(a, off)
  {
  }

  /** A word read inside the right operand of a concatenation is shifted by the left one's length. */
  lemma ReadU32LESuffix(a: seq<Byte>, b: seq<Byte>, off: nat)
    requires off + 4 <= |b|
    ensures ReadU32LE(a + b, |a| + off) == ReadU32LE(b, off)
  {
  }
}
