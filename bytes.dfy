/** Byte-level helpers shared by every decode pass of the image dumper:
    powers of two, little-endian assembly of multi-byte fields and their
    encoders, the C conversion of an unsigned 32-bit value to `int`, and the
    test of one bit of a bitmap byte. */
module Bytes {

  /** One byte of the image, as the C code's `unsigned char`. */
  newtype byte = x: int | 0 <= x < 0x100

  const TWO_16: nat := 0x1_0000
  const TWO_31: nat := 0x8000_0000
  const TWO_32: nat := 0x1_0000_0000

  function Pow2(n: nat): (r: nat)
    ensures r >= 1
  {
    if n == 0 then 1 else 2 * Pow2(n - 1)
  }

  lemma {:induction false} Pow2Monotone(a: nat, b: nat)
    requires a <= b
    ensures Pow2(a) <= Pow2(b)
  {
    if a < b {
      Pow2Monotone(a, b - 1);
    }
  }

  lemma {:induction false} Pow2Add(a: nat, b: nat)
    ensures Pow2(a + b) == Pow2(a) * Pow2(b)
  {
    if b > 0 {
      Pow2Add(a, b - 1);
    }
  }

  /** A power of two fits in one byte exactly for the eight bit positions. */
  lemma Pow2InByte(n: nat)
    ensures Pow2(n) <= 128 <==> n < 8
  {
    if n < 8 {
      Pow2Monotone(n, 7);
    } else {
      Pow2Monotone(8, n);
    }
  }

  /** `x << n` on a value that does not overflow. */
  function ShiftLeft(x: nat, n: nat): nat
  {
    x * Pow2(n)
  }

  /** `x >> n` on a non-negative value: `n` halvings, each dropping the
      lowest bit. */
  function ShiftRight(x: nat, n: nat): nat
  {
    if n == 0 then x else ShiftRight(x / 2, n - 1)
  }

  /** Shifting right by `n` is floor division by 2^n. */
  lemma {:induction false} ShiftRightIsDivision(x: nat, n: nat)
    ensures ShiftRight(x, n) * Pow2(n) <= x < (ShiftRight(x, n) + 1) * Pow2(n)
  {
    if n > 0 {
      var y, q := x / 2, ShiftRight(x, n);
      var p := Pow2(n - 1);
      ShiftRightIsDivision(y, n - 1);
      assert q * p <= y < (q + 1) * p;
      assert q * Pow2(n) == 2 * (q * p);
      assert (q + 1) * Pow2(n) == 2 * ((q + 1) * p);
    }
  }

  /** Shifting a power of two right by at most its exponent. */
  lemma {:induction false} ShiftRightOfPow2(a: nat, n: nat)
    requires n <= a
    ensures ShiftRight(Pow2(a), n) == Pow2(a - n)
  {
    if n > 0 {
      assert Pow2(a) / 2 == Pow2(a - 1);
      ShiftRightOfPow2(a - 1, n - 1);
    }
  }

  /** A value below 2^n shifts right by `n` to 0. */
  lemma {:induction false} ShiftRightSmall(x: nat, n: nat)
    requires x < Pow2(n)
    ensures ShiftRight(x, n) == 0
  {
    if n > 0 {
      ShiftRightSmall(x / 2, n - 1);
    }
  }

  /** The unsigned value of the two bytes at `off`, low byte first
      (`b[0] << 0 | b[1] << 8`). */
  function LE16(s: seq<byte>, off: nat): (r: nat)
    requires off + 2 <= |s|
    ensures r < TWO_16
  {
    s[off] as nat + 0x100 * s[off + 1] as nat
  }

  /** The unsigned value of the four bytes at `off`, low byte first
      (`b[0] << 0 | b[1] << 8 | b[2] << 16 | b[3] << 24`). */
  function LE32(s: seq<byte>, off: nat): (r: nat)
    requires off + 4 <= |s|
    ensures r < TWO_32
  {
    s[off] as nat + 0x100 * s[off + 1] as nat
      + 0x1_0000 * s[off + 2] as nat + 0x100_0000 * s[off + 3] as nat
  }

  /** The two bytes that hold `v`, low byte first. */
  function Enc16(v: nat): (s: seq<byte>)
    requires v < TWO_16
    ensures |s| == 2
  {
    [(v % 0x100) as byte, (v / 0x100) as byte]
  }

  /** The four bytes that hold `v`, low byte first. */
  function Enc32(v: nat): (s: seq<byte>)
    requires v < TWO_32
    ensures |s| == 4
  {
    [(v % 0x100) as byte, (v / 0x100 % 0x100) as byte,
     (v / 0x1_0000 % 0x100) as byte, (v / 0x100_0000) as byte]
  }

  lemma DecodeEncode16(v: nat)
    requires v < TWO_16
    ensures LE16(Enc16(v), 0) == v
  {
  }

  lemma DecodeEncode32(v: nat)
    requires v < TWO_32
    ensures LE32(Enc32(v), 0) == v
  {
  }

  lemma EncodeDecode16(s: seq<byte>, off: nat)
    requires off + 2 <= |s|
    ensures Enc16(LE16(s, off)) == s[off..off + 2]
  {
  }

  lemma EncodeDecode32(s: seq<byte>, off: nat)
    requires off + 4 <= |s|
    ensures Enc32(LE32(s, off)) == s[off..off + 4]
  {
    var b0, b1, b2, b3 := s[off] as nat, s[off + 1] as nat, s[off + 2] as nat, s[off + 3] as nat;
    var v := LE32(s, off);
    var hi := b1 + 0x100 * (b2 + 0x100 * b3);
    assert v == b0 + 0x100 * hi;
    DigitSplit(hi, b0);
    DigitSplit(b2 + 0x100 * b3, b1);
    assert v / 0x1_0000 == (v / 0x100) / 0x100;
    DigitSplit(b3, b2);
    assert v / 0x100_0000 == (v / 0x1_0000) / 0x100;
  }

  /** Dividing `low + 256 * high` by 256 separates the low digit from the rest. */
  lemma DigitSplit(high: nat, low: nat)
    requires low < 0x100
    ensures (low + 0x100 * high) % 0x100 == low
    ensures (low + 0x100 * high) / 0x100 == high
  {
  }

  /** The C conversion of an unsigned 32-bit value to a (two's complement)
      signed 32-bit `int`: the signed value congruent to `v` modulo 2^32. */
  function Signed32(v: nat): (r: int)
    requires v < TWO_32
    ensures -(TWO_31 as int) <= r < TWO_31
    ensures r % TWO_32 == v
    ensures r >= 0 <==> v < TWO_31
  {
    if v < TWO_31 then v else v - TWO_32
  }

  /** `b & mask != 0` for a single-bit mask `mask == 2^pos`: the bit is the
      remainder of `b` shifted right by `pos`. */
  predicate MaskTest(b: byte, mask: nat)
    requires mask >= 1
  {
    (b as nat / mask) % 2 == 1
  }

  /** Whether bit `pos` (0 = least significant) of `b` is set, i.e. whether
      `b & (1 << pos)` is non-zero. */
  predicate BitSet(b: byte, pos: nat)
    requires pos < 8
  {
    MaskTest(b, Pow2(pos))
  }

  // Arithmetic facts about multiplication and division used by the decoders.

  lemma MulAtLeast(k: nat, d: nat)
    requires k >= 1
    ensures k * d >= d
  {
    assert k * d == (k - 1) * d + d;
  }

  /** The quotient and remainder of a division are unique. */
  lemma DivUnique(x: nat, d: nat, q: nat, r: nat)
    requires d >= 1 && r < d && x == q * d + r
    ensures x / d == q && x % d == r
  {
    var q', r' := x / d, x % d;
    if q' < q {
      MulAtLeast(q - q', d);
    } else if q' > q {
      MulAtLeast(q' - q, d);
    }
  }

  lemma DivMonotone(x: nat, d1: nat, d2: nat)
    requires 1 <= d1 <= d2
    ensures x / d2 <= x / d1
  {
    var q1, q2 := x / d1, x / d2;
    assert q2 * d2 >= q2 * d1;
    if q2 > q1 {
      MulAtLeast(q2 - q1, d1);
    }
  }
}
