/**
 * Bytes as the protocol moves them: unsigned octets, with the bitwise XOR the checksum and
 * the cipher use, and the four-byte little-endian integers of the frame format.
 */
module Octets {

  newtype byte = x: int | 0 <= x < 256
  type Bytes = seq<byte>

  function Pow2(n: nat): (p: nat)
    ensures p >= 1
  {
    if n == 0 then 1 else 2 * Pow2(n - 1)
  }

  /** The XOR of two bits. */
  function XorBit(x: nat, y: nat): nat {
    if x == y then 0 else 1
  }

  /** The XOR of the low `n` bits of `a` and `b`, computed bit by bit. */
  function XorBits(a: nat, b: nat, n: nat): (r: nat)
    ensures r < Pow2(n)
  {
    if n == 0 then 0 else XorBit(a % 2, b % 2) + 2 * XorBits(a / 2, b / 2, n - 1)
  }

  const Width: nat := 8

  /** Java's `^` on two bytes. */
  function Xor(a: byte, b: byte): byte {
    XorBits(a as nat, b as nat, Width) as byte
  }

  /** The low bit and the rest of `lo + 2 * hi`. */
  lemma HalveSplit(lo: nat, hi: nat)
    requires lo < 2
    ensures (lo + 2 * hi) % 2 == lo && (lo + 2 * hi) / 2 == hi
  {
  }

  /** The lowest bit of a XOR and the XOR of the remaining bits. */
  lemma XorBitsStep(a: nat, b: nat, n: nat)
    requires n > 0
    ensures XorBits(a, b, n) % 2 == XorBit(a % 2, b % 2)
    ensures XorBits(a, b, n) / 2 == XorBits(a / 2, b / 2, n - 1)
  {
    HalveSplit(XorBit(a % 2, b % 2), XorBits(a / 2, b / 2, n - 1));
  }

  lemma {:induction false} XorBitsCommutes(a: nat, b: nat, n: nat)
    ensures XorBits(a, b, n) == XorBits(b, a, n)
  {
    if n > 0 { XorBitsCommutes(a / 2, b / 2, n - 1); }
  }

  lemma {:induction false} XorBitsCancels(a: nat, b: nat, n: nat)
    requires a < Pow2(n)
    ensures XorBits(XorBits(a, b, n), b, n) == a
  {
    if n > 0 {
      var x := XorBits(a, b, n);
      XorBitsStep(a, b, n);
      XorBitsCancels(a / 2, b / 2, n - 1);
      assert XorBit(x % 2, b % 2) == a % 2;
      assert XorBits(x, b, n) == XorBit(x % 2, b % 2) + 2 * XorBits(x / 2, b / 2, n - 1);
    }
  }

  lemma {:induction false} XorBitsWithZero(a: nat, n: nat)
    requires a < Pow2(n)
    ensures XorBits(a, 0, n) == a
  {
    if n > 0 { XorBitsWithZero(a / 2, n - 1); }
  }

  lemma {:induction false} XorBitsWithSelf(a: nat, n: nat)
    ensures XorBits(a, a, n) == 0
  {
    if n > 0 { XorBitsWithSelf(a / 2, n - 1); }
  }

  lemma {:induction false} XorBitsAssociates(a: nat, b: nat, c: nat, n: nat)
    ensures XorBits(XorBits(a, b, n), c, n) == XorBits(a, XorBits(b, c, n), n)
  {
    if n > 0 {
      var ab, bc := XorBits(a, b, n), XorBits(b, c, n);
      XorBitsStep(a, b, n);
      XorBitsStep(b, c, n);
      XorBitsAssociates(a / 2, b / 2, c / 2, n - 1);
      assert XorBit(XorBit(a % 2, b % 2), c % 2) == XorBit(a % 2, XorBit(b % 2, c % 2));
    }
  }

  lemma XorAssociates(a: byte, b: byte, c: byte)
    ensures Xor(Xor(a, b), c) == Xor(a, Xor(b, c))
  {
    XorBitsAssociates(a as nat, b as nat, c as nat, Width);
  }

  /** XOR is commutative, has zero as identity, and undoes itself. */
  lemma XorLaws(a: byte, b: byte)
    ensures Xor(a, b) == Xor(b, a)
    ensures Xor(Xor(a, b), b) == a
    ensures Xor(a, 0) == a && Xor(a, a) == 0
  {
    XorBitsCommutes(a as nat, b as nat, Width);
    XorBitsCancels(a as nat, b as nat, Width);
    XorBitsWithZero(a as nat, Width);
    XorBitsWithSelf(a as nat, Width);
  }

  lemma XorInjective(a: byte, x: byte, y: byte)
    requires Xor(a, x) == Xor(a, y) || Xor(x, a) == Xor(y, a)
    ensures x == y
  {
    XorLaws(x, a);
    XorLaws(y, a);
  }

  /** The OR of two bits. */
  function OrBit(x: nat, y: nat): nat {
    if x == 0 && y == 0 then 0 else 1
  }

  /** The OR of the low `n` bits of `a` and `b`, computed bit by bit. */
  function OrBits(a: nat, b: nat, n: nat): (r: nat)
    ensures r < Pow2(n)
  {
    if n == 0 then 0 else OrBit(a % 2, b % 2) + 2 * OrBits(a / 2, b / 2, n - 1)
  }

  /** Java's `|` on two bytes. */
  function Or(a: byte, b: byte): byte {
    OrBits(a as nat, b as nat, Width) as byte
  }

  lemma {:induction false} OrBitsCommutes(a: nat, b: nat, n: nat)
    ensures OrBits(a, b, n) == OrBits(b, a, n)
  {
    if n > 0 { OrBitsCommutes(a / 2, b / 2, n - 1); }
  }

  lemma {:induction false} OrBitsWithZero(a: nat, n: nat)
    requires a < Pow2(n)
    ensures OrBits(a, 0, n) == a
  {
    if n > 0 { OrBitsWithZero(a / 2, n - 1); }
  }

  /** OR of a number whose low `k` bits are clear with a number below `2^k` is their sum. */
  lemma {:induction false} OrBitsDisjoint(hi: nat, lo: nat, k: nat, n: nat)
    requires k <= n && lo < Pow2(k) && hi < Pow2(n - k)
    ensures OrBits(Pow2(k) * hi, lo, n) == Pow2(k) * hi + lo
  {
    if k == 0 {
      OrBitsWithZero(hi, n);
    } else {
      var p := Pow2(k - 1);
      assert Pow2(k) * hi == 2 * (p * hi);
      HalveSplit(0, p * hi);
      OrBitsDisjoint(hi, lo / 2, k - 1, n - 1);
    }
  }

  /** Setting the low nibble of a byte whose low nibble is clear, and the high nibble of zero. */
  lemma OrNibbles(hi: nat, lo: nat)
    requires hi < 16 && lo < 16
    ensures Or((16 * hi) as byte, lo as byte) == (16 * hi + lo) as byte
    ensures Or(0, (16 * hi) as byte) == (16 * hi) as byte
  {
    assert Pow2(4) == 16 && Pow2(8 - 4) == 16;
    OrBitsDisjoint(hi, lo, 4, Width);
    OrBitsDisjoint(hi, 0, 4, Width);
    OrBitsCommutes(0, 16 * hi, Width);
  }

  /** The four bytes `write32` emits for `n`: its low 32 bits, least significant first. */
  function Le32(n: nat): (b: Bytes)
    ensures |b| == 4
  {
    var n1 := n / 256;
    var n2 := n1 / 256;
    var n3 := n2 / 256;
    [(n % 256) as byte, (n1 % 256) as byte, (n2 % 256) as byte, (n3 % 256) as byte]
  }

  /** The number `read32` assembles from four bytes, read as unsigned. */
  function Le32Value(b: Bytes): (n: nat)
    requires |b| == 4
    ensures n < 0x1_0000_0000
  {
    b[0] as nat + 256 * (b[1] as nat + 256 * (b[2] as nat + 256 * b[3] as nat))
  }

  /** Reading back what `write32` wrote gives the number back ... */
  lemma Le32RoundTrip(n: nat)
    requires n < 0x1_0000_0000
    ensures Le32Value(Le32(n)) == n
  {
    var n1 := n / 256;
    var n2 := n1 / 256;
    var n3 := n2 / 256;
    assert n3 < 256;
    assert n2 == n2 % 256 + 256 * n3;
    assert n1 == n1 % 256 + 256 * n2;
    assert n == n % 256 + 256 * n1;
  }

  /** ... and writing what `read32` read gives the bytes back. */
  lemma Le32Bytes(b: Bytes)
    requires |b| == 4
    ensures Le32(Le32Value(b)) == b
  {
    var x0, x1, x2, x3 := b[0] as nat, b[1] as nat, b[2] as nat, b[3] as nat;
    var n2 := x2 + 256 * x3;
    var n1 := x1 + 256 * n2;
    var n := x0 + 256 * n1;
    assert n == Le32Value(b);
    DigitSplit(x0, n1);
    DigitSplit(x1, n2);
    DigitSplit(x2, x3);
    assert x3 % 256 == x3;
  }

  /** The low byte and the rest of `lo + 256 * hi`. */
  lemma DigitSplit(lo: nat, hi: nat)
    requires lo < 256
    ensures (lo + 256 * hi) % 256 == lo && (lo + 256 * hi) / 256 == hi
  {
  }
}
