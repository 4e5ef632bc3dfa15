/**
 * The block transformation at the heart of Mangle.java (`Getdval`), as pure functions over
 * bit blocks: 128 entries, each 0 or 1, bit `i` of byte `j` at index `8 * j + i`.
 * The block is two 64-bit halves; each of the 16 rounds XORs one half with a mask computed
 * from the other half, the key and the S-box table `s1`, then the halves trade roles; a
 * final swap exchanges them. This Feistel shape is what makes deciphering undo enciphering.
 */
module Lucifer {
  import opened Octets

  type Oct = x: int | 0 <= x < 8
  type Nib = x: int | 0 <= x < 16
  /** What every entry of the bit arrays `m`, `k` and `tr` holds. */
  type Bit = x: int | 0 <= x < 2

  /** Diffusion pattern `o`. */
  const O: seq<Oct> := [7, 6, 2, 1, 5, 0, 3, 4]
  /** Inverse of the fixed permutation, `pr`. */
  const PR: seq<Oct> := [2, 5, 4, 0, 3, 1, 7, 6]
  /** The S-box `s0`, never changed. */
  const S0: seq<Nib> := [12, 15, 7, 10, 14, 13, 11, 0, 2, 6, 3, 1, 9, 4, 5, 8]
  /** The S-box `s1` as the class is loaded; deciphering overwrites part of it. */
  const S1Initial: seq<Nib> := [7, 2, 14, 9, 3, 11, 0, 4, 12, 13, 1, 10, 6, 15, 8, 5]
  /** `s2`, whose entries deciphering copies into `s1[4..12]`. */
  const S2: seq<Nib> := [10, 1, 13, 12, 4, 0, 11, 3]

  predicate IsBlock(s: seq<Bit>) {
    |s| == 128
  }

  /** A table usable as `s1`: sixteen entries, each a nibble. */
  predicate IsTable(t: seq<int>) {
    |t| == 16 && forall i :: 0 <= i < 16 ==> 0 <= t[i] < 16
  }

  /** The low `n` bits of `v`, least significant first: what the `c & 0x1; c >>= 1` loops produce. */
  function BitsOf(v: int, n: nat): (r: seq<Bit>)
    requires v >= 0
    ensures |r| == n
  {
    if n == 0 then [] else [v % 2] + BitsOf(v / 2, n - 1)
  }

  /** The number whose bits, least significant first, are `bits`. */
  function ValueOf(bits: seq<Bit>): (v: int)
        ensures 0 <= v < Pow2(|bits|)
  {
    if |bits| == 0 then 0 else bits[0] + 2 * ValueOf(bits[1..])
  }

  lemma {:induction false} ValueOfBits(v: int, n: nat)
    requires 0 <= v < Pow2(n)
    ensures ValueOf(BitsOf(v, n)) == v
  {
    if n > 0 {
      ValueOfBits(v / 2, n - 1);
      assert BitsOf(v, n)[1..] == BitsOf(v / 2, n - 1);
    }
  }

  lemma {:induction false} BitsOfValue(bits: seq<Bit>)
        ensures BitsOf(ValueOf(bits), |bits|) == bits
  {
    if |bits| > 0 {
      BitsOfValue(bits[1..]);
      HalveSplit(bits[0], ValueOf(bits[1..]));
    }
  }

  /** The bits of a byte string, each byte least significant bit first. */
  function BlockBits(b: Bytes): (m: seq<Bit>)
    ensures |m| == 8 * |b|
  {
    seq(8 * |b|, p requires 0 <= p < 8 * |b| => BitsOf(b[p / 8] as int, Width)[p % 8])
  }

  /** The bytes of a bit block: what the `output = (output << 1) + m[...]` loop assembles. */
  function Pack(m: seq<Bit>): (b: Bytes)
    requires |m| % 8 == 0
    ensures |b| == |m| / 8
  {
    seq(|m| / 8, c requires 0 <= c < |m| / 8 => ByteOf(m[8 * c..8 * c + 8]) as byte)
  }

  /** The value of eight bits. */
  function ByteOf(bits: seq<Bit>): (v: int)
    requires |bits| == Width
    ensures 0 <= v < 256
  {
    assert Pow2(Width) == 256;
    ValueOf(bits)
  }

  lemma BlockBitsSlice(b: Bytes, c: int)
    requires 0 <= c < |b|
    ensures BlockBits(b)[8 * c..8 * c + 8] == BitsOf(b[c] as int, Width)
  {
  }

  /** Packing the bits of a byte string gives the bytes back ... */
  lemma PackBlockBits(b: Bytes)
    ensures Pack(BlockBits(b)) == b
  {
    forall c | 0 <= c < |b| ensures Pack(BlockBits(b))[c] == b[c] {
      BlockBitsSlice(b, c);
      assert Pow2(Width) == 256;
      ValueOfBits(b[c] as int, Width);
    }
  }

  /** ... and unpacking packed bits gives the bits back. */
  lemma BlockBitsPack(m: seq<Bit>)
    requires |m| % 8 == 0
    ensures BlockBits(Pack(m)) == m
  {
    var b := Pack(m);
    forall p | 0 <= p < |m| ensures BlockBits(b)[p] == m[p] {
      var c := p / 8;
      var bits := m[8 * c..8 * c + 8];
      BitsOfValue(bits);
      assert b[c] as int == ValueOf(bits);
      assert BlockBits(b)[p] == BitsOf(ValueOf(bits), Width)[p % 8];
      assert bits[p % 8] == m[p];
    }
  }

  /** Half `h` of a block: entries `64h` to `64h + 63`. */
  function Half(m: seq<Bit>, h: int): (r: seq<Bit>)
    requires |m| == 128 && 0 <= h < 2
    ensures |r| == 64
  {
    m[64 * h..64 * h + 64]
  }

  /** The nibble of byte `b` of a half made of its bits 7..4 (bit 7 most significant). */
  function Lo(r: seq<Bit>, b: int): (n: int)
    requires |r| == 64 && 0 <= b < 8
    ensures 0 <= n < 16
  {
    r[8 * b + 7] as int * 8 + r[8 * b + 6] as int * 4 + r[8 * b + 5] as int * 2 + r[8 * b + 4] as int
  }

  /** The nibble of byte `b` of a half made of its bits 3..0 (bit 3 most significant). */
  function Hi(r: seq<Bit>, b: int): (n: int)
    requires |r| == 64 && 0 <= b < 8
    ensures 0 <= n < 16
  {
    r[8 * b + 3] as int * 8 + r[8 * b + 2] as int * 4 + r[8 * b + 1] as int * 2 + r[8 * b + 0] as int
  }

  /** `x * (1 - kb) + y * kb`, the arithmetic `Getdval` uses, picks `x` or `y` by a bit. */
  lemma Select(x: int, y: int, kb: int)
    requires 0 <= kb < 2
    ensures x * (1 - kb) + y * kb == if kb == 0 then x else y
  {
    if kb == 0 {
      assert x * (1 - kb) + y * kb == x;
    } else {
      assert x * (1 - kb) + y * kb == y;
    }
  }

  /**
   * The S-box output `v` for byte `b` of the unchanging half `r`, in a round whose key byte
   * is `t0`: key bit `b` of that byte chooses which nibble goes through `s0` and which through `s1`.
   */
  function Confusion(r: seq<Bit>, k: seq<Bit>, t: seq<int>, t0: int, b: int): (v: int)
    requires |r| == 64 && IsBlock(k) && IsTable(t)
    requires 0 <= t0 < 16 && 0 <= b < 8
    ensures 0 <= v < 256
  {
    var lo, hi := Lo(r, b), Hi(r, b);
    if k[8 * t0 + b] == 0 then S0[lo] + 16 * t[hi] else S0[hi] + 16 * t[lo]
  }

  /** The step `b` of a round that writes bit `bit` of byte `idx` of the changing half. */
  function StepOf(idx: int, bit: Oct): (b: int)
    ensures 0 <= b < 8
  {
    (idx - O[bit]) % 8
  }

  lemma StepOfIndex(bit: Oct, b: int)
    requires 0 <= b < 8
    ensures StepOf((O[bit] + b) % 8, bit) == b
  {
  }

  /**
   * What bit `q` of the changing half is XORed with in a round: bit `bit` of byte `idx`
   * is written at step `b = StepOf(idx, bit)`, and flips with bit `pr[bit]` of key byte
   * `t0 + b` and with bit `pr[bit]` of the S-box output of step `b`, which reads the
   * unchanging half `r`.
   */
  function Mask(r: seq<Bit>, k: seq<Bit>, t: seq<int>, t0: int, q: int): (x: int)
    requires |r| == 64 && IsBlock(k) && IsTable(t) && 0 <= t0 < 16 && 0 <= q < 64
    ensures 0 <= x <= 2
  {
    var bit: Oct := q % 8;
    var b := StepOf(q / 8, bit);
    k[8 * ((t0 + b) % 16) + PR[bit]] as int + BitsOf(Confusion(r, k, t, t0, b), Width)[PR[bit]]
  }

  /** The masks of all 64 bits of the changing half, for unchanging half `r`. */
  function Masks(r: seq<Bit>, k: seq<Bit>, t: seq<int>, t0: int): (x: seq<int>)
    requires |r| == 64 && IsBlock(k) && IsTable(t) && 0 <= t0 < 16
    ensures |x| == 64
  {
    seq(64, q requires 0 <= q < 64 => Mask(r, k, t, t0, q))
  }

  /** Half `h0` of `m` with each bit XORed with its mask in `x`; the other half as it was. */
  function Flip(m: seq<Bit>, h0: int, x: seq<int>): (r: seq<Bit>)
    requires |m| == 128 && 0 <= h0 < 2 && |x| == 64
    ensures |r| == 128
  {
    seq(128, p requires 0 <= p < 128 => if p / 64 == h0 then (m[p] + x[p % 64]) % 2 else m[p])
  }

  lemma FlipAt(m: seq<Bit>, h0: int, x: seq<int>, p: int)
    requires |m| == 128 && 0 <= h0 < 2 && |x| == 64 && 0 <= p < 128
    ensures Flip(m, h0, x)[p] == if p / 64 == h0 then (m[p] + x[p % 64]) % 2 else m[p]
  {
  }

  /** One round: half `h0` is XORed with a mask that only the other half, the key and the table decide. */
  function Round(m: seq<Bit>, k: seq<Bit>, t: seq<int>, h0: int, t0: int): (r: seq<Bit>)
    requires IsBlock(m) && IsBlock(k) && IsTable(t) && 0 <= h0 < 2 && 0 <= t0 < 16
    ensures IsBlock(r)
  {
    Flip(m, h0, Masks(Half(m, 1 - h0), k, t, t0))
  }

  lemma RoundAt(m: seq<Bit>, k: seq<Bit>, t: seq<int>, h0: int, t0: int, p: int)
    requires IsBlock(m) && IsBlock(k) && IsTable(t) && 0 <= h0 < 2 && 0 <= t0 < 16 && 0 <= p < 128
    ensures Round(m, k, t, h0, t0)[p] ==
      if p / 64 == h0 then (m[p] + Mask(Half(m, 1 - h0), k, t, t0, p % 64)) % 2 else m[p]
  {
    FlipAt(m, h0, Masks(Half(m, 1 - h0), k, t, t0), p);
  }

  /** The key byte a round starts from: `7r` when enciphering, `9 + 9r` when deciphering (mod 16). */
  function RoundKey(decipher: bool, r: int): (t0: int)
    ensures 0 <= t0 < 16
  {
    if decipher then (9 + 9 * r) % 16 else 7 * r % 16
  }

  lemma ModShift(a: int, q: int)
    ensures (a + 16 * q) % 16 == a % 16
  {
  }

  /** Deciphering walks the key schedule of enciphering backwards, and the other way round. */
  lemma KeysMirror(decipher: bool, r: int)
    requires 0 <= r < 16
    ensures RoundKey(decipher, r) == RoundKey(!decipher, 15 - r)
  {
    ModShift(7 * (15 - r), r - 6);
    assert 9 + 9 * r == 7 * (15 - r) + 16 * (r - 6);
  }

  /** The number of rounds `Getdval` runs. */
  const RoundCount: nat := 16

  /** The first `n` rounds; round `r` changes half `r % 2`. */
  function Rounds(m: seq<Bit>, k: seq<Bit>, t: seq<int>, decipher: bool, n: nat): (r: seq<Bit>)
    requires IsBlock(m) && IsBlock(k) && IsTable(t) && n <= 16
    ensures IsBlock(r)
  {
    if n == 0 then m
    else Round(Rounds(m, k, t, decipher, n - 1), k, t, (n - 1) % 2, RoundKey(decipher, n - 1))
  }

  /** The final swap: the two halves trade places. */
  function Swap(m: seq<Bit>): (r: seq<Bit>)
    requires |m| == 128
    ensures |r| == 128
  {
    m[64..] + m[..64]
  }

  lemma SwapAt(m: seq<Bit>, p: int)
    requires |m| == 128 && 0 <= p < 128
    ensures Swap(m)[p] == m[if p < 64 then p + 64 else p - 64]
  {
  }

  /** The swap puts each half where the other was. */
  lemma SwapHalf(m: seq<Bit>, h: int)
    requires |m| == 128 && 0 <= h < 2
    ensures Half(Swap(m), 1 - h) == Half(m, h)
  {
  }

  lemma SwapSwap(m: seq<Bit>)
    requires |m| == 128
    ensures Swap(Swap(m)) == m
  {
    assert Swap(Swap(m)) == m[..64] + m[64..];
  }

  /** What `Getdval` does to the data bits `m`, for key bits `k` and table `t`. */
  function Transform(m: seq<Bit>, k: seq<Bit>, t: seq<int>, decipher: bool): (r: seq<Bit>)
    requires IsBlock(m) && IsBlock(k) && IsTable(t)
    ensures IsBlock(r)
  {
    Swap(Rounds(m, k, t, decipher, RoundCount))
  }

  /** Flipping one half leaves the other alone. */
  lemma FlipKeepsOtherHalf(m: seq<Bit>, h0: int, x: seq<int>)
    requires |m| == 128 && 0 <= h0 < 2 && |x| == 64
    ensures Half(Flip(m, h0, x), 1 - h0) == Half(m, 1 - h0)
  {
    var r := Flip(m, h0, x);
    forall p | 0 <= p < 128 && p / 64 == 1 - h0 ensures r[p] == m[p] {
      FlipAt(m, h0, x, p);
    }
    assert Half(r, 1 - h0) == Half(m, 1 - h0);
  }

  /** A round leaves the other half alone. */
  lemma RoundKeepsOtherHalf(m: seq<Bit>, k: seq<Bit>, t: seq<int>, h0: int, t0: int)
    requires IsBlock(m) && IsBlock(k) && IsTable(t) && 0 <= h0 < 2 && 0 <= t0 < 16
    ensures Half(Round(m, k, t, h0, t0), 1 - h0) == Half(m, 1 - h0)
  {
    FlipKeepsOtherHalf(m, h0, Masks(Half(m, 1 - h0), k, t, t0));
  }

  /** A bit XORed twice with the same mask is unchanged. */
  lemma FlipTwice(a: int, x: int)
    requires 0 <= a < 2
    ensures ((a + x) % 2 + x) % 2 == a
  {
  }

  /** Flipping the same half with the same masks twice changes nothing. */
  lemma FlipInvolution(m: seq<Bit>, h0: int, x: seq<int>)
    requires |m| == 128 && 0 <= h0 < 2 && |x| == 64
    ensures Flip(Flip(m, h0, x), h0, x) == m
  {
    var m1 := Flip(m, h0, x);
    forall p | 0 <= p < 128 ensures Flip(m1, h0, x)[p] == m[p] {
      FlipAt(m, h0, x, p);
      FlipAt(m1, h0, x, p);
      if p / 64 == h0 {
        FlipTwice(m[p], x[p % 64]);
      }
    }
  }

  /** The same round twice is no round at all: the mask is the same both times and XOR cancels. */
  lemma RoundInvolution(m: seq<Bit>, k: seq<Bit>, t: seq<int>, h0: int, t0: int)
    requires IsBlock(m) && IsBlock(k) && IsTable(t) && 0 <= h0 < 2 && 0 <= t0 < 16
    ensures Round(Round(m, k, t, h0, t0), k, t, h0, t0) == m
  {
    var x := Masks(Half(m, 1 - h0), k, t, t0);
    FlipKeepsOtherHalf(m, h0, x);
    FlipInvolution(m, h0, x);
  }

  /** The position `p` moves to under the swap lies in the other half, at the same offset. */
  lemma SwapIndex(p: int, h0: int)
    requires 0 <= p < 128 && 0 <= h0 < 2
    ensures var q := if p < 64 then p + 64 else p - 64;
      q % 64 == p % 64 && (q / 64 == 1 - h0 <==> p / 64 == h0)
  {
  }

  /** Flipping a half of the swapped block is flipping the other half before the swap. */
  lemma FlipSwap(m: seq<Bit>, h0: int, x: seq<int>)
    requires |m| == 128 && 0 <= h0 < 2 && |x| == 64
    ensures Flip(Swap(m), h0, x) == Swap(Flip(m, 1 - h0, x))
  {
    forall p | 0 <= p < 128 ensures Flip(Swap(m), h0, x)[p] == Swap(Flip(m, 1 - h0, x))[p] {
      var q := if p < 64 then p + 64 else p - 64;
      SwapIndex(p, h0);
      SwapAt(Flip(m, 1 - h0, x), p);
      SwapAt(m, p);
      FlipAt(Swap(m), h0, x, p);
      FlipAt(m, 1 - h0, x, q);
    }
  }

  /** Rounds commute with the swap, provided the changing half is swapped too. */
  lemma RoundSwap(m: seq<Bit>, k: seq<Bit>, t: seq<int>, h0: int, t0: int)
    requires IsBlock(m) && IsBlock(k) && IsTable(t) && 0 <= h0 < 2 && 0 <= t0 < 16
    ensures Round(Swap(m), k, t, h0, t0) == Swap(Round(m, k, t, 1 - h0, t0))
  {
    SwapHalf(m, h0);
    FlipSwap(m, h0, Masks(Half(m, h0), k, t, t0));
  }

  /** A round, the swap, and the same round on the other half: just the swap. */
  lemma SwapUndo(y: seq<Bit>, k: seq<Bit>, t: seq<int>, h: int, t0: int)
    requires IsBlock(y) && IsBlock(k) && IsTable(t) && 0 <= h < 2 && 0 <= t0 < 16
    ensures Round(Swap(Round(y, k, t, h, t0)), k, t, 1 - h, t0) == Swap(y)
  {
    RoundSwap(Round(y, k, t, h, t0), k, t, 1 - h, t0);
    RoundInvolution(y, k, t, h, t0);
  }

  lemma OtherParity(n: int)
    requires 0 < n <= 16
    ensures 1 - (n - 1) % 2 == (16 - n) % 2
  {
  }

  /** Round `j` comes after the first `j` rounds. */
  lemma RoundsNext(m: seq<Bit>, k: seq<Bit>, t: seq<int>, decipher: bool, j: nat)
    requires IsBlock(m) && IsBlock(k) && IsTable(t) && j < 16
    ensures Rounds(m, k, t, decipher, j + 1) == Round(Rounds(m, k, t, decipher, j), k, t, j % 2, RoundKey(decipher, j))
  {
  }

  /**
   * Running `n` rounds the other way over the swapped result of all 16 rounds peels off the
   * last `n` of them.
   */
  lemma {:induction false} Unwind(x: seq<Bit>, k: seq<Bit>, t: seq<int>, decipher: bool, n: nat)
    requires IsBlock(x) && IsBlock(k) && IsTable(t) && n <= 16
    ensures Rounds(Swap(Rounds(x, k, t, decipher, RoundCount)), k, t, !decipher, n) == Swap(Rounds(x, k, t, decipher, 16 - n))
  {
    if n > 0 {
      Unwind(x, k, t, decipher, n - 1);
      var y := Rounds(x, k, t, decipher, 16 - n);
      KeysMirror(!decipher, n - 1);
      OtherParity(n);
      RoundsNext(x, k, t, decipher, 16 - n);
      RoundsNext(Swap(Rounds(x, k, t, decipher, RoundCount)), k, t, !decipher, n - 1);
      SwapUndo(y, k, t, (16 - n) % 2, RoundKey(decipher, 16 - n));
    }
  }

  /** Deciphering undoes enciphering, and enciphering undoes deciphering, under the same key and table. */
  lemma TransformInverts(x: seq<Bit>, k: seq<Bit>, t: seq<int>, decipher: bool)
    requires IsBlock(x) && IsBlock(k) && IsTable(t)
    ensures Transform(Transform(x, k, t, decipher), k, t, !decipher) == x
  {
    Unwind(x, k, t, decipher, RoundCount);
    SwapSwap(x);
  }

  /** `Arrays.copyOf(b, n)`: the first `n` bytes, padded with zeros when `b` is shorter. */
  function CopyOf(b: Bytes, n: nat): (r: Bytes)
    ensures |r| == n
    ensures forall i :: 0 <= i < n ==> r[i] == if i < |b| then b[i] else 0
  {
    if |b| >= n then b[..n] else b + seq(n - |b|, _ => 0)
  }

  /** One 16-byte block through `Getdval`, with the key cut or padded to 16 bytes. */
  function Cipher(block: Bytes, key: Bytes, t: seq<int>, decipher: bool): (r: Bytes)
    requires |block| == 16 && IsTable(t)
    ensures |r| == 16
  {
    Pack(Transform(BlockBits(block), BlockBits(CopyOf(key, 16)), t, decipher))
  }

  /** The block cipher is invertible: deciphering an enciphered block under the same key and table gives it back. */
  lemma CipherInverts(block: Bytes, key: Bytes, t: seq<int>, decipher: bool)
    requires |block| == 16 && IsTable(t)
    ensures Cipher(Cipher(block, key, t, decipher), key, t, !decipher) == block
  {
    var k := BlockBits(CopyOf(key, 16));
    var x := BlockBits(block);
    var y := Transform(x, k, t, decipher);
    BlockBitsPack(y);
    TransformInverts(x, k, t, decipher);
    PackBlockBits(block);
  }

  /** Only the first 16 key bytes matter, and a short key acts as if padded with zeros. */
  lemma KeyPrefixOnly(block: Bytes, key: Bytes, key': Bytes, t: seq<int>, decipher: bool)
    requires |block| == 16 && IsTable(t)
    requires forall i :: 0 <= i < 16 ==> (if i < |key| then key[i] else 0) == (if i < |key'| then key'[i] else 0)
    ensures Cipher(block, key, t, decipher) == Cipher(block, key', t, decipher)
  {
    assert CopyOf(key, 16) == CopyOf(key', 16);
  }
}
