/**
 * Mangle.java: the password mangling of the Perforce protocol. `DoIt` turns at most one
 * 16-byte block into bits, runs the Lucifer rounds of `Getdval` over it and turns the bits
 * back into bytes (hex text when enciphering or when handling a digest). The S-box `s1` is a
 * static array shared by every call: deciphering overwrites `s1[4..12]` with `s2`, and the
 * change stays for every later call. Here that static state is the field of a `Mangle` object.
 */
module Crypto {
  import opened Wrappers
  import opened Octets
  import opened MangleHex
  import opened Lucifer

  /** The exceptions `DoIt` can throw. */
  datatype Thrown = IllegalArgument | IndexOutOfBounds

  /** What deciphering does to `s1` before reading the data: entries 4..7 become `s2[0..4]`. */
  function PatchLow(t: seq<int>): (r: seq<int>)
    requires |t| == 16
    ensures |r| == 16
    ensures forall i :: 0 <= i < 16 ==> r[i] == if 4 <= i < 8 then S2[i - 4] else t[i]
  {
    t[4 := S2[0]][5 := S2[1]][6 := S2[2]][7 := S2[3]]
  }

  /** What `Getdval` does to `s1` when deciphering: entries 8..11 become `s2[4..8]`. */
  function PatchHigh(t: seq<int>): (r: seq<int>)
    requires |t| == 16
    ensures |r| == 16
    ensures forall i :: 0 <= i < 16 ==> r[i] == if 8 <= i < 12 then S2[i - 4] else t[i]
  {
    t[8 := S2[4]][9 := S2[5]][10 := S2[6]][11 := S2[7]]
  }

  /** Both patches have been applied: `s1[4..12]` is `s2`. */
  predicate IsPatched(t: seq<int>) {
    |t| == 16 && forall i :: 4 <= i < 12 ==> t[i] == S2[i - 4]
  }

  /** A table the static `s1` can hold: as loaded, after a decipher that failed half way, or patched. */
  predicate Reachable(t: seq<int>) {
    t == S1Initial || t == PatchLow(S1Initial) || t == PatchHigh(PatchLow(S1Initial))
  }

  lemma PatchesKeepTable(t: seq<int>)
    requires IsTable(t)
    ensures IsTable(PatchLow(t)) && IsTable(PatchHigh(t)) && IsTable(PatchHigh(PatchLow(t)))
  {
  }

  /** A table is patched exactly when patching it changes nothing. */
  lemma PatchedIsFixed(t: seq<int>)
    requires |t| == 16
    ensures IsPatched(t) <==> PatchHigh(PatchLow(t)) == t
  {
    if PatchHigh(PatchLow(t)) == t {
      forall i | 4 <= i < 12 ensures t[i] == S2[i - 4] {
        assert PatchHigh(PatchLow(t))[i] == t[i];
      }
    }
    if IsPatched(t) {
      assert forall i :: 0 <= i < 16 ==> PatchHigh(PatchLow(t))[i] == t[i];
    }
  }

  lemma ReachableIsTable(t: seq<int>)
    requires Reachable(t)
    ensures IsTable(t)
  {
    PatchesKeepTable(S1Initial);
  }

  /** The argument checks at the top of `DoIt`. */
  predicate Rejected(data: Bytes, decipher: bool, digest: bool) {
    (decipher && |data| != 32 && |data| != 0) ||
    (!decipher && |data| > 16 && !digest) ||
    (!decipher && |data| != 32 && digest)
  }

  /** The bytes `DoIt` takes its block from: the hex digits read when deciphering or handling a digest,
    * otherwise the data cut or padded to 16 bytes; `None` when `XtoO` throws. */
  function Source(data: Bytes, decipher: bool, digest: bool): (src: Option<Bytes>)
    ensures src.Some? <==> !(decipher || digest) || AllHex(data)
    ensures src.Some? && (decipher || digest) ==> src.value == Unhex(data)
    ensures src.Some? && !(decipher || digest) ==> src.value == CopyOf(data, 16)
  {
    if decipher || digest then (if AllHex(data) then Some(Unhex(data)) else None)
    else Some(CopyOf(data, 16))
  }

  /** The table the rounds of `DoIt` use: deciphering applies both patches first. */
  function TableUsed(t: seq<int>, decipher: bool): (u: seq<int>)
    requires IsTable(t)
    ensures IsTable(u)
  {
    PatchesKeepTable(t);
    if decipher then PatchHigh(PatchLow(t)) else t
  }

  /**
   * What `DoIt(data, key, decipher, digest)` returns when `s1` holds `t`: the block through the
   * cipher, as raw bytes when deciphering a password and as hex text otherwise.
   */
  function Outcome(data: Bytes, key: Bytes, decipher: bool, digest: bool, t: seq<int>): (r: Result<Bytes, Thrown>)
    requires IsTable(t)
    ensures r.Ok? ==> |r.value| == if decipher && !digest then 16 else 32
    ensures r.Ok? && !(decipher && !digest) ==> AllHex(r.value)
  {
    if Rejected(data, decipher, digest) then Err(IllegalArgument)
    else match Source(data, decipher, digest)
      case None => Err(IllegalArgument)
      case Some(src) =>
        if |src| < 16 then Err(IndexOutOfBounds)
        else
          var enc := Cipher(src[..16], key, TableUsed(t, decipher), decipher);
          Ok(if decipher && !digest then enc else Hex(enc))
  }

  /** What `s1` holds after that call: deciphering patches it, unless the checks or `XtoO` threw first. */
  function TableAfter(data: Bytes, decipher: bool, digest: bool, t: seq<int>): (u: seq<int>)
    requires |t| == 16
    ensures |u| == 16
    ensures IsTable(t) ==> IsTable(u)
  {
    if Rejected(data, decipher, digest) || Source(data, decipher, digest).None? || !decipher then t
    else if |Source(data, decipher, digest).value| < 16 then PatchLow(t)
    else PatchHigh(PatchLow(t))
  }

  /** `DoIt` on the 32 hex digits of a block, once past the argument checks, runs the cipher on that block. */
  lemma OutcomeOfHex(c: Bytes, key: Bytes, decipher: bool, digest: bool, t: seq<int>)
    requires |c| == 16 && IsTable(t) && (decipher || digest)
    ensures Outcome(Hex(c), key, decipher, digest, t) ==
      var e := Cipher(c, key, TableUsed(t, decipher), decipher);
      Ok(if decipher && !digest then e else Hex(e))
  {
    UnhexHex(c);
    assert Unhex(Hex(c))[..16] == c;
  }

  /** The three ways `DoIt` throws, and only those. */
  lemma OutcomeErrors(data: Bytes, key: Bytes, decipher: bool, digest: bool, t: seq<int>)
    requires IsTable(t)
    ensures Outcome(data, key, decipher, digest, t) == Err(IllegalArgument) <==>
      Rejected(data, decipher, digest) || ((decipher || digest) && !AllHex(data))
    ensures Outcome(data, key, decipher, digest, t) == Err(IndexOutOfBounds) <==>
      decipher && |data| == 0
  {
  }

  /** Enciphering never touches `s1`; once it is patched, nothing changes it any more. */
  lemma TableSettles(data: Bytes, decipher: bool, digest: bool, t: seq<int>)
    requires |t| == 16
    ensures !decipher ==> TableAfter(data, decipher, digest, t) == t
    ensures IsPatched(t) ==> TableAfter(data, decipher, digest, t) == t
  {
    PatchedIsFixed(t);
    if IsPatched(t) {
      assert forall i :: 0 <= i < 16 ==> PatchLow(t)[i] == t[i];
      assert PatchLow(t) == t;
    }
  }

  /** A decipher that gets to the rounds leaves `s1` patched. */
  lemma DecipherPatches(data: Bytes, key: Bytes, digest: bool, t: seq<int>)
    requires IsTable(t) && Outcome(data, key, true, digest, t).Ok?
    ensures IsPatched(TableAfter(data, true, digest, t))
  {
  }

  /** `s1` only ever holds one of the three reachable tables. */
  lemma ReachableClosed(data: Bytes, decipher: bool, digest: bool, t: seq<int>)
    requires Reachable(t)
    ensures Reachable(TableAfter(data, decipher, digest, t))
  {
    var p := PatchHigh(PatchLow(S1Initial));
    assert PatchLow(PatchLow(S1Initial)) == PatchLow(S1Initial);
    assert PatchHigh(PatchLow(PatchLow(S1Initial))) == p;
    assert PatchLow(p) == p;
    assert PatchHigh(PatchLow(p)) == p;
  }

  /** The length of the next chunk `In` (at most 16 bytes) or `Out` (at most 32) cuts from `rest`. */
  function ChunkSize(rest: int, max: int): (n: int)
    requires rest > 0 && max > 0
    ensures 0 < n <= rest && n <= max
    ensures n == max || n == rest
  {
    if rest > max then max else rest
  }

  /** What `In(input, key)` returns when `s1` holds `t`: each chunk of up to 16 bytes, zero padded, enciphered and in hex. */
  function Mangled(input: Bytes, key: Bytes, t: seq<int>): (r: Bytes)
    requires IsTable(t)
    decreases |input|
  {
    if |input| == 0 then []
    else
      var n := ChunkSize(|input|, 16);
      Hex(Cipher(CopyOf(input[..n], 16), key, t, false)) + Mangled(input[n..], key, t)
  }

  /** The number of 16-byte chunks `In` cuts `len` bytes into. */
  function Blocks(len: nat): nat {
    (len + 15) / 16
  }

  lemma BlocksNext(len: int, n: int)
    requires 0 < n <= len && n <= 16 && (n == 16 || n == len)
    ensures Blocks(len) == 1 + Blocks(len - n)
  {
    if n == 16 {
      assert len + 15 == (len - n + 15) + 16;
    } else {
      assert len <= 16;
    }
  }

  /** One turn of the `In` loop: `DoIt` on the next chunk gives the first part of what is left to write. */
  lemma InChunk(input: Bytes, offset: int, n: int, key: Bytes, t: seq<int>)
    requires IsTable(t) && 0 <= offset < |input| && n == ChunkSize(|input| - offset, 16)
    ensures Outcome(input[offset..offset + n], key, false, false, t).Ok?
    ensures Mangled(input[offset..], key, t) ==
      Outcome(input[offset..offset + n], key, false, false, t).value + Mangled(input[offset + n..], key, t)
  {
    var rest := input[offset..];
    assert rest[..n] == input[offset..offset + n] && rest[n..] == input[offset + n..];
    assert CopyOf(rest[..n], 16)[..16] == CopyOf(rest[..n], 16);
  }

  /** `In` writes 32 hex digits for every started chunk of 16 bytes. */
  lemma {:induction false} MangledShape(input: Bytes, key: Bytes, t: seq<int>)
    requires IsTable(t)
    ensures |Mangled(input, key, t)| == 32 * Blocks(|input|)
    ensures AllHex(Mangled(input, key, t))
    decreases |input|
  {
    if |input| > 0 {
      var n := ChunkSize(|input|, 16);
      BlocksNext(|input|, n);
      MangledShape(input[n..], key, t);
      var c := Cipher(CopyOf(input[..n], 16), key, t, false);
      var h := Hex(c);
      var r := Mangled(input[n..], key, t);
      assert Mangled(input, key, t) == h + r;
      assert |h| == 2 * |c| == 32;
      AllHexConcat(h, r);
    }
  }

  /** The result of `Out` together with what `s1` holds afterwards. */
  datatype Extraction = Extraction(result: Result<Bytes, Thrown>, table: seq<int>)

  /**
   * What `Out(input, key)` does when `s1` holds `t`: deciphers each chunk of up to 32 hex digits and
   * joins the 16-byte blocks; the first chunk that throws ends it, and `s1` keeps the patches made so far.
   */
  function Extracted(input: Bytes, key: Bytes, t: seq<int>): (e: Extraction)
    requires IsTable(t)
    decreases |input|
  {
    if |input| == 0 then Extraction(Ok([]), t)
    else
      var n := ChunkSize(|input|, 32);
      var chunk := input[..n];
      var t' := TableAfter(chunk, true, false, t);
      match Outcome(chunk, key, true, false, t)
      case Err(e) => Extraction(Err(e), t')
      case Ok(block) =>
        var rest := Extracted(input[n..], key, t');
        Extraction(if rest.result.Ok? then Ok(block + rest.result.value) else rest.result, rest.table)
  }

  /** The blocks `Out` has collected so far in front of what the rest of the input gives. */
  function Joined(prefix: Bytes, e: Extraction): Extraction {
    Extraction(if e.result.Ok? then Ok(prefix + e.result.value) else e.result, e.table)
  }

  lemma JoinedEmpty(e: Extraction)
    ensures Joined([], e) == e
  {
    if e.result.Ok? {
      assert [] + e.result.value == e.result.value;
    }
  }

  /** One turn of the `Out` loop: `DoIt` on the next chunk either ends it or adds a block to the collected ones. */
  lemma OutChunk(input: Bytes, offset: int, n: int, key: Bytes, t: seq<int>, prefix: Bytes)
    requires IsTable(t) && 0 <= offset < |input| && n == ChunkSize(|input| - offset, 32)
    ensures var c := Outcome(input[offset..offset + n], key, true, false, t);
      var t' := TableAfter(input[offset..offset + n], true, false, t);
      IsTable(t') &&
      (c.Err? ==> Joined(prefix, Extracted(input[offset..], key, t)) == Extraction(Err(c.error), t')) &&
      (c.Ok? ==>
        Joined(prefix, Extracted(input[offset..], key, t)) == Joined(prefix + c.value, Extracted(input[offset + n..], key, t')))
  {
    var rest := input[offset..];
    assert rest[..n] == input[offset..offset + n] && rest[n..] == input[offset + n..];
    var c := Outcome(input[offset..offset + n], key, true, false, t);
    if c.Ok? {
      var e := Extracted(input[offset + n..], key, TableAfter(input[offset..offset + n], true, false, t));
      if e.result.Ok? {
        assert prefix + (c.value + e.result.value) == (prefix + c.value) + e.result.value;
      }
    }
  }

  /** `Out` throws exactly when its input is not made of whole 32-digit hex chunks. */
  lemma {:induction false} ExtractedOk(input: Bytes, key: Bytes, t: seq<int>)
    requires IsTable(t)
    ensures Extracted(input, key, t).result.Ok? <==> |input| % 32 == 0 && AllHex(input)
    ensures Extracted(input, key, t).result.Ok? ==> |Extracted(input, key, t).result.value| == |input| / 2
    decreases |input|
  {
    if |input| > 0 {
      var n := ChunkSize(|input|, 32);
      var t' := TableAfter(input[..n], true, false, t);
      ExtractedOk(input[n..], key, t');
      assert input == input[..n] + input[n..];
      AllHexSplit(input[..n], input[n..]);
    }
  }

  lemma AllHexSplit(a: Bytes, b: Bytes)
    ensures AllHex(a + b) <==> AllHex(a) && AllHex(b)
  {
    if AllHex(a + b) {
      forall i | 0 <= i < |a| ensures IsHexDigit(a[i]) {
        assert (a + b)[i] == a[i];
      }
      forall i | 0 <= i < |b| ensures IsHexDigit(b[i]) {
        assert (a + b)[|a| + i] == b[i];
      }
    }
  }

  /** The input `In` sees, as `Out` gives it back: padded with zeros to a whole number of 16-byte chunks. */
  function Padded(input: Bytes): (r: Bytes)
    ensures |r| % 16 == 0 && |input| <= |r| < |input| + 16
  {
    CopyOf(input, 16 * Blocks(|input|))
  }

  /**
   * Once `s1` is patched, `Out` undoes `In`: the input comes back padded with zeros to a multiple of
   * 16 bytes, and `s1` is left as it was.
   */
  lemma {:induction false} InOutRoundTrip(input: Bytes, key: Bytes, t: seq<int>)
    requires IsTable(t) && IsPatched(t)
    ensures Extracted(Mangled(input, key, t), key, t) == Extraction(Ok(Padded(input)), t)
    decreases |input|
  {
    if |input| > 0 {
      var n := ChunkSize(|input|, 16);
      var block := CopyOf(input[..n], 16);
      var h := Hex(Cipher(block, key, t, false));
      var rest := Mangled(input[n..], key, t);
      assert Mangled(input, key, t) == h + rest;
      MangledShape(input[n..], key, t);
      InOutRoundTrip(input[n..], key, t);
      assert (h + rest)[..32] == h && (h + rest)[32..] == rest;
      PatchedIsFixed(t);
      TableSettles(h, true, false, t);
      OutcomeOfHex(Cipher(block, key, t, false), key, true, false, t);
      CipherInverts(block, key, t, false);
      PaddedSplit(input, n);
    }
  }

  /** Padding the whole input is padding its first chunk and then the rest. */
  lemma PaddedSplit(input: Bytes, n: int)
    requires 0 < n <= |input| && n <= 16 && (n == 16 || n == |input|)
    ensures Padded(input) == CopyOf(input[..n], 16) + Padded(input[n..])
  {
    var a, b := CopyOf(input[..n], 16), Padded(input[n..]);
    BlocksNext(|input|, n);
    assert |Padded(input)| == |a + b|;
    forall i | 0 <= i < |a + b| ensures Padded(input)[i] == (a + b)[i] {
      if i >= 16 {
        assert (a + b)[i] == b[i - 16];
      }
    }
  }

  /**
   * With `s1` patched, the digest interfaces undo each other whichever goes first, up to the case
   * of the hex digits: `OutMD5(InMD5(d))` and `InMD5(OutMD5(d))` are `d` in upper case.
   */
  lemma MD5RoundTrip(d: Bytes, key: Bytes, t: seq<int>)
    requires IsTable(t) && IsPatched(t) && |d| == 32 && AllHex(d)
    ensures Outcome(d, key, false, true, t).Ok? && Outcome(d, key, true, true, t).Ok?
    ensures Outcome(Outcome(d, key, false, true, t).value, key, true, true, t) == Ok(UpperAll(d))
    ensures Outcome(Outcome(d, key, true, true, t).value, key, false, true, t) == Ok(UpperAll(d))
  {
    PatchedIsFixed(t);
    var x := Unhex(d);
    assert x[..16] == x;
    HexUnhex(d);
    assert Hex(x) == UpperAll(d);
    var e := Cipher(x, key, t, false);
    var f := Cipher(x, key, t, true);
    assert Outcome(d, key, false, true, t) == Ok(Hex(e));
    assert Outcome(d, key, true, true, t) == Ok(Hex(f));
    OutcomeOfHex(e, key, true, true, t);
    CipherInverts(x, key, t, false);
    OutcomeOfHex(f, key, false, true, t);
    CipherInverts(x, key, t, true);
  }


  /** Eight bits of `v` into `a[at..at + 8]`, least significant first: the `c & 0x1; c >>= 1` loops. */
  method UnpackBits(a: array<Bit>, at: int, v: int)
    requires 0 <= at && at + Width <= a.Length && v >= 0
    modifies a
    ensures forall p :: 0 <= p < a.Length ==> a[p] == if at <= p < at + Width then BitsOf(v, Width)[p - at] else old(a[p])
  {
    var c := v;
    for i := 0 to Width
      invariant c >= 0
      invariant forall p :: 0 <= p < a.Length && !(at <= p < at + i) ==> a[p] == old(a[p])
      invariant forall p :: at <= p < at + i ==> a[p] + 0 == BitsOf(v, Width)[p - at]
      invariant BitsOf(v, Width)[i..] == BitsOf(c, Width - i)
    {
      assert BitsOf(c, Width - i) == [c % 2] + BitsOf(c / 2, Width - i - 1);
      a[at + i] := c % 2;
      c := c / 2;
    }
  }

  /** The value of the bits `a[at..at + 8]`: the `output = (output << 1) + m[...]` loop, bit 7 first. */
  method PackBits(a: array<Bit>, at: int) returns (output: int)
    requires 0 <= at && at + Width <= a.Length
    ensures output == ByteOf(a[at..at + Width])
  {
    output := 0;
    for i := Width downto 0
      invariant output == ValueOf(a[at + i..at + Width])
    {
      assert a[at + i..at + Width][1..] == a[at + i + 1..at + Width];
      output := output * 2 + a[at + i];
    }
  }

  /** Bit `p` lies in byte `c` exactly when it is one of `8 * c .. 8 * c + 7`, at bit `p - 8 * c`. */
  lemma ByteIndex(p: int, c: int)
    requires 0 <= c && 8 * c <= p < 8 * c + 8
    ensures p / 8 == c && p % 8 == p - 8 * c
  {
  }

  /**
   * The bits of the first 16 bytes of `b` into `a`, a byte at a time: the key loop and the data loop
   * of `DoIt`. Reading past the end of `b` throws; `ok` is false then, and only then.
   */
  method LoadBlock(a: array<Bit>, b: Bytes) returns (ok: bool)
    requires a.Length == 128
    modifies a
    ensures ok <==> |b| >= 16
    ensures ok ==> a[..] == BlockBits(b[..16])
  {
    for counter := 0 to 16
      invariant counter <= |b|
      invariant forall p :: 0 <= p < 8 * counter ==> a[p] == BitsOf(b[p / 8] as int, Width)[p % 8]
    {
      if counter >= |b| {
        return false;
      }
      UnpackBits(a, 8 * counter, b[counter] as int);
      forall p | 8 * counter <= p < 8 * counter + 8
        ensures a[p] == BitsOf(b[p / 8] as int, Width)[p % 8]
      {
        ByteIndex(p, counter);
      }
    }
    ok := true;
    assert forall p :: 0 <= p < 128 ==> a[p] == BlockBits(b[..16])[p];
  }

  /** The 16 bytes of a bit block: the output loop of `DoIt`. */
  method PackBlock(m: array<Bit>) returns (enc: Bytes)
    requires m.Length == 128
    ensures enc == Pack(m[..])
  {
    var out := new byte[16](_ => 0);
    for counter := 0 to 16
      invariant forall c :: 0 <= c < counter ==> out[c] == Pack(m[..])[c]
    {
      var output := PackBits(m, 8 * counter);
      assert m[8 * counter..8 * counter + Width] == m[..][8 * counter..8 * counter + 8];
      out[counter] := output as byte;
    }
    enc := out[..];
  }

  /** Bit `p` of a block lies in half `p / 64`, byte `p % 64 / 8` of it, at bit `p % 8`. */
  lemma PositionParts(p: int, h0: int, index: int, bit: int)
    requires 0 <= p < 128 && 0 <= h0 < 2 && 0 <= index < 8 && 0 <= bit < 8
    ensures p == 64 * h0 + 8 * index + bit <==> p / 64 == h0 && p % 64 / 8 == index && p % 8 == bit
  {
  }

  /** The byte written at step `b` for bit `bit` is the one `StepOf` maps back to `b`. */
  lemma StepOfInverse(index: int, bit: Oct, b: int)
    requires 0 <= index < 8 && 0 <= b < 8
    ensures StepOf(index, bit) == b <==> index == (O[bit] + b) % 8
  {
  }

  /** Whether step `b` of a round that changes half `h0` writes bit `p` of the block. */
  predicate WrittenAt(p: int, h0: int, b: int)
    requires 0 <= p < 128
  {
    p / 64 == h0 && StepOf(p % 64 / 8, p % 8) == b
  }

  /** What a step writes into bit `p` that held `x`: `x` XOR bit `pr[p % 8]` of key byte `tc` XOR bit `pr[p % 8]` of `tr`. */
  function StepValue(x: Bit, k: seq<Bit>, tc: int, tr: seq<Bit>, p: int): Bit
    requires |k| == 128 && 0 <= tc < 16 && |tr| == Width && 0 <= p
  {
    (x as int + k[8 * tc + PR[p % 8]] as int + tr[PR[p % 8]] as int) % 2
  }

  /**
   * The `bit` loop of one step `b` of a round: bit `bit` of byte `(o[bit] + b) & 7` of half `h0`
   * is XORed with bit `pr[bit]` of key byte `tc` and bit `pr[bit]` of the S-box output `tr`.
   */
  method Diffuse(m: array<Bit>, k: array<Bit>, tr: array<Bit>, h0: int, b: int, tc: int)
    requires m.Length == 128 && k.Length == 128 && tr.Length == Width && m != k && m != tr
    requires 0 <= h0 < 2 && 0 <= b < 8 && 0 <= tc < 16
    modifies m
    ensures forall p :: 0 <= p < 128 ==>
      m[p] == if WrittenAt(p, h0, b) then StepValue(old(m[p]), k[..], tc, tr[..], p) else old(m[p])
  {
    for bit := 0 to Width
      invariant forall p :: 0 <= p < 128 ==>
        m[p] == if WrittenAt(p, h0, b) && p % 8 < bit then StepValue(old(m[p]), k[..], tc, tr[..], p) else old(m[p])
    {
      var index := (O[bit] + b) % 8;
      var at := 64 * h0 + 8 * index + bit;
      forall p | 0 <= p < 128
        ensures p == at <==> WrittenAt(p, h0, b) && p % 8 == bit
      {
        PositionParts(p, h0, index, bit);
        if p % 8 == bit {
          StepOfInverse(p % 64 / 8, bit, b);
        }
      }
      m[at] := (m[at] as int + k[8 * tc + PR[bit]] as int + tr[PR[bit]] as int) % 2;
    }
  }

  /** The final swap of `Getdval`: the two halves of `m` trade places. */
  method FinalSwap(m: array<Bit>)
    requires m.Length == 128
    modifies m
    ensures m[..] == Swap(old(m[..]))
  {
    for b := 0 to 8
      invariant forall p :: 0 <= p < 64 ==> m[p] == if p < 8 * b then old(m[p + 64]) else old(m[p])
      invariant forall p :: 64 <= p < 128 ==> m[p] == if p - 64 < 8 * b then old(m[p - 64]) else old(m[p])
    {
      for bit := 0 to Width
        invariant forall p :: 0 <= p < 64 ==> m[p] == if p < 8 * b + bit then old(m[p + 64]) else old(m[p])
        invariant forall p :: 64 <= p < 128 ==> m[p] == if p - 64 < 8 * b + bit then old(m[p - 64]) else old(m[p])
      {
        var temp1 := m[8 * b + bit];
        m[8 * b + bit] := m[64 + 8 * b + bit];
        m[64 + 8 * b + bit] := temp1;
      }
    }
    forall p | 0 <= p < 128 ensures m[p] == Swap(old(m[..]))[p] {
      SwapAt(old(m[..]), p);
    }
  }

  /** Block `m0` part way through a round towards `R`: the bits written by steps before `b` hold their new values. */
  ghost function RoundSoFar(m0: seq<Bit>, R: seq<Bit>, h0: int, b: int): (r: seq<Bit>)
    requires |m0| == 128 && |R| == 128 && 0 <= h0 < 2
    ensures |r| == 128
  {
    seq(128, p requires 0 <= p < 128 => if p / 64 == h0 && StepOf(p % 64 / 8, p % 8) < b then R[p] else m0[p])
  }

  lemma RoundSoFarEnds(m0: seq<Bit>, R: seq<Bit>, h0: int)
    requires |m0| == 128 && |R| == 128 && 0 <= h0 < 2
    requires Half(R, 1 - h0) == Half(m0, 1 - h0)
    ensures RoundSoFar(m0, R, h0, 0) == m0
    ensures RoundSoFar(m0, R, h0, 8) == R
  {
    forall p | 0 <= p < 128 ensures RoundSoFar(m0, R, h0, 8)[p] == R[p] {
      if p / 64 != h0 {
        assert R[p] == Half(R, 1 - h0)[p - 64 * (1 - h0)];
      }
    }
  }

  /** Part way through a round, the other half is still as it was. */
  lemma RoundSoFarOther(m0: seq<Bit>, R: seq<Bit>, h0: int, b: int)
    requires |m0| == 128 && |R| == 128 && 0 <= h0 < 2
    ensures Half(RoundSoFar(m0, R, h0, b), 1 - h0) == Half(m0, 1 - h0)
  {
    var r := RoundSoFar(m0, R, h0, b);
    forall p | 0 <= p < 128 && p / 64 == 1 - h0 ensures r[p] == m0[p] {
    }
    assert Half(r, 1 - h0) == Half(m0, 1 - h0);
  }

  /** Bit `p` of the changing half after step `b` of a round, in terms of that step's S-box output `tr`. */
  lemma StepBit(m0: seq<Bit>, k: seq<Bit>, t: seq<int>, h0: int, t0: int, b: int, tr: seq<Bit>, p: int)
    requires IsBlock(m0) && IsBlock(k) && IsTable(t) && 0 <= h0 < 2 && 0 <= t0 < 16 && 0 <= b < 8 && 0 <= p < 128
    requires tr == BitsOf(Confusion(Half(m0, 1 - h0), k, t, t0, b), Width)
    requires WrittenAt(p, h0, b)
    ensures Round(m0, k, t, h0, t0)[p] == StepValue(m0[p], k, (t0 + b) % 16, tr, p)
  {
    RoundAt(m0, k, t, h0, t0, p);
    MaskOfWritten(m0, k, t, h0, t0, b, tr, p);
  }

  /** The mask of a bit that step `b` writes is its key bit plus its S-box output bit. */
  lemma MaskOfWritten(m0: seq<Bit>, k: seq<Bit>, t: seq<int>, h0: int, t0: int, b: int, tr: seq<Bit>, p: int)
    requires IsBlock(m0) && IsBlock(k) && IsTable(t) && 0 <= h0 < 2 && 0 <= t0 < 16 && 0 <= b < 8 && 0 <= p < 128
    requires tr == BitsOf(Confusion(Half(m0, 1 - h0), k, t, t0, b), Width)
    requires WrittenAt(p, h0, b)
    ensures Mask(Half(m0, 1 - h0), k, t, t0, p % 64) == k[8 * ((t0 + b) % 16) + PR[p % 8]] as int + tr[PR[p % 8]] as int
  {
    Mod64Mod8(p);
    MaskAt(Half(m0, 1 - h0), k, t, t0, p % 64, b, tr);
  }

  /** The mask of bit `q` of the changing half, for a bit that step `b` writes. */
  lemma MaskAt(r: seq<Bit>, k: seq<Bit>, t: seq<int>, t0: int, q: int, b: int, tr: seq<Bit>)
    requires |r| == 64 && IsBlock(k) && IsTable(t) && 0 <= t0 < 16 && 0 <= q < 64 && 0 <= b < 8
    requires StepOf(q / 8, q % 8) == b
    requires tr == BitsOf(Confusion(r, k, t, t0, b), Width)
    ensures Mask(r, k, t, t0, q) == k[8 * ((t0 + b) % 16) + PR[q % 8]] as int + tr[PR[q % 8]] as int
  {
    var bit: Oct := q % 8;
    var i := PR[bit];
    var tc := (t0 + b) % 16;
    assert Mask(r, k, t, t0, q) == k[8 * tc + i] as int + tr[i] as int;
  }

  lemma Mod64Mod8(p: int)
    requires 0 <= p
    ensures p % 64 % 8 == p % 8
  {
  }

  /** The bits step `b` of a round writes, and what it writes into them. */
  lemma StepTargets(m0: seq<Bit>, k: seq<Bit>, t: seq<int>, h0: int, t0: int, b: int, tc: int, tr: seq<Bit>)
    requires IsBlock(m0) && IsBlock(k) && IsTable(t) && 0 <= h0 < 2 && 0 <= t0 < 16 && 0 <= b < 8
    requires tc == (t0 + b) % 16
    requires tr == BitsOf(Confusion(Half(m0, 1 - h0), k, t, t0, b), Width)
    ensures forall p :: 0 <= p < 128 && WrittenAt(p, h0, b) ==>
      Round(m0, k, t, h0, t0)[p] == StepValue(m0[p], k, tc, tr, p)
  {
    forall p | 0 <= p < 128 && WrittenAt(p, h0, b)
      ensures Round(m0, k, t, h0, t0)[p] == StepValue(m0[p], k, tc, tr, p)
    {
      StepBit(m0, k, t, h0, t0, b, tr, p);
    }
  }

  /** Step `b` of a round, as the `bit` loop performs it, takes the block from `RoundSoFar(b)` to `RoundSoFar(b + 1)`. */
  lemma RoundSoFarNext(m0: seq<Bit>, R: seq<Bit>, h0: int, b: int, k: seq<Bit>, tc: int, tr: seq<Bit>,
                       before: seq<Bit>, after: seq<Bit>)
    requires |m0| == 128 && |R| == 128 && 0 <= h0 < 2 && 0 <= b < 8
    requires |k| == 128 && 0 <= tc < 16 && |tr| == 8
    requires forall p :: 0 <= p < 128 && WrittenAt(p, h0, b) ==> R[p] == StepValue(m0[p], k, tc, tr, p)
    requires before == RoundSoFar(m0, R, h0, b) && |after| == 128
    requires forall p :: 0 <= p < 128 ==>
      after[p] == if WrittenAt(p, h0, b) then StepValue(before[p], k, tc, tr, p) else before[p]
    ensures after == RoundSoFar(m0, R, h0, b + 1)
  {
    forall p | 0 <= p < 128 ensures after[p] == RoundSoFar(m0, R, h0, b + 1)[p] {
    }
  }

  /** What one step leaves in the block, given what `Diffuse` promises: the round so far grows by step `b`. */
  lemma StepDone(m0: seq<Bit>, R: seq<Bit>, k: seq<Bit>, t: seq<int>, h0: int, t0: int, b: int, tc: int,
                 tr: seq<Bit>, before: seq<Bit>, after: seq<Bit>)
    requires IsBlock(m0) && IsBlock(k) && IsTable(t) && 0 <= h0 < 2 && 0 <= t0 < 16 && 0 <= b < 8
    requires tc == (t0 + b) % 16 && R == Round(m0, k, t, h0, t0) && before == RoundSoFar(m0, R, h0, b)
    requires tr == BitsOf(Confusion(Half(before, 1 - h0), k, t, t0, b), Width)
    requires |after| == 128
    requires forall p :: 0 <= p < 128 ==>
      after[p] == if WrittenAt(p, h0, b) then StepValue(before[p], k, tc, tr, p) else before[p]
    ensures after == RoundSoFar(m0, R, h0, b + 1)
  {
    RoundSoFarOther(m0, R, h0, b);
    StepTargets(m0, k, t, h0, t0, b, tc, tr);
    RoundSoFarNext(m0, R, h0, b, k, tc, tr, before, after);
  }

  /** The key byte counter `tcbcontrol` across rounds: where a round starts and where it leaves off. */
  lemma KeyAdvance(decipher: bool, round: int)
    requires 0 <= round < 16
    ensures decipher ==> ((8 + 9 * round) % 16 + 1) % 16 == RoundKey(true, round)
    ensures (RoundKey(decipher, round) + (if decipher then 8 else 7)) % 16 ==
      if decipher then (8 + 9 * (round + 1)) % 16 else 7 * (round + 1) % 16
  {
    ModAdd(8 + 9 * round, 1);
    ModAdd(9 + 9 * round, 8);
    ModAdd(7 * round, 7);
    assert 9 + 9 * round + 8 == 8 + 9 * (round + 1);
    assert 7 * round + 7 == 7 * (round + 1);
  }

  lemma ModAdd(a: int, b: int)
    requires a >= 0 && b >= 0
    ensures (a % 16 + b) % 16 == (a + b) % 16
  {
    ModShift(a % 16 + b, a / 16);
  }

  /**
   * The key byte counter `tcbcontrol` before step `b` of a round that starts at `t0`; after the last
   * step it has moved on by 8 when deciphering and by 7 when enciphering.
   */
  function StepKey(t0: int, b: int, decipher: bool): (tc: int)
    requires 0 <= t0 < 16 && 0 <= b <= 8
    ensures 0 <= tc < 16
  {
    if b < 8 then (t0 + b) % 16 else (t0 + if decipher then 8 else 7) % 16
  }

  /** One step of the counter: it advances after every step but the last one of an enciphering round. */
  lemma StepKeyNext(t0: int, b: int, decipher: bool)
    requires 0 <= t0 < 16 && 0 <= b < 8
    ensures StepKey(t0, b + 1, decipher) ==
      if b < 7 || decipher then (StepKey(t0, b, decipher) + 1) % 16 else StepKey(t0, b, decipher)
  {
    ModAdd(t0 + b, 1);
  }

  /** The static state of Mangle.java: the S-box `s1`, which deciphering patches. */
  class Mangle {
    var s1: array<int>

    predicate Valid()
      reads this, s1
    {
      s1.Length == 16 && Reachable(s1[..])
    }

    /** `s1` as the class is loaded. */
    constructor ()
      ensures Valid() && s1[..] == S1Initial
    {
      var table := new int[] [7, 2, 14, 9, 3, 11, 0, 4, 12, 13, 1, 10, 6, 15, 8, 5];
      assert table[..] == S1Initial;
      s1 := table;
    }

    /**
     * One round of `Getdval` (the `b` loop): half `h0` of `m` is XORed, step by step, with the mask
     * the other half, key byte `t0` onwards and `s1` decide. Returns where `tcbcontrol` ends up.
     */
    method RoundStep(m: array<Bit>, k: array<Bit>, tr: array<Bit>, h0: int, t0: int, decipher: bool) returns (tcbcontrol: int)
      requires s1.Length == 16 && IsTable(s1[..])
      requires m.Length == 128 && k.Length == 128 && tr.Length == Width && m != k && m != tr && k != tr
      requires 0 <= h0 < 2 && 0 <= t0 < 16
      modifies m, tr
      ensures m[..] == Round(old(m[..]), k[..], s1[..], h0, t0)
      ensures tcbcontrol == StepKey(t0, 8, decipher)
    {
      ghost var m0 := m[..];
      ghost var R := Round(m0, k[..], s1[..], h0, t0);
      RoundKeepsOtherHalf(m0, k[..], s1[..], h0, t0);
      RoundSoFarEnds(m0, R, h0);
      tcbcontrol := t0;
      for b := 0 to 8
        invariant tcbcontrol == StepKey(t0, b, decipher)
        invariant m[..] == RoundSoFar(m0, R, h0, b)
      {
        Step(m, k, tr, h0, t0, b, tcbcontrol, m0, R);
        StepKeyNext(t0, b, decipher);
        if b < 7 || decipher {
          tcbcontrol := (tcbcontrol + 1) % 16;
        }
      }
    }

    /**
     * Step `b` of a round: the S-box output of byte `b` of the other half, spread into `tr`, and
     * diffused into half `h0` together with key byte `tc`.
     */
    method Step(m: array<Bit>, k: array<Bit>, tr: array<Bit>, h0: int, t0: int, b: int, tc: int,
                ghost m0: seq<Bit>, ghost R: seq<Bit>)
      requires s1.Length == 16 && IsTable(s1[..])
      requires m.Length == 128 && k.Length == 128 && tr.Length == Width && m != k && m != tr && k != tr
      requires 0 <= h0 < 2 && 0 <= t0 < 16 && 0 <= b < 8 && tc == (t0 + b) % 16
      requires |m0| == 128 && R == Round(m0, k[..], s1[..], h0, t0)
      requires m[..] == RoundSoFar(m0, R, h0, b)
      modifies m, tr
      ensures m[..] == RoundSoFar(m0, R, h0, b + 1)
    {
      ghost var before := m[..];
      ghost var key := k[..];
      ghost var t := s1[..];
      var v := SBox(m, k, 1 - h0, b, t0);
      assert v == Confusion(Half(before, 1 - h0), key, t, t0, b);
      UnpackBits(tr, 0, v);
      ghost var bits := tr[..];
      assert bits == BitsOf(v, Width);
      assert m[..] == before && k[..] == key && s1[..] == t;
      Diffuse(m, k, tr, h0, b, tc);
      ghost var after := m[..];
      assert forall p :: 0 <= p < 128 ==>
        after[p] == if WrittenAt(p, h0, b) then StepValue(before[p], key, tc, bits, p) else before[p];
      StepDone(m0, R, key, t, h0, t0, b, tc, bits, before, after);
    }

    /**
     * The S-box output of step `b`: byte `b` of half `h1` split into two nibbles, each looked up in
     * `s0` and `s1`, with key bit `b` of key byte `tcbindex` choosing which nibble goes where.
     */
    method SBox(m: array<Bit>, k: array<Bit>, h1: int, b: int, tcbindex: int) returns (v: int)
      requires s1.Length == 16 && IsTable(s1[..])
      requires m.Length == 128 && k.Length == 128 && 0 <= h1 < 2 && 0 <= b < 8 && 0 <= tcbindex < 16
      ensures v == Confusion(Half(m[..], h1), k[..], s1[..], tcbindex, b)
    {
      var lo := m[h1 * 64 + 8 * b + 7] as int * 8 + m[h1 * 64 + 8 * b + 6] as int * 4
        + m[h1 * 64 + 8 * b + 5] as int * 2 + m[h1 * 64 + 8 * b + 4] as int;
      var hi := m[h1 * 64 + 8 * b + 3] as int * 8 + m[h1 * 64 + 8 * b + 2] as int * 4
        + m[h1 * 64 + 8 * b + 1] as int * 2 + m[h1 * 64 + 8 * b + 0] as int;
      assert lo == Lo(Half(m[..], h1), b) && hi == Hi(Half(m[..], h1), b);
      Select(S0[lo] + 16 * s1[hi], S0[hi] + 16 * s1[lo], k[8 * tcbindex + b]);
      v := (S0[lo] + 16 * s1[hi]) * (1 - k[8 * tcbindex + b] as int)
        + (S0[hi] + 16 * s1[lo]) * k[8 * tcbindex + b] as int;
    }

    /**
     * `DoIt`: checks the arguments, reads the key and at most one block of data into bits, runs
     * `Getdval` over them and returns the block as bytes, or as hex text unless deciphering a password.
     */
    method DoIt(data: Bytes, key: Bytes, decipher: bool, digest: bool) returns (r: Result<Bytes, Thrown>)
      requires Valid()
      modifies s1
      ensures Valid()
      ensures r == Outcome(data, key, decipher, digest, old(s1[..]))
      ensures s1[..] == TableAfter(data, decipher, digest, old(s1[..]))
    {
      ghost var t := s1[..];
      ReachableIsTable(t);
      ReachableClosed(data, decipher, digest, t);
      if (decipher && |data| != 32 && |data| != 0) ||
         (!decipher && |data| > 16 && !digest) ||
         (!decipher && |data| != 32 && digest)
      {
        return Err(IllegalArgument);
      }
      var src;
      if decipher || digest {
        var o := XtoO(data);
        if o.None? {
          return Err(IllegalArgument);
        }
        src := o.value;
      } else {
        src := CopyOf(data, 16);
      }
      var block := RunBlock(key, src, decipher);
      if block.None? {
        return Err(IndexOutOfBounds);
      }
      var enc := block.value;
      if decipher && !digest {
        r := Ok(enc);
      } else {
        var hex := OtoX(enc);
        r := Ok(hex);
      }
    }

    /**
     * The part of `DoIt` after the argument checks: the key and the block into bits, `Getdval`, and
     * the bits back into bytes. `None` when `src` runs out before 16 bytes, as the `src[p++]` read throws.
     */
    method RunBlock(key: Bytes, src: Bytes, decipher: bool) returns (enc: Option<Bytes>)
      requires s1.Length == 16 && IsTable(s1[..])
      modifies s1
      ensures enc.Some? <==> |src| >= 16
      ensures enc.Some? ==> enc.value == Cipher(src[..16], key, TableUsed(old(s1[..]), decipher), decipher)
      ensures s1[..] == if !decipher then old(s1[..]) else if |src| < 16 then PatchLow(old(s1[..]))
        else PatchHigh(PatchLow(old(s1[..])))
    {
      ghost var t := s1[..];
      var m := new Bit[128](_ => 0);
      var k := new Bit[128](_ => 0);
      var buf := CopyOf(key, 16);
      var _ := LoadBlock(k, buf);
      assert buf[..16] == buf;
      ghost var kb := k[..];
      if decipher {
        s1[4] := S2[0];
        s1[5] := S2[1];
        s1[6] := S2[2];
        s1[7] := S2[3];
        assert s1[..] == PatchLow(t);
      }
      PatchesKeepTable(t);
      var ok := LoadBlock(m, src);
      if !ok {
        return None;
      }
      ghost var mb := m[..];
      Getdval(decipher, m, k);
      assert k[..] == kb && s1[..] == TableUsed(t, decipher);
      var bytes := PackBlock(m);
      enc := Some(bytes);
    }

    /** One pass of the `In` loop: the chunk of up to 16 bytes at `offset`, enciphered and written as hex. */
    method InStep(input: Bytes, offset: int, key: Bytes) returns (piece: Bytes, next: int)
      requires Valid() && 0 <= offset < |input|
      modifies s1
      ensures Valid() && s1[..] == old(s1[..])
      ensures offset < next <= |input|
      ensures Mangled(input[offset..], key, s1[..]) == piece + Mangled(input[next..], key, s1[..])
    {
      ghost var t := s1[..];
      ReachableIsTable(t);
      var chunkSize := |input| - offset;
      if chunkSize > 16 {
        chunkSize := 16;
      }
      var data := input[offset..offset + chunkSize];
      TableSettles(data, false, false, t);
      InChunk(input, offset, chunkSize, key, t);
      var chunk := DoIt(data, key, false, false);
      piece := chunk.value;
      next := offset + chunkSize;
    }

    /** `In`: the input in chunks of up to 16 bytes, each enciphered by `DoIt` and written as hex. */
    method In(input: Bytes, key: Bytes) returns (r: Bytes)
      requires Valid()
      modifies s1
      ensures Valid() && s1[..] == old(s1[..])
      ensures r == Mangled(input, key, s1[..])
    {
      ghost var t := s1[..];
      ReachableIsTable(t);
      var out: Bytes := [];
      var offset := 0;
      while offset < |input|
        invariant 0 <= offset <= |input|
        invariant Valid() && s1[..] == t
        invariant out + Mangled(input[offset..], key, t) == Mangled(input, key, t)
        decreases |input| - offset
      {
        var piece, next := InStep(input, offset, key);
        ghost var tail := Mangled(input[next..], key, t);
        assert (out + piece) + tail == out + (piece + tail);
        out := out + piece;
        offset := next;
      }
      r := out;
    }

    /**
     * `Out`: the input in chunks of up to 32 hex digits, each deciphered by `DoIt`; the first chunk
     * that throws ends it.
     */
    method Out(input: Bytes, key: Bytes) returns (r: Result<Bytes, Thrown>)
      requires Valid()
      modifies s1
      ensures Valid()
      ensures Extraction(r, s1[..]) == Extracted(input, key, old(s1[..]))
    {
      ghost var t := s1[..];
      ReachableIsTable(t);
      var out: Bytes := [];
      var offset := 0;
      assert input[offset..] == input;
      JoinedEmpty(Extracted(input, key, t));
      while offset < |input|
        invariant 0 <= offset <= |input|
        invariant Valid() && IsTable(s1[..])
        invariant Joined(out, Extracted(input[offset..], key, s1[..])) == Extracted(input, key, t)
        decreases |input| - offset
      {
        var chunkSize := |input| - offset;
        if chunkSize > 32 {
          chunkSize := 32;
        }
        var data := input[offset..offset + chunkSize];
        OutChunk(input, offset, chunkSize, key, s1[..], out);
        var chunk := DoIt(data, key, true, false);
        if chunk.Err? {
          return Err(chunk.error);
        }
        out := out + chunk.value;
        offset := offset + chunkSize;
      }
      assert input[offset..] == [];
      assert out + [] == out;
      r := Ok(out);
    }

    /** `InMD5`: one 32-digit digest enciphered, as hex. */
    method InMD5(data: Bytes, key: Bytes) returns (r: Result<Bytes, Thrown>)
      requires Valid()
      modifies s1
      ensures Valid() && s1[..] == old(s1[..])
      ensures r == Outcome(data, key, false, true, s1[..])
    {
      TableSettles(data, false, true, s1[..]);
      r := DoIt(data, key, false, true);
    }

    /** `OutMD5`: one 32-digit enciphered digest deciphered, as hex. */
    method OutMD5(data: Bytes, key: Bytes) returns (r: Result<Bytes, Thrown>)
      requires Valid()
      modifies s1
      ensures Valid()
      ensures r == Outcome(data, key, true, true, old(s1[..]))
      ensures s1[..] == TableAfter(data, true, true, old(s1[..]))
    {
      r := DoIt(data, key, true, true);
    }

    /** The deciphering direction first overwrites entries 8 to 11 of `s1` with entries 4 to 7 of `s2`. */
    method PatchS1High()
      requires s1.Length == 16 && IsTable(s1[..])
      modifies s1
      ensures s1[..] == PatchHigh(old(s1[..])) && IsTable(s1[..])
    {
      PatchesKeepTable(s1[..]);
      s1[8] := S2[4];
      s1[9] := S2[5];
      s1[10] := S2[6];
      s1[11] := S2[7];
    }

    /** One pass of the round loop: the key counter steps to this round's key and the round is applied. */
    method NextRound(m: array<Bit>, k: array<Bit>, tr: array<Bit>, ghost m0: seq<Bit>, round: nat, h0: int, t: int, decipher: bool)
      returns (tcbcontrol: int)
      requires s1.Length == 16 && IsTable(s1[..]) && IsBlock(m0)
      requires m.Length == 128 && k.Length == 128 && tr.Length == Width && m != k && m != tr && k != tr
      requires round < 16 && h0 == round % 2
      requires t == if decipher then (8 + 9 * round) % 16 else 7 * round % 16
      requires m[..] == Rounds(m0, k[..], s1[..], decipher, round)
      modifies m, tr
      ensures tcbcontrol == if decipher then (8 + 9 * (round + 1)) % 16 else 7 * (round + 1) % 16
      ensures m[..] == Rounds(m0, k[..], s1[..], decipher, round + 1)
    {
      ghost var key := k[..];
      ghost var table := s1[..];
      ghost var before := m[..];
      ghost var t0 := RoundKey(decipher, round);
      KeyAdvance(decipher, round);
      tcbcontrol := if decipher then (t + 1) % 16 else t;
      assert tcbcontrol == t0;
      tcbcontrol := RoundStep(m, k, tr, h0, tcbcontrol, decipher);
      assert k[..] == key && s1[..] == table;
      assert m[..] == Round(before, key, table, h0, t0);
    }

    /** The round loop of `Getdval`: sixteen rounds, the halves alternating and the key counter stepping. */
    method AllRounds(decipher: bool, m: array<Bit>, k: array<Bit>)
      requires s1.Length == 16 && IsTable(s1[..])
      requires m.Length == 128 && k.Length == 128 && m != k
      modifies m
      ensures m[..] == Rounds(old(m[..]), k[..], s1[..], decipher, RoundCount)
    {
      var tr := new Bit[Width](_ => 0);
      var h0, h1 := 0, 1;
      var tcbcontrol := if decipher then 8 else 0;
      ghost var m0 := m[..];
      for round := 0 to 16
        invariant h0 == round % 2 && h1 == 1 - h0
        invariant tcbcontrol == if decipher then (8 + 9 * round) % 16 else 7 * round % 16
        invariant m[..] == Rounds(m0, k[..], s1[..], decipher, round)
      {
        tcbcontrol := NextRound(m, k, tr, m0, round, h0, tcbcontrol, decipher);
        h0, h1 := h1, h0;
      }
    }

    /** `Getdval`: the 16 rounds and the final swap over the data bits `m` under key bits `k`. */
    method Getdval(decipher: bool, m: array<Bit>, k: array<Bit>)
      requires s1.Length == 16 && IsTable(s1[..])
      requires m.Length == 128 && k.Length == 128 && m != k
      modifies s1, m
      ensures s1[..] == if decipher then PatchHigh(old(s1[..])) else old(s1[..])
      ensures m[..] == Transform(old(m[..]), k[..], s1[..], decipher)
    {
      if decipher {
        PatchS1High();
      }
      AllRounds(decipher, m, k);
      ghost var r := m[..];
      FinalSwap(m);
      assert m[..] == Swap(r);
    }
  }
}
