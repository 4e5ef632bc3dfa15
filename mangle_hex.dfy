/**
 * The hex helpers of Mangle.java: `OtoX` writes each byte as two upper-case hex digits,
 * most significant nibble first; `XtoO` reads hex digits of either case back into bytes;
 * `XOR` combines two 32-digit hex strings byte by byte.
 */
module MangleHex {
  import opened Wrappers
  import opened Octets

  /** `0-9`, `A-F` or `a-f`, as ASCII codes. */
  predicate IsHexDigit(c: byte) {
    48 <= c <= 57 || 65 <= c <= 70 || 97 <= c <= 102
  }

  predicate AllHex(s: Bytes) {
    forall i :: 0 <= i < |s| ==> IsHexDigit(s[i])
  }

  /** Hex text followed by hex text is hex text. */
  lemma AllHexConcat(a: Bytes, b: Bytes)
    requires AllHex(a) && AllHex(b)
    ensures AllHex(a + b)
  {
    assert forall i :: 0 <= i < |a + b| ==> (a + b)[i] == if i < |a| then a[i] else b[i - |a|];
  }

  /** The value of one hex digit, in either case. */
  function NibbleOf(c: byte): (n: int)
    requires IsHexDigit(c)
    ensures 0 <= n < 16
  {
    if c <= 57 then c as int - 48 else if c <= 70 then c as int - 55 else c as int - 87
  }

  /** The digit `OtoX` writes for a nibble: `0-9`, then upper-case `A-F`. */
  function HexChar(n: int): (c: byte)
    requires 0 <= n < 16
    ensures IsHexDigit(c) && !(97 <= c <= 102)
    ensures NibbleOf(c) == n
  {
    if n >= 10 then (55 + n) as byte else (48 + n) as byte
  }

  /** ASCII upper-casing of one character. */
  function Upper(c: byte): byte {
    if 97 <= c <= 122 then c - 32 else c
  }

  function UpperAll(s: Bytes): (u: Bytes)
    ensures |u| == |s|
  {
    seq(|s|, i requires 0 <= i < |s| => Upper(s[i]))
  }

  /** The text `OtoX` produces: two upper-case digits per byte, high nibble first. */
  function Hex(b: Bytes): (s: Bytes)
    ensures |s| == 2 * |b| && AllHex(s)
    ensures forall i :: 0 <= i < |s| ==> !(97 <= s[i] <= 102)
  {
    seq(2 * |b|, i requires 0 <= i < 2 * |b| =>
      HexChar(if i % 2 == 0 then b[i / 2] as int / 16 else b[i / 2] as int % 16))
  }

  /**
   * The bytes `XtoO` produces from hex text: digit `2j` is the high nibble of byte `j` and
   * digit `2j + 1` its low nibble; an odd trailing digit leaves the low nibble zero.
   */
  function Unhex(s: Bytes): (b: Bytes)
    requires AllHex(s)
    ensures |b| == (|s| + 1) / 2
  {
    seq((|s| + 1) / 2, j requires 0 <= j < (|s| + 1) / 2 =>
      (16 * NibbleOf(s[2 * j]) + (if 2 * j + 1 < |s| then NibbleOf(s[2 * j + 1]) else 0)) as byte)
  }

  /** Reading back what `OtoX` wrote gives the bytes back. */
  lemma UnhexHex(b: Bytes)
    ensures Unhex(Hex(b)) == b
  {
    var s := Hex(b);
    forall j | 0 <= j < |b| ensures Unhex(s)[j] == b[j] {
      assert NibbleOf(s[2 * j]) == b[j] as int / 16;
      assert NibbleOf(s[2 * j + 1]) == b[j] as int % 16;
    }
  }

  /** Writing what `XtoO` read from an even number of digits gives the digits back, upper-cased. */
  lemma HexUnhex(s: Bytes)
    requires AllHex(s) && |s| % 2 == 0
    ensures Hex(Unhex(s)) == UpperAll(s)
  {
    var b := Unhex(s);
    forall i | 0 <= i < |s| ensures Hex(b)[i] == Upper(s[i]) {
      var j := i / 2;
      var hi, lo := NibbleOf(s[2 * j]), NibbleOf(s[2 * j + 1]);
      assert b[j] as int == 16 * hi + lo;
      assert b[j] as int / 16 == hi && b[j] as int % 16 == lo;
    }
  }

  /** Byte `j` of `XtoO`'s result once the first `i` digits have been ORed in. */
  ghost function Partial(data: Bytes, i: int, j: int): int
    requires 0 <= i <= |data| && 0 <= j
    requires forall x :: 0 <= x < i ==> IsHexDigit(data[x])
  {
    (if 2 * j < i then 16 * NibbleOf(data[2 * j]) else 0) + (if 2 * j + 1 < i then NibbleOf(data[2 * j + 1]) else 0)
  }

  /** Taking digit `i` in changes only byte `i / 2`: its high nibble when `i` is even, else its low one. */
  lemma PartialNext(data: Bytes, i: int, j: int)
    requires 0 <= i < |data| && 0 <= j
    requires forall x :: 0 <= x <= i ==> IsHexDigit(data[x])
    ensures Partial(data, i + 1, j) == if j != i / 2 then Partial(data, i, j)
      else if i % 2 == 0 then 16 * NibbleOf(data[i]) else Partial(data, i, j) + NibbleOf(data[i])
  {
  }

  /** ORing digit `i`, shifted into its nibble, into byte `i / 2` gives that byte's next partial value. */
  lemma OrDigit(data: Bytes, i: int, prev: byte)
    requires 0 <= i < |data|
    requires forall x :: 0 <= x <= i ==> IsHexDigit(data[x])
    requires prev as int == Partial(data, i, i / 2)
    ensures Or(prev, (if i % 2 == 0 then 16 * NibbleOf(data[i]) else NibbleOf(data[i])) as byte) as int
      == Partial(data, i + 1, i / 2)
  {
    PartialNext(data, i, i / 2);
    if i % 2 == 0 {
      OrNibbles(NibbleOf(data[i]), 0);
    } else {
      OrNibbles(NibbleOf(data[i - 1]), NibbleOf(data[i]));
    }
  }

  /** Once every digit is in, the bytes are those of `Unhex`. */
  lemma PartialDone(data: Bytes)
    requires AllHex(data)
    ensures forall j :: 0 <= j < |Unhex(data)| ==> Unhex(data)[j] as int == Partial(data, |data|, j)
  {
  }

  /**
   * `XtoO(data)`: fails (IllegalArgumentException) on any character that is not a hex digit,
   * otherwise packs two digits per byte.
   */
  method XtoO(data: Bytes) returns (r: Option<Bytes>)
    ensures r.Some? <==> AllHex(data)
    ensures r.Some? ==> r.value == Unhex(data) && |r.value| == (|data| + 1) / 2
  {
    var result := new byte[(|data| + 1) / 2](_ => 0);
    for i := 0 to |data|
      invariant forall x :: 0 <= x < i ==> IsHexDigit(data[x])
      invariant forall j :: 0 <= j < result.Length ==> result[j] as int == Partial(data, i, j)
    {
      var h := data[i] as int;
      if 48 <= h <= 57 {
        h := h - 48;
      } else if 65 <= h <= 70 {
        h := h - (65 - 10);
      } else if 97 <= h <= 102 {
        h := h - (97 - 10);
      } else {
        return None;
      }
      assert h == NibbleOf(data[i]);
      assert forall x :: 0 <= x < i + 1 ==> IsHexDigit(data[x]);
      // `h << 4` for an even position, `h << 0` for an odd one
      var shifted := if i % 2 == 0 then 16 * h else h;
      OrDigit(data, i, result[i / 2]);
      forall j | 0 <= j < result.Length {
        PartialNext(data, i, j);
      }
      result[i / 2] := Or(result[i / 2], shifted as byte);
    }
    PartialDone(data);
    assert result[..] == Unhex(data);
    return Some(result[..]);
  }

  /** Digits `2i` and `2i + 1` of `Hex(b)` are the high and the low nibble of `b[i]`. */
  lemma HexAt(b: Bytes, i: int)
    requires 0 <= i < |b|
    ensures Hex(b)[2 * i] == HexChar(b[i] as int / 16)
    ensures Hex(b)[2 * i + 1] == HexChar(b[i] as int % 16)
  {
  }

  /** `OtoX(data)`: two upper-case hex digits per byte. */
  method OtoX(data: Bytes) returns (r: Bytes)
    ensures r == Hex(data)
  {
    var result := new byte[|data| * 2](_ => 0);
    for i := 0 to |data|
      invariant result[..2 * i] == Hex(data)[..2 * i]
    {
      // Java widens the signed byte; its low eight bits, which are all `& 0x0F` and `>>= 4` look at,
      // are those of the unsigned value used here.
      var v := data[i] as int;
      for j := 0 to 2
        invariant j == 0 ==> v == data[i] as int
        invariant j == 1 ==> v == data[i] as int / 16
        invariant result[..2 * i] == Hex(data)[..2 * i]
        invariant j >= 1 ==> result[2 * i + 1] == HexChar(data[i] as int % 16)
        invariant j == 2 ==> result[2 * i] == HexChar(data[i] as int / 16)
      {
        var h := v % 16;
        v := v / 16;
        result[i * 2 + 1 - j] := HexChar(h);
      }
      HexAt(data, i);
      assert result[..2 * i + 2] == result[..2 * i] + [result[2 * i], result[2 * i + 1]];
      assert Hex(data)[..2 * i + 2] == Hex(data)[..2 * i] + [Hex(data)[2 * i], Hex(data)[2 * i + 1]];
    }
    assert result[..] == result[..2 * |data|];
    return result[..];
  }

  function XorBytes(x: Bytes, y: Bytes): (z: Bytes)
    requires |x| == |y|
    ensures |z| == |x|
  {
    seq(|x|, i requires 0 <= i < |x| => Xor(x[i], y[i]))
  }

  /** What `XOR(data, key)` returns: `None` for its IllegalArgumentException. */
  function XorHex(data: Bytes, key: Bytes): (r: Option<Bytes>)
    ensures r.Some? <==> |data| == 32 && |key| == 32 && AllHex(data) && AllHex(key)
    ensures r.Some? ==> |r.value| == 32 && AllHex(r.value)
  {
    if |data| != 32 || |key| != 32 || !AllHex(data) || !AllHex(key) then None
    else Some(Hex(XorBytes(Unhex(key), Unhex(data))))
  }

  /**
   * `XOR(data, key)`: both arguments must be 32 hex digits; the result is the hex text of
   * the byte-wise XOR of the 16 bytes they stand for.
   */
  method XOR(data: Bytes, key: Bytes) returns (r: Option<Bytes>)
    ensures r == XorHex(data, key)
  {
    if |data| != 32 || |key| != 32 {
      return None;
    }
    var src := XtoO(data);
    if src.None? {
      return None;
    }
    var buf := XtoO(key);
    if buf.None? {
      return None;
    }
    var b := buf.value;
    for i := 0 to 16
      invariant |b| == 16
      invariant forall j :: 0 <= j < 16 ==> b[j] == if j < i then Xor(buf.value[j], src.value[j]) else buf.value[j]
    {
      b := b[i := Xor(b[i], src.value[i])];
    }
    assert b == XorBytes(Unhex(key), Unhex(data));
    var text := OtoX(b);
    return Some(text);
  }

  /** `XOR` does not care which argument is which. */
  lemma XorHexCommutes(a: Bytes, b: Bytes)
    ensures XorHex(a, b) == XorHex(b, a)
  {
    if XorHex(a, b).Some? {
      var x, y := Unhex(a), Unhex(b);
      forall i | 0 <= i < 16 ensures XorBytes(y, x)[i] == XorBytes(x, y)[i] {
        XorLaws(y[i], x[i]);
      }
      assert XorBytes(y, x) == XorBytes(x, y);
    }
  }

  /** XOR-ing twice with the same hex string gives back the other argument, in upper case. */
  lemma XorHexCancels(a: Bytes, b: Bytes)
    requires XorHex(a, b).Some?
    ensures XorHex(a, XorHex(a, b).value) == Some(UpperAll(b))
  {
    var x, y := Unhex(a), Unhex(b);
    var z := XorBytes(y, x);
    UnhexHex(z);
    forall i | 0 <= i < 16 ensures XorBytes(z, x)[i] == y[i] {
      XorLaws(y[i], x[i]);
    }
    assert XorBytes(z, x) == y;
    HexUnhex(b);
  }
}
