/**
 * The wire frame of Message.java: `serialize` and `recv`.
 *
 * A frame is one checksum byte (the XOR of the four length bytes only), a four-byte
 * little-endian payload length, then the payload: one record `name 0x00 len32 value 0x00`
 * per parameter (in key order), then one per positional argument (with an empty name).
 * The input stream of `recv` is modelled as the sequence of bytes it will deliver.
 */
module Codec {
  import opened Wrappers
  import opened Octets
  import opened Messages
  import JavaInt

  datatype CodecError =
    | ChecksumMismatch   // "Checksum mismatch"
    | UnexpectedEnd      // "Unexpected end of stream"
    | BadName            // "Can't parse parameter name"
    | BadValue           // "Can't parse parameter value"

  /** The checksum byte over the four length bytes. */
  function Checksum(len: Bytes): byte
    requires |len| == 4
  {
    Xor(Xor(Xor(len[0], len[1]), len[2]), len[3])
  }

  /** `c` with the first `i` bytes of `h` XORed into it, one at a time. */
  function XorFold(c: byte, h: Bytes, i: nat): byte
    requires i <= |h|
  {
    if i == 0 then c else Xor(XorFold(c, h, i - 1), h[i - 1])
  }

  /** Folding the length bytes into a zero byte, as `serialize` does, gives the checksum. */
  lemma ChecksumFold(h: Bytes)
    requires |h| == 4
    ensures XorFold(0, h, 4) == Checksum(h)
  {
    XorLaws(h[0], 0);
    assert XorFold(0, h, 1) == h[0];
    assert XorFold(0, h, 3) == Xor(Xor(h[0], h[1]), h[2]);
  }

  /** Folding the length bytes into the received checksum, as `recv` does, gives zero exactly when it matches. */
  lemma ChecksumZero(c: byte, h: Bytes)
    requires |h| == 4
    ensures XorFold(c, h, 4) == 0 <==> c == Checksum(h)
  {
    XorAssociates(c, h[0], h[1]);
    XorAssociates(c, Xor(h[0], h[1]), h[2]);
    XorAssociates(c, Xor(Xor(h[0], h[1]), h[2]), h[3]);
    assert XorFold(c, h, 1) == Xor(c, h[0]);
    assert XorFold(c, h, 2) == Xor(Xor(c, h[0]), h[1]);
    assert XorFold(c, h, 4) == Xor(Xor(XorFold(c, h, 2), h[2]), h[3]);
    assert XorFold(c, h, 4) == Xor(c, Checksum(h));
    XorLaws(c, Checksum(h));
    XorLaws(Checksum(h), Checksum(h));
    if Xor(c, Checksum(h)) == 0 {
      XorInjective(Checksum(h), c, Checksum(h));
    }
  }

  /** One record: name, NUL, value length, value, NUL. */
  function Record(name: Bytes, value: Bytes): (r: Bytes)
    ensures |r| == |name| + |value| + 6
  {
    name + [0] + Le32(|value|) + value + [0]
  }

  /** The records of a list of (name, value) entries, in order. */
  function Records(rs: seq<Entry>): Bytes {
    if |rs| == 0 then [] else Record(rs[0].0, rs[0].1) + Records(rs[1..])
  }

  lemma {:induction false} RecordsAppend(xs: seq<Entry>, ys: seq<Entry>)
    ensures Records(xs + ys) == Records(xs) + Records(ys)
    decreases |xs|
  {
    if |xs| == 0 {
      assert xs + ys == ys;
    } else {
      assert (xs + ys)[1..] == xs[1..] + ys;
      RecordsAppend(xs[1..], ys);
    }
  }

  lemma RecordsCons(name: Bytes, value: Bytes, rest: seq<Entry>)
    ensures Records([(name, value)] + rest) == Record(name, value) + Records(rest)
  {
    assert ([(name, value)] + rest)[1..] == rest;
  }

  lemma SliceJoin(buf: Bytes, lo: nat, mid: nat)
    requires lo <= mid <= |buf|
    ensures buf[lo..] == buf[lo..mid] + buf[mid..]
  {
  }

  lemma RecordsSingle(x: Entry)
    ensures Records([x]) == Record(x.0, x.1)
  {
    assert [x][1..] == [];
  }

  /** Every value is shorter than the records holding it. */
  lemma {:induction false} ValueShorter(rs: seq<Entry>, i: nat)
    requires i < |rs|
    ensures |rs[i].1| < |Records(rs)|
    decreases |rs|
  {
    if i > 0 {
      ValueShorter(rs[1..], i - 1);
    }
  }

  lemma RecordsSnoc(rs: seq<Entry>, i: nat)
    requires i < |rs|
    ensures Records(rs[..i + 1]) == Records(rs[..i]) + Record(rs[i].0, rs[i].1)
  {
    assert rs[..i + 1] == rs[..i] + [rs[i]];
    RecordsAppend(rs[..i], [rs[i]]);
    RecordsSingle(rs[i]);
  }

  /** Positional arguments travel as records with an empty name. */
  function ArgEntries(args: seq<Bytes>): (rs: seq<Entry>)
    ensures |rs| == |args|
    ensures forall i :: 0 <= i < |args| ==> rs[i] == ([], args[i])
  {
    seq(|args|, i requires 0 <= i < |args| => ([], args[i]))
  }

  /** The entries a message is sent as: parameters in key order, then the arguments. */
  function Entries(m: Message): seq<Entry> {
    m.params + ArgEntries(m.args)
  }

  function Payload(m: Message): Bytes {
    Records(Entries(m))
  }

  /** The whole frame `serialize` produces. */
  function Frame(m: Message): (f: Bytes)
    ensures |f| == |Payload(m)| + 5
  {
    var len := Le32(|Payload(m)|);
    [Checksum(len)] + len + Payload(m)
  }

  /** Java arrays hold at most `Integer.MAX_VALUE` bytes: every frame the source can build fits. */
  ghost predicate Fits(m: Message) {
    |Payload(m)| + 5 <= JavaInt.MaxInt
  }

  /** Each value `serialize` writes has a length that fits an `int`. */
  lemma EntryFits(m: Message, i: nat)
    requires Fits(m) && i < |m.params| + |m.args|
    ensures |Entries(m)[i].1| <= JavaInt.MaxInt
    ensures i < |m.params| ==> Entries(m)[i] == m.params[i]
    ensures i >= |m.params| ==> Entries(m)[i] == ([], m.args[i - |m.params|])
  {
    ValueShorter(Entries(m), i);
  }

  /** `write32(stream, value)`: append the four bytes of `value`, low byte first. */
  method Write32(stream: Bytes, value: nat) returns (out: Bytes)
    requires value <= JavaInt.MaxInt
    ensures out == stream + Le32(value)
  {
    var v := value;
    out := stream;
    for i := 0 to 4
      invariant v == [value, value / 256, value / 256 / 256, value / 256 / 256 / 256, 0][i] || i == 4
      invariant out == stream + Le32(value)[..i]
    {
      out := out + [(v % 256) as byte];
      v := v / 256;
    }
  }

  /** The body of the parameter loop of `serialize`: name, NUL, length, value, NUL. */
  method WriteRecord(writer: Bytes, name: Bytes, value: Bytes) returns (out: Bytes)
    requires |value| <= JavaInt.MaxInt
    ensures out == writer + Record(name, value)
  {
    out := writer + name + [0];
    out := Write32(out, |value|);
    out := out + value + [0];
  }

  /**
   * `serialize()`: the header is written as zeros, the records appended, then the four
   * length bytes are patched in and the checksum byte is their XOR.
   */
  method Serialize(m: Message) returns (frame: Bytes)
    requires Fits(m)
    ensures frame == Frame(m)
  {
    var writer: Bytes := [0];
    writer := Write32(writer, 0);
    writer := WriteParams(writer, m);
    writer := WriteArgs(writer, m);
    RecordsAppend(m.params, ArgEntries(m.args));
    assert writer == [0] + Le32(0) + Payload(m);
    frame := PatchHeader(writer);
  }

  /** The parameter loop of `serialize`: one record per entry, in key order. */
  method WriteParams(writer: Bytes, m: Message) returns (out: Bytes)
    requires Fits(m)
    ensures out == writer + Records(m.params)
  {
    var ps := m.params;
    out := writer;
    for i := 0 to |ps|
      invariant out == writer + Records(ps[..i])
    {
      EntryFits(m, i);
      out := WriteRecord(out, ps[i].0, ps[i].1);
      RecordsSnoc(ps, i);
    }
    assert ps[..|ps|] == ps;
  }

  /** The argument loop of `serialize`: a NUL for the empty name, then length, value and NUL. */
  method WriteArgs(writer: Bytes, m: Message) returns (out: Bytes)
    requires Fits(m)
    ensures out == writer + Records(ArgEntries(m.args))
  {
    ghost var args := ArgEntries(m.args);
    out := writer;
    for i := 0 to |m.args|
      invariant out == writer + Records(args[..i])
    {
      out := out + [0];
      EntryFits(m, |m.params| + i);
      out := Write32(out, |m.args[i]|);
      out := out + m.args[i] + [0];
      RecordsSnoc(args, i);
    }
    assert args[..|args|] == args;
  }

  /** The tail of `serialize`: copy to an array, write the length bytes and then the checksum byte. */
  method PatchHeader(writer: Bytes) returns (frame: Bytes)
    requires 5 <= |writer| <= JavaInt.MaxInt && writer[..5] == [0, 0, 0, 0, 0]
    ensures var len := Le32(|writer| - 5); frame == [Checksum(len)] + len + writer[5..]
  {
    var buffer := new byte[|writer|](j requires 0 <= j < |writer| reads {} => writer[j]);
    var checksum := WriteLength(buffer);
    ghost var len := Le32(|writer| - 5);
    buffer[0] := checksum;
    ChecksumFold(len);
    frame := buffer[..];
    ghost var expected := [Checksum(len)] + len + writer[5..];
    assert forall j :: 0 <= j < |frame| ==> frame[j] == expected[j];
  }

  /** The length loop of `serialize`: bytes 1 to 4 get the payload length, low byte first, and their XOR is returned. */
  method WriteLength(buffer: array<byte>) returns (checksum: byte)
    requires 5 <= buffer.Length
    modifies buffer
    ensures checksum == XorFold(0, Le32(buffer.Length - 5), 4)
    ensures buffer[0] == old(buffer[0]) && buffer[1..5] == Le32(buffer.Length - 5)
    ensures buffer[5..] == old(buffer[5..])
  {
    var length := buffer.Length - 5;
    ghost var n := length;
    ghost var len := Le32(n);
    checksum := 0;
    for i := 0 to 4
      invariant length == Shift(n, i)
      invariant buffer[0] == old(buffer[0]) && buffer[1..i + 1] == len[..i]
      invariant buffer[5..] == old(buffer[5..])
      invariant checksum == XorFold(0, len, i)
    {
      Le32Shift(n, i);
      buffer[i + 1] := (length % 256) as byte;
      checksum := Xor(checksum, (length % 256) as byte);
      length := length / 256;
    }
  }

  /** `length >> (8 * i)` for a non-negative length. */
  ghost function Shift(n: nat, i: nat): nat {
    if i == 0 then n else Shift(n, i - 1) / 256
  }

  /** Byte `i` of `Le32(n)` is the low byte of `n >> (8 * i)`. */
  lemma Le32Shift(n: nat, i: nat)
    requires i < 4
    ensures Le32(n)[i] == (Shift(n, i) % 256) as byte
  {
    assert Shift(n, 1) == n / 256;
    assert Shift(n, 3) == n / 256 / 256 / 256;
  }

  // ----- Parsing -----

  /** The first position at or after `start` holding `b`, or -1. */
  function FindByte(buf: Bytes, start: nat, b: byte): (r: int)
    requires start <= |buf|
    ensures r == -1 || start <= r < |buf|
    ensures r >= 0 ==> buf[r] == b && forall i :: start <= i < r ==> buf[i] != b
    ensures r == -1 ==> forall i :: start <= i < |buf| ==> buf[i] != b
    decreases |buf| - start
  {
    if start == |buf| then -1
    else if buf[start] == b then start
    else FindByte(buf, start + 1, b)
  }

  /** `indexOf(buf, startPosition, b)`. */
  method IndexOf(buf: Bytes, startPosition: nat, b: byte) returns (r: int)
    requires startPosition <= |buf|
    ensures r == FindByte(buf, startPosition, b)
  {
    var i := startPosition;
    while i < |buf|
      invariant startPosition <= i <= |buf|
      invariant FindByte(buf, startPosition, b) == FindByte(buf, i, b)
    {
      if buf[i] == b {
        return i;
      }
      i := i + 1;
    }
    return -1;
  }

  /** `read32` with the bounds check the reader needs: four bytes must be left, read as unsigned. */
  function Word32At(buf: Bytes, offset: nat): (r: Result<nat, CodecError>)
    ensures r.Ok? <==> offset + 4 <= |buf|
    ensures r.Ok? ==> r.value == Le32Value(buf[offset..offset + 4])
    ensures r.Err? ==> r.error == UnexpectedEnd
  {
    if offset + 4 > |buf| then Err(UnexpectedEnd) else Ok(Le32Value(buf[offset..offset + 4]))
  }

  /**
   * `read32(stream)` and the corrected `read32(buf, offset)`: four bytes, least significant
   * first, or "Unexpected end of stream" when fewer are left.
   */
  method Read32(buf: Bytes, offset: nat) returns (r: Result<nat, CodecError>)
    ensures r == Word32At(buf, offset)
  {
    if offset + 4 > |buf| {
      return Err(UnexpectedEnd);
    }
    // The four shifted bytes occupy disjoint bits, so Java's `|=` adds them.
    var result := 0;
    for i := 0 to 4
      invariant result == Le32Value(buf[offset..offset + i] + [0, 0, 0, 0][i..])
    {
      result := result + buf[i + offset] as nat * [1, 0x100, 0x1_0000, 0x100_0000][i];
    }
    assert buf[offset..offset + 4] + [0, 0, 0, 0][4..] == buf[offset..offset + 4];
    return Ok(result);
  }

  /**
   * One record of the payload starting at `pos`: its name, its value and the position after it.
   * A missing name terminator, a length or value running past the payload, and a non-zero byte
   * after the value are the ways a record is refused.
   */
  function ParseRecord(buf: Bytes, pos: nat): (r: Result<(Bytes, Bytes, nat), CodecError>)
    requires pos < |buf|
    ensures r != Err(ChecksumMismatch)
    ensures r.Ok? ==> pos < r.value.2 <= |buf|
    ensures r.Ok? ==> buf[pos..r.value.2] == Record(r.value.0, r.value.1)
    ensures r.Ok? ==> 0 !in r.value.0
  {
    var end := FindByte(buf, pos, 0);
    if end < 0 then Err(BadName)
    else
      match Word32At(buf, end + 1)
      case Err(e) => Err(e)
      case Ok(len) =>
        var q := end + 5;
        if len + q + 1 > |buf| then Err(UnexpectedEnd)
        else if buf[q + len] != 0 then Err(BadValue)
        else
          RecordFromParts(buf, pos, end, len);
          Ok((buf[pos..end], buf[q..q + len], q + len + 1))
  }

  /** A name, its NUL, a length field, that many bytes and a NUL make up one record. */
  lemma RecordFromParts(buf: Bytes, pos: nat, end: nat, len: nat)
    requires pos <= end && end + len + 6 <= |buf|
    requires buf[end] == 0 && buf[end + 5 + len] == 0
    requires len == Le32Value(buf[end + 1..end + 5])
    ensures buf[pos..end + len + 6] == Record(buf[pos..end], buf[end + 5..end + 5 + len])
  {
    Le32Bytes(buf[end + 1..end + 5]);
    assert buf[pos..end + len + 6]
        == buf[pos..end] + [buf[end]] + buf[end + 1..end + 5] + buf[end + 5..end + 5 + len] + [buf[end + 5 + len]];
  }

  /** The successful path of `ParseRecord`, spelled out for the loop of `recv`. */
  lemma ParseRecordOk(buf: Bytes, pos: nat, end: int, len: nat, name: Bytes, value: Bytes, next: nat)
    requires pos < |buf| && end == FindByte(buf, pos, 0) && end >= 0
    requires Word32At(buf, end + 1) == Ok(len)
    requires next == end + len + 6 && next <= |buf| && buf[next - 1] == 0
    requires name == buf[pos..end] && value == buf[end + 5..next - 1]
    ensures ParseRecord(buf, pos) == Ok((name, value, next))
  {
  }

  /** The path of `ParseRecord` that finds no NUL after the value. */
  lemma ParseRecordBadValue(buf: Bytes, pos: nat, end: int, len: nat)
    requires pos < |buf| && end == FindByte(buf, pos, 0) && end >= 0
    requires Word32At(buf, end + 1) == Ok(len)
    requires end + len + 6 <= |buf| && buf[end + len + 5] != 0
    ensures ParseRecord(buf, pos) == Err(BadValue)
  {
  }

  /**
   * The records from `pos` to the end of the payload; ParseRecordsCover shows that they are
   * exactly what was there.
   */
  function ParseRecords(buf: Bytes, pos: nat): (r: Result<seq<Entry>, CodecError>)
    requires pos <= |buf|
    ensures r != Err(ChecksumMismatch)
    ensures r.Ok? ==> forall i :: 0 <= i < |r.value| ==> 0 !in r.value[i].0
    decreases |buf| - pos
  {
    if pos == |buf| then Ok([])
    else
      match ParseRecord(buf, pos)
      case Err(e) => Err(e)
      case Ok((name, value, next)) =>
        match ParseRecords(buf, next)
        case Err(e) => Err(e)
        case Ok(rest) => Ok([(name, value)] + rest)
  }

  /** What is parsed is exactly what was there: the records of the result make up the rest of the payload. */
  lemma {:induction false} ParseRecordsCover(buf: Bytes, pos: nat)
    requires pos <= |buf| && ParseRecords(buf, pos).Ok?
    ensures Records(ParseRecords(buf, pos).value) == buf[pos..]
    decreases |buf| - pos
  {
    if pos < |buf| {
      var (name, value, next) := ParseRecord(buf, pos).value;
      ParseRecordsCover(buf, next);
      RecordsCons(name, value, ParseRecords(buf, next).value);
      SliceJoin(buf, pos, next);
    }
  }

  /** `builder.param(name, value)` as applied to each parsed record. */
  function AddRecord(acc: Message, name: Bytes, value: Bytes): (r: Message)
    requires WellFormed(acc)
    ensures WellFormed(r)
  {
    if name == [] then Message(acc.params, acc.args + [value])
    else
      PutKeepsNamed(acc.params, name, value);
      Message(Put(acc.params, name, value), acc.args)
  }

  /** The builder after it has been given each entry in turn. */
  function Assemble(acc: Message, rs: seq<Entry>): (r: Message)
    requires WellFormed(acc)
    ensures WellFormed(r)
    decreases |rs|
  {
    if |rs| == 0 then acc else Assemble(AddRecord(acc, rs[0].0, rs[0].1), rs[1..])
  }

  /** The rest of the payload from `pos` parsed and given to a builder holding `acc`. */
  function Decode(buf: Bytes, pos: nat, acc: Message): (r: Result<Message, CodecError>)
    requires pos <= |buf| && WellFormed(acc)
    ensures r != Err(ChecksumMismatch)
  {
    match ParseRecords(buf, pos)
    case Err(e) => Err(e)
    case Ok(rs) => Ok(Assemble(acc, rs))
  }

  /** What `recv` returns for a stream holding `s`: the first frame's message, or why it was refused. */
  function ParseFrame(s: Bytes): (r: Result<Message, CodecError>)
    ensures r.Ok? ==> WellFormed(r.value)
  {
    if |s| < 5 then Err(UnexpectedEnd)
    else if s[0] != Checksum(s[1..5]) then Err(ChecksumMismatch)
    else
      var length := Le32Value(s[1..5]);
      if 5 + length > |s| then Err(UnexpectedEnd)
      else Decode(s[5..5 + length], 0, Empty)
  }

  /** `recv(stream)`: check the header, read the payload, then parse records until it is used up. */
  method Recv(s: Bytes) returns (r: Result<Message, CodecError>)
    ensures r == ParseFrame(s)
  {
    // `stream.read()` of the checksum byte; on an empty stream the length read fails next.
    var checksum: byte := if |s| > 0 then s[0] else 0;
    var word := Read32(s, 1);
    if word.Err? {
      return Err(word.error);
    }
    var length := word.value;
    ghost var h := s[1..5];
    Le32Bytes(h);
    var shifted := length;  // `length >> (i << 3)`
    for i := 0 to 4
      invariant shifted == Shift(length, i)
      invariant checksum == XorFold(s[0], h, i)
    {
      Le32Shift(length, i);
      checksum := Xor(checksum, (shifted % 256) as byte);
      shifted := shifted / 256;
    }
    ChecksumZero(s[0], h);
    if checksum != 0 {
      return Err(ChecksumMismatch);
    }
    if 5 + length > |s| {
      return Err(UnexpectedEnd);
    }
    r := ParsePayload(s[5..5 + length]);
  }

  /** A record refused at `pos` ends decoding with its error. */
  lemma DecodeError(buf: Bytes, pos: nat, acc: Message)
    requires pos < |buf| && WellFormed(acc) && ParseRecord(buf, pos).Err?
    ensures Decode(buf, pos, acc) == Err(ParseRecord(buf, pos).error)
  {
  }

  /** A record accepted at `pos` is handed to the builder and decoding goes on after it. */
  lemma DecodeStep(buf: Bytes, pos: nat, acc: Message, name: Bytes, value: Bytes, next: nat)
    requires pos < |buf| && WellFormed(acc) && ParseRecord(buf, pos) == Ok((name, value, next))
    ensures Decode(buf, pos, acc) == Decode(buf, next, AddRecord(acc, name, value))
  {
    match ParseRecords(buf, next)
    case Err(e) =>
    case Ok(rest) =>
      assert ([(name, value)] + rest)[1..] == rest;
  }

  /** The value the last of `rs` named `k` carries, else `d`: a TreeMap fed the entries in turn. */
  function LastValue(rs: seq<Entry>, k: Bytes, d: Option<Bytes>): Option<Bytes>
    decreases |rs|
  {
    if |rs| == 0 then d else LastValue(rs[1..], k, if rs[0].0 == k then Some(rs[0].1) else d)
  }

  /** Handing entries to the builder leaves each name with the value of its last record. */
  lemma {:induction false} AssembleLookup(acc: Message, rs: seq<Entry>, k: Bytes)
    requires WellFormed(acc) && k != []
    ensures Lookup(Assemble(acc, rs).params, k) == LastValue(rs, k, Lookup(acc.params, k))
    decreases |rs|
  {
    if |rs| > 0 {
      var next := AddRecord(acc, rs[0].0, rs[0].1);
      if rs[0].0 != [] {
        LookupPut(acc.params, rs[0].0, rs[0].1, k);
      }
      AssembleLookup(next, rs[1..], k);
    }
  }

  /**
   * A name that several records of one payload carry ends up with the value of the last of
   * them, because each record is `put` into the builder's map.
   */
  lemma DecodeLastWins(buf: Bytes, pos: nat, acc: Message, k: Bytes)
    requires pos <= |buf| && WellFormed(acc) && k != [] && ParseRecords(buf, pos).Ok?
    ensures Decode(buf, pos, acc).Ok?
    ensures Lookup(Decode(buf, pos, acc).value.params, k) == LastValue(ParseRecords(buf, pos).value, k, Lookup(acc.params, k))
  {
    AssembleLookup(acc, ParseRecords(buf, pos).value, k);
  }

  /** The record loop of `recv`: parse records and hand each to the builder until the payload is used up. */
  method ParsePayload(buf: Bytes) returns (r: Result<Message, CodecError>)
    ensures r == Decode(buf, 0, Empty)
  {
    var builder := new Builder();
    var position := 0;
    while position < |buf|
      invariant 0 <= position <= |buf|
      invariant builder.Valid()
      invariant Decode(buf, position, builder.Build()) == Decode(buf, 0, Empty)
      decreases |buf| - position
    {
      ghost var acc := builder.Build();
      var record := ReadRecord(buf, position);
      if record.Err? {
        DecodeError(buf, position, acc);
        return Err(record.error);
      }
      var (name, value, next) := record.value;
      DecodeStep(buf, position, acc, name, value, next);
      builder.Param(name, Some(value));
      assert builder.Build() == AddRecord(acc, name, value);
      position := next;
    }
    return Ok(builder.Build());
  }

  /** The body of the record loop of `recv`: name up to its NUL, length, value, and the closing NUL. */
  method ReadRecord(buf: Bytes, start: nat) returns (r: Result<(Bytes, Bytes, nat), CodecError>)
    requires start < |buf|
    ensures r == ParseRecord(buf, start)
  {
    var position := start;
    var end := IndexOf(buf, position, 0);
    if end < 0 {
      return Err(BadName);
    }
    var name := buf[position..end];
    position := end + 1;
    var len := Read32(buf, position);
    if len.Err? {
      return Err(len.error);
    }
    position := position + 4;
    if len.value + position + 1 > |buf| {
      return Err(UnexpectedEnd);
    }
    var value := buf[position..position + len.value];
    position := position + len.value;
    if buf[position] != 0 {
      ParseRecordBadValue(buf, start, end, len.value);
      return Err(BadValue);
    }
    position := position + 1;
    ParseRecordOk(buf, start, end, len.value, name, value, position);
    return Ok((name, value, position));
  }

  // ----- Properties of the frame format -----

  /** The checksum is the XOR of the length bytes, which encode the payload length. */
  lemma FrameHeader(m: Message)
    requires Fits(m)
    ensures Frame(m)[0] == Checksum(Frame(m)[1..5])
    ensures Le32Value(Frame(m)[1..5]) == |Frame(m)| - 5
  {
    Le32RoundTrip(|Payload(m)|);
    assert Frame(m)[1..5] == Le32(|Payload(m)|);
  }

  /** Changing any one length byte of a frame with a good checksum is always caught. */
  lemma HeaderCorruptionDetected(f: Bytes, i: nat, b: byte)
    requires |f| >= 5 && f[0] == Checksum(f[1..5])
    requires 1 <= i < 5 && b != f[i]
    ensures ParseFrame(f[i := b]) == Err(ChecksumMismatch)
  {
    var g := f[i := b];
    var h, k := f[1..5], g[1..5];
    assert k == h[i - 1 := b];
    if Checksum(k) == Checksum(h) {
      var x1, y1 := Xor(h[0], h[1]), Xor(k[0], k[1]);
      var x2, y2 := Xor(x1, h[2]), Xor(y1, k[2]);
      if i == 4 { XorInjective(x2, h[3], k[3]); }
      else {
        XorInjective(h[3], x2, y2);
        if i == 3 { XorInjective(x1, h[2], k[2]); }
        else {
          XorInjective(h[2], x1, y1);
          if i == 2 { XorInjective(h[0], h[1], k[1]); } else { XorInjective(h[1], h[0], k[0]); }
        }
      }
    }
  }

  /** Payload bytes are not covered: changing one never makes the checksum fail. */
  lemma PayloadNotCovered(f: Bytes, i: nat, b: byte)
    requires |f| >= 5 && f[0] == Checksum(f[1..5])
    requires 5 <= i < |f|
    ensures ParseFrame(f[i := b]) != Err(ChecksumMismatch)
  {
    var g := f[i := b];
    assert g[1..5] == f[1..5];
  }

  /** A frame cut short anywhere is refused as an unexpected end of stream. */
  lemma TruncatedFrame(m: Message, k: nat)
    requires Fits(m) && k < |Frame(m)|
    ensures ParseFrame(Frame(m)[..k]) == Err(UnexpectedEnd)
  {
    if k >= 5 {
      var f := Frame(m);
      var t := f[..k];
      FrameHeader(m);
      assert t[1..5] == f[1..5] && t[0] == f[0];
      assert 5 + Le32Value(t[1..5]) > |t|;
    }
  }

  /** Names the round trip needs: no NUL inside a parameter name. */
  ghost predicate Encodable(m: Message) {
    WellFormed(m) && Fits(m) && forall i :: 0 <= i < |m.params| ==> 0 !in m.params[i].0
  }

  /** The record at `pos` of `buf` parses back to its name and value. */
  lemma ParseRecordAt(buf: Bytes, pos: nat, name: Bytes, value: Bytes)
    requires pos + |Record(name, value)| <= |buf|
    requires buf[pos..pos + |Record(name, value)|] == Record(name, value)
    requires 0 !in name && |value| < 0x1_0000_0000
    ensures ParseRecord(buf, pos) == Ok((name, value, pos + |Record(name, value)|))
  {
    RecordLayout(buf, pos, name, value);
    var end := pos + |name|;
    forall k | pos <= k < end ensures buf[k] != 0 {
      assert buf[k] == buf[pos..end][k - pos];
    }
    assert FindByte(buf, pos, 0) == end;
    Le32RoundTrip(|value|);
  }

  /** Where the parts of a record lie in a buffer holding it. */
  lemma RecordLayout(buf: Bytes, pos: nat, name: Bytes, value: Bytes)
    requires pos + |Record(name, value)| <= |buf|
    requires buf[pos..pos + |Record(name, value)|] == Record(name, value)
    ensures buf[pos..pos + |name|] == name
    ensures buf[pos + |name|] == 0
    ensures buf[pos + |name| + 1..pos + |name| + 5] == Le32(|value|)
    ensures buf[pos + |name| + 5..pos + |name| + 5 + |value|] == value
    ensures buf[pos + |name| + 5 + |value|] == 0
  {
    var r, n := Record(name, value), |name|;
    RecordParts(name, value);
    SubSlice(buf, pos, r, 0, n);
    SubSlice(buf, pos, r, n + 1, n + 5);
    SubSlice(buf, pos, r, n + 5, n + 5 + |value|);
    assert buf[pos + n] == buf[pos..pos + |r|][n];
    assert buf[pos + n + 5 + |value|] == buf[pos..pos + |r|][n + 5 + |value|];
  }

  /** The parts of a record, by position. */
  lemma RecordParts(name: Bytes, value: Bytes)
    ensures var r, n := Record(name, value), |name|;
      && r[..n] == name && r[n] == 0 && r[n + 1..n + 5] == Le32(|value|)
      && r[n + 5..n + 5 + |value|] == value && r[n + 5 + |value|] == 0
  {
  }

  lemma SubSlice(buf: Bytes, pos: nat, w: Bytes, a: nat, b: nat)
    requires pos + |w| <= |buf| && buf[pos..pos + |w|] == w && a <= b <= |w|
    ensures buf[pos + a..pos + b] == w[a..b]
  {
    forall k | 0 <= k < b - a ensures buf[pos + a..pos + b][k] == w[a..b][k] {
      assert buf[pos + a + k] == buf[pos..pos + |w|][a + k];
    }
  }

  /** Records whose names hold no NUL and whose values fit the length field parse back to their entries. */
  lemma {:induction false} ParseRecordsOf(buf: Bytes, pos: nat, rs: seq<Entry>)
    requires pos <= |buf| && buf[pos..] == Records(rs)
    requires forall i :: 0 <= i < |rs| ==> 0 !in rs[i].0 && |rs[i].1| < 0x1_0000_0000
    ensures ParseRecords(buf, pos) == Ok(rs)
    decreases |rs|
  {
    if |rs| > 0 {
      var rec := Record(rs[0].0, rs[0].1);
      SplitSuffix(buf, pos, rec, Records(rs[1..]));
      ParseRecordAt(buf, pos, rs[0].0, rs[0].1);
      ParseRecordsOf(buf, pos + |rec|, rs[1..]);
      ParseRecordsCons(buf, pos, rs[0].0, rs[0].1, pos + |rec|, rs[1..]);
      assert [(rs[0].0, rs[0].1)] + rs[1..] == rs;
    }
  }

  /** A record accepted at `pos` followed by records accepted after it. */
  lemma ParseRecordsCons(buf: Bytes, pos: nat, name: Bytes, value: Bytes, next: nat, rest: seq<Entry>)
    requires pos < |buf| && ParseRecord(buf, pos) == Ok((name, value, next))
    requires ParseRecords(buf, next) == Ok(rest)
    ensures ParseRecords(buf, pos) == Ok([(name, value)] + rest)
  {
  }

  lemma SplitSuffix(buf: Bytes, pos: nat, a: Bytes, b: Bytes)
    requires pos <= |buf| && buf[pos..] == a + b
    ensures pos + |a| <= |buf|
    ensures buf[pos..pos + |a|] == a && buf[pos + |a|..] == b
  {
    assert buf[pos..pos + |a|] == buf[pos..][..|a|];
    assert buf[pos + |a|..] == buf[pos..][|a|..];
  }

  lemma {:induction false} AssembleAppend(acc: Message, xs: seq<Entry>, ys: seq<Entry>)
    requires WellFormed(acc)
    ensures Assemble(acc, xs + ys) == Assemble(Assemble(acc, xs), ys)
    decreases |xs|
  {
    if |xs| == 0 {
      assert xs + ys == ys;
    } else {
      assert (xs + ys)[1..] == xs[1..] + ys;
      AssembleAppend(AddRecord(acc, xs[0].0, xs[0].1), xs[1..], ys);
    }
  }

  /** Parameters arriving in increasing key order are appended to the map one after another. */
  lemma {:induction false} AssembleParams(pre: Params, ps: Params)
    requires Sorted(pre + ps) && NamedKeys(pre + ps)
    requires Sorted(pre) && NamedKeys(pre)
    ensures Assemble(Message(pre, []), ps) == Message(pre + ps, [])
    decreases |ps|
  {
    if |ps| == 0 {
      assert pre + ps == pre;
    } else {
      var all := pre + ps;
      assert ps[0] == all[|pre|];
      assert pre + [ps[0]] == all[..|pre| + 1];
      forall i | 0 <= i < |pre| ensures Less(pre[i].0, ps[0].0) {
        assert pre[i] == all[i];
      }
      PutGreatestAppends(pre, ps[0].0, ps[0].1);
      assert (pre + [ps[0]]) + ps[1..] == all;
      AssembleParams(pre + [ps[0]], ps[1..]);
    }
  }

  /** Positional arguments are appended in order. */
  lemma {:induction false} AssembleArgs(ps: Params, pre: seq<Bytes>, args: seq<Bytes>)
    requires Sorted(ps) && NamedKeys(ps)
    ensures Assemble(Message(ps, pre), ArgEntries(args)) == Message(ps, pre + args)
    decreases |args|
  {
    if |args| == 0 {
      assert pre + args == pre;
    } else {
      assert ArgEntries(args)[1..] == ArgEntries(args[1..]);
      assert (pre + [args[0]]) + args[1..] == pre + args;
      AssembleArgs(ps, pre + [args[0]], args[1..]);
    }
  }

  /**
   * `recv` gives back every message `serialize` can frame whose names hold no NUL byte,
   * whatever follows the frame in the stream.
   */
  lemma RoundTrip(m: Message, rest: Bytes)
    requires Encodable(m)
    ensures ParseFrame(Frame(m) + rest) == Ok(m)
  {
    var f, payload := Frame(m) + rest, Payload(m);
    FrameHeader(m);
    assert f[..|Frame(m)|] == Frame(m);
    assert f[1..5] == Frame(m)[1..5];
    assert f[5..5 + |payload|] == payload;
    var es := Entries(m);
    forall i | 0 <= i < |es| ensures 0 !in es[i].0 && |es[i].1| < 0x1_0000_0000 {
      ValueShorter(es, i);
    }
    assert payload[0..] == payload;
    ParseRecordsOf(payload, 0, es);
    AssembleAppend(Empty, m.params, ArgEntries(m.args));
    assert [] + m.params == m.params;
    AssembleParams([], m.params);
    AssembleArgs(m.params, [], m.args);
    assert [] + m.args == m.args;
  }

  /** What `serialize` emits, `recv` reads back: the method-level statement of the round trip. */
  method SendThenRecv(m: Message) returns (r: Result<Message, CodecError>)
    requires Encodable(m)
    ensures r == Ok(m)
  {
    var frame := Serialize(m);
    r := Recv(frame);
    RoundTrip(m, []);
    assert frame + [] == frame;
  }

  // ----- The record parser as written -----

  /** What a Java method does: return, throw the `IOException` its caller handles, or throw an unchecked exception. */
  datatype Java<T> = Returns(value: T) | ThrowsIO(error: CodecError) | ThrowsUnchecked

  /** The outcome a caller of the corrected parser sees: each unchecked exception becomes "Unexpected end of stream". */
  function Reported<T>(j: Java<T>): Result<T, CodecError> {
    match j
    case Returns(v) => Ok(v)
    case ThrowsIO(e) => Err(e)
    case ThrowsUnchecked => Err(UnexpectedEnd)
  }

  /**
   * `read32(buf, offset)` as written: the guard `offset > buf.length + 4` lets through offsets
   * with fewer than four bytes left, so `buf[i + offset]` runs off the array; the four bytes are
   * assembled into a Java `int`, negative when the top bit is set.
   */
  function Read32AsWritten(buf: Bytes, offset: int): (r: Java<int>)
    ensures r.Returns? <==> 0 <= offset && offset + 4 <= |buf|
    ensures r.Returns? ==> JavaInt.IsInt32(r.value) && (r.value - Le32Value(buf[offset..offset + 4])) % 0x1_0000_0000 == 0
  {
    if offset < 0 || offset > |buf| + 4 then ThrowsIO(UnexpectedEnd)
    else if offset + 4 > |buf| then ThrowsUnchecked
    else Returns(JavaInt.Wrap32(Le32Value(buf[offset..offset + 4])))
  }

  /**
   * One iteration of the record loop of `recv` as written: Java `int` positions, the unchecked
   * `read32`, and `Arrays.copyOfRange`, which throws when the range is reversed.
   */
  function ParseRecordAsWritten(buf: Bytes, pos: nat): (r: Java<(Bytes, Bytes, nat)>)
    requires pos < |buf| <= JavaInt.MaxInt - 5
  {
    var end := FindByte(buf, pos, 0);
    if end < 0 then ThrowsIO(BadName)
    else
      match Read32AsWritten(buf, end + 1)
      case ThrowsIO(e) => ThrowsIO(e)
      case ThrowsUnchecked => ThrowsUnchecked
      case Returns(len) =>
        var q := end + 5;
        if JavaInt.Wrap32(len + q + 1) > |buf| then ThrowsIO(UnexpectedEnd)
        else if len < 0 || len + q + 1 > |buf| then ThrowsUnchecked
        else if buf[q + len] != 0 then ThrowsIO(BadValue)
        else Returns((buf[pos..end], buf[q..q + len], q + len + 1))
  }

  /** A name running into the last three bytes of the payload: `read32` reads past the end. */
  lemma Read32GuardLetsThrough()
    ensures ParseRecordAsWritten([0x61, 0x00], 0) == ThrowsUnchecked
    ensures ParseRecord([0x61, 0x00], 0) == Err(UnexpectedEnd)
  {
    assert FindByte([0x61, 0x00], 0, 0) == 1;
  }

  /** A record length with the top bit set is a negative `int`: `copyOfRange` throws. */
  lemma NegativeLengthThrows()
    ensures ParseRecordAsWritten([0x00, 0xFF, 0xFF, 0xFF, 0xFF, 0x00], 0) == ThrowsUnchecked
    ensures ParseRecord([0x00, 0xFF, 0xFF, 0xFF, 0xFF, 0x00], 0) == Err(UnexpectedEnd)
  {
    var buf: Bytes := [0x00, 0xFF, 0xFF, 0xFF, 0xFF, 0x00];
    assert FindByte(buf, 0, 0) == 0;
    assert buf[1..5] == [0xFF, 0xFF, 0xFF, 0xFF];
  }

  /**
   * The corrected parser differs from the one as written only where that one throws an
   * unchecked exception, and reports those inputs as an unexpected end of stream.
   */
  lemma CorrectionOnlyReplacesCrashes(buf: Bytes, pos: nat)
    requires pos < |buf| <= JavaInt.MaxInt - 5
    ensures Reported(ParseRecordAsWritten(buf, pos)) == ParseRecord(buf, pos)
  {
    var end := FindByte(buf, pos, 0);
    if end >= 0 && end + 5 <= |buf| {
      var u := Le32Value(buf[end + 1..end + 5]);
      var len := JavaInt.Wrap32(u);
      if u > JavaInt.MaxInt {
        assert len == u - 0x1_0000_0000;
      }
    }
  }
}
