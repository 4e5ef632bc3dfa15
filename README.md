# p4proto-java core, modelled in Dafny

This project models the core of p4proto-java, a Java client for the Perforce RPC protocol. It proves properties of that model:

- **Message frames** (`Messages`, `Codec`). A message is a sorted map of named byte-string parameters plus a list of positional arguments. `Message.Builder` accumulates them. `serialize` writes a frame: a checksum byte, a four-byte little-endian payload length, then one `name NUL len32 value NUL` record per parameter and one per argument. `recv` reads a frame back.
- **Password mangling** (`MangleHex`, `Lucifer`, `Crypto`). `Mangle` is a Lucifer-style Feistel block cipher over 16-byte blocks, with hex helpers. Its static S-box `s1` is patched in place the first time anything is deciphered.
- **The two template interpolators** (`Expand`, `Interpolator`). One is the port of Perforce's `StrOps::Expand2`; the other is a simple `%name%` substitution.
- **`ErrorSeverity`** (`Severity`).
- **The client session** (`ClientSession`). `Client.p4` sends the `protocol` handshake once per session. It then sends a command and answers the server's messages until `release`: the built-in handlers answer `flush1`, `protocol`, `client-Crypto`, `client-Prompt` and `client-SetPassword`, and the caller's callback answers everything else.
- **The `host:port` split** of the command line client (`PortSpec`, `JavaInt`, `JavaString`).

How the source's own form is kept:

- Pure code is written as functions and lemmas.
- Code that changes state step by step is written as methods with loops.
- Each method is proved against a specification function.
- `Message.Builder` and `Client` are classes whose methods update their fields. A built `Message` is a value copied out of its builder (see "Left out").
- The static S-box `s1` is an `array` held by a `Mangle` object.
- The bit arrays of `DoIt`/`Getdval` are arrays changed in place.
- The socket is two sequences of messages: what the server has yet to deliver, and what the client has sent.

## Model

| member | source | states |
|---|---|---|
| Severity.Ordinal | src/main/java/ru/bozaro/p4/proto/ErrorSeverity.java:6-11 | every constant has an ordinal below five, in declaration order |
| Severity.CompareTo | src/main/java/ru/bozaro/p4/proto/ErrorSeverity.java:6-11 | `compareTo` is zero exactly for the same constant and negative exactly when the first is declared earlier |
| Severity.OrderTotal | src/main/java/ru/bozaro/p4/proto/ErrorSeverity.java:6-11 | no two constants share an ordinal, and `compareTo` is antisymmetric |
| Severity.Ascending | src/main/java/ru/bozaro/p4/proto/ErrorSeverity.java:7-11 | `None < Info < Warn < Failed < Fatal` |
| Severity.OkExactly | src/main/java/ru/bozaro/p4/proto/ErrorSeverity.java:13-15 | `isOk` holds for `None` and `Info` and for nothing else |
| Severity.ErrorExactly | src/main/java/ru/bozaro/p4/proto/ErrorSeverity.java:17-19 | `isError` holds for `Failed` and `Fatal` and for nothing else |
| Severity.OkOrError | src/main/java/ru/bozaro/p4/proto/ErrorSeverity.java:13-19 | no severity is both ok and an error; `Warn` is exactly the one that is neither |
| JavaInt.Wrap32 | src/main/java/ru/bozaro/p4/proto/Message.java:244-248 | the result is a Java `int` congruent to the input modulo 2^32, and an input that already fits is unchanged |
| JavaInt.ParseInt | src/main/java/ru/bozaro/p4/P4.java:44 | `Integer.parseInt` accepts only non-empty text, and every value it returns fits an `int` |
| JavaInt.ParseDecimal | src/main/java/ru/bozaro/p4/P4.java:44 | the decimal text of any number up to `Integer.MAX_VALUE` parses back to that number |
| JavaInt.ParseOutOfRange | src/main/java/ru/bozaro/p4/P4.java:44 | decimal text above `Integer.MAX_VALUE` is a NumberFormatException, never a wrapped value, and `-N` is refused exactly when N is above 2^31 |
| JavaInt.ParseNegative | src/main/java/ru/bozaro/p4/P4.java:44 | `-N` parses to -N for every N down to `Integer.MIN_VALUE` |
| JavaInt.ParseRejectsNonDigit | src/main/java/ru/bozaro/p4/P4.java:44 | a character other than a digit after the first position is a `NumberFormatException` |
| JavaString.IndexOf | src/main/java/ru/bozaro/p4/proto/StringInterpolator.java:39 | `indexOf(c, from)` is the first position at or after `from` holding `c`, or -1 when there is none |
| JavaString.LastIndexOf | src/main/java/ru/bozaro/p4/P4.java:41 | `lastIndexOf(c)` is a position holding `c` with no `c` after it, or -1 when `c` does not occur |
| JavaString.LastIndexOfAt | src/main/java/ru/bozaro/p4/P4.java:41 | a `c` with no `c` after it is what `lastIndexOf` finds |
| PortSpec.SplitPort | src/main/java/ru/bozaro/p4/P4.java:41-48 | a port that is returned always fits an `int` |
| PortSpec.HostOnly | src/main/java/ru/bozaro/p4/P4.java:45-48 | without a `:`, the whole argument is the host and the port is 1666 |
| PortSpec.JoinSplit | src/main/java/ru/bozaro/p4/P4.java:41-44 | `host:port` splits back into the same host (even one holding `:`) and port |
| PortSpec.SplitJoin | src/main/java/ru/bozaro/p4/P4.java:41-48 | a successful split is the argument itself: either the host alone with port 1666, or host, the last `:`, and text that parses as the port |
| PortSpec.EmptyPortRejected | src/main/java/ru/bozaro/p4/P4.java:44 | an argument ending in `:` is a `NumberFormatException` |
| Octets.XorLaws | src/main/java/ru/bozaro/p4/proto/Message.java:164-169 | byte XOR is commutative, has zero as identity and undoes itself |
| Octets.XorAssociates | src/main/java/ru/bozaro/p4/proto/Message.java:164-169 | the order in which the length bytes are folded into the checksum does not matter |
| Octets.XorInjective | src/main/java/ru/bozaro/p4/proto/Message.java:164-169 | XOR with a fixed byte is injective |
| Octets.OrNibbles | src/main/java/ru/bozaro/p4/crypto/Mangle.java:191-207 | ORing a nibble into a byte whose nibble is clear gives their sum, which is how `XtoO` assembles a byte |
| Octets.Le32RoundTrip | src/main/java/ru/bozaro/p4/proto/Message.java:173-179 | reading back the four bytes `write32` emits gives the number back, for every 32-bit value |
| Octets.Le32Bytes | src/main/java/ru/bozaro/p4/proto/Message.java:232-240 | writing the number `read32` assembles gives the four bytes back |
| Messages.LessIrreflexive | src/main/java/ru/bozaro/p4/proto/Message.java:84 | the key order of the `TreeMap` is irreflexive |
| Messages.LessTransitive | src/main/java/ru/bozaro/p4/proto/Message.java:84 | the key order is transitive |
| Messages.LessTotal | src/main/java/ru/bozaro/p4/proto/Message.java:84 | any two distinct keys are ordered |
| Messages.LessAsymmetric | src/main/java/ru/bozaro/p4/proto/Message.java:84 | the key order is asymmetric |
| Messages.Lookup | src/main/java/ru/bozaro/p4/proto/Message.java:52 | `map.get` finds a value exactly for a present key, and that value is stored under it |
| Messages.PutSorted | src/main/java/ru/bozaro/p4/proto/Message.java:97 | `map.put` keeps the keys strictly sorted and adds the key to the key set |
| Messages.LookupPut | src/main/java/ru/bozaro/p4/proto/Message.java:97 | after `put`, the key maps to the new value and every other key to what it held |
| Messages.PutGreatestAppends | src/main/java/ru/bozaro/p4/proto/Message.java:220 | a key greater than every present key is stored at the end |
| Messages.PutKeepsNamed | src/main/java/ru/bozaro/p4/proto/Message.java:94-97 | `put` with a non-empty name keeps the map sorted and free of empty names |
| Messages.Ascii | src/main/java/ru/bozaro/p4/proto/Message.java:97 | the UTF-8 encoding of ASCII text is one byte per character, with the same code |
| Messages.Text | src/main/java/ru/bozaro/p4/proto/Message.java:61-63 | decoding gives one character per byte, with the same code |
| Messages.TextAscii | src/main/java/ru/bozaro/p4/proto/Message.java:61-63 | decoding the encoding of ASCII text gives the text back |
| Messages.GetBytes | src/main/java/ru/bozaro/p4/proto/Message.java:56-58 | `getBytes(key)` is present exactly when the key is |
| Messages.GetString | src/main/java/ru/bozaro/p4/proto/Message.java:51-54 | `getString(key)` is present exactly when the key is, and as long as its bytes |
| Messages.GetFunc | src/main/java/ru/bozaro/p4/proto/Message.java:46-48 | `getFunc` is the empty string without `func`, otherwise `getString("func")` |
| Messages.Builder.constructor | src/main/java/ru/bozaro/p4/proto/Message.java:82-89 | a new builder holds no parameters and no arguments |
| Messages.Builder.Param | src/main/java/ru/bozaro/p4/proto/Message.java:92-113 | a null value changes nothing; an empty name appends an argument; any other name is `put` into the map |
| Messages.Builder.Arg | src/main/java/ru/bozaro/p4/proto/Message.java:116-121 | a null value changes nothing; any other is appended to the arguments |
| Messages.Builder.Clone | src/main/java/ru/bozaro/p4/proto/Message.java:125-130 | the clone is a new builder holding the same parameters and arguments |
| Messages.Builder.Build | src/main/java/ru/bozaro/p4/proto/Message.java:133-135 | every built message has sorted keys and no empty parameter name |
| Messages.ToBuilder | src/main/java/ru/bozaro/p4/proto/Message.java:75-80 | the new builder builds exactly the message it was seeded from |
| Messages.CloneThenParam | src/main/java/ru/bozaro/p4/proto/Message.java:125-130 | a clone does not alias its original: a `param` on the clone shows there and leaves the original as it was |
| Codec.ChecksumFold | src/main/java/ru/bozaro/p4/proto/Message.java:163-169 | the byte `serialize` accumulates is the XOR of the four length bytes |
| Codec.ChecksumZero | src/main/java/ru/bozaro/p4/proto/Message.java:188-193 | the value `recv` folds is zero exactly when the checksum byte matches the length bytes |
| Codec.Record | src/main/java/ru/bozaro/p4/proto/Message.java:144-150 | a record is six bytes longer than its name and value together |
| Codec.RecordsAppend | src/main/java/ru/bozaro/p4/proto/Message.java:142-159 | the records of two entry lists one after the other are their records concatenated |
| Codec.ArgEntries | src/main/java/ru/bozaro/p4/proto/Message.java:153-159 | each positional argument travels as a record with an empty name, in order |
| Codec.Frame | src/main/java/ru/bozaro/p4/proto/Message.java:138-171 | a frame is five bytes longer than its payload |
| Codec.EntryFits | src/main/java/ru/bozaro/p4/proto/Message.java:147-148 | each value `serialize` writes has a length that fits an `int`; parameters come first, then the arguments |
| Codec.Write32 | src/main/java/ru/bozaro/p4/proto/Message.java:173-179 | `write32` appends the low four bytes of the value, least significant first |
| Codec.WriteRecord | src/main/java/ru/bozaro/p4/proto/Message.java:143-150 | one pass of the parameter loop appends exactly one record |
| Codec.WriteParams | src/main/java/ru/bozaro/p4/proto/Message.java:142-151 | the parameter loop appends the records of the parameters, in key order |
| Codec.WriteArgs | src/main/java/ru/bozaro/p4/proto/Message.java:153-159 | the argument loop appends one empty-named record per argument, in order |
| Codec.WriteLength | src/main/java/ru/bozaro/p4/proto/Message.java:162-168 | bytes 1 to 4 of the buffer get the payload length, low byte first; nothing else changes; the returned byte is their XOR |
| Codec.PatchHeader | src/main/java/ru/bozaro/p4/proto/Message.java:161-170 | the zeroed header becomes the checksum and the four length bytes, and the payload is kept |
| Codec.Serialize | src/main/java/ru/bozaro/p4/proto/Message.java:138-171 | `serialize` produces the frame of the message |
| Codec.Le32Shift | src/main/java/ru/bozaro/p4/proto/Message.java:165-167 | byte `i` of the length field is the low byte of `length >> 8i` |
| Codec.FrameHeader | src/main/java/ru/bozaro/p4/proto/Message.java:161-169 | a serialized frame's checksum is the XOR of its length bytes, which hold the payload length |
| Codec.FindByte | src/main/java/ru/bozaro/p4/proto/Message.java:225-230 | the first position at or after the start holding the byte, or -1 when none does |
| Codec.IndexOf | src/main/java/ru/bozaro/p4/proto/Message.java:225-230 | the `indexOf` loop finds that position |
| Codec.Word32At | src/main/java/ru/bozaro/p4/proto/Message.java:232-240 | four bytes read as unsigned little-endian when four are left, otherwise "Unexpected end of stream" |
| Codec.Read32 | src/main/java/ru/bozaro/p4/proto/Message.java:232-240 | `read32` returns that word or that error |
| Codec.ParseRecord | src/main/java/ru/bozaro/p4/proto/Message.java:203-219 | a parsed record is exactly the bytes it consumed, with a NUL-free name; the only failures are those of the record loop |
| Codec.ParseRecordOk | src/main/java/ru/bozaro/p4/proto/Message.java:203-219 | a name up to its NUL, a length, that many bytes and a NUL are accepted as one record |
| Codec.ParseRecordBadValue | src/main/java/ru/bozaro/p4/proto/Message.java:217-218 | a non-zero byte after the value is "Can't parse parameter value" |
| Codec.ParseRecords | src/main/java/ru/bozaro/p4/proto/Message.java:202-221 | no parsed name holds a NUL, and a checksum mismatch is never reported by the record loop |
| Codec.ParseRecordsCover | src/main/java/ru/bozaro/p4/proto/Message.java:202-221 | the records of the parsed entries make up the rest of the payload exactly |
| Codec.AddRecord | src/main/java/ru/bozaro/p4/proto/Message.java:220 | handing a record to the builder keeps the message well formed |
| Codec.Assemble | src/main/java/ru/bozaro/p4/proto/Message.java:202-221 | handing each record in turn keeps the message well formed |
| Codec.Decode | src/main/java/ru/bozaro/p4/proto/Message.java:202-222 | parsing never reports a checksum mismatch |
| Codec.DecodeError | src/main/java/ru/bozaro/p4/proto/Message.java:204-218 | a record refused at a position ends decoding with its error |
| Codec.DecodeStep | src/main/java/ru/bozaro/p4/proto/Message.java:219-220 | a record accepted at a position goes to the builder, and decoding goes on after it |
| Codec.AssembleLookup | src/main/java/ru/bozaro/p4/proto/Message.java:220 | after the builder has been given a run of records, each name holds the value of its last record, or what it held before |
| Codec.DecodeLastWins | src/main/java/ru/bozaro/p4/proto/Message.java:202-222 | when a payload carries a name twice, the decoded message holds the value of the later record |
| Codec.ReadRecord | src/main/java/ru/bozaro/p4/proto/Message.java:203-219 | one pass of the record loop is `ParseRecord` |
| Codec.ParsePayload | src/main/java/ru/bozaro/p4/proto/Message.java:202-222 | the record loop decodes the payload into the builder |
| Codec.ParseFrame | src/main/java/ru/bozaro/p4/proto/Message.java:186-223 | a message that is returned is well formed |
| Codec.Recv | src/main/java/ru/bozaro/p4/proto/Message.java:186-223 | `recv` checks the header, reads the payload and decodes it, as `ParseFrame` says |
| Codec.HeaderCorruptionDetected | src/main/java/ru/bozaro/p4/proto/Message.java:188-193 | changing any one length byte of a frame with a good checksum is always caught |
| Codec.PayloadNotCovered | src/main/java/ru/bozaro/p4/proto/Message.java:188-193 | changing a payload byte never makes the checksum fail |
| Codec.TruncatedFrame | src/main/java/ru/bozaro/p4/proto/Message.java:195-200 | a frame cut short anywhere is refused as an unexpected end of stream |
| Codec.ParseRecordAt | src/main/java/ru/bozaro/p4/proto/Message.java:203-219 | a record with a NUL-free name and a value that fits 32 bits parses back to its name and value |
| Codec.ParseRecordsOf | src/main/java/ru/bozaro/p4/proto/Message.java:202-221 | a run of such records parses back to its entries |
| Codec.AssembleParams | src/main/java/ru/bozaro/p4/proto/Message.java:142-151 | parameters arriving in increasing key order rebuild the same map |
| Codec.AssembleArgs | src/main/java/ru/bozaro/p4/proto/Message.java:153-159 | empty-named records rebuild the arguments in order |
| Codec.RoundTrip | src/main/java/ru/bozaro/p4/proto/Message.java:138-223 | `recv` gives back every message `serialize` can frame whose names hold no NUL byte, whatever follows in the stream |
| Codec.SendThenRecv | src/main/java/ru/bozaro/p4/proto/Message.java:181-186 | the bytes `send` writes are read back by `recv` as the same message |
| Codec.Read32AsWritten | src/main/java/ru/bozaro/p4/proto/Message.java:242-249 | the written `read32(buf, offset)` returns only when four bytes are left; its value is the word as a Java `int` |
| Codec.Read32GuardLetsThrough | src/main/java/ru/bozaro/p4/proto/Message.java:243 | the record `a NUL` passes the guard and runs off the buffer, where the corrected parser reports an unexpected end |
| Codec.NegativeLengthThrows | src/main/java/ru/bozaro/p4/proto/Message.java:209-214 | a record length with the top bit set makes `copyOfRange` throw, where the corrected parser reports an unexpected end |
| Codec.CorrectionOnlyReplacesCrashes | src/main/java/ru/bozaro/p4/proto/Message.java:202-221 | the corrected record parser agrees with the one as written, except that it reports an unexpected end where that one throws an unchecked exception |
| MangleHex.NibbleOf | src/main/java/ru/bozaro/p4/crypto/Mangle.java:193-205 | a hex digit of either case stands for a nibble |
| MangleHex.HexChar | src/main/java/ru/bozaro/p4/crypto/Mangle.java:209-220 | `OtoX` writes a nibble as one digit `0-9` or upper-case `A-F`, which reads back as the nibble |
| MangleHex.Hex | src/main/java/ru/bozaro/p4/crypto/Mangle.java:209-220 | the text is two hex digits per byte, none of them lower case |
| MangleHex.Unhex | src/main/java/ru/bozaro/p4/crypto/Mangle.java:191-207 | two digits make a byte; an odd trailing digit gives a byte of its own |
| MangleHex.UnhexHex | src/main/java/ru/bozaro/p4/crypto/Mangle.java:191-220 | `XtoO(OtoX(b)) == b` |
| MangleHex.HexUnhex | src/main/java/ru/bozaro/p4/crypto/Mangle.java:191-220 | `OtoX(XtoO(s))` is `s` in upper case, for an even number of digits |
| MangleHex.XtoO | src/main/java/ru/bozaro/p4/crypto/Mangle.java:191-207 | `XtoO` throws exactly on a character that is not a hex digit; otherwise it packs two digits per byte, high nibble first |
| MangleHex.OtoX | src/main/java/ru/bozaro/p4/crypto/Mangle.java:209-220 | `OtoX` writes each byte as two upper-case digits, high nibble first |
| MangleHex.XorHex | src/main/java/ru/bozaro/p4/crypto/Mangle.java:95-106 | `XOR` succeeds exactly for two 32-digit hex strings and returns 32 hex digits |
| MangleHex.XOR | src/main/java/ru/bozaro/p4/crypto/Mangle.java:95-106 | the method computes `XorHex` |
| MangleHex.XorHexCommutes | src/main/java/ru/bozaro/p4/crypto/Mangle.java:95-106 | `XOR` does not care which argument is which |
| MangleHex.XorHexCancels | src/main/java/ru/bozaro/p4/crypto/Mangle.java:95-106 | XOR with the same key twice gives the other argument back, in upper case |
| Lucifer.BitsOf | src/main/java/ru/bozaro/p4/crypto/Mangle.java:134-140 | the bit loops produce exactly `n` bits |
| Lucifer.ValueOf | src/main/java/ru/bozaro/p4/crypto/Mangle.java:181-186 | the value of `n` bits is below 2^n |
| Lucifer.ValueOfBits | src/main/java/ru/bozaro/p4/crypto/Mangle.java:134-140 | taking a number's bits and reading them back gives the number |
| Lucifer.BitsOfValue | src/main/java/ru/bozaro/p4/crypto/Mangle.java:181-186 | reading bits and taking them apart again gives the bits |
| Lucifer.BlockBits | src/main/java/ru/bozaro/p4/crypto/Mangle.java:134-140 | a byte string becomes eight bits per byte |
| Lucifer.Pack | src/main/java/ru/bozaro/p4/crypto/Mangle.java:181-186 | bits become one byte per eight |
| Lucifer.ByteOf | src/main/java/ru/bozaro/p4/crypto/Mangle.java:182-185 | eight bits, most significant last, make a byte |
| Lucifer.PackBlockBits | src/main/java/ru/bozaro/p4/crypto/Mangle.java:155-186 | packing the bits of bytes gives the bytes back |
| Lucifer.BlockBitsPack | src/main/java/ru/bozaro/p4/crypto/Mangle.java:155-186 | unpacking packed bits gives the bits back |
| Lucifer.Lo | src/main/java/ru/bozaro/p4/crypto/Mangle.java:246-256 | one nibble of a byte of the unchanging half |
| Lucifer.Hi | src/main/java/ru/bozaro/p4/crypto/Mangle.java:246-256 | the other nibble of that byte |
| Lucifer.Select | src/main/java/ru/bozaro/p4/crypto/Mangle.java:250-255 | the `x * (1 - kb) + y * kb` arithmetic picks one of two values by a key bit |
| Lucifer.Confusion | src/main/java/ru/bozaro/p4/crypto/Mangle.java:246-256 | the S-box output of a step is a byte |
| Lucifer.StepOf | src/main/java/ru/bozaro/p4/crypto/Mangle.java:263-269 | the step that writes a given bit is one of the eight |
| Lucifer.StepOfIndex | src/main/java/ru/bozaro/p4/crypto/Mangle.java:263-269 | the bit that step `b` writes at position `bit` is written by step `b` |
| Lucifer.Mask | src/main/java/ru/bozaro/p4/crypto/Mangle.java:245-273 | the value a bit of the changing half is XORed with is 0, 1 or 2 |
| Lucifer.Masks | src/main/java/ru/bozaro/p4/crypto/Mangle.java:245-273 | one mask per bit of a half |
| Lucifer.Flip | src/main/java/ru/bozaro/p4/crypto/Mangle.java:263-269 | XOR with the masks keeps the block size |
| Lucifer.FlipAt | src/main/java/ru/bozaro/p4/crypto/Mangle.java:263-269 | a bit of the changing half is XORed with its mask, and a bit of the other half is kept |
| Lucifer.Round | src/main/java/ru/bozaro/p4/crypto/Mangle.java:245-273 | a round keeps the block well formed |
| Lucifer.RoundAt | src/main/java/ru/bozaro/p4/crypto/Mangle.java:245-273 | a round XORs each bit of half `h0` with a mask that only the other half decides, and keeps the other half |
| Lucifer.RoundKey | src/main/java/ru/bozaro/p4/crypto/Mangle.java:241-244 | the key byte a round starts from is a nibble |
| Lucifer.KeysMirror | src/main/java/ru/bozaro/p4/crypto/Mangle.java:241-244 | deciphering walks the key schedule of enciphering backwards |
| Lucifer.Rounds | src/main/java/ru/bozaro/p4/crypto/Mangle.java:241-278 | the first `n` rounds keep the block well formed |
| Lucifer.RoundsNext | src/main/java/ru/bozaro/p4/crypto/Mangle.java:241-278 | round `j` is applied after the first `j`, to half `j % 2`, from key byte `RoundKey(j)` |
| Lucifer.Swap | src/main/java/ru/bozaro/p4/crypto/Mangle.java:281-287 | the final swap keeps the block size |
| Lucifer.SwapAt | src/main/java/ru/bozaro/p4/crypto/Mangle.java:281-287 | the final swap moves each bit to the same offset in the other half |
| Lucifer.SwapHalf | src/main/java/ru/bozaro/p4/crypto/Mangle.java:281-287 | the swap puts each half where the other was |
| Lucifer.SwapSwap | src/main/java/ru/bozaro/p4/crypto/Mangle.java:281-287 | swapping twice changes nothing |
| Lucifer.Transform | src/main/java/ru/bozaro/p4/crypto/Mangle.java:222-288 | `Getdval` keeps the block well formed |
| Lucifer.FlipKeepsOtherHalf | src/main/java/ru/bozaro/p4/crypto/Mangle.java:263-269 | flipping one half leaves the other alone |
| Lucifer.RoundKeepsOtherHalf | src/main/java/ru/bozaro/p4/crypto/Mangle.java:245-273 | a round leaves the other half alone |
| Lucifer.FlipInvolution | src/main/java/ru/bozaro/p4/crypto/Mangle.java:263-269 | XOR with the same masks twice changes nothing |
| Lucifer.RoundInvolution | src/main/java/ru/bozaro/p4/crypto/Mangle.java:245-273 | the same round twice is no round at all |
| Lucifer.FlipSwap | src/main/java/ru/bozaro/p4/crypto/Mangle.java:263-287 | flipping a half of the swapped block is flipping the other half before the swap |
| Lucifer.RoundSwap | src/main/java/ru/bozaro/p4/crypto/Mangle.java:245-287 | rounds commute with the swap when the changing half is swapped too |
| Lucifer.SwapUndo | src/main/java/ru/bozaro/p4/crypto/Mangle.java:245-287 | a round, the swap and the same round on the other half make just the swap |
| Lucifer.Unwind | src/main/java/ru/bozaro/p4/crypto/Mangle.java:241-287 | running `n` rounds the other way over the swapped result of all sixteen peels off the last `n` |
| Lucifer.TransformInverts | src/main/java/ru/bozaro/p4/crypto/Mangle.java:222-288 | `Getdval` deciphering undoes `Getdval` enciphering, and the other way round, under the same key and table |
| Lucifer.CopyOf | src/main/java/ru/bozaro/p4/crypto/Mangle.java:128-129 | `Arrays.copyOf(b, n)` is the first `n` bytes, padded with zeros |
| Lucifer.Cipher | src/main/java/ru/bozaro/p4/crypto/Mangle.java:127-186 | one block through the cipher is 16 bytes |
| Lucifer.CipherInverts | src/main/java/ru/bozaro/p4/crypto/Mangle.java:127-186 | deciphering an enciphered block under the same key and table gives it back |
| Lucifer.KeyPrefixOnly | src/main/java/ru/bozaro/p4/crypto/Mangle.java:126-140 | only the first 16 key bytes matter, and a short key acts as if padded with zeros |
| Crypto.PatchLow | src/main/java/ru/bozaro/p4/crypto/Mangle.java:145-150 | deciphering sets `s1[4..8]` to `s2[0..4]` and keeps the rest |
| Crypto.PatchHigh | src/main/java/ru/bozaro/p4/crypto/Mangle.java:234-239 | `Getdval` deciphering sets `s1[8..12]` to `s2[4..8]` and keeps the rest |
| Crypto.PatchesKeepTable | src/main/java/ru/bozaro/p4/crypto/Mangle.java:145-150 | the patches keep every entry a nibble |
| Crypto.PatchedIsFixed | src/main/java/ru/bozaro/p4/crypto/Mangle.java:145-150 | a table is patched exactly when patching it changes nothing |
| Crypto.ReachableIsTable | src/main/java/ru/bozaro/p4/crypto/Mangle.java:43-45 | every table `s1` can hold is a table of nibbles |
| Crypto.Source | src/main/java/ru/bozaro/p4/crypto/Mangle.java:129 | the block comes from `XtoO` when deciphering or handling a digest, and otherwise from the data cut or padded to 16 bytes; `XtoO` throws exactly on a non-hex character |
| Crypto.TableUsed | src/main/java/ru/bozaro/p4/crypto/Mangle.java:145-150 | the rounds run on a table of nibbles |
| Crypto.Outcome | src/main/java/ru/bozaro/p4/crypto/Mangle.java:114-189 | a result is 16 raw bytes when deciphering a password, and otherwise 32 hex digits |
| Crypto.TableAfter | src/main/java/ru/bozaro/p4/crypto/Mangle.java:114-189 | `s1` stays a table of nibbles |
| Crypto.OutcomeOfHex | src/main/java/ru/bozaro/p4/crypto/Mangle.java:114-189 | `DoIt` on the hex text of a block runs the cipher on that block under the patched table when deciphering |
| Crypto.OutcomeErrors | src/main/java/ru/bozaro/p4/crypto/Mangle.java:120-156 | `DoIt` throws `IllegalArgumentException` exactly on the argument checks or a non-hex digit, and an index error exactly when deciphering empty data |
| Crypto.TableSettles | src/main/java/ru/bozaro/p4/crypto/Mangle.java:145-150 | enciphering never touches `s1`, and a patched `s1` never changes again |
| Crypto.DecipherPatches | src/main/java/ru/bozaro/p4/crypto/Mangle.java:145-150 | a decipher that returns leaves `s1` patched |
| Crypto.ReachableClosed | src/main/java/ru/bozaro/p4/crypto/Mangle.java:114-189 | `s1` only ever holds one of three tables: as loaded, half patched, or patched |
| Crypto.ChunkSize | src/main/java/ru/bozaro/p4/crypto/Mangle.java:54-55 | a chunk is non-empty and at most the limit; it is the limit or the rest |
| Crypto.InChunk | src/main/java/ru/bozaro/p4/crypto/Mangle.java:53-60 | one pass of the `In` loop writes the first part of what is left |
| Crypto.MangledShape | src/main/java/ru/bozaro/p4/crypto/Mangle.java:47-66 | `In` writes 32 hex digits for every started 16-byte chunk |
| Crypto.OutChunk | src/main/java/ru/bozaro/p4/crypto/Mangle.java:73-80 | one pass of the `Out` loop either ends it with the chunk's exception or adds a block and goes on with `s1` as that chunk left it |
| Crypto.ExtractedOk | src/main/java/ru/bozaro/p4/crypto/Mangle.java:68-85 | `Out` succeeds exactly on whole 32-digit hex chunks, and returns half as many bytes |
| Crypto.Padded | src/main/java/ru/bozaro/p4/crypto/Mangle.java:47-66 | the input padded with zeros to a whole number of 16-byte chunks |
| Crypto.InOutRoundTrip | src/main/java/ru/bozaro/p4/crypto/Mangle.java:47-85 | with `s1` patched, `Out(In(x))` is `x` padded with zeros to 16-byte chunks, and `s1` is unchanged |
| Crypto.MD5RoundTrip | src/main/java/ru/bozaro/p4/crypto/Mangle.java:87-93 | with `s1` patched, `OutMD5` and `InMD5` undo each other whichever goes first, up to the case of the digits |
| Crypto.UnpackBits | src/main/java/ru/bozaro/p4/crypto/Mangle.java:134-140 | eight bits of a value go into `a[at..at + 8]`, least significant first, and nothing else changes |
| Crypto.PackBits | src/main/java/ru/bozaro/p4/crypto/Mangle.java:181-186 | the output loop gives the value of eight bits |
| Crypto.LoadBlock | src/main/java/ru/bozaro/p4/crypto/Mangle.java:134-173 | the bits of the first 16 bytes are loaded, and reading fails exactly when fewer than 16 are there |
| Crypto.PackBlock | src/main/java/ru/bozaro/p4/crypto/Mangle.java:181-186 | the output loop gives the bytes of the bit block |
| Crypto.StepOfInverse | src/main/java/ru/bozaro/p4/crypto/Mangle.java:263-269 | step `b` writes bit `bit` of byte `(o[bit] + b) & 7`, and no other byte |
| Crypto.Diffuse | src/main/java/ru/bozaro/p4/crypto/Mangle.java:263-269 | the `bit` loop XORs exactly the bits step `b` writes, each with its key bit and S-box output bit |
| Crypto.FinalSwap | src/main/java/ru/bozaro/p4/crypto/Mangle.java:281-287 | the final loop swaps the halves of the block |
| Crypto.StepTargets | src/main/java/ru/bozaro/p4/crypto/Mangle.java:245-273 | the bits step `b` writes get their values in the round |
| Crypto.StepDone | src/main/java/ru/bozaro/p4/crypto/Mangle.java:245-273 | after the `bit` loop of step `b`, the block is the round carried through step `b` |
| Crypto.KeyAdvance | src/main/java/ru/bozaro/p4/crypto/Mangle.java:241-244 | the key counter starts each round at `RoundKey`, and a round moves it by 8 when deciphering and by 7 otherwise |
| Crypto.StepKey | src/main/java/ru/bozaro/p4/crypto/Mangle.java:271-272 | the key counter is a nibble at every step |
| Crypto.StepKeyNext | src/main/java/ru/bozaro/p4/crypto/Mangle.java:271-272 | the counter advances after every step except the last step of an enciphering round |
| Crypto.Mangle.constructor | src/main/java/ru/bozaro/p4/crypto/Mangle.java:43 | `s1` starts as the table the class loads |
| Crypto.Mangle.SBox | src/main/java/ru/bozaro/p4/crypto/Mangle.java:246-256 | the S-box step computes `Confusion` of the other half's byte |
| Crypto.Mangle.Step | src/main/java/ru/bozaro/p4/crypto/Mangle.java:246-272 | one step takes the block from the round carried through step `b` to the round through `b + 1` |
| Crypto.Mangle.RoundStep | src/main/java/ru/bozaro/p4/crypto/Mangle.java:245-273 | the `b` loop performs exactly one `Round`, and the key counter ends where `StepKey` says |
| Crypto.Mangle.PatchS1High | src/main/java/ru/bozaro/p4/crypto/Mangle.java:234-239 | deciphering overwrites `s1[8..12]` with `s2[4..8]` |
| Crypto.Mangle.NextRound | src/main/java/ru/bozaro/p4/crypto/Mangle.java:241-278 | one pass of the round loop applies the next round and moves the key counter to the next round's start |
| Crypto.Mangle.AllRounds | src/main/java/ru/bozaro/p4/crypto/Mangle.java:241-278 | the round loop performs the sixteen rounds |
| Crypto.Mangle.Getdval | src/main/java/ru/bozaro/p4/crypto/Mangle.java:222-288 | `Getdval` is `Transform` under the table it leaves, which it patches when deciphering |
| Crypto.Mangle.RunBlock | src/main/java/ru/bozaro/p4/crypto/Mangle.java:126-188 | the part after the checks returns the cipher of the first 16 bytes, or fails when fewer are there; `s1` is patched as far as deciphering got |
| Crypto.Mangle.DoIt | src/main/java/ru/bozaro/p4/crypto/Mangle.java:114-189 | `DoIt` returns `Outcome` and leaves `s1` as `TableAfter` says |
| Crypto.Mangle.InStep | src/main/java/ru/bozaro/p4/crypto/Mangle.java:53-60 | one pass of the `In` loop writes the first part of `In` of the rest and leaves `s1` alone |
| Crypto.Mangle.In | src/main/java/ru/bozaro/p4/crypto/Mangle.java:47-66 | `In` returns `Mangled` and leaves `s1` alone |
| Crypto.Mangle.Out | src/main/java/ru/bozaro/p4/crypto/Mangle.java:68-85 | `Out` returns what `Extracted` says, and leaves `s1` as it says |
| Crypto.Mangle.InMD5 | src/main/java/ru/bozaro/p4/crypto/Mangle.java:87-89 | `InMD5` enciphers a digest and leaves `s1` alone |
| Crypto.Mangle.OutMD5 | src/main/java/ru/bozaro/p4/crypto/Mangle.java:91-93 | `OutMD5` deciphers a digest and leaves `s1` as `TableAfter` says |
| Expand.Find | src/main/java/ru/bozaro/p4/proto/StringInterpolator.java:16-23 | `memchr` finds the first `c` among at most `length` characters from `from`, or -1 when there is none |
| Expand.Memchr | src/main/java/ru/bozaro/p4/proto/StringInterpolator.java:16-23 | the `memchr` loop computes `Find` |
| Expand.QuoteEnd | src/main/java/ru/bozaro/p4/proto/StringInterpolator.java:42-46 | a `%'` run ends at the first `'%`, or runs to the end when there is none |
| Expand.QuoteEndAsWrittenThrows | src/main/java/ru/bozaro/p4/proto/StringInterpolator.java:42-44 | the scan as written agrees with `QuoteEnd` except that it throws exactly when the run is unclosed and the template ends in `'` |
| Expand.QuoteCrash | src/main/java/ru/bozaro/p4/proto/StringInterpolator.java:43 | on `%'x'` the written scan throws, where the run should count as unclosed |
| Expand.QuoteEndIs | src/main/java/ru/bozaro/p4/proto/StringInterpolator.java:42-44 | the first closing position is `QuoteEnd` |
| Expand.TurnAt | src/main/java/ru/bozaro/p4/proto/StringInterpolator.java:39-105 | each turn of the loop that goes on moves strictly forward |
| Expand.QuoteTurn | src/main/java/ru/bozaro/p4/proto/StringInterpolator.java:40-52 | the quoted-run turn moves forward when it goes on |
| Expand.NameTurn | src/main/java/ru/bozaro/p4/proto/StringInterpolator.java:56-104 | the `%%`, `%var%` and bracket turn moves forward when it goes on |
| Expand.BracketTurn | src/main/java/ru/bozaro/p4/proto/StringInterpolator.java:80-104 | the bracket turn moves forward when it goes on |
| Expand.Interpolate | src/main/java/ru/bozaro/p4/proto/StringInterpolator.java:29-110 | `interpolate` produces `Expand` of the template: its text and the names looked up, in order |
| Expand.ScanTurn | src/main/java/ru/bozaro/p4/proto/StringInterpolator.java:39-105 | the loop body computes `TurnAt` |
| Expand.ScanName | src/main/java/ru/bozaro/p4/proto/StringInterpolator.java:56-104 | the body after a `%` that opens no quoted run computes `NameTurn` |
| Expand.ScanBracket | src/main/java/ru/bozaro/p4/proto/StringInterpolator.java:80-104 | the `[ ... ]` branch computes `BracketTurn` |
| Expand.ScanQuote | src/main/java/ru/bozaro/p4/proto/StringInterpolator.java:42-44 | the quoted-run scan finds `QuoteEnd` |
| Expand.Advance | src/main/java/ru/bozaro/p4/proto/StringInterpolator.java:39-107 | a turn that goes on splits the expansion into its text and the expansion of the rest |
| Expand.Unfold | src/main/java/ru/bozaro/p4/proto/StringInterpolator.java:39-107 | the expansion from `p` is the turn's text followed by the expansion after it |
| Expand.NoPercent | src/main/java/ru/bozaro/p4/proto/StringInterpolator.java:39-107 | text with no `%` left is copied as it stands, and nothing is looked up |
| Expand.Unchanged | src/main/java/ru/bozaro/p4/proto/StringInterpolator.java:39-107 | a template without `%` comes out unchanged, and `lookup` is never called |
| Expand.Escape | src/main/java/ru/bozaro/p4/proto/StringInterpolator.java:59-63 | text then `%%` gives the text and one `%`, with no lookup |
| Expand.TurnEscape | src/main/java/ru/bozaro/p4/proto/StringInterpolator.java:59-63 | the `%%` turn writes the text and one `%` and goes on after it |
| Expand.Quoted | src/main/java/ru/bozaro/p4/proto/StringInterpolator.java:40-51 | text then `%'lit'%` gives the text and `lit`, uninspected |
| Expand.TurnQuoted | src/main/java/ru/bozaro/p4/proto/StringInterpolator.java:40-51 | the quoted turn writes the text and `lit` and goes on after the `'%` |
| Expand.QuoteUnclosed | src/main/java/ru/bozaro/p4/proto/StringInterpolator.java:45-46 | a `%'` that is never closed stops the scan, and the rest is copied |
| Expand.Variable | src/main/java/ru/bozaro/p4/proto/StringInterpolator.java:68-78 | text with no `[` then `%var%` gives the text and `lookup(var)`, and `var` is looked up |
| Expand.TurnVariable | src/main/java/ru/bozaro/p4/proto/StringInterpolator.java:68-78 | the `%var%` turn writes the text and the value and goes on after the second `%` |
| Expand.Unterminated | src/main/java/ru/bozaro/p4/proto/StringInterpolator.java:56-58 | a `%` with no partner stops the scan, and the rest is copied |
| Expand.Bracket | src/main/java/ru/bozaro/p4/proto/StringInterpolator.java:73-104 | a `[ pre %var% post \| alt ]` turn writes the text, then `pre val post` when the value is not empty and `alt` otherwise (nothing without `\|`), and goes on after the `]` |
| Expand.BracketSearch | src/main/java/ru/bozaro/p4/proto/StringInterpolator.java:56-80 | the searches of the loop body land on the `%`s, the `[` and the `]` of a bracketed template |
| Expand.TurnBracket | src/main/java/ru/bozaro/p4/proto/StringInterpolator.java:83-104 | the bracket turn writes the text and the chosen part, and goes on after the `]` |
| Expand.ChosenIs | src/main/java/ru/bozaro/p4/proto/StringInterpolator.java:90-101 | the part kept is `pre val post` or the alternative, split at the first `\|` |
| Expand.BracketUnclosed | src/main/java/ru/bozaro/p4/proto/StringInterpolator.java:80-82 | a `[` before `%var%` with no `]` after it stops the scan after the lookup, and the rest is copied |
| Expand.EscapeExample | src/main/java/ru/bozaro/p4/proto/StringInterpolator.java:59-63 | `a%%b` is `a%b` |
| Expand.BracketExample | src/main/java/ru/bozaro/p4/proto/StringInterpolator.java:83-104 | `[-%u%-\|none]` is `-u-` for a non-empty value of `u`, and `none` otherwise |
| Expand.QuoteCrashCorrected | src/main/java/ru/bozaro/p4/proto/StringInterpolator.java:45-46 | with the corrected scan, `%'x'` is copied whole |
| Interpolator.Interpolate | src/main/java/ru/bozaro/p4/StringInterpolator.java:12-38 | `interpolate` produces `Substituted`: its text and the names looked up, in order |
| Interpolator.PlainChar | src/main/java/ru/bozaro/p4/StringInterpolator.java:30-33 | a character other than `%` outside a name is copied |
| Interpolator.OpenName | src/main/java/ru/bozaro/p4/StringInterpolator.java:20-29 | a `%` opens a name that the next `%` closes with one lookup; with no closing `%`, nothing more is written |
| Interpolator.NoPercent | src/main/java/ru/bozaro/p4/StringInterpolator.java:17-35 | text without `%` comes out unchanged, and nothing is looked up |
| Interpolator.LookupsPerPair | src/main/java/ru/bozaro/p4/StringInterpolator.java:20-29 | there is one lookup per closed `%...%` pair: half the `%` signs, rounded down |
| Interpolator.PlainExamples | src/test/java/ru/bozaro/p4/StringInterpolatorTest.java:13-21 | `""` and `"foobar"` are copied |
| Interpolator.NameExamples | src/test/java/ru/bozaro/p4/StringInterpolatorTest.java:23-31 | `%foo%` is `lookup("foo")` and `%%` is `lookup("")` |
| Interpolator.UnmatchedExamples | src/test/java/ru/bozaro/p4/StringInterpolatorTest.java:33-41 | `%` and `%aa` give the empty string |
| ClientSession.With | src/main/java/ru/bozaro/p4/proto/Message.java:92-113 | `param` on a built message keeps it well formed and keeps its arguments |
| ClientSession.WithGet | src/main/java/ru/bozaro/p4/proto/Message.java:92-113 | after `param`, the name holds the new value (if there is one) and every other name is as it was |
| ClientSession.WithAll | src/main/java/ru/bozaro/p4/proto/Client.java:57-73 | a run of `param` calls keeps the message well formed and keeps its arguments |
| ClientSession.WithAllGet | src/main/java/ru/bozaro/p4/proto/Client.java:57-73 | after a run of `param` calls, each name holds what its last setting gave it, or what it held before |
| ClientSession.BaseSettings | src/main/java/ru/bozaro/p4/proto/Client.java:57-73 | `createBaseMessage` sets only named parameters |
| ClientSession.BaseMessage | src/main/java/ru/bozaro/p4/proto/Client.java:57-73 | the base message is well formed and has no positional arguments |
| ClientSession.BaseMessageUser | src/main/java/ru/bozaro/p4/proto/Client.java:68 | the base message names its user |
| ClientSession.BaseMessageTag | src/main/java/ru/bozaro/p4/proto/Client.java:61-63 | the base message has `tag` exactly when tagged output was asked for |
| ClientSession.BaseMessageNoFunc | src/main/java/ru/bozaro/p4/proto/Client.java:57-73 | the base message never has a `func`; each command sets its own |
| ClientSession.Handshake | src/main/java/ru/bozaro/p4/proto/Client.java:99-103 | the handshake is well formed |
| ClientSession.HandshakeShape | src/main/java/ru/bozaro/p4/proto/Client.java:99-103 | the handshake asks for client level 80 and 524288-byte socket buffers, with `func = protocol` and nothing else |
| ClientSession.CommandShape | src/main/java/ru/bozaro/p4/proto/Client.java:110-113 | a command carries the base parameters, `func = user-<func>`, and the base's arguments followed by its own |
| ClientSession.FlushEcho | src/main/java/ru/bozaro/p4/proto/Client.java:151-155 | `flush1` is answered by a message holding only `func = flush2` and the request's `fseq` |
| ClientSession.Protocol | src/main/java/ru/bozaro/p4/proto/Client.java:158-174 | `protocol` keeps the state well formed and never touches `protocolSent` |
| ClientSession.ProtocolLevel | src/main/java/ru/bozaro/p4/proto/Client.java:158-174 | the protocol level comes from `server2`, else `server`, else is kept; a level that is not a number throws before anything changes; `unicode` adds `unicode = 1` to the base message; nothing is sent back |
| ClientSession.SetPassword | src/main/java/ru/bozaro/p4/proto/Client.java:177-184 | `client-SetPassword` keeps the state well formed and never touches `protocolSent` |
| ClientSession.NewToken | src/main/java/ru/bozaro/p4/proto/Client.java:178-182 | the token is left alone exactly when `digest` or the password hash is missing, and a new token is 32 hex digits |
| ClientSession.SetPasswordOnly | src/main/java/ru/bozaro/p4/proto/Client.java:177-184 | `client-SetPassword` changes only the session token, and only with a `digest` and a known password hash; nothing is sent back |
| ClientSession.CryptoWithoutToken | src/main/java/ru/bozaro/p4/proto/Client.java:187-193 | `client-Crypto` never changes the state; without a session token it answers only `func = confirm` and an empty `token` |
| ClientSession.Truncated | src/main/java/ru/bozaro/p4/proto/Client.java:221-223 | on `truncate`, the secret sent is at most 16 bytes |
| ClientSession.TruncatedPrefix | src/main/java/ru/bozaro/p4/proto/Client.java:221-223 | the secret sent is a prefix of the secret, cut to 16 bytes exactly when `truncate` is set and it is longer |
| ClientSession.PromptWith | src/main/java/ru/bozaro/p4/proto/Client.java:216-241 | `clientPrompt(req, secret)` keeps the state well formed and never touches `protocolSent` |
| ClientSession.PromptSettings | src/main/java/ru/bozaro/p4/proto/Client.java:236-240 | the reply is set from named parameters only |
| ClientSession.PromptReply | src/main/java/ru/bozaro/p4/proto/Client.java:216-241 | the reply is the request with `func = confirm` (when present), the secret in `data` (plain without a `digest`), the request's `digest`, and every other parameter as in the request; with a `digest`, the hash of the plain secret becomes the password hash; nothing else changes |
| ClientSession.Prompt | src/main/java/ru/bozaro/p4/proto/Client.java:207-213 | `clientPrompt(req)` keeps the state well formed and never touches `protocolSent` |
| ClientSession.PromptAsks | src/main/java/ru/bozaro/p4/proto/Client.java:207-210 | the user is asked, with the request's `data` as prompt and `noecho` when present, exactly when there is no password or it is empty |
| ClientSession.Dispatch | src/main/java/ru/bozaro/p4/proto/Client.java:125-131 | a handler keeps the state well formed and never touches `protocolSent` |
| ClientSession.BuiltinFirst | src/main/java/ru/bozaro/p4/proto/Client.java:49-53 | a built-in name is answered by its handler whatever the callback; any other name by the callback alone, with the state unchanged |
| ClientSession.Serve | src/main/java/ru/bozaro/p4/proto/Client.java:115-135 | the receive loop keeps the state well formed |
| ClientSession.ServeUnfold | src/main/java/ru/bozaro/p4/proto/Client.java:115-135 | one message of the loop: its reply is sent first and the loop goes on, or its exception ends the call |
| ClientSession.RestWellFormed | src/main/java/ru/bozaro/p4/proto/Client.java:115-135 | the loop leaves unread a suffix of what it was given |
| ClientSession.MissingFunc | src/main/java/ru/bozaro/p4/proto/Client.java:120-122 | a server message without `func` ends the call with `StreamCorruptedException`, with nothing sent |
| ClientSession.ReleaseFirst | src/main/java/ru/bozaro/p4/proto/Client.java:123-124 | `release` ends the loop at once, with nothing sent and nothing changed |
| ClientSession.NullSendsNothing | src/main/java/ru/bozaro/p4/proto/Client.java:132-134 | a callback that answers `null` sends nothing, and the loop goes on |
| ClientSession.StopsAtRelease | src/main/java/ru/bozaro/p4/proto/Client.java:115-135 | the loop ends normally only on `release`: it reads up to the first `release` and leaves the rest unread |
| ClientSession.ServeKeepsSent | src/main/java/ru/bozaro/p4/proto/Client.java:115-135 | the receive loop never touches `protocolSent` |
| ClientSession.RunCommand | src/main/java/ru/bozaro/p4/proto/Client.java:110-135 | a command keeps the state well formed |
| ClientSession.Call | src/main/java/ru/bozaro/p4/proto/Client.java:97-136 | a call keeps the state well formed |
| ClientSession.HandshakeOnce | src/main/java/ru/bozaro/p4/proto/Client.java:97-136 | the first call sends the handshake, then `discover` built from the same base message, and sets `protocolSent`; a later call starts with its own command |
| ClientSession.HandshakeMessage | src/main/java/ru/bozaro/p4/proto/Client.java:99-103 | the builder chain builds the handshake |
| ClientSession.CommandMessage | src/main/java/ru/bozaro/p4/proto/Client.java:110-113 | a clone of the base builder with `func` and the arguments builds the command |
| ClientSession.CreateBaseMessage | src/main/java/ru/bozaro/p4/proto/Client.java:57-73 | `createBaseMessage` returns a new builder holding the base message |
| ClientSession.ApplyBaseTail | src/main/java/ru/bozaro/p4/proto/Client.java:64-70 | the last seven settings of `createBaseMessage` are made in order |
| ClientSession.Apply | src/main/java/ru/bozaro/p4/proto/Client.java:60-70 | one `param` call on a builder adds one setting |
| ClientSession.PromptMessage | src/main/java/ru/bozaro/p4/proto/Client.java:236-240 | `req.toBuilder()` given `func`, `data`, `digest` and `daddr` builds the reply |
| ClientSession.Client.Current | src/main/java/ru/bozaro/p4/proto/Client.java:25-41 | the fields of a valid client are a well-formed state |
| ClientSession.Client.constructor | src/main/java/ru/bozaro/p4/proto/Client.java:43-54 | a new client has not sent the handshake, has level -1, the given password, no token or hash, the base message, and nothing sent |
| ClientSession.Client.P4 | src/main/java/ru/bozaro/p4/proto/Client.java:97-136 | `p4` only appends to what was sent, and its state, messages sent, messages left and exception are what `Call` says |
| ClientSession.Client.FirstCall | src/main/java/ru/bozaro/p4/proto/Client.java:98-114 | the first `p4` is what `Call` says for a session that has not sent the handshake |
| ClientSession.Client.OpenSession | src/main/java/ru/bozaro/p4/proto/Client.java:98-109 | the handshake is sent, `protocolSent` is set, and `discover` runs with a callback that answers nothing |
| ClientSession.Client.SendCommand | src/main/java/ru/bozaro/p4/proto/Client.java:110-135 | the command is sent, then the server's messages are answered, as `RunCommand` says |
| ClientSession.Client.Receive | src/main/java/ru/bozaro/p4/proto/Client.java:115-135 | the receive loop does what `Serve` says |
| ClientSession.Client.ReceiveOne | src/main/java/ru/bozaro/p4/proto/Client.java:116-134 | one message is read and answered; either the loop stops as `Serve` says, or it goes on with strictly fewer messages left |
| ClientSession.Client.Exec | src/main/java/ru/bozaro/p4/proto/Client.java:125-131 | the handler chosen for a message does what `Dispatch` says, sending and reading nothing |
| ClientSession.Client.HandleFlush1 | src/main/java/ru/bozaro/p4/proto/Client.java:151-155 | `flush1` answers `Flush1` |
| ClientSession.Client.ClientProtocol | src/main/java/ru/bozaro/p4/proto/Client.java:158-174 | `clientProtocol` does what `Protocol` says |
| ClientSession.Client.ClientSetPassword | src/main/java/ru/bozaro/p4/proto/Client.java:177-184 | `clientSetPassword` does what `SetPassword` says |
| ClientSession.Client.ClientCrypto | src/main/java/ru/bozaro/p4/proto/Client.java:187-204 | `clientCrypto` answers what `CryptoReply` says |
| ClientSession.Client.ClientPrompt | src/main/java/ru/bozaro/p4/proto/Client.java:207-213 | `clientPrompt(req)` does what `Prompt` says |
| ClientSession.Client.ClientPromptWith | src/main/java/ru/bozaro/p4/proto/Client.java:216-241 | `clientPrompt(req, secret)` does what `PromptWith` says |

## Left out

- Java strings are taken as their byte encoding. Parameter names, arguments (a `List<String>` in `Message.java`) and `getString` are exact for ASCII. UTF-8 encoding and decoding of other text is not modelled.
- Frames and buffers of 2^31 bytes or more are left out, because Java arrays cannot hold them. `serialize` requires a frame that fits an `int`. A header length with the top bit set, which Java reads as a negative array size, comes out as an unexpected end of stream.
- Sockets and streams are not modelled. `recv` reads from the sequence of bytes the stream will deliver. The client's socket is the sequence of messages the server will deliver plus the sequence of messages sent. An exhausted stream is `EndOfStream`. `IOException`s from the socket itself are not modelled.
- MD5 is a parameter of the session, because the digest algorithm is not modelled. The same goes for `getSocketAddr` of the remote address and the `InputResolver`. The resolver is a deterministic function of the prompt and the `noecho` flag, and its `IOException` is not modelled.
- The password is held as its UTF-8 bytes rather than as a `String`. `password.length() <= 0` is checked as "no bytes".
- `synchronized` on `p4` is left out, because concurrency is not modelled. `verbose`, `show` and `send`'s printing are left out, because they only print.
- `Mangle.Mix` is left out, because nothing calls it.
- `DoIt`'s branch `if (counter == 16)` inside the data loop is left out. It is dead: `counter` equals `j`, which is below 16 there.
- The zero-fill loop after the data loop is also left out: the data loop always leaves `counter` at 16, so it never runs.
- `Mangle.XOR` on 32-digit strings that are not all hex throws from `XtoO`. That is the `None` of `XorHex`, the same as for the length check.
- Crypto.InOutRoundTrip: this round trip holds only when `s1` is already patched. The static `s1` means that an `In` before any decipher uses the unpatched table, and a later `Out` uses the patched one.
- Crypto.MD5RoundTrip: the same restriction to a patched `s1`.
- Signed Java bytes are not modelled. Every byte is a value 0 to 255. The bit loops read only the low eight bits, so nothing depends on the sign.
- The static `s1` array is the field of a `Mangle` object that the client holds.
- `lookup` and the callback are pure functions. A lookup or callback with side effects, or one that throws, is not modelled.
- A `lookup` that returns `null` is not modelled: `lookup` is a total function to strings in both interpolators. In Java, `null` is appended as the text "null" by the variable branch of `proto/StringInterpolator.java` (line 77) and by the simple `StringInterpolator.java` (line 25), and the bracket branch of `proto/StringInterpolator.java` throws `NullPointerException` at `val.length()` (line 93). Expand.Expand, Expand.Interpolate, Interpolator.Substituted and Interpolator.Interpolate therefore say nothing about a null value.
- JavaInt.ParseInt: it accepts only ASCII digits, because other Unicode decimal digits are not modelled. Java also accepts those.
- The seven-argument `p4` with `verbose`/output streams is not modelled, because it is not part of `Client.java`'s core. The same goes for the `P4` command line around the `host:port` split: argument parsing, the socket, and printing.
- Handler replies (`Message.Builder` in the source) are the messages they build, because every reply is built once and sent.
- Messages.Builder.Build returns a copy of the builder's contents. In Java, `build()` hands its own `TreeMap` and `ArrayList` to the new `Message`, so a later `param` or `arg` on the same builder also changes a message already built. The model does not capture that aliasing. The client never uses a builder after building from it: it clones `baseMessage` before each command, and each reply builder is built once.

## Findings

| source | as written | input that shows it | evidently intended | confidence | as-written member | corrected member |
|---|---|---|---|---|---|---|
| src/main/java/ru/bozaro/p4/proto/Message.java:243 | `read32(buf, offset)` refuses only `offset > buf.length + 4`, so it reads past the end when fewer than four bytes are left | payload `61 00` (name `a`, then nothing): `ArrayIndexOutOfBoundsException` | "Unexpected end of stream" when `offset + 4 > buf.length` | not executed | Codec.Read32GuardLetsThrough | Codec.CorrectionOnlyReplacesCrashes |
| src/main/java/ru/bozaro/p4/proto/Message.java:209-214 | a record length with the top bit set is a negative `int`: the range check passes and `Arrays.copyOfRange` throws `IllegalArgumentException` | payload `00 FF FF FF FF 00` | "Unexpected end of stream", as for any length past the payload | not executed | Codec.NegativeLengthThrows | Codec.ParseRecord |
| src/main/java/ru/bozaro/p4/proto/StringInterpolator.java:42-44 | the scan for `'%` reads `m.charAt(s + 1)` after any `'`, past the end when the template ends in `'` | template `%'x'`: `StringIndexOutOfBoundsException` | the run counts as unclosed and the rest is copied (line 46) | not executed | Expand.QuoteEndAsWrittenThrows | Expand.QuoteCrashCorrected |
