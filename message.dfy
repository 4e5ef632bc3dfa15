/**
 * The protocol message (Message.java): named byte-string parameters kept in a TreeMap,
 * positional arguments kept in a list, and the mutable Builder that accumulates them.
 *
 * Java `String` names and arguments are modelled by their byte encoding; the TreeMap
 * is modelled as an association list kept strictly sorted by key.
 */
module Messages {
  import opened Wrappers
  import opened Octets

  /** Unsigned lexicographic order on byte strings: the order a TreeMap iterates its keys in. */
  predicate Less(a: Bytes, b: Bytes)
    decreases |a|
  {
    if |a| == 0 then |b| > 0
    else if |b| == 0 then false
    else if a[0] == b[0] then Less(a[1..], b[1..])
    else a[0] < b[0]
  }

  lemma {:induction false} LessIrreflexive(a: Bytes)
    ensures !Less(a, a)
    decreases |a|
  {
    if |a| > 0 { LessIrreflexive(a[1..]); }
  }

  lemma {:induction false} LessTransitive(a: Bytes, b: Bytes, c: Bytes)
    requires Less(a, b) && Less(b, c)
    ensures Less(a, c)
    decreases |a|
  {
    if |a| > 0 && a[0] == b[0] && b[0] == c[0] {
      LessTransitive(a[1..], b[1..], c[1..]);
    }
  }

  lemma {:induction false} LessTotal(a: Bytes, b: Bytes)
    requires a != b
    ensures Less(a, b) || Less(b, a)
    decreases |a|
  {
    if |a| > 0 && |b| > 0 && a[0] == b[0] {
      LessTotal(a[1..], b[1..]);
    }
  }

  lemma {:induction false} LessAsymmetric(a: Bytes, b: Bytes)
    requires Less(a, b)
    ensures !Less(b, a)
  {
    if Less(b, a) {
      LessTransitive(a, b, a);
      LessIrreflexive(a);
    }
  }

  type Entry = (Bytes, Bytes)
  type Params = seq<Entry>

  /** The TreeMap invariant: keys strictly increasing, hence unique. */
  ghost predicate Sorted(ps: Params) {
    forall i, j {:trigger Less(ps[i].0, ps[j].0)} :: 0 <= i < j < |ps| ==> Less(ps[i].0, ps[j].0)
  }

  function KeySet(ps: Params): set<Bytes> {
    set i | 0 <= i < |ps| :: ps[i].0
  }

  lemma KeySetCons(ps: Params)
    requires |ps| > 0
    ensures KeySet(ps) == {ps[0].0} + KeySet(ps[1..])
  {
    forall k | k in KeySet(ps) ensures k in {ps[0].0} + KeySet(ps[1..]) {
      var i :| 0 <= i < |ps| && ps[i].0 == k;
      if i > 0 { assert ps[1..][i - 1].0 == k; }
    }
  }

  /** `map.get(key)`: the value stored under `key`, if any. */
  function Lookup(ps: Params, key: Bytes): (r: Option<Bytes>)
    ensures r.Some? <==> key in KeySet(ps)
    ensures r.Some? ==> (key, r.value) in ps
  {
    if |ps| == 0 then None
    else if ps[0].0 == key then Some(ps[0].1)
    else
      KeySetCons(ps);
      assert forall e :: e in ps[1..] ==> e in ps;
      Lookup(ps[1..], key)
  }

  /** `map.put(key, value)`: store `value` under `key`, replacing any earlier value, keeping key order. */
  function Put(ps: Params, key: Bytes, value: Bytes): Params
    decreases |ps|
  {
    if |ps| == 0 then [(key, value)]
    else if ps[0].0 == key then [(key, value)] + ps[1..]
    else if Less(key, ps[0].0) then [(key, value)] + ps
    else [ps[0]] + Put(ps[1..], key, value)
  }

  /** `put` keeps the keys sorted, and adds `key` to them. */
  lemma {:induction false} PutSorted(ps: Params, key: Bytes, value: Bytes)
    requires Sorted(ps)
    ensures Sorted(Put(ps, key, value))
    ensures KeySet(Put(ps, key, value)) == KeySet(ps) + {key}
    decreases |ps|
  {
    var r := Put(ps, key, value);
    if |ps| == 0 {
      KeySetCons(r);
      assert r[1..] == [];
    } else if ps[0].0 == key {
      KeySetCons(r);
      KeySetCons(ps);
      assert r[1..] == ps[1..];
      forall i, j | 0 <= i < j < |r| ensures Less(r[i].0, r[j].0) {
        assert r[i].0 == ps[i].0 && r[j].0 == ps[j].0;
      }
    } else if Less(key, ps[0].0) {
      forall i, j | 0 <= i < j < |r| ensures Less(r[i].0, r[j].0) {
        if i == 0 && j > 1 {
          assert Less(ps[0].0, ps[j - 1].0);
          LessTransitive(key, ps[0].0, ps[j - 1].0);
        } else if i > 0 {
          assert Less(ps[i - 1].0, ps[j - 1].0);
        }
      }
      KeySetCons(r);
      assert r[1..] == ps;
    } else {
      var tail := Put(ps[1..], key, value);
      assert Sorted(ps[1..]) by {
        forall i, j | 0 <= i < j < |ps[1..]| ensures Less(ps[1..][i].0, ps[1..][j].0) {
          assert Less(ps[i + 1].0, ps[j + 1].0);
        }
      }
      PutSorted(ps[1..], key, value);
      LessTotal(key, ps[0].0);
      forall i, j | 0 <= i < j < |r| ensures Less(r[i].0, r[j].0) {
        if i == 0 {
          assert r[j].0 in KeySet(tail);
          assert r[j].0 in KeySet(ps[1..]) + {key};
          if r[j].0 != key {
            var t :| 0 <= t < |ps[1..]| && ps[1..][t].0 == r[j].0;
            assert Less(ps[0].0, ps[t + 1].0);
          }
        } else {
          assert Less(tail[i - 1].0, tail[j - 1].0);
        }
      }
      KeySetCons(ps);
      KeySetCons(r);
      assert r[1..] == tail;
    }
  }

  /** What a TreeMap promises of `put`: the new key maps to the new value, every other key is untouched. */
  lemma {:induction false} LookupPut(ps: Params, key: Bytes, value: Bytes, other: Bytes)
    requires Sorted(ps)
    ensures Lookup(Put(ps, key, value), other) == if other == key then Some(value) else Lookup(ps, other)
    decreases |ps|
  {
    if |ps| > 0 && ps[0].0 != key && !Less(key, ps[0].0) {
      LookupPut(ps[1..], key, value, other);
    }
  }

  /** A key greater than every present key is added at the end: how parsing sorted records rebuilds the map. */
  lemma {:induction false} PutGreatestAppends(ps: Params, key: Bytes, value: Bytes)
    requires Sorted(ps)
    requires forall i :: 0 <= i < |ps| ==> Less(ps[i].0, key)
    ensures Put(ps, key, value) == ps + [(key, value)]
    decreases |ps|
  {
    if |ps| > 0 {
      assert ps[0].0 != key by { LessIrreflexive(key); }
      LessAsymmetric(ps[0].0, key);
      PutGreatestAppends(ps[1..], key, value);
      assert [ps[0]] + (ps[1..] + [(key, value)]) == ps + [(key, value)];
    }
  }

  ghost predicate NamedKeys(ps: Params) {
    forall i :: 0 <= i < |ps| ==> ps[i].0 != []
  }

  lemma PutKeepsNamed(ps: Params, key: Bytes, value: Bytes)
    requires Sorted(ps) && NamedKeys(ps) && key != []
    ensures Sorted(Put(ps, key, value)) && NamedKeys(Put(ps, key, value))
  {
    PutSorted(ps, key, value);
    var r := Put(ps, key, value);
    forall i | 0 <= i < |r| ensures r[i].0 != [] {
      assert r[i].0 in KeySet(r);
      if r[i].0 != key {
        var j :| 0 <= j < |ps| && ps[j].0 == r[i].0;
      }
    }
  }

  /** A message as Message.java holds it: parameters by name, then positional arguments. */
  datatype Message = Message(params: Params, args: seq<Bytes>)

  /** Messages produced by the Builder: sorted keys, and no parameter with an empty name. */
  ghost predicate WellFormed(m: Message) {
    Sorted(m.params) && NamedKeys(m.params)
  }

  const Empty: Message := Message([], [])

  predicate IsAscii(s: string) {
    forall i :: 0 <= i < |s| ==> s[i] < 128 as char
  }

  /** The UTF-8 bytes of an ASCII string (the encoding of the protocol's own names). */
  function Ascii(s: string): (b: Bytes)
    requires IsAscii(s)
    ensures |b| == |s|
    ensures forall i :: 0 <= i < |s| ==> b[i] as int == s[i] as int
  {
    seq(|s|, i requires 0 <= i < |s| => (s[i] as int) as byte)
  }

  /** `new String(bytes, UTF_8)`, exact for ASCII: each byte becomes the character with that code. */
  function Text(b: Bytes): (s: string)
    ensures |s| == |b|
    ensures forall i :: 0 <= i < |b| ==> s[i] as int == b[i] as int
  {
    seq(|b|, i requires 0 <= i < |b| => (b[i] as int) as char)
  }

  lemma TextAscii(s: string)
    requires IsAscii(s)
    ensures Text(Ascii(s)) == s
  {
  }

  const FUNC: Bytes := Ascii("func")

  /** `getBytes(key)`: the raw value of a parameter, `None` for Java's null. */
  function GetBytes(m: Message, key: Bytes): (r: Option<Bytes>)
    ensures r.Some? <==> key in KeySet(m.params)
  {
    Lookup(m.params, key)
  }

  /** `getString(key)`: the value decoded as text, `None` when the parameter is absent. */
  function GetString(m: Message, key: Bytes): (r: Option<string>)
    ensures r.Some? <==> key in KeySet(m.params)
    ensures r.Some? ==> |r.value| == |Lookup(m.params, key).value|
  {
    match Lookup(m.params, key)
    case None => None
    case Some(v) => Some(Text(v))
  }

  /** `getFunc()`: the `func` parameter as text, or the empty string when it is absent. */
  function GetFunc(m: Message): (f: string)
    ensures FUNC !in KeySet(m.params) ==> f == ""
    ensures FUNC in KeySet(m.params) ==> Some(f) == GetString(m, FUNC)
  {
    Text(Lookup(m.params, FUNC).GetOr([]))
  }

  /** `Message.Builder`: accumulates parameters into a TreeMap and arguments into a list. */
  class Builder {
    var params: Params
    var args: seq<Bytes>

    ghost predicate Valid()
      reads this
    {
      WellFormed(Message(params, args))
    }

    constructor ()
      ensures Valid() && params == [] && args == []
    {
      params := [];
      args := [];
    }

    /**
     * `param(name, value)`: a null value changes nothing; an empty name appends a positional
     * argument; any other name stores the value in the map, replacing an earlier one.
     */
    method Param(name: Bytes, value: Option<Bytes>)
      requires Valid()
      modifies this
      ensures Valid()
      ensures value.None? ==> params == old(params) && args == old(args)
      ensures value.Some? && name == [] ==> params == old(params) && args == old(args) + [value.value]
      ensures value.Some? && name != [] ==> params == Put(old(params), name, value.value) && args == old(args)
    {
      if value.Some? {
        if name == [] {
          args := args + [value.value];
        } else {
          PutKeepsNamed(params, name, value.value);
          params := Put(params, name, value.value);
        }
      }
    }

    /** `arg(value)`: a null value changes nothing, any other is appended to the arguments. */
    method Arg(value: Option<Bytes>)
      requires Valid()
      modifies this
      ensures Valid() && params == old(params)
      ensures args == if value.Some? then old(args) + [value.value] else old(args)
    {
      if value.Some? {
        args := args + [value.value];
      }
    }

    /** `clone()`: a new, independent builder holding the same parameters and arguments. */
    method Clone() returns (c: Builder)
      requires Valid()
      ensures fresh(c) && c.Valid()
      ensures c.params == params && c.args == args
    {
      c := new Builder();
      c.params := params;
      c.args := args;
    }

    /** `build()`: the message the builder currently describes. */
    function Build(): (m: Message)
      requires Valid()
      reads this
      ensures WellFormed(m)
    {
      Message(params, args)
    }
  }

  /** `toBuilder()`: a new builder seeded with a copy of the message's parameters and arguments. */
  method ToBuilder(m: Message) returns (b: Builder)
    requires WellFormed(m)
    ensures fresh(b) && b.Valid()
    ensures b.Build() == m
  {
    b := new Builder();
    b.params := m.params;
    b.args := m.args;
  }

  /**
   * A clone does not alias its original: setting a parameter on the clone leaves the
   * original as it was, and the clone sees the new value.
   */
  method CloneThenParam(b: Builder, name: Bytes, value: Bytes) returns (original: Message, copy: Message)
    requires b.Valid() && name != []
    ensures original == b.Build()
    ensures GetBytes(copy, name) == Some(value)
    ensures forall k :: k != name ==> GetBytes(copy, k) == GetBytes(original, k)
    ensures copy.args == original.args
  {
    var c := b.Clone();
    c.Param(name, Some(value));
    original := b.Build();
    copy := c.Build();
    forall k | k != name ensures GetBytes(copy, k) == GetBytes(original, k) {
      LookupPut(b.params, name, value, k);
    }
    LookupPut(b.params, name, value, name);
  }
}
