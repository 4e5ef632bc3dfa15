/**
 * `proto/StringInterpolator.java`: a port of Perforce's `StrOps::Expand2`. Text is copied; `%var%`
 * becomes `lookup(var)`; `%%` is a single `%`; `%'text'%` is copied without inspection; and
 * `[ before %var% after | alternative ]` gives `before value after` when the value is not empty,
 * the alternative otherwise (nothing when there is no `|`). Anything malformed stops the scan, and
 * the rest of the template is copied as it stands.
 */
module Expand {
  import opened JavaString
  import opened Wrappers

  function Min(a: int, b: int): int {
    if a <= b then a else b
  }

  /** `memchr(s, from, c, length)`: the first `c` among the at most `length` characters from `from`, or -1. */
  function Find(s: string, from: int, c: char, length: int): (r: int)
    requires 0 <= from && 0 <= length
    ensures r == -1 || (from <= r < from + length && r < |s| && s[r] == c)
    ensures r == -1 ==> forall i :: from <= i < from + length && i < |s| ==> s[i] != c
    ensures r >= 0 ==> forall i :: from <= i < r ==> s[i] != c
  {
    var end := from + Min(length, |s| - from);
    if end <= from then -1 else IndexOf(s[..end], c, from)
  }

  /** The `memchr` loop. */
  method Memchr(s: string, fromIndex: int, c: char, length: int) returns (r: int)
    requires 0 <= fromIndex && 0 <= length
    ensures r == Find(s, fromIndex, c, length)
  {
    var endIndex := fromIndex + Min(length, |s| - fromIndex);
    var i := fromIndex;
    while i < endIndex
      invariant fromIndex <= i && (i <= endIndex || i == fromIndex)
      invariant forall k :: fromIndex <= k < i ==> s[k] != c
    {
      if s[i] == c {
        return i;
      }
      i := i + 1;
    }
    return -1;
  }

  /** A `'` at `i` followed by `%`: the end of a `%'...'%` run. */
  predicate Closes(m: string, i: int)
    requires 0 <= i < |m|
  {
    m[i] == '\'' && i + 1 < |m| && m[i + 1] == '%'
  }

  /**
   * Where the `%'...'%` run whose text starts at `from` ends: the first `'` followed by `%`, or
   * `|m|` when there is none.
   */
  function QuoteEnd(m: string, from: int): (s: int)
    requires 0 <= from <= |m|
    ensures from <= s <= |m|
    ensures s < |m| ==> Closes(m, s)
    ensures forall i :: from <= i < s ==> !Closes(m, i)
    decreases |m| - from
  {
    if from == |m| then |m| else if Closes(m, from) then from else QuoteEnd(m, from + 1)
  }

  /**
   * The same scan as the Java loop is written: it reads `m.charAt(s + 1)` after any `'`, which
   * throws when that `'` is the last character (`None`).
   */
  function QuoteEndAsWritten(m: string, from: int): (r: Option<int>)
    requires 0 <= from <= |m|
    decreases |m| - from
  {
    if from == |m| then Some(|m|)
    else if m[from] == '\'' then
      if from + 1 == |m| then None
      else if m[from + 1] == '%' then Some(from)
      else QuoteEndAsWritten(m, from + 1)
    else QuoteEndAsWritten(m, from + 1)
  }

  /**
   * The written scan agrees with `QuoteEnd`, except that it throws exactly when the run is never
   * closed and the template ends with a `'` inside it.
   */
  lemma {:induction false} QuoteEndAsWrittenThrows(m: string, from: int)
    requires 0 <= from <= |m|
    ensures QuoteEndAsWritten(m, from) ==
      if QuoteEnd(m, from) == |m| && from < |m| && m[|m| - 1] == '\'' then None else Some(QuoteEnd(m, from))
    decreases |m| - from
  {
    if from < |m| && !Closes(m, from) && !(m[from] == '\'' && from + 1 == |m|) {
      QuoteEndAsWrittenThrows(m, from + 1);
    }
  }

  /** The template `%'x'`: the written scan throws, where the run should count as unclosed. */
  lemma QuoteCrash()
    ensures QuoteEndAsWritten("%'x'", 2) == None
    ensures QuoteEnd("%'x'", 2) == 4
  {
    assert !Closes("%'x'", 3);
    assert !Closes("%'x'", 2);
  }

  /** What one turn of the scan loop does from position `p`. */
  datatype Turn =
    | Stop(looked: seq<string>)                           // `break`: copy the rest from `p`
    | Next(text: string, looked: seq<string>, next: int)  // write `text` and go on from `next`

  /** One turn of the `while ((q = m.indexOf('%', p)) >= 0)` loop. */
  function TurnAt(m: string, lookup: string -> string, p: int): (t: Turn)
    requires 0 <= p <= |m|
    ensures t.Next? ==> p < t.next <= |m|
  {
    var q := IndexOf(m, '%', p);
    if q < 0 then Stop([])
    else if q < |m| - 1 && m[q + 1] == '\'' then QuoteTurn(m, p, q)
    else NameTurn(m, lookup, p, q)
  }

  /** `%'stuff'%` with the `%` at `q`: `stuff` is copied, unless the run is never closed. */
  function QuoteTurn(m: string, p: int, q: int): (t: Turn)
    requires 0 <= p <= q && q + 1 < |m|
    ensures t.Next? ==> p < t.next <= |m|
  {
    var s := QuoteEnd(m, q + 2);
    if s >= |m| then Stop([])
    else Next(m[p..q] + m[q + 2..s], [], s + 2)
  }

  /** `%%`, `%var%` and `[ ... %var% ... ]` with the first `%` at `q`. */
  function NameTurn(m: string, lookup: string -> string, p: int, q: int): (t: Turn)
    requires 0 <= p <= q < |m| && m[q] == '%'
    ensures t.Next? ==> p < t.next <= |m|
  {
    var s := IndexOf(m, '%', q + 1);
    if s < 0 then Stop([])
    else if s == q + 1 then Next(m[p..s], [], s + 1)
    else
      var name := m[q + 1..s];
      var val := lookup(name);
      var r := Find(m, p, '[', q - p);
      if r < 0 then Next(m[p..q] + val, [name], s + 1)
      else BracketTurn(m, p, r, q, s, name, val)
  }

  /** `[ stuff1 %var% stuff2 | alternate ]` with `[` at `r` and the `%`s at `q` and `s`. */
  function BracketTurn(m: string, p: int, r: int, q: int, s: int, name: string, val: string): (t: Turn)
    requires 0 <= p <= r < q < s < |m| && m[s] == '%'
    ensures t.Next? ==> p < t.next <= |m|
  {
    var t := IndexOf(m, ']', s + 1);
    if t < 0 then Stop([name])
    else Next(m[p..r] + Chosen(m, r, q, s, t, val), [name], t + 1)
  }

  /**
   * What `[ stuff1 %var% stuff2 | alternate ]` (with `[` at `r`, the `%`s at `q` and `s` and `]`
   * at `t`) turns into: `stuff1 val stuff2` when `val` is not empty, otherwise `alternate`, which
   * is empty when there is no `|`.
   */
  function Chosen(m: string, r: int, q: int, s: int, t: int, val: string): string
    requires 0 <= r < q < s < t < |m| && m[s] == '%'
  {
    var bar := Find(m, s, '|', t - s);
    var v := if bar < 0 then t else bar;
    if |val| > 0 then m[r + 1..q] + val + m[s + 1..v] else if v < t then m[v + 1..t] else []
  }

  /** `interpolate(m, lookup)` from position `p` on, with the names looked up. */
  function Expand(m: string, lookup: string -> string, p: int): Expansion
    requires 0 <= p <= |m|
    decreases |m| - p
  {
    match TurnAt(m, lookup, p)
    case Stop(looked) => Expansion(m[p..], looked)
    case Next(text, looked, next) => Then(Expansion(text, looked), Expand(m, lookup, next))
  }

  /**
   * `interpolate(m, lookup)`: the scan loop, with the unclosed `%'` run read as the rest of the
   * template rather than as an exception. Also returns the names passed to `lookup`.
   */
  method Interpolate(m: string, lookup: string -> string) returns (o: string, looked: seq<string>)
    ensures Expansion(o, looked) == Expand(m, lookup, 0)
  {
    o, looked := [], [];
    var p := 0;
    ghost var total := Expand(m, lookup, 0);
    while true
      invariant 0 <= p <= |m|
      invariant Then(Expansion(o, looked), Expand(m, lookup, p)) == total
      decreases |m| - p
    {
      var turn := ScanTurn(m, lookup, p);
      if turn.Stop? {
        looked := looked + turn.looked;
        break;
      }
      Advance(Expansion(o, looked), m, lookup, p);
      o := o + turn.text;
      looked := looked + turn.looked;
      p := turn.next;
    }
    o := o + m[p..];
  }

  /** One turn of the scan loop from `p`: the branches of the loop body. */
  method ScanTurn(m: string, lookup: string -> string, p: int) returns (turn: Turn)
    requires 0 <= p <= |m|
    ensures turn == TurnAt(m, lookup, p)
  {
    var q := IndexOf(m, '%', p);
    if q < 0 {
      return Stop([]);
    }
    if q < |m| - 1 && m[q + 1] == '\'' {
      var s := ScanQuote(m, q + 2);
      if s >= |m| {
        return Stop([]);
      }
      var o := m[p..q];
      q := q + 2;
      o := o + m[q..s];
      return Next(o, [], s + 2);
    }
    turn := ScanName(m, lookup, p, q);
  }

  /** The loop body after a `%` at `q` that does not open a quoted run. */
  method ScanName(m: string, lookup: string -> string, p: int, q: int) returns (turn: Turn)
    requires 0 <= p <= q < |m| && m[q] == '%'
    ensures turn == NameTurn(m, lookup, p, q)
  {
    var s := IndexOf(m, '%', q + 1);
    if s < 0 {
      return Stop([]);
    } else if s == q + 1 {
      return Next(m[p..s], [], s + 1);
    }
    var name := m[q + 1..s];
    var val := lookup(name);
    var r := Memchr(m, p, '[', q - p);
    if r < 0 {
      return Next(m[p..q] + val, [name], s + 1);
    }
    assert NameTurn(m, lookup, p, q) == BracketTurn(m, p, r, q, s, name, val);
    turn := ScanBracket(m, p, r, q, s, name, val);
  }

  /** The `[ ... ]` case: `]` is looked for after the variable, then the part to keep is chosen. */
  method ScanBracket(m: string, p: int, r: int, q: int, s: int, name: string, val: string) returns (turn: Turn)
    requires 0 <= p <= r < q < s < |m| && m[s] == '%'
    ensures turn == BracketTurn(m, p, r, q, s, name, val)
  {
    var t := IndexOf(m, ']', s + 1);
    if t < 0 {
      return Stop([name]);
    }
    var o := m[p..r];
    var v := Memchr(m, s, '|', t - s);
    if v < 0 {
      v := t;
    }
    if |val| > 0 {
      o := o + m[r + 1..q];
      o := o + val;
      o := o + m[s + 1..v];
    } else if v < t {
      o := o + m[v + 1..t];
    }
    return Next(o, [name], t + 1);
  }

  /** The `for (s = q + 2; ...)` scan for the `'%` that closes a quoted run. */
  method ScanQuote(m: string, from: int) returns (s: int)
    requires 0 <= from <= |m|
    ensures s == QuoteEnd(m, from)
  {
    s := from;
    while s < |m| && !Closes(m, s)
      invariant from <= s <= |m|
      invariant QuoteEnd(m, from) == QuoteEnd(m, s)
    {
      s := s + 1;
    }
  }

  /** The invariant of the scan loop across one turn that goes on. */
  lemma Advance(before: Expansion, m: string, lookup: string -> string, p: int)
    requires 0 <= p <= |m| && TurnAt(m, lookup, p).Next?
    ensures var turn := TurnAt(m, lookup, p);
      Then(before, Expand(m, lookup, p)) ==
      Then(Then(before, Expansion(turn.text, turn.looked)), Expand(m, lookup, turn.next))
  {
    var turn := TurnAt(m, lookup, p);
    ThenAssociates(before, Expansion(turn.text, turn.looked), Expand(m, lookup, turn.next));
  }

  /** Text with no `%` left is copied as it stands, and nothing is looked up. */
  lemma NoPercent(m: string, lookup: string -> string, p: int)
    requires 0 <= p <= |m|
    requires forall i :: p <= i < |m| ==> m[i] != '%'
    ensures Expand(m, lookup, p) == Expansion(m[p..], [])
  {
  }

  /** The whole template without `%`: the result is the template, and `lookup` is never called. */
  lemma Unchanged(m: string, lookup: string -> string)
    requires forall i :: 0 <= i < |m| ==> m[i] != '%'
    ensures Expand(m, lookup, 0) == Expansion(m, [])
  {
    NoPercent(m, lookup, 0);
  }

  /** Text, then `%%`: the text and one `%`, with no lookup. */
  lemma Escape(m: string, lookup: string -> string, p: int, q: int)
    requires 0 <= p <= q && q + 1 < |m| && m[q] == '%' && m[q + 1] == '%'
    requires forall i :: p <= i < q ==> m[i] != '%'
    ensures Expand(m, lookup, p) == Then(Expansion(m[p..q] + "%", []), Expand(m, lookup, q + 2))
  {
    TurnEscape(m, lookup, p, q);
    Unfold(m, lookup, p, Next(m[p..q] + "%", [], q + 2));
  }

  lemma TurnEscape(m: string, lookup: string -> string, p: int, q: int)
    requires 0 <= p <= q && q + 1 < |m| && m[q] == '%' && m[q + 1] == '%'
    requires forall i :: p <= i < q ==> m[i] != '%'
    ensures TurnAt(m, lookup, p) == Next(m[p..q] + "%", [], q + 2)
  {
    assert IndexOf(m, '%', p) == q;
    assert IndexOf(m, '%', q + 1) == q + 1;
    assert m[p..q + 1] == m[p..q] + "%";
  }

  /** Text, then `%'lit'%` with no `'%` inside `lit`: the text and `lit`, uninspected. */
  lemma Quoted(m: string, lookup: string -> string, p: int, q: int, s: int)
    requires 0 <= p <= q && q + 2 <= s && s + 1 < |m|
    requires m[q] == '%' && m[q + 1] == '\'' && m[s] == '\'' && m[s + 1] == '%'
    requires forall i :: p <= i < q ==> m[i] != '%'
    requires forall i :: q + 2 <= i < s ==> !Closes(m, i)
    ensures Expand(m, lookup, p) == Then(Expansion(m[p..q] + m[q + 2..s], []), Expand(m, lookup, s + 2))
  {
    TurnQuoted(m, lookup, p, q, s);
    Unfold(m, lookup, p, Next(m[p..q] + m[q + 2..s], [], s + 2));
  }

  lemma TurnQuoted(m: string, lookup: string -> string, p: int, q: int, s: int)
    requires 0 <= p <= q && q + 2 <= s && s + 1 < |m|
    requires m[q] == '%' && m[q + 1] == '\'' && m[s] == '\'' && m[s + 1] == '%'
    requires forall i :: p <= i < q ==> m[i] != '%'
    requires forall i :: q + 2 <= i < s ==> !Closes(m, i)
    ensures TurnAt(m, lookup, p) == Next(m[p..q] + m[q + 2..s], [], s + 2)
  {
    assert IndexOf(m, '%', p) == q;
    QuoteEndIs(m, q + 2, s);
  }

  /** Text, then `%'` that is never closed: the scan stops and the rest is copied. */
  lemma QuoteUnclosed(m: string, lookup: string -> string, p: int, q: int)
    requires 0 <= p <= q && q + 1 < |m| && m[q] == '%' && m[q + 1] == '\''
    requires forall i :: p <= i < q ==> m[i] != '%'
    requires forall i :: q + 2 <= i < |m| ==> !Closes(m, i)
    ensures Expand(m, lookup, p) == Expansion(m[p..], [])
  {
    QuoteEndIs(m, q + 2, |m|);
  }

  /** `QuoteEnd` is the first closing position. */
  lemma QuoteEndIs(m: string, from: int, s: int)
    requires 0 <= from <= s <= |m|
    requires s < |m| ==> Closes(m, s)
    requires forall i :: from <= i < s ==> !Closes(m, i)
    ensures QuoteEnd(m, from) == s
  {
  }

  /** Text with no `[`, then `%var%`: the text and `lookup(var)`. */
  lemma Variable(m: string, lookup: string -> string, p: int, q: int, s: int)
    requires 0 <= p <= q && q + 1 < s < |m|
    requires m[q] == '%' && m[q + 1] != '\'' && m[s] == '%'
    requires forall i :: p <= i < q ==> m[i] != '%' && m[i] != '['
    requires forall i :: q < i < s ==> m[i] != '%'
    ensures var name := m[q + 1..s];
      Expand(m, lookup, p) == Then(Expansion(m[p..q] + lookup(name), [name]), Expand(m, lookup, s + 1))
  {
    var name := m[q + 1..s];
    TurnVariable(m, lookup, p, q, s);
    Unfold(m, lookup, p, Next(m[p..q] + lookup(name), [name], s + 1));
  }

  lemma TurnVariable(m: string, lookup: string -> string, p: int, q: int, s: int)
    requires 0 <= p <= q && q + 1 < s < |m|
    requires m[q] == '%' && m[q + 1] != '\'' && m[s] == '%'
    requires forall i :: p <= i < q ==> m[i] != '%' && m[i] != '['
    requires forall i :: q < i < s ==> m[i] != '%'
    ensures var name := m[q + 1..s];
      TurnAt(m, lookup, p) == Next(m[p..q] + lookup(name), [name], s + 1)
  {
    assert IndexOf(m, '%', p) == q;
    assert IndexOf(m, '%', q + 1) == s;
    assert Find(m, p, '[', q - p) == -1;
    assert TurnAt(m, lookup, p) == NameTurn(m, lookup, p, q);
  }

  /** Text, then a `%` with no partner: the scan stops and the rest is copied. */
  lemma Unterminated(m: string, lookup: string -> string, p: int, q: int)
    requires 0 <= p <= q < |m| && m[q] == '%' && (q + 1 < |m| ==> m[q + 1] != '\'')
    requires forall i :: p <= i < q ==> m[i] != '%'
    requires forall i :: q < i < |m| ==> m[i] != '%'
    ensures Expand(m, lookup, p) == Expansion(m[p..], [])
  {
  }

  /**
   * Text with no `[` up to the `[` at `r`, then `pre %var% post | alt ]` (the `|` at `v`, or
   * `v == t` when there is none): the turn of the scan loop writes the text, then `pre val post`
   * when `val` is not empty and `alt` otherwise, and goes on after the `]`.
   */
  lemma Bracket(m: string, lookup: string -> string, p: int, r: int, q: int, s: int, v: int, t: int)
    requires 0 <= p <= r < q && q + 1 < s < v <= t < |m|
    requires m[r] == '[' && m[q] == '%' && m[q + 1] != '\'' && m[s] == '%' && m[t] == ']'
    requires forall i :: p <= i < q ==> m[i] != '%'
    requires forall i :: p <= i < r ==> m[i] != '['
    requires forall i :: q < i < s ==> m[i] != '%'
    requires forall i :: s < i < t ==> m[i] != ']'
    requires forall i :: s < i < v ==> m[i] != '|'
    requires v < t ==> m[v] == '|'
    ensures var name := m[q + 1..s];
      var val := lookup(name);
      var chosen := if |val| > 0 then m[r + 1..q] + val + m[s + 1..v] else m[(if v < t then v + 1 else t)..t];
      TurnAt(m, lookup, p) == Next(m[p..r] + chosen, [name], t + 1)
  {
    var name := m[q + 1..s];
    var val := lookup(name);
    assert Chosen(m, r, q, s, t, val) ==
      if |val| > 0 then m[r + 1..q] + val + m[s + 1..v] else m[(if v < t then v + 1 else t)..t]
    by {
      ChosenIs(m, r, q, s, v, t, val);
    }
    assert TurnAt(m, lookup, p) == Next(m[p..r] + Chosen(m, r, q, s, t, val), [name], t + 1) by {
      BracketSearch(m, p, r, q, s, t);
      TurnBracket(m, lookup, p, r, q, s, t);
    }
  }

  /** Where the searches of the loop body land on a `[ ... %var% ... ]` template. */
  lemma BracketSearch(m: string, p: int, r: int, q: int, s: int, t: int)
    requires 0 <= p <= r < q && q + 1 < s < t < |m|
    requires m[r] == '[' && m[q] == '%' && m[s] == '%' && m[t] == ']'
    requires forall i :: p <= i < q ==> m[i] != '%'
    requires forall i :: p <= i < r ==> m[i] != '['
    requires forall i :: q < i < s ==> m[i] != '%'
    requires forall i :: s < i < t ==> m[i] != ']'
    ensures IndexOf(m, '%', p) == q && IndexOf(m, '%', q + 1) == s
    ensures Find(m, p, '[', q - p) == r && IndexOf(m, ']', s + 1) == t
  {
    assert IndexOf(m, '%', p) == q;
    assert IndexOf(m, '%', q + 1) == s;
    assert Find(m, p, '[', q - p) == r;
  }

  lemma TurnBracket(m: string, lookup: string -> string, p: int, r: int, q: int, s: int, t: int)
    requires 0 <= p <= r < q && q + 1 < s < t < |m| && m[q + 1] != '\'' && m[s] == '%'
    requires IndexOf(m, '%', p) == q && IndexOf(m, '%', q + 1) == s
    requires Find(m, p, '[', q - p) == r && IndexOf(m, ']', s + 1) == t
    ensures var name := m[q + 1..s];
      TurnAt(m, lookup, p) == Next(m[p..r] + Chosen(m, r, q, s, t, lookup(name)), [name], t + 1)
  {
    var name := m[q + 1..s];
    assert TurnAt(m, lookup, p) == NameTurn(m, lookup, p, q);
    assert NameTurn(m, lookup, p, q) == BracketTurn(m, p, r, q, s, name, lookup(name));
  }

  lemma ChosenIs(m: string, r: int, q: int, s: int, v: int, t: int, val: string)
    requires 0 <= r < q < s < v <= t < |m| && m[s] == '%'
    requires forall i :: s < i < v ==> m[i] != '|'
    requires v < t ==> m[v] == '|'
    ensures Chosen(m, r, q, s, t, val) ==
      if |val| > 0 then m[r + 1..q] + val + m[s + 1..v] else m[(if v < t then v + 1 else t)..t]
  {
    assert Find(m, s, '|', t - s) == if v < t then v else -1;
  }

  /** `Expand` across one turn that goes on. */
  lemma Unfold(m: string, lookup: string -> string, p: int, turn: Turn)
    requires 0 <= p <= |m| && turn.Next? && TurnAt(m, lookup, p) == turn
    ensures Expand(m, lookup, p) == Then(Expansion(turn.text, turn.looked), Expand(m, lookup, turn.next))
  {
  }

  /** A `[` before `%var%` but no `]` after it: the scan stops and the rest is copied. */
  lemma BracketUnclosed(m: string, lookup: string -> string, p: int, r: int, q: int, s: int)
    requires 0 <= p <= r < q && q + 1 < s < |m|
    requires m[r] == '[' && m[q] == '%' && m[q + 1] != '\'' && m[s] == '%'
    requires forall i :: p <= i < q ==> m[i] != '%'
    requires forall i :: q < i < s ==> m[i] != '%'
    requires forall i :: s < i < |m| ==> m[i] != ']'
    ensures Expand(m, lookup, p) == Expansion(m[p..], [m[q + 1..s]])
  {
    var name := m[q + 1..s];
    assert IndexOf(m, '%', p) == q;
    assert IndexOf(m, '%', q + 1) == s;
    var open := Find(m, p, '[', q - p);
    assert open >= 0;
    assert IndexOf(m, ']', s + 1) == -1;
    assert NameTurn(m, lookup, p, q) == BracketTurn(m, p, open, q, s, name, lookup(name)) == Stop([name]);
    assert TurnAt(m, lookup, p) == Stop([name]);
  }

  /** `a%%b` is `a%b`. */
  lemma EscapeExample(lookup: string -> string)
    ensures Expand("a%%b", lookup, 0) == Expansion("a%b", [])
  {
    var m := "a%%b";
    Escape(m, lookup, 0, 1);
    NoPercent(m, lookup, 3);
    assert m[0..1] + "%" + m[3..] == "a%b";
  }

  /** `[-%u%-|none]` is `-u-` for a non-empty value of `u`, and `none` otherwise. */
  lemma BracketExample(lookup: string -> string)
    ensures Expand("[-%u%-|none]", lookup, 0) ==
      Expansion(if |lookup("u")| > 0 then "-" + lookup("u") + "-" else "none", ["u"])
  {
    var m := "[-%u%-|none]";
    assert m[1..2] == "-";
    assert m[5..6] == "-";
    assert m[7..11] == "none";
    assert m[3..4] == "u";
    assert m[0..0] == "" && m[12..] == "";
    var val := lookup("u");
    var chosen := if |val| > 0 then "-" + val + "-" else "none";
    Bracket(m, lookup, 0, 0, 2, 4, 6, 11);
    assert m[0..0] + chosen == chosen;
    Unfold(m, lookup, 0, Next(chosen, ["u"], 12));
    NoPercent(m, lookup, 12);
    assert chosen + [] == chosen && ["u"] + [] == ["u"];
  }

  /**
   * The template `%'x'`, on which the written scan throws: the corrected scan finds the run
   * unclosed, and the whole template is copied.
   */
  lemma QuoteCrashCorrected(lookup: string -> string)
    ensures Expand("%'x'", lookup, 0) == Expansion("%'x'", [])
  {
    QuoteUnclosed("%'x'", lookup, 0, 0);
  }
}
