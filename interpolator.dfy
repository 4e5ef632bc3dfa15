/**
 * `StringInterpolator.java` (the simple one): every `%name%` becomes `lookup(name)`, all other
 * characters are copied, and the text after a `%` that is never closed is dropped.
 */
module Interpolator {
  import opened JavaString

  /**
   * The expansion of `fmt`, read from the front: a plain character is copied, a `%` up to the next
   * `%` is one lookup, and a `%` with no partner ends the text.
   */
  function Substituted(fmt: string, lookup: string -> string): Expansion
    decreases |fmt|
  {
    if |fmt| == 0 then Expansion([], [])
    else if fmt[0] != '%' then Then(Expansion([fmt[0]], []), Substituted(fmt[1..], lookup))
    else
      var close := IndexOf(fmt, '%', 1);
      if close < 0 then Expansion([], [])
      else
        var name := fmt[1..close];
        Then(Expansion(lookup(name), [name]), Substituted(fmt[close + 1..], lookup))
  }

  /**
   * `interpolate(fmt, lookup)`: one pass over the characters, with `argStart` at the first
   * character of an open name (-1 outside one). Also returns the names passed to `lookup`.
   */
  method Interpolate(fmt: string, lookup: string -> string) returns (result: string, looked: seq<string>)
    ensures Expansion(result, looked) == Substituted(fmt, lookup)
  {
    result, looked := [], [];
    var argStart := -1;
    ghost var total := Substituted(fmt, lookup);
    ghost var rest := total;
    ghost var from := 0;
    for i := 0 to |fmt|
      invariant -1 <= argStart <= i && 0 <= from <= i
      invariant from == if argStart >= 0 then argStart - 1 else i
      invariant argStart >= 0 ==> 0 < argStart && fmt[argStart - 1] == '%'
      invariant argStart >= 0 ==> forall k :: argStart <= k < i ==> fmt[k] != '%'
      invariant rest == Substituted(fmt[from..], lookup)
      invariant Then(Expansion(result, looked), rest) == total
    {
      var c := fmt[i];
      if c == '%' {
        if argStart >= 0 {
          var argName := fmt[argStart..i];
          OpenName(fmt, argStart, i, lookup);
          ghost var done := Expansion(result, looked);
          ghost var piece := Expansion(lookup(argName), [argName]);
          ghost var next := Substituted(fmt[i + 1..], lookup);
          assert rest == Then(piece, next);
          ThenAssociates(done, piece, next);
          argStart := -1;
          result := result + lookup(argName);
          looked := looked + [argName];
          assert Expansion(result, looked) == Then(done, piece);
          rest := next;
        } else {
          argStart := i + 1;
        }
      } else if argStart < 0 {
        PlainChar(fmt, i, lookup);
        ghost var done := Expansion(result, looked);
        ghost var piece := Expansion([c], []);
        ghost var next := Substituted(fmt[i + 1..], lookup);
        assert rest == Then(piece, next);
        ThenAssociates(done, piece, next);
        result := result + [c];
        assert Expansion(result, looked) == Then(done, piece);
        rest := next;
      }
      from := if argStart >= 0 then argStart - 1 else i + 1;
    }
    if argStart >= 0 {
      OpenName(fmt, argStart, |fmt|, lookup);
    }
    assert result + [] == result && looked + [] == looked;
  }

  /** A character other than `%` outside a name is copied. */
  lemma PlainChar(fmt: string, i: int, lookup: string -> string)
    requires 0 <= i < |fmt| && fmt[i] != '%'
    ensures Substituted(fmt[i..], lookup) == Then(Expansion([fmt[i]], []), Substituted(fmt[i + 1..], lookup))
  {
    assert fmt[i..][1..] == fmt[i + 1..];
  }

  /**
   * A name opened by the `%` before `start` with no `%` in `fmt[start..i]`: closed by a `%` at `i`,
   * or, when `i` is the end, never closed, so that nothing more is written.
   */
  lemma OpenName(fmt: string, start: int, i: int, lookup: string -> string)
    requires 0 < start <= i <= |fmt| && fmt[start - 1] == '%'
    requires forall k :: start <= k < i ==> fmt[k] != '%'
    requires i < |fmt| ==> fmt[i] == '%'
    ensures i < |fmt| ==>
      Substituted(fmt[start - 1..], lookup) == Then(Expansion(lookup(fmt[start..i]), [fmt[start..i]]), Substituted(fmt[i + 1..], lookup))
    ensures i == |fmt| ==> Substituted(fmt[start - 1..], lookup) == Expansion([], [])
  {
    var s := fmt[start - 1..];
    var close := IndexOf(s, '%', 1);
    if i < |fmt| {
      assert s[i - start + 1] == '%';
      assert close == i - start + 1;
      assert s[1..close] == fmt[start..i] && s[close + 1..] == fmt[i + 1..];
    } else {
      assert close == -1;
    }
  }

  /** Text without `%` comes out unchanged, and nothing is looked up. */
  lemma {:induction false} NoPercent(fmt: string, lookup: string -> string)
    requires forall i :: 0 <= i < |fmt| ==> fmt[i] != '%'
    ensures Substituted(fmt, lookup) == Expansion(fmt, [])
    decreases |fmt|
  {
    if |fmt| > 0 {
      NoPercent(fmt[1..], lookup);
      assert [fmt[0]] + fmt[1..] == fmt;
    }
  }

  /** One lookup per closed `%...%` pair: half the `%` signs, rounded down. */
  lemma {:induction false} LookupsPerPair(fmt: string, lookup: string -> string)
    ensures |Substituted(fmt, lookup).looked| == Count(fmt, '%') / 2
    decreases |fmt|
  {
    if |fmt| > 0 {
      if fmt[0] != '%' {
        LookupsPerPair(fmt[1..], lookup);
      } else {
        var close := IndexOf(fmt, '%', 1);
        if close < 0 {
          CountSkip(fmt, '%', 1, |fmt|);
        } else {
          LookupsPerPair(fmt[close + 1..], lookup);
          CountSkip(fmt, '%', 1, close);
          assert fmt[close..][1..] == fmt[close + 1..];
        }
      }
    }
  }

  /** The cases `empty` and `simple` of `StringInterpolatorTest`: plain text is copied. */
  lemma PlainExamples(lookup: string -> string)
    ensures Substituted("", lookup) == Expansion("", [])
    ensures Substituted("foobar", lookup) == Expansion("foobar", [])
  {
    NoPercent("foobar", lookup);
  }

  /** The cases `arg` and `emptyArgName`: `%foo%` is `lookup("foo")` and `%%` is `lookup("")`. */
  lemma NameExamples(lookup: string -> string)
    ensures Substituted("%foo%", lookup) == Expansion(lookup("foo"), ["foo"])
    ensures Substituted("%%", lookup) == Expansion(lookup(""), [""])
  {
    assert "%foo%"[1..4] == "foo";
    assert "%foo%"[5..] == "";
    assert "%%"[1..1] == "";
    assert "%%"[2..] == "";
  }

  /** The cases `unmatched` and `unmatched2`: text after an unclosed `%` is dropped. */
  lemma UnmatchedExamples(lookup: string -> string)
    ensures Substituted("%", lookup) == Expansion("", [])
    ensures Substituted("%aa", lookup) == Expansion("", [])
  {
  }
}
