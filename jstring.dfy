/**
 * The `java.lang.String` searches the interpolators and the command line rely on, and the shape of
 * an interpolation: the text produced together with the names handed to the lookup callback, in
 * the order of the calls.
 */
module JavaString {

  /** `s.indexOf(c, from)`: the first position at or after `from` that holds `c`, or -1. */
  function IndexOf(s: string, c: char, from: int): (r: int)
    requires 0 <= from
    ensures r == -1 || (from <= r < |s| && s[r] == c)
    ensures r == -1 ==> forall i :: from <= i < |s| ==> s[i] != c
    ensures r >= 0 ==> forall i :: from <= i < r ==> s[i] != c
    decreases |s| - from
  {
    if from >= |s| then -1 else if s[from] == c then from else IndexOf(s, c, from + 1)
  }

  /** `s.lastIndexOf(c)`: the last position that holds `c`, or -1. */
  function LastIndexOf(s: string, c: char): (r: int)
    ensures r == -1 || (0 <= r < |s| && s[r] == c)
    ensures r == -1 ==> forall i :: 0 <= i < |s| ==> s[i] != c
    ensures forall i :: r < i < |s| ==> s[i] != c
  {
    if |s| == 0 then -1 else if s[|s| - 1] == c then |s| - 1 else LastIndexOf(s[..|s| - 1], c)
  }

  /** A `c` with no `c` after it is the last one. */
  lemma LastIndexOfAt(s: string, c: char, k: int)
    requires 0 <= k < |s| && s[k] == c
    requires forall i :: k < i < |s| ==> s[i] != c
    ensures LastIndexOf(s, c) == k
  {
  }

  /** The number of occurrences of `c` in `s`. */
  function Count(s: string, c: char): nat {
    if |s| == 0 then 0 else (if s[0] == c then 1 else 0) + Count(s[1..], c)
  }

  /** A run without `c` adds nothing to the count. */
  lemma {:induction false} CountSkip(s: string, c: char, i: int, j: int)
    requires 0 <= i <= j <= |s|
    requires forall k :: i <= k < j ==> s[k] != c
    ensures Count(s[i..], c) == Count(s[j..], c)
    decreases j - i
  {
    if i < j {
      assert s[i..][1..] == s[i + 1..];
      CountSkip(s, c, i + 1, j);
    }
  }

  /** What an interpolation produces: its text, and the names it looked up, in order. */
  datatype Expansion = Expansion(text: string, looked: seq<string>)

  /** One expansion followed by another. */
  function Then(a: Expansion, b: Expansion): Expansion {
    Expansion(a.text + b.text, a.looked + b.looked)
  }

  lemma ThenAssociates(a: Expansion, b: Expansion, c: Expansion)
    ensures Then(Then(a, b), c) == Then(a, Then(b, c))
  {
    assert (a.text + b.text) + c.text == a.text + (b.text + c.text);
    assert (a.looked + b.looked) + c.looked == a.looked + (b.looked + c.looked);
  }
}
