/** `ErrorSeverity`: the severity of a server message, ordered from harmless to fatal. */
module Severity {

  /** The enum constants, in declaration order. */
  datatype Severity = None | Info | Warn | Failed | Fatal

  /** `ordinal()`: the position in declaration order. */
  function Ordinal(s: Severity): (n: nat)
    ensures n < 5
  {
    match s
    case None => 0
    case Info => 1
    case Warn => 2
    case Failed => 3
    case Fatal => 4
  }

  /** `a.compareTo(b)`: the difference of the ordinals, as `Enum.compareTo` defines it. */
  function CompareTo(a: Severity, b: Severity): (c: int)
    ensures c == 0 <==> a == b
    ensures c < 0 <==> Ordinal(a) < Ordinal(b)
  {
    Ordinal(a) - Ordinal(b)
  }

  /** `isOk()`: at most `Info`. */
  predicate IsOk(s: Severity) {
    CompareTo(s, Info) <= 0
  }

  /** `isError()`: at least `Failed`. */
  predicate IsError(s: Severity) {
    CompareTo(s, Failed) >= 0
  }

  /** No two severities share an ordinal, so the order is total: exactly one of `<`, `==`, `>`. */
  lemma OrderTotal(a: Severity, b: Severity)
    ensures Ordinal(a) == Ordinal(b) ==> a == b
    ensures CompareTo(a, b) == -CompareTo(b, a)
  {
  }

  /** The declaration order: `None < Info < Warn < Failed < Fatal`. */
  lemma Ascending()
    ensures CompareTo(None, Info) < 0 && CompareTo(Info, Warn) < 0
    ensures CompareTo(Warn, Failed) < 0 && CompareTo(Failed, Fatal) < 0
  {
  }

  /** `isOk` holds for `None` and `Info` and for nothing else. */
  lemma OkExactly(s: Severity)
    ensures IsOk(s) <==> s == None || s == Info
  {
  }

  /** `isError` holds for `Failed` and `Fatal` and for nothing else. */
  lemma ErrorExactly(s: Severity)
    ensures IsError(s) <==> s == Failed || s == Fatal
  {
  }

  /** No severity is both ok and an error; `Warn` is neither. */
  lemma OkOrError(s: Severity)
    ensures !(IsOk(s) && IsError(s))
    ensures !IsOk(s) && !IsError(s) <==> s == Warn
  {
  }
}
