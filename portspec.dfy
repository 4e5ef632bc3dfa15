/**
 * The `host:port` argument of the command line client: split at the last `:`, with the text after
 * it read by `Integer.parseInt`, and the default port 1666 when there is no `:` at all.
 */
module PortSpec {
  import opened Wrappers
  import opened JavaString
  import opened JavaInt

  /** The port used when the argument names only a host. */
  const DefaultPort: int := 1666

  /** Where to connect. */
  datatype Endpoint = Endpoint(host: string, port: int)

  /** The split in `P4.main`; `None` is the `NumberFormatException` of a port that is not a number. */
  function SplitPort(arg: string): (r: Option<Endpoint>)
    ensures r.Some? ==> IsInt32(r.value.port)
  {
    var sep := LastIndexOf(arg, ':');
    if sep >= 0 then
      match ParseInt(arg[sep + 1..])
      case None => None
      case Some(n) => Some(Endpoint(arg[..sep], n))
    else Some(Endpoint(arg, DefaultPort))
  }

  /** Without a `:`, the whole argument is the host and the port is 1666. */
  lemma HostOnly(arg: string)
    requires forall i :: 0 <= i < |arg| ==> arg[i] != ':'
    ensures SplitPort(arg) == Some(Endpoint(arg, DefaultPort))
  {
  }

  /**
   * Joining a host (which may itself hold `:`s) and a port that fits an `int` with `:` splits back
   * into the same two.
   */
  lemma JoinSplit(host: string, port: nat)
    requires port <= MaxInt
    ensures SplitPort(host + ":" + Decimal(port)) == Some(Endpoint(host, port))
  {
    var digits := Decimal(port);
    var arg := host + ":" + digits;
    forall i | |host| < i < |arg|
      ensures arg[i] != ':'
    {
      assert arg[i] == digits[i - |host| - 1];
      assert IsDigit(digits[i - |host| - 1]);
    }
    LastIndexOfAt(arg, ':', |host|);
    assert arg[|host| + 1..] == digits;
    assert arg[..|host|] == host;
    ParseDecimal(port);
  }

  /**
   * A successful split is the argument itself: either the host alone, with the default port, or
   * the host, the last `:`, and text that parses as the port.
   */
  lemma SplitJoin(arg: string)
    requires SplitPort(arg).Some?
    ensures var e := SplitPort(arg).value;
      if ':' in arg then
        exists rest :: arg == e.host + ":" + rest && ':' !in rest && ParseInt(rest) == Some(e.port)
      else e == Endpoint(arg, DefaultPort)
  {
    var e := SplitPort(arg).value;
    var sep := LastIndexOf(arg, ':');
    if ':' in arg {
      var k :| 0 <= k < |arg| && arg[k] == ':';
      assert sep >= 0;
      var rest := arg[sep + 1..];
      assert e.host == arg[..sep] && ParseInt(rest) == Some(e.port);
      assert arg == e.host + ":" + rest;
      forall i | 0 <= i < |rest|
        ensures rest[i] != ':'
      {
        assert rest[i] == arg[sep + 1 + i];
      }
      assert ':' !in rest;
    } else {
      assert sep == -1;
    }
  }

  /** An argument ending in `:` names no port, and `parseInt("")` throws. */
  lemma EmptyPortRejected(host: string)
    ensures SplitPort(host + ":") == None
  {
    var arg := host + ":";
    assert LastIndexOf(arg, ':') == |host|;
    assert arg[|host| + 1..] == "";
  }
}
