/**
 * `Client.java`: one session of the Perforce RPC protocol. A call sends the user command and then
 * answers the server's messages until `release`: the built-in handlers answer `flush1`,
 * `protocol`, `client-Crypto`, `client-Prompt` and `client-SetPassword`, and the caller's
 * callback answers everything else. The first call on a session first sends the `protocol`
 * handshake and runs a `discover` command to learn the server's protocol level.
 *
 * The socket is two sequences of messages: the replies the server has yet to deliver and what the
 * client has sent. MD5, the remote address and the user's input are parameters of the session.
 */
module ClientSession {
  import opened Wrappers
  import opened Octets
  import opened Messages
  import opened JavaInt
  import opened MangleHex
  import Lucifer
  import Crypto

  // Parameter names and values of the protocol.
  const FSEQ: Bytes := Ascii("fseq")
  const FLUSH2: Bytes := Ascii("flush2")
  const SERVER2: Bytes := Ascii("server2")
  const SERVER: Bytes := Ascii("server")
  const UNICODE: Bytes := Ascii("unicode")
  const ONE: Bytes := Ascii("1")
  const DIGEST: Bytes := Ascii("digest")
  const DATA: Bytes := Ascii("data")
  const CONFIRM: Bytes := Ascii("confirm")
  const TOKEN: Bytes := Ascii("token")
  const DADDR: Bytes := Ascii("daddr")
  const TRUNCATE: Bytes := Ascii("truncate")
  const NOECHO: Bytes := Ascii("noecho")
  const USER_PREFIX: Bytes := Ascii("user-")
  const DISCOVER: Bytes := Ascii("discover")
  const PROTOCOL: Bytes := Ascii("protocol")
  const CLIENT: Bytes := Ascii("client")
  const SNDBUF: Bytes := Ascii("sndbuf")
  const RCVBUF: Bytes := Ascii("rcvbuf")
  const CLIENT_LEVEL: Bytes := Ascii("80")
  const BUFFER_SIZE: Bytes := Ascii("524288")
  const AUTO_LOGIN: Bytes := Ascii("autoLogin")
  const TAG: Bytes := Ascii("tag")
  const ENABLE_STREAMS: Bytes := Ascii("enableStreams")
  const EXPAND_AND_MAPS: Bytes := Ascii("expandAndmaps")
  const CWD: Bytes := Ascii("cwd")
  const OS: Bytes := Ascii("os")
  const UNIX: Bytes := Ascii("UNIX")
  const USER: Bytes := Ascii("user")
  const CHARSET: Bytes := Ascii("charset")
  const CLIENT_CASE: Bytes := Ascii("clientCase")

  /** The exceptions a call lets through. */
  datatype Failure =
    | StreamCorrupted            // a server message without `func`
    | EndOfStream                // the connection ended before `release`
    | NumberFormat               // a protocol level that `Integer.parseInt` rejects
    | NullPointer                // a missing parameter handed to `Mangle.XOR` or to MD5
    | IllegalArgument            // `Mangle.XOR` of values that are not 32 hex characters
    | Cipher(thrown: Crypto.Thrown)  // `Mangle.InMD5` rejected its input

  /** What the session gets from outside. */
  datatype Env = Env(
    md5: seq<Bytes> -> Bytes,                         // `md5(parts...)`: the hex MD5 of the parts, in order
    daddr: Option<Bytes>,                             // `getSocketAddr` of the server's address
    resolve: (Option<string>, bool) -> Option<Bytes>) // `getUserInput(prompt, noecho)`, as UTF-8

  /** The fields the handlers read and write, with the message every command is built from. */
  datatype State = State(
    protocolSent: bool,
    protocolServer: int,
    password: Option<Bytes>,
    secretToken: Option<Bytes>,
    secretHash: Option<Bytes>,
    base: Message,
    s1: seq<int>)  // the `s1` table of `Mangle`, which `InMD5` uses

  ghost predicate Good(st: State) {
    WellFormed(st.base) && Lucifer.IsTable(st.s1)
  }

  ghost predicate AllWellFormed(ms: seq<Message>) {
    forall i :: 0 <= i < |ms| ==> WellFormed(ms[i])
  }

  /** `builder.param(name, value)` on a built message: a null value changes nothing. */
  function With(m: Message, name: Bytes, value: Option<Bytes>): (r: Message)
    requires WellFormed(m) && name != []
    ensures WellFormed(r) && r.args == m.args
  {
    if value.None? then m
    else
      PutKeepsNamed(m.params, name, value.value);
      Message(Put(m.params, name, value.value), m.args)
  }

  /** After `With`, `name` holds the new value (when there is one) and every other name is as it was. */
  lemma WithGet(m: Message, name: Bytes, value: Option<Bytes>, k: Bytes)
    requires WellFormed(m) && name != []
    ensures GetBytes(With(m, name, value), k) == if k == name && value.Some? then value else GetBytes(m, k)
  {
    if value.Some? {
      LookupPut(m.params, name, value.value, k);
    }
  }

  /** A `param(name, value)` call: the name, and the value (`None` for Java's null). */
  type Setting = (Bytes, Option<Bytes>)

  /** Settings with non-empty names, none of which appends a positional argument. */
  predicate Named(ps: seq<Setting>) {
    forall i :: 0 <= i < |ps| ==> ps[i].0 != []
  }

  /** `param` called with each setting in turn on a builder that holds `m`. */
  function WithAll(m: Message, ps: seq<Setting>): (r: Message)
    requires WellFormed(m) && Named(ps)
    ensures WellFormed(r) && r.args == m.args
    decreases |ps|
  {
    if |ps| == 0 then m
    else With(WithAll(m, ps[..|ps| - 1]), ps[|ps| - 1].0, ps[|ps| - 1].1)
  }

  /** The value the last setting of `k` with a value gives it, or `d` when no setting does. */
  function Latest(ps: seq<Setting>, k: Bytes, d: Option<Bytes>): Option<Bytes>
    decreases |ps|
  {
    if |ps| == 0 then d
    else if ps[|ps| - 1].0 == k && ps[|ps| - 1].1.Some? then ps[|ps| - 1].1
    else Latest(ps[..|ps| - 1], k, d)
  }

  /** After a run of settings, each name holds what its last setting gave it, or else what it held. */
  lemma {:induction false} WithAllGet(m: Message, ps: seq<Setting>, k: Bytes)
    requires WellFormed(m) && Named(ps)
    ensures GetBytes(WithAll(m, ps), k) == Latest(ps, k, GetBytes(m, k))
    decreases |ps|
  {
    if |ps| > 0 {
      var init := ps[..|ps| - 1];
      WithAllGet(m, init, k);
      WithGet(WithAll(m, init), ps[|ps| - 1].0, ps[|ps| - 1].1, k);
    }
  }

  /** Settings after position `n` that do not name `k` do not change what `k` ends up holding. */
  lemma {:induction false} LatestBefore(ps: seq<Setting>, n: int, k: Bytes, d: Option<Bytes>)
    requires 0 <= n <= |ps|
    requires forall i :: n <= i < |ps| ==> ps[i].0 != k
    ensures Latest(ps, k, d) == Latest(ps[..n], k, d)
    decreases |ps|
  {
    if n < |ps| {
      var init := ps[..|ps| - 1];
      LatestBefore(init, n, k, d);
      assert init[..n] == ps[..n];
    } else {
      assert ps[..n] == ps;
    }
  }

  /** One more setting is one more `param` call. */
  lemma WithAllSnoc(m: Message, ps: seq<Setting>, p: Setting)
    requires WellFormed(m) && Named(ps) && p.0 != []
    ensures Named(ps + [p]) && WithAll(m, ps + [p]) == With(WithAll(m, ps), p.0, p.1)
  {
    assert (ps + [p])[..|ps|] == ps;
  }

  /** Four settings made one at a time are the four settings. */
  lemma Snoc4(pre: seq<Setting>, p: Setting, q: Setting, r: Setting, t: Setting)
    ensures pre + [p] + [q] + [r] + [t] == pre + [p, q, r, t]
  {
  }

  /** Seven settings made one at a time are the seven settings. */
  lemma Snoc7(pre: seq<Setting>, a: Setting, b: Setting, c: Setting, d: Setting, e: Setting, f: Setting, g: Setting)
    ensures pre + [a] + [b] + [c] + [d] + [e] + [f] + [g] == pre + [a, b, c, d, e, f, g]
  {
  }

  /** What a name holds after four settings: the last of them that sets it, else `d`. */
  lemma Latest4(p: Setting, q: Setting, r: Setting, t: Setting, k: Bytes, d: Option<Bytes>)
    ensures Latest([p, q, r, t], k, d) ==
      if t.0 == k && t.1.Some? then t.1
      else if r.0 == k && r.1.Some? then r.1
      else if q.0 == k && q.1.Some? then q.1
      else if p.0 == k && p.1.Some? then p.1
      else d
  {
    assert [p, q, r, t][..3] == [p, q, r] && [p, q, r][..2] == [p, q];
    assert [p, q][..1] == [p] && [p][..0] == [];
    var l1 := if p.0 == k && p.1.Some? then p.1 else d;
    assert Latest([p], k, d) == l1;
    var l2 := if q.0 == k && q.1.Some? then q.1 else l1;
    assert Latest([p, q], k, d) == l2;
    var l3 := if r.0 == k && r.1.Some? then r.1 else l2;
    assert Latest([p, q, r], k, d) == l3;
  }

  /** The settings of `createBaseMessage(username, tag)`, in the order it makes them. */
  function BaseSettings(username: Bytes, tag: bool): (ps: seq<Setting>)
    ensures Named(ps)
  {
    [(AUTO_LOGIN, Some([]))]
      + (if tag then [(TAG, Some([]))] else [])
      + [(ENABLE_STREAMS, Some(EXPAND_AND_MAPS)), (CLIENT, Some([])), (CWD, Some([])), (OS, Some(UNIX)),
         (USER, Some(username)), (CHARSET, Some(ONE)), (CLIENT_CASE, Some(ONE))]
  }

  /** `createBaseMessage(username, tag)`: the parameters every command carries. */
  function BaseMessage(username: Bytes, tag: bool): (m: Message)
    ensures WellFormed(m) && m.args == []
  {
    WithAll(Empty, BaseSettings(username, tag))
  }

  /** The settings of the `protocol` message the first call sends. */
  function HandshakeSettings(): (ps: seq<Setting>)
    ensures Named(ps)
  {
    [(CLIENT, Some(CLIENT_LEVEL)), (SNDBUF, Some(BUFFER_SIZE)), (RCVBUF, Some(BUFFER_SIZE)), (FUNC, Some(PROTOCOL))]
  }

  /** The `protocol` message the first call sends. */
  function Handshake(): (m: Message)
    ensures WellFormed(m)
  {
    WithAll(Empty, HandshakeSettings())
  }

  /** The message of a command: `base` with `func = user-<func>` and the arguments after its own. */
  function Command(base: Message, func: Bytes, args: seq<Bytes>): (m: Message)
    requires WellFormed(base)
  {
    var m := With(base, FUNC, Some(USER_PREFIX + func));
    Message(m.params, m.args + args)
  }

  /** What a handler did: the new state, and the reply to send (`None` for Java's null) or what it threw. */
  datatype Handled = Handled(state: State, outcome: Result<Option<Message>, Failure>)

  /** `flush1`: answered by `flush2` with the same `fseq`. */
  function Flush1(req: Message): Message {
    WithAll(Empty, [(FSEQ, GetBytes(req, FSEQ)), (FUNC, Some(FLUSH2))])
  }

  /** `protocol`: the server's protocol level, from `server2` or else `server`, and its `unicode` flag. */
  function Protocol(st: State, req: Message): (h: Handled)
    requires Good(st)
    ensures Good(h.state) && h.state.protocolSent == st.protocolSent
  {
    var version := if GetString(req, SERVER2).Some? then GetString(req, SERVER2) else GetString(req, SERVER);
    if version.Some? && ParseInt(version.value).None? then Handled(st, Err(NumberFormat))
    else
      var st1 := if version.Some? then st.(protocolServer := ParseInt(version.value).value) else st;
      var st2 := if GetBytes(req, UNICODE).Some? then st1.(base := With(st1.base, UNICODE, Some(ONE))) else st1;
      Handled(st2, Ok(None))
  }

  /**
   * `client-SetPassword`: with a `digest` and a known password hash, the session token becomes
   * `XOR(data, InMD5(digest, secretHash))`.
   */
  function SetPassword(st: State, req: Message): (h: Handled)
    requires Good(st)
    ensures Good(h.state) && h.state.protocolSent == st.protocolSent
  {
    match NewToken(GetBytes(req, DIGEST), GetBytes(req, DATA), st.secretHash, st.s1)
    case Err(e) => Handled(st, Err(e))
    case Ok(None) => Handled(st, Ok(None))
    case Ok(Some(x)) => Handled(st.(secretToken := Some(x)), Ok(None))
  }

  /**
   * The session token `client-SetPassword` computes from `digest`, `data` and the password hash:
   * `None` when it leaves the token alone, which is exactly when `digest` or the hash is missing.
   * A new token is 32 hex characters.
   */
  function NewToken(token: Option<Bytes>, ticket: Option<Bytes>, hash: Option<Bytes>, s1: seq<int>): (r: Result<Option<Bytes>, Failure>)
    requires Lucifer.IsTable(s1)
    ensures token.None? || hash.None? <==> r == Ok(None)
    ensures r.Ok? && r.value.Some? ==> |r.value.value| == 32 && AllHex(r.value.value)
  {
    if token.Some? && hash.Some? then
      match Crypto.Outcome(token.value, hash.value, false, true, s1)
      case Err(e) => Err(Cipher(e))
      case Ok(key) =>
        if ticket.None? then Err(NullPointer)
        else match XorHex(ticket.value, key)
          case None => Err(IllegalArgument)
          case Some(x) => Ok(Some(x))
    else Ok(None)
  }

  /**
   * `client-Crypto`: without a session token, an empty `token`; otherwise the MD5 of the server's
   * `token` and the session token, hashed again with the server's address from protocol level 29 on.
   */
  function CryptoReply(st: State, env: Env, req: Message): Result<Message, Failure> {
    var confirm := GetBytes(req, CONFIRM);
    if st.secretToken.None? then Ok(WithAll(Empty, [(FUNC, confirm), (TOKEN, Some([]))]))
    else
      var token := GetBytes(req, TOKEN);
      if token.None? then Err(NullPointer)
      else
        var result := env.md5([token.value, st.secretToken.value]);
        var result2 := if env.daddr.Some? && st.protocolServer >= 29 then env.md5([result, env.daddr.value]) else result;
        Ok(WithAll(Empty, [(FUNC, confirm), (TOKEN, Some(result2)), (DADDR, env.daddr)]))
  }

  /** The secret as `clientPrompt(req, secret)` sends it before hashing: cut to 16 bytes on `truncate`. */
  function Truncated(req: Message, secret: Option<Bytes>): (r: Bytes)
    ensures GetBytes(req, TRUNCATE).Some? ==> |r| <= 16
  {
    var s := secret.GetOr([]);
    if GetBytes(req, TRUNCATE).Some? && |s| > 16 then s[..16] else s
  }

  /**
   * `clientPrompt(req, secret)`: the request sent back with `func = confirm` and the secret in
   * `data`; with a `digest`, the secret is hashed (and that hash kept), then hashed with the digest
   * and, from protocol level 29 on, with the server's address.
   */
  function PromptWith(st: State, env: Env, req: Message, secret: Option<Bytes>): (h: Handled)
    requires Good(st) && WellFormed(req)
    ensures Good(h.state) && h.state.protocolSent == st.protocolSent
  {
    var digest := GetBytes(req, DIGEST);
    var st1 := if digest.Some? then st.(secretHash := Some(env.md5([Truncated(req, secret)]))) else st;
    Handled(st1, Ok(Some(WithAll(req, PromptSettings(env, st, req, secret)))))
  }

  /** The settings `clientPrompt(req, secret)` makes on a copy of the request. */
  function PromptSettings(env: Env, st: State, req: Message, secret: Option<Bytes>): (ps: seq<Setting>)
    ensures Named(ps)
  {
    [(FUNC, GetBytes(req, CONFIRM)), (DATA, Some(PromptData(env, st, req, secret))), (DIGEST, GetBytes(req, DIGEST)), (DADDR, env.daddr)]
  }

  /** The `data` `clientPrompt(req, secret)` sends back. */
  function PromptData(env: Env, st: State, req: Message, secret: Option<Bytes>): Bytes {
    var digest := GetBytes(req, DIGEST);
    var plain := Truncated(req, secret);
    var hash := env.md5([plain]);
    var salted := if digest.Some? && |digest.value| > 0 then env.md5([hash, digest.value]) else hash;
    if digest.None? then plain
    else if env.daddr.Some? && st.protocolServer >= 29 then env.md5([salted, env.daddr.value])
    else salted
  }

  /** `clientPrompt(req)`: asks the user for the password when there is none yet (or it is empty). */
  function Prompt(st: State, env: Env, req: Message): (h: Handled)
    requires Good(st) && WellFormed(req)
    ensures Good(h.state) && h.state.protocolSent == st.protocolSent
  {
    var password :=
      if st.password.None? || |st.password.value| == 0 then env.resolve(GetString(req, DATA), GetBytes(req, NOECHO).Some?)
      else st.password;
    PromptWith(st.(password := password), env, req, password)
  }

  /** The names the `funcs` map of the constructor binds to built-in handlers. */
  predicate IsBuiltin(f: string) {
    f in {"flush1", "protocol", "client-Crypto", "client-Prompt", "client-SetPassword"}
  }

  /** One server message whose `func` is `f`: the built-in handler for `f`, or else the callback. */
  function Dispatch(st: State, env: Env, callback: Message -> Option<Message>, req: Message, f: string): (h: Handled)
    requires Good(st) && WellFormed(req)
    ensures Good(h.state) && h.state.protocolSent == st.protocolSent
  {
    if f == "flush1" then Handled(st, Ok(Some(Flush1(req))))
    else if f == "protocol" then Protocol(st, req)
    else if f == "client-Crypto" then
      match CryptoReply(st, env, req)
      case Err(e) => Handled(st, Err(e))
      case Ok(reply) => Handled(st, Ok(Some(reply)))
    else if f == "client-Prompt" then Prompt(st, env, req)
    else if f == "client-SetPassword" then SetPassword(st, req)
    else Handled(st, Ok(callback(req)))
  }

  /** What a run of the session did: the final state, what it sent, what it left unread, and what it threw. */
  datatype Run = Run(state: State, sent: seq<Message>, rest: seq<Message>, failure: Option<Failure>)

  /** A run that first sends `reply` (nothing for `None`). */
  function Sending(reply: Option<Message>, r: Run): Run {
    Run(r.state, (if reply.Some? then [reply.value] else []) + r.sent, r.rest, r.failure)
  }

  /** Whether a server message is `release`. */
  predicate IsRelease(m: Message) {
    GetString(m, FUNC) == Some("release")
  }

  /** The receive loop of `p4`: answers the server's messages up to and including `release`. */
  function Serve(st: State, env: Env, callback: Message -> Option<Message>, incoming: seq<Message>): (r: Run)
    requires Good(st) && AllWellFormed(incoming)
    ensures Good(r.state)
    decreases |incoming|
  {
    if |incoming| == 0 then Run(st, [], [], Some(EndOfStream))
    else
      var m := incoming[0];
      match GetString(m, FUNC)
      case None => Run(st, [], incoming[1..], Some(StreamCorrupted))
      case Some(f) =>
        if f == "release" then Run(st, [], incoming[1..], None)
        else
          var h := Dispatch(st, env, callback, m, f);
          match h.outcome
          case Err(e) => Run(h.state, [], incoming[1..], Some(e))
          case Ok(reply) => Sending(reply, Serve(h.state, env, callback, incoming[1..]))
  }

  /** One command: its message is sent, then the server's messages are answered. */
  function RunCommand(st: State, env: Env, callback: Message -> Option<Message>, incoming: seq<Message>, func: Bytes, args: seq<Bytes>): (r: Run)
    requires Good(st) && AllWellFormed(incoming)
    ensures Good(r.state)
  {
    Sending(Some(Command(st.base, func, args)), Serve(st, env, callback, incoming))
  }

  /** `p4(message -> null, "discover")`: the callback of the hidden first command, which answers nothing. */
  const Ignore: Message -> Option<Message> := m => None

  /** `p4(callback, func, args)`: the handshake and `discover` on the first call, then the command. */
  function Call(st: State, env: Env, callback: Message -> Option<Message>, incoming: seq<Message>, func: Bytes, args: seq<Bytes>): (r: Run)
    requires Good(st) && AllWellFormed(incoming)
    ensures Good(r.state)
  {
    if st.protocolSent then RunCommand(st, env, callback, incoming, func, args)
    else
      var d := RunCommand(st.(protocolSent := true), env, Ignore, incoming, DISCOVER, []);
      if d.failure.Some? then Sending(Some(Handshake()), d)
      else
        RestWellFormed(st.(protocolSent := true), env, Ignore, incoming);
        var u := RunCommand(d.state, env, callback, d.rest, func, args);
        Run(u.state, [Handshake()] + d.sent + u.sent, u.rest, u.failure)
  }

  /** What the receive loop leaves unread is a suffix of what it was given. */
  lemma {:induction false} RestWellFormed(st: State, env: Env, callback: Message -> Option<Message>, incoming: seq<Message>)
    requires Good(st) && AllWellFormed(incoming)
    ensures var r := Serve(st, env, callback, incoming);
      |r.rest| <= |incoming| && r.rest == incoming[|incoming| - |r.rest|..] && AllWellFormed(r.rest)
    decreases |incoming|
  {
    if |incoming| > 0 && GetString(incoming[0], FUNC).Some? && GetString(incoming[0], FUNC).value != "release" {
      var h := Dispatch(st, env, callback, incoming[0], GetString(incoming[0], FUNC).value);
      if h.outcome.Ok? {
        RestWellFormed(h.state, env, callback, incoming[1..]);
      }
    }
  }

  /** The protocol names the handlers set are different names. */
  lemma NamesDiffer()
    ensures FUNC != FSEQ && FUNC != TOKEN && FUNC != DADDR && FUNC != DATA && FUNC != DIGEST
    ensures TOKEN != DADDR && DATA != DIGEST && DATA != DADDR && DIGEST != DADDR
  {
    assert FUNC[1] != FSEQ[1];
    assert FUNC[0] != TOKEN[0] && FUNC[0] != DADDR[0] && FUNC[0] != DATA[0] && FUNC[0] != DIGEST[0];
    assert TOKEN[0] != DADDR[0] && DATA[1] != DIGEST[1] && DATA[1] == DADDR[1] && DATA[2] != DADDR[2];
    assert DIGEST[1] != DADDR[1];
  }

  /** `flush1` is answered by a message holding only `func = flush2` and the request's `fseq`. */
  lemma FlushEcho(req: Message)
    ensures GetBytes(Flush1(req), FUNC) == Some(FLUSH2)
    ensures GetBytes(Flush1(req), FSEQ) == GetBytes(req, FSEQ)
    ensures forall k :: k != FUNC && k != FSEQ ==> GetBytes(Flush1(req), k) == None
    ensures Flush1(req).args == []
  {
    NamesDiffer();
    var ps := [(FSEQ, GetBytes(req, FSEQ)), (FUNC, Some(FLUSH2))];
    forall k ensures GetBytes(Flush1(req), k) == Latest(ps, k, None) {
      WithAllGet(Empty, ps, k);
    }
    LatestBefore(ps, 1, FSEQ, None);
    assert ps[..1] == [(FSEQ, GetBytes(req, FSEQ))];
    forall k | k != FUNC && k != FSEQ ensures Latest(ps, k, None) == None {
      LatestBefore(ps, 0, k, None);
    }
  }

  /**
   * `protocol` sets the protocol level from `server2`, or from `server` when `server2` is absent,
   * and keeps it when both are absent; a level that is not a number throws before anything changes.
   * A `unicode` parameter adds `unicode = 1` to the base message. Nothing is sent back.
   */
  lemma ProtocolLevel(st: State, req: Message)
    requires Good(st)
    ensures var h := Protocol(st, req);
      var version := if SERVER2 in KeySet(req.params) then GetString(req, SERVER2) else GetString(req, SERVER);
      && (version.None? ==> h.outcome == Ok(None) && h.state.protocolServer == st.protocolServer)
      && (version.Some? && ParseInt(version.value).Some? ==>
          h.outcome == Ok(None) && h.state.protocolServer == ParseInt(version.value).value)
      && (version.Some? && ParseInt(version.value).None? ==> h == Handled(st, Err(NumberFormat)))
      && h.state.(protocolServer := st.protocolServer, base := st.base) == st
      && (h.outcome.Ok? ==>
          GetBytes(h.state.base, UNICODE) == if UNICODE in KeySet(req.params) then Some(ONE) else GetBytes(st.base, UNICODE))
  {
    WithGet(st.base, UNICODE, Some(ONE), UNICODE);
  }

  /**
   * `client-SetPassword` changes nothing but the session token, and that only when the request has
   * a `digest` and the password hash is known. Nothing is sent back.
   */
  lemma SetPasswordOnly(st: State, req: Message)
    requires Good(st)
    ensures var h := SetPassword(st, req);
      && h.state.(secretToken := st.secretToken) == st
      && (h.state.secretToken != st.secretToken ==> DIGEST in KeySet(req.params) && st.secretHash.Some?)
      && (h.outcome.Ok? ==> h.outcome.value == None)
  {
  }

  /**
   * `client-Crypto` never changes the state; without a session token it answers `func = confirm`
   * and an empty `token`, and nothing else.
   */
  lemma CryptoWithoutToken(st: State, env: Env, req: Message)
    requires Good(st) && WellFormed(req)
    ensures Dispatch(st, env, Ignore, req, "client-Crypto").state == st
    ensures st.secretToken.None? ==>
      var r := CryptoReply(st, env, req);
      && r.Ok?
      && GetBytes(r.value, FUNC) == GetBytes(req, CONFIRM)
      && GetBytes(r.value, TOKEN) == Some([])
      && (forall k :: k != FUNC && k != TOKEN ==> GetBytes(r.value, k) == None)
  {
    if st.secretToken.None? {
      NamesDiffer();
      var ps := [(FUNC, GetBytes(req, CONFIRM)), (TOKEN, Some([]))];
      forall k ensures GetBytes(WithAll(Empty, ps), k) == Latest(ps, k, None) {
        WithAllGet(Empty, ps, k);
      }
      LatestBefore(ps, 1, FUNC, None);
      assert ps[..1] == [(FUNC, GetBytes(req, CONFIRM))];
      forall k | k != FUNC && k != TOKEN ensures Latest(ps, k, None) == None {
        LatestBefore(ps, 0, k, None);
      }
    }
  }

  /** `Arrays.copyOf(result, 0x10)` on `truncate`: a prefix of the secret, of at most 16 bytes. */
  lemma TruncatedPrefix(req: Message, secret: Option<Bytes>)
    ensures var s := secret.GetOr([]);
      var r := Truncated(req, secret);
      && r <= s
      && |r| == if GetBytes(req, TRUNCATE).Some? && |s| > 16 then 16 else |s|
  {
  }

  /**
   * `clientPrompt(req, secret)` answers with the request itself, `func` replaced by `confirm` when
   * there is one, and `data` the secret: as is without a `digest`, and otherwise hashed, the hash
   * of the plain secret being kept as the password hash. Nothing else in the state changes.
   */
  lemma PromptReply(st: State, env: Env, req: Message, secret: Option<Bytes>)
    requires Good(st) && WellFormed(req)
    ensures var h := PromptWith(st, env, req, secret);
      var digest := GetBytes(req, DIGEST);
      && h.outcome.Ok? && h.outcome.value.Some?
      && h.state.(secretHash := st.secretHash) == st
      && h.state.secretHash == (if digest.Some? then Some(env.md5([Truncated(req, secret)])) else st.secretHash)
      && GetBytes(h.outcome.value.value, FUNC) ==
        (if GetBytes(req, CONFIRM).Some? then GetBytes(req, CONFIRM) else GetBytes(req, FUNC))
      && (digest.None? ==> GetBytes(h.outcome.value.value, DATA) == Some(Truncated(req, secret)))
      && GetBytes(h.outcome.value.value, DIGEST) == digest
      && (forall k :: k != FUNC && k != DATA && k != DIGEST && k != DADDR ==>
          GetBytes(h.outcome.value.value, k) == GetBytes(req, k))
  {
    NamesDiffer();
    var ps := PromptSettings(env, st, req, secret);
    forall k ensures GetBytes(WithAll(req, ps), k) == Latest(ps, k, GetBytes(req, k)) {
      WithAllGet(req, ps, k);
    }
    forall k ensures Latest(ps, k, GetBytes(req, k)) == Latest([ps[0], ps[1], ps[2], ps[3]], k, GetBytes(req, k)) {
      assert ps == [ps[0], ps[1], ps[2], ps[3]];
    }
    forall k {
      Latest4(ps[0], ps[1], ps[2], ps[3], k, GetBytes(req, k));
    }
  }

  /**
   * `clientPrompt(req)` asks the user (with the request's `data` as prompt, and `noecho` when the
   * request has it) exactly when the session has no password or an empty one, and keeps the answer.
   */
  lemma PromptAsks(st: State, env: Env, req: Message)
    requires Good(st) && WellFormed(req)
    ensures Prompt(st, env, req).state.password ==
      if st.password.None? || st.password.value == [] then env.resolve(GetString(req, DATA), NOECHO in KeySet(req.params))
      else st.password
  {
  }

  /** A command carries the base message's parameters, `func = user-<func>`, and its arguments after the base's. */
  lemma CommandShape(base: Message, func: Bytes, args: seq<Bytes>)
    requires WellFormed(base)
    ensures GetBytes(Command(base, func, args), FUNC) == Some(USER_PREFIX + func)
    ensures forall k :: k != FUNC ==> GetBytes(Command(base, func, args), k) == GetBytes(base, k)
    ensures Command(base, func, args).args == base.args + args
  {
    forall k ensures GetBytes(Command(base, func, args), k) == if k == FUNC then Some(USER_PREFIX + func) else GetBytes(base, k) {
      WithGet(base, FUNC, Some(USER_PREFIX + func), k);
    }
  }

  /** A built-in name is answered by its handler whatever the callback; any other name by the callback alone. */
  lemma BuiltinFirst(st: State, env: Env, a: Message -> Option<Message>, b: Message -> Option<Message>, req: Message, f: string)
    requires Good(st) && WellFormed(req)
    ensures IsBuiltin(f) ==> Dispatch(st, env, a, req, f) == Dispatch(st, env, b, req, f)
    ensures !IsBuiltin(f) ==> Dispatch(st, env, a, req, f) == Handled(st, Ok(a(req)))
  {
  }

  /** A server message without `func` ends the call with `StreamCorruptedException`, with nothing sent. */
  lemma MissingFunc(st: State, env: Env, callback: Message -> Option<Message>, incoming: seq<Message>)
    requires Good(st) && AllWellFormed(incoming)
    requires |incoming| > 0 && FUNC !in KeySet(incoming[0].params)
    ensures Serve(st, env, callback, incoming) == Run(st, [], incoming[1..], Some(StreamCorrupted))
  {
  }

  /** `release` ends the receive loop at once, with nothing sent and nothing changed. */
  lemma ReleaseFirst(st: State, env: Env, callback: Message -> Option<Message>, incoming: seq<Message>)
    requires Good(st) && AllWellFormed(incoming)
    requires |incoming| > 0 && IsRelease(incoming[0])
    ensures Serve(st, env, callback, incoming) == Run(st, [], incoming[1..], None)
  {
  }

  /** A callback that answers `null` sends nothing: the loop goes on with the next message. */
  lemma NullSendsNothing(st: State, env: Env, callback: Message -> Option<Message>, incoming: seq<Message>)
    requires Good(st) && AllWellFormed(incoming) && |incoming| > 0
    requires GetString(incoming[0], FUNC).Some?
    requires var f := GetString(incoming[0], FUNC).value; f != "release" && !IsBuiltin(f)
    requires callback(incoming[0]) == None
    ensures Serve(st, env, callback, incoming) == Serve(st, env, callback, incoming[1..])
  {
  }

  /**
   * The receive loop ends normally only on `release`: it reads up to the first `release` and
   * leaves everything after it unread.
   */
  lemma {:induction false} StopsAtRelease(st: State, env: Env, callback: Message -> Option<Message>, incoming: seq<Message>)
    requires Good(st) && AllWellFormed(incoming)
    requires Serve(st, env, callback, incoming).failure.None?
    ensures exists k :: FirstRelease(incoming, k) && Serve(st, env, callback, incoming).rest == incoming[k + 1..]
    decreases |incoming|
  {
    var f := GetString(incoming[0], FUNC).value;
    if f == "release" {
      assert FirstRelease(incoming, 0);
    } else {
      var h := Dispatch(st, env, callback, incoming[0], f);
      StopsAtRelease(h.state, env, callback, incoming[1..]);
      var k :| FirstRelease(incoming[1..], k) && Serve(h.state, env, callback, incoming[1..]).rest == incoming[1..][k + 1..];
      assert incoming[1..][k + 1..] == incoming[k + 2..];
      assert FirstRelease(incoming, k + 1) by {
        forall j | 0 < j < k + 1 ensures !IsRelease(incoming[j]) {
          assert incoming[j] == incoming[1..][j - 1];
        }
      }
    }
  }

  /** `k` is the position of the first `release` in `ms`. */
  predicate FirstRelease(ms: seq<Message>, k: int) {
    0 <= k < |ms| && IsRelease(ms[k]) && forall j :: 0 <= j < k ==> !IsRelease(ms[j])
  }

  /** Built-in handlers never touch `protocolSent`. */
  lemma {:induction false} ServeKeepsSent(st: State, env: Env, callback: Message -> Option<Message>, incoming: seq<Message>)
    requires Good(st) && AllWellFormed(incoming)
    ensures Serve(st, env, callback, incoming).state.protocolSent == st.protocolSent
    decreases |incoming|
  {
    if |incoming| > 0 && GetString(incoming[0], FUNC).Some? && GetString(incoming[0], FUNC).value != "release" {
      var h := Dispatch(st, env, callback, incoming[0], GetString(incoming[0], FUNC).value);
      if h.outcome.Ok? {
        ServeKeepsSent(h.state, env, callback, incoming[1..]);
      }
    }
  }

  /**
   * The handshake is sent once per session: the first call sends it, then the `discover` command
   * built from the same base message, and leaves `protocolSent` set, so that a later call starts
   * with its own command.
   */
  lemma HandshakeOnce(st: State, env: Env, callback: Message -> Option<Message>, incoming: seq<Message>, func: Bytes, args: seq<Bytes>)
    requires Good(st) && AllWellFormed(incoming)
    ensures var r := Call(st, env, callback, incoming, func, args);
      && |r.sent| >= 1
      && r.sent[0] == (if st.protocolSent then Command(st.base, func, args) else Handshake())
      && (!st.protocolSent ==> |r.sent| >= 2 && r.sent[1] == Command(st.base, DISCOVER, []))
      && r.state.protocolSent
  {
    var st1 := st.(protocolSent := true);
    ServeKeepsSent(st1, env, Ignore, incoming);
    ServeKeepsSent(st, env, callback, incoming);
    if !st.protocolSent {
      var d := RunCommand(st1, env, Ignore, incoming, DISCOVER, []);
      if d.failure.None? {
        RestWellFormed(st1, env, Ignore, incoming);
        ServeKeepsSent(d.state, env, callback, d.rest);
      }
    }
  }

  /** The base message of a session names its user. */
  lemma BaseMessageUser(username: Bytes, tag: bool)
    ensures GetBytes(BaseMessage(username, tag), USER) == Some(username)
  {
    assert USER[0] != CLIENT_CASE[0] && USER[0] != CHARSET[0];
    var ps := BaseSettings(username, tag);
    var n := |ps| - 2;
    WithAllGet(Empty, ps, USER);
    LatestBefore(ps, n, USER, None);
    assert ps[..n][n - 1] == (USER, Some(username));
  }

  /** The base message has `tag` exactly when tagged output was asked for. */
  lemma BaseMessageTag(username: Bytes, tag: bool)
    ensures GetBytes(BaseMessage(username, tag), TAG) == if tag then Some([]) else None
  {
    assert TAG[0] != CLIENT_CASE[0] && TAG[0] != CHARSET[0] && TAG[0] != USER[0] && TAG[0] != OS[0];
    assert TAG[0] != CWD[0] && TAG[0] != CLIENT[0] && TAG[0] != ENABLE_STREAMS[0] && TAG[0] != AUTO_LOGIN[0];
    var ps := BaseSettings(username, tag);
    WithAllGet(Empty, ps, TAG);
    if tag {
      LatestBefore(ps, 2, TAG, None);
      assert ps[..2] == [(AUTO_LOGIN, Some([])), (TAG, Some([]))];
    } else {
      LatestBefore(ps, 0, TAG, None);
    }
  }

  /** The base message never has a `func`: each command sets its own. */
  lemma BaseMessageNoFunc(username: Bytes, tag: bool)
    ensures GetBytes(BaseMessage(username, tag), FUNC) == None
  {
    assert FUNC[0] != CLIENT_CASE[0] && FUNC[0] != CHARSET[0] && FUNC[0] != USER[0] && FUNC[0] != OS[0];
    assert FUNC[0] != CWD[0] && FUNC[0] != CLIENT[0] && FUNC[0] != ENABLE_STREAMS[0] && FUNC[0] != AUTO_LOGIN[0];
    assert FUNC[0] != TAG[0];
    var ps := BaseSettings(username, tag);
    WithAllGet(Empty, ps, FUNC);
    LatestBefore(ps, 0, FUNC, None);
  }


  /**
   * The handshake asks for client level 80 and 512 KiB socket buffers, as the `protocol` function,
   * and sets nothing else.
   */
  lemma HandshakeShape(k: Bytes)
    ensures GetBytes(Handshake(), k) ==
      if k == FUNC then Some(PROTOCOL)
      else if k == SNDBUF || k == RCVBUF then Some(BUFFER_SIZE)
      else if k == CLIENT then Some(CLIENT_LEVEL)
      else None
    ensures Handshake().args == []
  {
    WithAllGet(Empty, HandshakeSettings(), k);
    Latest4((CLIENT, Some(CLIENT_LEVEL)), (SNDBUF, Some(BUFFER_SIZE)), (RCVBUF, Some(BUFFER_SIZE)), (FUNC, Some(PROTOCOL)), k, None);
  }

  /** A run whose first messages sent were `prefix`. */
  function After(prefix: seq<Message>, r: Run): Run {
    Run(r.state, prefix + r.sent, r.rest, r.failure)
  }

  /** Sending a reply first moves it to the end of what was already sent. */
  lemma AfterSending(prefix: seq<Message>, reply: Option<Message>, r: Run)
    ensures After(prefix, Sending(reply, r)) == After(prefix + (if reply.Some? then [reply.value] else []), r)
  {
    assert prefix + ((if reply.Some? then [reply.value] else []) + r.sent)
      == (prefix + (if reply.Some? then [reply.value] else [])) + r.sent;
  }

  /** What was sent since `s0`, once more was sent after `s1`: what was sent between them, then the rest. */
  lemma SentSince(s0: seq<Message>, s1: seq<Message>, s: seq<Message>)
    requires |s0| <= |s1| <= |s| && s1[..|s0|] == s0 && s[..|s1|] == s1
    ensures s[..|s0|] == s0
    ensures s[|s0|..] == s1[|s0|..] + s[|s1|..]
  {
    assert s[..|s0|] == s1[..|s0|];
    assert s[|s0|..] == s[|s0|..|s1|] + s[|s1|..];
  }

  /** Two prefixes one after the other. */
  lemma AfterAfter(p: seq<Message>, q: seq<Message>, r: Run)
    ensures After(p, After(q, r)) == After(p + q, r)
  {
    assert p + (q + r.sent) == (p + q) + r.sent;
  }

  /** One answered message of the receive loop: its reply, then the loop on the rest. */
  lemma ServeUnfold(st: State, env: Env, callback: Message -> Option<Message>, incoming: seq<Message>, h: Handled)
    requires Good(st) && AllWellFormed(incoming) && |incoming| > 0
    requires GetString(incoming[0], FUNC).Some? && GetString(incoming[0], FUNC).value != "release"
    requires h == Dispatch(st, env, callback, incoming[0], GetString(incoming[0], FUNC).value)
    ensures AllWellFormed(incoming[1..]) && Good(h.state)
    ensures h.outcome.Ok? ==> Serve(st, env, callback, incoming) == Sending(h.outcome.value, Serve(h.state, env, callback, incoming[1..]))
    ensures h.outcome.Err? ==> Serve(st, env, callback, incoming) == Run(h.state, [], incoming[1..], Some(h.outcome.error))
  {
  }

  /** `Client`: a session over one socket. */
  class Client {
    const baseMessage: Builder
    const env: Env
    const mangle: Crypto.Mangle        // the `Mangle` class, whose static `s1` table `InMD5` uses
    var protocolSent: bool
    var protocolServer: int
    var password: Option<Bytes>
    var secretToken: Option<Bytes>
    var secretHash: Option<Bytes>
    var incoming: seq<Message>         // the messages the server has yet to deliver
    var sent: seq<Message>             // the messages written to the socket so far

    ghost predicate Valid()
      reads this, baseMessage, mangle, mangle.s1
    {
      baseMessage.Valid() && mangle.Valid() && AllWellFormed(incoming)
    }

    /** The fields as a value. */
    function Current(): (st: State)
      requires Valid()
      reads this, baseMessage, mangle, mangle.s1
      ensures Good(st)
    {
      Crypto.ReachableIsTable(mangle.s1[..]);
      State(protocolSent, protocolServer, password, secretToken, secretHash, baseMessage.Build(), mangle.s1[..])
    }

    /** `new Client(socket, username, password, tag, inputResolver)`. */
    constructor (username: Bytes, password: Option<Bytes>, tag: bool, env: Env, mangle: Crypto.Mangle, incoming: seq<Message>)
      requires mangle.Valid() && AllWellFormed(incoming)
      ensures Valid() && fresh(baseMessage)
      ensures Current() == State(false, -1, password, None, None, BaseMessage(username, tag), mangle.s1[..])
      ensures this.incoming == incoming && sent == []
    {
      var base := CreateBaseMessage(username, tag);
      baseMessage := base;
      this.env := env;
      this.mangle := mangle;
      this.password := password;
      protocolSent := false;
      protocolServer := -1;
      secretToken := None;
      secretHash := None;
      this.incoming := incoming;
      sent := [];
    }

    /** `p4(callback, func, args)`: returns what the call threw, if anything. */
    method P4(callback: Message -> Option<Message>, func: Bytes, args: seq<Bytes>) returns (failure: Option<Failure>)
      requires Valid()
      modifies this, baseMessage, mangle.s1
      ensures Valid()
      ensures |sent| >= |old(sent)| && sent[..|old(sent)|] == old(sent)
      ensures Run(Current(), sent[|old(sent)|..], incoming, failure) == Call(old(Current()), env, callback, old(incoming), func, args)
      decreases if protocolSent then 0 else 3
    {
      if protocolSent {
        failure := SendCommand(callback, func, args);
      } else {
        failure := FirstCall(callback, func, args);
      }
    }

    /** The first `p4` of a session: the handshake and `discover`, then the command. */
    method FirstCall(callback: Message -> Option<Message>, func: Bytes, args: seq<Bytes>) returns (failure: Option<Failure>)
      requires Valid() && !protocolSent
      modifies this, baseMessage, mangle.s1
      ensures Valid()
      ensures |sent| >= |old(sent)| && sent[..|old(sent)|] == old(sent)
      ensures Run(Current(), sent[|old(sent)|..], incoming, failure) == Call(old(Current()), env, callback, old(incoming), func, args)
      decreases 2
    {
      ghost var st1 := Current().(protocolSent := true);
      ghost var in0 := incoming;
      ghost var sent0 := sent;
      var d := OpenSession();
      ghost var discover := RunCommand(st1, env, Ignore, in0, DISCOVER, []);
      if d.Some? {
        return d;
      }
      ghost var sent2 := sent;
      assert sent2[|sent0|..] == [Handshake()] + discover.sent;
      failure := SendCommand(callback, func, args);
      SentSince(sent0, sent2, sent);
    }

    /**
     * The first part of the first `p4`: the `protocol` handshake is sent, `protocolSent` set, and
     * the `discover` command run with a callback that answers nothing.
     */
    method OpenSession() returns (failure: Option<Failure>)
      requires Valid() && !protocolSent
      modifies this, baseMessage, mangle.s1
      ensures Valid()
      ensures |sent| >= |old(sent)| && sent[..|old(sent)|] == old(sent)
      ensures Run(Current(), sent[|old(sent)|..], incoming, failure)
        == Sending(Some(Handshake()), RunCommand(old(Current()).(protocolSent := true), env, Ignore, old(incoming), DISCOVER, []))
      decreases 1
    {
      ghost var sent0 := sent;
      var handshake := HandshakeMessage();
      sent := sent + [handshake];
      protocolSent := true;
      ghost var sent1 := sent;
      assert sent1[..|sent0|] == sent0 && sent1[|sent0|..] == [handshake];
      failure := P4(Ignore, DISCOVER, []);
      SentSince(sent0, sent1, sent);
    }

    /** The part of `p4` after the handshake: the command is sent, then the server's messages are answered. */
    method SendCommand(callback: Message -> Option<Message>, func: Bytes, args: seq<Bytes>) returns (failure: Option<Failure>)
      requires Valid()
      modifies this, baseMessage, mangle.s1
      ensures Valid()
      ensures |sent| >= |old(sent)| && sent[..|old(sent)|] == old(sent)
      ensures Run(Current(), sent[|old(sent)|..], incoming, failure) == RunCommand(old(Current()), env, callback, old(incoming), func, args)
    {
      ghost var st0 := Current();
      ghost var in0 := incoming;
      ghost var sent0 := sent;
      var command := CommandMessage(baseMessage, func, args);
      sent := sent + [command];
      assert Current() == st0;
      ghost var sent1 := sent;
      failure := Receive(callback);
      ghost var r := Serve(st0, env, callback, in0);
      assert Run(Current(), sent[|sent1|..], incoming, failure) == r;
      assert sent1[..|sent0|] == sent0 && sent1[|sent0|..] == [command];
      SentSince(sent0, sent1, sent);
    }

    method Receive(callback: Message -> Option<Message>) returns (failure: Option<Failure>)
      requires Valid()
      modifies this, baseMessage, mangle.s1
      ensures Valid()
      ensures |sent| >= |old(sent)| && sent[..|old(sent)|] == old(sent)
      ensures Run(Current(), sent[|old(sent)|..], incoming, failure) == Serve(old(Current()), env, callback, old(incoming))
    {
      ghost var sent0 := sent;
      ghost var total := Serve(Current(), env, callback, incoming);
      while true
        invariant Valid()
        invariant |sent| >= |sent0| && sent[..|sent0|] == sent0
        invariant After(sent[|sent0|..], Serve(Current(), env, callback, incoming)) == total
        decreases |incoming|
      {
        if |incoming| == 0 {
          return Some(EndOfStream);
        }
        ghost var sent1 := sent;
        ghost var prefix := sent[|sent0|..];
        var stop;
        stop, failure := ReceiveOne(callback);
        ghost var q := sent[|sent1|..];
        SentSince(sent0, sent1, sent);
        if stop {
          AfterAfter(prefix, q, Run(Current(), [], incoming, failure));
          return;
        }
        AfterAfter(prefix, q, Serve(Current(), env, callback, incoming));
      }
    }

    /**
     * One pass of the `while (true)` loop of `p4` on a non-empty stream: `stop` when the loop ends
     * there, with what it threw, otherwise the reply is sent and the loop goes on with the rest.
     */
    method ReceiveOne(callback: Message -> Option<Message>) returns (stop: bool, failure: Option<Failure>)
      requires Valid() && |incoming| > 0
      modifies this, baseMessage, mangle.s1
      ensures Valid()
      ensures |sent| >= |old(sent)| && sent[..|old(sent)|] == old(sent)
      ensures stop ==> After(sent[|old(sent)|..], Run(Current(), [], incoming, failure)) == Serve(old(Current()), env, callback, old(incoming))
      ensures !stop ==> |incoming| < |old(incoming)|
      ensures !stop ==> After(sent[|old(sent)|..], Serve(Current(), env, callback, incoming)) == Serve(old(Current()), env, callback, old(incoming))
    {
      ghost var st := Current();
      ghost var before := incoming;
      var message := incoming[0];
      incoming := incoming[1..];
      var clientFunc := GetString(message, FUNC);
      if clientFunc.None? {
        return true, Some(StreamCorrupted);
      }
      if clientFunc.value == "release" {
        return true, None;
      }
      var response := Exec(callback, message, clientFunc.value);
      ghost var st1 := Current();
      ServeUnfold(st, env, callback, before, Handled(st1, response));
      if response.Err? {
        return true, Some(response.error);
      }
      ghost var rest := Serve(st1, env, callback, incoming);
      AfterSending([], response.value, rest);
      if response.value.Some? {
        sent := sent + [response.value.value];
        assert sent[|old(sent)|..] == [response.value.value];
      }
      stop, failure := false, None;
    }

    /** `funcs.get(clientFunc)`, or the callback when there is no built-in handler. */
    method Exec(callback: Message -> Option<Message>, message: Message, f: string) returns (response: Result<Option<Message>, Failure>)
      requires Valid() && WellFormed(message)
      modifies this, baseMessage, mangle.s1
      ensures Valid() && sent == old(sent) && incoming == old(incoming)
      ensures Handled(Current(), response) == Dispatch(old(Current()), env, callback, message, f)
    {
      if f == "flush1" {
        var reply := HandleFlush1(message);
        response := Ok(Some(reply));
      } else if f == "protocol" {
        response := ClientProtocol(message);
      } else if f == "client-Crypto" {
        var reply := ClientCrypto(message);
        response := if reply.Ok? then Ok(Some(reply.value)) else Err(reply.error);
      } else if f == "client-Prompt" {
        var reply := ClientPrompt(message);
        response := Ok(Some(reply));
      } else if f == "client-SetPassword" {
        response := ClientSetPassword(message);
      } else {
        response := Ok(callback(message));
      }
    }

    /** `flush1(req)`. */
    method HandleFlush1(req: Message) returns (reply: Message)
      ensures reply == Flush1(req)
    {
      var b := new Builder();
      ghost var done := Apply(b, Empty, [], (FSEQ, GetBytes(req, FSEQ)));
      done := Apply(b, Empty, done, (FUNC, Some(FLUSH2)));
      assert done == [(FSEQ, GetBytes(req, FSEQ)), (FUNC, Some(FLUSH2))];
      reply := b.Build();
    }

    /** `clientProtocol(req)`. */
    method ClientProtocol(req: Message) returns (response: Result<Option<Message>, Failure>)
      requires Valid()
      modifies this, baseMessage
      ensures Valid() && sent == old(sent) && incoming == old(incoming)
      ensures Handled(Current(), response) == Protocol(old(Current()), req)
    {
      var version := GetString(req, SERVER2);
      if version.None? {
        version := GetString(req, SERVER);
      }
      if version.Some? {
        var level := ParseInt(version.value);
        if level.None? {
          return Err(NumberFormat);
        }
        protocolServer := level.value;
      }
      if GetBytes(req, UNICODE).Some? {
        baseMessage.Param(UNICODE, Some(ONE));
      }
      return Ok(None);
    }

    /** `clientSetPassword(req)`. */
    method ClientSetPassword(req: Message) returns (response: Result<Option<Message>, Failure>)
      requires Valid()
      modifies this, mangle.s1
      ensures Valid() && sent == old(sent) && incoming == old(incoming)
      ensures Handled(Current(), response) == SetPassword(old(Current()), req)
    {
      var token := GetBytes(req, DIGEST);
      var ticket := GetBytes(req, DATA);
      if token.Some? && secretHash.Some? {
        var key := mangle.InMD5(token.value, secretHash.value);
        if key.Err? {
          return Err(Cipher(key.error));
        }
        if ticket.None? {
          return Err(NullPointer);
        }
        var x := XOR(ticket.value, key.value);
        if x.None? {
          return Err(IllegalArgument);
        }
        secretToken := x;
      }
      return Ok(None);
    }

    /** `clientCrypto(req)`. */
    method ClientCrypto(req: Message) returns (reply: Result<Message, Failure>)
      requires Valid()
      ensures reply == CryptoReply(Current(), env, req)
    {
      var confirm := GetBytes(req, CONFIRM);
      if secretToken.None? {
        var b := new Builder();
        ghost var done := Apply(b, Empty, [], (FUNC, confirm));
        done := Apply(b, Empty, done, (TOKEN, Some([])));
        assert done == [(FUNC, confirm), (TOKEN, Some([]))];
        return Ok(b.Build());
      }
      var token := GetBytes(req, TOKEN);
      var daddr := env.daddr;
      if token.None? {
        return Err(NullPointer);
      }
      var result := env.md5([token.value, secretToken.value]);
      if daddr.Some? && protocolServer >= 29 {
        result := env.md5([result, daddr.value]);
      }
      var b := new Builder();
      ghost var done := Apply(b, Empty, [], (FUNC, confirm));
      done := Apply(b, Empty, done, (TOKEN, Some(result)));
      done := Apply(b, Empty, done, (DADDR, daddr));
      assert done == [(FUNC, confirm), (TOKEN, Some(result)), (DADDR, daddr)];
      return Ok(b.Build());
    }

    /** `clientPrompt(req)`. */
    method ClientPrompt(req: Message) returns (reply: Message)
      requires Valid() && WellFormed(req)
      modifies this
      ensures Valid() && sent == old(sent) && incoming == old(incoming)
      ensures Handled(Current(), Ok(Some(reply))) == Prompt(old(Current()), env, req)
    {
      if password.None? || |password.value| <= 0 {
        password := env.resolve(GetString(req, DATA), GetBytes(req, NOECHO).Some?);
      }
      reply := ClientPromptWith(req, password);
    }

    /** `clientPrompt(req, secret)`. */
    method ClientPromptWith(req: Message, secret: Option<Bytes>) returns (reply: Message)
      requires Valid() && WellFormed(req)
      modifies this
      ensures Valid() && sent == old(sent) && incoming == old(incoming)
      ensures Handled(Current(), Ok(Some(reply))) == PromptWith(old(Current()), env, req, secret)
    {
      var truncate := GetBytes(req, TRUNCATE);
      var digest := GetBytes(req, DIGEST);
      var confirm := GetBytes(req, CONFIRM);
      var result := if secret.None? then [] else secret.value;
      if truncate.Some? && |result| > 0x10 {
        result := result[..0x10];
      }
      var daddr := env.daddr;
      if digest.Some? {
        result := env.md5([result]);
        secretHash := Some(result);
        if |digest.value| > 0 {
          result := env.md5([result, digest.value]);
        }
        if daddr.Some? && protocolServer >= 29 {
          result := env.md5([result, daddr.value]);
        }
      }
      reply := PromptMessage(req, confirm, result, digest, daddr);
    }
  }

  /** The reply of `clientPrompt(req, secret)`: a builder seeded with the request, given `func`, `data`, `digest` and `daddr`. */
  method PromptMessage(req: Message, confirm: Option<Bytes>, data: Bytes, digest: Option<Bytes>, daddr: Option<Bytes>) returns (reply: Message)
    requires WellFormed(req)
    ensures Named([(FUNC, confirm), (DATA, Some(data)), (DIGEST, digest), (DADDR, daddr)])
    ensures reply == WithAll(req, [(FUNC, confirm), (DATA, Some(data)), (DIGEST, digest), (DADDR, daddr)])
  {
    var b := ToBuilder(req);
    ghost var done := Apply(b, req, [], (FUNC, confirm));
    done := Apply(b, req, done, (DATA, Some(data)));
    done := Apply(b, req, done, (DIGEST, digest));
    done := Apply(b, req, done, (DADDR, daddr));
    Snoc4([], (FUNC, confirm), (DATA, Some(data)), (DIGEST, digest), (DADDR, daddr));
    assert done == [(FUNC, confirm), (DATA, Some(data)), (DIGEST, digest), (DADDR, daddr)];
    reply := b.Build();
  }

  /**
   * `b.param(name, value)` for the setting `p`, on a builder that holds `m` after the settings
   * `done`; returns the settings made so far.
   */
  method Apply(b: Builder, ghost m: Message, ghost done: seq<Setting>, p: Setting) returns (ghost now: seq<Setting>)
    requires b.Valid() && WellFormed(m) && Named(done) && p.0 != [] && b.Build() == WithAll(m, done)
    modifies b
    ensures now == done + [p] && Named(now)
    ensures b.Valid() && b.Build() == WithAll(m, now)
  {
    b.Param(p.0, p.1);
    WithAllSnoc(m, done, p);
    now := done + [p];
  }

  /** The handshake of the first `p4` call, as it is built. */
  method HandshakeMessage() returns (m: Message)
    ensures m == Handshake()
  {
    var b := new Builder();
    ghost var done := Apply(b, Empty, [], (CLIENT, Some(CLIENT_LEVEL)));
    done := Apply(b, Empty, done, (SNDBUF, Some(BUFFER_SIZE)));
    done := Apply(b, Empty, done, (RCVBUF, Some(BUFFER_SIZE)));
    done := Apply(b, Empty, done, (FUNC, Some(PROTOCOL)));
    Snoc4([], (CLIENT, Some(CLIENT_LEVEL)), (SNDBUF, Some(BUFFER_SIZE)), (RCVBUF, Some(BUFFER_SIZE)), (FUNC, Some(PROTOCOL)));
    assert done == HandshakeSettings();
    m := b.Build();
    assert m == WithAll(Empty, done);
  }

  /** The command of a `p4` call: a clone of the base message, with `func = user-<func>` and the arguments. */
  method CommandMessage(base: Builder, func: Bytes, args: seq<Bytes>) returns (m: Message)
    requires base.Valid()
    ensures m == Command(base.Build(), func, args)
  {
    var builder := base.Clone();
    builder.Param(FUNC, Some(USER_PREFIX + func));
    ghost var withFunc := builder.Build();
    for i := 0 to |args|
      invariant builder.Valid() && fresh(builder)
      invariant builder.params == withFunc.params && builder.args == withFunc.args + args[..i]
    {
      builder.Arg(Some(args[i]));
    }
    assert args[..|args|] == args;
    m := builder.Build();
  }

  /** `createBaseMessage(username, tag)`. */
  method CreateBaseMessage(username: Bytes, tag: bool) returns (result: Builder)
    ensures fresh(result) && result.Valid() && result.Build() == BaseMessage(username, tag)
  {
    result := new Builder();
    ghost var done := Apply(result, Empty, [], (AUTO_LOGIN, Some([])));
    if tag {
      done := Apply(result, Empty, done, (TAG, Some([])));
    }
    assert done == [(AUTO_LOGIN, Some([]))] + (if tag then [(TAG, Some([]))] else []);
    done := ApplyBaseTail(result, done, username);
    assert done == BaseSettings(username, tag);
  }

  /** The settings of `createBaseMessage` after `autoLogin` and `tag`, made on `b` one at a time. */
  method ApplyBaseTail(b: Builder, ghost done: seq<Setting>, username: Bytes) returns (ghost now: seq<Setting>)
    requires b.Valid() && Named(done) && b.Build() == WithAll(Empty, done)
    modifies b
    ensures Named(now) && b.Valid() && b.Build() == WithAll(Empty, now)
    ensures now == done + [(ENABLE_STREAMS, Some(EXPAND_AND_MAPS)), (CLIENT, Some([])), (CWD, Some([])), (OS, Some(UNIX)),
      (USER, Some(username)), (CHARSET, Some(ONE)), (CLIENT_CASE, Some(ONE))]
  {
    now := Apply(b, Empty, done, (ENABLE_STREAMS, Some(EXPAND_AND_MAPS)));
    now := Apply(b, Empty, now, (CLIENT, Some([])));
    now := Apply(b, Empty, now, (CWD, Some([])));
    now := Apply(b, Empty, now, (OS, Some(UNIX)));
    now := Apply(b, Empty, now, (USER, Some(username)));
    now := Apply(b, Empty, now, (CHARSET, Some(ONE)));
    now := Apply(b, Empty, now, (CLIENT_CASE, Some(ONE)));
    Snoc7(done, (ENABLE_STREAMS, Some(EXPAND_AND_MAPS)), (CLIENT, Some([])), (CWD, Some([])), (OS, Some(UNIX)),
      (USER, Some(username)), (CHARSET, Some(ONE)), (CLIENT_CASE, Some(ONE)));
  }

}
