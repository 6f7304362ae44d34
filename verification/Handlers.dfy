/** What the pattern handlers do to the two endpoints they are given, as
    functions on values. The handlers themselves are in Proxies. */
module Handlers {
  import opened Telnet
  import opened Matcher
  import opened Patterns
  import opened Rewriter
  import Environ

  /** Relayed bytes come from the other side; injected ones are the proxy's own. */
  datatype Origin = Relayed | Injected

  /** A byte handed to the socket layer; packed ones go through the compressor. */
  datatype Frame = Frame(b: byte, origin: Origin, packed: bool)

  function Frames(data: Bytes, origin: Origin, packed: bool): (fs: seq<Frame>)
    ensures |fs| == |data|
    ensures forall i :: 0 <= i < |data| ==> fs[i] == Frame(data[i], origin, packed)
  {
    seq(|data|, i requires 0 <= i < |data| => Frame(data[i], origin, packed))
  }

  /** One endpoint: its negotiation state, whether its output is compressed, how often
      its input has been announced as compressed, the queued output and everything sent
      so far. */
  datatype Peer = Peer(
    matching: bool,
    mnes: Mnes,
    nego: Nego,
    deflating: bool,
    starts: nat,
    output: Bytes,
    sent: seq<Frame>)

  /** The endpoint a handler's match came from, and the other one. */
  datatype Pair = Pair(from: Peer, to: Peer)

  datatype Config = Config(
    proxyName: Bytes,
    address: Bytes,
    reportVars: seq<Bytes>,
    immediateIp: bool,
    fallback: bool,
    fallbackMs: int,
    clientMode: Mode,
    gameMode: Mode)

  // ---- Output ----

  function Write(p: Peer, data: Bytes, origin: Origin): Peer {
    p.(sent := p.sent + Frames(data, origin, p.deflating))
  }

  /** Appending to the output buffer what snprintf prints into the space left:
      text that does not fit is cut and its last byte in the buffer is a NUL. */
  function Format(p: Peer, text: Bytes): Peer {
    if |p.output| + |text| < EP_BUFSIZE then p.(output := p.output + text)
    else if |p.output| >= EP_BUFSIZE then p
    else p.(output := p.output + text[..EP_BUFSIZE - |p.output| - 1] + [0])
  }

  /** Appending to the output buffer by memcpy. */
  function Put(p: Peer, text: Bytes): Peer {
    p.(output := p.output + text)
  }

  /** Writing out the output buffer. A compressed write reports 0 bytes, so then
      the buffer is not emptied. */
  function Flush(p: Peer): Peer {
    var q := Write(p, p.output, Injected);
    if p.deflating then q else q.(output := [])
  }

  /** What is reported to a game that asks for the environment. */
  function Reports(cfg: Config, nego: Nego): seq<Environ.Report> {
    [ Environ.Report(Environ.PROXY_NAME, cfg.proxyName),
      Environ.Report(Environ.COMPRESSION,
        if nego == Accepted then Environ.TEXT_MCCP2 else Environ.TEXT_NONE) ]
    + seq(|cfg.reportVars|, i requires 0 <= i < |cfg.reportVars| =>
        Environ.Report(cfg.reportVars[i], cfg.address))
  }

  function Queue(p: Peer, reports: seq<Environ.Report>): Peer
    decreases |reports|
  {
    if reports == [] then p
    else Queue(Format(p, Environ.MnesPair(reports[0].name, reports[0].value)), reports[1..])
  }

  // ---- Handlers ----

  const WILL_MNES: Bytes := [IAC, WILL, NEW_ENVIRON]
  const MCCP2_START: Bytes := [IAC, SB, MCCP2, IAC, SE]

  /** The option byte of the three-byte command a handler was called on. */
  function OptionOf(m: Bytes): byte {
    if |m| > 2 then m[2] else 0
  }

  function Respond(p: Peer, verb: byte, m: Bytes): Peer {
    Flush(Format(p, [IAC, verb, OptionOf(m)]))
  }

  function Act(cfg: Config, action: Action, m: Bytes, p: Pair): Reply<Pair> {
    match action
    case MnesRequest =>
      var from := Flush(Queue(p.from, Reports(cfg, p.to.nego)));
      Reply(Pair(from, p.to), p.to.mnes == SaidWont)
    case MnesDoes => Reply(p.(from := p.from.(mnes := SaidDo)), false)
    case MnesClientWill => Reply(p.(from := p.from.(mnes := SaidWill)), false)
    case MnesClientWont =>
      Reply(Pair(p.from.(mnes := SaidWont), Flush(Put(p.to, WILL_MNES))), true)
    case RespondDo => Reply(p.(from := Respond(p.from, DO, m)), true)
    case RespondDont => Reply(p.(from := Respond(p.from, DONT, m)), true)
    case RespondWont => Reply(p.(from := Respond(p.from, WONT, m)), true)
    case MccpIgnore => Reply(p.(from := p.from.(matching := false)), false)
    case Mccp2Do =>
      if p.from.deflating then Reply(p.(from := p.from.(nego := Accepted)), true)
      else
        var from := Flush(Put(p.from, MCCP2_START)).(deflating := true, nego := Accepted);
        var to := Flush(Format(p.to, Environ.MnesPair(Environ.COMPRESSION, Environ.TEXT_MCCP2)));
        Reply(Pair(from, to), true)
    case Mccp2Dont =>
      var from := p.from.(deflating := false, nego := Refused);
      var to := Flush(Format(p.to, Environ.MnesPair(Environ.COMPRESSION, Environ.TEXT_NONE)));
      Reply(Pair(from, to), true)
    case Mccp2SbStart => Reply(p.(from := p.from.(starts := p.from.starts + 1)), true)
  }

  /** The rewriting rules of the direction whose input is matched against `table`. */
  function RulesFor(cfg: Config, table: seq<Pattern>): Rules<Pair> {
    Rules(
      Compiled(table),
      (p: Pair) => p.from.matching,
      (p: Pair, data: Bytes) => p.(to := Write(p.to, data, Relayed)),
      (p: Pair, k: nat, m: Bytes) =>
        if k < |table| then Act(cfg, table[k].action, m, p) else Reply(p, false))
  }

  function GameRules(cfg: Config): (r: Rules<Pair>)
    ensures NonEmpty(r.patterns)
  {
    GameTableCompiles(cfg.gameMode);
    RulesFor(cfg, GamePatterns(cfg.gameMode))
  }

  function ClientRules(cfg: Config): (r: Rules<Pair>)
    ensures NonEmpty(r.patterns)
  {
    ClientTableCompiles(cfg.clientMode);
    RulesFor(cfg, ClientPatterns(cfg.clientMode))
  }

  // ---- Writing is a stream ----

  lemma FramesJoin(a: Bytes, b: Bytes, origin: Origin, packed: bool)
    ensures Frames(a, origin, packed) + Frames(b, origin, packed) == Frames(a + b, origin, packed)
  {
  }

  lemma RulesLawful(cfg: Config, table: seq<Pattern>)
    requires NonEmpty(Compiled(table))
    ensures Lawful(RulesFor(cfg, table))
  {
    var r := RulesFor(cfg, table);
    forall h: Pair ensures WritesNothing(r, h) {
      assert h.to.sent + Frames([], Relayed, h.to.deflating) == h.to.sent;
    }
    forall h: Pair, a: Bytes, b: Bytes ensures WritesJoin(r, h, a, b) {
      FramesJoin(a, b, Relayed, h.to.deflating);
    }
    forall h: Pair, a: Bytes ensures WritesQuietly(r, h, a) {
    }
  }

  /** Either direction of the proxy may be cut into reads at will. */
  lemma ProxyChunkingIndependence(cfg: Config, game: bool, p: Pair, chunks: seq<Bytes>, cuts: seq<Bytes>)
    requires Concat(chunks) == Concat(cuts)
    ensures var r := if game then GameRules(cfg) else ClientRules(cfg);
      && Settle(r, Feed(r, p, [], chunks)) == OneShot(r, p, Concat(chunks))
      && Settle(r, Feed(r, p, [], chunks)) == Settle(r, Feed(r, p, [], cuts))
  {
    hide Settle, Feed, OneShot;
    var r := if game then GameRules(cfg) else ClientRules(cfg);
    RulesLawful(cfg, if game then GamePatterns(cfg.gameMode) else ClientPatterns(cfg.clientMode));
    ChunkingIndependence(r, p, chunks, cuts);
  }

  // ---- Telling the two origins apart ----

  /** The bytes of `fs` with the given origin, in order. */
  function Only(fs: seq<Frame>, origin: Origin): Bytes {
    if fs == [] then []
    else Only(fs[..|fs| - 1], origin) + if fs[|fs| - 1].origin == origin then [fs[|fs| - 1].b] else []
  }

  lemma {:induction false} OnlyAppend(fs: seq<Frame>, data: Bytes, origin: Origin, packed: bool, which: Origin)
    ensures Only(fs + Frames(data, origin, packed), which)
         == Only(fs, which) + if origin == which then data else []
    decreases |data|
  {
    var more := Frames(data, origin, packed);
    if data == [] {
      assert fs + more == fs;
    } else {
      var n := |data| - 1;
      assert (fs + more)[..|fs| + n] == fs + Frames(data[..n], origin, packed);
      OnlyAppend(fs, data[..n], origin, packed, which);
      assert data == data[..n] + [data[n]];
    }
  }

  /** What has been forwarded to an endpoint. */
  function RelayedTo(p: Peer): Bytes { Only(p.sent, Relayed) }

  /** What the proxy has said to an endpoint on its own account. */
  function InjectedTo(p: Peer): Bytes { Only(p.sent, Injected) }

  lemma WriteOnly(p: Peer, data: Bytes, origin: Origin)
    ensures RelayedTo(Write(p, data, origin)) == RelayedTo(p) + if origin == Relayed then data else []
    ensures InjectedTo(Write(p, data, origin)) == InjectedTo(p) + if origin == Injected then data else []
  {
    OnlyAppend(p.sent, data, origin, p.deflating, Relayed);
    OnlyAppend(p.sent, data, origin, p.deflating, Injected);
  }
}
