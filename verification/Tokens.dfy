/** The client's stream as telnet commands (RFC 854), and the rewriting of it
    command by command. IAC IAC is not part of this grammar: the search for
    patterns does not know it. */
module Tokens {
  import opened Telnet
  import opened Matcher
  import opened Patterns
  import opened Rewriter
  import opened Handlers
  import opened Sessions
  import opened Negotiation
  import opened GameFlow
  import opened Wire
  import Environ
  import Runs

  datatype Token =
    | Char(c: byte)
    | Cmd(cmd: byte)
    | Opt(verb: byte, opt: byte)
    | Sub(body: Bytes)

  predicate WellFormed(t: Token) {
    match t
    case Char(c) => c != IAC
    case Cmd(cmd) => cmd < SB
    case Opt(verb, opt) => WILL <= verb <= DONT && opt != IAC
    case Sub(body) => forall i :: 0 <= i < |body| ==> body[i] != IAC
  }

  function Encode(t: Token): (s: Bytes)
    ensures s != []
  {
    match t
    case Char(c) => [c]
    case Cmd(cmd) => [IAC, cmd]
    case Opt(verb, opt) => [IAC, verb, opt]
    case Sub(body) => [IAC, SB] + body + [IAC, SE]
  }

  function EncodeAll(ts: seq<Token>): Bytes {
    if ts == [] then [] else Encode(ts[0]) + EncodeAll(ts[1..])
  }

  ghost predicate AllWellFormed(ts: seq<Token>) {
    forall i :: 0 <= i < |ts| ==> WellFormed(ts[i])
  }

  /** Every pattern is an option command. */
  ghost predicate OptionsOnly(ps: seq<Bytes>) {
    forall k :: 0 <= k < |ps| ==> |ps[k]| == 3 && ps[k][0] == IAC && WILL <= ps[k][1] <= DONT
  }

  /** The first pattern from number `k` on that is this command. */
  function Index(ps: seq<Bytes>, s: Bytes, k: nat): (r: Option<nat>)
    requires k <= |ps|
    ensures r.Some? ==> k <= r.value < |ps| && ps[r.value] == s
    ensures forall j :: k <= j < (if r.Some? then r.value else |ps|) ==> ps[j] != s
    decreases |ps| - k
  {
    if k == |ps| then None else if ps[k] == s then Some(k) else Index(ps, s, k + 1)
  }

  // ---- Where matches can be ----

  /** No pattern matches inside a command, nor at its start unless it is the pattern. */
  lemma TokenRulesOut(ps: seq<Bytes>, t: Token, rest: Bytes, x: nat)
    requires OptionsOnly(ps) && WellFormed(t) && x < |Encode(t)|
    requires x == 0 ==> Index(ps, Encode(t), 0) == None
    ensures RuledOut(ps, Encode(t) + rest, x, |ps|)
  {
    var s := Encode(t) + rest;
    if t.Opt? && x == 0 {
      forall j | 0 <= j < |ps| ensures !Fits(ps[j], s, 0) && !RunsOff(ps[j], s, 0) {
        assert ps[j] != Encode(t);
        assert exists i :: 0 <= i < 3 && ps[j][i] != Encode(t)[i];
        var i :| 0 <= i < 3 && ps[j][i] != Encode(t)[i];
        assert s[0 + i] == Encode(t)[i];
      }
    } else if t.Sub? && x == 0 {
      forall j | 0 <= j < |ps| ensures !Fits(ps[j], s, 0) && !RunsOff(ps[j], s, 0) {
        assert ps[j][1] != s[0 + 1];
      }
    } else {
      assert Inert(s, x);
      InertRulesOut(ps, s, x);
    }
  }

  /** A command that is no pattern is passed over. */
  lemma TokenSkipped(ps: seq<Bytes>, t: Token, rest: Bytes)
    requires OptionsOnly(ps) && WellFormed(t) && Index(ps, Encode(t), 0) == None
    ensures Scan(ps, Encode(t) + rest, 0) == Scan(ps, Encode(t) + rest, |Encode(t)|)
  {
    var s := Encode(t) + rest;
    forall x | 0 <= x < |Encode(t)| ensures RuledOut(ps, s, x, |ps|) {
      TokenRulesOut(ps, t, rest, x);
    }
    SkipRuledOut(ps, s, 0, |Encode(t)|);
  }

  /** A command that is a pattern is found at once. */
  lemma TokenFound(ps: seq<Bytes>, t: Token, rest: Bytes)
    requires OptionsOnly(ps) && WellFormed(t) && Index(ps, Encode(t), 0).Some?
    ensures Scan(ps, Encode(t) + rest, 0) == Match(0, Index(ps, Encode(t), 0).value, |Encode(t)|)
  {
    var k := Index(ps, Encode(t), 0).value;
    var s := Encode(t) + rest;
    assert |Encode(t)| == 3;
    forall j | 0 <= j < k ensures !Fits(ps[j], s, 0) && !RunsOff(ps[j], s, 0) {
      assert ps[j] != ps[k];
      assert exists i :: 0 <= i < 3 && ps[j][i] != ps[k][i];
      var i :| 0 <= i < 3 && ps[j][i] != ps[k][i];
      assert s[0 + i] == ps[k][i];
    }
    assert Fits(ps[k], s, 0);
    VerdictUnique(ps, s, 0, Match(0, k, 3));
  }

  /** No pattern occurs anywhere in commands of which none is a pattern. */
  lemma {:induction false} NoneInside(ps: seq<Bytes>, ts: seq<Token>)
    requires OptionsOnly(ps) && AllWellFormed(ts)
    requires forall i :: 0 <= i < |ts| ==> Index(ps, Encode(ts[i]), 0) == None
    ensures Scan(ps, EncodeAll(ts), 0) == NoMatch
    decreases |ts|
  {
    if ts != [] {
      var a, b := Encode(ts[0]), EncodeAll(ts[1..]);
      TokenSkipped(ps, ts[0], b);
      NoneInside(ps, ts[1..]);
      ScanShift(ps, a, b, 0);
    }
  }

  // ---- The rewriter on commands ----

  function RewriteToken(r: Rules<Pair>, p: Pair, t: Token): Pair {
    match Index(r.patterns, Encode(t), 0)
    case Some(k) => React(r, p, k, Encode(t))
    case None => r.ship(p, Encode(t))
  }

  function Rewrite(r: Rules<Pair>, p: Pair, ts: seq<Token>): Pair
    decreases |ts|
  {
    if ts == [] then p else Rewrite(r, RewriteToken(r, p, ts[0]), ts[1..])
  }

  lemma ClientOptionsOnly(cfg: Config)
    ensures ClientRules(cfg).patterns == ClientLiterals(cfg.clientMode)
    ensures OptionsOnly(ClientLiterals(cfg.clientMode))
    ensures Lawful(ClientRules(cfg))
  {
    Runs.ClientRulesLiterals(cfg);
    RulesLawful(cfg, ClientPatterns(cfg.clientMode));
  }

  lemma RewriteTokenSound(cfg: Config, p: Pair, t: Token)
    requires Sound(cfg, p.from, p.to)
    ensures var q := RewriteToken(ClientRules(cfg), p, t); Sound(cfg, q.from, q.to)
  {
    hide Act, Compiled, ClientPatterns;
    var r := ClientRules(cfg);
    match Index(r.patterns, Encode(t), 0)
    case Some(k) =>
      ClientTableSize(cfg);
      ClientTableActions(cfg.clientMode, k);
      ClientActSound(cfg, p, ClientPatterns(cfg.clientMode)[k].action, Encode(t));
    case None =>
  }

  /** The search for literals finds exactly the commands: processing the bytes of a
      list of commands is rewriting the list. */
  lemma {:induction false} BytesRefineTokens(cfg: Config, p: Pair, ts: seq<Token>)
    requires Sound(cfg, p.from, p.to) && AllWellFormed(ts)
    ensures OneShot(ClientRules(cfg), p, EncodeAll(ts)) == (Rewrite(ClientRules(cfg), p, ts), [])
    decreases |ts|
  {
    hide OneShot, Sound, ClientRules, ClientLiterals, RewriteToken, Scan;
    var r := ClientRules(cfg);
    ClientOptionsOnly(cfg);
    if ts == [] {
      OneShotNothing(r, p);
    } else {
      var t, rest := ts[0], EncodeAll(ts[1..]);
      OneToken(cfg, p, t, rest);
      RewriteTokenSound(cfg, p, t);
      BytesRefineTokens(cfg, RewriteToken(r, p, t), ts[1..]);
    }
  }

  lemma OneToken(cfg: Config, p: Pair, t: Token, rest: Bytes)
    requires Sound(cfg, p.from, p.to) && WellFormed(t)
    ensures var r := ClientRules(cfg);
      OneShot(r, p, Encode(t) + rest) == OneShot(r, RewriteToken(r, p, t), rest)
  {
    hide OneShot, Encode, React, Scan;
    var r, s := ClientRules(cfg), Encode(t) + rest;
    ClientOptionsOnly(cfg);
    if Index(r.patterns, Encode(t), 0) == None {
      TokenSkipped(r.patterns, t, rest);
      ShipFirst(r, p, Encode(t), rest);
    } else {
      TokenFound(r.patterns, t, rest);
      OneShotMatch(r, p, s);
      assert s[0..|Encode(t)|] == Encode(t) && s[|Encode(t)|..] == rest;
    }
  }

  // ---- What the game receives ----

  /** The commands the game gets for one of the client's. */
  function Seen(mode: Mode, deflating: bool, t: Token): seq<Token> {
    if t == Opt(WONT, NEW_ENVIRON) then [Opt(WILL, NEW_ENVIRON)]
    else if mode == Disable && t.Opt? && t.verb == DO && MCCP <= t.opt <= MCCP3 then []
    else if mode == Enable && t == Opt(DO, MCCP2) then
      if deflating then [] else [Sub(StatusBody(Environ.TEXT_MCCP2))]
    else if mode == Enable && t == Opt(DONT, MCCP2) then [Sub(StatusBody(Environ.TEXT_NONE))]
    else [t]
  }

  function StatusBody(value: Bytes): Bytes {
    [NEW_ENVIRON, QUAL_IS, VAR] + Environ.COMPRESSION + [VALUE] + value
  }

  function DeflatingAfter(mode: Mode, deflating: bool, t: Token): bool {
    if mode == Enable && t == Opt(DO, MCCP2) then true
    else if mode == Enable && t == Opt(DONT, MCCP2) then false
    else deflating
  }

  function SeenAll(mode: Mode, deflating: bool, ts: seq<Token>): seq<Token>
    decreases |ts|
  {
    if ts == [] then []
    else Seen(mode, deflating, ts[0]) + SeenAll(mode, DeflatingAfter(mode, deflating, ts[0]), ts[1..])
  }

  lemma {:induction false} EncodeAppend(a: seq<Token>, b: seq<Token>)
    ensures EncodeAll(a + b) == EncodeAll(a) + EncodeAll(b)
  {
    if a == [] {
      assert a + b == b;
    } else {
      assert (a + b)[1..] == a[1..] + b;
      EncodeAppend(a[1..], b);
    }
  }

  lemma EncodeOne(t: Token)
    ensures EncodeAll([t]) == Encode(t)
  {
    assert [t][1..] == [];
  }

  lemma WroteBytes(p: Peer, data: Bytes, origin: Origin)
    ensures BytesOf(Write(p, data, origin).sent) == BytesOf(p.sent) + data
  {
  }

  lemma StatusPair(value: Bytes)
    ensures Encode(Sub(StatusBody(value))) == Environ.MnesPair(Environ.COMPRESSION, value)
  {
  }

  lemma OptEncoding(t: Token, verb: byte, opt: byte)
    ensures WellFormed(t) ==> (Encode(t) == [IAC, verb, opt] <==> t == Opt(verb, opt))
  {
    if t.Opt? {
      assert Encode(t)[1] == t.verb && Encode(t)[2] == t.opt;
      assert [IAC, verb, opt][1] == verb && [IAC, verb, opt][2] == opt;
    }
  }

  /** Which command each alternative of the client's table is. */
  lemma ClientIndex(mode: Mode, t: Token)
    requires WellFormed(t)
    ensures var i := Index(ClientLiterals(mode), Encode(t), 0);
      && (i == Some(0) <==> t == Opt(WONT, NEW_ENVIRON))
      && (i == Some(1) <==> t == Opt(WILL, NEW_ENVIRON))
      && (mode == Enable ==> (i == Some(2) <==> t == Opt(DO, MCCP2)) && (i == Some(3) <==> t == Opt(DONT, MCCP2)))
      && (mode == Disable ==> (i.Some? && i.value >= 2 <==> t.Opt? && t.verb == DO && MCCP <= t.opt <= MCCP3))
      && (mode == Ignore ==> i.Some? ==> i.value < 2)
  {
    hide Encode;
    var ps := ClientLiterals(mode);
    OptEncoding(t, WONT, NEW_ENVIRON);
    OptEncoding(t, WILL, NEW_ENVIRON);
    OptEncoding(t, DO, MCCP);
    OptEncoding(t, DO, MCCP2);
    OptEncoding(t, DO, MCCP3);
    OptEncoding(t, DONT, MCCP2);
    assert ps[0] == [IAC, WONT, NEW_ENVIRON] && ps[1] == [IAC, WILL, NEW_ENVIRON];
    match mode
    case Ignore =>
    case Disable =>
      assert ps[2] == [IAC, DO, MCCP] && ps[3] == [IAC, DO, MCCP2] && ps[4] == [IAC, DO, MCCP3];
    case Enable =>
      assert ps[2] == [IAC, DO, MCCP2] && ps[3] == [IAC, DONT, MCCP2];
  }

  /** The game receives for one command exactly what it is meant to see. */
  lemma TokenSeen(cfg: Config, p: Pair, t: Token)
    requires Sound(cfg, p.from, p.to) && WellFormed(t)
    ensures var q := RewriteToken(ClientRules(cfg), p, t);
      && BytesOf(q.to.sent) == BytesOf(p.to.sent) + EncodeAll(Seen(cfg.clientMode, p.from.deflating, t))
      && q.from.deflating == DeflatingAfter(cfg.clientMode, p.from.deflating, t)
  {
    hide BytesOf, Encode, EncodeAll, ClientRules, ClientLiterals, StatusBody, Environ.MnesPair, Flush, Put, Format;
    hide React, Write;
    var r := ClientRules(cfg);
    var mode := cfg.clientMode;
    ClientOptionsOnly(cfg);
    ClientIndex(mode, t);
    EncodeNone();
    match Index(r.patterns, Encode(t), 0)
    case None =>
      EncodeOne(t);
      ClientShipsTo(cfg, p, Encode(t));
    case Some(k) =>
      ClientReact(cfg, p, k, Encode(t));
      if k == 0 {
        WillSent(p.to);
      } else if k == 1 {
        EncodeOne(t);
        WroteBytes(p.to, Encode(t), Relayed);
      } else if mode == Enable {
        StatusSent(p.to, if k == 2 then Environ.TEXT_MCCP2 else Environ.TEXT_NONE);
      }
      assert BytesOf(p.to.sent) + [] == BytesOf(p.to.sent);
  }

  lemma ClientShipsTo(cfg: Config, p: Pair, data: Bytes)
    ensures var q := ClientRules(cfg).ship(p, data);
      BytesOf(q.to.sent) == BytesOf(p.to.sent) + data && q.from == p.from
  {
    WroteBytes(p.to, data, Relayed);
  }

  /** The game once the client's stream has been switched: nothing is said if it was
      compressed already. */
  function SwitchTold(p: Peer, already: bool, on: bool): Peer {
    var value := if on then Environ.TEXT_MCCP2 else Environ.TEXT_NONE;
    if already then p else Flush(Format(p, Environ.MnesPair(Environ.COMPRESSION, value)))
  }

  /** What the client's handlers, and the forwarding of what they leave, come to. */
  lemma ClientReact(cfg: Config, p: Pair, k: nat, m: Bytes)
    requires k < |ClientRules(cfg).patterns|
    ensures var q := React(ClientRules(cfg), p, k, m);
      && (k == 0 ==> q.to == Flush(Put(p.to, WILL_MNES)) && q.from.deflating == p.from.deflating)
      && (k == 1 ==> q.to == Write(p.to, m, Relayed) && q.from.deflating == p.from.deflating)
      && (k >= 2 && cfg.clientMode != Enable ==> q.to == p.to && q.from.deflating == p.from.deflating)
      && (k == 2 && cfg.clientMode == Enable ==> q.from.deflating && q.to == SwitchTold(p.to, p.from.deflating, true))
      && (k == 3 && cfg.clientMode == Enable ==> !q.from.deflating && q.to == SwitchTold(p.to, false, false))
      && (cfg.clientMode == Enable ==> k < 4)
  {
    hide Compiled, Format, Put, Frames, Environ.MnesPair;
    ClientTableSize(cfg);
    FormatKeeps(p.from, [IAC, WONT, OptionOf(m)]);
  }

  lemma WillSent(p: Peer)
    requires p.output == [] && !p.deflating
    ensures BytesOf(Flush(Put(p, WILL_MNES)).sent) == BytesOf(p.sent) + EncodeAll([Opt(WILL, NEW_ENVIRON)])
  {
    EncodeOne(Opt(WILL, NEW_ENVIRON));
    WillEncoded();
    WroteBytes(p, WILL_MNES, Injected);
    assert Put(p, WILL_MNES).output == WILL_MNES;
  }

  lemma StatusSent(p: Peer, value: Bytes)
    requires p.output == [] && !p.deflating && |value| < 46
    ensures BytesOf(Flush(Format(p, Environ.MnesPair(Environ.COMPRESSION, value))).sent)
         == BytesOf(p.sent) + EncodeAll([Sub(StatusBody(value))])
  {
    hide BytesOf, Encode, EncodeAll, Frames, StatusBody, Environ.MnesPair;
    var pair := Environ.MnesPair(Environ.COMPRESSION, value);
    StatusPair(value);
    EncodeOne(Sub(StatusBody(value)));
    PairFits(value);
    WroteBytes(p, pair, Injected);
    assert Format(p, pair).output == pair;
  }

  lemma EncodeNone()
    ensures EncodeAll([]) == []
  {
  }

  lemma WillEncoded()
    ensures Encode(Opt(WILL, NEW_ENVIRON)) == WILL_MNES
  {
  }

  lemma {:induction false} TokensSeen(cfg: Config, p: Pair, ts: seq<Token>)
    requires Sound(cfg, p.from, p.to) && AllWellFormed(ts)
    ensures var q := Rewrite(ClientRules(cfg), p, ts);
      BytesOf(q.to.sent) == BytesOf(p.to.sent) + EncodeAll(SeenAll(cfg.clientMode, p.from.deflating, ts))
    decreases |ts|
  {
    hide BytesOf, Sound, ClientRules, RewriteToken, Seen, DeflatingAfter, EncodeAll, WellFormed;
    if ts == [] {
      EncodeNone();
      assert BytesOf(p.to.sent) + [] == BytesOf(p.to.sent);
    } else {
      var q := RewriteToken(ClientRules(cfg), p, ts[0]);
      TokenSeen(cfg, p, ts[0]);
      RewriteTokenSound(cfg, p, ts[0]);
      TokensSeen(cfg, q, ts[1..]);
      var first := Seen(cfg.clientMode, p.from.deflating, ts[0]);
      var others := SeenAll(cfg.clientMode, q.from.deflating, ts[1..]);
      EncodeAppend(first, others);
      assert SeenAll(cfg.clientMode, p.from.deflating, ts) == first + others;
    }
  }

  /** However a list of commands from the client is cut into reads, nothing is held
      at the end and the game has received exactly the commands it is meant to see. */
  lemma ClientStreamRefinesTokens(cfg: Config, p: Pair, ts: seq<Token>, chunks: seq<Bytes>)
    requires Sound(cfg, p.from, p.to) && AllWellFormed(ts)
    requires Concat(chunks) == EncodeAll(ts)
    ensures var (q, held) := Feed(ClientRules(cfg), p, [], chunks);
      && held == []
      && BytesOf(q.to.sent) == BytesOf(p.to.sent) + EncodeAll(SeenAll(cfg.clientMode, p.from.deflating, ts))
  {
    hide Sound, ClientRules, OneShot, Feed, BytesOf;
    var r := ClientRules(cfg);
    ClientOptionsOnly(cfg);
    ChunkingIndependence(r, p, chunks, chunks);
    BytesRefineTokens(cfg, p, ts);
    TokensSeen(cfg, p, ts);
  }

  // ---- What the client is answered ----

  /** The proxy's answer to the client for one command: a refusal, or the announcement
      that compression starts, which is not repeated while it lasts. */
  function Answered(mode: Mode, deflating: bool, t: Token): seq<Token> {
    if mode == Disable && t.Opt? && t.verb == DO && MCCP <= t.opt <= MCCP3 then [Opt(WONT, t.opt)]
    else if mode == Enable && t == Opt(DO, MCCP2) && !deflating then [Sub([MCCP2])]
    else []
  }

  function AnsweredAll(mode: Mode, deflating: bool, ts: seq<Token>): seq<Token>
    decreases |ts|
  {
    if ts == [] then []
    else Answered(mode, deflating, ts[0]) + AnsweredAll(mode, DeflatingAfter(mode, deflating, ts[0]), ts[1..])
  }

  lemma TokenAnswered(cfg: Config, p: Pair, t: Token)
    requires Sound(cfg, p.from, p.to) && WellFormed(t)
    ensures var q := RewriteToken(ClientRules(cfg), p, t);
      InjectedTo(q.from) == InjectedTo(p.from) + EncodeAll(Answered(cfg.clientMode, p.from.deflating, t))
  {
    hide BytesOf, Encode, EncodeAll, ClientRules, ClientLiterals, Only, Respond, Flush, Put, React;
    var r := ClientRules(cfg);
    ClientOptionsOnly(cfg);
    ClientIndex(cfg.clientMode, t);
    EncodeNone();
    assert InjectedTo(p.from) + [] == InjectedTo(p.from);
    match Index(r.patterns, Encode(t), 0)
    case None => ClientShipsTo(cfg, p, Encode(t));
    case Some(k) =>
      ClientReactBack(cfg, p, k, Encode(t));
      if k == 2 && cfg.clientMode == Enable && !p.from.deflating {
        MarkerAnswered(p.from);
      } else if k >= 2 && cfg.clientMode == Disable {
        RefusalAnswered(p.from, t);
      }
  }

  /** What the client's handlers send back to the client. */
  lemma ClientReactBack(cfg: Config, p: Pair, k: nat, m: Bytes)
    requires k < |ClientRules(cfg).patterns|
    ensures var q := React(ClientRules(cfg), p, k, m);
      q.from.sent ==
        if k >= 2 && cfg.clientMode == Disable then Respond(p.from, WONT, m).sent
        else if k == 2 && cfg.clientMode == Enable && !p.from.deflating then Flush(Put(p.from, MCCP2_START)).sent
        else p.from.sent
    ensures cfg.clientMode == Ignore ==> k < 2
  {
    hide Compiled, Format, Put, Frames, Environ.MnesPair;
    ClientTableSize(cfg);
  }

  lemma MarkerAnswered(p: Peer)
    requires p.output == [] && !p.deflating
    ensures InjectedTo(Flush(Put(p, MCCP2_START))) == InjectedTo(p) + EncodeAll([Sub([MCCP2])])
  {
    hide Only, Frames;
    EncodeOne(Sub([MCCP2]));
    assert Encode(Sub([MCCP2])) == MCCP2_START;
    FlushOnly(Put(p, MCCP2_START), MCCP2_START);
  }

  lemma RefusalAnswered(p: Peer, t: Token)
    requires t.Opt? && p.output == [] && !p.deflating
    ensures InjectedTo(Respond(p, WONT, Encode(t))) == InjectedTo(p) + EncodeAll([Opt(WONT, t.opt)])
  {
    hide Only, Frames;
    EncodeOne(Opt(WONT, t.opt));
    var text := [IAC, WONT, OptionOf(Encode(t))];
    assert Format(p, text).output == text;
    FlushOnly(Format(p, text), text);
  }

  /** In disable mode each DO for a version of MCCP is refused; in enable mode the start
      marker is sent for a DO that finds the stream uncompressed, and nothing for one that
      does not; all that in order, and nothing else is said. */
  lemma {:induction false} TokensAnswered(cfg: Config, p: Pair, ts: seq<Token>)
    requires Sound(cfg, p.from, p.to) && AllWellFormed(ts)
    ensures var q := Rewrite(ClientRules(cfg), p, ts);
      InjectedTo(q.from) == InjectedTo(p.from) + EncodeAll(AnsweredAll(cfg.clientMode, p.from.deflating, ts))
    decreases |ts|
  {
    hide Only, Sound, ClientRules, RewriteToken, Answered, DeflatingAfter, Seen, EncodeAll, WellFormed, BytesOf;
    if ts == [] {
      EncodeNone();
      assert InjectedTo(p.from) + [] == InjectedTo(p.from);
    } else {
      var q := RewriteToken(ClientRules(cfg), p, ts[0]);
      TokenAnswered(cfg, p, ts[0]);
      TokenSeen(cfg, p, ts[0]);
      RewriteTokenSound(cfg, p, ts[0]);
      TokensAnswered(cfg, q, ts[1..]);
      var first := Answered(cfg.clientMode, p.from.deflating, ts[0]);
      var others := AnsweredAll(cfg.clientMode, q.from.deflating, ts[1..]);
      EncodeAppend(first, others);
      assert InjectedTo(p.from) + EncodeAll(first) + EncodeAll(others)
          == InjectedTo(p.from) + (EncodeAll(first) + EncodeAll(others));
    }
  }

  // ---- What the game never sees ----

  lemma {:induction false} SeenWellFormed(mode: Mode, deflating: bool, ts: seq<Token>)
    requires AllWellFormed(ts)
    ensures AllWellFormed(SeenAll(mode, deflating, ts))
    ensures Opt(WONT, NEW_ENVIRON) !in SeenAll(mode, deflating, ts)
    ensures mode == Disable ==>
      forall i :: 0 <= i < |SeenAll(mode, deflating, ts)| ==>
        var t := SeenAll(mode, deflating, ts)[i]; !(t.Opt? && t.verb == DO && MCCP <= t.opt <= MCCP3)
    decreases |ts|
  {
    if ts != [] {
      SeenWellFormed(mode, DeflatingAfter(mode, deflating, ts[0]), ts[1..]);
    }
  }

  const FORBIDDEN: seq<Bytes> := [[IAC, WONT, NEW_ENVIRON]]
  const FORBIDDEN_DISABLED: seq<Bytes> :=
    [[IAC, WONT, NEW_ENVIRON], [IAC, DO, MCCP], [IAC, DO, MCCP2], [IAC, DO, MCCP3]]

  /** At no offset of what the game receives is there a WONT NEW-ENVIRON, nor, in
      disable mode, a DO for any version of MCCP. */
  lemma NeverSeen(mode: Mode, deflating: bool, ts: seq<Token>)
    requires AllWellFormed(ts)
    ensures var seen := EncodeAll(SeenAll(mode, deflating, ts));
      && Scan(FORBIDDEN, seen, 0) == NoMatch
      && (mode == Disable ==> Scan(FORBIDDEN_DISABLED, seen, 0) == NoMatch)
  {
    var seen := SeenAll(mode, deflating, ts);
    SeenWellFormed(mode, deflating, ts);
    forall i | 0 <= i < |seen|
      ensures Index(FORBIDDEN, Encode(seen[i]), 0) == None
      ensures mode == Disable ==> Index(FORBIDDEN_DISABLED, Encode(seen[i]), 0) == None
    {
      assert seen[i] in seen;
      NotForbidden(mode, seen[i]);
    }
    NoneInside(FORBIDDEN, seen);
    if mode == Disable {
      NoneInside(FORBIDDEN_DISABLED, seen);
    }
  }

  lemma NotForbidden(mode: Mode, t: Token)
    requires WellFormed(t) && t != Opt(WONT, NEW_ENVIRON)
    requires mode == Disable ==> !(t.Opt? && t.verb == DO && MCCP <= t.opt <= MCCP3)
    ensures Index(FORBIDDEN, Encode(t), 0) == None
    ensures mode == Disable ==> Index(FORBIDDEN_DISABLED, Encode(t), 0) == None
  {
    hide Encode;
    OptEncoding(t, WONT, NEW_ENVIRON);
    OptEncoding(t, DO, MCCP);
    OptEncoding(t, DO, MCCP2);
    OptEncoding(t, DO, MCCP3);
    assert FORBIDDEN[0] == [IAC, WONT, NEW_ENVIRON];
    assert FORBIDDEN_DISABLED[0] == [IAC, WONT, NEW_ENVIRON] && FORBIDDEN_DISABLED[1] == [IAC, DO, MCCP]
        && FORBIDDEN_DISABLED[2] == [IAC, DO, MCCP2] && FORBIDDEN_DISABLED[3] == [IAC, DO, MCCP3];
  }
}
