/** The game's side of the stream: requests for the environment, the start of
    compression, and the transparent mode that follows it. */
module GameFlow {
  import opened Telnet
  import opened Matcher
  import opened Patterns
  import opened Rewriter
  import opened Handlers
  import opened Sessions
  import opened Negotiation
  import opened Runs
  import Environ

  // ---- Positions where no pattern can start ----

  /** Every pattern starts with IAC and SB or an option verb. */
  ghost predicate CommandsOnly(ps: seq<Bytes>) {
    forall k :: 0 <= k < |ps| ==> |ps[k]| >= 2 && ps[k][0] == IAC && SB <= ps[k][1] <= DONT
  }

  /** At `x` there is no IAC, or one that is followed by neither SB nor a verb. */
  predicate Inert(s: Bytes, x: nat)
    requires x < |s|
  {
    s[x] != IAC || (x + 1 < |s| && !(SB <= s[x + 1] <= DONT))
  }

  lemma InertRulesOut(ps: seq<Bytes>, s: Bytes, x: nat)
    requires CommandsOnly(ps) && x < |s| && Inert(s, x)
    ensures RuledOut(ps, s, x, |ps|)
  {
    forall j | 0 <= j < |ps| ensures !Fits(ps[j], s, x) && !RunsOff(ps[j], s, x) {
      if s[x] != IAC {
        assert ps[j][0] != s[x + 0];
      } else {
        assert ps[j][1] != s[x + 1];
      }
    }
  }

  /** Text in which no pattern can start is shipped as it is. */
  lemma InertNoMatch(ps: seq<Bytes>, s: Bytes)
    requires CommandsOnly(ps) && forall x :: 0 <= x < |s| ==> Inert(s, x)
    ensures Scan(ps, s, 0) == NoMatch
  {
    forall x | 0 <= x < |s| ensures RuledOut(ps, s, x, |ps|) {
      InertRulesOut(ps, s, x);
    }
    VerdictUnique(ps, s, 0, NoMatch);
  }

  lemma GameCommandsOnly(cfg: Config)
    ensures CommandsOnly(GameRules(cfg).patterns)
    ensures GameRules(cfg).patterns == GameLiterals(cfg.gameMode)
  {
    hide Compiled;
    GameRulesLiterals(cfg);
  }

  // ---- Requests ----

  /** Which matches in the game's text are kept from the client. */
  predicate Swallowed(mode: Mode, alt: nat, clientStance: Mnes) {
    if alt < 2 then clientStance == SaidWont else alt >= 3 && mode != Ignore
  }

  ghost predicate Handled(mode: Mode, clientStance: Mnes, j: seq<Entry>) {
    forall i :: 0 <= i < |j| && !j[i].Text? ==> (j[i].Eaten? <==> Swallowed(mode, j[i].alt, clientStance))
  }

  lemma GameMatchHandled(cfg: Config, p: Pair, buf: Bytes, at: nat, k: nat, len: nat)
    requires Sound(cfg, p.to, p.from)
    requires at + len <= |buf| && k < |GamePatterns(cfg.gameMode)|
    ensures var e := MatchEntry(GameRules(cfg), p, buf, at, k, len);
      !e.Text? && e.alt == k && (e.Eaten? <==> Swallowed(cfg.gameMode, k, p.to.mnes))
  {
    hide Compiled, Queue, Flush, Format, Put, Reports;
  }

  lemma {:induction false} GameTextHandled(cfg: Config, p: Pair, buf: Bytes)
    requires Sound(cfg, p.to, p.from)
    ensures Handled(cfg.gameMode, p.to.mnes, Journal(GameRules(cfg), p, buf))
    decreases |buf|
  {
    hide Sound, GameRules, AfterMatch, MatchEntry, GamePatterns, Swallowed, GameForwards, Passed;
    var r := GameRules(cfg);
    GameTableSize(cfg);
    match Search(r, p, buf)
    case NoMatch =>
    case Partial(_) =>
    case Match(at, k, len) =>
      var here := [Text(buf[..at]), MatchEntry(r, p, buf, at, k, len)];
      GameMatchHandled(cfg, p, buf, at, k, len);
      GameMatchForwards(cfg, p, buf, at, k, len);
      GameForwardsSound(cfg, p, AfterMatch(r, p, buf, at, k, len), here);
      if |buf[at + len..]| > 0 {
        GameTextHandled(cfg, AfterMatch(r, p, buf, at, k, len), buf[at + len..]);
      }
  }

  /** In every reachable session a request in the game's next text is forwarded to
      the client exactly if the latest stance on the client's side is not a refusal,
      and in either case it is answered once by the proxy, in order. */
  lemma RefusalIsHonoured(cfg: Config, steps: seq<Step>, text: Bytes)
    requires ConfigOk(cfg)
    ensures var s := Run(cfg, steps);
      var j := GameJournal(cfg, s, GameText(text));
      var t := Run(cfg, steps + [GameText(text)]);
      && (forall i :: 0 <= i < |j| && !j[i].Text? && j[i].alt < 2 ==>
            (j[i].Kept? <==> Latest(Silent, Stances(cfg, steps)) != SaidWont))
      && RelayedTo(t.client) == RelayedTo(s.client) + Passed(j)
      && InjectedTo(t.game) == InjectedTo(s.game) + Answers(cfg, s.client.nego, j)
  {
    hide Sound, ConfigOk, GameRules, Journal, Drain, Passed, Answers, Asks, Only, Stances, Says;
    var s := Run(cfg, steps);
    RunSound(cfg, steps);
    StanceIsLatest(cfg, steps);
    var p, buf := Pair(s.game, s.client), s.gameBuf + text;
    GameTextHandled(cfg, p, buf);
    GameTextEffect(cfg, p, buf);
    assert (steps + [GameText(text)])[..|steps|] == steps;
  }

  /** An offer of compression that is not passed on is answered by the one command
      the mode prescribes, for the same option. */
  lemma OfferIsAnswered(cfg: Config, nego: Nego, k: nat)
    requires k < |GamePatterns(cfg.gameMode)| && GamePatterns(cfg.gameMode)[k].text[1] == WILL
    ensures var m := GamePatterns(cfg.gameMode)[k].text;
      && cfg.gameMode != Ignore && |m| == 3
      && Swallowed(cfg.gameMode, k, SaidWill)
      && Environ.Receive(Answer(cfg, nego, GamePatterns(cfg.gameMode)[k].action, m))
         == Some([Environ.Verb(if cfg.gameMode == Enable then DO else DONT, m[2])])
  {
    hide Environ.Receive, Reports;
    var m := GamePatterns(cfg.gameMode)[k].text;
    Environ.VerbIsRead(DO, m[2]);
    Environ.VerbIsRead(DONT, m[2]);
  }

  /** In enable mode an offer of a version of MCCP in one read is kept from the client and
      accepted exactly if it is version 2; the others are passed on and answered by nobody.
      Here `a` is any text that leaves nothing pending, and `b` any text that follows. */
  lemma OtherVersionsPass(cfg: Config, p: Pair, a: Bytes, opt: byte, b: Bytes) returns (q: Pair)
    requires cfg.gameMode == Enable && Sound(cfg, p.to, p.from) && MCCP <= opt <= MCCP3
    requires Drain(GameRules(cfg), p, a).1 == []
    ensures OneShot(GameRules(cfg), p, a + [IAC, WILL, opt] + b) == OneShot(GameRules(cfg), q, b)
    ensures var p1 := Drain(GameRules(cfg), p, a).0;
      && RelayedTo(q.to) == RelayedTo(p1.to) + (if opt == MCCP2 then [] else [IAC, WILL, opt])
      && InjectedTo(q.from) == InjectedTo(p1.from) + (if opt == MCCP2 then [IAC, DO, MCCP2] else [])
  {
    hide Only, Compiled, Drain, Sound, OneShot, ConfigOk;
    var r, s := GameRules(cfg), [IAC, WILL, opt] + b;
    var p1 := Drain(r, p, a).0;
    RulesLawful(cfg, GamePatterns(cfg.gameMode));
    DrainSplit(r, p, a, s);
    assert a + s == a + [IAC, WILL, opt] + b && [] + s == s;
    GameSoundInvariant(cfg);
    DrainKeeps(r, GameSound(cfg), p, a);
    q := OfferFirst(cfg, p1, opt, b);
  }

  lemma OfferFirst(cfg: Config, p: Pair, opt: byte, b: Bytes) returns (q: Pair)
    requires cfg.gameMode == Enable && Sound(cfg, p.to, p.from) && MCCP <= opt <= MCCP3
    ensures OneShot(GameRules(cfg), p, [IAC, WILL, opt] + b) == OneShot(GameRules(cfg), q, b)
    ensures RelayedTo(q.to) == RelayedTo(p.to) + (if opt == MCCP2 then [] else [IAC, WILL, opt])
    ensures InjectedTo(q.from) == InjectedTo(p.from) + (if opt == MCCP2 then [IAC, DO, MCCP2] else [])
  {
    hide Scan, Only, Compiled, Drain, OneShot, React;
    var r, offer := GameRules(cfg), [IAC, WILL, opt];
    RulesLawful(cfg, GamePatterns(cfg.gameMode));
    GameRulesLiterals(cfg);
    if opt == MCCP2 {
      OfferHits(b);
      q := React(r, p, 3, offer);
      OneShotMatch(r, p, offer + b);
      assert (offer + b)[0..3] == offer && (offer + b)[3..] == b;
      OfferTaken(cfg, p);
      assert RelayedTo(p.to) + [] == RelayedTo(p.to);
    } else {
      OfferMissed(opt, b);
      q := r.ship(p, offer);
      ShipFirst(r, p, offer, b);
      WriteOnly(p.to, offer, Relayed);
      assert InjectedTo(p.from) + [] == InjectedTo(p.from);
    }
  }

  lemma OfferHits(b: Bytes)
    ensures Scan(GameLiterals(Enable), [IAC, WILL, MCCP2] + b, 0) == Match(0, 3, 3)
  {
    var ps, s := GameLiterals(Enable), [IAC, WILL, MCCP2] + b;
    assert s[0] == IAC && s[1] == WILL && s[2] == MCCP2;
    assert ps[0][1] == SB && ps[1][1] == SB && ps[2][1] == DO;
    assert ps[3] == [IAC, WILL, MCCP2];
    assert RuledOut(ps, s, 0, 3);
    assert Describes(Match(0, 3, 3), ps, s, 0);
    VerdictUnique(ps, s, 0, Match(0, 3, 3));
  }

  lemma OfferMissed(opt: byte, b: Bytes)
    requires opt == MCCP || opt == MCCP3
    ensures var s := [IAC, WILL, opt] + b;
      Scan(GameLiterals(Enable), s, 0) == Scan(GameLiterals(Enable), s, 3)
  {
    var ps, s := GameLiterals(Enable), [IAC, WILL, opt] + b;
    assert s[0] == IAC && s[1] == WILL && s[2] == opt;
    assert ps[0][1] == SB && ps[1][1] == SB && ps[2][1] == DO && ps[4][1] == SB;
    assert ps[3] == [IAC, WILL, MCCP2];
    assert ps[3][2] != s[0 + 2];
    assert RuledOut(ps, s, 0, |ps|);
    assert Inert(s, 1) && Inert(s, 2);
    InertRulesOut(ps, s, 1);
    InertRulesOut(ps, s, 2);
    SkipRuledOut(ps, s, 0, 3);
  }

  lemma OfferTaken(cfg: Config, p: Pair)
    requires cfg.gameMode == Enable && Sound(cfg, p.to, p.from)
    ensures var q := React(GameRules(cfg), p, 3, [IAC, WILL, MCCP2]);
      && q.to == p.to && InjectedTo(q.from) == InjectedTo(p.from) + [IAC, DO, MCCP2]
  {
    hide Only, Compiled;
    var s := [IAC, WILL, MCCP2];
    var text := [IAC, DO, OptionOf(s)];
    assert Format(p.from, text).output == text;
    FlushOnly(Format(p.from, text), text);
  }

  // ---- The request that is cut short ----

  const SEND_HEAD: Bytes := [IAC, SB, NEW_ENVIRON, QUAL_SEND]

  lemma SendAllHits(mode: Mode, s: Bytes)
    requires s == SEND_HEAD + [IAC, SE]
    ensures Scan(GameLiterals(mode), s, 0) == Match(0, 0, 6)
  {
    var ps := GameLiterals(mode);
    var first := [IAC, SB, NEW_ENVIRON, QUAL_SEND, IAC, SE];
    assert ps[0] == first && s == first;
    assert Describes(Match(0, 0, 6), ps, s, 0);
    VerdictUnique(ps, s, 0, Match(0, 0, 6));
  }

  lemma SendHeadHits(mode: Mode, s: Bytes)
    requires |s| >= 6 && s[0] == IAC && s[1] == SB && s[2] == NEW_ENVIRON && s[3] == QUAL_SEND
    requires !(s[4] == IAC && s[5] == SE)
    ensures Scan(GameLiterals(mode), s, 0) == Match(0, 1, 4)
  {
    var ps := GameLiterals(mode);
    assert ps[0] == [IAC, SB, NEW_ENVIRON, QUAL_SEND, IAC, SE];
    assert ps[1] == [IAC, SB, NEW_ENVIRON, QUAL_SEND];
    assert ps[0][4] == IAC && ps[0][5] == SE;
    assert s[0 + 4] != ps[0][4] || s[0 + 5] != ps[0][5];
    assert RuledOut(ps, s, 0, 1);
    assert Describes(Match(0, 1, 4), ps, s, 0);
    VerdictUnique(ps, s, 0, Match(0, 1, 4));
  }

  /** A SEND that names any variables, or a type, is taken for a request after four
      bytes, and what follows is treated as ordinary text. */
  lemma SendIsCut(cfg: Config, p: Pair, tail: Bytes)
    requires p.from.matching && |tail| >= 2 && !(tail[0] == IAC && tail[1] == SE)
    ensures var r := GameRules(cfg);
      Drain(r, p, SEND_HEAD + tail) == Drain(r, React(r, p, 1, SEND_HEAD), tail)
  {
    hide React, Scan;
    var r, s := GameRules(cfg), SEND_HEAD + tail;
    GameRulesLiterals(cfg);
    SendHeadHits(cfg.gameMode, s);
    assert Search(r, p, s) == Match(0, 1, 4);
    assert s[0..4] == SEND_HEAD && s[4..] == tail;
  }

  lemma SendAllWhole(cfg: Config, p: Pair)
    requires p.from.matching
    ensures var r := GameRules(cfg);
      var s := SEND_HEAD + [IAC, SE];
      Drain(r, p, s) == (React(r, p, 0, s), [])
  {
    hide React, Scan;
    var r, s := GameRules(cfg), SEND_HEAD + [IAC, SE];
    GameRulesLiterals(cfg);
    SendAllHits(cfg.gameMode, s);
    assert Search(r, p, s) == Match(0, 0, 6);
    assert s[0..6] == s && s[6..] == [];
  }

  /** What a request names, with the end of the message, is text in which no pattern is
      found or could begin. */
  predicate NamesOnly(mode: Mode, body: Bytes) {
    var tail := body + [IAC, SE];
    body != [] ==> !(tail[0] == IAC && tail[1] == SE) && Scan(GameLiterals(mode), tail, 0) == NoMatch
  }

  /** That is so if the body does not begin like the end of a message, and every IAC in it
      is followed by neither SB nor a verb. It may be free of IAC; or double each one, as
      long as no such byte comes next. */
  lemma NamesAreText(cfg: Config, body: Bytes)
    requires !(|body| >= 2 && body[0] == IAC && body[1] == SE)
    requires forall x :: 0 <= x < |body| - 1 && body[x] == IAC ==> !(SB <= body[x + 1] <= DONT)
    ensures NamesOnly(cfg.gameMode, body)
  {
    var tail := body + [IAC, SE];
    GameCommandsOnly(cfg);
    forall x | 0 <= x < |tail| ensures Inert(tail, x) {
      assert x < |body| - 1 ==> tail[x] == body[x] && tail[x + 1] == body[x + 1];
    }
    InertNoMatch(GameLiterals(cfg.gameMode), tail);
  }

  /** A client that refuses is spared a request exactly if the request names nothing: of
      any other, whatever it names reaches the client with the end of the message, torn
      off its head. The request for all variables of type VAR is one of those. */
  lemma RefusedRequestLeaks(cfg: Config, p: Pair, body: Bytes)
    requires Sound(cfg, p.to, p.from) && p.from.matching && p.to.mnes == SaidWont
    requires NamesOnly(cfg.gameMode, body)
    ensures var q := Drain(GameRules(cfg), p, SEND_HEAD + body + [IAC, SE]).0;
      && RelayedTo(q.to) == RelayedTo(p.to) + (if body == [] then [] else body + [IAC, SE])
      && (RelayedTo(q.to) == RelayedTo(p.to) <==> body == [])
    ensures GamePatterns(cfg.gameMode)[0].text == SEND_HEAD + [] + [IAC, SE]
    ensures GamePatterns(cfg.gameMode)[1].text == SEND_HEAD + [VAR] + [IAC, SE]
  {
    hide Drain, Only, Queue, Reports, Compiled, Scan;
    var r := GameRules(cfg);
    GameRulesLiterals(cfg);
    if body == [] {
      assert SEND_HEAD + body + [IAC, SE] == SEND_HEAD + [IAC, SE];
      SendAllWhole(cfg, p);
      QueueKeeps(p.from, Reports(cfg, p.to.nego));
      assert RelayedTo(p.to) + [] == RelayedTo(p.to);
    } else {
      var tail := body + [IAC, SE];
      assert SEND_HEAD + body + [IAC, SE] == SEND_HEAD + tail;
      SendIsCut(cfg, p, tail);
      var p1 := React(r, p, 1, SEND_HEAD);
      QueueKeeps(p.from, Reports(cfg, p.to.nego));
      assert p1.from.matching && p1.to == p.to;
      DrainNoMatch(cfg, p1, tail);
      WriteOnly(p1.to, tail, Relayed);
    }
  }

  lemma DrainNoMatch(cfg: Config, p: Pair, s: Bytes)
    requires Scan(GameRules(cfg).patterns, s, 0) == NoMatch
    ensures Drain(GameRules(cfg), p, s) == (p.(to := Write(p.to, s, Relayed)), [])
  {
  }

  // ---- A configured variable called COMPRESSION ----

  /** The last COMPRESSION value in reports that all have the value `value`. */
  lemma {:induction false} ToldAlike(reports: seq<Environ.Report>, value: Bytes)
    requires forall i :: 0 <= i < |reports| ==> reports[i].value == value
    ensures Told(Environ.Understood(reports))
         == if exists i :: 0 <= i < |reports| && reports[i].name == Environ.COMPRESSION then Some(value) else None
  {
    if reports != [] {
      var head := Environ.Env([Environ.Setting(reports[0].name, Some(reports[0].value))]);
      ToldAlike(reports[1..], value);
      ToldAppend([head], Environ.Understood(reports[1..]));
      ToldSingle(reports[0].name, reports[0].value);
      if i :| 0 <= i < |reports| && reports[i].name == Environ.COMPRESSION && i > 0 {
        assert reports[1..][i - 1] == reports[i];
      }
      if reports[0].name != Environ.COMPRESSION {
        forall i | 0 <= i < |reports[1..]| ensures reports[1..][i] == reports[i + 1] {
        }
      }
    }
  }

  lemma ReplyTellsAddress(cfg: Config, nego: Nego)
    requires ConfigOk(cfg) && Environ.COMPRESSION in cfg.reportVars
    ensures var text := Environ.Encode(Reports(cfg, nego));
      Environ.Receive(text).Some? && Told(Environ.Receive(text).value) == Some(cfg.address)
  {
    hide Environ.Receive, Environ.Encode, ConfigOk;
    var all := Reports(cfg, nego);
    ReportsClean(cfg, nego);
    Environ.ReportsAreRead(all);
    var first := Environ.Env([Environ.Setting(all[0].name, Some(all[0].value))]);
    var second := Environ.Env([Environ.Setting(all[1].name, Some(all[1].value))]);
    assert all[1..][1..] == all[2..];
    assert Environ.Understood(all) == [first] + ([second] + Environ.Understood(all[2..]));
    assert Environ.Understood(all) == [first, second] + Environ.Understood(all[2..]);
    var i :| 0 <= i < |cfg.reportVars| && cfg.reportVars[i] == Environ.COMPRESSION;
    assert all[2..][i].name == Environ.COMPRESSION;
    ToldAlike(all[2..], cfg.address);
    ToldAppend([first, second], Environ.Understood(all[2..]));
  }

  const SEND_ALL: Bytes := SEND_HEAD + [IAC, SE]

  /** The first request of a game, before anything else. */
  lemma FirstRequest(cfg: Config)
    requires ConfigOk(cfg)
    ensures var s, t := Start(cfg), Run(cfg, [GameText(SEND_ALL)]);
      && InjectedTo(t.game) == InjectedTo(s.game) + Environ.Encode(Reports(cfg, s.client.nego))
      && !t.client.deflating
  {
    hide ConfigOk, Sound, GameRules, React, Only, Start, Environ.Encode, Reports;
    var s := Start(cfg);
    var p := Pair(s.game, s.client);
    StartSound(cfg);
    StartPlain(cfg);
    SendAllWhole(cfg, p);
    assert [] + SEND_ALL == SEND_ALL;
    RequestReact(cfg, p, SEND_ALL);
    OneStep(cfg, GameText(SEND_ALL));
  }

  lemma OneStep(cfg: Config, step: Step)
    ensures Run(cfg, [step]) == Next(cfg, Start(cfg), step)
  {
    hide Next, Start;
    var steps := [step];
    assert steps[..|steps| - 1] == [];
    assert RunFrom(cfg, Start(cfg), []) == Start(cfg);
  }

  lemma StartPlain(cfg: Config)
    ensures var s := Start(cfg); s.game.matching && s.gameBuf == [] && !s.client.deflating
  {
    FormatKeeps(NewPeer(), Environ.MnesPair(Environ.IPADDRESS, cfg.address));
  }

  lemma RequestReact(cfg: Config, p: Pair, m: Bytes)
    requires ConfigOk(cfg) && Sound(cfg, p.to, p.from)
    ensures var q := React(GameRules(cfg), p, 0, m);
      && InjectedTo(q.from) == InjectedTo(p.from) + Environ.Encode(Reports(cfg, p.to.nego))
      && q.to.deflating == p.to.deflating
  {
    hide ConfigOk, Only, Environ.Encode, Reports, Compiled;
    GameTableAsks(cfg.gameMode, 0);
    GameActEffect(cfg, p, MnesRequest, m);
  }

  /** The status the game is told agrees with the client's stream in every run exactly if
      no configured variable is called COMPRESSION: otherwise the first request is
      answered with the address under that name, last. An address is never "none". */
  lemma StatusAgreesExactly(cfg: Config)
    requires ConfigOk(cfg) && cfg.address != Environ.TEXT_NONE
    ensures (forall steps :: Agrees(Run(cfg, steps).client, Run(cfg, steps).game))
       <==> Environ.COMPRESSION !in cfg.reportVars
  {
    hide ConfigOk, Agrees, Run;
    if Environ.COMPRESSION in cfg.reportVars {
      var steps := [GameText(SEND_ALL)];
      StartAgrees(cfg);
      FirstRequest(cfg);
      ReplyTellsAddress(cfg, Start(cfg).client.nego);
      var t := Run(cfg, steps);
      AddressDisagrees(Start(cfg).client, Start(cfg).game, t.client, t.game,
                       Environ.Encode(Reports(cfg, Start(cfg).client.nego)), cfg.address);
      assert !Agrees(Run(cfg, steps).client, Run(cfg, steps).game);
    } else {
      forall steps ensures Agrees(Run(cfg, steps).client, Run(cfg, steps).game) {
        StatusAgreement(cfg, steps);
      }
    }
  }

  lemma AddressDisagrees(client: Peer, game: Peer, client': Peer, game': Peer, text: Bytes, address: Bytes)
    requires Agrees(client, game) && !client'.deflating && address != Environ.TEXT_NONE
    requires InjectedTo(game') == InjectedTo(game) + text
    requires Environ.Receive(text).Some? && Told(Environ.Receive(text).value) == Some(address)
    ensures !Agrees(client', game')
  {
    hide Environ.Receive, Only, Told;
    Environ.ReceiveAppend(InjectedTo(game), text);
    ToldAppend(Environ.Receive(InjectedTo(game)).value, Environ.Receive(text).value);
  }

  // ---- The start of compression ----

  lemma StartMarkerHits(rest: Bytes)
    ensures Scan(GameLiterals(Enable), MCCP2_START + rest, 0) == Match(0, 4, 5)
  {
    var ps, s := GameLiterals(Enable), MCCP2_START + rest;
    assert s[..5] == MCCP2_START;
    assert s[0] == IAC && s[1] == SB && s[2] == MCCP2;
    assert ps[0][2] == NEW_ENVIRON && ps[1][2] == NEW_ENVIRON && ps[2][1] == DO && ps[3][1] == WILL;
    assert RuledOut(ps, s, 0, 4);
    assert Fits(ps[4], s, 0);
    assert Describes(Match(0, 4, 5), ps, s, 0);
    VerdictUnique(ps, s, 0, Match(0, 4, 5));
  }

  /** With compression enabled the start marker is not forwarded. Whatever the same
      buffer holds behind it is not decompressed but treated as text, so a tail that
      contains no IAC reaches the client as raw compressed bytes: nothing but the
      marker is taken from the stream exactly if the marker ends the buffer. */
  lemma StartMarkerTail(cfg: Config, p: Pair, rest: Bytes)
    requires cfg.gameMode == Enable && p.from.matching
    ensures var (q, held) := Drain(GameRules(cfg), p, MCCP2_START + rest);
      var p1 := p.(from := p.from.(starts := p.from.starts + 1));
      && (rest == [] ==> q == p1 && held == [])
      && (rest != [] ==> (q, held) == Drain(GameRules(cfg), p1, rest))
      && (IAC !in rest ==> RelayedTo(q.to) == RelayedTo(p.to) + rest && held == [])
      && (IAC !in rest ==> (RelayedTo(q.to) == RelayedTo(p.to) <==> rest == []))
  {
    hide Scan, Only, Compiled;
    var r, s := GameRules(cfg), MCCP2_START + rest;
    var p1 := p.(from := p.from.(starts := p.from.starts + 1));
    GameRulesLiterals(cfg);
    StartMarkerHits(rest);
    assert Search(r, p, s) == Match(0, 4, 5);
    assert s[0..5] == MCCP2_START && s[5..] == rest;
    assert AfterMatch(r, p, s, 0, 4, 5) == p1;
    if IAC !in rest {
      forall x | 0 <= x < |rest| ensures Inert(rest, x) {
        assert rest[x] in rest;
      }
      GameCommandsOnly(cfg);
      InertNoMatch(r.patterns, rest);
      DrainNoMatch(cfg, p1, rest);
      WriteOnly(p1.to, rest, Relayed);
    }
  }
}
