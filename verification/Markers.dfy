/** The messages that announce a compressed stream, wherever the game sends them and
    however they are cut into reads: in ignore mode matching ends with the first one,
    in enable mode decompression starts. */
module Markers {
  import opened Telnet
  import opened Matcher
  import opened Patterns
  import opened Rewriter
  import opened Handlers
  import opened Sessions
  import opened Negotiation
  import opened Runs
  import opened Fallback
  import Environ

  /** The options whose start marker an endpoint looks out for. */
  predicate MarkerOption(mode: Mode, opt: byte) {
    match mode
    case Ignore => MCCP <= opt <= MCCP3
    case Disable => false
    case Enable => opt == MCCP2
  }

  /** A start marker stands at position `n`. */
  predicate MarkerAt(mode: Mode, s: Bytes, n: nat) {
    n + 5 <= |s| && s[n] == IAC && s[n + 1] == SB && MarkerOption(mode, s[n + 2]) && s[n + 3] == IAC && s[n + 4] == SE
  }

  ghost predicate FirstMarker(mode: Mode, s: Bytes, n: nat) {
    MarkerAt(mode, s, n) && forall m: nat :: m < n ==> !MarkerAt(mode, s, m)
  }

  ghost predicate NoMarker(mode: Mode, s: Bytes) {
    forall n: nat :: !MarkerAt(mode, s, n)
  }

  /** No start marker begins at `x`, however `s` continues. */
  predicate NeverMarker(mode: Mode, s: Bytes, x: nat)
    requires x < |s|
  {
    || s[x] != IAC
    || (x + 1 < |s| && s[x + 1] != SB)
    || (x + 2 < |s| && !MarkerOption(mode, s[x + 2]))
    || (x + 3 < |s| && s[x + 3] != IAC)
    || (x + 4 < |s| && s[x + 4] != SE)
  }

  /** That is so of all positions from `lo` up to `hi`. */
  ghost predicate NeverIn(mode: Mode, s: Bytes, lo: nat, hi: nat)
    requires hi <= |s|
  {
    forall x :: lo <= x < hi ==> NeverMarker(mode, s, x)
  }

  /** The alternatives that are start markers. */
  predicate MarkerAlt(mode: Mode, k: nat) {
    (mode == Ignore && 3 <= k < 6) || (mode == Enable && k == 4)
  }

  lemma NeverLater(mode: Mode, a: Bytes, s: Bytes, b: Bytes, x: nat)
    requires x < |s| && NeverMarker(mode, s, x)
    ensures NeverMarker(mode, a + s + b, |a| + x) && !MarkerAt(mode, a + s + b, |a| + x)
  {
    var t := a + s + b;
    assert t[|a| + x] == s[x];
    assert x + 1 < |s| ==> t[|a| + x + 1] == s[x + 1];
    assert x + 2 < |s| ==> t[|a| + x + 2] == s[x + 2];
    assert x + 3 < |s| ==> t[|a| + x + 3] == s[x + 3];
    assert x + 4 < |s| ==> t[|a| + x + 4] == s[x + 4];
  }

  lemma MarkerShift(mode: Mode, a: Bytes, s: Bytes, n: nat)
    ensures MarkerAt(mode, a + s, |a| + n) <==> MarkerAt(mode, s, n)
    ensures MarkerAt(mode, a, n) ==> MarkerAt(mode, a + s, n)
    ensures n + 5 <= |a| ==> (MarkerAt(mode, a, n) <==> MarkerAt(mode, a + s, n))
  {
  }

  // ---- Markers and the search ----

  /** Where no pattern can match, no start marker begins. */
  lemma RuledOutNever(mode: Mode, s: Bytes, x: nat)
    requires mode != Disable && x < |s| && RuledOut(GameLiterals(mode), s, x, |GameLiterals(mode)|)
    ensures NeverMarker(mode, s, x)
  {
    var ps := GameLiterals(mode);
    if !NeverMarker(mode, s, x) {
      var k: nat := if mode == Enable then 4
        else if x + 2 < |s| && s[x + 2] == MCCP2 then 4
        else if x + 2 < |s| && s[x + 2] == MCCP3 then 5 else 3;
      var opt := if mode == Enable then MCCP2 else if k == 4 then MCCP2 else if k == 5 then MCCP3 else MCCP;
      assert ps[k] == [IAC, SB, opt, IAC, SE];
      assert x + 5 <= |s| ==> Fits(ps[k], s, x);
      assert |s| < x + 5 ==> RunsOff(ps[k], s, x);
    }
  }

  /** No start marker begins inside a match, nor at its start unless the match is one. */
  lemma MatchNever(mode: Mode, s: Bytes, at: nat, k: nat, x: nat)
    requires mode != Disable && k < |GameLiterals(mode)| && Fits(GameLiterals(mode)[k], s, at)
    requires at <= x < at + |GameLiterals(mode)[k]|
    ensures if x == at && MarkerAlt(mode, k) then MarkerAt(mode, s, at) else NeverMarker(mode, s, x)
  {
    var p := GameLiterals(mode)[k];
    assert p[x - at] == s[at + (x - at)];
    assert p[0] == s[at + 0] && p[1] == s[at + 1] && p[2] == s[at + 2];
    assert |p| > 3 ==> p[3] == s[at + 3];
    assert |p| > 4 ==> p[4] == s[at + 4];
    assert |p| > 5 ==> p[5] == s[at + 5];
  }

  /** A pending partial match holds no whole start marker. */
  lemma PartialNever(mode: Mode, s: Bytes, at: nat, k: nat, x: nat)
    requires mode != Disable && k < |GameLiterals(mode)| && RunsOff(GameLiterals(mode)[k], s, at) && x >= at
    ensures !MarkerAt(mode, s, x)
  {
    var p := GameLiterals(mode)[k];
    assert |p| <= 6 && (|p| == 6 ==> k == 0);
    assert at + 2 < |s| ==> p[2] == s[at + 2];
  }

  /** What the outcome of a search tells of the start markers in the buffer. */
  ghost predicate Tells(mode: Mode, s: Bytes, v: Verdict) {
    match v
    case NoMatch => NeverIn(mode, s, 0, |s|)
    case Partial(at) => at <= |s| && NeverIn(mode, s, 0, at) && NoMarker(mode, s)
    case Match(at, k, len) =>
      && at + len <= |s| && NeverIn(mode, s, 0, at) && NeverIn(mode, s, at + 1, at + len)
      && if MarkerAlt(mode, k) then len == 5 && MarkerAt(mode, s, at) else len > 0 && NeverMarker(mode, s, at)
  }

  lemma SearchMarkers(mode: Mode, s: Bytes)
    requires mode != Disable
    ensures Tells(mode, s, Scan(GameLiterals(mode), s, 0))
  {
    hide Scan, Decide;
    var ps := GameLiterals(mode);
    ScanMeaning(ps, s, 0);
    hide GameLiterals, RuledOut, NeverMarker, Fits, RunsOff;
    match Scan(ps, s, 0)
    case NoMatch => RuledOutIn(mode, s, |s|);
    case Partial(at) =>
      RuledOutIn(mode, s, at);
      var k :| 0 <= k < |ps| && RunsOff(ps[k], s, at);
      forall x: nat ensures !MarkerAt(mode, s, x) {
        if x < at {
          NeverIsNot(mode, s, x);
        } else {
          PartialNever(mode, s, at, k, x);
        }
      }
    case Match(at, k, len) =>
      RuledOutIn(mode, s, at);
      MatchFits(ps, s, at, k);
      PatternLength(mode, k);
      forall x | at + 1 <= x < at + len ensures NeverMarker(mode, s, x) {
        MatchNever(mode, s, at, k, x);
      }
      MatchNever(mode, s, at, k, at);
  }

  lemma RuledOutIn(mode: Mode, s: Bytes, n: nat)
    requires mode != Disable && n <= |s|
    requires forall x :: 0 <= x < n ==> RuledOut(GameLiterals(mode), s, x, |GameLiterals(mode)|)
    ensures NeverIn(mode, s, 0, n)
  {
    hide GameLiterals, RuledOut, NeverMarker;
    forall x | 0 <= x < n ensures NeverMarker(mode, s, x) {
      RuledOutNever(mode, s, x);
    }
  }

  lemma MatchFits(ps: seq<Bytes>, s: Bytes, at: nat, k: nat)
    requires k < |ps| && Fits(ps[k], s, at)
    ensures at + |ps[k]| <= |s|
  {
  }

  lemma PatternLength(mode: Mode, k: nat)
    requires k < |GameLiterals(mode)|
    ensures |GameLiterals(mode)[k]| > 0
    ensures MarkerAlt(mode, k) ==> |GameLiterals(mode)[k]| == 5
  {
  }

  lemma NeverIsNot(mode: Mode, s: Bytes, x: nat)
    requires x < |s| && NeverMarker(mode, s, x)
    ensures !MarkerAt(mode, s, x)
  {
  }

  // ---- One read ----

  /** How often the game's side has met a start marker; in ignore mode, whether. */
  function Marked(mode: Mode, p: Peer): nat {
    if mode == Ignore then if p.matching then 0 else 1 else p.starts
  }

  lemma ActMarks(cfg: Config, p: Pair, k: nat, m: Bytes)
    requires cfg.gameMode != Disable && p.from.matching && k < |GamePatterns(cfg.gameMode)|
    ensures var q := Act(cfg, GamePatterns(cfg.gameMode)[k].action, m, p).state;
      && Marked(cfg.gameMode, q.from) == Marked(cfg.gameMode, p.from) + (if MarkerAlt(cfg.gameMode, k) then 1 else 0)
      && (q.from.matching <==> !(cfg.gameMode == Ignore && MarkerAlt(cfg.gameMode, k)))
  {
    hide Reports;
    QueueKeeps(p.from, Reports(cfg, p.to.nego));
  }

  lemma MatchMarks(cfg: Config, p: Pair, buf: Bytes, at: nat, k: nat, len: nat)
    requires cfg.gameMode != Disable && p.from.matching
    requires at + len <= |buf| && k < |GamePatterns(cfg.gameMode)|
    ensures var q := AfterMatch(GameRules(cfg), p, buf, at, k, len);
      && Marked(cfg.gameMode, q.from) == Marked(cfg.gameMode, p.from) + (if MarkerAlt(cfg.gameMode, k) then 1 else 0)
      && (q.from.matching <==> !(cfg.gameMode == Ignore && MarkerAlt(cfg.gameMode, k)))
  {
    hide Act, Compiled, GamePatterns, Marked, MarkerAlt;
    var p1 := if at > 0 then GameRules(cfg).ship(p, buf[..at]) else p;
    ActMarks(cfg, p1, k, buf[at..at + len]);
  }

  /** With matching given up nothing changes any more. */
  lemma DrainOff(cfg: Config, p: Pair, buf: Bytes)
    requires !p.from.matching
    ensures Drain(GameRules(cfg), p, buf) == (p.(to := Write(p.to, buf, Relayed)), [])
  {
  }

  /** A read meets a start marker exactly if its buffer holds one; if it does not, none
      begins in what it has processed, and what it holds is the end of the buffer. */
  ghost predicate ReadMarks(mode: Mode, p: Peer, buf: Bytes, q: Peer, held: Bytes) {
    if Marked(mode, q) == Marked(mode, p) then
      && q.matching && |held| <= |buf| && held == buf[|buf| - |held|..]
      && NeverIn(mode, buf, 0, |buf| - |held|) && NoMarker(mode, buf)
    else Marked(mode, q) > Marked(mode, p) && !NoMarker(mode, buf)
  }

  lemma {:induction false} DrainMarks(cfg: Config, p: Pair, buf: Bytes)
    requires cfg.gameMode != Disable && p.from.matching
    ensures var (q, held) := Drain(GameRules(cfg), p, buf);
      ReadMarks(cfg.gameMode, p.from, buf, q.from, held)
    decreases |buf|
  {
    hide GameRules, AfterMatch, Scan, GameLiterals, GamePatterns, Marked, MarkerAlt, NeverMarker, MarkerAt;
    var mode, r := cfg.gameMode, GameRules(cfg);
    ShipKeepsMatching(cfg, p, buf);
    GameRulesLiterals(cfg);
    GameTableSize(cfg);
    SearchMarkers(mode, buf);
    match Search(r, p, buf)
    case NoMatch => AllNever(mode, buf);
    case Partial(_) =>
    case Match(at, k, len) =>
      var rest := buf[at + len..];
      var p1 := AfterMatch(r, p, buf, at, k, len);
      MatchMarks(cfg, p, buf, at, k, len);
      DrainRest(cfg, p, buf);
      var (q, held) := Drain(r, p1, rest);
      if MarkerAlt(mode, k) {
        if p1.from.matching {
          DrainMarks(cfg, p1, rest);
        } else {
          DrainOff(cfg, p1, rest);
        }
      } else {
        DrainMarks(cfg, p1, rest);
        RestMarks(mode, p.from, p1.from, buf, at, at + len, q.from, held);
      }
  }

  lemma DrainRest(cfg: Config, p: Pair, buf: Bytes)
    requires Search(GameRules(cfg), p, buf).Match?
    ensures var Match(at, k, len) := Search(GameRules(cfg), p, buf);
      Drain(GameRules(cfg), p, buf)
        == Drain(GameRules(cfg), AfterMatch(GameRules(cfg), p, buf, at, k, len), buf[at + len..])
  {
    hide AfterMatch, Scan, Compiled;
    var r := GameRules(cfg);
    var Match(at, k, len) := Search(r, p, buf);
    GameRulesLawful(cfg);
    DrainNothing(r, AfterMatch(r, p, buf, at, k, len));
  }

  lemma GameRulesLawful(cfg: Config)
    ensures Lawful(GameRules(cfg))
  {
    RulesLawful(cfg, GamePatterns(cfg.gameMode));
  }

  lemma AllNever(mode: Mode, s: Bytes)
    requires NeverIn(mode, s, 0, |s|)
    ensures NoMarker(mode, s)
  {
    forall x: nat ensures !MarkerAt(mode, s, x) {
      if x < |s| {
        NeverIsNot(mode, s, x);
      }
    }
  }

  lemma RestNever(mode: Mode, buf: Bytes, at: nat, n: nat, m: nat)
    requires at < n <= |buf| && NeverIn(mode, buf, 0, at) && NeverIn(mode, buf, at + 1, n) && NeverMarker(mode, buf, at)
    requires m <= |buf[n..]| && NeverIn(mode, buf[n..], 0, m)
    ensures NeverIn(mode, buf, 0, n + m)
  {
    hide NeverMarker, MarkerAt;
    var a, rest := buf[..n], buf[n..];
    assert buf == a + rest + [];
    forall x | 0 <= x < n + m ensures NeverMarker(mode, buf, x) {
      if x >= n {
        NeverLater(mode, a, rest, [], x - n);
      }
    }
  }

  lemma RestNone(mode: Mode, buf: Bytes, n: nat)
    requires n <= |buf| && NeverIn(mode, buf, 0, n)
    ensures NoMarker(mode, buf) <==> NoMarker(mode, buf[n..])
  {
    hide NeverMarker, MarkerAt;
    var a, rest := buf[..n], buf[n..];
    assert buf == a + rest;
    forall x: nat ensures MarkerAt(mode, rest, x) <==> MarkerAt(mode, buf, n + x) {
      MarkerShift(mode, a, rest, x);
    }
    forall x: nat ensures x < n ==> !MarkerAt(mode, buf, x) {
      if x < n {
        NeverIsNot(mode, buf, x);
      }
    }
    if !NoMarker(mode, buf) {
      var x: nat :| MarkerAt(mode, buf, x);
      assert MarkerAt(mode, buf, n + (x - n));
      assert MarkerAt(mode, rest, x - n);
    }
  }

  /** What holds of the rest of a buffer holds of the buffer, if no start marker begins
      in the part before. */
  lemma RestMarks(mode: Mode, p: Peer, p1: Peer, buf: Bytes, at: nat, n: nat, q: Peer, held: Bytes)
    requires at < n <= |buf| && NeverIn(mode, buf, 0, at) && NeverIn(mode, buf, at + 1, n) && NeverMarker(mode, buf, at)
    requires Marked(mode, p1) == Marked(mode, p)
    requires ReadMarks(mode, p1, buf[n..], q, held)
    ensures ReadMarks(mode, p, buf, q, held)
  {
    hide Marked, NeverMarker, NoMarker, NeverIn;
    NothingIn(mode, buf[n..]);
    RestNever(mode, buf, at, n, 0);
    RestNone(mode, buf, n);
    if Marked(mode, q) == Marked(mode, p) {
      RestNever(mode, buf, at, n, |buf[n..]| - |held|);
      assert buf[n..][|buf[n..]| - |held|..] == buf[|buf| - |held|..];
    }
  }

  lemma NothingIn(mode: Mode, s: Bytes)
    ensures NeverIn(mode, s, 0, 0)
  {
  }

  lemma ShipKeepsMatching(cfg: Config, p: Pair, buf: Bytes)
    ensures GameRules(cfg).ship(p, buf).from == p.from
    ensures GameRules(cfg).live(p) == p.from.matching
  {
  }

  /** With matching given up, a read is forwarded as it is. */
  lemma DrainTransparent(cfg: Config, p: Pair, buf: Bytes)
    requires !p.from.matching
    ensures var (q, held) := Drain(GameRules(cfg), p, buf);
      && held == [] && q.from == p.from && OnlySent(p.to, q.to)
      && RelayedTo(q.to) == RelayedTo(p.to) + buf
  {
    hide Only;
    WriteOnly(p.to, buf, Relayed);
  }

  /** Nothing brings matching back, and every later byte from the game is forwarded
      in order, whatever else happens. */
  lemma {:induction false} IgnoredForEver(cfg: Config, s: Session, steps: seq<Step>)
    requires Sound(cfg, s.client, s.game)
    requires !s.game.matching && s.gameBuf == []
    ensures var t := RunFrom(cfg, s, steps);
      && Sound(cfg, t.client, t.game)
      && !t.game.matching && t.gameBuf == []
      && RelayedTo(t.client) == RelayedTo(s.client) + GameStream(steps)
    decreases |steps|
  {
    hide Sound, Only;
    if steps == [] {
      assert RelayedTo(s.client) + [] == RelayedTo(s.client);
    } else {
      var before, last := steps[..|steps| - 1], steps[|steps| - 1];
      IgnoredForEver(cfg, s, before);
      var t := RunFrom(cfg, s, before);
      NextSound(cfg, t, last);
      TransparentStep(cfg, t, last);
    }
  }

  lemma TransparentStep(cfg: Config, s: Session, step: Step)
    requires Sound(cfg, s.client, s.game)
    requires !s.game.matching && s.gameBuf == []
    ensures var t := Next(cfg, s, step);
      && !t.game.matching && t.gameBuf == []
      && RelayedTo(t.client) == RelayedTo(s.client) + if step.GameText? then step.text else []
  {
    hide Only, Sound;
    match step
    case LoopHead(now) =>
      HeadStep(cfg, s, now);
      HeadClient(cfg, s, now);
    case ClientText(text) =>
      hide Drain, Journal, Says;
      ClientTextEffect(cfg, Pair(s.client, s.game), s.clientBuf + text);
    case GameText(text) =>
      assert [] + text == text;
      DrainTransparent(cfg, Pair(s.game, s.client), text);
  }

  lemma HeadClient(cfg: Config, s: Session, now: Time)
    ensures Next(cfg, s, LoopHead(now)).client.sent == s.client.sent
    ensures Next(cfg, s, LoopHead(now)).gameBuf == s.gameBuf
  {
  }

  // ---- A whole run ----

  lemma GameUntouched(cfg: Config, s: Session, step: Step)
    requires Sound(cfg, s.client, s.game) && !step.GameText?
    ensures var t := Next(cfg, s, step); OnlySent(s.game, t.game) && t.gameBuf == s.gameBuf
  {
    hide Only, Sound;
    match step
    case LoopHead(now) =>
      HeadStep(cfg, s, now);
      HeadClient(cfg, s, now);
    case ClientText(text) =>
      hide Drain, Journal, Says;
      ClientTextEffect(cfg, Pair(s.client, s.game), s.clientBuf + text);
  }

  /** A stream that has met no start marker so far, continued by another read. */
  lemma MoreText(mode: Mode, p: Peer, stream: Bytes, q: Peer, held: Bytes, text: Bytes, t: Peer, held': Bytes)
    requires ReadMarks(mode, p, stream, q, held) && Marked(mode, q) == Marked(mode, p)
    requires ReadMarks(mode, q, held + text, t, held')
    ensures ReadMarks(mode, p, stream + text, t, held')
  {
    hide Marked, NeverMarker, MarkerAt;
    var n := |stream| - |held|;
    var a, buf := stream[..n], held + text;
    assert stream + text == a + buf;
    assert (stream + text)[n..] == buf;
    forall x | 0 <= x < n ensures NeverMarker(mode, stream + text, x) {
      assert [] + stream + text == stream + text;
      NeverLater(mode, [], stream, text, x);
    }
    RestNone(mode, stream + text, n);
    if Marked(mode, t) == Marked(mode, q) {
      var m := |buf| - |held'|;
      assert (stream + text)[n + m..] == buf[m..];
      forall x | 0 <= x < n + m ensures NeverMarker(mode, stream + text, x) {
        if x >= n {
          assert a + buf + [] == stream + text;
          NeverLater(mode, a, buf, [], x - n);
        }
      }
    }
  }

  lemma MarkerStays(mode: Mode, stream: Bytes, text: Bytes)
    requires !NoMarker(mode, stream)
    ensures !NoMarker(mode, stream + text)
  {
    var x: nat :| MarkerAt(mode, stream, x);
    MarkerShift(mode, stream, text, x);
  }

  lemma DrainOnward(cfg: Config, p: Pair, buf: Bytes)
    requires cfg.gameMode != Disable && (cfg.gameMode == Enable ==> p.from.matching)
    ensures Marked(cfg.gameMode, Drain(GameRules(cfg), p, buf).0.from) >= Marked(cfg.gameMode, p.from)
  {
    hide Drain;
    if p.from.matching {
      DrainMarks(cfg, p, buf);
    } else {
      DrainOff(cfg, p, buf);
    }
  }

  lemma NothingMarked(mode: Mode, p: Peer)
    requires p.matching
    ensures ReadMarks(mode, p, [], p, [])
  {
  }

  lemma SameMarks(mode: Mode, p: Peer, q: Peer)
    requires OnlySent(p, q)
    ensures Marked(mode, q) == Marked(mode, p) && q.matching == p.matching
  {
  }

  /** From any session with nothing held: what the game has sent since then decides. */
  lemma {:induction false} RunMarks(cfg: Config, s: Session, steps: seq<Step>)
    requires cfg.gameMode != Disable && Sound(cfg, s.client, s.game)
    requires s.game.matching && s.gameBuf == []
    ensures var t := RunFrom(cfg, s, steps);
      && Sound(cfg, t.client, t.game)
      && ReadMarks(cfg.gameMode, s.game, GameStream(steps), t.game, t.gameBuf)
    decreases |steps|
  {
    hide Sound, Marked, ReadMarks;
    var mode := cfg.gameMode;
    if steps == [] {
      NothingMarked(mode, s.game);
    } else {
      var before, last := steps[..|steps| - 1], steps[|steps| - 1];
      RunMarks(cfg, s, before);
      var t := RunFrom(cfg, s, before);
      NextSound(cfg, t, last);
      if last.GameText? {
        RunMarksMore(cfg, s, t, GameStream(before), last.text);
      } else {
        hide Next;
        GameUntouched(cfg, t, last);
        RunMarksSame(mode, s.game, GameStream(before), t.game, t.gameBuf, Next(cfg, t, last).game);
        assert GameStream(before) + [] == GameStream(before);
      }
    }
  }

  lemma RunMarksSame(mode: Mode, p: Peer, stream: Bytes, q: Peer, held: Bytes, t: Peer)
    requires ReadMarks(mode, p, stream, q, held) && OnlySent(q, t)
    ensures ReadMarks(mode, p, stream, t, held)
  {
    hide Marked, NeverIn, NoMarker;
    SameMarks(mode, q, t);
  }

  lemma RunMarksMore(cfg: Config, s: Session, t: Session, stream: Bytes, text: Bytes)
    requires cfg.gameMode != Disable && Sound(cfg, t.client, t.game)
    requires ReadMarks(cfg.gameMode, s.game, stream, t.game, t.gameBuf)
    ensures var u := Next(cfg, t, GameText(text));
      ReadMarks(cfg.gameMode, s.game, stream + text, u.game, u.gameBuf)
  {
    hide Marked, NeverIn, NoMarker, Drain;
    var mode, p, buf := cfg.gameMode, Pair(t.game, t.client), t.gameBuf + text;
    var (q, held) := Drain(GameRules(cfg), p, buf);
    if Marked(mode, t.game) == Marked(mode, s.game) {
      DrainMarks(cfg, p, buf);
      MoreText(mode, s.game, stream, t.game, t.gameBuf, text, q.from, held);
    } else {
      DrainOnward(cfg, p, buf);
      MarkerStays(mode, stream, text);
    }
  }

  /** Over every run, however the game's stream is cut and whatever the client does in
      between: in ignore mode the game's side has given up matching exactly if the game
      has sent a start marker, and in enable mode it decompresses exactly then. */
  lemma MarkerDecides(cfg: Config, steps: seq<Step>)
    ensures var s := Run(cfg, steps);
      && (!s.game.matching <==> cfg.gameMode == Ignore && !NoMarker(Ignore, GameStream(steps)))
      && (s.game.starts > 0 <==> cfg.gameMode == Enable && !NoMarker(Enable, GameStream(steps)))
  {
    hide NoMarker;
    RunSound(cfg, steps);
    if cfg.gameMode != Disable {
      StartSound(cfg);
      StartMatches(cfg);
      RunMarks(cfg, Start(cfg), steps);
    }
  }

  lemma StartMatches(cfg: Config)
    ensures var s := Start(cfg); s.game.matching && s.game.starts == 0 && s.gameBuf == []
  {
    FormatKeeps(NewPeer(), Environ.MnesPair(Environ.IPADDRESS, cfg.address));
  }

  // ---- The first marker ----

  /** How many bytes of a start marker are forwarded: in ignore mode all of them. */
  function Let(mode: Mode, marker: Bytes): Bytes {
    if mode == Ignore then marker else []
  }

  /** The state `q` right behind the first start marker of the buffer, at `n`: the text
      before it has been taken apart as `j` says, the marker itself has been forwarded
      or not as the mode demands, and from there on nothing has happened yet. */
  ghost predicate Behind(cfg: Config, p: Pair, buf: Bytes, n: nat, j: seq<Entry>, q: Pair) {
    && n + 5 <= |buf|
    && Sound(cfg, q.to, q.from)
    && Consumed(j) == buf[..n]
    && j <= Journal(GameRules(cfg), p, buf)
    && RelayedTo(q.to) == RelayedTo(p.to) + Passed(j) + Let(cfg.gameMode, buf[n..n + 5])
    && Marked(cfg.gameMode, q.from) == Marked(cfg.gameMode, p.from) + 1
    && (q.from.matching <==> cfg.gameMode == Enable)
    && Drain(GameRules(cfg), p, buf) == Drain(GameRules(cfg), q, buf[n + 5..])
  }

  lemma FirstShift(mode: Mode, buf: Bytes, n: nat, m: nat)
    requires m <= n && m <= |buf| && FirstMarker(mode, buf, n)
    ensures FirstMarker(mode, buf[m..], n - m)
  {
    hide MarkerAt;
    var a, rest := buf[..m], buf[m..];
    assert buf == a + rest;
    MarkerShift(mode, a, rest, n - m);
    forall x: nat | x < n - m ensures !MarkerAt(mode, rest, x) {
      MarkerShift(mode, a, rest, x);
      assert !MarkerAt(mode, buf, m + x);
    }
  }

  /** A match before the first start marker ends before it; a match at it is it. */
  lemma FirstMatch(mode: Mode, buf: Bytes, n: nat, v: Verdict)
    requires Tells(mode, buf, v) && FirstMarker(mode, buf, n)
    ensures v.Match?
    ensures if MarkerAlt(mode, v.alt) then v.at == n && v.len == 5 else v.at + v.len <= n
  {
    hide MarkerAt, NeverMarker;
    assert n + 5 <= |buf| by { MarkerFits(mode, buf, n); }
    if v.NoMatch? {
      NeverIsNot(mode, buf, n);
    } else if v.Match? {
      if n < v.at + v.len && n != v.at {
        NeverIsNot(mode, buf, n);
      }
      if !MarkerAlt(mode, v.alt) {
        NeverIsNot(mode, buf, v.at);
      }
    }
  }

  lemma MarkerFits(mode: Mode, buf: Bytes, n: nat)
    requires MarkerAt(mode, buf, n)
    ensures n + 5 <= |buf|
  {
  }

  lemma JournalRest(cfg: Config, p: Pair, buf: Bytes)
    requires Search(GameRules(cfg), p, buf).Match?
    ensures var r := GameRules(cfg);
      var Match(at, k, len) := Search(r, p, buf);
      var here := [Text(buf[..at]), MatchEntry(r, p, buf, at, k, len)];
      Journal(r, p, buf)
        == if |buf[at + len..]| > 0 then here + Journal(r, AfterMatch(r, p, buf, at, k, len), buf[at + len..]) else here
  {
    hide AfterMatch, MatchEntry, GameRules, Scan;
  }

  /** The start marker itself, at the head of what is left of the buffer. */
  lemma MarkerMet(cfg: Config, p: Pair, buf: Bytes, at: nat, k: nat, len: nat)
    requires Sound(cfg, p.to, p.from) && p.from.matching && MarkerAlt(cfg.gameMode, k)
    requires at + len <= |buf| && k < |GamePatterns(cfg.gameMode)|
    ensures var q := AfterMatch(GameRules(cfg), p, buf, at, k, len);
      && Sound(cfg, q.to, q.from)
      && RelayedTo(q.to) == RelayedTo(p.to) + buf[..at] + Let(cfg.gameMode, buf[at..at + len])
  {
    hide Only, Compiled;
    var r := GameRules(cfg);
    var p1 := if at > 0 then r.ship(p, buf[..at]) else p;
    WriteOnly(p.to, buf[..at], Relayed);
    WriteOnly(p1.to, buf[at..at + len], Relayed);
    assert at == 0 ==> buf[..at] == [];
  }

  lemma {:induction false} ReadToMarker(cfg: Config, p: Pair, buf: Bytes, n: nat)
    returns (j: seq<Entry>, q: Pair)
    requires cfg.gameMode != Disable
    requires Sound(cfg, p.to, p.from) && p.from.matching && FirstMarker(cfg.gameMode, buf, n)
    ensures Behind(cfg, p, buf, n, j, q)
    decreases |buf|
  {
    hide Sound, GameRules, AfterMatch, MatchEntry, GameLiterals, GamePatterns, Only, Marked, FirstMarker;
    hide GameForwards, Scan, MarkerAlt, Consumed, Passed;
    var mode, r := cfg.gameMode, GameRules(cfg);
    ShipKeepsMatching(cfg, p, buf);
    GameRulesLiterals(cfg);
    GameTableSize(cfg);
    SearchMarkers(mode, buf);
    FirstMatch(mode, buf, n, Scan(GameLiterals(mode), buf, 0));
    var Match(at, k, len) := Search(r, p, buf);
    var rest := buf[at + len..];
    var p1 := AfterMatch(r, p, buf, at, k, len);
    var here := [Text(buf[..at]), MatchEntry(r, p, buf, at, k, len)];
    MatchMarks(cfg, p, buf, at, k, len);
    DrainRest(cfg, p, buf);
    JournalRest(cfg, p, buf);
    if MarkerAlt(mode, k) {
      j, q := [Text(buf[..at])], p1;
      ConsumedOne(Text(buf[..at]));
      PassedOne(Text(buf[..at]));
      MarkerMet(cfg, p, buf, at, k, len);
      assert j <= here;
    } else {
      GameMatchForwards(cfg, p, buf, at, k, len);
      GameForwardsSound(cfg, p, p1, here);
      FirstShift(mode, buf, n, at + len);
      var j1: seq<Entry>;
      j1, q := ReadToMarker(cfg, p1, rest, n - (at + len));
      j := here + j1;
      MatchEntryText(r, p, buf, at, k, len);
      ConsumedTwo(Text(buf[..at]), MatchEntry(r, p, buf, at, k, len));
      PassedAppend(here, j1);
      BehindRest(cfg, p, p1, buf, at, len, n, here, j1, q);
    }
  }

  lemma BehindRest(cfg: Config, p: Pair, p1: Pair, buf: Bytes, at: nat, len: nat, n: nat,
                   here: seq<Entry>, j1: seq<Entry>, q: Pair)
    requires at + len <= n <= |buf| && Behind(cfg, p1, buf[at + len..], n - (at + len), j1, q)
    requires Consumed(here) == buf[..at] + buf[at..at + len]
    requires Consumed(here + j1) == Consumed(here) + Consumed(j1) && Passed(here + j1) == Passed(here) + Passed(j1)
    requires RelayedTo(p1.to) == RelayedTo(p.to) + Passed(here)
    requires Marked(cfg.gameMode, p1.from) == Marked(cfg.gameMode, p.from)
    requires Drain(GameRules(cfg), p, buf) == Drain(GameRules(cfg), p1, buf[at + len..])
    requires Journal(GameRules(cfg), p, buf) == here + Journal(GameRules(cfg), p1, buf[at + len..])
    ensures Behind(cfg, p, buf, n, here + j1, q)
  {
    hide Only, Drain, Journal, GameRules, Sound, Consumed, Passed, Marked, Let;
    var rest, m := buf[at + len..], n - (at + len);
    assert buf[..n] == buf[..at] + buf[at..at + len] + rest[..m];
    assert rest[m..m + 5] == buf[n..n + 5] && rest[m + 5..] == buf[n + 5..];
    assert RelayedTo(p.to) + Passed(here) + Passed(j1) == RelayedTo(p.to) + (Passed(here) + Passed(j1));
  }

  /** Read number `i` completes the start marker at `n` of the game's stream; `j` is all
      that has become of the stream before the marker, and `q` the state right behind
      the marker, from where on the rest of that read is processed. */
  ghost predicate Completes(cfg: Config, steps: seq<Step>, n: nat, i: nat, j: seq<Entry>, q: Pair) {
    && i < |steps| && steps[i].GameText?
    && var s, t := Run(cfg, steps[..i]), Run(cfg, steps[..i + 1]);
       var heard := GameStream(steps[..i + 1]);
       && Sound(cfg, q.to, q.from)
       && |GameStream(steps[..i])| < n + 5 <= |heard|
       && Marked(cfg.gameMode, s.game) == 0 && Marked(cfg.gameMode, q.from) == 1
       && (q.from.matching <==> cfg.gameMode == Enable)
       && Consumed(j) == heard[..n] && j <= GameLog(cfg, steps[..i + 1])
       && RelayedTo(q.to) == Passed(j) + Let(cfg.gameMode, heard[n..n + 5])
       && (Pair(t.game, t.client), t.gameBuf) == Drain(GameRules(cfg), q, heard[n + 5..])
  }

  lemma {:induction false} StreamGrows(steps: seq<Step>, i: nat)
    requires i <= |steps|
    ensures GameStream(steps[..i]) <= GameStream(steps)
    decreases |steps|
  {
    if i == |steps| {
      assert steps[..i] == steps;
    } else {
      var before := steps[..|steps| - 1];
      StreamGrows(before, i);
      assert before[..i] == steps[..i];
    }
  }

  lemma FirstInPrefix(mode: Mode, a: Bytes, s: Bytes, n: nat)
    requires a <= s && FirstMarker(mode, s, n)
    ensures n + 5 <= |a| ==> FirstMarker(mode, a, n)
    ensures |a| < n + 5 ==> NoMarker(mode, a)
  {
    hide MarkerAt;
    var b := s[|a|..];
    assert s == a + b;
    forall x: nat ensures MarkerAt(mode, a, x) ==> MarkerAt(mode, s, x) && x + 5 <= |a| {
      MarkerShift(mode, a, b, x);
      if MarkerAt(mode, a, x) {
        MarkerFits(mode, a, x);
      }
    }
    MarkerShift(mode, a, b, n);
  }

  /** The first start marker of the stream is the first one in the buffer of the read
      that completes it. */
  lemma FirstInBuffer(mode: Mode, p: Peer, stream: Bytes, q: Peer, held: Bytes, text: Bytes, n: nat)
    requires ReadMarks(mode, p, stream, q, held) && Marked(mode, q) == Marked(mode, p)
    requires FirstMarker(mode, stream + text, n)
    ensures |held| <= |stream| && |stream| - |held| <= n
    ensures FirstMarker(mode, held + text, n - (|stream| - |held|))
  {
    hide MarkerAt, NeverMarker, Marked;
    var c := |stream| - |held|;
    if n < c {
      assert [] + stream + text == stream + text;
      NeverLater(mode, [], stream, text, n);
    }
    FirstShift(mode, stream + text, n, c);
    assert (stream + text)[c..] == held + text;
  }

  lemma {:induction false} FirstReached(cfg: Config, steps: seq<Step>, n: nat)
    returns (i: nat, j: seq<Entry>, q: Pair)
    requires cfg.gameMode != Disable && FirstMarker(cfg.gameMode, GameStream(steps), n)
    ensures Completes(cfg, steps, n, i, j, q)
    decreases |steps|
  {
    hide FirstMarker, Completes, NoMarker, Behind, Next, Sound, Drain, Marked, ReadMarks;
    var mode := cfg.gameMode;
    assert steps != [] by { NoneInNothing(mode, n); }
    var before, last := steps[..|steps| - 1], steps[|steps| - 1];
    assert steps[..|before|] == before && steps[..|steps|] == steps;
    StreamGrows(steps, |before|);
    FirstInPrefix(mode, GameStream(before), GameStream(steps), n);
    if n + 5 <= |GameStream(before)| {
      i, j, q := FirstReached(cfg, before, n);
      CompletesLater(cfg, before, last, n, i, j, q);
      assert before + [last] == steps;
    } else {
      i := |before|;
      FirstFits(mode, GameStream(steps), n);
      assert last.GameText? by { assert GameStream(before) + [] == GameStream(before); }
      StartSound(cfg);
      StartMatches(cfg);
      RunMarks(cfg, Start(cfg), before);
      var s := Run(cfg, before);
      RunSound(cfg, before);
      StillUnmarked(mode, Start(cfg).game, GameStream(before), s.game, s.gameBuf);
      FirstInBuffer(mode, Start(cfg).game, GameStream(before), s.game, s.gameBuf, last.text, n);
      var c := |GameStream(before)| - |s.gameBuf|;
      j, q := ReadToMarker(cfg, Pair(s.game, s.client), s.gameBuf + last.text, n - c);
      ReadCompletes(cfg, before, last.text, n, j, q);
      assert before + [GameText(last.text)] == steps;
      j := GameLog(cfg, before) + j;
    }
  }

  lemma NoneInNothing(mode: Mode, n: nat)
    ensures !FirstMarker(mode, GameStream([]), n)
  {
  }

  lemma FirstFits(mode: Mode, s: Bytes, n: nat)
    requires FirstMarker(mode, s, n)
    ensures n + 5 <= |s|
  {
  }

  lemma StillUnmarked(mode: Mode, p: Peer, stream: Bytes, q: Peer, held: Bytes)
    requires ReadMarks(mode, p, stream, q, held) && NoMarker(mode, stream)
    requires p.matching && p.starts == 0
    ensures Marked(mode, q) == Marked(mode, p) == 0 && q.matching
    ensures |held| <= |stream| && held == stream[|stream| - |held|..]
  {
  }

  lemma CompletesLater(cfg: Config, before: seq<Step>, last: Step, n: nat, i: nat, j: seq<Entry>, q: Pair)
    requires Completes(cfg, before, n, i, j, q)
    ensures Completes(cfg, before + [last], n, i, j, q)
  {
    hide Run, Drain, GameLog, Only, Sound;
    assert (before + [last])[..i] == before[..i] && (before + [last])[..i + 1] == before[..i + 1];
  }

  lemma ReadCompletes(cfg: Config, before: seq<Step>, text: Bytes, n: nat, j: seq<Entry>, q: Pair)
    requires cfg.gameMode != Disable
    requires var s := Run(cfg, before);
      && |s.gameBuf| <= |GameStream(before)| && s.gameBuf == GameStream(before)[|GameStream(before)| - |s.gameBuf|..]
      && var c := |GameStream(before)| - |s.gameBuf|;
         c <= n && |GameStream(before)| < n + 5 && Marked(cfg.gameMode, s.game) == 0
         && Behind(cfg, Pair(s.game, s.client), s.gameBuf + text, n - c, j, q)
    ensures Completes(cfg, before + [GameText(text)], n, |before|, GameLog(cfg, before) + j, q)
  {
    hide Only, Sound, Drain, Journal, Marked, Consumed, Passed, Let, GameRules, Run, GameLog, GameStream;
    var steps := before + [GameText(text)];
    var s := Run(cfg, before);
    var stream, held := GameStream(before), s.gameBuf;
    assert steps[..|before|] == before && steps[..|before| + 1] == steps;
    OrderAndConservation(cfg, before);
    PassedAppend(GameLog(cfg, before), j);
    ReadIsDrained(cfg, before, text);
    Slices(Consumed(GameLog(cfg, before)), stream, held, text, n);
    assert Passed(GameLog(cfg, before)) + Passed(j) == Passed(GameLog(cfg, before) + j);
  }

  lemma Slices(done: Bytes, stream: Bytes, held: Bytes, text: Bytes, n: nat)
    requires stream == done + held && |done| <= n && n + 5 <= |stream + text|
    ensures |done| == |stream| - |held| && |held + text| == |stream + text| - |done|
    ensures (stream + text)[..n] == done + (held + text)[..n - |done|]
    ensures (stream + text)[n..n + 5] == (held + text)[n - |done|..n - |done| + 5]
    ensures (stream + text)[n + 5..] == (held + text)[n - |done| + 5..]
  {
    assert stream + text == done + (held + text);
  }

  lemma ReadIsDrained(cfg: Config, before: seq<Step>, text: Bytes)
    ensures var s, t := Run(cfg, before), Run(cfg, before + [GameText(text)]);
      var p, buf := Pair(s.game, s.client), s.gameBuf + text;
      && (Pair(t.game, t.client), t.gameBuf) == Drain(GameRules(cfg), p, buf)
      && GameLog(cfg, before + [GameText(text)]) == GameLog(cfg, before) + Journal(GameRules(cfg), p, buf)
      && GameStream(before + [GameText(text)]) == GameStream(before) + text
  {
    hide Drain, Journal, GameRules;
    assert (before + [GameText(text)])[..|before|] == before;
  }

  // ---- What follows the first marker ----

  lemma {:induction false} LogGrows(cfg: Config, steps: seq<Step>, i: nat)
    requires i <= |steps|
    ensures GameLog(cfg, steps[..i]) <= GameLog(cfg, steps)
    decreases |steps|
  {
    hide GameJournal, Run;
    if i == |steps| {
      assert steps[..i] == steps;
    } else {
      var before := steps[..|steps| - 1];
      LogGrows(cfg, before, i);
      assert before[..i] == steps[..i];
    }
  }

  /** Ignore mode, over every run: from the first start marker on, wherever the game puts
      it and however it is cut, the marker and all the game ever sends reach the client
      unchanged and in order, and nothing is held. What came before it has become of as
      the log says. */
  lemma IgnoreIsTransparent(cfg: Config, steps: seq<Step>, n: nat) returns (j: seq<Entry>)
    requires cfg.gameMode == Ignore && FirstMarker(Ignore, GameStream(steps), n)
    ensures n <= |GameStream(steps)| && Consumed(j) == GameStream(steps)[..n] && j <= GameLog(cfg, steps)
    ensures var s := Run(cfg, steps);
      && RelayedTo(s.client) == Passed(j) + GameStream(steps)[n..]
      && s.gameBuf == [] && !s.game.matching
  {
    hide FirstMarker, NoMarker, Sound, Drain, Run, Only, Consumed, Passed, GameLog;
    var i: nat, q: Pair;
    i, j, q := FirstReached(cfg, steps, n);
    var heard := GameStream(steps[..i + 1]);
    var t := Run(cfg, steps[..i + 1]);
    StreamGrows(steps, i + 1);
    LogGrows(cfg, steps, i + 1);
    RunSound(cfg, steps[..i + 1]);
    DrainOff(cfg, q, heard[n + 5..]);
    WriteOnly(q.to, heard[n + 5..], Relayed);
    var later := steps[i + 1..];
    assert steps == steps[..i + 1] + later;
    StreamsAppend(steps[..i + 1], later);
    RunSplit(cfg, steps[..i + 1], later);
    IgnoredForEver(cfg, t, later);
    FromMarkerOn(Passed(j), heard, GameStream(later), n);
  }

  lemma FromMarkerOn(passed: Bytes, heard: Bytes, later: Bytes, n: nat)
    requires n + 5 <= |heard|
    ensures (heard + later)[..n] == heard[..n]
    ensures passed + heard[n..n + 5] + heard[n + 5..] + later == passed + (heard + later)[n..]
  {
    assert (heard + later)[n..] == heard[n..n + 5] + heard[n + 5..] + later;
  }

  lemma RunSplit(cfg: Config, before: seq<Step>, after: seq<Step>)
    ensures Run(cfg, before + after) == RunFrom(cfg, Run(cfg, before), after)
  {
    hide RunFrom;
    RunAppend(cfg, Start(cfg), before, after);
  }

  /** Some read of the game's side ended exactly `n` bytes into its stream. */
  ghost predicate EndsRead(steps: seq<Step>, n: nat) {
    exists i: nat :: i <= |steps| && |GameStream(steps[..i])| == n
  }

  /** The read that completes the first start marker ends with it exactly if some read
      does. */
  lemma EndsThere(steps: seq<Step>, i: nat, n: nat)
    requires i < |steps| && |GameStream(steps[..i])| < n <= |GameStream(steps[..i + 1])|
    ensures EndsRead(steps, n) <==> |GameStream(steps[..i + 1])| == n
  {
    hide GameStream;
    if EndsRead(steps, n) {
      var k: nat :| k <= |steps| && |GameStream(steps[..k])| == n;
      if k <= i {
        assert steps[..i][..k] == steps[..k];
        StreamGrows(steps[..i], k);
      } else {
        StreamGrows(steps[..k], i + 1);
        assert steps[..k][..i + 1] == steps[..i + 1];
      }
    } else {
      assert i + 1 <= |steps|;
    }
  }

  /** Enable mode, over every run: read number `i` completes the first start marker. What
      came before it has been forwarded as the log says, and the marker itself is not. The
      rest of that read, if there is one, goes on as text. If there is none, nothing is
      held, decompression has started once, and it is not started again exactly if no other
      marker follows in the text. */
  lemma CompressionStarts(cfg: Config, steps: seq<Step>, n: nat) returns (i: nat, j: seq<Entry>, q: Pair)
    requires cfg.gameMode == Enable && FirstMarker(Enable, GameStream(steps), n)
    ensures Completes(cfg, steps, n, i, j, q) && n + 5 <= |GameStream(steps)|
    ensures Consumed(j) == GameStream(steps)[..n] && j <= GameLog(cfg, steps)
    ensures Run(cfg, steps[..i]).game.starts == 0 && q.from.starts == 1 && RelayedTo(q.to) == Passed(j)
    ensures EndsRead(steps, n + 5) <==> |GameStream(steps[..i + 1])| == n + 5
    ensures EndsRead(steps, n + 5) ==>
      var t := Run(cfg, steps[..i + 1]);
      && Pair(t.game, t.client) == q && t.gameBuf == []
      && (Run(cfg, steps).game.starts == 1 <==> NoMarker(Enable, GameStream(steps)[n + 5..]))
  {
    hide FirstMarker, NoMarker, Sound, Drain, Run, Only, Consumed, Passed, GameLog, EndsRead, GameStream;
    i, j, q := FirstReached(cfg, steps, n);
    var heard := GameStream(steps[..i + 1]);
    StreamGrows(steps, i + 1);
    LogGrows(cfg, steps, i + 1);
    assert GameStream(steps)[..n] == heard[..n];
    EndsThere(steps, i, n + 5);
    assert Passed(j) + [] == Passed(j);
    if |heard| == n + 5 {
      assert heard[n + 5..] == [];
      GameRulesLawful(cfg);
      DrainNothing(GameRules(cfg), q);
      var t, later := Run(cfg, steps[..i + 1]), steps[i + 1..];
      RunSound(cfg, steps[..i + 1]);
      assert steps == steps[..i + 1] + later;
      StreamsAppend(steps[..i + 1], later);
      RunSplit(cfg, steps[..i + 1], later);
      RunMarks(cfg, t, later);
      assert GameStream(steps)[n + 5..] == GameStream(later);
    }
  }

  /** Wherever the first start marker ends with a read, the session in which decompression
      began is the one after that read. */
  lemma BeganThere(cfg: Config, steps: seq<Step>, n: nat, m: nat)
    requires cfg.gameMode == Enable && FirstMarker(Enable, GameStream(steps), n) && EndsRead(steps, n + 5)
    requires m < |steps| && Run(cfg, steps[..m]).game.starts == 0 && Run(cfg, steps[..m + 1]).game.starts > 0
    ensures n + 5 <= |GameStream(steps)| && GameStream(steps[..m + 1]) == GameStream(steps)[..n + 5]
  {
    hide FirstMarker, NoMarker, Run, GameStream, EndsRead;
    FirstFits(Enable, GameStream(steps), n);
    StreamGrows(steps, m);
    StreamGrows(steps, m + 1);
    MarkerDecides(cfg, steps[..m]);
    MarkerDecides(cfg, steps[..m + 1]);
    FirstInPrefix(Enable, GameStream(steps[..m]), GameStream(steps), n);
    FirstInPrefix(Enable, GameStream(steps[..m + 1]), GameStream(steps), n);
    if n + 5 <= |GameStream(steps[..m])| {
      FirstSome(Enable, GameStream(steps[..m]), n);
    }
    EndsThere(steps, m, n + 5);
  }

  lemma FirstSome(mode: Mode, s: Bytes, n: nat)
    requires FirstMarker(mode, s, n)
    ensures !NoMarker(mode, s)
  {
  }
}
