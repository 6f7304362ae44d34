/** What the game is forwarded depends on the client's stream alone: neither the way
    the stream is cut, nor anything the game sends in between, nor the fallback timer
    has any influence on it. */
module Interleaving {
  import opened Telnet
  import opened Matcher
  import opened Patterns
  import opened Rewriter
  import opened Handlers
  import opened Sessions
  import opened Negotiation
  import opened Runs
  import opened Wire
  import opened Tokens
  import Environ
  import Fallback

  /** The client's direction reduced to the text it forwards: of all its matches only
      WILL NEW-ENVIRON, alternative 1, is passed on. */
  function RelayRules(mode: Mode): Rules<Bytes> {
    Rules(
      ClientLiterals(mode),
      (out: Bytes) => true,
      (out: Bytes, data: Bytes) => out + data,
      (out: Bytes, k: nat, m: Bytes) => Reply(out, k != 1))
  }

  lemma RelayRulesLawful(mode: Mode)
    ensures Lawful(RelayRules(mode))
  {
    hide ClientLiterals, ClientPatterns, Compiled, ReadAlternatives, RegexText;
    var r := RelayRules(mode);
    ClientTableCompiles(mode);
    forall h: Bytes ensures WritesNothing(r, h) {
      assert h + [] == h;
    }
    forall h: Bytes, a: Bytes, b: Bytes ensures WritesJoin(r, h, a, b) {
      assert h + a + b == h + (a + b);
    }
    forall h: Bytes, a: Bytes ensures WritesQuietly(r, h, a) {
    }
  }

  // ---- The full rewriter forwards what the reduced one does ----

  lemma ClientEntryEaten(cfg: Config, p: Pair, buf: Bytes, at: nat, k: nat, len: nat)
    requires at + len <= |buf| && k < |ClientPatterns(cfg.clientMode)|
    ensures MatchEntry(ClientRules(cfg), p, buf, at, k, len).Eaten? <==> k != 1
  {
    hide Compiled, Flush, Format, Put, Queue, Reports;
  }

  lemma RelayMatch(cfg: Config, p: Pair, buf: Bytes, at: nat, k: nat, len: nat)
    requires Sound(cfg, p.from, p.to)
    requires at + len <= |buf| && k < |ClientPatterns(cfg.clientMode)|
    requires buf[at..at + len] == ClientRules(cfg).patterns[k]
    ensures var q := AfterMatch(ClientRules(cfg), p, buf, at, k, len);
      && Sound(cfg, q.from, q.to)
      && AfterMatch(RelayRules(cfg.clientMode), RelayedTo(p.to), buf, at, k, len) == RelayedTo(q.to)
  {
    hide Sound, Only, ClientRules, ClientPatterns, Says, MatchEntry;
    var e := MatchEntry(ClientRules(cfg), p, buf, at, k, len);
    ClientMatchEffect(cfg, p, buf, at, k, len);
    ClientEntryEaten(cfg, p, buf, at, k, len);
    MatchEntryText(ClientRules(cfg), p, buf, at, k, len);
    PassedTwo(buf[..at], e);
    var out := RelayedTo(p.to);
    assert at == 0 ==> out + buf[..at] == out;
    assert out + buf[..at] + [] == out + buf[..at];
    assert out + (buf[..at] + buf[at..at + len]) == out + buf[..at] + buf[at..at + len];
  }

  lemma ShipRelays(cfg: Config, p: Pair, buf: Bytes)
    ensures RelayedTo(ClientRules(cfg).ship(p, buf).to) == RelayedTo(p.to) + buf
  {
    hide Only;
    WriteOnly(p.to, buf, Relayed);
  }

  lemma SameSearch(cfg: Config, p: Pair, buf: Bytes)
    requires Sound(cfg, p.from, p.to)
    ensures RelayRules(cfg.clientMode).patterns == ClientRules(cfg).patterns
    ensures NonEmpty(RelayRules(cfg.clientMode).patterns)
    ensures Search(RelayRules(cfg.clientMode), RelayedTo(p.to), buf) == Search(ClientRules(cfg), p, buf)
  {
    hide Only, Compiled;
    ClientRulesLiterals(cfg);
    ClientTableCompiles(cfg.clientMode);
  }

  lemma {:induction false} DrainRelays(cfg: Config, p: Pair, buf: Bytes)
    requires Sound(cfg, p.from, p.to)
    ensures NonEmpty(RelayRules(cfg.clientMode).patterns)
    ensures var (q, held) := Drain(ClientRules(cfg), p, buf);
      Drain(RelayRules(cfg.clientMode), RelayedTo(p.to), buf) == (RelayedTo(q.to), held)
    decreases |buf|
  {
    hide Sound, ClientRules, ClientPatterns, Search, AfterMatch, RelayedTo;
    var r := ClientRules(cfg);
    SameSearch(cfg, p, buf);
    ClientTableSize(cfg);
    match Search(r, p, buf)
    case NoMatch => ShipRelays(cfg, p, buf);
    case Partial(_) =>
    case Match(at, k, len) =>
      RelayMatch(cfg, p, buf, at, k, len);
      if |buf[at + len..]| > 0 {
        DrainRelays(cfg, AfterMatch(r, p, buf, at, k, len), buf[at + len..]);
      }
  }

  // ---- Over a run ----

  /** The reads of the client's side. */
  function ClientChunks(steps: seq<Step>): seq<Bytes> {
    if steps == [] then []
    else
      var last := steps[|steps| - 1];
      ClientChunks(steps[..|steps| - 1]) + if last.ClientText? then [last.text] else []
  }

  lemma {:induction false} ChunksAreTheStream(steps: seq<Step>)
    ensures Concat(ClientChunks(steps)) == ClientStream(steps)
  {
    if steps != [] {
      var before, last := steps[..|steps| - 1], steps[|steps| - 1];
      ChunksAreTheStream(before);
      if last.ClientText? {
        ConcatSnoc(ClientChunks(before), last.text);
      } else {
        assert ClientChunks(before) + [] == ClientChunks(before);
      }
    }
  }

  lemma {:induction false} FeedSnoc<H>(r: Rules<H>, h: H, buf: Bytes, chunks: seq<Bytes>, last: Bytes)
    requires NonEmpty(r.patterns)
    ensures var (h1, b1) := Feed(r, h, buf, chunks);
      Feed(r, h, buf, chunks + [last]) == Drain(r, h1, b1 + last)
    decreases |chunks|
  {
    hide Drain;
    if chunks == [] {
      assert chunks + [last] == [last];
      assert [last][1..] == [];
    } else {
      var (h1, b1) := Drain(r, h, buf + chunks[0]);
      assert (chunks + [last])[1..] == chunks[1..] + [last];
      FeedSnoc(r, h1, b1, chunks[1..], last);
    }
  }

  lemma StepRelays(cfg: Config, s: Session, step: Step)
    requires Sound(cfg, s.client, s.game)
    ensures NonEmpty(RelayRules(cfg.clientMode).patterns)
    ensures var t := Next(cfg, s, step);
      (RelayedTo(t.game), t.clientBuf) ==
        if step.ClientText? then Drain(RelayRules(cfg.clientMode), RelayedTo(s.game), s.clientBuf + step.text)
        else (RelayedTo(s.game), s.clientBuf)
  {
    hide Sound, Drain, Journal, Only, ConfigOk;
    RelayRulesLawful(cfg.clientMode);
    match step
    case LoopHead(now) =>
      hide StepEffect;
      HeadRelays(cfg, s, now);
    case ClientText(text) =>
      DrainRelays(cfg, Pair(s.client, s.game), s.clientBuf + text);
    case GameText(text) =>
      GameRelaysNothingBack(cfg, Pair(s.game, s.client), s.gameBuf + text);
  }

  lemma HeadRelays(cfg: Config, s: Session, now: Fallback.Time)
    requires Sound(cfg, s.client, s.game)
    ensures var t := Next(cfg, s, LoopHead(now)); RelayedTo(t.game) == RelayedTo(s.game) && t.clientBuf == s.clientBuf
  {
    hide Only;
    FlushOnly(Put(s.game, WILL_MNES), WILL_MNES);
  }

  /** The game's own text adds nothing to what is forwarded to the game. */
  lemma GameRelaysNothingBack(cfg: Config, p: Pair, buf: Bytes)
    requires Sound(cfg, p.to, p.from)
    ensures RelayedTo(Drain(GameRules(cfg), p, buf).0.from) == RelayedTo(p.from)
  {
    hide Drain, Journal, RelayedTo, Asks, Passed;
    GameTextForwards(cfg, p, buf);
  }

  lemma {:induction false} RunFeeds(cfg: Config, steps: seq<Step>)
    ensures NonEmpty(RelayRules(cfg.clientMode).patterns)
    ensures var s := Run(cfg, steps);
      (RelayedTo(s.game), s.clientBuf) == Feed(RelayRules(cfg.clientMode), [], [], ClientChunks(steps))
    decreases |steps|
  {
    hide Next, RelayedTo, Drain;
    var r := RelayRules(cfg.clientMode);
    RelayRulesLawful(cfg.clientMode);
    if steps == [] {
      StartRelays(cfg);
    } else {
      var before, last := steps[..|steps| - 1], steps[|steps| - 1];
      RunFeeds(cfg, before);
      RunSound(cfg, before);
      StepRelays(cfg, Run(cfg, before), last);
      if last.ClientText? {
        FeedSnoc(r, [], [], ClientChunks(before), last.text);
      } else {
        assert ClientChunks(before) + [] == ClientChunks(before);
      }
    }
  }

  /** Over every run: up to the pending partial match, the text forwarded to the game is
      the one-shot rewriting of the client's whole stream. Two runs in which the client
      sends the same, cut in any two ways and mixed with anything else, forward the same. */
  lemma ClientStreamDecides(cfg: Config, steps: seq<Step>, others: seq<Step>)
    requires ClientStream(steps) == ClientStream(others)
    ensures NonEmpty(RelayRules(cfg.clientMode).patterns)
    ensures var r := RelayRules(cfg.clientMode);
      var s, t := Run(cfg, steps), Run(cfg, others);
      && Settle(r, (RelayedTo(s.game), s.clientBuf)) == OneShot(r, [], ClientStream(steps))
      && Settle(r, (RelayedTo(s.game), s.clientBuf)) == Settle(r, (RelayedTo(t.game), t.clientBuf))
  {
    hide Run, Feed, Settle, OneShot, RelayedTo;
    RelayRulesLawful(cfg.clientMode);
    RunFeeds(cfg, steps);
    RunFeeds(cfg, others);
    ChunksAreTheStream(steps);
    ChunksAreTheStream(others);
    ChunkingIndependence(RelayRules(cfg.clientMode), [], ClientChunks(steps), ClientChunks(others));
  }

  // ---- Command by command ----

  /** The commands that are forwarded: all that are no pattern, and WILL NEW-ENVIRON. */
  function Forwarded(mode: Mode, ts: seq<Token>): seq<Token> {
    if ts == [] then []
    else
      var i := Index(ClientLiterals(mode), Encode(ts[0]), 0);
      (if i == None || i == Some(1) then [ts[0]] else []) + Forwarded(mode, ts[1..])
  }

  lemma OneTokenRelayed(mode: Mode, out: Bytes, t: Token, rest: Bytes)
    requires WellFormed(t) && OptionsOnly(ClientLiterals(mode))
    ensures NonEmpty(ClientLiterals(mode))
    ensures OneShot(RelayRules(mode), out, Encode(t) + rest)
         == OneShot(RelayRules(mode), out + EncodeAll(Forwarded(mode, [t])), rest)
  {
    hide OneShot, Encode, Scan, Index;
    var r, s := RelayRules(mode), Encode(t) + rest;
    RelayRulesLawful(mode);
    assert [t][1..] == [];
    EncodeOne(t);
    EncodeNone();
    if Index(r.patterns, Encode(t), 0) == None {
      TokenSkipped(r.patterns, t, rest);
      ShipFirst(r, out, Encode(t), rest);
    } else {
      TokenFound(r.patterns, t, rest);
      OneShotMatch(r, out, s);
      assert s[0..|Encode(t)|] == Encode(t) && s[|Encode(t)|..] == rest;
      assert out + [] == out;
    }
  }

  lemma {:induction false} TokensRelayed(mode: Mode, out: Bytes, ts: seq<Token>)
    requires AllWellFormed(ts) && OptionsOnly(ClientLiterals(mode))
    ensures NonEmpty(ClientLiterals(mode))
    ensures OneShot(RelayRules(mode), out, EncodeAll(ts)) == (out + EncodeAll(Forwarded(mode, ts)), [])
    decreases |ts|
  {
    hide OneShot, Encode, Index, WellFormed, Forwarded, ClientLiterals;
    assert ts == [] ==> Forwarded(mode, ts) == [] by { NoneForwarded(mode); }
    RelayRulesLawful(mode);
    var r := RelayRules(mode);
    if ts == [] {
      OneShotNothing(r, out);
      assert out + [] == out;
    } else {
      var one := Forwarded(mode, [ts[0]]);
      OneTokenRelayed(mode, out, ts[0], EncodeAll(ts[1..]));
      TokensRelayed(mode, out + EncodeAll(one), ts[1..]);
      ForwardedFirst(mode, ts, out);
    }
  }

  lemma NoneForwarded(mode: Mode)
    ensures Forwarded(mode, []) == []
  {
  }

  lemma ForwardedFirst(mode: Mode, ts: seq<Token>, out: Bytes)
    requires ts != []
    ensures out + EncodeAll(Forwarded(mode, ts))
         == out + EncodeAll(Forwarded(mode, [ts[0]])) + EncodeAll(Forwarded(mode, ts[1..]))
  {
    hide Encode, Index, EncodeAll, ClientLiterals;
    var one, more := Forwarded(mode, [ts[0]]), Forwarded(mode, ts[1..]);
    assert [ts[0]][1..] == [];
    var i := Index(ClientLiterals(mode), Encode(ts[0]), 0);
    var first := if i == None || i == Some(1) then [ts[0]] else [];
    NoneForwarded(mode);
    assert one == first + Forwarded(mode, [ts[0]][1..]);
    assert first + [] == first;
    assert Forwarded(mode, ts) == one + more;
    EncodeAppend(one, more);
    assert out + EncodeAll(one) + EncodeAll(more) == out + (EncodeAll(one) + EncodeAll(more));
  }

  /** Over every run in which the client has sent whole commands: nothing is held, and the
      game has been forwarded exactly the commands that are to be forwarded. */
  lemma WholeCommands(cfg: Config, steps: seq<Step>, ts: seq<Token>)
    requires AllWellFormed(ts) && ClientStream(steps) == EncodeAll(ts)
    ensures var s := Run(cfg, steps);
      s.clientBuf == [] && RelayedTo(s.game) == EncodeAll(Forwarded(cfg.clientMode, ts))
  {
    hide Run, OneShot, RelayedTo, Scan, EncodeAll, Forwarded, WellFormed;
    ClientOptionsOnly(cfg);
    ClientStreamDecides(cfg, steps, steps);
    TokensRelayed(cfg.clientMode, [], ts);
    SettledNothingHeld(cfg.clientMode, RelayedTo(Run(cfg, steps).game), Run(cfg, steps).clientBuf);
    assert [] + EncodeAll(Forwarded(cfg.clientMode, ts)) == EncodeAll(Forwarded(cfg.clientMode, ts));
  }

  /** None of the patterns is anywhere in the text. */
  ghost predicate Spared(ps: seq<Bytes>, s: Bytes) {
    forall k, n: nat :: 0 <= k < |ps| ==> !Fits(ps[k], s, n)
  }

  lemma ScanSpares(ps: seq<Bytes>, s: Bytes)
    requires NonEmpty(ps) && Scan(ps, s, 0) == NoMatch
    ensures Spared(ps, s)
  {
    hide Scan;
    ScanMeaning(ps, s, 0);
    forall k, n: nat | 0 <= k < |ps| ensures !Fits(ps[k], s, n) {
      if n < |s| {
        assert RuledOut(ps, s, n, |ps|);
      } else {
        assert ps[k] != [];
      }
    }
  }

  lemma PrefixSpared(ps: seq<Bytes>, s: Bytes, t: Bytes)
    requires Spared(ps, t) && s <= t
    ensures Spared(ps, s)
  {
    forall k, n: nat | 0 <= k < |ps| ensures !Fits(ps[k], s, n) {
      assert !Fits(ps[k], t, n);
    }
  }

  ghost function Grown(base: seq<Frame>): Pair -> bool {
    (p: Pair) => base <= p.to.sent
  }

  lemma GrownInvariant(cfg: Config, base: seq<Frame>)
    ensures Invariant(ClientRules(cfg), Grown(base))
  {
    hide Compiled, ClientPatterns, Frames, Format;
    var r, inv := ClientRules(cfg), Grown(base);
    forall h: Pair, a: Bytes ensures KeptByShip(r, inv, h, a) {
    }
    forall h: Pair, k: nat | k < |r.patterns| ensures KeptByAct(r, inv, h, k) {
      FormatKeeps(h.to, Environ.MnesPair(Environ.COMPRESSION, Environ.TEXT_MCCP2));
      FormatKeeps(h.to, Environ.MnesPair(Environ.COMPRESSION, Environ.TEXT_NONE));
    }
  }

  /** More text from the client only adds to what the game has received. */
  lemma SentGrows(cfg: Config, steps: seq<Step>, text: Bytes)
    ensures var more := steps + [ClientText(text)];
      && ClientStream(more) == ClientStream(steps) + text
      && Run(cfg, steps).game.sent <= Run(cfg, more).game.sent
      && RelayedTo(Run(cfg, steps).game) <= RelayedTo(Run(cfg, more).game)
  {
    hide Drain, ClientRules, Only, Grown;
    var s, more := Run(cfg, steps), steps + [ClientText(text)];
    assert more[..|steps|] == steps;
    GrownInvariant(cfg, s.game.sent);
    GrownIs(s.game.sent, Pair(s.client, s.game));
    DrainKeeps(ClientRules(cfg), Grown(s.game.sent), Pair(s.client, s.game), s.clientBuf + text);
    var sent := Run(cfg, more).game.sent;
    GrownIs(s.game.sent, Drain(ClientRules(cfg), Pair(s.client, s.game), s.clientBuf + text).0);
    assert sent == s.game.sent + sent[|s.game.sent|..];
    OnlySplit(s.game.sent, sent[|s.game.sent|..], Relayed);
  }

  lemma GrownIs(base: seq<Frame>, p: Pair)
    ensures Grown(base)(p) <==> base <= p.to.sent
  {
  }

  /** At every moment of every run in which the client sends commands, whole or not yet
      complete: the game has been forwarded the beginning of the commands that are to be
      forwarded, all of them when the last is complete; and nowhere in it is there a WONT
      NEW-ENVIRON or, in disable mode, a DO for a version of MCCP. */
  lemma RunForwardsCommands(cfg: Config, steps: seq<Step>, ts: seq<Token>)
    requires AllWellFormed(ts) && ClientStream(steps) <= EncodeAll(ts)
    ensures var s := Run(cfg, steps);
      && RelayedTo(s.game) <= EncodeAll(Forwarded(cfg.clientMode, ts))
      && Spared(FORBIDDEN, RelayedTo(s.game))
      && (cfg.clientMode == Disable ==> Spared(FORBIDDEN_DISABLED, RelayedTo(s.game)))
      && (ClientStream(steps) == EncodeAll(ts) ==>
            s.clientBuf == [] && RelayedTo(s.game) == EncodeAll(Forwarded(cfg.clientMode, ts)))
  {
    hide Run, RelayedTo, Scan, EncodeAll, Forwarded, WellFormed, Spared, ClientStream;
    var rest := EncodeAll(ts)[|ClientStream(steps)|..];
    SentGrows(cfg, steps, rest);
    var later := steps + [ClientText(rest)];
    WholeCommands(cfg, later, ts);
    ForwardedAllowed(cfg.clientMode, ts);
    var whole := RelayedTo(Run(cfg, later).game);
    ScanSpares(FORBIDDEN, whole);
    PrefixSpared(FORBIDDEN, RelayedTo(Run(cfg, steps).game), whole);
    if cfg.clientMode == Disable {
      ScanSpares(FORBIDDEN_DISABLED, whole);
      PrefixSpared(FORBIDDEN_DISABLED, RelayedTo(Run(cfg, steps).game), whole);
    }
    if ClientStream(steps) == EncodeAll(ts) {
      WholeCommands(cfg, steps, ts);
    }
  }

  lemma SettledNothingHeld(mode: Mode, out: Bytes, held: Bytes)
    requires NonEmpty(RelayRules(mode).patterns)
    requires Settle(RelayRules(mode), (out, held)).1 == []
    ensures held == [] && Settle(RelayRules(mode), (out, held)).0 == out
  {
  }

  lemma {:induction false} ForwardedWellFormed(mode: Mode, ts: seq<Token>)
    requires AllWellFormed(ts)
    ensures AllWellFormed(Forwarded(mode, ts))
    ensures forall i :: 0 <= i < |Forwarded(mode, ts)| ==>
      var index := Index(ClientLiterals(mode), Encode(Forwarded(mode, ts)[i]), 0); index == None || index == Some(1)
  {
    hide WellFormed, Encode, Index, ClientLiterals;
    if ts != [] {
      ForwardedWellFormed(mode, ts[1..]);
    }
  }

  lemma ForwardedAllowed(mode: Mode, ts: seq<Token>)
    requires AllWellFormed(ts)
    ensures Scan(FORBIDDEN, EncodeAll(Forwarded(mode, ts)), 0) == NoMatch
    ensures mode == Disable ==> Scan(FORBIDDEN_DISABLED, EncodeAll(Forwarded(mode, ts)), 0) == NoMatch
  {
    var seen := Forwarded(mode, ts);
    ForwardedWellFormed(mode, ts);
    hide Forwarded, Encode, EncodeAll, Index, Scan;
    forall i | 0 <= i < |seen|
      ensures Index(FORBIDDEN, Encode(seen[i]), 0) == None
      ensures mode == Disable ==> Index(FORBIDDEN_DISABLED, Encode(seen[i]), 0) == None
    {
      ClientIndex(mode, seen[i]);
      NotForbidden(mode, seen[i]);
    }
    NoneInside(FORBIDDEN, seen);
    if mode == Disable {
      NoneInside(FORBIDDEN_DISABLED, seen);
    }
  }

  // ---- What the game receives, the proxy's own messages included ----

  /** The second bytes of the commands the game is to be spared. When its own side accepts
      compression, the proxy itself says DO. */
  predicate Banned(cfg: Config, b: byte) {
    b == WONT || (b == DO && cfg.clientMode == Disable && cfg.gameMode != Enable)
  }

  /** A text of commands none of which is banned. */
  ghost predicate Message(cfg: Config, text: Bytes) {
    && (text != [] ==> text[0] == IAC)
    && forall i :: 0 <= i < |text| && text[i] == IAC ==> i + 1 < |text| && !Banned(cfg, text[i + 1])
  }

  /** An injected byte at `x` begins with a command if what precedes it was relayed, and
      if it is an IAC, the command goes on and is not banned. */
  ghost predicate FramedAt(cfg: Config, fs: seq<Frame>, x: nat)
    requires x < |fs|
  {
    fs[x].origin == Injected ==>
      && (x == 0 || fs[x - 1].origin == Relayed ==> fs[x].b == IAC)
      && (fs[x].b == IAC ==> x + 1 < |fs| && fs[x + 1].origin == Injected && !Banned(cfg, fs[x + 1].b))
  }

  ghost predicate Framed(cfg: Config, fs: seq<Frame>) {
    forall x :: 0 <= x < |fs| ==> FramedAt(cfg, fs, x)
  }

  lemma FramedRelay(cfg: Config, fs: seq<Frame>, data: Bytes, packed: bool)
    requires Framed(cfg, fs)
    ensures Framed(cfg, fs + Frames(data, Relayed, packed))
  {
    var all := fs + Frames(data, Relayed, packed);
    forall x | 0 <= x < |all| ensures FramedAt(cfg, all, x) {
      if x < |fs| {
        assert FramedAt(cfg, fs, x);
      }
    }
  }

  lemma FramedInject(cfg: Config, fs: seq<Frame>, text: Bytes, packed: bool)
    requires Framed(cfg, fs) && Message(cfg, text)
    ensures Framed(cfg, fs + Frames(text, Injected, packed))
  {
    var all := fs + Frames(text, Injected, packed);
    forall x | 0 <= x < |all| ensures FramedAt(cfg, all, x) {
      if x < |fs| {
        assert FramedAt(cfg, fs, x);
      } else {
        assert all[x].b == text[x - |fs|];
        assert x == |fs| ==> text[x - |fs|] == IAC;
        if text[x - |fs|] == IAC {
          assert all[x + 1].b == text[x - |fs| + 1];
        } else if x > |fs| {
          assert all[x - 1] == Frames(text, Injected, packed)[x - 1 - |fs|];
        }
      }
    }
  }

  lemma MessageAppend(cfg: Config, a: Bytes, b: Bytes)
    requires Message(cfg, a) && Message(cfg, b)
    ensures Message(cfg, a + b)
  {
  }

  lemma PairMessage(cfg: Config, name: Bytes, value: Bytes)
    requires Environ.Clean(name) && Environ.Clean(value)
    ensures Message(cfg, Environ.MnesPair(name, value))
  {
    var body := [NEW_ENVIRON, QUAL_IS, VAR] + name + [VALUE] + value;
    var text := Environ.MnesPair(name, value);
    assert text == [IAC, SB] + body + [IAC, SE];
    assert forall i :: 0 <= i < |body| ==> body[i] != IAC by { BodyPlain(name, value); }
    forall i | 2 <= i < 2 + |body| ensures text[i] != IAC {
      assert text[i] == body[i - 2];
    }
    forall i | 0 <= i < |text| && text[i] == IAC ensures i + 1 < |text| && !Banned(cfg, text[i + 1]) {
    }
  }

  lemma BodyPlain(name: Bytes, value: Bytes)
    requires Environ.Clean(name) && Environ.Clean(value)
    ensures var body := [NEW_ENVIRON, QUAL_IS, VAR] + name + [VALUE] + value;
      forall i :: 0 <= i < |body| ==> body[i] != IAC
  {
  }

  lemma {:induction false} ReportsMessage(cfg: Config, reports: seq<Environ.Report>)
    requires Environ.AllClean(reports)
    ensures Message(cfg, Environ.Encode(reports))
  {
    hide Environ.MnesPair;
    if reports != [] {
      PairMessage(cfg, reports[0].name, reports[0].value);
      ReportsMessage(cfg, reports[1..]);
      MessageAppend(cfg, Environ.MnesPair(reports[0].name, reports[0].value), Environ.Encode(reports[1..]));
    }
  }

  lemma StatusMessage(cfg: Config)
    ensures Message(cfg, Environ.MnesPair(Environ.COMPRESSION, Environ.TEXT_MCCP2))
    ensures Message(cfg, Environ.MnesPair(Environ.COMPRESSION, Environ.TEXT_NONE))
  {
    hide Environ.MnesPair, Message;
    assert Environ.Clean(Environ.COMPRESSION) && Environ.Clean(Environ.TEXT_MCCP2) && Environ.Clean(Environ.TEXT_NONE);
    PairMessage(cfg, Environ.COMPRESSION, Environ.TEXT_MCCP2);
    PairMessage(cfg, Environ.COMPRESSION, Environ.TEXT_NONE);
  }

  lemma FlushedText(p: Peer, text: Bytes)
    requires p.output == [] && !p.deflating && |text| < EP_BUFSIZE
    ensures Flush(Format(p, text)).sent == p.sent + Frames(text, Injected, false)
    ensures Flush(Put(p, text)).sent == p.sent + Frames(text, Injected, false)
  {
    assert [] + text == text;
  }

  ghost function GameFramed(cfg: Config): Pair -> bool {
    (p: Pair) => Sound(cfg, p.to, p.from) && Framed(cfg, p.from.sent)
  }

  ghost function ClientFramed(cfg: Config): Pair -> bool {
    (p: Pair) => Sound(cfg, p.from, p.to) && Framed(cfg, p.to.sent)
  }

  lemma GameActFramed(cfg: Config, p: Pair, k: nat)
    requires ConfigOk(cfg) && Sound(cfg, p.to, p.from) && Framed(cfg, p.from.sent)
    requires k < |GamePatterns(cfg.gameMode)|
    ensures var q := Act(cfg, GamePatterns(cfg.gameMode)[k].action, GameLiterals(cfg.gameMode)[k], p).state;
      Framed(cfg, q.from.sent)
  {
    hide Framed, Message, ConfigOk, Frames, Format, Environ.Encode, Reports;
    var m := GameLiterals(cfg.gameMode)[k];
    var action := GamePatterns(cfg.gameMode)[k].action;
    GameTableActions(cfg.gameMode, k);
    if action == MnesRequest {
      var reports := Reports(cfg, p.to.nego);
      ReplyRoundTrip(cfg, p.from, p.to.nego);
      ReportsClean(cfg, p.to.nego);
      ReportsMessage(cfg, reports);
      FramedInject(cfg, p.from.sent, Environ.Encode(reports), false);
    } else if action == RespondDo || action == RespondDont {
      var verb := if action == RespondDo then DO else DONT;
      VerbMessage(cfg, verb, OptionOf(m));
      FlushedText(p.from, [IAC, verb, OptionOf(m)]);
      FramedInject(cfg, p.from.sent, [IAC, verb, OptionOf(m)], false);
    }
  }

  lemma VerbMessage(cfg: Config, verb: byte, opt: byte)
    requires verb != IAC && opt != IAC && !Banned(cfg, verb)
    ensures Message(cfg, [IAC, verb, opt])
  {
  }

  lemma ClientActFramed(cfg: Config, p: Pair, k: nat, m: Bytes)
    requires Sound(cfg, p.from, p.to) && Framed(cfg, p.to.sent)
    requires k < |ClientPatterns(cfg.clientMode)|
    ensures Framed(cfg, Act(cfg, ClientPatterns(cfg.clientMode)[k].action, m, p).state.to.sent)
  {
    hide Framed, Message, Frames, Environ.MnesPair, Format, Put;
    var action := ClientPatterns(cfg.clientMode)[k].action;
    ClientTableActions(cfg.clientMode, k);
    StatusMessage(cfg);
    if action == MnesClientWont {
      VerbMessage(cfg, WILL, NEW_ENVIRON);
      FlushedText(p.to, WILL_MNES);
      FramedInject(cfg, p.to.sent, WILL_MNES, false);
    } else if action == Mccp2Do || action == Mccp2Dont {
      var value := if action == Mccp2Do then Environ.TEXT_MCCP2 else Environ.TEXT_NONE;
      var text := Environ.MnesPair(Environ.COMPRESSION, value);
      PairFits(value);
      FlushedText(p.to, text);
      FramedInject(cfg, p.to.sent, text, false);
    }
  }

  lemma GameFramedInvariant(cfg: Config)
    requires ConfigOk(cfg)
    ensures Invariant(GameRules(cfg), GameFramed(cfg))
  {
    hide Act, Compiled, ConfigOk, Framed;
    var r, inv := GameRules(cfg), GameFramed(cfg);
    GameRulesLiterals(cfg);
    forall h: Pair, a: Bytes ensures KeptByShip(r, inv, h, a) {
    }
    forall h: Pair, k: nat | k < |r.patterns| ensures KeptByAct(r, inv, h, k) {
      if inv(h) {
        GameTableActions(cfg.gameMode, k);
        GameActSound(cfg, h, GamePatterns(cfg.gameMode)[k].action, r.patterns[k]);
        GameActFramed(cfg, h, k);
      }
    }
  }

  lemma ClientFramedInvariant(cfg: Config)
    ensures Invariant(ClientRules(cfg), ClientFramed(cfg))
  {
    hide Act, Compiled, Framed;
    var r, inv := ClientRules(cfg), ClientFramed(cfg);
    forall h: Pair, a: Bytes ensures KeptByShip(r, inv, h, a) {
      FramedRelayed(cfg, h.to, a);
    }
    forall h: Pair, k: nat | k < |r.patterns| ensures KeptByAct(r, inv, h, k) {
      if inv(h) {
        ClientTableActions(cfg.clientMode, k);
        ClientActSound(cfg, h, ClientPatterns(cfg.clientMode)[k].action, r.patterns[k]);
        ClientActFramed(cfg, h, k, r.patterns[k]);
      }
    }
  }

  lemma FramedRelayed(cfg: Config, p: Peer, a: Bytes)
    ensures Framed(cfg, p.sent) ==> Framed(cfg, Write(p, a, Relayed).sent)
  {
    if Framed(cfg, p.sent) {
      FramedRelay(cfg, p.sent, a, p.deflating);
    }
  }

  lemma {:induction false} RunFramed(cfg: Config, steps: seq<Step>)
    requires ConfigOk(cfg)
    ensures Framed(cfg, Run(cfg, steps).game.sent)
    decreases |steps|
  {
    hide Framed, ConfigOk, Drain, ClientRules, GameRules;
    if steps == [] {
      StartFramed(cfg);
    } else {
      var before, last := steps[..|steps| - 1], steps[|steps| - 1];
      RunFramed(cfg, before);
      RunSound(cfg, before);
      var s := Run(cfg, before);
      match last
      case LoopHead(now) => HeadFramed(cfg, s, now);
      case ClientText(text) =>
        ClientFramedInvariant(cfg);
        DrainKeeps(ClientRules(cfg), ClientFramed(cfg), Pair(s.client, s.game), s.clientBuf + text);
      case GameText(text) =>
        GameFramedInvariant(cfg);
        DrainKeeps(GameRules(cfg), GameFramed(cfg), Pair(s.game, s.client), s.gameBuf + text);
    }
  }

  lemma HeadFramed(cfg: Config, s: Session, now: Fallback.Time)
    requires Sound(cfg, s.client, s.game) && Framed(cfg, s.game.sent)
    ensures Framed(cfg, Next(cfg, s, LoopHead(now)).game.sent)
  {
    hide Framed, Message, Frames;
    VerbMessage(cfg, WILL, NEW_ENVIRON);
    FlushedText(s.game, WILL_MNES);
    FramedInject(cfg, s.game.sent, WILL_MNES, false);
  }

  lemma StartFramed(cfg: Config)
    requires ConfigOk(cfg)
    ensures Framed(cfg, Start(cfg).game.sent)
  {
    hide Message, Frames, Environ.MnesPair;
    assert Framed(cfg, []);
    var text := Environ.MnesPair(Environ.IPADDRESS, cfg.address);
    assert Environ.Clean(Environ.IPADDRESS);
    PairMessage(cfg, Environ.IPADDRESS, cfg.address);
    PairFits(cfg.address);
    FlushedText(NewPeer(), text);
    FramedInject(cfg, [], text, false);
  }

  /** The relayed frames from `x` on, `m` of them, are a piece of the relayed text; the end
      of it, if they are the end of the frames. */
  lemma RelayedPiece(fs: seq<Frame>, x: nat, m: nat) returns (y: nat)
    requires x + m <= |fs| && forall i :: x <= i < x + m ==> fs[i].origin == Relayed
    ensures y + m <= |Only(fs, Relayed)|
    ensures Only(fs, Relayed)[y..y + m] == BytesOf(fs)[x..x + m]
    ensures x + m == |fs| ==> y + m == |Only(fs, Relayed)|
  {
    hide Only;
    var a, b, c := fs[..x], fs[x..x + m], fs[x + m..];
    assert fs == a + b + c;
    OnlySplit(a + b, c, Relayed);
    OnlySplit(a, b, Relayed);
    OnlyAll(b, Relayed);
    if c == [] {
      OnlyNone();
    }
    y := |Only(a, Relayed)|;
    assert BytesOf(fs)[x..x + m] == BytesOf(b);
  }

  lemma OnlyNone()
    ensures Only([], Relayed) == []
  {
  }

  /** The frames that make up a banned command, or the beginning of one at the end, have
      all been relayed. */
  lemma BannedIsRelayed(cfg: Config, fs: seq<Frame>, p: Bytes, x: nat)
    requires Framed(cfg, fs)
    requires |p| == 3 && p[0] == IAC && Banned(cfg, p[1]) && p[2] != IAC
    requires Fits(p, BytesOf(fs), x) || RunsOff(p, BytesOf(fs), x)
    ensures var m := if x + 3 <= |fs| then 3 else |fs| - x;
      && 0 < m && p[..m] == BytesOf(fs)[x..x + m]
      && forall i :: x <= i < x + m ==> fs[i].origin == Relayed
  {
    var m := if x + 3 <= |fs| then 3 else |fs| - x;
    var s := BytesOf(fs);
    assert s[x + 0] == p[0];
    assert m > 1 ==> s[x + 1] == p[1];
    assert m > 2 ==> s[x + 2] == p[2];
    assert FramedAt(cfg, fs, x);
    assert m > 1 ==> FramedAt(cfg, fs, x + 1);
    assert m > 2 ==> FramedAt(cfg, fs, x + 2);
  }

  /** If the relayed text is free of banned commands, so is all that has been sent. */
  lemma SentAsClean(cfg: Config, fs: seq<Frame>, ps: seq<Bytes>)
    requires Framed(cfg, fs) && Scan(ps, Only(fs, Relayed), 0) == NoMatch
    requires forall k :: 0 <= k < |ps| ==> |ps[k]| == 3 && ps[k][0] == IAC && Banned(cfg, ps[k][1]) && ps[k][2] != IAC
    ensures Scan(ps, BytesOf(fs), 0) == NoMatch
  {
    hide Scan, Framed, Only, Fits, RunsOff, BytesOf;
    var relayed, sent := Only(fs, Relayed), BytesOf(fs);
    ScanMeaning(ps, relayed, 0);
    forall x | 0 <= x < |sent| ensures RuledOut(ps, sent, x, |ps|) {
      forall k | 0 <= k < |ps| ensures !Fits(ps[k], sent, x) && !RunsOff(ps[k], sent, x) {
        NotBanned(cfg, fs, ps, k, x);
      }
    }
    VerdictUnique(ps, sent, 0, NoMatch);
  }

  lemma NotBanned(cfg: Config, fs: seq<Frame>, ps: seq<Bytes>, k: nat, x: nat)
    requires Framed(cfg, fs) && k < |ps| && x < |fs|
    requires forall y :: 0 <= y < |Only(fs, Relayed)| ==> RuledOut(ps, Only(fs, Relayed), y, |ps|)
    requires |ps[k]| == 3 && ps[k][0] == IAC && Banned(cfg, ps[k][1]) && ps[k][2] != IAC
    ensures !Fits(ps[k], BytesOf(fs), x) && !RunsOff(ps[k], BytesOf(fs), x)
  {
    hide Framed, Only, BytesOf, Fits, RunsOff;
    if Fits(ps[k], BytesOf(fs), x) || RunsOff(ps[k], BytesOf(fs), x) {
      BannedIsRelayed(cfg, fs, ps[k], x);
      var m := if x + 3 <= |fs| then 3 else |fs| - x;
      var y := RelayedPiece(fs, x, m);
      assert RuledOut(ps, Only(fs, Relayed), y, |ps|);
      PieceMatches(ps[k], Only(fs, Relayed), y, m);
      assert false;
    }
  }

  lemma PieceMatches(p: Bytes, s: Bytes, y: nat, m: nat)
    requires |p| == 3 && 0 < m <= 3 && y + m <= |s| && p[..m] == s[y..y + m]
    requires m < 3 ==> y + m == |s|
    ensures y < |s| && (Fits(p, s, y) || RunsOff(p, s, y))
  {
    forall j | 0 <= j < m ensures p[j] == s[y + j] {
      assert p[..m][j] == s[y..y + m][j];
    }
  }

  /** At every moment of every run in which the client sends commands, whole or not yet
      complete, whatever the game sends and the proxy itself says in between: nowhere in
      all the game has received is there a WONT NEW-ENVIRON nor, if the client's side is in
      disable mode and the game's side not in enable mode, a DO for a version of MCCP. */
  lemma GameNeverSees(cfg: Config, steps: seq<Step>, ts: seq<Token>)
    requires ConfigOk(cfg) && AllWellFormed(ts) && ClientStream(steps) <= EncodeAll(ts)
    ensures var seen := BytesOf(Run(cfg, steps).game.sent);
      && Spared(FORBIDDEN, seen)
      && (cfg.clientMode == Disable && cfg.gameMode != Enable ==> Spared(FORBIDDEN_DISABLED, seen))
  {
    hide Run, Scan, EncodeAll, Framed, Only, BytesOf, ConfigOk, WellFormed, Spared, ClientStream, Forwarded;
    var rest := EncodeAll(ts)[|ClientStream(steps)|..];
    SentGrows(cfg, steps, rest);
    var later := steps + [ClientText(rest)];
    var fs, whole := Run(cfg, steps).game.sent, Run(cfg, later).game.sent;
    WholeCommands(cfg, later, ts);
    ForwardedAllowed(cfg.clientMode, ts);
    RunFramed(cfg, later);
    BytesGrow(fs, whole);
    SentAsClean(cfg, whole, FORBIDDEN);
    ScanSpares(FORBIDDEN, BytesOf(whole));
    PrefixSpared(FORBIDDEN, BytesOf(fs), BytesOf(whole));
    if cfg.clientMode == Disable && cfg.gameMode != Enable {
      SentAsClean(cfg, whole, FORBIDDEN_DISABLED);
      ScanSpares(FORBIDDEN_DISABLED, BytesOf(whole));
      PrefixSpared(FORBIDDEN_DISABLED, BytesOf(fs), BytesOf(whole));
    }
  }

  lemma BytesGrow(fs: seq<Frame>, gs: seq<Frame>)
    requires fs <= gs
    ensures BytesOf(fs) <= BytesOf(gs)
  {
  }
}
