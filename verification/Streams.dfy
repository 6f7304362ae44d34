/** What the two sides send, against what the proxy makes of it: over every run the
    matches it deals with are the matches in the streams, all of them and nothing else,
    so that every theorem about its log is one about the streams. */
module Streams {
  import opened Telnet
  import opened Matcher
  import opened Patterns
  import opened Rewriter
  import opened Handlers
  import opened Fallback
  import opened Sessions
  import opened Negotiation
  import opened Runs
  import opened Parses
  import opened Readers
  import Environ

  // ---- Whole runs ----

  /** Nothing the client sends ends matching on its side. */
  function Never(): nat -> bool {
    (k: nat) => false
  }

  /** On the game's side, the start markers do in ignore mode. */
  function StartMarkers(mode: Mode): nat -> bool {
    (k: nat) => mode == Ignore && k >= 3
  }

  /** The commands in the client's stream that the proxy looks out for. */
  function ClientHeard(mode: Mode, stream: Bytes): seq<Mark> {
    Parse(ClientLiterals(mode), stream, 0)
  }

  /** And those in the game's; in ignore mode up to the first start marker. */
  function GameHeard(mode: Mode, stream: Bytes): seq<Mark> {
    Heeded(StartMarkers(mode), Parse(GameLiterals(mode), stream, 0))
  }

  lemma ClientActMatching(cfg: Config, p: Pair, k: nat, m: Bytes)
    requires k < |ClientPatterns(cfg.clientMode)|
    ensures Act(cfg, ClientPatterns(cfg.clientMode)[k].action, m, p).state.from.matching == p.from.matching
  {
    hide Frames;
  }

  lemma GameActMatching(cfg: Config, p: Pair, k: nat, m: Bytes)
    requires k < |GamePatterns(cfg.gameMode)|
    ensures var q := Act(cfg, GamePatterns(cfg.gameMode)[k].action, m, p).state;
      q.from.matching <==> p.from.matching && !StartMarkers(cfg.gameMode)(k)
  {
    hide Frames, Reports;
    QueueKeeps(p.from, Reports(cfg, p.to.nego));
  }

  lemma ClientKilling(cfg: Config)
    ensures Killing(ClientRules(cfg), Never()) && Lawful(ClientRules(cfg))
  {
    hide Act, Compiled, ClientPatterns;
    var r := ClientRules(cfg);
    RulesLawful(cfg, ClientPatterns(cfg.clientMode));
    forall h: Pair, k: nat ensures KillsAt(r, Never(), h, k) {
      if k < |r.patterns| {
        ClientActMatching(cfg, h, k, r.patterns[k]);
      }
    }
  }

  lemma GameKilling(cfg: Config)
    ensures Killing(GameRules(cfg), StartMarkers(cfg.gameMode)) && Lawful(GameRules(cfg))
  {
    hide Act, Compiled, GamePatterns;
    var r := GameRules(cfg);
    RulesLawful(cfg, GamePatterns(cfg.gameMode));
    forall h: Pair, k: nat ensures KillsAt(r, StartMarkers(cfg.gameMode), h, k) {
      if k < |r.patterns| {
        GameActMatching(cfg, h, k, r.patterns[k]);
      }
    }
  }

  /** Over every run, however the streams are cut and mixed: what has been dealt with, in
      order and at its place, is every command in the client's stream, and every one in
      the game's up to the start marker that ends matching in ignore mode. */
  lemma {:induction false} LogsAreStreams(cfg: Config, steps: seq<Step>)
    ensures var s := Run(cfg, steps);
      && MarksOf(ClientLog(cfg, steps), 0) == ClientHeard(cfg.clientMode, ClientStream(steps))
      && MarksOf(GameLog(cfg, steps), 0) == GameHeard(cfg.gameMode, GameStream(steps))
      && Heard(ClientLiterals(cfg.clientMode), Never(), ClientStream(steps), ClientLog(cfg, steps), s.clientBuf, true)
      && Heard(GameLiterals(cfg.gameMode), StartMarkers(cfg.gameMode), GameStream(steps), GameLog(cfg, steps),
               s.gameBuf, s.game.matching)
      && (!s.game.matching ==> s.gameBuf == [])
    decreases |steps|
  {
    hide Heard, Consumed, MarksOf, Parse, Heeded, Sound, Next;
    if steps == [] {
      StartHeard(cfg);
    } else {
      var before, last := steps[..|steps| - 1], steps[|steps| - 1];
      LogsAreStreams(cfg, before);
      RunSound(cfg, before);
      StepHeard(cfg, Run(cfg, before), last, ClientStream(before), ClientLog(cfg, before),
                GameStream(before), GameLog(cfg, before));
      Nothing(ClientStream(before), ClientLog(cfg, before));
      Nothing(GameStream(before), GameLog(cfg, before));
    }
    var s, mode := Run(cfg, steps), cfg.gameMode;
    LogIsRead(ClientLiterals(cfg.clientMode), Never(), ClientStream(steps), ClientLog(cfg, steps), s.clientBuf, true);
    AllHeeded(ClientHeard(cfg.clientMode, ClientStream(steps)));
    LogIsRead(GameLiterals(mode), StartMarkers(mode), GameStream(steps), GameLog(cfg, steps), s.gameBuf,
              s.game.matching);
  }

  lemma Nothing(stream: Bytes, log: seq<Entry>)
    ensures stream + [] == stream && log + [] == log
  {
  }

  lemma LogIsRead(ps: seq<Bytes>, kills: nat -> bool, stream: Bytes, log: seq<Entry>, held: Bytes, live: bool)
    requires Heard(ps, kills, stream, log, held, live)
    ensures MarksOf(log, 0) == Heeded(kills, Parse(ps, stream, 0))
  {
    hide MarksOf, Parse, Heeded;
  }

  lemma AllHeeded(marks: seq<Mark>)
    ensures Heeded(Never(), marks) == marks
  {
    NeverDeadly(marks);
    HeededAll(Never(), marks);
  }

  lemma NeverDeadly(marks: seq<Mark>)
    ensures !Deadly(Never(), marks)
  {
  }

  lemma StartHeard(cfg: Config)
    ensures var s := Start(cfg);
      && Heard(ClientLiterals(cfg.clientMode), Never(), [], [], s.clientBuf, true)
      && Heard(GameLiterals(cfg.gameMode), StartMarkers(cfg.gameMode), [], [], s.gameBuf, s.game.matching)
      && s.game.matching
  {
    hide Read, Format;
    ClientTableCompiles(cfg.clientMode);
    GameTableCompiles(cfg.gameMode);
    NothingRead(ClientLiterals(cfg.clientMode), Never());
    NothingRead(GameLiterals(cfg.gameMode), StartMarkers(cfg.gameMode));
    FormatKeeps(NewPeer(), Environ.MnesPair(Environ.IPADDRESS, cfg.address));
  }

  lemma StepHeard(cfg: Config, s: Session, step: Step, cs: Bytes, cl: seq<Entry>, gs: Bytes, gl: seq<Entry>)
    requires Sound(cfg, s.client, s.game)
    requires Heard(ClientLiterals(cfg.clientMode), Never(), cs, cl, s.clientBuf, true)
    requires Heard(GameLiterals(cfg.gameMode), StartMarkers(cfg.gameMode), gs, gl, s.gameBuf, s.game.matching)
    requires !s.game.matching ==> s.gameBuf == []
    ensures var t := Next(cfg, s, step);
      && Heard(ClientLiterals(cfg.clientMode), Never(), cs + (if step.ClientText? then step.text else []),
               cl + ClientJournal(cfg, s, step), t.clientBuf, true)
      && Heard(GameLiterals(cfg.gameMode), StartMarkers(cfg.gameMode), gs + (if step.GameText? then step.text else []),
               gl + GameJournal(cfg, s, step), t.gameBuf, t.game.matching)
      && (!t.game.matching ==> t.gameBuf == [])
  {
    hide Heard, Drain, Journal, ClientRules, GameRules;
    ClientRulesLiterals(cfg);
    GameRulesLiterals(cfg);
    Nothing(cs, cl);
    Nothing(gs, gl);
    match step
    case LoopHead(now) => HeadKeepsMatching(cfg, s, now);
    case ClientText(text) =>
      var p := Pair(s.client, s.game);
      ClientKilling(cfg);
      LiveIsMatching(cfg, p);
      HeardMore(ClientRules(cfg), Never(), p, cs, cl, s.clientBuf, text);
      ClientKeepsMatching(cfg, p, s.clientBuf + text);
      LiveIsMatching(cfg, Drain(ClientRules(cfg), p, s.clientBuf + text).0);
    case GameText(text) =>
      var p := Pair(s.game, s.client);
      GameKilling(cfg);
      LiveIsMatching(cfg, p);
      HeardMore(GameRules(cfg), StartMarkers(cfg.gameMode), p, gs, gl, s.gameBuf, text);
      var q := Drain(GameRules(cfg), p, s.gameBuf + text).0;
      LiveIsMatching(cfg, q);
      if !q.from.matching {
        DeadHoldsNothing(GameRules(cfg), p, s.gameBuf + text);
      }
  }

  lemma LiveIsMatching(cfg: Config, p: Pair)
    ensures ClientRules(cfg).live(p) == p.from.matching && GameRules(cfg).live(p) == p.from.matching
  {
  }

  lemma HeadKeepsMatching(cfg: Config, s: Session, now: Time)
    ensures var t := Next(cfg, s, LoopHead(now));
      t.game.matching == s.game.matching && t.gameBuf == s.gameBuf && t.clientBuf == s.clientBuf
  {
  }

  lemma ClientKeepsMatching(cfg: Config, p: Pair, buf: Bytes)
    requires Sound(cfg, p.from, p.to)
    ensures var q := Drain(ClientRules(cfg), p, buf).0; q.from.matching && q.to.matching == p.to.matching
  {
    hide Drain, Journal, Only, Says, Passed, ClientRules;
    ClientTextEffect(cfg, p, buf);
  }

  // ---- What stands in the streams ----

  lemma ClientBracketed(mode: Mode)
    ensures Bracketed(ClientLiterals(mode))
  {
  }

  lemma GameBracketed(mode: Mode)
    ensures Bracketed(GameLiterals(mode))
  {
  }

  /** A command of the client's is heard exactly if it stands in its stream, wherever that
      is and whatever is before it. */
  lemma ClientHeardExactly(mode: Mode, stream: Bytes, n: nat, k: nat)
    requires k < |ClientLiterals(mode)|
    ensures Mark(n, k) in ClientHeard(mode, stream) <==> Fits(ClientLiterals(mode)[k], stream, n)
  {
    ClientBracketed(mode);
    MarkIffStands(ClientLiterals(mode), stream, 0, n, k);
    if Fits(ClientLiterals(mode)[k], stream, n) {
      ClientAlone(mode, stream, n, k);
    }
  }

  lemma ClientAlone(mode: Mode, stream: Bytes, n: nat, k: nat)
    requires k < |ClientLiterals(mode)| && Fits(ClientLiterals(mode)[k], stream, n)
    ensures RuledOut(ClientLiterals(mode), stream, n, k)
  {
    var ps := ClientLiterals(mode);
    assert |ps[k]| == 3;
    assert stream[n + 1] == ps[k][1] && stream[n + 2] == ps[k][2];
    forall j | 0 <= j < k ensures !Fits(ps[j], stream, n) && !RunsOff(ps[j], stream, n) {
      assert |ps[j]| == 3;
      assert ps[j][1] != stream[n + 1] || ps[j][2] != stream[n + 2];
    }
  }

  /** A command of the game's is heard exactly if it stands in its stream and, in ignore
      mode, no start marker stands before it. */
  lemma GameHeardExactly(mode: Mode, stream: Bytes, n: nat, k: nat)
    ensures Mark(n, k) in GameHeard(mode, stream) <==>
      && Stands(GameLiterals(mode), stream, n, k)
      && (mode == Ignore ==> forall m: nat, d: nat :: m < n && d >= 3 ==> !Stands(GameLiterals(mode), stream, m, d))
  {
    hide Parse, Stands, Heeded, GameLiterals;
    var ps := GameLiterals(mode);
    GameBracketed(mode);
    BracketedNonEmpty(ps);
    ParseSorted(ps, stream, 0);
    var marks := Parse(ps, stream, 0);
    assert Increasing(marks) by {
      forall a, b | 0 <= a < b < |marks| ensures marks[a].at < marks[b].at {
        assert ps[marks[a].alt] != [];
      }
    }
    HeededSorted(StartMarkers(mode), marks, Mark(n, k));
    forall m: nat, d: nat ensures Mark(m, d) in marks <==> Stands(ps, stream, m, d) {
      MarkIffStands(ps, stream, 0, m, d);
    }
    if mode == Ignore {
      if forall d :: d in marks && StartMarkers(mode)(d.alt) ==> n <= d.at {
        forall m: nat, d: nat | m < n && d >= 3 ensures !Stands(ps, stream, m, d) {
          assert Mark(m, d) in marks ==> n <= Mark(m, d).at;
        }
      }
      if forall m: nat, d: nat :: m < n && d >= 3 ==> !Stands(ps, stream, m, d) {
        forall d | d in marks && StartMarkers(mode)(d.alt) ensures n <= d.at {
          assert d == Mark(d.at, d.alt);
          assert Stands(ps, stream, d.at, d.alt);
        }
      }
    }
  }

  /** A SEND of everything, a DO NEW-ENVIRON, an offer or a start marker stands wherever
      its bytes do. */
  lemma GameCommandStands(mode: Mode, stream: Bytes, n: nat, k: nat)
    requires k < |GameLiterals(mode)| && k != 1
    ensures Stands(GameLiterals(mode), stream, n, k) <==> Fits(GameLiterals(mode)[k], stream, n)
  {
    var ps := GameLiterals(mode);
    if Fits(ps[k], stream, n) && k > 0 {
      assert |ps[k]| >= 3;
      assert stream[n + 1] == ps[k][1] && stream[n + 2] == ps[k][2];
      assert n + 3 <= |stream|;
      forall j | 0 <= j < k ensures !Fits(ps[j], stream, n) && !RunsOff(ps[j], stream, n) {
        assert |ps[j]| >= 3;
        assert ps[j][1] != stream[n + 1] || ps[j][2] != stream[n + 2];
      }
    }
  }

  /** Over every run each side's stream is taken apart, in order, into the commands that
      stand in it, which have all been dealt with, text between them, which has been
      forwarded, and what is still held; nothing else is forwarded; and no output is left
      queued. */
  lemma StreamsAccountedFor(cfg: Config, steps: seq<Step>)
    ensures var s, clientLog, gameLog := Run(cfg, steps), ClientLog(cfg, steps), GameLog(cfg, steps);
      && ClientStream(steps) == Consumed(clientLog) + s.clientBuf
      && GameStream(steps) == Consumed(gameLog) + s.gameBuf
      && MarksOf(clientLog, 0) == ClientHeard(cfg.clientMode, ClientStream(steps))
      && MarksOf(gameLog, 0) == GameHeard(cfg.gameMode, GameStream(steps))
      && RelayedTo(s.game) == Passed(clientLog) && RelayedTo(s.client) == Passed(gameLog)
      && s.client.output == [] && s.game.output == []
  {
    hide *;
    OrderAndConservation(cfg, steps);
    LogsAreStreams(cfg, steps);
  }
}
