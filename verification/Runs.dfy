/** Theorems about whole runs of a session, over every interleaving of text from
    both sides and loop heads. */
module Runs {
  import opened Telnet
  import opened Patterns
  import opened Rewriter
  import opened Handlers
  import opened Fallback
  import opened Sessions
  import opened Negotiation
  import Environ

  // ---- Histories ----

  function ClientStream(steps: seq<Step>): Bytes {
    if steps == [] then []
    else
      var last := steps[|steps| - 1];
      ClientStream(steps[..|steps| - 1]) + if last.ClientText? then last.text else []
  }

  function GameStream(steps: seq<Step>): Bytes {
    if steps == [] then []
    else
      var last := steps[|steps| - 1];
      GameStream(steps[..|steps| - 1]) + if last.GameText? then last.text else []
  }

  lemma StreamsAppend(a: seq<Step>, b: seq<Step>)
    ensures ClientStream(a + b) == ClientStream(a) + ClientStream(b)
    ensures GameStream(a + b) == GameStream(a) + GameStream(b)
  {
    ClientStreamAppend(a, b);
    GameStreamAppend(a, b);
  }

  lemma {:induction false} ClientStreamAppend(a: seq<Step>, b: seq<Step>)
    ensures ClientStream(a + b) == ClientStream(a) + ClientStream(b)
    decreases |b|
  {
    if b == [] {
      assert a + b == a;
      NoStreams();
    } else {
      var n := |b| - 1;
      assert (a + b)[..|a| + n] == a + b[..n];
      ClientStreamAppend(a, b[..n]);
    }
  }

  lemma {:induction false} GameStreamAppend(a: seq<Step>, b: seq<Step>)
    ensures GameStream(a + b) == GameStream(a) + GameStream(b)
    decreases |b|
  {
    if b == [] {
      assert a + b == a;
      NoStreams();
    } else {
      var n := |b| - 1;
      assert (a + b)[..|a| + n] == a + b[..n];
      GameStreamAppend(a, b[..n]);
    }
  }

  lemma NoStreams()
    ensures ClientStream([]) == [] && GameStream([]) == []
  {
  }

  /** What became of the client's text in one step. */
  function ClientJournal(cfg: Config, s: Session, step: Step): seq<Entry> {
    if step.ClientText?
    then Journal(ClientRules(cfg), Pair(s.client, s.game), s.clientBuf + step.text)
    else []
  }

  function GameJournal(cfg: Config, s: Session, step: Step): seq<Entry> {
    if step.GameText?
    then Journal(GameRules(cfg), Pair(s.game, s.client), s.gameBuf + step.text)
    else []
  }

  function ClientLog(cfg: Config, steps: seq<Step>): seq<Entry> {
    if steps == [] then []
    else
      var before := steps[..|steps| - 1];
      ClientLog(cfg, before) + ClientJournal(cfg, Run(cfg, before), steps[|steps| - 1])
  }

  function GameLog(cfg: Config, steps: seq<Step>): seq<Entry> {
    if steps == [] then []
    else
      var before := steps[..|steps| - 1];
      GameLog(cfg, before) + GameJournal(cfg, Run(cfg, before), steps[|steps| - 1])
  }

  /** The stances on NEW-ENVIRON taken by the client, or by the fallback for it. */
  function Stances(cfg: Config, steps: seq<Step>): seq<Mnes> {
    if steps == [] then []
    else
      var before := steps[..|steps| - 1];
      var s := Run(cfg, before);
      var last := steps[|steps| - 1];
      Stances(cfg, before) +
      match last
      case LoopHead(now) => if Fires(cfg, s, now) then [SaidWont] else []
      case ClientText(_) => Says(ClientJournal(cfg, s, last))
      case GameText(_) => []
  }

  /** How often the fallback has answered for the client. */
  function Firings(cfg: Config, steps: seq<Step>): nat {
    if steps == [] then 0
    else
      var before := steps[..|steps| - 1];
      var last := steps[|steps| - 1];
      Firings(cfg, before) + if last.LoopHead? && Fires(cfg, Run(cfg, before), last.now) then 1 else 0
  }

  /** The clock reading of the first loop head that found the client owing an answer. */
  function FirstWait(cfg: Config, steps: seq<Step>): Option<Time> {
    if steps == [] then None
    else
      var before := steps[..|steps| - 1];
      var last := steps[|steps| - 1];
      if FirstWait(cfg, before).Some? then FirstWait(cfg, before)
      else if last.LoopHead? && Waiting(cfg, Run(cfg, before)) then Some(last.now)
      else None
  }

  // ---- One step ----

  /** The effect of one step on both sides, in terms of what became of the text. */
  ghost predicate StepEffect(cfg: Config, s: Session, step: Step, t: Session) {
    && RelayedTo(t.game) == RelayedTo(s.game) + Passed(ClientJournal(cfg, s, step))
    && RelayedTo(t.client) == RelayedTo(s.client) + Passed(GameJournal(cfg, s, step))
    && s.clientBuf + (if step.ClientText? then step.text else [])
       == Consumed(ClientJournal(cfg, s, step)) + t.clientBuf
    && s.gameBuf + (if step.GameText? then step.text else [])
       == Consumed(GameJournal(cfg, s, step)) + t.gameBuf
    && t.client.mnes == (match step
         case LoopHead(now) => if Fires(cfg, s, now) then SaidWont else s.client.mnes
         case ClientText(_) => Latest(s.client.mnes, Says(ClientJournal(cfg, s, step)))
         case GameText(_) => s.client.mnes)
    && t.game.mnes == (if Asks(GameJournal(cfg, s, step)) then SaidDo else s.game.mnes)
    && Faithful(ClientLiterals(cfg.clientMode), ClientJournal(cfg, s, step))
    && Faithful(GameLiterals(cfg.gameMode), GameJournal(cfg, s, step))
  }

  lemma ClientStep(cfg: Config, s: Session, text: Bytes)
    requires Sound(cfg, s.client, s.game)
    ensures StepEffect(cfg, s, ClientText(text), Next(cfg, s, ClientText(text)))
  {
    hide Sound, Drain, Journal, ClientRules, Only, Faithful, Compiled;
    var r, p, buf := ClientRules(cfg), Pair(s.client, s.game), s.clientBuf + text;
    ClientTextEffect(cfg, p, buf);
    Conservation(r, p, buf);
    JournalFaithful(r, p, buf);
    ClientRulesLiterals(cfg);
    NothingFaithful(GameLiterals(cfg.gameMode));
  }

  lemma GameStep(cfg: Config, s: Session, text: Bytes)
    requires Sound(cfg, s.client, s.game)
    ensures StepEffect(cfg, s, GameText(text), Next(cfg, s, GameText(text)))
  {
    hide Sound, Drain, Journal, GameRules, Only, Faithful, Compiled;
    var r, p, buf := GameRules(cfg), Pair(s.game, s.client), s.gameBuf + text;
    GameTextForwards(cfg, p, buf);
    Conservation(r, p, buf);
    JournalFaithful(r, p, buf);
    GameRulesLiterals(cfg);
    NothingFaithful(ClientLiterals(cfg.clientMode));
  }

  lemma ClientRulesLiterals(cfg: Config)
    ensures ClientRules(cfg).patterns == ClientLiterals(cfg.clientMode)
  {
    ClientTableCompiles(cfg.clientMode);
  }

  lemma GameRulesLiterals(cfg: Config)
    ensures GameRules(cfg).patterns == GameLiterals(cfg.gameMode)
  {
    GameTableCompiles(cfg.gameMode);
  }

  lemma NothingFaithful(ps: seq<Bytes>)
    ensures Faithful(ps, [])
  {
  }

  lemma HeadStep(cfg: Config, s: Session, now: Time)
    requires Sound(cfg, s.client, s.game)
    ensures var t := Next(cfg, s, LoopHead(now));
      && StepEffect(cfg, s, LoopHead(now), t)
      && InjectedTo(t.game) == InjectedTo(s.game) + (if Fires(cfg, s, now) then WILL_MNES else [])
      && OnlySent(s.game, t.game)
  {
    hide Only, Arm;
    if Fires(cfg, s, now) {
      FlushOnly(Put(s.game, WILL_MNES), WILL_MNES);
    }
  }

  lemma StepHasEffect(cfg: Config, s: Session, step: Step)
    requires Sound(cfg, s.client, s.game)
    ensures StepEffect(cfg, s, step, Next(cfg, s, step))
  {
    hide *;
    match step
    case LoopHead(now) => HeadStep(cfg, s, now);
    case ClientText(text) => ClientStep(cfg, s, text);
    case GameText(text) => GameStep(cfg, s, text);
  }

  // ---- Order and conservation ----

  /** Every byte a side has sent has been forwarded in order, or consumed as a
      match of one of the installed patterns, or is still held; nothing else is
      forwarded; and no output is left queued or passes through the wrong codec. */
  lemma {:induction false} OrderAndConservation(cfg: Config, steps: seq<Step>)
    ensures var s := Run(cfg, steps);
      && ClientStream(steps) == Consumed(ClientLog(cfg, steps)) + s.clientBuf
      && GameStream(steps) == Consumed(GameLog(cfg, steps)) + s.gameBuf
      && RelayedTo(s.game) == Passed(ClientLog(cfg, steps))
      && RelayedTo(s.client) == Passed(GameLog(cfg, steps))
      && Faithful(ClientLiterals(cfg.clientMode), ClientLog(cfg, steps))
      && Faithful(GameLiterals(cfg.gameMode), GameLog(cfg, steps))
      && s.client.output == [] && s.game.output == []
      && !s.game.deflating && s.client.starts == 0
    decreases |steps|
  {
    hide Next, ClientJournal, GameJournal, Consumed, Passed, Only, Says, Asks;
    RunSound(cfg, steps);
    if steps == [] {
      StartRelays(cfg);
    } else {
      var before, last := steps[..|steps| - 1], steps[|steps| - 1];
      OrderAndConservation(cfg, before);
      var s := Run(cfg, before);
      RunSound(cfg, before);
      StepHasEffect(cfg, s, last);
      PassedAppend(ClientLog(cfg, before), ClientJournal(cfg, s, last));
      PassedAppend(GameLog(cfg, before), GameJournal(cfg, s, last));
      var t := Run(cfg, steps);
      Regroup(Consumed(ClientLog(cfg, before)), s.clientBuf, if last.ClientText? then last.text else [],
              Consumed(ClientJournal(cfg, s, last)), t.clientBuf);
      Regroup(Consumed(GameLog(cfg, before)), s.gameBuf, if last.GameText? then last.text else [],
              Consumed(GameJournal(cfg, s, last)), t.gameBuf);
    }
  }

  lemma Regroup(a: Bytes, held: Bytes, text: Bytes, b: Bytes, held': Bytes)
    requires held + text == b + held'
    ensures (a + held) + text == (a + b) + held'
  {
    assert (a + held) + text == a + (held + text);
    assert a + (b + held') == (a + b) + held';
  }

  lemma StartRelays(cfg: Config)
    ensures var s := Start(cfg);
      && RelayedTo(s.client) == [] && RelayedTo(s.game) == []
      && s.clientBuf == [] && s.gameBuf == []
      && Consumed([]) == [] && Passed([]) == []
  {
    hide Format;
    var pair := Environ.MnesPair(Environ.IPADDRESS, cfg.address);
    FormatKeeps(NewPeer(), pair);
    FlushOnly(Format(NewPeer(), pair), Format(NewPeer(), pair).output);
    FlushOnly(Put(NewPeer(), MCCP2_OFFER), Put(NewPeer(), MCCP2_OFFER).output);
  }

  // ---- The client's stance and the fallback ----

  /** The recorded stance is the last one taken, the game has asked exactly if its
      DO has been seen, and the fallback answers at most once and only as the first
      stance of all. */
  lemma {:induction false} StanceIsLatest(cfg: Config, steps: seq<Step>)
    ensures var s := Run(cfg, steps);
      && s.client.mnes == Latest(Silent, Stances(cfg, steps))
      && SaidDo !in Stances(cfg, steps) && Silent !in Stances(cfg, steps)
      && (s.game.mnes == SaidDo <==> Asks(GameLog(cfg, steps)))
      && Firings(cfg, steps) <= 1
      && (Firings(cfg, steps) == 1 ==> Stances(cfg, steps) != [] && Stances(cfg, steps)[0] == SaidWont)
    decreases |steps|
  {
    hide Next, ClientJournal, GameJournal, Consumed, Passed, Only, Says, Asks, Faithful;
    if steps == [] {
      StartStance(cfg);
    } else {
      var before, last := steps[..|steps| - 1], steps[|steps| - 1];
      StanceIsLatest(cfg, before);
      var s := Run(cfg, before);
      RunSound(cfg, before);
      StepHasEffect(cfg, s, last);
      AsksAppend(GameLog(cfg, before), GameJournal(cfg, s, last));
      SaysStances(ClientJournal(cfg, s, last));
    }
  }

  lemma StartStance(cfg: Config)
    ensures Start(cfg).client.mnes == Silent && Start(cfg).game.mnes == Silent
    ensures !Asks([])
  {
  }

  lemma {:induction false} SaysStances(j: seq<Entry>)
    ensures SaidDo !in Says(j) && Silent !in Says(j)
  {
    if j != [] {
      SaysStances(j[1..]);
    }
  }

  /** A deadline that can be armed and compared: its seconds are not zero, which would
      mean that it is not armed, and a negative delay has not left its nanoseconds
      negative. */
  predicate Armable(now: Time, ms: int) {
    Arm(now, ms).sec != 0 && Arm(now, ms).nsec >= 0
  }

  /** The first loop head that finds the client owing an answer, if there is one, reads a
      normalised clock from which a deadline can be armed. */
  ghost predicate ClockOk(cfg: Config, steps: seq<Step>) {
    FirstWait(cfg, steps).Some? ==>
      Normal(FirstWait(cfg, steps).value) && Armable(FirstWait(cfg, steps).value, cfg.fallbackMs)
  }

  /** The deadline is the one armed at the first loop head that found the client
      owing an answer. */
  lemma {:induction false} DeadlineIsArmed(cfg: Config, steps: seq<Step>)
    requires ClockOk(cfg, steps)
    ensures Run(cfg, steps).deadline == match FirstWait(cfg, steps)
      case None => Time(0, 0)
      case Some(now) => Arm(now, cfg.fallbackMs)
    decreases |steps|
  {
    hide Drain, Arm;
    if steps != [] {
      DeadlineIsArmed(cfg, steps[..|steps| - 1]);
    }
  }

  /** A loop head answers for the client exactly when the game has asked, the client
      is still silent, and the configured time has passed since the first loop head
      that found it so: not before, and at the first opportunity after. The game is
      then sent WILL and the client counts as refusing. */
  lemma FallbackTiming(cfg: Config, steps: seq<Step>, now: Time)
    requires ClockOk(cfg, steps) && Normal(now)
    ensures var s := Run(cfg, steps);
      var t := Run(cfg, steps + [LoopHead(now)]);
      var fires := cfg.fallback && Asks(GameLog(cfg, steps)) && Stances(cfg, steps) == []
        && FirstWait(cfg, steps).Some?
        && Total(now) >= Total(FirstWait(cfg, steps).value) + cfg.fallbackMs * 1_000_000;
      && Fires(cfg, s, now) == fires
      && InjectedTo(t.game) == InjectedTo(s.game) + (if fires then WILL_MNES else [])
      && t.client.mnes == (if fires then SaidWont else s.client.mnes)
  {
    hide Next, GameLog, Asks, Only, Arm, Reached, Sound, StepEffect, Stances, FirstWait;
    var s := Run(cfg, steps);
    StanceIsLatest(cfg, steps);
    DeadlineIsArmed(cfg, steps);
    RunSound(cfg, steps);
    HeadStep(cfg, s, now);
    HeadStance(cfg, s, now);
    assert (steps + [LoopHead(now)])[..|steps|] == steps;
    var stances := Stances(cfg, steps);
    if stances != [] {
      assert stances[|stances| - 1] in stances;
    }
    if FirstWait(cfg, steps).Some? {
      var first := FirstWait(cfg, steps).value;
      ArmExact(first, cfg.fallbackMs);
      ReachedExact(now, Arm(first, cfg.fallbackMs));
    }
  }

  /** An armed deadline stands, whatever the clock reads later, exactly if its seconds
      are not zero; otherwise the next loop head takes it for unarmed. */
  lemma ArmedExactlyIfNonZero(cfg: Config, s: Session, now: Time)
    requires Waiting(cfg, s) && s.deadline.sec == 0
    ensures var t := Head(cfg, s, now);
      && t.deadline == Arm(now, cfg.fallbackMs)
      && ((forall later :: Head(cfg, t, later).deadline == t.deadline) <==> t.deadline.sec != 0)
  {
    var t := Head(cfg, s, now);
    if t.deadline.sec == 0 {
      var later := Time(now.sec + 1, now.nsec);
      assert Head(cfg, t, later).deadline == Arm(later, cfg.fallbackMs) != t.deadline;
    }
  }

  lemma HeadStance(cfg: Config, s: Session, now: Time)
    ensures Next(cfg, s, LoopHead(now)).client.mnes == if Fires(cfg, s, now) then SaidWont else s.client.mnes
  {
  }

  // ---- The opening ----

  /** Before anything is read the game has been told the client's address, as IPADDRESS
      and under no other name, exactly if that is configured; the client has been sent
      the offer exactly in enable mode. */
  lemma OpeningIsRead(cfg: Config)
    requires ConfigOk(cfg)
    ensures var s := Start(cfg);
      && Environ.Receive(InjectedTo(s.game)) == Some(
           if cfg.immediateIp then [Environ.Env([Environ.Setting(Environ.IPADDRESS, Some(cfg.address))])] else [])
      && Environ.Receive(InjectedTo(s.client)) == Some(
           if cfg.clientMode == Enable then [Environ.Verb(WILL, MCCP2)] else [])
      && RelayedTo(s.game) == [] && RelayedTo(s.client) == []
  {
    hide Only, Environ.Receive, Environ.MnesPair;
    StartRelays(cfg);
    NothingInjected();
    NothingTold();
    var pair := Environ.MnesPair(Environ.IPADDRESS, cfg.address);
    PairFits(cfg.address);
    FlushOnly(Format(NewPeer(), pair), pair);
    assert Environ.Clean(Environ.IPADDRESS);
    Environ.PairIsRead(Environ.IPADDRESS, cfg.address);
    FlushOnly(Put(NewPeer(), MCCP2_OFFER), MCCP2_OFFER);
    Environ.VerbIsRead(WILL, MCCP2);
    assert [] + pair == pair && [] + MCCP2_OFFER == MCCP2_OFFER;
  }

  // ---- Compression status ----

  lemma StartAgrees(cfg: Config)
    requires ConfigOk(cfg)
    ensures Agrees(Start(cfg).client, Start(cfg).game)
  {
    hide Only, Environ.Receive, Environ.MnesPair, Told, OfferCompression;
    var client, game := Start(cfg).client, Start(cfg).game;
    OfferStatus(cfg.clientMode);
    assert InjectedTo(NewPeer()) == [] by { NothingInjected(); }
    if cfg.immediateIp {
      var pair := Environ.MnesPair(Environ.IPADDRESS, cfg.address);
      PairFits(cfg.address);
      FlushOnly(Format(NewPeer(), pair), pair);
      assert InjectedTo(game) == [] + pair;
      assert [] + pair == pair;
      assert Environ.Clean(Environ.IPADDRESS);
      Environ.PairIsRead(Environ.IPADDRESS, cfg.address);
      ToldSingle(Environ.IPADDRESS, cfg.address);
    } else {
      NothingTold();
    }
  }

  lemma NothingInjected()
    ensures InjectedTo(NewPeer()) == []
  {
  }

  lemma NothingTold()
    ensures Environ.Receive([]) == Some([]) && Told([]) == None
  {
  }

  lemma OfferStatus(mode: Mode)
    ensures var p := OfferCompression(NewPeer(), mode); !p.deflating && (p.nego == Offered || p.nego == Unoffered)
  {
  }

  lemma NextAgrees(cfg: Config, s: Session, step: Step)
    requires ConfigOk(cfg) && Environ.COMPRESSION !in cfg.reportVars
    requires Sound(cfg, s.client, s.game) && Agrees(s.client, s.game)
    ensures var t := Next(cfg, s, step); Agrees(t.client, t.game)
  {
    hide Drain, ClientRules, GameRules, Agrees, ConfigOk, Only;
    match step
    case LoopHead(now) =>
      HeadStep(cfg, s, now);
      var t := Next(cfg, s, step);
      if Fires(cfg, s, now) {
        VerbTold(WILL, NEW_ENVIRON);
        AgreesAppend(s.client, s.game, t.game, WILL_MNES);
        SameAgrees(s.client, t.client, t.game, t.game);
      } else {
        SameAgrees(s.client, t.client, s.game, t.game);
      }
    case ClientText(text) =>
      ClientAgreesInvariant(cfg);
      DrainKeeps(ClientRules(cfg), ClientAgrees(cfg), Pair(s.client, s.game), s.clientBuf + text);
    case GameText(text) =>
      GameAgreesInvariant(cfg);
      DrainKeeps(GameRules(cfg), GameAgrees(cfg), Pair(s.game, s.client), s.gameBuf + text);
  }

  /** Whatever the order of events, the offer counts as accepted exactly while the
      client's stream is compressed, everything the proxy has said to the game can
      be read, and the last COMPRESSION value in it is the present status. */
  lemma {:induction false} StatusAgreement(cfg: Config, steps: seq<Step>)
    requires ConfigOk(cfg) && Environ.COMPRESSION !in cfg.reportVars
    ensures var s := Run(cfg, steps);
      && (s.client.nego == Accepted <==> s.client.deflating)
      && Agrees(s.client, s.game)
    decreases |steps|
  {
    hide Next, Agrees, ConfigOk;
    RunSound(cfg, steps);
    if steps == [] {
      StartAgrees(cfg);
    } else {
      RunSound(cfg, steps[..|steps| - 1]);
      StatusAgreement(cfg, steps[..|steps| - 1]);
      NextAgrees(cfg, Run(cfg, steps[..|steps| - 1]), steps[|steps| - 1]);
    }
  }
}
