/** The two endpoints together, driven by text from either side and by the
    fallback timer in any interleaving. */
module Sessions {
  import opened Telnet
  import opened Patterns
  import opened Rewriter
  import opened Handlers
  import opened Fallback
  import Environ

  /** Both endpoints, the text each one's input buffer holds, and the deadline of
      the fallback timer; zero seconds mean that it is not armed. */
  datatype Session = Session(
    client: Peer,
    game: Peer,
    clientBuf: Bytes,
    gameBuf: Bytes,
    deadline: Time)

  datatype Step =
    | LoopHead(now: Time)
    | ClientText(text: Bytes)
    | GameText(text: Bytes)

  const MCCP2_OFFER: Bytes := [IAC, WILL, MCCP2]

  function NewPeer(): Peer {
    Peer(true, Silent, Unoffered, false, 0, [], [])
  }

  function OfferCompression(p: Peer, mode: Mode): Peer {
    if mode == Enable then Flush(Put(p, MCCP2_OFFER)).(nego := Offered) else p
  }

  function AnnounceAddress(cfg: Config, p: Peer): Peer {
    if cfg.immediateIp
    then Flush(Format(p, Environ.MnesPair(Environ.IPADDRESS, cfg.address)))
    else p
  }

  /** The session as the proxy loop is entered. */
  function Start(cfg: Config): Session {
    Session(
      OfferCompression(NewPeer(), cfg.clientMode),
      AnnounceAddress(cfg, NewPeer()),
      [], [], Time(0, 0))
  }

  /** The game has asked for NEW-ENVIRON and the client has not answered. */
  predicate Waiting(cfg: Config, s: Session) {
    cfg.fallback && s.game.mnes == SaidDo && s.client.mnes == Silent
  }

  predicate Fires(cfg: Config, s: Session, now: Time) {
    Waiting(cfg, s) && s.deadline.sec != 0 && Reached(now, s.deadline)
  }

  function Head(cfg: Config, s: Session, now: Time): Session {
    if !Waiting(cfg, s) then s
    else if s.deadline.sec == 0 then s.(deadline := Arm(now, cfg.fallbackMs))
    else if Reached(now, s.deadline) then
      s.(client := s.client.(mnes := SaidWont), game := Flush(Put(s.game, WILL_MNES)))
    else s
  }

  function Next(cfg: Config, s: Session, step: Step): Session {
    match step
    case LoopHead(now) => Head(cfg, s, now)
    case ClientText(text) =>
      var (p, held) := Drain(ClientRules(cfg), Pair(s.client, s.game), s.clientBuf + text);
      s.(client := p.from, game := p.to, clientBuf := held)
    case GameText(text) =>
      var (p, held) := Drain(GameRules(cfg), Pair(s.game, s.client), s.gameBuf + text);
      s.(game := p.from, client := p.to, gameBuf := held)
  }

  function RunFrom(cfg: Config, s: Session, steps: seq<Step>): Session
    decreases |steps|
  {
    if steps == [] then s
    else Next(cfg, RunFrom(cfg, s, steps[..|steps| - 1]), steps[|steps| - 1])
  }

  function Run(cfg: Config, steps: seq<Step>): Session {
    RunFrom(cfg, Start(cfg), steps)
  }

  lemma {:induction false} RunAppend(cfg: Config, s: Session, before: seq<Step>, after: seq<Step>)
    ensures RunFrom(cfg, s, before + after) == RunFrom(cfg, RunFrom(cfg, s, before), after)
    decreases |after|
  {
    hide Next;
    if after == [] {
      assert before + after == before;
    } else {
      var n := |after| - 1;
      assert (before + after)[..|before| + n] == before + after[..n];
      RunAppend(cfg, s, before, after[..n]);
    }
  }

  // ---- What holds between any two steps ----

  /** Nothing is left queued; only the client's output and the game's input can be
      compressed, and only where that is enabled; the client's negotiation record
      says whether its stream is compressed; matching is given up only on the game
      side and in ignore mode. */
  ghost predicate Sound(cfg: Config, client: Peer, game: Peer) {
    && client.output == [] && game.output == []
    && !game.deflating && client.starts == 0
    && (client.deflating <==> client.nego == Accepted)
    && (client.deflating ==> cfg.clientMode == Enable)
    && (game.starts > 0 ==> cfg.gameMode == Enable)
    && client.matching && (!game.matching ==> cfg.gameMode == Ignore)
    && game.nego == Unoffered
    && client.mnes != SaidDo && (game.mnes == Silent || game.mnes == SaidDo)
  }

  ghost function GameSound(cfg: Config): Pair -> bool {
    (p: Pair) => Sound(cfg, p.to, p.from)
  }

  ghost function ClientSound(cfg: Config): Pair -> bool {
    (p: Pair) => Sound(cfg, p.from, p.to)
  }

  lemma FormatKeeps(p: Peer, text: Bytes)
    ensures Format(p, text) == p.(output := Format(p, text).output)
  {
  }

  lemma QueueKeeps(p: Peer, reports: seq<Environ.Report>)
    ensures Queue(p, reports) == p.(output := Queue(p, reports).output)
    decreases |reports|
  {
    if reports != [] {
      QueueKeeps(Format(p, Environ.MnesPair(reports[0].name, reports[0].value)), reports[1..]);
    }
  }

  predicate GameAction(mode: Mode, action: Action) {
    || action == MnesRequest || action == MnesDoes
    || (mode == Ignore && action == MccpIgnore)
    || (mode == Disable && action == RespondDont)
    || (mode == Enable && (action == RespondDo || action == Mccp2SbStart))
  }

  predicate ClientAction(mode: Mode, action: Action) {
    || action == MnesClientWont || action == MnesClientWill
    || (mode == Disable && action == RespondWont)
    || (mode == Enable && (action == Mccp2Do || action == Mccp2Dont))
  }

  lemma GameTableActions(mode: Mode, k: nat)
    requires k < |GamePatterns(mode)|
    ensures GameAction(mode, GamePatterns(mode)[k].action)
  {
  }

  lemma ClientTableActions(mode: Mode, k: nat)
    requires k < |ClientPatterns(mode)|
    ensures ClientAction(mode, ClientPatterns(mode)[k].action)
  {
  }

  lemma GameActSound(cfg: Config, p: Pair, action: Action, m: Bytes)
    requires GameAction(cfg.gameMode, action) && Sound(cfg, p.to, p.from)
    ensures var q := Act(cfg, action, m, p).state; Sound(cfg, q.to, q.from) && q.to == p.to
  {
    hide Frames, Format, Queue, Reports;
    QueueKeeps(p.from, Reports(cfg, p.to.nego));
    FormatKeeps(p.from, [IAC, DO, OptionOf(m)]);
    FormatKeeps(p.from, [IAC, DONT, OptionOf(m)]);
  }

  lemma ClientActSound(cfg: Config, p: Pair, action: Action, m: Bytes)
    requires ClientAction(cfg.clientMode, action) && Sound(cfg, p.from, p.to)
    ensures var q := Act(cfg, action, m, p).state; Sound(cfg, q.from, q.to)
  {
    hide Frames, Format;
    FormatKeeps(p.from, [IAC, WONT, OptionOf(m)]);
    FormatKeeps(p.to, Environ.MnesPair(Environ.COMPRESSION, Environ.TEXT_MCCP2));
    FormatKeeps(p.to, Environ.MnesPair(Environ.COMPRESSION, Environ.TEXT_NONE));
  }

  lemma GameSoundInvariant(cfg: Config)
    ensures Invariant(GameRules(cfg), GameSound(cfg))
  {
    hide Act, Compiled;
    var r, inv := GameRules(cfg), GameSound(cfg);
    forall h: Pair, a: Bytes ensures KeptByShip(r, inv, h, a) {
    }
    forall h: Pair, k: nat | k < |r.patterns| ensures KeptByAct(r, inv, h, k) {
      if inv(h) {
        GameTableActions(cfg.gameMode, k);
        GameActSound(cfg, h, GamePatterns(cfg.gameMode)[k].action, r.patterns[k]);
      }
    }
  }

  lemma ClientSoundInvariant(cfg: Config)
    ensures Invariant(ClientRules(cfg), ClientSound(cfg))
  {
    hide Act, Compiled;
    var r, inv := ClientRules(cfg), ClientSound(cfg);
    forall h: Pair, a: Bytes ensures KeptByShip(r, inv, h, a) {
    }
    forall h: Pair, k: nat | k < |r.patterns| ensures KeptByAct(r, inv, h, k) {
      if inv(h) {
        ClientTableActions(cfg.clientMode, k);
        ClientActSound(cfg, h, ClientPatterns(cfg.clientMode)[k].action, r.patterns[k]);
      }
    }
  }

  lemma NextSound(cfg: Config, s: Session, step: Step)
    requires Sound(cfg, s.client, s.game)
    ensures var t := Next(cfg, s, step); Sound(cfg, t.client, t.game)
  {
    hide Drain, ClientRules, GameRules;
    match step
    case LoopHead(now) =>
    case ClientText(text) =>
      ClientSoundInvariant(cfg);
      DrainKeeps(ClientRules(cfg), ClientSound(cfg), Pair(s.client, s.game), s.clientBuf + text);
    case GameText(text) =>
      GameSoundInvariant(cfg);
      DrainKeeps(GameRules(cfg), GameSound(cfg), Pair(s.game, s.client), s.gameBuf + text);
  }

  lemma StartSound(cfg: Config)
    ensures Sound(cfg, Start(cfg).client, Start(cfg).game)
  {
  }

  /** Every reachable session is sound. */
  lemma {:induction false} RunSound(cfg: Config, steps: seq<Step>)
    ensures var s := Run(cfg, steps); Sound(cfg, s.client, s.game)
    decreases |steps|
  {
    hide Next, Sound;
    if steps == [] {
      StartSound(cfg);
    } else {
      RunSound(cfg, steps[..|steps| - 1]);
      NextSound(cfg, Run(cfg, steps[..|steps| - 1]), steps[|steps| - 1]);
    }
  }
}
