/** The handlers, the matching loop and the proxy loop, working on two endpoints in
    place. */
module Proxies {
  import opened Telnet
  import opened Matcher
  import opened Patterns
  import opened Rewriter
  import opened Codec
  import opened Handlers
  import opened Sessions
  import opened Fallback
  import opened Endpoints
  import opened Wire
  import opened Negotiation
  import opened GameFlow
  import opened Markers
  import Environ
  import Interleaving
  import Runs
  import Tokens

  /** Two valid endpoints that share nothing. */
  ghost predicate Linked(from: Endpoint, to: Endpoint)
    reads from.Repr(), to.Repr()
  {
    from.Valid() && to.Valid() && from.Repr() !! to.Repr()
  }

  ghost function Views(from: Endpoint, to: Endpoint): Pair
    requires from.output.Valid() && to.output.Valid()
    reads from, from.output, from.output.data, to, to.output, to.output.data
  {
    Pair(from.View(), to.View())
  }

  /** What a handler relies on: no endpoint it flushes is compressed, and fixed
      messages fit the output buffer. */
  ghost predicate Ready(action: Action, p: Pair, m: Bytes) {
    match action
    case MnesRequest => !p.from.deflating
    case MnesDoes => true
    case MnesClientWill => true
    case MnesClientWont => !p.to.deflating && |p.to.output| + 3 <= EP_BUFSIZE
    case RespondDo => !p.from.deflating && |m| > 2
    case RespondDont => !p.from.deflating && |m| > 2
    case RespondWont => !p.from.deflating && |m| > 2
    case MccpIgnore => true
    case Mccp2Do => p.from.deflating || (!p.to.deflating && |p.from.output| + 5 <= EP_BUFSIZE)
    case Mccp2Dont => !p.to.deflating
    case Mccp2SbStart => true
  }

  method MnesRequest(from: Endpoint, to: Endpoint, matchLen: nat, cfg: Config) returns (handled: bool)
    requires Linked(from, to) && matchLen <= from.input.Len()
    requires Ready(Action.MnesRequest, Views(from, to), from.input.Contents()[..matchLen])
    modifies from`zd, from`wire, from`sent, from.zout, from.output`tail, from.output.data
    modifies from.input`tail, from.input.data
    ensures Linked(from, to)
    ensures Reply(Views(from, to), handled)
         == Act(cfg, Action.MnesRequest, old(from.input.Contents()[..matchLen]), old(Views(from, to)))
    ensures from.input.Contents() == old(from.input.Contents())[if handled then matchLen else 0..]
  {
    hide Endpoint.Valid, Queue, Frames, Reports;
    QueueKeeps(from.View(), Reports(cfg, to.nego));
    from.SendReports(Reports(cfg, to.nego));
    handled := to.mnes == SaidWont;
    if handled {
      from.PopInput(matchLen);
    }
  }

  method MnesDoes(from: Endpoint, to: Endpoint, matchLen: nat, ghost cfg: Config) returns (handled: bool)
    requires Linked(from, to) && matchLen <= from.input.Len()
    requires Ready(Action.MnesDoes, Views(from, to), from.input.Contents()[..matchLen])
    modifies from`mnes
    ensures Linked(from, to)
    ensures Reply(Views(from, to), handled)
         == Act(cfg, Action.MnesDoes, old(from.input.Contents()[..matchLen]), old(Views(from, to)))
    ensures from.input.Contents() == old(from.input.Contents())[if handled then matchLen else 0..]
  {
    hide Endpoint.Valid;
    from.SetMnes(SaidDo);
    handled := false;
  }

  method MnesClientWill(from: Endpoint, to: Endpoint, matchLen: nat, ghost cfg: Config) returns (handled: bool)
    requires Linked(from, to) && matchLen <= from.input.Len()
    requires Ready(Action.MnesClientWill, Views(from, to), from.input.Contents()[..matchLen])
    modifies from`mnes
    ensures Linked(from, to)
    ensures Reply(Views(from, to), handled)
         == Act(cfg, Action.MnesClientWill, old(from.input.Contents()[..matchLen]), old(Views(from, to)))
    ensures from.input.Contents() == old(from.input.Contents())[if handled then matchLen else 0..]
  {
    hide Endpoint.Valid;
    from.SetMnes(SaidWill);
    handled := false;
  }

  method MnesClientWont(from: Endpoint, to: Endpoint, matchLen: nat, ghost cfg: Config) returns (handled: bool)
    requires Linked(from, to) && matchLen <= from.input.Len()
    requires Ready(Action.MnesClientWont, Views(from, to), from.input.Contents()[..matchLen])
    modifies from`mnes, from.input`tail, from.input.data
    modifies to`zd, to`wire, to`sent, to.zout, to.output`tail, to.output.data
    ensures Linked(from, to)
    ensures Reply(Views(from, to), handled)
         == Act(cfg, Action.MnesClientWont, old(from.input.Contents()[..matchLen]), old(Views(from, to)))
    ensures from.input.Contents() == old(from.input.Contents())[if handled then matchLen else 0..]
  {
    hide Endpoint.Valid, Frames;
    from.SetMnes(SaidWont);
    from.PopInput(matchLen);
    to.SendBytes(WILL_MNES);
    handled := true;
  }

  method MccpIgnore(from: Endpoint, to: Endpoint, matchLen: nat, ghost cfg: Config) returns (handled: bool)
    requires Linked(from, to) && matchLen <= from.input.Len()
    requires Ready(Action.MccpIgnore, Views(from, to), from.input.Contents()[..matchLen])
    modifies from`matching
    ensures Linked(from, to)
    ensures Reply(Views(from, to), handled)
         == Act(cfg, Action.MccpIgnore, old(from.input.Contents()[..matchLen]), old(Views(from, to)))
    ensures from.input.Contents() == old(from.input.Contents())[if handled then matchLen else 0..]
  {
    hide Endpoint.Valid;
    from.DisableMatching();
    handled := false;
  }

  method Mccp2Do(from: Endpoint, to: Endpoint, matchLen: nat, ghost cfg: Config) returns (handled: bool)
    requires Linked(from, to) && matchLen <= from.input.Len()
    requires Ready(Action.Mccp2Do, Views(from, to), from.input.Contents()[..matchLen])
    modifies from`nego, from`base, from`wireBase
    modifies from`zd, from`wire, from`sent, from.zout, from.output`tail, from.output.data
    modifies from.input`tail, from.input.data
    modifies to`zd, to`wire, to`sent, to.zout, to.output`tail, to.output.data
    ensures Linked(from, to)
    ensures Reply(Views(from, to), handled)
         == Act(cfg, Action.Mccp2Do, old(from.input.Contents()[..matchLen]), old(Views(from, to)))
    ensures from.input.Contents() == old(from.input.Contents())[if handled then matchLen else 0..]
  {
    hide Endpoint.Valid, Frames, Environ.MnesPair, Flush, Format, Put;
    from.PopInput(matchLen);
    handled := true;
    if from.zd.Some? {
      from.SetNego(Accepted);
      return;
    }
    from.BeginCompression();
    to.SendText(Environ.MnesPair(Environ.COMPRESSION, Environ.TEXT_MCCP2));
  }

  method Mccp2Dont(from: Endpoint, to: Endpoint, matchLen: nat, ghost cfg: Config) returns (handled: bool)
    requires Linked(from, to) && matchLen <= from.input.Len()
    requires Ready(Action.Mccp2Dont, Views(from, to), from.input.Contents()[..matchLen])
    modifies from`nego, from`base, from`wireBase, from`zd, from.input`tail, from.input.data
    modifies to`zd, to`wire, to`sent, to.zout, to.output`tail, to.output.data
    ensures Linked(from, to)
    ensures Reply(Views(from, to), handled)
         == Act(cfg, Action.Mccp2Dont, old(from.input.Contents()[..matchLen]), old(Views(from, to)))
    ensures from.input.Contents() == old(from.input.Contents())[if handled then matchLen else 0..]
  {
    hide Endpoint.Valid, Frames, Environ.MnesPair, Flush, Format, Put;
    from.PopInput(matchLen);
    from.EndCompression();
    to.SendText(Environ.MnesPair(Environ.COMPRESSION, Environ.TEXT_NONE));
    handled := true;
  }

  method Mccp2SbStart(from: Endpoint, to: Endpoint, matchLen: nat, ghost cfg: Config) returns (handled: bool)
    requires Linked(from, to) && matchLen <= from.input.Len()
    requires Ready(Action.Mccp2SbStart, Views(from, to), from.input.Contents()[..matchLen])
    modifies from`zi, from`nextIn, from`availIn, from`took0, from`heard0, from`starts, from.input`tail, from.input.data
    ensures Linked(from, to)
    ensures Reply(Views(from, to), handled)
         == Act(cfg, Action.Mccp2SbStart, old(from.input.Contents()[..matchLen]), old(Views(from, to)))
    ensures from.input.Contents() == old(from.input.Contents())[if handled then matchLen else 0..]
    ensures Renewed(old(from.Beginning()), from.Beginning(), from.took, from.heard)
  {
    hide Endpoint.Valid;
    from.PopInput(matchLen);
    from.StartInflate();
    handled := true;
  }

  /** What the three refusing and accepting replies have in common. */
  method RespondX(from: Endpoint, to: Endpoint, matchLen: nat, verb: byte)
    requires Linked(from, to) && 2 < matchLen <= from.input.Len() && from.zd.None?
    modifies from`zd, from`wire, from`sent, from.zout, from.output`tail, from.output.data
    modifies from.input`tail, from.input.data
    ensures Linked(from, to)
    ensures Views(from, to) == old(Views(from, to)).(
      from := Respond(old(from.View()), verb, old(from.input.Contents()[..matchLen])))
    ensures from.input.Contents() == old(from.input.Contents())[matchLen..]
  {
    hide Endpoint.Valid, Frames;
    var proto := from.input.data[2];
    assert proto == OptionOf(from.input.Contents()[..matchLen]);
    from.SendText([IAC, verb, proto]);
    from.PopInput(matchLen);
  }

  lemma RenewedSame(a: Account, took: Bytes, heard: Bytes)
    ensures Renewed(a, a, took, heard)
  {
  }

  lemma RenewedTwice(a: Account, b: Account, c: Account, took: Bytes, heard: Bytes)
    requires Renewed(a, b, took, heard) && Renewed(b, c, took, heard)
    ensures Renewed(a, c, took, heard)
  {
  }

  method RespondDo(from: Endpoint, to: Endpoint, matchLen: nat, ghost cfg: Config) returns (handled: bool)
    requires Linked(from, to) && matchLen <= from.input.Len()
    requires Ready(Action.RespondDo, Views(from, to), from.input.Contents()[..matchLen])
    modifies from`zd, from`wire, from`sent, from.zout, from.output`tail, from.output.data
    modifies from.input`tail, from.input.data
    ensures Linked(from, to)
    ensures Reply(Views(from, to), handled)
         == Act(cfg, Action.RespondDo, old(from.input.Contents()[..matchLen]), old(Views(from, to)))
    ensures from.input.Contents() == old(from.input.Contents())[if handled then matchLen else 0..]
  {
    hide Endpoint.Valid, Respond;
    RespondX(from, to, matchLen, DO);
    handled := true;
  }

  method RespondDont(from: Endpoint, to: Endpoint, matchLen: nat, ghost cfg: Config) returns (handled: bool)
    requires Linked(from, to) && matchLen <= from.input.Len()
    requires Ready(Action.RespondDont, Views(from, to), from.input.Contents()[..matchLen])
    modifies from`zd, from`wire, from`sent, from.zout, from.output`tail, from.output.data
    modifies from.input`tail, from.input.data
    ensures Linked(from, to)
    ensures Reply(Views(from, to), handled)
         == Act(cfg, Action.RespondDont, old(from.input.Contents()[..matchLen]), old(Views(from, to)))
    ensures from.input.Contents() == old(from.input.Contents())[if handled then matchLen else 0..]
  {
    hide Endpoint.Valid, Respond;
    RespondX(from, to, matchLen, DONT);
    handled := true;
  }

  method RespondWont(from: Endpoint, to: Endpoint, matchLen: nat, ghost cfg: Config) returns (handled: bool)
    requires Linked(from, to) && matchLen <= from.input.Len()
    requires Ready(Action.RespondWont, Views(from, to), from.input.Contents()[..matchLen])
    modifies from`zd, from`wire, from`sent, from.zout, from.output`tail, from.output.data
    modifies from.input`tail, from.input.data
    ensures Linked(from, to)
    ensures Reply(Views(from, to), handled)
         == Act(cfg, Action.RespondWont, old(from.input.Contents()[..matchLen]), old(Views(from, to)))
    ensures from.input.Contents() == old(from.input.Contents())[if handled then matchLen else 0..]
  {
    hide Endpoint.Valid, Respond;
    RespondX(from, to, matchLen, WONT);
    handled := true;
  }

  /** The handlers about NEW-ENVIRON. */
  method InvokeMnes(action: Action, from: Endpoint, to: Endpoint, matchLen: nat, cfg: Config)
    returns (handled: bool)
    requires action.MnesRequest? || action.MnesDoes? || action.MnesClientWill? || action.MnesClientWont?
    requires Linked(from, to) && matchLen <= from.input.Len()
    requires Ready(action, Views(from, to), from.input.Contents()[..matchLen])
    modifies from`mnes
    modifies from`zd, from`wire, from`sent, from.zout, from.output`tail, from.output.data
    modifies from.input`tail, from.input.data
    modifies to`zd, to`wire, to`sent, to.zout, to.output`tail, to.output.data
    ensures Linked(from, to)
    ensures Reply(Views(from, to), handled)
         == Act(cfg, action, old(from.input.Contents()[..matchLen]), old(Views(from, to)))
    ensures from.input.Contents() == old(from.input.Contents())[if handled then matchLen else 0..]
  {
    hide Endpoint.Valid, Act, Ready, Endpoint.Beginning, Renewed;
    match action
    case MnesRequest => handled := MnesRequest(from, to, matchLen, cfg);
    case MnesDoes => handled := MnesDoes(from, to, matchLen, cfg);
    case MnesClientWill => handled := MnesClientWill(from, to, matchLen, cfg);
    case MnesClientWont => handled := MnesClientWont(from, to, matchLen, cfg);
  }

  /** The handlers that only answer. */
  method InvokeResponse(action: Action, from: Endpoint, to: Endpoint, matchLen: nat, ghost cfg: Config)
    returns (handled: bool)
    requires action.RespondDo? || action.RespondDont? || action.RespondWont?
    requires Linked(from, to) && matchLen <= from.input.Len()
    requires Ready(action, Views(from, to), from.input.Contents()[..matchLen])
    modifies from`zd, from`wire, from`sent, from.zout, from.output`tail, from.output.data
    modifies from.input`tail, from.input.data
    ensures Linked(from, to)
    ensures Reply(Views(from, to), handled)
         == Act(cfg, action, old(from.input.Contents()[..matchLen]), old(Views(from, to)))
    ensures from.input.Contents() == old(from.input.Contents())[if handled then matchLen else 0..]
  {
    hide Endpoint.Valid, Act, Ready, Endpoint.Beginning, Renewed;
    match action
    case RespondDo => handled := RespondDo(from, to, matchLen, cfg);
    case RespondDont => handled := RespondDont(from, to, matchLen, cfg);
    case RespondWont => handled := RespondWont(from, to, matchLen, cfg);
  }

  /** The handlers that switch matching or compression. */
  method InvokeMccp(action: Action, from: Endpoint, to: Endpoint, matchLen: nat, ghost cfg: Config)
    returns (handled: bool)
    requires action.MccpIgnore? || action.Mccp2Do? || action.Mccp2Dont? || action.Mccp2SbStart?
    requires Linked(from, to) && matchLen <= from.input.Len()
    requires Ready(action, Views(from, to), from.input.Contents()[..matchLen])
    modifies from`matching, from`nego, from`base, from`wireBase
    modifies from`zd, from`wire, from`sent, from.zout, from.output`tail, from.output.data
    modifies from.input`tail, from.input.data
    modifies from`zi, from`nextIn, from`availIn, from`took0, from`heard0, from`starts
    modifies to`zd, to`wire, to`sent, to.zout, to.output`tail, to.output.data
    ensures Linked(from, to)
    ensures Reply(Views(from, to), handled)
         == Act(cfg, action, old(from.input.Contents()[..matchLen]), old(Views(from, to)))
    ensures from.input.Contents() == old(from.input.Contents())[if handled then matchLen else 0..]
    ensures Renewed(old(from.Beginning()), from.Beginning(), from.took, from.heard)
  {
    hide Endpoint.Valid, Act, Ready, Endpoint.Beginning, Renewed;
    RenewedSame(from.Beginning(), from.took, from.heard);
    match action
    case MccpIgnore => handled := MccpIgnore(from, to, matchLen, cfg);
    case Mccp2Do => handled := Mccp2Do(from, to, matchLen, cfg);
    case Mccp2Dont => handled := Mccp2Dont(from, to, matchLen, cfg);
    case Mccp2SbStart => handled := Mccp2SbStart(from, to, matchLen, cfg);
  }

  /** The handler attached to a pattern, called on its match at the head of the input. */
  method Invoke(action: Action, from: Endpoint, to: Endpoint, matchLen: nat, cfg: Config) returns (handled: bool)
    requires Linked(from, to) && matchLen <= from.input.Len()
    requires Ready(action, Views(from, to), from.input.Contents()[..matchLen])
    modifies from`matching, from`mnes, from`nego, from`base, from`wireBase
    modifies from`zd, from`wire, from`sent, from.zout, from.output`tail, from.output.data
    modifies from`zi, from`nextIn, from`availIn, from`took0, from`heard0, from`starts
    modifies from.input`tail, from.input.data
    modifies to`zd, to`wire, to`sent, to.zout, to.output`tail, to.output.data
    ensures Linked(from, to)
    ensures Reply(Views(from, to), handled)
         == Act(cfg, action, old(from.input.Contents()[..matchLen]), old(Views(from, to)))
    ensures from.input.Contents() == old(from.input.Contents())[if handled then matchLen else 0..]
    ensures Renewed(old(from.Beginning()), from.Beginning(), from.took, from.heard)
  {
    hide Endpoint.Valid, Act, Ready, Endpoint.Beginning, Renewed;
    RenewedSame(from.Beginning(), from.took, from.heard);
    if action.MnesRequest? || action.MnesDoes? || action.MnesClientWill? || action.MnesClientWont? {
      handled := InvokeMnes(action, from, to, matchLen, cfg);
    } else if action.RespondDo? || action.RespondDont? || action.RespondWont? {
      handled := InvokeResponse(action, from, to, matchLen, cfg);
    } else {
      handled := InvokeMccp(action, from, to, matchLen, cfg);
    }
  }

  // ---- The matching loop ----

  function RulesOf(cfg: Config, game: bool): (r: Rules<Pair>)
    ensures NonEmpty(r.patterns)
  {
    if game then GameRules(cfg) else ClientRules(cfg)
  }

  function TableOf(cfg: Config, game: bool): seq<Pattern> {
    if game then GamePatterns(cfg.gameMode) else ClientPatterns(cfg.clientMode)
  }

  ghost predicate SoundOf(cfg: Config, game: bool, p: Pair) {
    if game then Sound(cfg, p.to, p.from) else Sound(cfg, p.from, p.to)
  }

  /** The direction is set up with its table, and the session is sound. */
  ghost predicate Installed(cfg: Config, game: bool, from: Endpoint, to: Endpoint)
    requires from.output.Valid() && to.output.Valid()
    reads from, from.output, from.output.data, to, to.output, to.output.data
  {
    && from.patterns == TableOf(cfg, game)
    && from.re == RulesOf(cfg, game).patterns
    && SoundOf(cfg, game, Views(from, to))
  }

  lemma RulesMeaning(cfg: Config, game: bool, p: Pair, data: Bytes, k: nat, m: Bytes)
    ensures var r := RulesOf(cfg, game);
      && r.live(p) == p.from.matching
      && r.ship(p, data) == p.(to := Write(p.to, data, Relayed))
      && |r.patterns| == |TableOf(cfg, game)|
      && (k < |TableOf(cfg, game)| ==> r.act(p, k, m) == Act(cfg, TableOf(cfg, game)[k].action, m, p))
  {
    hide Act, Compiled, GamePatterns, ClientPatterns;
  }

  /** A sound session is ready for every handler of its tables. */
  lemma InstalledReady(cfg: Config, game: bool, p: Pair, k: nat)
    requires SoundOf(cfg, game, p) && k < |TableOf(cfg, game)|
    ensures k < |RulesOf(cfg, game).patterns|
    ensures Ready(TableOf(cfg, game)[k].action, p, RulesOf(cfg, game).patterns[k])
  {
    hide Compiled;
    if game {
      Runs.GameRulesLiterals(cfg);
    } else {
      Runs.ClientRulesLiterals(cfg);
    }
  }

  lemma ActSound(cfg: Config, game: bool, p: Pair, k: nat, m: Bytes)
    requires SoundOf(cfg, game, p) && k < |TableOf(cfg, game)|
    ensures SoundOf(cfg, game, Act(cfg, TableOf(cfg, game)[k].action, m, p).state)
  {
    hide Act, GamePatterns, ClientPatterns;
    if game {
      GameTableActions(cfg.gameMode, k);
      GameActSound(cfg, p, GamePatterns(cfg.gameMode)[k].action, m);
    } else {
      ClientTableActions(cfg.clientMode, k);
      ClientActSound(cfg, p, ClientPatterns(cfg.clientMode)[k].action, m);
    }
  }

  lemma StartInstallable(cfg: Config)
    ensures SoundOf(cfg, false, Pair(Start(cfg).client, Start(cfg).game))
    ensures SoundOf(cfg, true, Pair(Start(cfg).game, Start(cfg).client))
  {
    hide Start, Sound;
    StartSound(cfg);
  }

  lemma WriteSound(cfg: Config, game: bool, p: Pair, data: Bytes)
    requires SoundOf(cfg, game, p)
    ensures SoundOf(cfg, game, p.(to := Write(p.to, data, Relayed)))
  {
  }

  /** Ships the first bytes of the input to the other side. */
  method Ship(cfg: Config, game: bool, from: Endpoint, to: Endpoint, n: nat)
    requires Linked(from, to) && Installed(cfg, game, from, to) && 0 < n <= from.input.Len()
    modifies from.input`tail, from.input.data, to`zd, to`wire, to`sent, to.zout
    ensures Linked(from, to) && Installed(cfg, game, from, to)
    ensures Views(from, to) == RulesOf(cfg, game).ship(old(Views(from, to)), old(from.input.Contents())[..n])
    ensures from.input.Contents() == old(from.input.Contents())[n..]
  {
    hide Endpoint.Valid, RulesOf, TableOf, SoundOf, Write;
    var data := from.input.Front(n);
    RulesMeaning(cfg, game, Views(from, to), data, 0, []);
    WriteSound(cfg, game, Views(from, to), data);
    var _ := to.WriteEndpoint(data, Relayed);
    from.PopInput(n);
  }

  /** Calls the handler of alternative `k` on the match at the head of the input. */
  method CallHandler(cfg: Config, game: bool, from: Endpoint, to: Endpoint, matchLen: nat, k: nat)
    returns (handled: bool)
    requires Linked(from, to) && Installed(cfg, game, from, to)
    requires matchLen <= from.input.Len() && k < |RulesOf(cfg, game).patterns|
    requires from.input.Contents()[..matchLen] == RulesOf(cfg, game).patterns[k]
    modifies from`matching, from`mnes, from`nego, from`base, from`wireBase
    modifies from`zd, from`wire, from`sent, from.zout, from.output`tail, from.output.data
    modifies from`zi, from`nextIn, from`availIn, from`took0, from`heard0, from`starts
    modifies from.input`tail, from.input.data
    modifies to`zd, to`wire, to`sent, to.zout, to.output`tail, to.output.data
    ensures Linked(from, to) && Installed(cfg, game, from, to)
    ensures Reply(Views(from, to), handled)
         == RulesOf(cfg, game).act(old(Views(from, to)), k, RulesOf(cfg, game).patterns[k])
    ensures from.input.Contents() == old(from.input.Contents())[if handled then matchLen else 0..]
    ensures Renewed(old(from.Beginning()), from.Beginning(), from.took, from.heard)
  {
    hide Endpoint.Valid, RulesOf, TableOf, SoundOf, Act, Ready, Endpoint.Beginning, Renewed;
    ghost var m := from.re[k];
    ghost var p := Views(from, to);
    RulesMeaning(cfg, game, p, [], k, m);
    InstalledReady(cfg, game, p, k);
    ActSound(cfg, game, p, k, m);
    handled := Invoke(from.patterns[k].action, from, to, matchLen, cfg);
  }

  /** Calls the handler of alternative `k` on the match at the head of the input, and
      ships the match if the handler has left it. */
  method Dispatch(cfg: Config, game: bool, from: Endpoint, to: Endpoint, matchLen: nat, k: nat)
    requires Linked(from, to) && Installed(cfg, game, from, to)
    requires 0 < matchLen <= from.input.Len() && k < |RulesOf(cfg, game).patterns|
    requires from.input.Contents()[..matchLen] == RulesOf(cfg, game).patterns[k]
    modifies from`matching, from`mnes, from`nego, from`base, from`wireBase
    modifies from`zd, from`wire, from`sent, from.zout, from.output`tail, from.output.data
    modifies from`zi, from`nextIn, from`availIn, from`took0, from`heard0, from`starts
    modifies from.input`tail, from.input.data
    modifies to`zd, to`wire, to`sent, to.zout, to.output`tail, to.output.data
    ensures Linked(from, to) && Installed(cfg, game, from, to)
    ensures Views(from, to) == React(RulesOf(cfg, game), old(Views(from, to)), k, RulesOf(cfg, game).patterns[k])
    ensures from.input.Contents() == old(from.input.Contents())[matchLen..]
    ensures Renewed(old(from.Beginning()), from.Beginning(), from.took, from.heard)
  {
    hide Endpoint.Valid, RulesOf, Installed, Endpoint.Beginning, Renewed;
    var handled := CallHandler(cfg, game, from, to, matchLen, k);
    if !handled {
      Ship(cfg, game, from, to, matchLen);
    }
  }

  /** Deals with the match of alternative `k` at `start`: ships what precedes it, calls
      the handler, and ships the match if the handler has left it. */
  method HandleMatch(cfg: Config, game: bool, from: Endpoint, to: Endpoint, start: nat, end: nat, k: nat)
    requires Linked(from, to) && Installed(cfg, game, from, to)
    requires start < end <= from.input.Len() && k < |RulesOf(cfg, game).patterns|
    requires from.input.Contents()[start..end] == RulesOf(cfg, game).patterns[k]
    modifies from`matching, from`mnes, from`nego, from`base, from`wireBase
    modifies from`zd, from`wire, from`sent, from.zout, from.output`tail, from.output.data
    modifies from`zi, from`nextIn, from`availIn, from`took0, from`heard0, from`starts
    modifies from.input`tail, from.input.data
    modifies to`zd, to`wire, to`sent, to.zout, to.output`tail, to.output.data
    ensures Linked(from, to) && Installed(cfg, game, from, to)
    ensures Views(from, to)
         == AfterMatch(RulesOf(cfg, game), old(Views(from, to)), old(from.input.Contents()), start, k, end - start)
    ensures from.input.Contents() == old(from.input.Contents())[end..]
    ensures Renewed(old(from.Beginning()), from.Beginning(), from.took, from.heard)
  {
    hide Endpoint.Valid, RulesOf, Installed, Endpoint.Beginning, Renewed, React, AfterMatch;
    ghost var buf := from.input.Contents();
    MatchParts(RulesOf(cfg, game), Views(from, to), buf, start, k, end);
    if start > 0 {
      Ship(cfg, game, from, to, start);
    }
    Dispatch(cfg, game, from, to, end - start, k);
  }

  /** A match in the buffer, behind what precedes it. */
  lemma MatchParts(r: Rules<Pair>, p: Pair, buf: Bytes, start: nat, k: nat, end: nat)
    requires start <= end <= |buf|
    ensures buf[start..][..end - start] == buf[start..end] && buf[start..][end - start..] == buf[end..]
    ensures start == 0 ==> buf[start..] == buf
    ensures AfterMatch(r, p, buf, start, k, end - start)
         == React(r, if start > 0 then r.ship(p, buf[..start]) else p, k, buf[start..end])
  {
  }

  /** Searches the input for the next match, unless matching is disabled, which counts
      as finding none. */
  method Find(cfg: Config, game: bool, from: Endpoint, to: Endpoint) returns (ret: int, start: nat, end: nat)
    requires Linked(from, to) && Installed(cfg, game, from, to)
    ensures match Search(RulesOf(cfg, game), Views(from, to), from.input.Contents())
      case NoMatch => ret == PCRE2_ERROR_NOMATCH
      case Partial(_) => ret == PCRE2_ERROR_PARTIAL
      case Match(at, k, len) => ret == k + 2 && start == at && end == at + len
  {
    hide Endpoint.Valid, RulesOf, TableOf, SoundOf, Scan;
    RulesMeaning(cfg, game, Views(from, to), [], 0, []);
    ret, start, end := PCRE2_ERROR_NOMATCH, 0, 0;
    if from.matching {
      var subject := from.input.Front(from.input.Len());
      assert subject == from.input.Contents();
      ret, start, end := Pcre2Match(from.re, subject);
    }
  }

  lemma DrainCases(r: Rules<Pair>, p: Pair, buf: Bytes)
    requires NonEmpty(r.patterns) && buf != []
    ensures match Search(r, p, buf)
      case NoMatch => Drain(r, p, buf) == (r.ship(p, buf), [])
      case Partial(_) => Drain(r, p, buf) == (p, buf)
      case Match(at, k, len) =>
        && at + len <= |buf| && len > 0 && k < |r.patterns| && buf[at..at + len] == r.patterns[k]
        && var q, rest := AfterMatch(r, p, buf, at, k, len), buf[at + len..];
           Drain(r, p, buf) == if |rest| > 0 then Drain(r, q, rest) else (q, [])
  {
    hide AfterMatch;
  }

  /** One pass over the input: finds the next match, ships what precedes it and deals
      with it, or ships everything, or leaves everything. Goes on if something is left
      behind a match. */
  method Pass(cfg: Config, game: bool, from: Endpoint, to: Endpoint) returns (more: bool)
    requires Linked(from, to) && Installed(cfg, game, from, to) && from.input.Len() > 0
    modifies from`matching, from`mnes, from`nego, from`base, from`wireBase
    modifies from`zd, from`wire, from`sent, from.zout, from.output`tail, from.output.data
    modifies from`zi, from`nextIn, from`availIn, from`took0, from`heard0, from`starts
    modifies from.input`tail, from.input.data
    modifies to`zd, to`wire, to`sent, to.zout, to.output`tail, to.output.data
    ensures Linked(from, to) && Installed(cfg, game, from, to)
    ensures var after := Drain(RulesOf(cfg, game), old(Views(from, to)), old(from.input.Contents()));
      if more then Drain(RulesOf(cfg, game), Views(from, to), from.input.Contents()) == after
      else (Views(from, to), from.input.Contents()) == after
    ensures more ==> 0 < from.input.Len() < old(from.input.Len())
    ensures Renewed(old(from.Beginning()), from.Beginning(), from.took, from.heard)
  {
    hide Endpoint.Valid, RulesOf, Installed, AfterMatch, Search, Drain, Endpoint.Beginning, Renewed;
    RenewedSame(from.Beginning(), from.took, from.heard);
    DrainCases(RulesOf(cfg, game), Views(from, to), from.input.Contents());
    var ret, start, end := Find(cfg, game, from, to);
    if ret == PCRE2_ERROR_NOMATCH {
      assert from.input.Contents()[..from.input.Len()] == from.input.Contents();
      Ship(cfg, game, from, to, from.input.Len());
      more := false;
    } else if ret == PCRE2_ERROR_PARTIAL {
      more := false;
    } else {
      HandleMatch(cfg, game, from, to, start, end, ret - 2);
      more := from.input.Len() > 0;
    }
  }

  /** Processes what a read has brought, pass by pass. Each pass that is followed by
      another shrinks the buffer, so there are at most as many passes as bytes. */
  method Pump(cfg: Config, game: bool, from: Endpoint, to: Endpoint) returns (ghost passes: nat)
    requires Linked(from, to) && Installed(cfg, game, from, to) && from.input.Len() > 0
    modifies from`matching, from`mnes, from`nego, from`base, from`wireBase
    modifies from`zd, from`wire, from`sent, from.zout, from.output`tail, from.output.data
    modifies from`zi, from`nextIn, from`availIn, from`took0, from`heard0, from`starts
    modifies from.input`tail, from.input.data
    modifies to`zd, to`wire, to`sent, to.zout, to.output`tail, to.output.data
    ensures Linked(from, to) && Installed(cfg, game, from, to)
    ensures (Views(from, to), from.input.Contents())
         == Drain(RulesOf(cfg, game), old(Views(from, to)), old(from.input.Contents()))
    ensures 1 <= passes <= |old(from.input.Contents())|
    ensures Renewed(old(from.Beginning()), from.Beginning(), from.took, from.heard)
  {
    hide Endpoint.Valid, RulesOf, Installed, Drain, Endpoint.Beginning, Renewed;
    ghost var total := from.input.Len();
    ghost var first := from.Beginning();
    RenewedSame(first, from.took, from.heard);
    passes := 0;
    var more := true;
    while more
      invariant Linked(from, to) && Installed(cfg, game, from, to)
      invariant var after := Drain(RulesOf(cfg, game), old(Views(from, to)), old(from.input.Contents()));
        if more then Drain(RulesOf(cfg, game), Views(from, to), from.input.Contents()) == after
        else (Views(from, to), from.input.Contents()) == after
      invariant Renewed(first, from.Beginning(), from.took, from.heard)
      invariant more ==> from.input.Len() > 0 && passes + from.input.Len() <= total
      invariant !more ==> 1 <= passes <= total
      decreases more, from.input.Len()
    {
      passes := passes + 1;
      ghost var so := from.Beginning();
      more := Pass(cfg, game, from, to);
      RenewedTwice(first, so, from.Beginning(), from.took, from.heard);
    }
  }

  /** One readable side: reads once, and processes what has come. */
  method Serve(cfg: Config, game: bool, from: Endpoint, to: Endpoint) returns (got: Got)
    requires Linked(from, to) && Installed(cfg, game, from, to)
    modifies from`matching, from`mnes, from`nego, from`base, from`wireBase
    modifies from`zd, from`wire, from`sent, from.zout, from.output`tail, from.output.data
    modifies from`zi, from`nextIn, from`availIn, from`took0, from`heard0, from`starts
    modifies from.input`tail, from.input.data
    modifies to`zd, to`wire, to`sent, to.zout, to.output`tail, to.output.data
    modifies from`inbox, from.zin, from`took, from`heard
    ensures Linked(from, to) && Installed(cfg, game, from, to)
    ensures got == old(from.NextRead()) && to.NextRead() == old(to.NextRead())
    ensures old(from.zi).None? ==> (got, from.inbox) == SockRead(old(from.inbox), old(from.input.Avail()))
    ensures from.Supply() == old(from.Supply())
    ensures Renewed(old(from.Beginning()), from.Beginning(), from.took, from.heard)
    ensures from.heard == old(from.heard) + TextOf(got)
    ensures !got.Got? ==>
      Views(from, to) == old(Views(from, to)) && from.input.Contents() == old(from.input.Contents())
    ensures got.Got? ==>
      (Views(from, to), from.input.Contents())
        == Drain(RulesOf(cfg, game), old(Views(from, to)), old(from.input.Contents()) + got.text)
  {
    hide Endpoint.Valid, RulesOf, TableOf, SoundOf, Drain, Endpoint.NextRead, Endpoint.Supply;
    hide Endpoint.Beginning, Renewed, ReadLoop, SockRead, After;
    got := from.ReadEndpoint();
    RenewedSame(from.Beginning(), from.took, from.heard);
    if got.Got? {
      ghost var passes := Pump(cfg, game, from, to);
    }
  }

  // ---- Setting up ----

  /** Installs a table: adds its patterns, compiles them and enables matching. An
      expression that does not compile would end the program. */
  method Install(ep: Endpoint, table: seq<Pattern>, ghost literals: seq<Bytes>)
    requires ep.Valid() && ep.patterns == []
    requires table != [] && |table| <= 6 && forall i :: 0 <= i < |table| ==> |table[i].text| <= 7
    requires ReadAlternatives(RegexText(table)) == Some(literals)
    modifies ep`patterns, ep`re, ep`matching
    ensures ep.Valid() && ep.patterns == table && ep.re == literals
    ensures ep.View() == old(ep.View()).(matching := true)
  {
    hide Carries, Hears, LawfulDeflater, LawfulInflater, ReadAlternatives, RegexText;
    for i := 0 to |table|
      invariant ep.Valid() && ep.View() == old(ep.View())
      invariant ep.patterns == table[..i]
    {
      ep.AddPattern(table[i].text, table[i].action);
      assert table[..i + 1] == table[..i] + [table[i]];
    }
    assert table[..|table|] == table;
    RegexTextSize(table);
    var re := CompilePatterns(ep.patterns);
    ep.SetExpression(re.value);
    ep.EnableMatching();
  }

  /** Offers compression to an endpoint in enable mode. */
  method Offer(ep: Endpoint)
    requires ep.Valid() && ep.zd.None? && ep.output.Len() == 0
    modifies ep`zd, ep`wire, ep`sent, ep.zout, ep.output`tail, ep.output.data, ep`nego
    ensures ep.Valid() && ep.View() == OfferCompression(old(ep.View()), ep.mode)
  {
    hide Endpoint.Valid, Flush, Put;
    if ep.mode == Enable {
      ep.SendBytes(MCCP2_OFFER);
      ep.SetNego(Offered);
    }
  }

  /** Tells the game the client's address at once, if so configured. */
  method Announce(cfg: Config, ep: Endpoint)
    requires ep.Valid() && ep.zd.None?
    modifies ep`zd, ep`wire, ep`sent, ep.zout, ep.output`tail, ep.output.data
    ensures ep.Valid() && ep.View() == AnnounceAddress(cfg, old(ep.View()))
  {
    hide Endpoint.Valid, Flush, Format, Environ.MnesPair;
    if cfg.immediateIp {
      ep.SendText(Environ.MnesPair(Environ.IPADDRESS, cfg.address));
    }
  }

  lemma TablesInstallable(cfg: Config)
    ensures var t := GamePatterns(cfg.gameMode);
      t != [] && |t| <= 6 && forall i :: 0 <= i < |t| ==> |t[i].text| <= 7
    ensures var t := ClientPatterns(cfg.clientMode);
      t != [] && |t| <= 6 && forall i :: 0 <= i < |t| ==> |t[i].text| <= 7
    ensures ReadAlternatives(RegexText(GamePatterns(cfg.gameMode))) == Some(RulesOf(cfg, true).patterns)
    ensures ReadAlternatives(RegexText(ClientPatterns(cfg.clientMode))) == Some(RulesOf(cfg, false).patterns)
  {
    hide ReadAlternatives, RegexText, Compiled;
    GameTableCompiles(cfg.gameMode);
    ClientTableCompiles(cfg.clientMode);
  }

  /** Installs the table of the game's side or of the client's. */
  method AddPatterns(cfg: Config, game: bool, ep: Endpoint)
    requires ep.Valid() && ep.patterns == []
    modifies ep`patterns, ep`re, ep`matching
    ensures ep.Valid() && ep.patterns == TableOf(cfg, game) && ep.re == RulesOf(cfg, game).patterns
    ensures ep.View() == old(ep.View()).(matching := true)
  {
    hide Endpoint.Valid, RulesOf, GamePatterns, ClientPatterns, ReadAlternatives, RegexText;
    TablesInstallable(cfg);
    Install(ep, TableOf(cfg, game), RulesOf(cfg, game).patterns);
  }

  /** Two fresh endpoints, for the modes the configuration names. */
  ghost predicate Unused(client: Endpoint, game: Endpoint, cfg: Config)
    reads client.Repr(), game.Repr()
  {
    && Linked(client, game)
    && client.mode == cfg.clientMode && game.mode == cfg.gameMode
    && client.patterns == [] && game.patterns == []
    && client.View() == NewPeer().(matching := false) && game.View() == NewPeer().(matching := false)
    && client.input.Contents() == [] && game.input.Contents() == []
  }

  /** The tables of both directions. */
  ghost predicate Tabled(cfg: Config, client: Endpoint, game: Endpoint)
    reads client`patterns, client`re, game`patterns, game`re
  {
    && client.patterns == TableOf(cfg, false) && client.re == RulesOf(cfg, false).patterns
    && game.patterns == TableOf(cfg, true) && game.re == RulesOf(cfg, true).patterns
  }

  method AddTables(client: Endpoint, game: Endpoint, cfg: Config)
    requires Unused(client, game, cfg)
    modifies client`patterns, client`re, client`matching, game`patterns, game`re, game`matching
    ensures Linked(client, game) && Tabled(cfg, client, game)
    ensures client.View() == NewPeer() && game.View() == NewPeer()
  {
    hide Endpoint.Valid, RulesOf, TableOf;
    AddPatterns(cfg, true, game);
    AddPatterns(cfg, false, client);
  }

  method Greet(client: Endpoint, game: Endpoint, cfg: Config)
    requires Linked(client, game) && client.mode == cfg.clientMode
    requires client.View() == NewPeer() && game.View() == NewPeer()
    modifies client`nego
    modifies client`zd, client`wire, client`sent, client.zout, client.output`tail, client.output.data
    modifies game`zd, game`wire, game`sent, game.zout, game.output`tail, game.output.data
    ensures Linked(client, game)
    ensures client.View() == Start(cfg).client && game.View() == Start(cfg).game
  {
    hide Endpoint.Valid, OfferCompression, AnnounceAddress;
    Offer(client);
    Announce(cfg, game);
  }

  /** Everything before the loop: the tables, the offer and the address. */
  method SetUp(client: Endpoint, game: Endpoint, cfg: Config)
    requires Unused(client, game, cfg)
    modifies client.Repr(), game.Repr()
    ensures Linked(client, game)
    ensures client.View() == Start(cfg).client && game.View() == Start(cfg).game
    ensures Installed(cfg, false, client, game) && Installed(cfg, true, game, client)
    ensures client.input.Contents() == [] && game.input.Contents() == []
    ensures client.Played() == old(client.Played()) && game.Played() == old(game.Played())
  {
    hide Endpoint.Valid, RulesOf, TableOf, SoundOf, Endpoint.Played, Start, NewPeer;
    AddTables(client, game, cfg);
    Greet(client, game, cfg);
    StartInstallable(cfg);
  }

  // ---- The proxy ----

  /** A wake-up of the loop: the clock at its head, and which sides are readable. */
  datatype Poll = Poll(now: Time, clientReady: bool, gameReady: bool)

  /** What a turn has read from either side, if it has tried to, and what the socket had in
      store before and after it. */
  datatype Reads = Reads(
    client: Option<Got>,
    game: Option<Got>,
    clientInbox: seq<Recv>,
    clientRest: seq<Recv>,
    gameInbox: seq<Recv>,
    gameRest: seq<Recv>)

  /** The room for the next read behind what an input buffer holds. */
  function Room(held: Bytes): nat {
    if |held| <= EP_BUFSIZE then EP_BUFSIZE - |held| else 0
  }

  /** A socket that is not compressed is read into the room there is, and one that is not
      read keeps what it has. */
  ghost predicate FromSockets(s: Session, r: Reads) {
    && (r.client.Some? && s.client.starts == 0 ==>
          (r.client.value, r.clientRest) == SockRead(r.clientInbox, Room(s.clientBuf)))
    && (r.client.None? ==> r.clientRest == r.clientInbox)
    && (r.game.Some? && s.game.starts == 0 ==>
          (r.game.value, r.gameRest) == SockRead(r.gameInbox, Room(s.gameBuf)))
    && (r.game.None? ==> r.gameRest == r.gameInbox)
  }

  function Given(asked: Option<Got>): Got {
    if asked.Some? then asked.value else WouldBlock
  }

  function ClientRead(got: Got): seq<Step> {
    if got.Got? then [ClientText(got.text)] else []
  }

  function GameRead(got: Got): seq<Step> {
    if got.Got? then [GameText(got.text)] else []
  }

  /** A turn is a loop head and up to one read from either side. */
  function TurnSteps(now: Time, fromClient: Got, fromGame: Got): seq<Step> {
    [Step.LoopHead(now)] + ClientRead(fromClient) + GameRead(fromGame)
  }

  /** The steps of a sequence of turns. */
  function StepsOf(polls: seq<Poll>, log: seq<Reads>): seq<Step>
    requires |log| <= |polls|
    decreases |log|
  {
    if log == [] then []
    else
      var n := |log| - 1;
      StepsOf(polls, log[..n]) + TurnSteps(polls[n].now, Given(log[n].client), Given(log[n].game))
  }

  /** A turn reads from each side that is ready, unless the client's side has just ended the
      connection. */
  predicate AsPolled(poll: Poll, r: Reads) {
    && (r.client.Some? <==> poll.clientReady)
    && (r.game.Some? <==> poll.gameReady && r.client != Some(Eof) && r.client != Some(Error))
  }

  /** A turn that has not ended the connection, and the next, which finds the sockets as they
      were left. */
  predicate GoesOn(r: Reads, next: Reads) {
    && next.clientInbox == r.clientRest && next.gameInbox == r.gameRest
    && r.client != Some(Eof) && r.client != Some(Error) && r.game != Some(Eof) && r.game != Some(Error)
  }

  /** What a loop over wake-ups has read. */
  ghost predicate Logged(cfg: Config, s: Session, polls: seq<Poll>, log: seq<Reads>) {
    && |log| <= |polls|
    && (forall k :: 0 <= k < |log| ==> AsPolled(polls[k], log[k]))
    && (forall k :: 0 <= k < |log| ==> FromSockets(RunFrom(cfg, s, StepsOf(polls, log[..k])), log[k]))
    && (forall j, k :: 0 <= j < |log| && k == j + 1 && k < |log| ==> GoesOn(log[j], log[k]))
  }

  /** The log begins with what the sockets had at first and ends with what they have now. */
  ghost predicate Between(log: seq<Reads>, client: seq<Recv>, game: seq<Recv>, client': seq<Recv>, game': seq<Recv>) {
    if log == [] then client' == client && game' == game
    else
      && log[0].clientInbox == client && log[0].gameInbox == game
      && log[|log| - 1].clientRest == client' && log[|log| - 1].gameRest == game'
  }

  /** What the loop returns: 1 if the last turn has found a side closed, -1 if a read has
      failed, and 0 only when there are no more wake-ups. */
  ghost predicate Returned(polls: seq<Poll>, log: seq<Reads>, ret: int) {
    && (ret == 1 <==> log != [] && (log[|log| - 1].client == Some(Eof) || log[|log| - 1].game == Some(Eof)))
    && (ret == -1 <==> log != [] && (log[|log| - 1].client == Some(Error) || log[|log| - 1].game == Some(Error)))
    && (ret == 1 || ret == -1 || (ret == 0 && |log| == |polls|))
  }

  lemma {:induction false} LoggedMore(cfg: Config, s: Session, polls: seq<Poll>, log: seq<Reads>, seen: Reads)
    requires Logged(cfg, s, polls, log) && |log| < |polls|
    requires AsPolled(polls[|log|], seen) && FromSockets(RunFrom(cfg, s, StepsOf(polls, log)), seen)
    requires log != [] ==> GoesOn(log[|log| - 1], seen)
    ensures Logged(cfg, s, polls, log + [seen])
    ensures StepsOf(polls, log + [seen])
         == StepsOf(polls, log) + TurnSteps(polls[|log|].now, Given(seen.client), Given(seen.game))
  {
    hide RunFrom, FromSockets, TurnSteps, StepsOf, AsPolled, GoesOn;
    var more := log + [seen];
    StepsMore(polls, log, seen);
    forall k | 0 <= k < |more|
      ensures FromSockets(RunFrom(cfg, s, StepsOf(polls, more[..k])), more[k]) && AsPolled(polls[k], more[k])
    {
      if k < |log| {
        assert more[..k] == log[..k] && more[k] == log[k];
      } else {
        assert more[..k] == log && more[k] == seen;
      }
    }
    forall j, k | 0 <= j < |more| && k == j + 1 && k < |more|
      ensures GoesOn(more[j], more[k])
    {
      assert more[j] == log[j];
      if k < |log| {
        assert more[k] == log[k];
      } else {
        assert more[k] == seen;
      }
    }
  }

  lemma {:induction false} StepsMore(polls: seq<Poll>, log: seq<Reads>, seen: Reads)
    requires |log| < |polls|
    ensures StepsOf(polls, log + [seen])
         == StepsOf(polls, log) + TurnSteps(polls[|log|].now, Given(seen.client), Given(seen.game))
  {
    hide TurnSteps;
    assert (log + [seen])[..|log|] == log;
  }

  /** The connection ends with the turn in which the client's socket, which is never
      compressed, is ready and found closed, or failing. */
  lemma {:induction false} HangUpEnds(cfg: Config, polls: seq<Poll>, log: seq<Reads>, ret: int, k: nat)
    requires Logged(cfg, Start(cfg), polls, log) && Returned(polls, log, ret)
    requires k < |log| && polls[k].clientReady && log[k].clientInbox != []
    ensures log[k].clientInbox[0].Closed? ==> ret == 1 && |log| == k + 1
    ensures log[k].clientInbox[0].Trouble? ==> ret == -1 && |log| == k + 1
    ensures log[k].clientInbox[0].Again? && polls[k].gameReady ==> log[k].game.Some?
  {
    hide RunFrom, Start, Sound, StepsOf, SockRead, Stored;
    var steps := StepsOf(polls, log[..k]);
    var s := Run(cfg, steps);
    RunSound(cfg, steps);
    SoundRaw(cfg, s.client, s.game);
    SockReadExact(log[k].clientInbox, Room(s.clientBuf));
    assert FromSockets(s, log[k]) && AsPolled(polls[k], log[k]);
    var next := k + 1;
    assert next < |log| ==> GoesOn(log[k], log[next]);
  }

  lemma SoundRaw(cfg: Config, client: Peer, game: Peer)
    requires Sound(cfg, client, game)
    ensures client.starts == 0
  {
  }

  /** And so with a game that has not begun to compress, unless the client's side has ended
      it in the same turn. */
  lemma {:induction false} GameHangUpEnds(cfg: Config, polls: seq<Poll>, log: seq<Reads>, ret: int, k: nat)
    requires Logged(cfg, Start(cfg), polls, log) && Returned(polls, log, ret)
    requires k < |log| && polls[k].gameReady && log[k].gameInbox != []
    requires Run(cfg, StepsOf(polls, log[..k])).game.starts == 0
    requires log[k].client != Some(Eof) && log[k].client != Some(Error)
    ensures log[k].gameInbox[0].Closed? ==> ret == 1 && |log| == k + 1
    ensures log[k].gameInbox[0].Trouble? ==> ret == -1 && |log| == k + 1
  {
    hide RunFrom, Start, StepsOf, SockRead, Stored;
    var s := Run(cfg, StepsOf(polls, log[..k]));
    SockReadExact(log[k].gameInbox, Room(s.gameBuf));
    assert FromSockets(s, log[k]) && AsPolled(polls[k], log[k]);
    var next := k + 1;
    assert next < |log| ==> GoesOn(log[k], log[next]);
  }

  function AfterClient(cfg: Config, s: Session, got: Got): Session {
    if got.Got? then Next(cfg, s, ClientText(got.text)) else s
  }

  function AfterGame(cfg: Config, s: Session, got: Got): Session {
    if got.Got? then Next(cfg, s, GameText(got.text)) else s
  }

  /** The clock readings of the loop heads. */
  function Heads(steps: seq<Step>): seq<Time> {
    if steps == [] then []
    else (if steps[0].LoopHead? then [steps[0].now] else []) + Heads(steps[1..])
  }

  function Clocks(polls: seq<Poll>): seq<Time> {
    seq(|polls|, i requires 0 <= i < |polls| => polls[i].now)
  }

  /** Step number `m` is the last one in which the game's side switched to compressed
      input. */
  ghost predicate Began(cfg: Config, s: Session, steps: seq<Step>, m: nat) {
    && m < |steps|
    && RunFrom(cfg, s, steps[..m]).game.starts < RunFrom(cfg, s, steps[..m + 1]).game.starts
    && RunFrom(cfg, s, steps[..m + 1]).game.starts == RunFrom(cfg, s, steps).game.starts
  }

  /** And `heard0` is what had been heard by then, after `heard` at the start. */
  ghost predicate Opened(cfg: Config, s: Session, steps: seq<Step>, m: nat, heard: Bytes, heard0: Bytes) {
    Began(cfg, s, steps, m) && heard0 == heard + Runs.GameStream(steps[..m + 1])
  }

  lemma BeganNow(cfg: Config, s: Session, before: seq<Step>, step: Step)
    requires RunFrom(cfg, s, before).game.starts < RunFrom(cfg, s, before + [step]).game.starts
    ensures Began(cfg, s, before + [step], |before|)
  {
    hide RunFrom;
    assert (before + [step])[..|before|] == before && (before + [step])[..|before| + 1] == before + [step];
  }

  /** Steps in which the side does not switch again. */
  lemma OpenedBefore(cfg: Config, s: Session, steps: seq<Step>, more: seq<Step>, m: nat, heard: Bytes, heard0: Bytes)
    requires Opened(cfg, s, steps, m, heard, heard0)
    requires RunFrom(cfg, s, steps + more).game.starts == RunFrom(cfg, s, steps).game.starts
    ensures Opened(cfg, s, steps + more, m, heard, heard0)
  {
    hide RunFrom, Runs.GameStream;
    assert (steps + more)[..m] == steps[..m] && (steps + more)[..m + 1] == steps[..m + 1];
  }

  /** Steps in the last of which the side has switched. */
  lemma OpenedNow(cfg: Config, s: Session, steps: seq<Step>, init: seq<Step>, last: Step, heard: Bytes, heard0: Bytes)
    requires RunFrom(cfg, RunFrom(cfg, s, steps), init).game.starts
           < RunFrom(cfg, RunFrom(cfg, s, steps), init + [last]).game.starts
    requires heard0 == heard + Runs.GameStream(steps + (init + [last]))
    ensures Opened(cfg, s, steps + (init + [last]), |steps| + |init|, heard, heard0)
  {
    hide RunFrom, Runs.GameStream, Began;
    RunAppend(cfg, s, steps, init);
    RunAppend(cfg, s, steps, init + [last]);
    var before := steps + init;
    assert before + [last] == steps + (init + [last]);
    BeganNow(cfg, s, before, last);
    assert (before + [last])[..|before| + 1] == before + [last];
    BeganWithin(cfg, s, before + [last], |before|);
  }

  /** The account after a turn, from the one before it and what the turn has done. */
  lemma OpenedAfter(cfg: Config, s: Session, steps: seq<Step>, more: seq<Step>,
                    first: Account, was: Account, now: Account, began: nat, heard: Bytes) returns (m: nat)
    requires was == first || Opened(cfg, s, steps, began, heard, was.heard0)
    requires var before, after := RunFrom(cfg, s, steps), RunFrom(cfg, s, steps + more);
      && before.game.starts == was.starts && after.game.starts == now.starts
      && (now == was ||
          (more != [] && RunFrom(cfg, before, more[..|more| - 1]).game.starts < now.starts
           && after == RunFrom(cfg, before, more) && now.heard0 == heard + Runs.GameStream(steps + more)))
    ensures now == first || Opened(cfg, s, steps + more, m, heard, now.heard0)
  {
    hide RunFrom, Runs.GameStream, Opened, Began;
    m := began;
    if now != was {
      var init, last := more[..|more| - 1], more[|more| - 1];
      assert more == init + [last];
      OpenedNow(cfg, s, steps, init, last, heard, now.heard0);
      m := |steps| + |more| - 1;
    } else if was != first {
      OpenedBefore(cfg, s, steps, more, began, heard, was.heard0);
    }
  }

  lemma BeganWithin(cfg: Config, s: Session, steps: seq<Step>, m: nat)
    requires Began(cfg, s, steps, m)
    ensures m < |steps|
  {
  }

  class Proxy {
    const client: Endpoint
    const game: Endpoint
    const cfg: Config
    var deadline: Time

    ghost predicate Valid()
      reads this, client.Repr(), game.Repr()
      ensures Valid() ==> client.output.Valid() && game.output.Valid() && client.input.Valid() && game.input.Valid()
    {
      && this !in client.Repr() && this !in game.Repr()
      && Linked(client, game)
      && Installed(cfg, false, client, game) && Installed(cfg, true, game, client)
    }

    ghost function View(): Session
      requires client.output.Valid() && game.output.Valid() && client.input.Valid() && game.input.Valid()
      reads this, client, client.input, client.input.data, client.output, client.output.data
      reads game, game.input, game.input.data, game.output, game.output.data
    {
      Session(client.View(), game.View(), client.input.Contents(), game.input.Contents(), deadline)
    }

    constructor (client: Endpoint, game: Endpoint, cfg: Config)
      ensures this.client == client && this.game == game && this.cfg == cfg
      ensures deadline == Time(0, 0)
    {
      this.client, this.game, this.cfg := client, game, cfg;
      deadline := Time(0, 0);
    }

    /** Installs the tables, makes the offer and announces the address. */
    method Open()
      requires Unused(client, game, cfg) && this !in client.Repr() && this !in game.Repr() && deadline == Time(0, 0)
      modifies client.Repr(), game.Repr()
      ensures Valid() && View() == Start(cfg)
      ensures client.Played() == old(client.Played()) && game.Played() == old(game.Played())
    {
      hide Endpoint.Valid, Installed, Start, Endpoint.View, Endpoint.Played, Unused;
      SetUp(client, game, cfg);
      StartBuffers(cfg);
    }

    /** The head of the loop: arms the fallback timer, or answers for the client. */
    method LoopHead(now: Time)
      requires Valid()
      modifies this, client`mnes
      modifies game`zd, game`wire, game`sent, game.zout, game.output`tail, game.output.data
      ensures Valid()
      ensures View() == Head(cfg, old(View()), now)
      ensures client.Played() == old(client.Played()) && game.Played() == old(game.Played())
      ensures client.input.Avail() == old(client.input.Avail()) && game.input.Avail() == old(game.input.Avail())
      ensures client.NextRead() == old(client.NextRead()) && game.NextRead() == old(game.NextRead())
    {
      hide Valid, Arm, Flush, Put, Endpoint.Played, Endpoint.NextRead;
      if cfg.fallback && game.mnes == SaidDo && client.mnes == Silent {
        if deadline.sec == 0 {
          ArmTimer(now);
        } else if now.sec > deadline.sec || (now.sec == deadline.sec && now.nsec >= deadline.nsec) {
          AnswerForClient();
        }
      }
    }

    method ArmTimer(now: Time)
      requires Valid()
      modifies this`deadline
      ensures Valid() && View() == old(View()).(deadline := Arm(now, cfg.fallbackMs))
    {
      hide Endpoint.Valid, Endpoint.View, Installed, CDiv, CMod;
      var sec := now.sec + CDiv(cfg.fallbackMs, 1000);
      var nsec := now.nsec + CMod(cfg.fallbackMs, 1000) * 1_000_000;
      if nsec >= SECOND {
        sec, nsec := sec + 1, nsec - SECOND;
      }
      deadline := Time(sec, nsec);
    }

    /** Notes a refusal on behalf of the client and tells the game that it will. */
    method AnswerForClient()
      requires Valid()
      modifies client`mnes
      modifies game`zd, game`wire, game`sent, game.zout, game.output`tail, game.output.data
      ensures Valid()
      ensures View() == old(View()).(client := old(View()).client.(mnes := SaidWont),
                                     game := Flush(Put(old(View()).game, WILL_MNES)))
      ensures client.Played() == old(client.Played()) && game.Played() == old(game.Played())
      ensures client.NextRead() == old(client.NextRead()) && game.NextRead() == old(game.NextRead())
    {
      hide Endpoint.Valid, Flush, Put, TableOf, RulesOf, Endpoint.Played, Endpoint.NextRead;
      AnswerSound(cfg, client.View(), game.View());
      client.SetMnes(SaidWont);
      game.SendBytes(WILL_MNES);
    }

    /** The client's side is readable. */
    method ServeClient() returns (got: Got)
      requires Valid()
      modifies client`matching, client`mnes, client`nego, client`base, client`wireBase
      modifies client`zd, client`wire, client`sent, client.zout, client.output`tail, client.output.data
      modifies client`zi, client`nextIn, client`availIn, client`took0, client`heard0, client`starts
      modifies client.input`tail, client.input.data, client`inbox, client.zin, client`took, client`heard
      modifies game`zd, game`wire, game`sent, game.zout, game.output`tail, game.output.data
      ensures Valid()
      ensures View() == if got.Got? then Next(cfg, old(View()), ClientText(got.text)) else old(View())
      ensures client.heard == old(client.heard) + TextOf(got) && game.heard == old(game.heard)
      ensures got == old(client.NextRead()) && game.NextRead() == old(game.NextRead())
      ensures old(client.zi).None? ==>
        (got, client.inbox) == SockRead(old(client.inbox), old(client.input.Avail()))
      ensures game.inbox == old(game.inbox) && game.zi == old(game.zi)
      ensures game.input.Avail() == old(game.input.Avail())
      ensures game.Beginning() == old(game.Beginning())
      ensures client.Supply() == old(client.Supply()) && game.Supply() == old(game.Supply())
    {
      hide Endpoint.Valid, TableOf, Sound, Drain, ClientRules, Endpoint.NextRead, Endpoint.Supply, SockRead;
      got := Serve(cfg, false, client, game);
    }

    /** The game's side is readable. */
    method ServeGame() returns (got: Got)
      requires Valid()
      modifies game`matching, game`mnes, game`nego, game`base, game`wireBase
      modifies game`zd, game`wire, game`sent, game.zout, game.output`tail, game.output.data
      modifies game`zi, game`nextIn, game`availIn, game`took0, game`heard0, game`starts
      modifies game.input`tail, game.input.data, game`inbox, game.zin, game`took, game`heard
      modifies client`zd, client`wire, client`sent, client.zout, client.output`tail, client.output.data
      ensures Valid()
      ensures View() == if got.Got? then Next(cfg, old(View()), GameText(got.text)) else old(View())
      ensures game.heard == old(game.heard) + TextOf(got) && client.heard == old(client.heard)
      ensures got == old(game.NextRead())
      ensures old(game.zi).None? ==> (got, game.inbox) == SockRead(old(game.inbox), old(game.input.Avail()))
      ensures client.inbox == old(client.inbox)
      ensures Renewed(old(game.Beginning()), game.Beginning(), game.took, game.heard)
      ensures old(View()).game.starts == old(game.Beginning()).starts && View().game.starts == game.Beginning().starts
      ensures client.Supply() == old(client.Supply()) && game.Supply() == old(game.Supply())
    {
      hide Endpoint.Valid, TableOf, Sound, Drain, GameRules, Endpoint.NextRead, Endpoint.Supply, SockRead;
      got := Serve(cfg, true, game, client);
    }

    lemma StartsSeen()
      requires Valid()
      ensures View().game.starts == game.Beginning().starts
    {
    }

    /** Reads from the client's side if it is readable. */
    method PollClient(ready: bool) returns (got: Got)
      requires Valid()
      modifies client.Repr(), game.Repr()
      ensures Valid()
      ensures got == if ready then old(client.NextRead()) else WouldBlock
      ensures ready && old(client.zi).None? ==>
        (got, client.inbox) == SockRead(old(client.inbox), old(client.input.Avail()))
      ensures !ready ==> client.inbox == old(client.inbox)
      ensures game.inbox == old(game.inbox) && game.zi == old(game.zi)
      ensures game.input.Avail() == old(game.input.Avail())
      ensures View() == AfterClient(cfg, old(View()), got)
      ensures client.heard == old(client.heard) + TextOf(got) && game.heard == old(game.heard)
      ensures client.Supply() == old(client.Supply()) && game.Supply() == old(game.Supply())
      ensures game.NextRead() == old(game.NextRead()) && game.Beginning() == old(game.Beginning())
    {
      hide Valid, View, Next, SockRead, Endpoint.NextRead, Endpoint.Supply, Endpoint.Beginning;
      got := WouldBlock;
      if ready {
        got := ServeClient();
      }
    }

    /** Reads from the game's side if it is readable. */
    method PollGame(ready: bool) returns (got: Got)
      requires Valid()
      modifies client.Repr(), game.Repr()
      ensures Valid()
      ensures got == if ready then old(game.NextRead()) else WouldBlock
      ensures ready && old(game.zi).None? ==>
        (got, game.inbox) == SockRead(old(game.inbox), old(game.input.Avail()))
      ensures !ready ==> game.inbox == old(game.inbox)
      ensures client.inbox == old(client.inbox)
      ensures View() == AfterGame(cfg, old(View()), got)
      ensures game.heard == old(game.heard) + TextOf(got) && client.heard == old(client.heard)
      ensures client.Supply() == old(client.Supply()) && game.Supply() == old(game.Supply())
      ensures Renewed(old(game.Beginning()), game.Beginning(), game.took, game.heard)
      ensures old(View()).game.starts == old(game.Beginning()).starts && View().game.starts == game.Beginning().starts
    {
      hide Valid, View, Next, SockRead, Endpoint.NextRead, Endpoint.Supply, Endpoint.Beginning, Renewed;
      StartsSeen();
      RenewedSame(game.Beginning(), game.took, game.heard);
      got := WouldBlock;
      if ready {
        got := ServeGame();
      }
    }

    lemma RawExactly()
      requires Valid()
      ensures client.zi.None? <==> View().client.starts == 0
      ensures game.zi.None? <==> View().game.starts == 0
      ensures client.input.Avail() == Room(View().clientBuf) && game.input.Avail() == Room(View().gameBuf)
    {
    }

    /** One turn of the loop: its head, then one read from each side that is readable, the
        client's first, up to the first that finds its side closed or fails. A client that
        has nothing to read after all does not keep the game from being read. */
    method Turn(poll: Poll) returns (ret: int, ghost seen: Reads, ghost steps: seq<Step>)
      requires Valid()
      modifies this, client.Repr(), game.Repr()
      ensures Valid()
      ensures seen.client == if poll.clientReady then Some(old(client.NextRead())) else None
      ensures seen.game ==
        if poll.gameReady && (!poll.clientReady || old(client.NextRead()).Got? || old(client.NextRead()).WouldBlock?)
        then Some(old(game.NextRead())) else None
      ensures ret == 1 <==> seen.client == Some(Eof) || seen.game == Some(Eof)
      ensures ret == -1 <==> seen.client == Some(Error) || seen.game == Some(Error)
      ensures ret == 1 || ret == -1 || ret == 0
      ensures steps == [Step.LoopHead(poll.now)]
        + (match seen.client case Some(Got(text)) => [ClientText(text)] case _ => [])
        + (match seen.game case Some(Got(text)) => [GameText(text)] case _ => [])
      ensures steps == TurnSteps(poll.now, Given(seen.client), Given(seen.game))
      ensures client.heard == old(client.heard) + (match seen.client case Some(Got(text)) => text case _ => [])
      ensures game.heard == old(game.heard) + (match seen.game case Some(Got(text)) => text case _ => [])
      ensures seen.clientInbox == old(client.inbox) && seen.clientRest == client.inbox
      ensures seen.gameInbox == old(game.inbox) && seen.gameRest == game.inbox
      ensures FromSockets(old(View()), seen)
      ensures Heads(steps) == [poll.now]
      ensures game.Beginning() == old(game.Beginning())
        || (steps != [] && RunFrom(cfg, old(View()), steps[..|steps| - 1]).game.starts < game.Beginning().starts
            && game.Beginning().heard0 == game.heard)
      ensures View().game.starts == game.Beginning().starts
      ensures View() == RunFrom(cfg, old(View()), steps)
      ensures client.heard == old(client.heard) + Runs.ClientStream(steps)
      ensures game.heard == old(game.heard) + Runs.GameStream(steps)
      ensures client.Supply() == old(client.Supply()) && game.Supply() == old(game.Supply())
    {
      hide Valid, View, Head, AfterClient, AfterGame, RunFrom, Runs.ClientStream, Runs.GameStream, TurnSteps, Heads;
      hide Endpoint.NextRead, Endpoint.Supply, Endpoint.Beginning, SockRead, Room, FromSockets;
      ghost var start, clientInbox, gameInbox := View(), client.inbox, game.inbox;
      RawExactly();
      LoopHead(poll.now);
      var fromClient := PollClient(poll.clientReady);
      seen := Reads(if poll.clientReady then Some(fromClient) else None, None,
                     clientInbox, client.inbox, gameInbox, game.inbox);
      var fromGame := WouldBlock;
      if fromClient == Eof || fromClient == Error {
        ret := if fromClient == Eof then 1 else -1;
        StartsSeen();
      } else {
        fromGame := PollGame(poll.gameReady);
        seen := seen.(game := if poll.gameReady then Some(fromGame) else None, gameRest := game.inbox);
        ret := if fromGame == Eof then 1 else if fromGame == Error then -1 else 0;
      }
      steps := TurnSteps(poll.now, fromClient, fromGame);
      TurnRun(cfg, start, poll.now, fromClient, fromGame);
      TurnReads(poll.now, fromClient, fromGame, seen);
      SeenFrom(start, seen);
    }

    /** The loop over a sequence of wake-ups, a turn for each, up to the first in which a side
        ends the connection. Whatever is read, the session is the one that the loop heads and
        texts of those turns lead to, and the texts are exactly those heard from the two
        sides. */
    method MuditmProxy(polls: seq<Poll>)
      returns (ret: int, ghost turns: nat, ghost steps: seq<Step>, ghost log: seq<Reads>, ghost began: nat)
      requires Valid()
      modifies this, client.Repr(), game.Repr()
      ensures Valid()
      ensures |log| == turns <= |polls| && steps == StepsOf(polls, log)
      ensures forall k :: 0 <= k < turns ==> (log[k].client.Some? <==> polls[k].clientReady)
      ensures forall k :: 0 <= k < turns ==>
        (log[k].game.Some? <==> polls[k].gameReady && log[k].client != Some(Eof) && log[k].client != Some(Error))
      ensures forall k :: 0 <= k < turns - 1 ==>
        && log[k].client != Some(Eof) && log[k].client != Some(Error)
        && log[k].game != Some(Eof) && log[k].game != Some(Error)
      ensures ret == 1 <==> turns > 0 && (log[turns - 1].client == Some(Eof) || log[turns - 1].game == Some(Eof))
      ensures ret == -1 <==> turns > 0 && (log[turns - 1].client == Some(Error) || log[turns - 1].game == Some(Error))
      ensures ret == 1 || ret == -1 || (ret == 0 && turns == |polls|)
      ensures Logged(cfg, old(View()), polls, log) && Returned(polls, log, ret)
      ensures Between(log, old(client.inbox), old(game.inbox), client.inbox, game.inbox)
      ensures Heads(steps) == Clocks(polls[..turns])
      ensures View() == RunFrom(cfg, old(View()), steps)
      ensures client.heard == old(client.heard) + Runs.ClientStream(steps)
      ensures game.heard == old(game.heard) + Runs.GameStream(steps)
      ensures client.Supply() == old(client.Supply()) && game.Supply() == old(game.Supply())
      ensures game.Beginning() == old(game.Beginning())
        || Opened(cfg, old(View()), steps, began, old(game.heard), game.Beginning().heard0)
    {
      hide Opened, Began, Endpoint.Beginning, Clocks, Heads, Logged, FromSockets, TurnSteps, Returned, Between;
      hide StepsOf;
      hide Valid, View, RunFrom, Runs.ClientStream, Runs.GameStream, Endpoint.NextRead, Endpoint.Supply;
      ret, turns, steps, log, began := 0, 0, [], [], 0;
      ghost var start, heard, first := View(), game.heard, game.Beginning();
      Runs.NoStreams();
      NoHeadsYet(polls);
      NoSteps(cfg, View());
      NothingLogged(cfg, start, polls);
      NothingBetween(client.inbox, game.inbox);
      for i := 0 to |polls|
        invariant Valid() && turns == i && ret == 0
        invariant |log| == i && steps == StepsOf(polls, log) && Logged(cfg, start, polls, log)
        invariant Returned(polls[..i], log, 0)
        invariant Between(log, old(client.inbox), old(game.inbox), client.inbox, game.inbox)
        invariant Heads(steps) == Clocks(polls[..i])
        invariant game.Beginning() == old(game.Beginning())
          || Opened(cfg, old(View()), steps, began, old(game.heard), game.Beginning().heard0)
        invariant View() == RunFrom(cfg, old(View()), steps)
        invariant client.heard == old(client.heard) + Runs.ClientStream(steps)
        invariant game.heard == old(game.heard) + Runs.GameStream(steps)
        invariant client.Supply() == old(client.Supply()) && game.Supply() == old(game.Supply())
      {
        ghost var more, seen;
        ghost var was := game.Beginning();
        StartsSeen();
        ret, seen, more := Turn(polls[i]);
        RunAppend(cfg, old(View()), steps, more);
        TextsJoin(old(client.heard), old(game.heard), steps, more);
        HeadsAppend(steps, more);
        ClocksSnoc(polls, i);
        BetweenMore(log, old(client.inbox), old(game.inbox), seen);
        LoggedTurn(cfg, start, polls, log, seen, ret);
        began := OpenedAfter(cfg, start, steps, more, first, was, game.Beginning(), began, heard);
        turns, steps, log := i + 1, steps + more, log + [seen];
        if ret != 0 {
          LoggedMeans(cfg, start, polls, log, ret);
          return;
        }
      }
      assert polls[..|polls|] == polls;
      LoggedMeans(cfg, start, polls, log, ret);
    }
  }

  lemma BetweenMore(log: seq<Reads>, client: seq<Recv>, game: seq<Recv>, seen: Reads)
    requires Between(log, client, game, seen.clientInbox, seen.gameInbox)
    ensures Between(log + [seen], client, game, seen.clientRest, seen.gameRest)
    ensures log != [] ==>
      seen.clientInbox == log[|log| - 1].clientRest && seen.gameInbox == log[|log| - 1].gameRest
  {
  }

  lemma NothingBetween(client: seq<Recv>, game: seq<Recv>)
    ensures Between([], client, game, client, game)
  {
  }

  lemma {:induction false} NothingLogged(cfg: Config, s: Session, polls: seq<Poll>)
    ensures Logged(cfg, s, polls, []) && Returned(polls[..0], [], 0) && StepsOf(polls, []) == []
  {
  }

  lemma {:induction false} LoggedTurn(cfg: Config, s: Session, polls: seq<Poll>, log: seq<Reads>, seen: Reads, ret: int)
    requires Logged(cfg, s, polls, log) && Returned(polls[..|log|], log, 0) && |log| < |polls|
    requires seen.client.Some? <==> polls[|log|].clientReady
    requires seen.game.Some? <==> polls[|log|].gameReady && seen.client != Some(Eof) && seen.client != Some(Error)
    requires FromSockets(RunFrom(cfg, s, StepsOf(polls, log)), seen)
    requires log != [] ==>
      seen.clientInbox == log[|log| - 1].clientRest && seen.gameInbox == log[|log| - 1].gameRest
    requires ret == 1 <==> seen.client == Some(Eof) || seen.game == Some(Eof)
    requires ret == -1 <==> seen.client == Some(Error) || seen.game == Some(Error)
    requires ret == 1 || ret == -1 || ret == 0
    ensures Logged(cfg, s, polls, log + [seen])
    ensures Returned(polls[..|log| + 1], log + [seen], ret)
    ensures StepsOf(polls, log + [seen])
         == StepsOf(polls, log) + TurnSteps(polls[|log|].now, Given(seen.client), Given(seen.game))
  {
    hide Logged, FromSockets, TurnSteps, RunFrom, StepsOf;
    assert AsPolled(polls[|log|], seen);
    LoggedMore(cfg, s, polls, log, seen);
  }

  lemma {:induction false} LoggedMeans(cfg: Config, s: Session, polls: seq<Poll>, log: seq<Reads>, ret: int)
    requires Logged(cfg, s, polls, log) && Returned(polls[..|log|], log, ret) && (ret == 0 ==> |log| == |polls|)
    ensures Returned(polls, log, ret)
    ensures forall k :: 0 <= k < |log| ==> (log[k].client.Some? <==> polls[k].clientReady)
    ensures forall k :: 0 <= k < |log| ==>
      (log[k].game.Some? <==> polls[k].gameReady && log[k].client != Some(Eof) && log[k].client != Some(Error))
    ensures forall k :: 0 <= k < |log| - 1 ==>
      && log[k].client != Some(Eof) && log[k].client != Some(Error)
      && log[k].game != Some(Eof) && log[k].game != Some(Error)
    ensures ret == 1 <==> log != [] && (log[|log| - 1].client == Some(Eof) || log[|log| - 1].game == Some(Eof))
    ensures ret == -1 <==> log != [] && (log[|log| - 1].client == Some(Error) || log[|log| - 1].game == Some(Error))
    ensures ret == 1 || ret == -1 || ret == 0
  {
    hide FromSockets, RunFrom, StepsOf;
    forall k | 0 <= k < |log|
      ensures log[k].client.Some? <==> polls[k].clientReady
      ensures log[k].game.Some? <==> polls[k].gameReady && log[k].client != Some(Eof) && log[k].client != Some(Error)
    {
      assert AsPolled(polls[k], log[k]);
    }
    forall k | 0 <= k < |log| - 1
      ensures log[k].client != Some(Eof) && log[k].client != Some(Error)
      ensures log[k].game != Some(Eof) && log[k].game != Some(Error)
    {
      var next := k + 1;
      assert GoesOn(log[k], log[next]);
    }
  }

  lemma {:induction false} HeadsAppend(a: seq<Step>, b: seq<Step>)
    ensures Heads(a + b) == Heads(a) + Heads(b)
  {
    if a == [] {
      assert a + b == b;
    } else {
      assert (a + b)[0] == a[0] && (a + b)[1..] == a[1..] + b;
      HeadsAppend(a[1..], b);
      var head := if a[0].LoopHead? then [a[0].now] else [];
      assert head + (Heads(a[1..]) + Heads(b)) == head + Heads(a[1..]) + Heads(b);
    }
  }

  lemma TextsJoin(fromClient: Bytes, fromGame: Bytes, a: seq<Step>, b: seq<Step>)
    ensures fromClient + Runs.ClientStream(a) + Runs.ClientStream(b) == fromClient + Runs.ClientStream(a + b)
    ensures fromGame + Runs.GameStream(a) + Runs.GameStream(b) == fromGame + Runs.GameStream(a + b)
  {
    hide Runs.ClientStream, Runs.GameStream;
    Runs.StreamsAppend(a, b);
  }

  lemma NoHeadsYet(polls: seq<Poll>)
    ensures Heads([]) == Clocks(polls[..0])
  {
  }

  lemma ClocksSnoc(polls: seq<Poll>, i: nat)
    requires i < |polls|
    ensures Clocks(polls[..i + 1]) == Clocks(polls[..i]) + [polls[i].now]
  {
  }

  lemma NoSteps(cfg: Config, s: Session)
    ensures RunFrom(cfg, s, []) == s
  {
  }

  lemma StepAdded(cfg: Config, s: Session, steps: seq<Step>, step: Step)
    ensures (steps + [step])[..|steps|] == steps
    ensures RunFrom(cfg, s, steps + [step]) == Next(cfg, RunFrom(cfg, s, steps), step)
    ensures Runs.ClientStream(steps + [step]) == Runs.ClientStream(steps) + if step.ClientText? then step.text else []
    ensures Runs.GameStream(steps + [step]) == Runs.GameStream(steps) + if step.GameText? then step.text else []
    ensures Heads(steps + [step]) == Heads(steps) + if step.LoopHead? then [step.now] else []
  {
    hide Next;
    assert (steps + [step])[..|steps|] == steps;
    HeadsAppend(steps, [step]);
    assert [step][1..] == [];
  }

  lemma SeenFrom(s: Session, r: Reads)
    requires r.client.Some? && s.client.starts == 0 ==>
      (r.client.value, r.clientRest) == SockRead(r.clientInbox, Room(s.clientBuf))
    requires r.client.None? ==> r.clientRest == r.clientInbox
    requires r.game.Some? && s.game.starts == 0 ==>
      (r.game.value, r.gameRest) == SockRead(r.gameInbox, Room(s.gameBuf))
    requires r.game.None? ==> r.gameRest == r.gameInbox
    ensures FromSockets(s, r)
  {
  }

  lemma TurnReads(now: Time, fromClient: Got, fromGame: Got, r: Reads)
    requires fromClient == Given(r.client) && fromGame == Given(r.game)
    ensures TurnSteps(now, fromClient, fromGame) == [Step.LoopHead(now)]
      + (match r.client case Some(Got(text)) => [ClientText(text)] case _ => [])
      + (match r.game case Some(Got(text)) => [GameText(text)] case _ => [])
    ensures TextOf(fromClient) == (match r.client case Some(Got(text)) => text case _ => [])
    ensures TextOf(fromGame) == (match r.game case Some(Got(text)) => text case _ => [])
  {
  }

  /** The steps of a turn lead where its parts do. */
  lemma TurnRun(cfg: Config, s: Session, now: Time, fromClient: Got, fromGame: Got)
    ensures var steps := TurnSteps(now, fromClient, fromGame);
      var s1 := AfterClient(cfg, Head(cfg, s, now), fromClient);
      && Heads(steps) == [now]
      && Runs.ClientStream(steps) == TextOf(fromClient) && Runs.GameStream(steps) == TextOf(fromGame)
      && RunFrom(cfg, s, steps) == AfterGame(cfg, s1, fromGame)
      && (fromGame.Got? ==> steps != [] && RunFrom(cfg, s, steps[..|steps| - 1]) == s1)
      && (!fromGame.Got? ==> AfterGame(cfg, s1, fromGame) == s1)
  {
    hide Drain, Head, ClientRules, GameRules;
    Runs.NoStreams();
    NoSteps(cfg, s);
    var head := Step.LoopHead(now);
    StepAdded(cfg, s, [], head);
    assert [] + [head] == [head];
    hide RunFrom, Heads, Runs.ClientStream, Runs.GameStream;
    assert [head] + [] == [head];
    if fromClient.Got? {
      StepAdded(cfg, s, [head], ClientText(fromClient.text));
    }
    var steps := [head] + ClientRead(fromClient);
    assert steps + [] == steps;
    if fromGame.Got? {
      StepAdded(cfg, s, steps, GameText(fromGame.text));
    }
  }

  lemma AnswerSound(cfg: Config, client: Peer, game: Peer)
    requires Sound(cfg, client, game)
    ensures Sound(cfg, client.(mnes := SaidWont), Flush(Put(game, WILL_MNES)))
    ensures !game.deflating && game.output == []
  {
  }

  lemma StartBuffers(cfg: Config)
    ensures Start(cfg) == Session(Start(cfg).client, Start(cfg).game, [], [], Time(0, 0))
  {
  }

  // ---- From the first byte to the last ----

  /** The bytes written to an endpoint's socket are raw text that ends with the start
      marker at frame `n`, and then bytes that decode to everything handed over since. */
  ghost predicate WireDecodes(e: Endpoint, n: nat)
    reads e`wire, e`sent
  {
    && n + 5 <= |e.wire| && n + 5 <= |e.sent|
    && e.wire[..n + 5] == BytesOf(e.sent[..n]) + MCCP2_START
    && e.deflater.decode(e.wire[n + 5..]) == BytesOf(e.sent[n + 5..])
  }

  lemma ClientWire(e: Endpoint, n: nat)
    requires e.Valid() && Compressed(e.View(), n)
    ensures WireDecodes(e, n)
  {
    CarriesCompressed(e.deflater, e.View(), e.wire, e.base, e.wireBase, e.zd.value, n);
  }

  /** The bytes on the two sockets are what was handed over for them, in order: on the
      game's always, on the client's as long as nothing was compressed. And the client's
      text is what its socket gave, as the game's is until it compresses. */
  ghost predicate SocketsAgree(client: Endpoint, game: Endpoint)
    reads client, game
  {
    && game.wire == BytesOf(game.sent)
    && (client.zd.None? && AllPacked(client.sent, false) ==> client.wire == BytesOf(client.sent))
    && client.took == client.heard
    && (game.starts == 0 ==> game.took == game.heard)
  }

  lemma SocketsOfRun(cfg: Config, client: Endpoint, game: Endpoint, steps: seq<Step>)
    requires client.Valid() && game.Valid()
    requires client.View() == Run(cfg, steps).client && game.View() == Run(cfg, steps).game
    ensures SocketsAgree(client, game)
    ensures cfg.clientMode != Enable ==> client.wire == BytesOf(client.sent)
    ensures Raw(client.View()) ==> client.wire == BytesOf(client.sent)
  {
    hide Run, Endpoint.Valid, Carries, AllPacked, BytesOf, Only;
    RunSound(cfg, steps);
    RunPlain(cfg, steps);
    RawWire(client);
    RawWire(game);
  }

  /** What the game is to be spared is nowhere in the bytes on its socket, as long as the
      client sends commands. */
  ghost predicate GameSpared(cfg: Config, e: Endpoint, steps: seq<Step>)
    reads e`wire
  {
    forall ts :: Tokens.AllWellFormed(ts) && Runs.ClientStream(steps) <= Tokens.EncodeAll(ts) ==>
      && Interleaving.Spared(Tokens.FORBIDDEN, e.wire)
      && (cfg.clientMode == Disable && cfg.gameMode != Enable ==>
            Interleaving.Spared(Tokens.FORBIDDEN_DISABLED, e.wire))
  }

  lemma GameIsSpared(cfg: Config, e: Endpoint, steps: seq<Step>)
    requires ConfigOk(cfg) && e.wire == BytesOf(e.sent) && e.sent == Run(cfg, steps).game.sent
    ensures GameSpared(cfg, e, steps)
  {
    hide Run, BytesOf, Tokens.EncodeAll, Tokens.AllWellFormed, Interleaving.Spared, Runs.ClientStream;
    forall ts | Tokens.AllWellFormed(ts) && Runs.ClientStream(steps) <= Tokens.EncodeAll(ts)
      ensures Interleaving.Spared(Tokens.FORBIDDEN, e.wire)
      ensures cfg.clientMode == Disable && cfg.gameMode != Enable ==>
        Interleaving.Spared(Tokens.FORBIDDEN_DISABLED, e.wire)
    {
      Interleaving.GameNeverSees(cfg, steps, ts);
    }
  }

  lemma RawWire(e: Endpoint)
    requires e.Valid()
    ensures e.zd.None? && AllPacked(e.sent, false) ==> e.wire == BytesOf(e.sent)
    ensures e.starts == 0 ==> e.took == e.heard
  {
    hide AllPacked, BytesOf;
    if e.zd.None? && AllPacked(e.sent, false) {
      CarriesRaw(e.deflater, e.sent, e.wire, e.base, e.wireBase, e.zd);
    }
  }

  /** Since the latest start of compressed input the text fed to the matcher is the
      beginning of the decoding of the bytes the socket has given since; for the first
      start, the text before it is what the socket gave before it. */
  lemma HeardIsDecoded(e: Endpoint)
    requires e.Valid() && e.zi.Some?
    ensures e.took0 <= e.took && e.heard0 <= e.heard
    ensures e.heard[|e.heard0|..] <= e.inflater.decode(e.took[|e.took0|..])
    ensures e.starts == 1 ==> e.heard0 == e.took0
  {
    var z := e.zi.value;
    assert e.took[|e.took0|..] == z.fed + e.Left();
    assert e.heard[|e.heard0|..] == z.emitted;
    assert z.fed <= z.fed + e.Left();
  }

  lemma StartsInflate(e: Endpoint)
    requires e.Valid() && e.starts > 0
    ensures e.zi.Some?
  {
  }

  /** The game's first start marker, at `n` of its text, ends with the read that completes
      it, and no other one follows in its text. */
  ghost predicate StartsCleanly(cfg: Config, steps: seq<Step>, n: nat) {
    && cfg.gameMode == Enable
    && FirstMarker(Enable, Runs.GameStream(steps), n) && EndsRead(steps, n + 5)
    && n + 5 <= |Runs.GameStream(steps)| && NoMarker(Enable, Runs.GameStream(steps)[n + 5..])
  }

  /** The game's text is the first `n` bytes of its socket as they are, and then the
      beginning of the decoding of those after them. */
  ghost predicate TextDecodes(e: Endpoint, steps: seq<Step>, n: nat)
    reads e`took
  {
    var text := Runs.GameStream(steps);
    && n <= |text| && n <= |e.took|
    && text[..n] == e.took[..n]
    && text[n..] <= e.inflater.decode(e.took[n..])
  }

  /** Over a whole connection in which the game starts compressing cleanly: up to and
      including the start marker the text fed to the matcher is what the socket gave, and
      from there on it is a prefix of the decoding of all that the socket gave later. */
  lemma CompressedGame(cfg: Config, e: Endpoint, steps: seq<Step>, began: nat, n: nat)
    requires e.Valid() && e.View() == Run(cfg, steps).game && e.heard == Runs.GameStream(steps)
    requires e.starts > 0 ==> Opened(cfg, Start(cfg), steps, began, [], e.heard0)
    requires StartsCleanly(cfg, steps, n)
    ensures TextDecodes(e, steps, n + 5)
  {
    hide Endpoint.Valid, RunFrom, Runs.GameStream, FirstMarker, EndsRead, NoMarker, Start, Completes;
    var i, j, q := CompressionStarts(cfg, steps, n);
    assert e.starts == 1;
    BeganThere(cfg, steps, n, began);
    StartsInflate(e);
    HeardIsDecoded(e);
    var text := Runs.GameStream(steps);
    assert e.heard0 == text[..n + 5];
  }

  lemma HeldUnderPartial(ps: seq<Bytes>, text: Bytes)
    requires CommandsOnly(ps) && ps != [] && IAC !in text
    ensures Scan(ps, text + [IAC], 0) == Partial(|text|)
  {
    var s := text + [IAC];
    forall x | 0 <= x < |text| ensures RuledOut(ps, s, x, |ps|) {
      assert s[x] in text;
      InertRulesOut(ps, s, x);
    }
    assert RunsOff(ps[0], s, |text|) && RuledOut(ps, s, |text|, 0);
    assert Describes(Partial(|text|), ps, s, 0);
    VerdictUnique(ps, s, 0, Partial(|text|));
  }

  /** A read of as much as the buffer takes, of which the last byte may begin a command, is
      held back whole; the buffer is then full, and whatever the socket has next, the read
      of it looks like a hang-up. */
  lemma FullBufferHangsUp(cfg: Config, text: Bytes, c: byte, more: Bytes, rest: seq<Recv>)
    requires |text| == EP_BUFSIZE - 1 && IAC !in text
    ensures var held := Run(cfg, [ClientText(text + [IAC])]).clientBuf;
      && |held| == EP_BUFSIZE
      && SockRead([Data(c, more)] + rest, EP_BUFSIZE - |held|).0 == Eof
  {
    hide Start, Compiled, Scan, Sound;
    var p := Pair(Start(cfg).client, Start(cfg).game);
    var s := text + [IAC];
    OneStep(cfg, ClientText(s));
    StartSound(cfg);
    StartBuffers(cfg);
    Runs.ClientRulesLiterals(cfg);
    HeldUnderPartial(ClientRules(cfg).patterns, text);
    assert [] + s == s;
    assert p.from.matching by { SoundMatches(cfg, p.from, p.to); }
    assert Drain(ClientRules(cfg), p, s) == (p, s);
  }

  lemma SoundMatches(cfg: Config, client: Peer, game: Peer)
    requires Sound(cfg, client, game)
    ensures client.matching
  {
  }

  lemma HangUps(cfg: Config, polls: seq<Poll>, log: seq<Reads>, ret: int)
    requires Logged(cfg, Start(cfg), polls, log) && Returned(polls, log, ret)
    ensures |log| <= |polls|
    ensures forall k :: 0 <= k < |log| && polls[k].clientReady && log[k].clientInbox != [] ==>
      && (log[k].clientInbox[0].Closed? ==> ret == 1 && |log| == k + 1)
      && (log[k].clientInbox[0].Trouble? ==> ret == -1 && |log| == k + 1)
  {
    assert |log| <= |polls|;
    hide Logged, Returned, Start;
    forall k | 0 <= k < |log| && polls[k].clientReady && log[k].clientInbox != []
      ensures log[k].clientInbox[0].Closed? ==> ret == 1 && |log| == k + 1
      ensures log[k].clientInbox[0].Trouble? ==> ret == -1 && |log| == k + 1
    {
      HangUpEnds(cfg, polls, log, ret, k);
    }
  }

  /** What the sockets have to do with the run that has been made of them. */
  lemma SocketsAndRun(cfg: Config, client: Endpoint, game: Endpoint, steps: seq<Step>, began: nat)
    requires client.Valid() && game.Valid()
    requires client.View() == Run(cfg, steps).client && game.View() == Run(cfg, steps).game
    requires client.heard == Runs.ClientStream(steps) && game.heard == Runs.GameStream(steps)
    requires game.starts > 0 ==> Opened(cfg, Start(cfg), steps, began, [], game.heard0)
    ensures client.took == Runs.ClientStream(steps)
    ensures game.starts == 0 ==> game.took == Runs.GameStream(steps)
    ensures game.wire == BytesOf(game.sent) && (ConfigOk(cfg) ==> GameSpared(cfg, game, steps))
    ensures cfg.clientMode != Enable || Raw(client.View()) ==> client.wire == BytesOf(client.sent)
    ensures cfg.clientMode == Enable && Orderly(false, ClientOrders(cfg, steps)) ==>
      InPhase(client.View(), true in ClientOrders(cfg, steps))
    ensures forall n: nat :: Compressed(client.View(), n) ==> WireDecodes(client, n)
    ensures forall n: nat :: StartsCleanly(cfg, steps, n) ==> TextDecodes(game, steps, n + 5)
  {
    hide Endpoint.Valid, RunFrom, Compressed, InPhase, BytesOf, Orderly, ClientOrders;
    hide Opened, StartsCleanly, TextDecodes, WireDecodes, Start, Raw, GameSpared;
    SocketsOfRun(cfg, client, game, steps);
    if ConfigOk(cfg) {
      GameIsSpared(cfg, game, steps);
    }
    if cfg.clientMode == Enable && Orderly(false, ClientOrders(cfg, steps)) {
      WireShape(cfg, steps);
    }
    forall n: nat | Compressed(client.View(), n) ensures WireDecodes(client, n) {
      ClientWire(client, n);
    }
    forall n: nat | StartsCleanly(cfg, steps, n) ensures TextDecodes(game, steps, n + 5) {
      CompressedGame(cfg, game, steps, began, n);
    }
  }

  /** A whole connection. The session is a run, so every theorem about runs holds of it,
      and the sockets agree with it: all that was handed over for the game is on its socket,
      in order, and for the client as long as nothing was compressed; once compression has
      been accepted, and not withdrawn, what the client can decode from its socket is what
      was relayed to it; and what the two sides are heard to say is what their sockets
      gave, decoded from where the game starts to compress. */
  method Connection(client: Endpoint, game: Endpoint, cfg: Config, polls: seq<Poll>)
    returns (proxy: Proxy, ret: int, ghost turns: nat, ghost steps: seq<Step>, ghost log: seq<Reads>,
             ghost began: nat)
    requires Unused(client, game, cfg)
    requires client.heard == [] && game.heard == [] && game.starts == 0
    modifies client.Repr(), game.Repr()
    ensures fresh(proxy) && proxy.Valid()
    ensures proxy.client == client && proxy.game == game && proxy.cfg == cfg
    ensures proxy.View() == Run(cfg, steps)
    ensures |log| == turns <= |polls| && steps == StepsOf(polls, log)
    ensures Logged(cfg, Start(cfg), polls, log) && Returned(polls, log, ret)
    ensures Between(log, old(client.inbox), old(game.inbox), client.inbox, game.inbox)
    ensures forall k :: 0 <= k < turns && polls[k].clientReady && log[k].clientInbox != [] ==>
      && (log[k].clientInbox[0].Closed? ==> ret == 1 && turns == k + 1)
      && (log[k].clientInbox[0].Trouble? ==> ret == -1 && turns == k + 1)
    ensures Heads(steps) == Clocks(polls[..turns])
    ensures client.heard == Runs.ClientStream(steps) && game.heard == Runs.GameStream(steps)
    ensures client.took == Runs.ClientStream(steps)
    ensures game.starts == 0 ==> game.took == Runs.GameStream(steps)
    ensures game.wire == BytesOf(game.sent) && (ConfigOk(cfg) ==> GameSpared(cfg, game, steps))
    ensures cfg.clientMode != Enable || Raw(proxy.View().client) ==> client.wire == BytesOf(client.sent)
    ensures client.Supply() == old(client.Supply()) && game.Supply() == old(game.Supply())
    ensures game.starts > 0 ==> Opened(cfg, Start(cfg), steps, began, [], game.heard0)
    ensures cfg.clientMode == Enable && Orderly(false, ClientOrders(cfg, steps)) ==>
      InPhase(proxy.View().client, true in ClientOrders(cfg, steps))
    ensures forall n: nat :: Compressed(proxy.View().client, n) ==> WireDecodes(client, n)
    ensures forall n: nat :: StartsCleanly(cfg, steps, n) ==> TextDecodes(game, steps, n + 5)
  {
    hide Endpoint.Valid, RunFrom, Compressed, InPhase, BytesOf, Orderly, ClientOrders;
    hide Runs.ClientStream, Runs.GameStream;
    hide Logged, Returned, Between, StepsOf;
    hide Opened, StartsCleanly, TextDecodes, WireDecodes, Clocks, Heads, Unused, Start, Raw, GameSpared;
    proxy := new Proxy(client, game, cfg);
    proxy.Open();
    ret, turns, steps, log, began := proxy.MuditmProxy(polls);
    HangUps(cfg, polls, log, ret);
    SocketsAndRun(cfg, client, game, steps, began);
  }

  /** From two sockets to the end of the connection, for any bytes the sockets have in
      store, any wake-ups, and any codec that meets the laws. */
  method HandleClient(cfg: Config, deflater: Deflater, inflater: Inflater,
                      fromClient: seq<Recv>, fromGame: seq<Recv>, polls: seq<Poll>)
    returns (proxy: Proxy, ret: int, ghost turns: nat, ghost steps: seq<Step>, ghost log: seq<Reads>)
    requires LawfulDeflater(deflater) && deflater.minRoom <= EP_BUFSIZE && LawfulInflater(inflater)
    ensures fresh(proxy) && proxy.Valid() && proxy.cfg == cfg
    ensures proxy.client.deflater == proxy.game.deflater == deflater
    ensures proxy.client.inflater == proxy.game.inflater == inflater
    ensures proxy.View() == Run(cfg, steps)
    ensures |log| == turns <= |polls| && steps == StepsOf(polls, log)
    ensures Logged(cfg, Start(cfg), polls, log) && Returned(polls, log, ret)
    ensures Between(log, fromClient, fromGame, proxy.client.inbox, proxy.game.inbox)
    ensures forall k :: 0 <= k < turns && polls[k].clientReady && log[k].clientInbox != [] ==>
      && (log[k].clientInbox[0].Closed? ==> ret == 1 && turns == k + 1)
      && (log[k].clientInbox[0].Trouble? ==> ret == -1 && turns == k + 1)
    ensures Heads(steps) == Clocks(polls[..turns])
    ensures proxy.client.heard == Runs.ClientStream(steps) && proxy.game.heard == Runs.GameStream(steps)
    ensures proxy.client.took <= Stored(fromClient) && proxy.game.took <= Stored(fromGame)
    ensures proxy.client.took == Runs.ClientStream(steps)
    ensures proxy.game.starts == 0 ==> proxy.game.took == Runs.GameStream(steps)
    ensures proxy.game.wire == BytesOf(proxy.game.sent) && (ConfigOk(cfg) ==> GameSpared(cfg, proxy.game, steps))
    ensures cfg.clientMode != Enable || Raw(proxy.View().client) ==>
      proxy.client.wire == BytesOf(proxy.client.sent)
    ensures cfg.clientMode == Enable && Orderly(false, ClientOrders(cfg, steps)) ==>
      InPhase(proxy.View().client, true in ClientOrders(cfg, steps))
    ensures forall n: nat :: Compressed(proxy.View().client, n) ==> WireDecodes(proxy.client, n)
    ensures forall n: nat :: StartsCleanly(cfg, steps, n) ==> TextDecodes(proxy.game, steps, n + 5)
  {
    hide Endpoint.Valid, Run, Runs.ClientStream, Runs.GameStream, LawfulDeflater, LawfulInflater, Stored;
    hide StartsCleanly, TextDecodes, WireDecodes, Compressed, InPhase, Orderly, ClientOrders;
    hide Clocks, Heads, Raw, GameSpared, Logged, Between, Returned, StepsOf, Start;
    var client := new Endpoint(cfg.clientMode, deflater, inflater, fromClient);
    var game := new Endpoint(cfg.gameMode, deflater, inflater, fromGame);
    ghost var began: nat;
    proxy, ret, turns, steps, log, began := Connection(client, game, cfg, polls);
  }
}
