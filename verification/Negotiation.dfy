/** What the two directions do over whole runs: who is sent what, in which order,
    and what the game is told about the client's compression. */
module Negotiation {
  import opened Telnet
  import opened Patterns
  import opened Rewriter
  import opened Handlers
  import opened Sessions
  import opened Environ

  /** The configured texts fit the buffers and cannot be mistaken for structure. */
  ghost predicate ConfigOk(cfg: Config) {
    && Clean(cfg.proxyName) && Clean(cfg.address) && |cfg.address| < 46
    && (forall i :: 0 <= i < |cfg.reportVars| ==> Clean(cfg.reportVars[i]))
    && |Encode(Reports(cfg, Accepted))| < EP_BUFSIZE
    && |Encode(Reports(cfg, Refused))| < EP_BUFSIZE
  }

  // ---- The reply to a request ----

  /** A reply that fits is queued whole. */
  lemma {:induction false} QueueFits(p: Peer, reports: seq<Report>)
    requires |p.output| + |Encode(reports)| < EP_BUFSIZE
    ensures Queue(p, reports) == p.(output := p.output + Encode(reports))
    decreases |reports|
  {
    if reports == [] {
      assert p.output + [] == p.output;
    } else {
      var pair := MnesPair(reports[0].name, reports[0].value);
      hide MnesPair;
      var q := p.(output := p.output + pair);
      assert Format(p, pair) == q;
      QueueFits(q, reports[1..]);
      assert p.output + (pair + Encode(reports[1..])) == q.output + Encode(reports[1..]);
    }
  }

  lemma ReportsClean(cfg: Config, nego: Nego)
    requires ConfigOk(cfg)
    ensures AllClean(Reports(cfg, nego)) && |Encode(Reports(cfg, nego))| < EP_BUFSIZE
  {
    hide Encode;
    assert nego != Accepted ==> Reports(cfg, nego) == Reports(cfg, Refused);
    assert Clean(PROXY_NAME) && Clean(COMPRESSION) && Clean(TEXT_MCCP2) && Clean(TEXT_NONE);
  }

  lemma {:induction false} UnderstoodEach(reports: seq<Report>)
    ensures |Understood(reports)| == |reports|
    ensures forall i :: 0 <= i < |reports| ==>
      Understood(reports)[i] == Env([Setting(reports[i].name, Some(reports[i].value))])
  {
    if reports != [] {
      UnderstoodEach(reports[1..]);
    }
  }

  lemma ReportsListed(cfg: Config, nego: Nego)
    ensures var all := Understood(Reports(cfg, nego));
      && |all| == 2 + |cfg.reportVars|
      && all[0] == Env([Setting(PROXY_NAME, Some(cfg.proxyName))])
      && all[1] == Env([Setting(COMPRESSION, Some(if nego == Accepted then TEXT_MCCP2 else TEXT_NONE))])
      && forall i :: 0 <= i < |cfg.reportVars| ==> all[2 + i] == Env([Setting(cfg.reportVars[i], Some(cfg.address))])
  {
    hide Understood;
    UnderstoodEach(Reports(cfg, nego));
  }

  /** The bytes written to an endpoint that asks for the environment are read
      back as the proxy name, the compression status and every configured variable
      with the address, in that order. */
  lemma ReplyRoundTrip(cfg: Config, p: Peer, nego: Nego)
    requires ConfigOk(cfg) && p.output == [] && !p.deflating
    ensures var q := Flush(Queue(p, Reports(cfg, nego)));
      && q == p.(sent := p.sent + Frames(Encode(Reports(cfg, nego)), Injected, false))
      && var heard := Receive(Encode(Reports(cfg, nego)));
        && heard.Some? && |heard.value| == 2 + |cfg.reportVars|
        && heard.value[0] == Env([Setting(PROXY_NAME, Some(cfg.proxyName))])
        && heard.value[1] == Env([Setting(COMPRESSION, Some(if nego == Accepted then TEXT_MCCP2 else TEXT_NONE))])
        && forall i :: 0 <= i < |cfg.reportVars| ==>
          heard.value[2 + i] == Env([Setting(cfg.reportVars[i], Some(cfg.address))])
  {
    ReportsListed(cfg, nego);
    hide Reports, Encode;
    ReportsClean(cfg, nego);
    QueueFits(p, Reports(cfg, nego));
    ReportsAreRead(Reports(cfg, nego));
    assert [] + Encode(Reports(cfg, nego)) == Encode(Reports(cfg, nego));
  }

  // ---- One match on the game side ----

  /** What the proxy answers the game on a match, for a client in state `nego`. */
  function Answer(cfg: Config, nego: Nego, action: Action, m: Bytes): Bytes {
    match action
    case MnesRequest => Encode(Reports(cfg, nego))
    case RespondDo => [IAC, DO, OptionOf(m)]
    case RespondDont => [IAC, DONT, OptionOf(m)]
    case RespondWont => [IAC, WONT, OptionOf(m)]
    case _ => []
  }

  lemma FlushOnly(p: Peer, text: Bytes)
    requires p.output == text && !p.deflating
    ensures var q := Flush(p);
      && q.output == []
      && InjectedTo(q) == InjectedTo(p) + text
      && RelayedTo(q) == RelayedTo(p)
      && q == p.(sent := q.sent, output := [])
  {
    WriteOnly(p, p.output, Injected);
  }

  lemma GameActEffect(cfg: Config, p: Pair, action: Action, m: Bytes)
    requires GameAction(cfg.gameMode, action) && Sound(cfg, p.to, p.from) && ConfigOk(cfg)
    ensures var q := Act(cfg, action, m, p).state;
      && InjectedTo(q.from) == InjectedTo(p.from) + Answer(cfg, p.to.nego, action, m)
      && RelayedTo(q.from) == RelayedTo(p.from)
      && q.to == p.to
      && q.from.mnes == (if action == MnesDoes then SaidDo else p.from.mnes)
  {
    hide Reports, Only, Encode, ConfigOk;
    if action == MnesRequest {
      ReportsClean(cfg, p.to.nego);
      QueueFits(p.from, Reports(cfg, p.to.nego));
      var queued := Queue(p.from, Reports(cfg, p.to.nego));
      assert queued.output == Encode(Reports(cfg, p.to.nego));
      FlushOnly(queued, queued.output);
    } else if action == RespondDo || action == RespondDont {
      var verb := if action == RespondDo then DO else DONT;
      var text := [IAC, verb, OptionOf(m)];
      var queued := Format(p.from, text);
      assert queued.output == text;
      FlushOnly(queued, text);
    } else {
      assert Act(cfg, action, m, p).state.from.sent == p.from.sent;
    }
  }

  // ---- The game's text ----

  function AnswerTo(cfg: Config, nego: Nego, e: Entry): Bytes {
    if e.Text? || e.alt >= |GamePatterns(cfg.gameMode)| then []
    else Answer(cfg, nego, GamePatterns(cfg.gameMode)[e.alt].action, e.text)
  }

  /** The proxy's answers to the matches in the game's text, in order. */
  function Answers(cfg: Config, nego: Nego, j: seq<Entry>): Bytes {
    if j == [] then [] else AnswerTo(cfg, nego, j[0]) + Answers(cfg, nego, j[1..])
  }

  /** Whether the game asks for NEW-ENVIRON, with DO, among the matches. */
  predicate Asks(j: seq<Entry>) {
    j != [] && ((!j[0].Text? && j[0].alt == 2) || Asks(j[1..]))
  }

  lemma {:induction false} AsksAppend(i: seq<Entry>, j: seq<Entry>)
    ensures Asks(i + j) <==> Asks(i) || Asks(j)
  {
    if i == [] {
      assert i + j == j;
    } else {
      assert (i + j)[1..] == i[1..] + j;
      AsksAppend(i[1..], j);
    }
  }

  lemma AsksTwo(text: Bytes, e: Entry)
    ensures Asks([Text(text), e]) <==> !e.Text? && e.alt == 2
  {
    assert [Text(text), e][1..] == [e];
    assert [e][1..] == [];
    assert Asks([e]) <==> !e.Text? && e.alt == 2;
  }

  /** Between reads of the game's text only this much of the client changes. */
  ghost predicate OnlySent(p: Peer, q: Peer) {
    q == p.(sent := q.sent)
  }

  /** From `p` to `q` the client has received exactly the text that was not consumed and
      nothing else, the game has been forwarded nothing, and counts as asking for
      NEW-ENVIRON if it has asked. */
  ghost predicate GameForwards(cfg: Config, p: Pair, q: Pair, j: seq<Entry>) {
    && Sound(cfg, q.to, q.from) && OnlySent(p.to, q.to)
    && RelayedTo(q.to) == RelayedTo(p.to) + Passed(j)
    && InjectedTo(q.to) == InjectedTo(p.to)
    && RelayedTo(q.from) == RelayedTo(p.from)
    && q.from.mnes == (if Asks(j) then SaidDo else p.from.mnes)
  }

  /** And the game has been sent exactly one answer to each match that calls for one, in
      order. */
  ghost predicate GameEffect(cfg: Config, p: Pair, q: Pair, j: seq<Entry>) {
    GameForwards(cfg, p, q, j) && InjectedTo(q.from) == InjectedTo(p.from) + Answers(cfg, p.to.nego, j)
  }

  lemma GameForwardsThen(cfg: Config, p: Pair, q: Pair, t: Pair, here: seq<Entry>, j: seq<Entry>)
    requires GameForwards(cfg, p, q, here) && GameForwards(cfg, q, t, j)
    ensures GameForwards(cfg, p, t, here + j)
  {
    hide Sound, Only, Passed, Asks;
    AsksAppend(here, j);
    PassedAppend(here, j);
  }

  lemma GameEffectThen(cfg: Config, p: Pair, q: Pair, t: Pair, here: seq<Entry>, j: seq<Entry>)
    requires GameEffect(cfg, p, q, here) && GameEffect(cfg, q, t, j)
    ensures GameEffect(cfg, p, t, here + j)
  {
    hide Sound, Only, Passed, Answers, Asks;
    GameForwardsThen(cfg, p, q, t, here, j);
    AnswersAppend(cfg, p.to.nego, here, j);
  }

  lemma {:induction false} AnswersAppend(cfg: Config, nego: Nego, i: seq<Entry>, j: seq<Entry>)
    ensures Answers(cfg, nego, i + j) == Answers(cfg, nego, i) + Answers(cfg, nego, j)
  {
    hide AnswerTo;
    if i == [] {
      assert i + j == j;
    } else {
      assert (i + j)[1..] == i[1..] + j;
      AnswersAppend(cfg, nego, i[1..], j);
    }
  }

  lemma TwoEntries(cfg: Config, nego: Nego, text: Bytes, e: Entry)
    ensures Passed([Text(text), e]) == text + if e.Eaten? then [] else e.text
    ensures Answers(cfg, nego, [Text(text), e]) == AnswerTo(cfg, nego, e)
  {
    hide AnswerTo;
    PassedTwo(text, e);
    assert [Text(text), e][1..] == [e];
    assert [e][1..] == [];
    assert AnswerTo(cfg, nego, Text(text)) == [] by { TextUnanswered(cfg, nego, text); }
    assert Answers(cfg, nego, [e]) == AnswerTo(cfg, nego, e) + [];
  }

  lemma TextUnanswered(cfg: Config, nego: Nego, text: Bytes)
    ensures AnswerTo(cfg, nego, Text(text)) == []
  {
  }

  lemma PassedTwo(text: Bytes, e: Entry)
    ensures Passed([Text(text), e]) == text + if e.Eaten? then [] else e.text
  {
    PassedOne(e);
    assert [Text(text), e][1..] == [e];
  }

  lemma PassedOne(e: Entry)
    ensures Passed([e]) == if e.Eaten? then [] else e.text
  {
    assert [e][1..] == [];
    assert e.text + [] == e.text;
  }

  lemma GameTableAsks(mode: Mode, k: nat)
    requires k < |GamePatterns(mode)|
    ensures GamePatterns(mode)[k].action == MnesDoes <==> k == 2
    ensures GamePatterns(mode)[k].action == MnesRequest <==> k < 2
  {
  }

  /** What the handlers do to the game's side forwards nothing to it. */
  lemma GameActForwards(cfg: Config, p: Pair, action: Action, m: Bytes)
    requires GameAction(cfg.gameMode, action) && Sound(cfg, p.to, p.from)
    ensures var q := Act(cfg, action, m, p).state;
      && RelayedTo(q.from) == RelayedTo(p.from)
      && q.to == p.to
      && q.from.mnes == (if action == MnesDoes then SaidDo else p.from.mnes)
  {
    hide Only, Format, Queue, Reports;
    QueueKeeps(p.from, Reports(cfg, p.to.nego));
    FormatKeeps(p.from, [IAC, DO, OptionOf(m)]);
    FormatKeeps(p.from, [IAC, DONT, OptionOf(m)]);
    var queued := if action == MnesRequest then Queue(p.from, Reports(cfg, p.to.nego))
                  else if action == RespondDo then Format(p.from, [IAC, DO, OptionOf(m)])
                  else Format(p.from, [IAC, DONT, OptionOf(m)]);
    FlushOnly(queued, queued.output);
  }

  /** The effect of the text before a match and of the match itself. */
  lemma GameMatchForwards(cfg: Config, p: Pair, buf: Bytes, at: nat, k: nat, len: nat)
    requires Sound(cfg, p.to, p.from)
    requires at + len <= |buf| && k < |GamePatterns(cfg.gameMode)|
    ensures var r := GameRules(cfg);
      GameForwards(cfg, p, AfterMatch(r, p, buf, at, k, len), [Text(buf[..at]), MatchEntry(r, p, buf, at, k, len)])
  {
    hide Only, Encode, Passed, Act, Compiled, Asks, Sound, Write, GamePatterns;
    var r := GameRules(cfg);
    GameTableAsks(cfg.gameMode, k);
    GameTableActions(cfg.gameMode, k);
    var m := buf[at..at + len];
    var action := GamePatterns(cfg.gameMode)[k].action;
    var p1 := if at > 0 then r.ship(p, buf[..at]) else p;
    if at == 0 {
      assert buf[..at] == [];
    }
    WriteOnly(p.to, buf[..at], Relayed);
    GameShipSound(cfg, p, buf[..at]);
    assert RelayedTo(p1.to) == RelayedTo(p.to) + buf[..at];
    GameActSound(cfg, p1, action, m);
    GameActForwards(cfg, p1, action, m);
    var q := Act(cfg, action, m, p1).state;
    WriteOnly(q.to, m, Relayed);
    GameShipSound(cfg, q, m);
    PassedTwo(buf[..at], MatchEntry(r, p, buf, at, k, len));
    AsksTwo(buf[..at], MatchEntry(r, p, buf, at, k, len));
  }

  lemma GameShipSound(cfg: Config, p: Pair, data: Bytes)
    requires Sound(cfg, p.to, p.from)
    ensures Sound(cfg, Write(p.to, data, Relayed), p.from)
    ensures OnlySent(p.to, Write(p.to, data, Relayed))
  {
  }

  lemma GameMatchEffect(cfg: Config, p: Pair, buf: Bytes, at: nat, k: nat, len: nat)
    requires Sound(cfg, p.to, p.from) && ConfigOk(cfg)
    requires at + len <= |buf| && k < |GamePatterns(cfg.gameMode)|
    requires buf[at..at + len] == GameRules(cfg).patterns[k]
    ensures var r := GameRules(cfg);
      GameEffect(cfg, p, AfterMatch(r, p, buf, at, k, len), [Text(buf[..at]), MatchEntry(r, p, buf, at, k, len)])
  {
    hide Only, Encode, ConfigOk, Answer, Answers, Act, Compiled, GameForwards;
    var r := GameRules(cfg);
    GameMatchForwards(cfg, p, buf, at, k, len);
    var m := buf[at..at + len];
    var action := GamePatterns(cfg.gameMode)[k].action;
    var p1 := if at > 0 then r.ship(p, buf[..at]) else p;
    GameTableActions(cfg.gameMode, k);
    GameActEffect(cfg, p1, action, m);
    TwoEntries(cfg, p.to.nego, buf[..at], MatchEntry(r, p, buf, at, k, len));
  }

  lemma GameShips(cfg: Config, p: Pair, buf: Bytes)
    requires Sound(cfg, p.to, p.from)
    ensures GameEffect(cfg, p, GameRules(cfg).ship(p, buf), [Text(buf)])
  {
    hide Only;
    WriteOnly(p.to, buf, Relayed);
    PassedOne(Text(buf));
    assert [Text(buf)][1..] == [];
    assert Answers(cfg, p.to.nego, [Text(buf)]) == [] + [];
    assert !Asks([Text(buf)]);
  }

  lemma GameIdle(cfg: Config, p: Pair)
    requires Sound(cfg, p.to, p.from)
    ensures GameEffect(cfg, p, p, [])
  {
  }

  lemma GameTableSize(cfg: Config)
    ensures |GameRules(cfg).patterns| == |GamePatterns(cfg.gameMode)|
  {
  }

  /** What a read of the game's text does, whatever matches it contains. */
  lemma {:induction false} GameTextForwards(cfg: Config, p: Pair, buf: Bytes)
    requires Sound(cfg, p.to, p.from)
    ensures GameForwards(cfg, p, Drain(GameRules(cfg), p, buf).0, Journal(GameRules(cfg), p, buf))
    decreases |buf|
  {
    hide GameRules, AfterMatch, MatchEntry, GamePatterns, GameForwards;
    var r := GameRules(cfg);
    GameTableSize(cfg);
    match Search(r, p, buf)
    case NoMatch =>
      GameShips(cfg, p, buf);
      EffectForwards(cfg, p, r.ship(p, buf), [Text(buf)]);
    case Partial(_) =>
      GameIdle(cfg, p);
      EffectForwards(cfg, p, p, []);
    case Match(at, k, len) =>
      var rest := buf[at + len..];
      var q := AfterMatch(r, p, buf, at, k, len);
      var here := [Text(buf[..at]), MatchEntry(r, p, buf, at, k, len)];
      GameMatchForwards(cfg, p, buf, at, k, len);
      if |rest| > 0 {
        GameForwardsSound(cfg, p, q, here);
        GameTextForwards(cfg, q, rest);
        GameForwardsThen(cfg, p, q, Drain(r, q, rest).0, here, Journal(r, q, rest));
      }
  }

  lemma EffectForwards(cfg: Config, p: Pair, q: Pair, j: seq<Entry>)
    requires GameEffect(cfg, p, q, j)
    ensures GameForwards(cfg, p, q, j)
  {
  }

  lemma GameForwardsSound(cfg: Config, p: Pair, q: Pair, j: seq<Entry>)
    requires GameForwards(cfg, p, q, j)
    ensures Sound(cfg, q.to, q.from) && q.to.mnes == p.to.mnes && RelayedTo(q.to) == RelayedTo(p.to) + Passed(j)
  {
  }

  /** And, with texts that fit and can be read, what it is answered. */
  lemma {:induction false} GameTextEffect(cfg: Config, p: Pair, buf: Bytes)
    requires Sound(cfg, p.to, p.from) && ConfigOk(cfg)
    ensures GameEffect(cfg, p, Drain(GameRules(cfg), p, buf).0, Journal(GameRules(cfg), p, buf))
    decreases |buf|
  {
    hide ConfigOk, GameRules, AfterMatch, MatchEntry, GamePatterns, GameEffect;
    var r := GameRules(cfg);
    GameTableSize(cfg);
    match Search(r, p, buf)
    case NoMatch =>
      GameShips(cfg, p, buf);
    case Partial(_) =>
      GameIdle(cfg, p);
    case Match(at, k, len) =>
      var rest := buf[at + len..];
      var q := AfterMatch(r, p, buf, at, k, len);
      var here := [Text(buf[..at]), MatchEntry(r, p, buf, at, k, len)];
      GameMatchEffect(cfg, p, buf, at, k, len);
      if |rest| > 0 {
        GameEffectSound(cfg, p, q, here);
        GameTextEffect(cfg, q, rest);
        GameEffectThen(cfg, p, q, Drain(r, q, rest).0, here, Journal(r, q, rest));
      }
  }

  lemma GameEffectSound(cfg: Config, p: Pair, q: Pair, j: seq<Entry>)
    requires GameEffect(cfg, p, q, j)
    ensures Sound(cfg, q.to, q.from)
  {
  }

  // ---- The client's text ----

  /** What the client has said about NEW-ENVIRON in its text, in order. */
  function Says(j: seq<Entry>): seq<Mnes> {
    if j == [] then []
    else
      (if j[0].Text? then [] else if j[0].alt == 0 then [SaidWont] else if j[0].alt == 1 then [SaidWill] else [])
      + Says(j[1..])
  }

  function Latest(before: Mnes, says: seq<Mnes>): Mnes {
    if says == [] then before else says[|says| - 1]
  }

  /** From `p` to `q` the game has been forwarded exactly the text that was not
      consumed, the client nothing, and the client's recorded stance is the last
      one it took. */
  ghost predicate ClientEffect(cfg: Config, p: Pair, q: Pair, j: seq<Entry>) {
    && Sound(cfg, q.from, q.to) && OnlySent(p.to, q.to)
    && RelayedTo(q.to) == RelayedTo(p.to) + Passed(j)
    && RelayedTo(q.from) == RelayedTo(p.from)
    && q.from.mnes == Latest(p.from.mnes, Says(j))
  }

  lemma {:induction false} SaysAppend(i: seq<Entry>, j: seq<Entry>)
    ensures Says(i + j) == Says(i) + Says(j)
  {
    if i == [] {
      assert i + j == j;
    } else {
      assert (i + j)[1..] == i[1..] + j;
      SaysAppend(i[1..], j);
    }
  }

  lemma SaysTwo(text: Bytes, e: Entry)
    requires !e.Text?
    ensures Says([Text(text), e]) == if e.alt == 0 then [SaidWont] else if e.alt == 1 then [SaidWill] else []
  {
    assert [Text(text), e][1..] == [e];
    assert [e][1..] == [];
    var one := if e.alt == 0 then [SaidWont] else if e.alt == 1 then [SaidWill] else [];
    assert Says([e]) == one + [];
    assert Says([Text(text), e]) == [] + Says([e]);
  }

  lemma ClientEffectThen(cfg: Config, p: Pair, q: Pair, t: Pair, here: seq<Entry>, j: seq<Entry>)
    requires ClientEffect(cfg, p, q, here) && ClientEffect(cfg, q, t, j)
    ensures ClientEffect(cfg, p, t, here + j)
  {
    hide Sound, Only, Passed, Says;
    PassedAppend(here, j);
    SaysAppend(here, j);
  }

  lemma ClientActEffect(cfg: Config, p: Pair, action: Action, m: Bytes)
    requires ClientAction(cfg.clientMode, action) && Sound(cfg, p.from, p.to)
    ensures var q := Act(cfg, action, m, p).state;
      && RelayedTo(q.to) == RelayedTo(p.to) && RelayedTo(q.from) == RelayedTo(p.from)
      && OnlySent(p.to, q.to)
      && q.from.mnes == (if action == MnesClientWont then SaidWont
                         else if action == MnesClientWill then SaidWill else p.from.mnes)
  {
    hide Only, Format, Frames;
    match action
    case MnesClientWont =>
      FlushOnly(Put(p.to, WILL_MNES), WILL_MNES);
    case MnesClientWill =>
      assert Act(cfg, action, m, p).state.from.sent == p.from.sent;
    case RespondWont =>
      var text := [IAC, WONT, OptionOf(m)];
      FormatKeeps(p.from, text);
      FlushOnly(Format(p.from, text), Format(p.from, text).output);
    case Mccp2Do =>
      if p.from.deflating {
        assert Act(cfg, action, m, p).state.from.sent == p.from.sent;
      } else {
        FlushOnly(Put(p.from, MCCP2_START), Put(p.from, MCCP2_START).output);
        var text := MnesPair(COMPRESSION, TEXT_MCCP2);
        FormatKeeps(p.to, text);
        FlushOnly(Format(p.to, text), Format(p.to, text).output);
      }
    case Mccp2Dont =>
      var text := MnesPair(COMPRESSION, TEXT_NONE);
      FormatKeeps(p.to, text);
      FlushOnly(Format(p.to, text), Format(p.to, text).output);
      assert Act(cfg, action, m, p).state.from.sent == p.from.sent;
  }

  lemma ShipSound(cfg: Config, p: Pair, data: Bytes)
    requires Sound(cfg, p.from, p.to)
    ensures Sound(cfg, p.from, Write(p.to, data, Relayed))
    ensures OnlySent(p.to, Write(p.to, data, Relayed))
  {
  }

  lemma ClientTableStance(mode: Mode, k: nat)
    requires k < |ClientPatterns(mode)|
    ensures ClientPatterns(mode)[k].action == MnesClientWont <==> k == 0
    ensures ClientPatterns(mode)[k].action == MnesClientWill <==> k == 1
  {
  }

  lemma ClientMatchEffect(cfg: Config, p: Pair, buf: Bytes, at: nat, k: nat, len: nat)
    requires Sound(cfg, p.from, p.to)
    requires at + len <= |buf| && k < |ClientPatterns(cfg.clientMode)|
    requires buf[at..at + len] == ClientRules(cfg).patterns[k]
    ensures var r := ClientRules(cfg);
      ClientEffect(cfg, p, AfterMatch(r, p, buf, at, k, len), [Text(buf[..at]), MatchEntry(r, p, buf, at, k, len)])
  {
    hide Only, Passed, Says, Act, Compiled, Sound, Write, ClientPatterns;
    var r := ClientRules(cfg);
    var m := buf[at..at + len];
    var action := ClientPatterns(cfg.clientMode)[k].action;
    var p1 := if at > 0 then r.ship(p, buf[..at]) else p;
    ShipSound(cfg, p, buf[..at]);
    if at == 0 {
      assert buf[..at] == [];
    }
    WriteOnly(p.to, buf[..at], Relayed);
    assert RelayedTo(p1.to) == RelayedTo(p.to) + buf[..at];
    ClientTableActions(cfg.clientMode, k);
    ClientTableStance(cfg.clientMode, k);
    ClientActSound(cfg, p1, action, m);
    ClientActEffect(cfg, p1, action, m);
    var q := Act(cfg, action, m, p1).state;
    ShipSound(cfg, q, m);
    WriteOnly(q.to, m, Relayed);
    var e := MatchEntry(r, p, buf, at, k, len);
    PassedTwo(buf[..at], e);
    SaysTwo(buf[..at], e);
  }

  lemma ClientShips(cfg: Config, p: Pair, buf: Bytes)
    requires Sound(cfg, p.from, p.to)
    ensures ClientEffect(cfg, p, ClientRules(cfg).ship(p, buf), [Text(buf)])
  {
    hide Only;
    WriteOnly(p.to, buf, Relayed);
    PassedOne(Text(buf));
    assert [Text(buf)][1..] == [];
    assert Says([Text(buf)]) == [];
  }

  lemma ClientIdle(cfg: Config, p: Pair)
    requires Sound(cfg, p.from, p.to)
    ensures ClientEffect(cfg, p, p, [])
  {
  }

  lemma ClientTableSize(cfg: Config)
    ensures |ClientRules(cfg).patterns| == |ClientPatterns(cfg.clientMode)|
  {
  }

  lemma ClientEffectSound(cfg: Config, p: Pair, q: Pair, j: seq<Entry>)
    requires ClientEffect(cfg, p, q, j)
    ensures Sound(cfg, q.from, q.to)
  {
  }

  /** What a read of the client's text does, whatever matches it contains. */
  lemma {:induction false} ClientTextEffect(cfg: Config, p: Pair, buf: Bytes)
    requires Sound(cfg, p.from, p.to)
    ensures ClientEffect(cfg, p, Drain(ClientRules(cfg), p, buf).0, Journal(ClientRules(cfg), p, buf))
    decreases |buf|
  {
    hide ClientRules, AfterMatch, MatchEntry, ClientPatterns, ClientEffect;
    var r := ClientRules(cfg);
    ClientTableSize(cfg);
    match Search(r, p, buf)
    case NoMatch =>
      ClientShips(cfg, p, buf);
    case Partial(_) =>
      ClientIdle(cfg, p);
    case Match(at, k, len) =>
      var rest := buf[at + len..];
      var q := AfterMatch(r, p, buf, at, k, len);
      var here := [Text(buf[..at]), MatchEntry(r, p, buf, at, k, len)];
      ClientMatchEffect(cfg, p, buf, at, k, len);
      if |rest| > 0 {
        ClientEffectSound(cfg, p, q, here);
        ClientTextEffect(cfg, q, rest);
        ClientEffectThen(cfg, p, q, Drain(r, q, rest).0, here, Journal(r, q, rest));
      }
  }

  // ---- What the game is told about compression ----

  /** The last value given to COMPRESSION in one list of variables. */
  function ToldBy(settings: seq<Setting>): Option<Bytes> {
    if settings == [] then None
    else
      var last := settings[|settings| - 1];
      if last.name == COMPRESSION then last.value else ToldBy(settings[..|settings| - 1])
  }

  /** The last value of COMPRESSION among the commands, if there is one. */
  function Told(cmds: seq<Command>): Option<Bytes> {
    if cmds == [] then None
    else
      var last := cmds[|cmds| - 1];
      if last.Env? && ToldBy(last.settings).Some? then ToldBy(last.settings)
      else Told(cmds[..|cmds| - 1])
  }

  lemma ToldSingle(name: Bytes, value: Bytes)
    ensures Told([Env([Setting(name, Some(value))])]) == if name == COMPRESSION then Some(value) else None
  {
    var settings := [Setting(name, Some(value))];
    assert settings[..0] == [];
    assert [Env(settings)][..0] == [];
    assert ToldBy(settings) == if name == COMPRESSION then Some(value) else None;
  }

  lemma {:induction false} ToldAppend(a: seq<Command>, b: seq<Command>)
    ensures Told(a + b) == if Told(b).Some? then Told(b) else Told(a)
    decreases |b|
  {
    if b == [] {
      assert a + b == a;
    } else {
      assert (a + b)[..|a + b| - 1] == a + b[..|b| - 1];
      ToldAppend(a, b[..|b| - 1]);
    }
  }

  /** What the game has been told reads as commands, and the last COMPRESSION value
      among them is the status of the client's stream; once the client has
      answered the offer there is such a value. */
  ghost predicate Agrees(client: Peer, game: Peer) {
    var heard := Receive(InjectedTo(game));
    && heard.Some?
    && var told := Told(heard.value);
      && (told.Some? ==> told.value == if client.deflating then TEXT_MCCP2 else TEXT_NONE)
      && (client.nego == Accepted || client.nego == Refused ==> told.Some?)
  }

  lemma AgreesAppend(client: Peer, game: Peer, game': Peer, text: Bytes)
    requires Agrees(client, game) && InjectedTo(game') == InjectedTo(game) + text
    requires Receive(text).Some? && Told(Receive(text).value) == None
    ensures Agrees(client, game')
  {
    hide Receive, Only;
    ReceiveAppend(InjectedTo(game), text);
    ToldAppend(Receive(InjectedTo(game)).value, Receive(text).value);
  }

  lemma AgreesTold(client: Peer, game: Peer, game': Peer, text: Bytes)
    requires Receive(InjectedTo(game)).Some? && InjectedTo(game') == InjectedTo(game) + text
    requires Receive(text).Some?
    requires Told(Receive(text).value) == Some(if client.deflating then TEXT_MCCP2 else TEXT_NONE)
    ensures Agrees(client, game')
  {
    hide Receive, Only;
    ReceiveAppend(InjectedTo(game), text);
    ToldAppend(Receive(InjectedTo(game)).value, Receive(text).value);
  }

  lemma PairTold(value: Bytes)
    requires Clean(value)
    ensures Receive(MnesPair(COMPRESSION, value)).Some?
    ensures Told(Receive(MnesPair(COMPRESSION, value)).value) == Some(value)
  {
    hide Receive, MnesPair;
    assert Clean(COMPRESSION);
    PairIsRead(COMPRESSION, value);
    ToldSingle(COMPRESSION, value);
  }

  lemma VerbTold(verb: byte, opt: byte)
    requires WILL <= verb <= DONT
    ensures Receive([IAC, verb, opt]).Some? && Told(Receive([IAC, verb, opt]).value) == None
  {
    hide Receive;
    VerbIsRead(verb, opt);
    assert [Verb(verb, opt)][..0] == [];
  }

  lemma {:induction false} OthersTold(reports: seq<Report>)
    requires forall i :: 0 <= i < |reports| ==> reports[i].name != COMPRESSION
    ensures Told(Understood(reports)) == None
  {
    if reports != [] {
      var head := Env([Setting(reports[0].name, Some(reports[0].value))]);
      OthersTold(reports[1..]);
      ToldAppend([head], Understood(reports[1..]));
      ToldSingle(reports[0].name, reports[0].value);
    }
  }

  lemma ReplyTold(cfg: Config, nego: Nego)
    requires ConfigOk(cfg) && COMPRESSION !in cfg.reportVars
    ensures var text := Encode(Reports(cfg, nego));
      Receive(text).Some? && Told(Receive(text).value) == Some(if nego == Accepted then TEXT_MCCP2 else TEXT_NONE)
  {
    hide Receive, Encode;
    var all := Reports(cfg, nego);
    ReportsClean(cfg, nego);
    ReportsAreRead(all);
    var first := Env([Setting(all[0].name, Some(all[0].value))]);
    var second := Env([Setting(all[1].name, Some(all[1].value))]);
    assert all[1..][1..] == all[2..];
    assert Understood(all) == [first] + ([second] + Understood(all[2..]));
    OthersTold(all[2..]);
    ToldSingle(all[0].name, all[0].value);
    ToldSingle(all[1].name, all[1].value);
    ToldAppend([first], [second] + Understood(all[2..]));
    ToldAppend([second], Understood(all[2..]));
  }

  ghost function GameAgrees(cfg: Config): Pair -> bool {
    (p: Pair) => Sound(cfg, p.to, p.from) && Agrees(p.to, p.from)
  }

  ghost function ClientAgrees(cfg: Config): Pair -> bool {
    (p: Pair) => Sound(cfg, p.from, p.to) && Agrees(p.from, p.to)
  }

  lemma SameAgrees(client: Peer, client': Peer, game: Peer, game': Peer)
    requires Agrees(client, game) && InjectedTo(game') == InjectedTo(game)
    requires client'.deflating == client.deflating && client'.nego == client.nego
    ensures Agrees(client', game')
  {
    hide Receive, Only, Told;
  }

  lemma GameActAgrees(cfg: Config, p: Pair, action: Action, m: Bytes)
    requires GameAction(cfg.gameMode, action) && ConfigOk(cfg) && COMPRESSION !in cfg.reportVars
    requires Sound(cfg, p.to, p.from) && Agrees(p.to, p.from)
    ensures var q := Act(cfg, action, m, p).state; Agrees(q.to, q.from)
  {
    hide Act, Agrees, Only, Receive, Encode, Reports, ConfigOk;
    var q := Act(cfg, action, m, p).state;
    GameActEffect(cfg, p, action, m);
    AgreesHeard(p.to, p.from);
    if action == MnesRequest {
      ReplyTold(cfg, p.to.nego);
      AgreesTold(p.to, p.from, q.from, Encode(Reports(cfg, p.to.nego)));
    } else if action == RespondDo || action == RespondDont {
      var verb := if action == RespondDo then DO else DONT;
      VerbTold(verb, OptionOf(m));
      AgreesAppend(p.to, p.from, q.from, [IAC, verb, OptionOf(m)]);
    } else {
      assert InjectedTo(q.from) == InjectedTo(p.from) + [];
      SameAgrees(p.to, q.to, p.from, q.from);
    }
  }

  lemma AgreesHeard(client: Peer, game: Peer)
    requires Agrees(client, game)
    ensures Receive(InjectedTo(game)).Some?
  {
  }

  lemma ClientActAgrees(cfg: Config, p: Pair, action: Action, m: Bytes)
    requires ClientAction(cfg.clientMode, action)
    requires Sound(cfg, p.from, p.to) && Agrees(p.from, p.to)
    ensures var q := Act(cfg, action, m, p).state; Agrees(q.from, q.to)
  {
    hide Agrees, Only, Receive, MnesPair, Frames, Told;
    var q := Act(cfg, action, m, p).state;
    AgreesHeard(p.from, p.to);
    match action
    case MnesClientWont =>
      FlushOnly(Put(p.to, WILL_MNES), WILL_MNES);
      VerbTold(WILL, NEW_ENVIRON);
      AgreesAppend(p.from, p.to, q.to, WILL_MNES);
      SameAgrees(p.from, q.from, q.to, q.to);
    case MnesClientWill =>
      SameAgrees(p.from, q.from, p.to, q.to);
    case RespondWont =>
      SameAgrees(p.from, q.from, p.to, q.to);
    case Mccp2Do =>
      if p.from.deflating {
        SameAgrees(p.from, q.from, p.to, q.to);
      } else {
        PairFits(TEXT_MCCP2);
        PairTold(TEXT_MCCP2);
        FlushOnly(Format(p.to, MnesPair(COMPRESSION, TEXT_MCCP2)), MnesPair(COMPRESSION, TEXT_MCCP2));
        AgreesTold(q.from, p.to, q.to, MnesPair(COMPRESSION, TEXT_MCCP2));
      }
    case Mccp2Dont =>
      PairFits(TEXT_NONE);
      PairTold(TEXT_NONE);
      FlushOnly(Format(p.to, MnesPair(COMPRESSION, TEXT_NONE)), MnesPair(COMPRESSION, TEXT_NONE));
      AgreesTold(q.from, p.to, q.to, MnesPair(COMPRESSION, TEXT_NONE));
  }

  lemma PairFits(value: Bytes)
    requires |value| < 46
    ensures |MnesPair(COMPRESSION, value)| < EP_BUFSIZE
    ensures |MnesPair(IPADDRESS, value)| < EP_BUFSIZE
  {
  }

  lemma GameAgreesInvariant(cfg: Config)
    requires ConfigOk(cfg) && COMPRESSION !in cfg.reportVars
    ensures Invariant(GameRules(cfg), GameAgrees(cfg))
  {
    hide Act, Compiled, Agrees, ConfigOk, Only;
    var r, inv := GameRules(cfg), GameAgrees(cfg);
    forall h: Pair, a: Bytes ensures KeptByShip(r, inv, h, a) {
      if inv(h) {
        SameAgrees(h.to, r.ship(h, a).to, h.from, r.ship(h, a).from);
      }
    }
    forall h: Pair, k: nat | k < |r.patterns| ensures KeptByAct(r, inv, h, k) {
      if inv(h) {
        GameTableActions(cfg.gameMode, k);
        GameActSound(cfg, h, GamePatterns(cfg.gameMode)[k].action, r.patterns[k]);
        GameActAgrees(cfg, h, GamePatterns(cfg.gameMode)[k].action, r.patterns[k]);
      }
    }
  }

  lemma ClientAgreesInvariant(cfg: Config)
    ensures Invariant(ClientRules(cfg), ClientAgrees(cfg))
  {
    hide Act, Compiled, Agrees, Only;
    var r, inv := ClientRules(cfg), ClientAgrees(cfg);
    forall h: Pair, a: Bytes ensures KeptByShip(r, inv, h, a) {
      if inv(h) {
        var h1 := r.ship(h, a);
        WriteOnly(h.to, a, Relayed);
        SameAgrees(h.from, h1.from, h.to, h1.to);
      }
    }
    forall h: Pair, k: nat | k < |r.patterns| ensures KeptByAct(r, inv, h, k) {
      if inv(h) {
        ClientTableActions(cfg.clientMode, k);
        ClientActSound(cfg, h, ClientPatterns(cfg.clientMode)[k].action, r.patterns[k]);
        ClientActAgrees(cfg, h, ClientPatterns(cfg.clientMode)[k].action, r.patterns[k]);
      }
    }
  }
}
