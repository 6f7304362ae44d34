/** The client's wire over whole runs with compression enabled: raw text, one start
    marker, and then compressed text only. */
module Wire {
  import opened Telnet
  import opened Patterns
  import opened Rewriter
  import opened Handlers
  import opened Fallback
  import opened Sessions
  import opened Negotiation
  import opened Runs
  import opened Parses
  import opened Readers
  import opened Streams
  import opened Codec
  import Environ

  /** The client's answers to the offer of compression: DO is true. */
  function Orders(j: seq<Entry>): seq<bool> {
    if j == [] then []
    else
      (if j[0].Text? then [] else if j[0].alt == 2 then [true] else if j[0].alt == 3 then [false] else [])
      + Orders(j[1..])
  }

  /** No DONT after an accepted DO. */
  predicate Orderly(accepted: bool, orders: seq<bool>)
    decreases |orders|
  {
    if orders == [] then true
    else if orders[0] then Orderly(true, orders[1..])
    else !accepted && Orderly(false, orders[1..])
  }

  lemma {:induction false} OrdersAppend(i: seq<Entry>, j: seq<Entry>)
    ensures Orders(i + j) == Orders(i) + Orders(j)
  {
    if i == [] {
      assert i + j == j;
    } else {
      assert (i + j)[1..] == i[1..] + j;
      OrdersAppend(i[1..], j);
    }
  }

  lemma OrdersTwo(text: Bytes, e: Entry)
    requires !e.Text?
    ensures Orders([Text(text), e]) == if e.alt == 2 then [true] else if e.alt == 3 then [false] else []
  {
    assert [Text(text), e][1..] == [e];
    assert [e][1..] == [];
    var one := if e.alt == 2 then [true] else if e.alt == 3 then [false] else [];
    assert Orders([e]) == one + [];
    assert Orders([Text(text), e]) == [] + Orders([e]);
  }

  lemma {:induction false} OrderlyAppend(accepted: bool, i: seq<bool>, j: seq<bool>)
    ensures Orderly(accepted, i + j) <==> Orderly(accepted, i) && Orderly(accepted || true in i, j)
    decreases |i|
  {
    if i == [] {
      assert i + j == j;
    } else {
      assert (i + j)[1..] == i[1..] + j;
      OrderlyAppend(i[0], i[1..], j);
      assert i == [i[0]] + i[1..];
    }
  }

  ghost predicate AllPacked(fs: seq<Frame>, packed: bool) {
    forall i :: 0 <= i < |fs| ==> fs[i].packed == packed
  }

  function BytesOf(fs: seq<Frame>): (data: Bytes)
    ensures |data| == |fs|
  {
    seq(|fs|, i requires 0 <= i < |fs| => fs[i].b)
  }

  /** Before DO the wire is raw, and the offer is all the proxy has said. */
  ghost predicate Raw(client: Peer) {
    && !client.deflating
    && AllPacked(client.sent, false)
    && InjectedTo(client) == MCCP2_OFFER
  }

  /** Since DO: `n` raw bytes in which the offer is all the proxy has said, the start
      marker, and then nothing but compressed bytes relayed from the game. */
  ghost predicate Compressed(client: Peer, n: nat) {
    && client.deflating
    && n + |MCCP2_START| <= |client.sent|
    && AllPacked(client.sent[..n], false) && Only(client.sent[..n], Injected) == MCCP2_OFFER
    && client.sent[n..n + |MCCP2_START|] == Frames(MCCP2_START, Injected, false)
    && var rest := client.sent[n + |MCCP2_START|..];
       AllPacked(rest, true) && (forall i :: 0 <= i < |rest| ==> rest[i].origin == Relayed)
  }

  ghost predicate InPhase(client: Peer, accepted: bool) {
    if accepted then exists n: nat :: Compressed(client, n) else Raw(client)
  }

  lemma RelayKeepsPhase(client: Peer, data: Bytes, accepted: bool)
    requires InPhase(client, accepted)
    ensures InPhase(Write(client, data, Relayed), accepted)
  {
    var after := Write(client, data, Relayed);
    hide Only;
    if accepted {
      var n: nat :| Compressed(client, n);
      assert after.sent[..n] == client.sent[..n];
      assert after.sent[n..n + 5] == client.sent[n..n + 5];
      assert after.sent[n + 5..] == client.sent[n + 5..] + Frames(data, Relayed, true);
      assert Compressed(after, n);
    } else {
      WriteOnly(client, data, Relayed);
    }
  }

  /** What the client's commands do to its own side. */
  lemma ClientActPhase(cfg: Config, p: Pair, k: nat, m: Bytes, accepted: bool)
    requires cfg.clientMode == Enable && k < |ClientPatterns(Enable)|
    requires Sound(cfg, p.from, p.to) && InPhase(p.from, accepted)
    requires !(accepted && k == 3)
    ensures InPhase(Act(cfg, ClientPatterns(Enable)[k].action, m, p).state.from, accepted || k == 2)
  {
    hide Only, Format;
    var q := Act(cfg, ClientPatterns(Enable)[k].action, m, p).state;
    if k == 2 && !accepted {
      var n := |p.from.sent|;
      assert Put(p.from, MCCP2_START).output == MCCP2_START;
      assert q.from.sent == p.from.sent + Frames(MCCP2_START, Injected, false);
      assert q.from.sent[..n] == p.from.sent;
      assert q.from.sent[n..n + 5] == Frames(MCCP2_START, Injected, false);
      assert q.from.sent[n + 5..] == [];
      assert Compressed(q.from, n);
    } else if accepted {
      var n: nat :| Compressed(p.from, n);
      assert q.from.sent == p.from.sent && q.from.deflating;
      assert Compressed(q.from, n);
    } else {
      assert q.from.sent == p.from.sent && !q.from.deflating;
    }
  }

  lemma {:induction false} ClientTextPhase(cfg: Config, p: Pair, buf: Bytes, accepted: bool)
    requires cfg.clientMode == Enable && Sound(cfg, p.from, p.to)
    requires InPhase(p.from, accepted)
    requires Orderly(accepted, Orders(Journal(ClientRules(cfg), p, buf)))
    ensures InPhase(Drain(ClientRules(cfg), p, buf).0.from,
                    accepted || true in Orders(Journal(ClientRules(cfg), p, buf)))
    decreases |buf|
  {
    hide InPhase, Sound, ClientRules, ClientPatterns, AfterMatch, MatchEntry, ClientEffect, Orders, Orderly;
    var r := ClientRules(cfg);
    ClientTableSize(cfg);
    match Search(r, p, buf)
    case NoMatch =>
      ShipLeavesClient(cfg, p, buf);
      OrdersText(buf);
    case Partial(_) =>
      NoOrders();
    case Match(at, k, len) =>
      var rest := buf[at + len..];
      var e := MatchEntry(r, p, buf, at, k, len);
      var here := [Text(buf[..at]), e];
      var q := AfterMatch(r, p, buf, at, k, len);
      var later := if |rest| > 0 then Journal(r, q, rest) else [];
      assert here + [] == here;
      assert Journal(r, p, buf) == here + later;
      OrdersAppend(here, later);
      OrderlyAppend(accepted, Orders(here), Orders(later));
      ClientMatchPhase(cfg, p, buf, at, k, len, accepted);
      OrdersOfMatch(accepted, buf[..at], e);
      if |rest| > 0 {
        ClientMatchEffect(cfg, p, buf, at, k, len);
        ClientEffectSound(cfg, p, q, here);
        ClientTextPhase(cfg, q, rest, accepted || k == 2);
      } else {
        NoOrders();
      }
  }

  lemma OrdersText(text: Bytes)
    ensures Orders([Text(text)]) == []
  {
    assert [Text(text)][1..] == [];
  }

  lemma OrdersOfMatch(accepted: bool, text: Bytes, e: Entry)
    requires !e.Text?
    ensures Orderly(accepted, Orders([Text(text), e])) ==> !(accepted && e.alt == 3)
    ensures true in Orders([Text(text), e]) <==> e.alt == 2
  {
    OrdersTwo(text, e);
  }

  lemma ShipLeavesClient(cfg: Config, p: Pair, buf: Bytes)
    ensures ClientRules(cfg).ship(p, buf).from == p.from
  {
  }

  lemma ClientMatchPhase(cfg: Config, p: Pair, buf: Bytes, at: nat, k: nat, len: nat, accepted: bool)
    requires cfg.clientMode == Enable && k < |ClientPatterns(Enable)| && at + len <= |buf|
    requires Sound(cfg, p.from, p.to) && InPhase(p.from, accepted)
    ensures var e := MatchEntry(ClientRules(cfg), p, buf, at, k, len); !e.Text? && e.alt == k
    ensures !(accepted && k == 3) ==>
      InPhase(AfterMatch(ClientRules(cfg), p, buf, at, k, len).from, accepted || k == 2)
  {
    hide InPhase, Act, Compiled, ClientPatterns;
    var r := ClientRules(cfg);
    var p1 := if at > 0 then r.ship(p, buf[..at]) else p;
    ShipLeavesClient(cfg, p, buf[..at]);
    if !(accepted && k == 3) {
      ClientActPhase(cfg, p1, k, buf[at..at + len], accepted);
    }
  }

  ghost function GamePhase(cfg: Config, accepted: bool): Pair -> bool {
    (p: Pair) => Sound(cfg, p.to, p.from) && InPhase(p.to, accepted)
  }

  lemma GamePhaseInvariant(cfg: Config, accepted: bool)
    ensures Invariant(GameRules(cfg), GamePhase(cfg, accepted))
  {
    hide Act, Compiled, InPhase;
    var r, inv := GameRules(cfg), GamePhase(cfg, accepted);
    forall h: Pair, a: Bytes ensures KeptByShip(r, inv, h, a) {
      if inv(h) {
        RelayKeepsPhase(h.to, a, accepted);
      }
    }
    forall h: Pair, k: nat | k < |r.patterns| ensures KeptByAct(r, inv, h, k) {
      if inv(h) {
        GameTableActions(cfg.gameMode, k);
        GameActSound(cfg, h, GamePatterns(cfg.gameMode)[k].action, r.patterns[k]);
      }
    }
  }

  /** The client's answers to the offer among the commands in its stream. */
  function OrdersIn(marks: seq<Mark>): seq<bool> {
    if marks == [] then []
    else
      (if marks[0].alt == 2 then [true] else if marks[0].alt == 3 then [false] else []) + OrdersIn(marks[1..])
  }

  function ClientOrders(cfg: Config, steps: seq<Step>): seq<bool> {
    OrdersIn(ClientHeard(cfg.clientMode, ClientStream(steps)))
  }

  lemma {:induction false} OrdersOfLog(j: seq<Entry>, off: nat)
    ensures Orders(j) == OrdersIn(MarksOf(j, off))
  {
    if j != [] {
      var next := off + |j[0].text|;
      OrdersOfLog(j[1..], next);
      if j[0].Text? {
        assert [] + MarksOf(j[1..], next) == MarksOf(j[1..], next);
        assert [] + Orders(j[1..]) == Orders(j[1..]);
      } else {
        assert ([Mark(off, j[0].alt)] + MarksOf(j[1..], next))[1..] == MarksOf(j[1..], next);
      }
    }
  }

  lemma OrdersAreHeard(cfg: Config, steps: seq<Step>)
    ensures ClientOrders(cfg, steps) == Orders(ClientLog(cfg, steps))
  {
    hide ClientHeard, ClientLog, Heard, Run;
    LogsAreStreams(cfg, steps);
    OrdersOfLog(ClientLog(cfg, steps), 0);
  }

  lemma NextPhase(cfg: Config, s: Session, step: Step, accepted: bool)
    requires cfg.clientMode == Enable && Sound(cfg, s.client, s.game)
    requires InPhase(s.client, accepted)
    requires Orderly(accepted, Orders(ClientJournal(cfg, s, step)))
    ensures InPhase(Next(cfg, s, step).client, accepted || true in Orders(ClientJournal(cfg, s, step)))
  {
    hide InPhase, Drain, Journal, ClientRules, GameRules, Orders;
    match step
    case LoopHead(now) =>
      NoOrders();
      HeadPhase(cfg, s, now, accepted);
    case ClientText(text) =>
      ClientTextPhase(cfg, Pair(s.client, s.game), s.clientBuf + text, accepted);
    case GameText(text) =>
      NoOrders();
      GamePhaseInvariant(cfg, accepted);
      DrainKeeps(GameRules(cfg), GamePhase(cfg, accepted), Pair(s.game, s.client), s.gameBuf + text);
  }

  lemma NoOrders()
    ensures Orders([]) == []
  {
  }

  lemma HeadPhase(cfg: Config, s: Session, now: Time, accepted: bool)
    requires InPhase(s.client, accepted)
    ensures InPhase(Next(cfg, s, LoopHead(now)).client, accepted)
  {
    var t := Next(cfg, s, LoopHead(now));
    assert t.client.sent == s.client.sent && t.client.deflating == s.client.deflating;
    if accepted {
      var n: nat :| Compressed(s.client, n);
      assert Compressed(t.client, n);
    }
  }

  lemma StartPhase(cfg: Config)
    requires cfg.clientMode == Enable
    ensures InPhase(Start(cfg).client, false)
  {
    hide Only;
    FlushOnly(Put(NewPeer(), MCCP2_OFFER), MCCP2_OFFER);
    NothingInjected();
  }

  lemma {:induction false} LogShape(cfg: Config, steps: seq<Step>)
    requires cfg.clientMode == Enable && Orderly(false, Orders(ClientLog(cfg, steps)))
    ensures InPhase(Run(cfg, steps).client, true in Orders(ClientLog(cfg, steps)))
    decreases |steps|
  {
    hide InPhase, Next, Orders, ClientJournal;
    if steps == [] {
      NoOrders();
      StartPhase(cfg);
    } else {
      var before, last := steps[..|steps| - 1], steps[|steps| - 1];
      var s := Run(cfg, before);
      RunSound(cfg, before);
      OrdersAppend(ClientLog(cfg, before), ClientJournal(cfg, s, last));
      OrderlyAppend(false, Orders(ClientLog(cfg, before)), Orders(ClientJournal(cfg, s, last)));
      LogShape(cfg, before);
      NextPhase(cfg, s, last, true in Orders(ClientLog(cfg, before)));
    }
  }

  /** However many DOs the client sends and in whatever order with everything else, as long
      as no DONT in its stream follows a DO: the wire is raw before the first DO, and from
      then on raw text, exactly one start marker, and compressed text. */
  lemma WireShape(cfg: Config, steps: seq<Step>)
    requires cfg.clientMode == Enable && Orderly(false, ClientOrders(cfg, steps))
    ensures InPhase(Run(cfg, steps).client, true in ClientOrders(cfg, steps))
  {
    hide InPhase, Run, Orders, ClientOrders, ClientLog, Orderly;
    OrdersAreHeard(cfg, steps);
    LogShape(cfg, steps);
  }

  /** After a run in which DO was accepted, what follows the start marker, divided into any
      writes and sent through any workspace, decodes to exactly the rest of the text relayed
      to the client; the first part of that text went out raw before the marker. */
  lemma CompressedWireRoundTrip(cfg: Config, steps: seq<Step>, d: Deflater, writes: seq<Bytes>, room: nat)
    returns (n: nat)
    requires cfg.clientMode == Enable && Orderly(false, ClientOrders(cfg, steps))
    requires true in ClientOrders(cfg, steps)
    requires LawfulDeflater(d) && room >= d.minRoom && room > 0
    requires forall i :: 0 <= i < |writes| ==> writes[i] != []
    ensures Compressed(Run(cfg, steps).client, n)
    ensures var client := Run(cfg, steps).client;
      Concat(writes) == BytesOf(client.sent[n + 5..]) ==>
        RelayedTo(client) == Only(client.sent[..n], Relayed) + d.decode(WriteAll(d, writes, room).wire)
  {
    WireShape(cfg, steps);
    hide Run, WriteAll, Only, Compressed, ClientOrders, BytesOf;
    var client := Run(cfg, steps).client;
    n :| Compressed(client, n);
    WireRoundTrip(d, writes, room);
    CompressedRelays(client, n);
  }

  lemma CompressedRelays(client: Peer, n: nat)
    requires Compressed(client, n)
    ensures n + 5 <= |client.sent|
    ensures RelayedTo(client) == Only(client.sent[..n], Relayed) + BytesOf(client.sent[n + 5..])
  {
    hide Only;
    var sent := client.sent;
    OnlyAll(sent[n + 5..], Relayed);
    assert sent == (sent[..n] + sent[n..n + 5]) + sent[n + 5..];
    OnlySplit(sent[..n] + sent[n..n + 5], sent[n + 5..], Relayed);
    OnlyAppend(sent[..n], MCCP2_START, Injected, false, Relayed);
    assert Only(sent[..n], Relayed) + [] == Only(sent[..n], Relayed);
  }

  lemma {:induction false} OnlySplit(fs: seq<Frame>, gs: seq<Frame>, which: Origin)
    ensures Only(fs + gs, which) == Only(fs, which) + Only(gs, which)
    decreases |gs|
  {
    if gs == [] {
      assert fs + gs == fs;
    } else {
      var n := |gs| - 1;
      assert (fs + gs)[..|fs| + n] == fs + gs[..n];
      OnlySplit(fs, gs[..n], which);
    }
  }

  lemma MarkerBytes(sent: seq<Frame>, n: nat)
    requires n + 5 <= |sent| && sent[n..n + 5] == Frames(MCCP2_START, Injected, false)
    ensures BytesOf(sent[..n + 5]) == BytesOf(sent[..n]) + MCCP2_START
  {
    forall i | 0 <= i < 5 ensures sent[n + i].b == MCCP2_START[i] {
      assert sent[n + i] == sent[n..n + 5][i];
    }
  }

  lemma {:induction false} OnlyAll(fs: seq<Frame>, origin: Origin)
    requires forall i :: 0 <= i < |fs| ==> fs[i].origin == origin
    ensures Only(fs, origin) == BytesOf(fs)
    decreases |fs|
  {
    if fs != [] {
      var n := |fs| - 1;
      OnlyAll(fs[..n], origin);
      assert BytesOf(fs) == BytesOf(fs[..n]) + [fs[n].b];
    }
  }

  // ---- What the client's answers decide ----

  /** What becomes of the offer by a sequence of answers. */
  function Settled(nego: Nego, orders: seq<bool>): Nego {
    if orders == [] then nego else if orders[|orders| - 1] then Accepted else Refused
  }

  lemma SettledAppend(nego: Nego, a: seq<bool>, b: seq<bool>)
    ensures Settled(nego, a + b) == Settled(Settled(nego, a), b)
  {
    assert a + [] == a;
  }

  lemma ClientActSettles(cfg: Config, p: Pair, k: nat, m: Bytes)
    requires cfg.clientMode == Enable && k < |ClientPatterns(Enable)|
    ensures var q := Act(cfg, ClientPatterns(Enable)[k].action, m, p).state;
      q.from.nego == if k == 2 then Accepted else if k == 3 then Refused else p.from.nego
  {
    hide Frames, Format;
  }

  lemma ClientMatchSettles(cfg: Config, p: Pair, buf: Bytes, at: nat, k: nat, len: nat)
    requires cfg.clientMode == Enable && k < |ClientPatterns(Enable)| && at + len <= |buf|
    ensures var e := MatchEntry(ClientRules(cfg), p, buf, at, k, len);
      AfterMatch(ClientRules(cfg), p, buf, at, k, len).from.nego == Settled(p.from.nego, Orders([Text(buf[..at]), e]))
  {
    hide Act, Compiled, ClientPatterns, Orders;
    var r := ClientRules(cfg);
    var p1 := if at > 0 then r.ship(p, buf[..at]) else p;
    ShipLeavesClient(cfg, p, buf[..at]);
    ClientActSettles(cfg, p1, k, buf[at..at + len]);
    OrdersTwo(buf[..at], MatchEntry(r, p, buf, at, k, len));
  }

  lemma {:induction false} ClientTextSettles(cfg: Config, p: Pair, buf: Bytes)
    requires cfg.clientMode == Enable
    ensures Drain(ClientRules(cfg), p, buf).0.from.nego
         == Settled(p.from.nego, Orders(Journal(ClientRules(cfg), p, buf)))
    decreases |buf|
  {
    hide ClientRules, ClientPatterns, AfterMatch, MatchEntry, Orders, Settled;
    var r := ClientRules(cfg);
    ClientTableSize(cfg);
    NoneSettled(p.from.nego);
    match Search(r, p, buf)
    case NoMatch =>
      ShipLeavesClient(cfg, p, buf);
      OrdersText(buf);
    case Partial(_) =>
      NoOrders();
    case Match(at, k, len) =>
      var rest := buf[at + len..];
      var here := [Text(buf[..at]), MatchEntry(r, p, buf, at, k, len)];
      var q := AfterMatch(r, p, buf, at, k, len);
      ClientMatchSettles(cfg, p, buf, at, k, len);
      if |rest| > 0 {
        ClientTextSettles(cfg, q, rest);
        OrdersAppend(here, Journal(r, q, rest));
        SettledAppend(p.from.nego, Orders(here), Orders(Journal(r, q, rest)));
      }
  }

  lemma NoneSettled(nego: Nego)
    ensures Settled(nego, []) == nego
  {
  }

  lemma {:induction false} LogSettles(cfg: Config, steps: seq<Step>)
    requires cfg.clientMode == Enable
    ensures Run(cfg, steps).client.nego == Settled(Offered, Orders(ClientLog(cfg, steps)))
    decreases |steps|
  {
    hide Drain, Journal, Orders, Settled, ClientRules, GameRules, Sound;
    NoneSettled(Offered);
    NoOrders();
    if steps != [] {
      var before, last := steps[..|steps| - 1], steps[|steps| - 1];
      var s := Run(cfg, before);
      LogSettles(cfg, before);
      OrdersAppend(ClientLog(cfg, before), ClientJournal(cfg, s, last));
      SettledAppend(Offered, Orders(ClientLog(cfg, before)), Orders(ClientJournal(cfg, s, last)));
      NoneSettled(s.client.nego);
      match last
      case LoopHead(now) =>
      case ClientText(text) => ClientTextSettles(cfg, Pair(s.client, s.game), s.clientBuf + text);
      case GameText(text) =>
        hide Only, Passed, Asks;
        RunSound(cfg, before);
        GameTextForwards(cfg, Pair(s.game, s.client), s.gameBuf + text);
    }
  }

  /** Over every run the offer stands until the client answers it, and then counts as the
      latest DO or DONT in the client's stream says; and the client's stream is compressed
      exactly if that is a DO. Where no offer is made, neither changes. */
  lemma OrdersDecide(cfg: Config, steps: seq<Step>)
    ensures var client, orders := Run(cfg, steps).client, ClientOrders(cfg, steps);
      && (cfg.clientMode == Enable && orders == [] ==> client.nego == Offered && !client.deflating)
      && (cfg.clientMode == Enable && orders != [] && orders[|orders| - 1] ==>
            client.nego == Accepted && client.deflating)
      && (cfg.clientMode == Enable && orders != [] && !orders[|orders| - 1] ==>
            client.nego == Refused && !client.deflating)
      && (cfg.clientMode != Enable ==> client.nego != Accepted && !client.deflating)
  {
    hide Run, ClientOrders, Orders, ClientLog;
    RunSound(cfg, steps);
    if cfg.clientMode == Enable {
      LogSettles(cfg, steps);
      OrdersAreHeard(cfg, steps);
    }
  }

  // ---- Wires that are never compressed ----

  /** Nothing sent to the game went through a compressor, nor to a client that is not
      offered compression. */
  ghost predicate Plain(cfg: Config, client: Peer, game: Peer) {
    AllPacked(game.sent, false) && (cfg.clientMode != Enable ==> AllPacked(client.sent, false))
  }

  ghost function GamePlain(cfg: Config): Pair -> bool {
    (p: Pair) => Sound(cfg, p.to, p.from) && Plain(cfg, p.to, p.from)
  }

  ghost function ClientPlain(cfg: Config): Pair -> bool {
    (p: Pair) => Sound(cfg, p.from, p.to) && Plain(cfg, p.from, p.to)
  }

  lemma FlushPlain(p: Peer)
    requires !p.deflating && AllPacked(p.sent, false)
    ensures AllPacked(Flush(p).sent, false)
  {
  }

  lemma GameActPlain(cfg: Config, p: Pair, action: Action, m: Bytes)
    requires GameAction(cfg.gameMode, action) && GamePlain(cfg)(p)
    ensures GamePlain(cfg)(Act(cfg, action, m, p).state)
  {
    hide Frames, Flush, Format, Queue, Reports, AllPacked, Sound;
    GameActSound(cfg, p, action, m);
    SoundPlain(cfg, p.to, p.from);
    QueueKeeps(p.from, Reports(cfg, p.to.nego));
    FlushPlain(Queue(p.from, Reports(cfg, p.to.nego)));
    FormatKeeps(p.from, [IAC, DO, OptionOf(m)]);
    FlushPlain(Format(p.from, [IAC, DO, OptionOf(m)]));
    FormatKeeps(p.from, [IAC, DONT, OptionOf(m)]);
    FlushPlain(Format(p.from, [IAC, DONT, OptionOf(m)]));
  }

  lemma ClientActPlain(cfg: Config, p: Pair, action: Action, m: Bytes)
    requires ClientAction(cfg.clientMode, action) && ClientPlain(cfg)(p)
    ensures ClientPlain(cfg)(Act(cfg, action, m, p).state)
  {
    hide Frames, Flush, Format, AllPacked, Sound;
    ClientActSound(cfg, p, action, m);
    SoundPlain(cfg, p.from, p.to);
    FlushPlain(Put(p.to, WILL_MNES));
    var on := Environ.MnesPair(Environ.COMPRESSION, Environ.TEXT_MCCP2);
    var off := Environ.MnesPair(Environ.COMPRESSION, Environ.TEXT_NONE);
    FormatKeeps(p.to, on);
    FlushPlain(Format(p.to, on));
    FormatKeeps(p.to, off);
    FlushPlain(Format(p.to, off));
    var refusal := Format(p.from, [IAC, WONT, OptionOf(m)]);
    FormatKeeps(p.from, [IAC, WONT, OptionOf(m)]);
    if cfg.clientMode != Enable {
      FlushPlain(refusal);
    }
  }

  lemma SoundPlain(cfg: Config, client: Peer, game: Peer)
    requires Sound(cfg, client, game)
    ensures !game.deflating && (client.deflating ==> cfg.clientMode == Enable)
  {
  }

  lemma GamePlainInvariant(cfg: Config)
    ensures Invariant(GameRules(cfg), GamePlain(cfg))
  {
    hide Act, Compiled, GameAction, GamePatterns;
    var r, inv := GameRules(cfg), GamePlain(cfg);
    forall h: Pair, a: Bytes ensures KeptByShip(r, inv, h, a) {
    }
    forall h: Pair, k: nat | k < |r.patterns| ensures KeptByAct(r, inv, h, k) {
      if inv(h) {
        GameTableActions(cfg.gameMode, k);
        GameActPlain(cfg, h, GamePatterns(cfg.gameMode)[k].action, r.patterns[k]);
      }
    }
  }

  lemma ClientPlainInvariant(cfg: Config)
    ensures Invariant(ClientRules(cfg), ClientPlain(cfg))
  {
    hide Act, Compiled, ClientAction, ClientPatterns;
    var r, inv := ClientRules(cfg), ClientPlain(cfg);
    forall h: Pair, a: Bytes ensures KeptByShip(r, inv, h, a) {
    }
    forall h: Pair, k: nat | k < |r.patterns| ensures KeptByAct(r, inv, h, k) {
      if inv(h) {
        ClientTableActions(cfg.clientMode, k);
        ClientActPlain(cfg, h, ClientPatterns(cfg.clientMode)[k].action, r.patterns[k]);
      }
    }
  }

  lemma StartPlain(cfg: Config)
    ensures Plain(cfg, Start(cfg).client, Start(cfg).game)
  {
    hide Format;
    FormatKeeps(NewPeer(), Environ.MnesPair(Environ.IPADDRESS, cfg.address));
  }

  /** Over every run nothing that is sent to the game passes through a compressor, and
      nothing that is sent to the client unless compression is enabled there. */
  lemma {:induction false} RunPlain(cfg: Config, steps: seq<Step>)
    ensures Plain(cfg, Run(cfg, steps).client, Run(cfg, steps).game)
    decreases |steps|
  {
    hide Drain, ClientRules, GameRules, Start, AllPacked, Sound;
    if steps == [] {
      StartPlain(cfg);
    } else {
      var before, last := steps[..|steps| - 1], steps[|steps| - 1];
      var s := Run(cfg, before);
      RunPlain(cfg, before);
      RunSound(cfg, before);
      match last
      case LoopHead(now) =>
        SoundPlain(cfg, s.client, s.game);
        FlushPlain(Put(s.game, WILL_MNES));
      case ClientText(text) =>
        ClientPlainInvariant(cfg);
        DrainKeeps(ClientRules(cfg), ClientPlain(cfg), Pair(s.client, s.game), s.clientBuf + text);
      case GameText(text) =>
        GamePlainInvariant(cfg);
        DrainKeeps(GameRules(cfg), GamePlain(cfg), Pair(s.game, s.client), s.gameBuf + text);
    }
  }
}
