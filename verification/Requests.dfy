/** The game's requests and offers, wherever they stand in its stream: what of it the
    client is forwarded, and how they are answered. */
module Requests {
  import opened Telnet
  import opened Matcher
  import opened Patterns
  import opened Rewriter
  import opened Handlers
  import opened Sessions
  import opened Negotiation
  import opened Runs
  import opened GameFlow
  import opened Parses
  import opened Readers
  import opened Streams
  import opened ClientStances

  // ---- What is kept from the client ----

  /** The commands of the game's that the last read has completed. */
  function NewMarks(cfg: Config, steps: seq<Step>): seq<Mark>
    requires steps != []
  {
    var before := GameHeard(cfg.gameMode, GameStream(steps[..|steps| - 1]));
    var now := GameHeard(cfg.gameMode, GameStream(steps));
    if |before| <= |now| then now[|before|..] else []
  }

  predicate Covers(mode: Mode, m: Mark, x: nat) {
    m.alt < |GameLiterals(mode)| && m.at <= x < m.at + |GameLiterals(mode)[m.alt]|
  }

  /** Byte number `x` of the game's stream belongs to a command that is kept from the
      client: an offer or a start marker, outside ignore mode, or a request completed by a
      read before which the latest stance on the client's side was a refusal. */
  ghost predicate Lost(cfg: Config, steps: seq<Step>, x: nat) {
    steps != [] &&
    var before, last := steps[..|steps| - 1], steps[|steps| - 1];
    Lost(cfg, before, x) || (last.GameText? && LostIn(cfg.gameMode, NewMarks(cfg, steps), Stance(cfg, before), x))
  }

  ghost predicate LostIn(mode: Mode, marks: seq<Mark>, stance: Mnes, x: nat) {
    exists i :: 0 <= i < |marks| && Covers(mode, marks[i], x) && Swallowed(mode, marks[i].alt, stance)
  }

  /** What is left of a text without the bytes at some positions, counted from `off`. */
  ghost function Without(s: Bytes, lost: nat -> bool, off: nat): Bytes {
    if s == [] then [] else (if lost(off) then [] else [s[0]]) + Without(s[1..], lost, off + 1)
  }

  /** Byte number `x` of the text taken apart was consumed by a handler. */
  function EatenAt(j: seq<Entry>, x: nat): bool {
    j != [] && if x < |j[0].text| then j[0].Eaten? else EatenAt(j[1..], x - |j[0].text|)
  }

  lemma {:induction false} WithoutAppend(a: Bytes, b: Bytes, lost: nat -> bool, off: nat)
    ensures Without(a + b, lost, off) == Without(a, lost, off) + Without(b, lost, off + |a|)
  {
    if a == [] {
      assert a + b == b;
      assert [] + Without(b, lost, off) == Without(b, lost, off);
    } else {
      assert (a + b)[0] == a[0] && (a + b)[1..] == a[1..] + b;
      WithoutAppend(a[1..], b, lost, off + 1);
      var head := if lost(off) then [] else [a[0]];
      assert head + (Without(a[1..], lost, off + 1) + Without(b, lost, off + |a|))
          == head + Without(a[1..], lost, off + 1) + Without(b, lost, off + |a|);
    }
  }

  lemma {:induction false} WithoutAllOrNone(a: Bytes, lost: nat -> bool, off: nat, all: bool)
    requires forall y: nat :: off <= y < off + |a| ==> lost(y) == all
    ensures Without(a, lost, off) == if all then [] else a
  {
    if a != [] {
      WithoutAllOrNone(a[1..], lost, off + 1, all);
    }
  }

  /** What is forwarded is the text without what is consumed. */
  lemma {:induction false} PassedIsWithout(j: seq<Entry>, lost: nat -> bool, off: nat)
    requires forall y: nat :: off <= y ==> lost(y) == EatenAt(j, y - off)
    ensures Passed(j) == Without(Consumed(j), lost, off)
  {
    if j != [] {
      var text, more := j[0].text, j[1..];
      forall y: nat | off + |text| <= y ensures lost(y) == EatenAt(more, y - (off + |text|)) {
        assert lost(y) == EatenAt(j, y - off);
      }
      PassedIsWithout(more, lost, off + |text|);
      WithoutAppend(text, Consumed(more), lost, off);
      WithoutAllOrNone(text, lost, off, j[0].Eaten?);
    }
  }

  lemma {:induction false} EatenAppend(i: seq<Entry>, j: seq<Entry>, x: nat)
    ensures EatenAt(i + j, x) == if x < |Consumed(i)| then EatenAt(i, x) else EatenAt(j, x - |Consumed(i)|)
    ensures x >= |Consumed(i)| ==> !EatenAt(i, x)
  {
    if i == [] {
      assert i + j == j;
    } else {
      assert (i + j)[0] == i[0] && (i + j)[1..] == i[1..] + j;
      if x >= |i[0].text| {
        EatenAppend(i[1..], j, x - |i[0].text|);
      }
    }
  }

  /** In a journal whose matches have been handled as the mode and the stance demand. */
  lemma {:induction false} EatenIsLost(mode: Mode, stance: Mnes, j: seq<Entry>, off: nat, x: nat)
    requires Handled(mode, stance, j) && Faithful(GameLiterals(mode), j)
    ensures EatenAt(j, x) <==> LostIn(mode, MarksOf(j, off), stance, off + x)
    ensures forall m :: m in MarksOf(j, off) ==> m.at >= off
  {
    hide GameLiterals, Swallowed, LostIn, Covers, Handled, Faithful;
    if j == [] {
      NothingLost(mode, stance, off + x);
    } else {
      var e, more, next := j[0], j[1..], off + |j[0].text|;
      TailHandled(mode, stance, j);
      var marks := MarksOf(more, next);
      if x >= |e.text| {
        EatenIsLost(mode, stance, more, next, x - |e.text|);
      } else {
        EatenIsLost(mode, stance, more, next, 0);
        NoneCover(mode, marks, stance, next, off + x);
      }
      if e.Text? {
        assert MarksOf(j, off) == marks;
      } else {
        assert MarksOf(j, off) == [Mark(off, e.alt)] + marks;
        LostFirst(mode, Mark(off, e.alt), marks, stance, off + x);
        CoversEntry(mode, e, off, x);
      }
    }
  }

  lemma NothingLost(mode: Mode, stance: Mnes, x: nat)
    ensures !LostIn(mode, [], stance, x)
  {
  }

  lemma CoversEntry(mode: Mode, e: Entry, off: nat, x: nat)
    requires !e.Text? && e.alt < |GameLiterals(mode)| && e.text == GameLiterals(mode)[e.alt]
    ensures Covers(mode, Mark(off, e.alt), off + x) <==> x < |e.text|
  {
    hide GameLiterals;
  }

  lemma TailHandled(mode: Mode, stance: Mnes, j: seq<Entry>)
    requires j != [] && Handled(mode, stance, j) && Faithful(GameLiterals(mode), j)
    ensures Handled(mode, stance, j[1..]) && Faithful(GameLiterals(mode), j[1..])
    ensures !j[0].Text? ==> j[0].alt < |GameLiterals(mode)|
    ensures !j[0].Text? ==> j[0].text == GameLiterals(mode)[j[0].alt]
    ensures !j[0].Text? ==> (j[0].Eaten? <==> Swallowed(mode, j[0].alt, stance))
  {
    hide GameLiterals, Swallowed;
  }

  lemma NoneCover(mode: Mode, marks: seq<Mark>, stance: Mnes, off: nat, x: nat)
    requires x < off && forall m :: m in marks ==> m.at >= off
    ensures !LostIn(mode, marks, stance, x)
  {
  }

  lemma LostFirst(mode: Mode, m: Mark, marks: seq<Mark>, stance: Mnes, x: nat)
    ensures LostIn(mode, [m] + marks, stance, x) <==>
      (Covers(mode, m, x) && Swallowed(mode, m.alt, stance)) || LostIn(mode, marks, stance, x)
  {
    var all := [m] + marks;
    hide GameLiterals, Swallowed;
    if i :| 0 <= i < |marks| && Covers(mode, marks[i], x) && Swallowed(mode, marks[i].alt, stance) {
      assert all[i + 1] == marks[i];
    }
    if Covers(mode, m, x) && Swallowed(mode, m.alt, stance) {
      assert all[0] == m;
    }
  }

  lemma GameLogHeard(cfg: Config, steps: seq<Step>)
    ensures MarksOf(GameLog(cfg, steps), 0) == GameHeard(cfg.gameMode, GameStream(steps))
  {
    hide *;
    LogsAreStreams(cfg, steps);
  }

  /** What one read of the game's text adds to the commands heard. */
  lemma ReadAddsMarks(cfg: Config, before: seq<Step>, text: Bytes)
    ensures var steps := before + [GameText(text)];
      var j := GameJournal(cfg, Run(cfg, before), GameText(text));
      && steps[..|steps| - 1] == before
      && NewMarks(cfg, steps) == MarksOf(j, |Consumed(GameLog(cfg, before))|)
      && GameHeard(cfg.gameMode, GameStream(steps))
         == GameHeard(cfg.gameMode, GameStream(before)) + NewMarks(cfg, steps)
  {
    hide GameHeard, GameStream, MarksOf, Consumed, GameJournal, Run;
    var steps := before + [GameText(text)];
    assert steps[..|steps| - 1] == before && steps[|steps| - 1] == GameText(text);
    GameLogHeard(cfg, before);
    GameLogHeard(cfg, steps);
    MarksAppend(GameLog(cfg, before), GameJournal(cfg, Run(cfg, before), GameText(text)), 0);
  }

  lemma ReadLoses(cfg: Config, before: seq<Step>, text: Bytes, x: nat)
    ensures var steps := before + [GameText(text)];
      var done := |Consumed(GameLog(cfg, before))|;
      var j := GameJournal(cfg, Run(cfg, before), GameText(text));
      LostIn(cfg.gameMode, NewMarks(cfg, steps), Stance(cfg, before), x) <==> x >= done && EatenAt(j, x - done)
  {
    hide Sound, GameHeard, LostIn, EatenAt, Handled, Faithful, MarksOf, Consumed, NewMarks, Stance, Run, GameLog;
    var s := Run(cfg, before);
    ReadAddsMarks(cfg, before, text);
    JournalIsHandled(cfg, before, text);
    var done := |Consumed(GameLog(cfg, before))|;
    var j := GameJournal(cfg, s, GameText(text));
    hide GameJournal;
    if x >= done {
      EatenIsLost(cfg.gameMode, Stance(cfg, before), j, done, x - done);
    } else {
      EatenIsLost(cfg.gameMode, Stance(cfg, before), j, done, 0);
      NoneCover(cfg.gameMode, MarksOf(j, done), Stance(cfg, before), done, x);
    }
  }

  lemma JournalIsHandled(cfg: Config, before: seq<Step>, text: Bytes)
    ensures var j := GameJournal(cfg, Run(cfg, before), GameText(text));
      Faithful(GameLiterals(cfg.gameMode), j) && Handled(cfg.gameMode, Stance(cfg, before), j)
  {
    hide Run, Journal, Drain, Sound, Faithful, Handled, Stance, GameRules;
    var s := Run(cfg, before);
    RunSound(cfg, before);
    StanceOverStreams(cfg, before);
    GameStep(cfg, s, text);
    GameTextHandled(cfg, Pair(s.game, s.client), s.gameBuf + text);
  }

  lemma LostLast(cfg: Config, before: seq<Step>, text: Bytes, x: nat)
    ensures var steps := before + [GameText(text)];
      Lost(cfg, steps, x) <==>
        Lost(cfg, before, x) || LostIn(cfg.gameMode, NewMarks(cfg, steps), Stance(cfg, before), x)
  {
    hide NewMarks, Stance, LostIn;
    assert (before + [GameText(text)])[..|before|] == before;
  }

  /** What has been consumed of the game's stream is what is lost by it. */
  lemma {:induction false} LogLoses(cfg: Config, steps: seq<Step>, x: nat)
    ensures EatenAt(GameLog(cfg, steps), x) <==> Lost(cfg, steps, x)
    decreases |steps|
  {
    if steps != [] {
      var before, last := steps[..|steps| - 1], steps[|steps| - 1];
      LogLoses(cfg, before, x);
      hide Run, EatenAt, Consumed, Journal, Lost, LostIn, NewMarks, Stance;
      var log, j := GameLog(cfg, before), GameJournal(cfg, Run(cfg, before), last);
      assert steps == before + [last];
      if last.GameText? {
        EatenAppend(log, j, x);
        ReadLoses(cfg, before, last.text, x);
        LostLast(cfg, before, last.text, x);
      } else {
        LostSame(cfg, steps, x);
        assert log + [] == log;
      }
    }
  }

  lemma LostSame(cfg: Config, steps: seq<Step>, x: nat)
    requires steps != [] && !steps[|steps| - 1].GameText?
    ensures Lost(cfg, steps, x) <==> Lost(cfg, steps[..|steps| - 1], x)
  {
    hide NewMarks, LostIn, Stance;
  }

  /** Over every run: what the client has been forwarded is the game's stream, as far as it
      is not held, without the bytes that are lost by it. */
  lemma ForwardedOverStreams(cfg: Config, steps: seq<Step>)
    ensures var s, stream := Run(cfg, steps), GameStream(steps);
      && |s.gameBuf| <= |stream| && s.gameBuf == stream[|stream| - |s.gameBuf|..]
      && RelayedTo(s.client) == Without(stream[..|stream| - |s.gameBuf|], (x: nat) => Lost(cfg, steps, x), 0)
  {
    hide Run, GameLog, GameStream, ClientLog, ClientStream, Consumed, Passed, Lost, EatenAt, Only, Faithful, Without;
    OrderAndConservation(cfg, steps);
    var log := GameLog(cfg, steps);
    var lost := (x: nat) => Lost(cfg, steps, x);
    forall y: nat | 0 <= y ensures lost(y) == EatenAt(log, y - 0) {
      LogLoses(cfg, steps, y);
    }
    PassedIsWithout(log, lost, 0);
  }

  // ---- Single commands ----

  lemma HeardGrows(cfg: Config, steps: seq<Step>)
    requires steps != []
    ensures var before := steps[..|steps| - 1];
      GameHeard(cfg.gameMode, GameStream(steps))
        == GameHeard(cfg.gameMode, GameStream(before))
           + if steps[|steps| - 1].GameText? then NewMarks(cfg, steps) else []
  {
    hide GameHeard, NewMarks, Run, GameLog, GameJournal, MarksOf, Consumed;
    var before, last := steps[..|steps| - 1], steps[|steps| - 1];
    if last.GameText? {
      ReadAddsMarks(cfg, before, last.text);
      assert before + [GameText(last.text)] == steps;
    } else {
      assert GameStream(before) + [] == GameStream(before);
    }
  }

  /** A lost byte belongs to a command that has been heard. */
  lemma {:induction false} LostIsHeard(cfg: Config, steps: seq<Step>, x: nat) returns (m: Mark)
    requires Lost(cfg, steps, x)
    ensures m in GameHeard(cfg.gameMode, GameStream(steps)) && Covers(cfg.gameMode, m, x)
    decreases |steps|
  {
    hide GameHeard, Covers, Stance, Swallowed;
    var before := steps[..|steps| - 1];
    HeardGrows(cfg, steps);
    if Lost(cfg, before, x) {
      m := LostIsHeard(cfg, before, x);
    } else {
      var marks := NewMarks(cfg, steps);
      var i :| 0 <= i < |marks| && Covers(cfg.gameMode, marks[i], x)
        && Swallowed(cfg.gameMode, marks[i].alt, Stance(cfg, before));
      m := marks[i];
    }
  }

  /** The bytes of an offer or a start marker are lost, outside ignore mode. */
  lemma {:induction false} HeardIsLost(cfg: Config, steps: seq<Step>, m: Mark, x: nat)
    requires cfg.gameMode != Ignore && m.alt >= 3
    requires m in GameHeard(cfg.gameMode, GameStream(steps)) && Covers(cfg.gameMode, m, x)
    ensures Lost(cfg, steps, x)
    decreases |steps|
  {
    hide GameHeard, Covers, Stance;
    if steps == [] {
      NothingHeard(cfg.gameMode);
    } else {
      var before := steps[..|steps| - 1];
      HeardGrows(cfg, steps);
      if m in GameHeard(cfg.gameMode, GameStream(before)) {
        HeardIsLost(cfg, before, m, x);
      } else {
        var marks := NewMarks(cfg, steps);
        var i :| 0 <= i < |marks| && marks[i] == m;
        assert LostIn(cfg.gameMode, marks, Stance(cfg, before), x);
      }
    }
  }

  lemma NothingHeard(mode: Mode)
    ensures GameHeard(mode, GameStream([])) == []
  {
  }

  /** Commands heard do not overlap. */
  lemma HeardApart(mode: Mode, stream: Bytes, a: Mark, b: Mark, x: nat)
    requires a in GameHeard(mode, stream) && b in GameHeard(mode, stream)
    requires Covers(mode, a, x) && Covers(mode, b, x)
    ensures a == b
  {
    hide GameLiterals, Parse, Heeded;
    var ps := GameLiterals(mode);
    GameBracketed(mode);
    BracketedNonEmpty(ps);
    ParseSorted(ps, stream, 0);
    var marks := Parse(ps, stream, 0);
    HeededWithin(StartMarkers(mode), marks, a);
    HeededWithin(StartMarkers(mode), marks, b);
    var i :| 0 <= i < |marks| && marks[i] == a;
    var k :| 0 <= k < |marks| && marks[k] == b;
  }

  /** A request that a read completes, wherever in the stream it stands, is forwarded to the
      client exactly if the latest of the client's WILL, its WONT and the fallback before
      that read is not a refusal. */
  lemma RequestFate(cfg: Config, before: seq<Step>, text: Bytes, m: Mark, x: nat)
    requires m.alt < 2 && m in NewMarks(cfg, before + [GameText(text)]) && Covers(cfg.gameMode, m, x)
    ensures Lost(cfg, before + [GameText(text)], x) <==> Stance(cfg, before) == SaidWont
  {
    hide GameHeard, Covers, Stance, Lost, NewMarks;
    var steps := before + [GameText(text)];
    var marks := NewMarks(cfg, steps);
    ReadAddsMarks(cfg, before, text);
    LostLast(cfg, before, text, x);
    if Lost(cfg, before, x) {
      var other := LostIsHeard(cfg, before, x);
      HeardApart(cfg.gameMode, GameStream(steps), other, m, x);
      NewIsNew(cfg, before, text, m);
      assert false;
    }
    if LostIn(cfg.gameMode, marks, Stance(cfg, before), x) {
      var i :| 0 <= i < |marks| && Covers(cfg.gameMode, marks[i], x)
        && Swallowed(cfg.gameMode, marks[i].alt, Stance(cfg, before));
      HeardApart(cfg.gameMode, GameStream(steps), marks[i], m, x);
    }
    if Stance(cfg, before) == SaidWont {
      var i :| 0 <= i < |marks| && marks[i] == m;
      assert LostIn(cfg.gameMode, marks, Stance(cfg, before), x);
    }
  }

  lemma NewIsNew(cfg: Config, before: seq<Step>, text: Bytes, m: Mark)
    requires m in NewMarks(cfg, before + [GameText(text)])
    ensures m !in GameHeard(cfg.gameMode, GameStream(before))
  {
    hide GameHeard, NewMarks;
    ReadAddsMarks(cfg, before, text);
    HeardIncreases(cfg.gameMode, GameStream(before + [GameText(text)]));
    LaterIsOther(GameHeard(cfg.gameMode, GameStream(before)), NewMarks(cfg, before + [GameText(text)]), m);
  }

  lemma LaterIsOther(a: seq<Mark>, b: seq<Mark>, m: Mark)
    requires Increasing(a + b) && m in b
    ensures m !in a
  {
    var k :| 0 <= k < |b| && b[k] == m;
    assert (a + b)[|a| + k] == m;
    forall i | 0 <= i < |a| ensures a[i] != m {
      assert (a + b)[i] == a[i];
    }
  }

  lemma HeardIncreases(mode: Mode, stream: Bytes)
    ensures Increasing(GameHeard(mode, stream))
  {
    hide Parse, Heeded, GameLiterals;
    var ps := GameLiterals(mode);
    GameBracketed(mode);
    BracketedNonEmpty(ps);
    ParseSorted(ps, stream, 0);
    HeededIncreasing(StartMarkers(mode), ps, Parse(ps, stream, 0));
  }

  /** The proxy's answers to commands of the game's, in order. */
  function AnswersIn(cfg: Config, nego: Nego, marks: seq<Mark>): Bytes {
    if marks == [] then []
    else AnswerAt(cfg, nego, marks[0].alt) + AnswersIn(cfg, nego, marks[1..])
  }

  function AnswerAt(cfg: Config, nego: Nego, alt: nat): Bytes {
    if alt < |GamePatterns(cfg.gameMode)| && alt < |GameLiterals(cfg.gameMode)|
    then Answer(cfg, nego, GamePatterns(cfg.gameMode)[alt].action, GameLiterals(cfg.gameMode)[alt])
    else []
  }

  lemma {:induction false} AnswersOfLog(cfg: Config, nego: Nego, j: seq<Entry>, off: nat)
    requires Faithful(GameLiterals(cfg.gameMode), j)
    ensures Answers(cfg, nego, j) == AnswersIn(cfg, nego, MarksOf(j, off))
  {
    hide GameLiterals, GamePatterns, Faithful, Answer;
    if j != [] {
      var next := off + |j[0].text|;
      var more := MarksOf(j[1..], next);
      TailFaithful(GameLiterals(cfg.gameMode), j);
      TablesAgree(cfg.gameMode);
      AnswersOfLog(cfg, nego, j[1..], next);
      if j[0].Text? {
        assert MarksOf(j, off) == more;
        assert [] + Answers(cfg, nego, j[1..]) == Answers(cfg, nego, j[1..]);
      } else {
        assert MarksOf(j, off) == [Mark(off, j[0].alt)] + more;
        assert MarksOf(j, off)[1..] == more;
      }
    }
  }

  lemma TailFaithful(ps: seq<Bytes>, j: seq<Entry>)
    requires j != [] && Faithful(ps, j)
    ensures Faithful(ps, j[1..])
    ensures !j[0].Text? ==> j[0].alt < |ps| && j[0].text == ps[j[0].alt]
  {
  }

  lemma TablesAgree(mode: Mode)
    ensures |GameLiterals(mode)| == |GamePatterns(mode)|
  {
  }

  /** What one read of the game's text does, by the streams: the commands it completes, each
      of them once, are answered in order; and a request among them is forwarded to the
      client exactly if the latest of the client's WILL, its WONT and the fallback before
      that read is not a refusal. */
  lemma RequestsOverStreams(cfg: Config, before: seq<Step>, text: Bytes)
    requires ConfigOk(cfg)
    ensures var steps := before + [GameText(text)];
      var s, t, marks := Run(cfg, before), Run(cfg, steps), NewMarks(cfg, steps);
      && GameHeard(cfg.gameMode, GameStream(steps)) == GameHeard(cfg.gameMode, GameStream(before)) + marks
      && InjectedTo(t.game) == InjectedTo(s.game) + AnswersIn(cfg, s.client.nego, marks)
      && (forall m, x: nat :: m in marks && m.alt < 2 && Covers(cfg.gameMode, m, x) ==>
            (Lost(cfg, steps, x) <==> Stance(cfg, before) == SaidWont))
  {
    hide Run, ConfigOk, GameHeard, GameStream, NewMarks, MarksOf, Consumed, Lost, Covers, Stance;
    hide Answers, AnswersIn, Only, Stances, GameJournal, Faithful, StepEffect, Sound;
    RefusalIsHonoured(cfg, before, text);
    ReadAddsMarks(cfg, before, text);
    JournalIsHandled(cfg, before, text);
    AnswersOfLog(cfg, Run(cfg, before).client.nego, GameJournal(cfg, Run(cfg, before), GameText(text)),
                 |Consumed(GameLog(cfg, before))|);
    var steps := before + [GameText(text)];
    forall m, x: nat | m in NewMarks(cfg, steps) && m.alt < 2 && Covers(cfg.gameMode, m, x)
      ensures Lost(cfg, steps, x) <==> Stance(cfg, before) == SaidWont
    {
      RequestFate(cfg, before, text, m, x);
    }
  }

  /** In enable mode an offer of any version of MCCP, wherever in the game's stream it
      stands and whatever is before it, is a command heard, and kept from the client,
      exactly if it is version 2; no command heard touches any other, so that they are
      forwarded and answered by nobody. */
  lemma OfferOverStreams(cfg: Config, steps: seq<Step>, n: nat, opt: byte)
    requires cfg.gameMode == Enable && MCCP <= opt <= MCCP3
    requires Fits([IAC, WILL, opt], GameStream(steps), n)
    ensures var heard := GameHeard(Enable, GameStream(steps));
      && (Mark(n, 3) in heard <==> opt == MCCP2)
      && (forall m, x: nat :: m in heard && n <= x < n + 3 && Covers(Enable, m, x) ==> m == Mark(n, 3))
    ensures forall x: nat :: n <= x < n + 3 ==> (Lost(cfg, steps, x) <==> opt == MCCP2)
    ensures forall nego :: AnswerAt(cfg, nego, 3) == [IAC, DO, MCCP2]
  {
    OfferAnswer(cfg);
    hide GameHeard, GameStream, Lost, Covers, Fits, GameLiterals, AnswerAt;
    var stream := GameStream(steps);
    var heard := GameHeard(Enable, stream);
    OfferHeard(stream, n, opt);
    forall m, x: nat | m in heard && n <= x < n + 3 && Covers(Enable, m, x) ensures m == Mark(n, 3) {
      OfferTouched(stream, n, opt, m, x);
    }
    forall x: nat | n <= x < n + 3 ensures Lost(cfg, steps, x) <==> opt == MCCP2 {
      if Lost(cfg, steps, x) {
        var m := LostIsHeard(cfg, steps, x);
        OfferTouched(stream, n, opt, m, x);
      }
      if opt == MCCP2 {
        OfferCovers(n, x);
        HeardIsLost(cfg, steps, Mark(n, 3), x);
      }
    }
  }

  lemma OfferAnswer(cfg: Config)
    requires cfg.gameMode == Enable
    ensures forall nego :: AnswerAt(cfg, nego, 3) == [IAC, DO, MCCP2]
  {
    assert GameLiterals(Enable)[3] == [IAC, WILL, MCCP2];
  }

  lemma OfferCovers(n: nat, x: nat)
    requires n <= x < n + 3
    ensures Covers(Enable, Mark(n, 3), x)
  {
    assert GameLiterals(Enable)[3] == [IAC, WILL, MCCP2];
  }

  lemma OfferHeard(stream: Bytes, n: nat, opt: byte)
    requires Fits([IAC, WILL, opt], stream, n)
    ensures Mark(n, 3) in GameHeard(Enable, stream) <==> opt == MCCP2
  {
    hide GameHeard, Fits;
    var offer := [IAC, WILL, opt];
    assert GameLiterals(Enable)[3] == [IAC, WILL, MCCP2];
    GameCommandStands(Enable, stream, n, 3);
    GameHeardExactly(Enable, stream, n, 3);
    OneFits(GameLiterals(Enable)[3], offer, stream, n);
    assert opt == MCCP2 ==> offer == GameLiterals(Enable)[3];
  }

  lemma OneFits(p: Bytes, q: Bytes, s: Bytes, n: nat)
    requires |p| >= 3 && |q| >= 3 && Fits(q, s, n)
    ensures Fits(p, s, n) ==> p[1] == q[1] && p[2] == q[2]
  {
    assert q[1] == s[n + 1] && q[2] == s[n + 2];
  }

  /** No command heard touches an offer but the offer itself. */
  lemma OfferTouched(stream: Bytes, n: nat, opt: byte, m: Mark, x: nat)
    requires Fits([IAC, WILL, opt], stream, n) && MCCP <= opt <= MCCP3
    requires m in GameHeard(Enable, stream) && n <= x < n + 3 && Covers(Enable, m, x)
    ensures m == Mark(n, 3)
  {
    hide GameHeard, Fits;
    var ps, offer := GameLiterals(Enable), [IAC, WILL, opt];
    assert m == Mark(m.at, m.alt);
    GameHeardExactly(Enable, stream, m.at, m.alt);
    GameBracketed(Enable);
    var p := ps[m.alt];
    assert BracketedOne(p);
    assert BracketedOne(offer);
    if m.at < n {
      NothingInside(p, offer, stream, m.at, n);
    } else if m.at > n {
      NothingInside(offer, p, stream, n, m.at);
    } else {
      OneFits(p, offer, stream, n);
    }
  }
}
