/** What the two sides have said about NEW-ENVIRON in their streams, and when the fallback
    answers for the client. */
module ClientStances {
  import opened Telnet
  import opened Rewriter
  import opened Handlers
  import opened Fallback
  import opened Sessions
  import opened Negotiation
  import opened Runs
  import opened Parses
  import opened Readers
  import opened Streams

  // ---- Stances ----

  /** The client's stances among the commands heard, in order. */
  function SaysIn(marks: seq<Mark>): seq<Mnes> {
    if marks == [] then []
    else
      (if marks[0].alt == 0 then [SaidWont] else if marks[0].alt == 1 then [SaidWill] else []) + SaysIn(marks[1..])
  }

  /** Whether there is a DO NEW-ENVIRON among them. */
  predicate AsksIn(marks: seq<Mark>) {
    exists i :: 0 <= i < |marks| && marks[i].alt == 2
  }

  lemma {:induction false} SaysOfLog(j: seq<Entry>, off: nat)
    ensures Says(j) == SaysIn(MarksOf(j, off))
  {
    if j != [] {
      var next := off + |j[0].text|;
      SaysOfLog(j[1..], next);
      if j[0].Text? {
        assert [] + MarksOf(j[1..], next) == MarksOf(j[1..], next);
        assert [] + Says(j[1..]) == Says(j[1..]);
      } else {
        assert ([Mark(off, j[0].alt)] + MarksOf(j[1..], next))[1..] == MarksOf(j[1..], next);
      }
    }
  }

  lemma {:induction false} AsksOfLog(j: seq<Entry>, off: nat)
    ensures Asks(j) <==> AsksIn(MarksOf(j, off))
  {
    if j != [] {
      var next := off + |j[0].text|;
      AsksOfLog(j[1..], next);
      var more, marks := MarksOf(j[1..], next), MarksOf(j, off);
      if j[0].Text? {
        assert marks == more;
      } else {
        assert marks == [Mark(off, j[0].alt)] + more;
        AsksFirst(Mark(off, j[0].alt), more);
      }
    }
  }

  lemma AsksFirst(m: Mark, more: seq<Mark>)
    ensures AsksIn([m] + more) <==> m.alt == 2 || AsksIn(more)
  {
    var marks := [m] + more;
    if i :| 0 <= i < |more| && more[i].alt == 2 {
      assert marks[i + 1].alt == 2;
    }
    if m.alt == 2 {
      assert marks[0].alt == 2;
    }
  }

  /** What the client has said about NEW-ENVIRON so far. */
  function Said(cfg: Config, steps: seq<Step>): seq<Mnes> {
    SaysIn(ClientHeard(cfg.clientMode, ClientStream(steps)))
  }

  /** Whether the game has asked for it. */
  predicate Asked(cfg: Config, steps: seq<Step>) {
    AsksIn(GameHeard(cfg.gameMode, GameStream(steps)))
  }

  /** The latest of the client's WILL and WONT, and the fallback's if there is neither. */
  function Stance(cfg: Config, steps: seq<Step>): Mnes {
    Latest(if Firings(cfg, steps) > 0 then SaidWont else Silent, Said(cfg, steps))
  }

  lemma {:induction false} StancesAreSays(cfg: Config, steps: seq<Step>)
    ensures Stances(cfg, steps) == (if Firings(cfg, steps) > 0 then [SaidWont] else []) + Says(ClientLog(cfg, steps))
    decreases |steps|
  {
    if steps == [] {
      NothingSaid(cfg);
    } else {
      var before, last := steps[..|steps| - 1], steps[|steps| - 1];
      StancesAreSays(cfg, before);
      StanceIsLatest(cfg, before);
      OneMoreStep(cfg, steps);
      hide Stances, Firings, ClientLog, Says, Run, Fires;
      var s := Run(cfg, before);
      var first := if Firings(cfg, before) > 0 then [SaidWont] else [];
      if last.LoopHead? && Fires(cfg, s, last.now) {
        FiresSilent(cfg, s, last.now);
        NoLatest(Stances(cfg, before));
        assert Says(ClientLog(cfg, before)) == [] && first == [];
      } else {
        Joined(first, Says(ClientLog(cfg, before)), Says(ClientJournal(cfg, s, last)));
      }
    }
  }

  lemma Joined(a: seq<Mnes>, b: seq<Mnes>, c: seq<Mnes>)
    ensures a + b + c == a + (b + c) && a + [] == a
  {
  }

  lemma NothingSaid(cfg: Config)
    ensures Says([]) == [] && Stances(cfg, []) == [] && Firings(cfg, []) == 0 && ClientLog(cfg, []) == []
  {
  }

  /** What the last step adds to the stances, the answers of the fallback and the log. */
  lemma OneMoreStep(cfg: Config, steps: seq<Step>)
    requires steps != []
    ensures var before, last := steps[..|steps| - 1], steps[|steps| - 1];
      var s := Run(cfg, before);
      var fires := last.LoopHead? && Fires(cfg, s, last.now);
      var says := Says(ClientJournal(cfg, s, last));
      && Says(ClientLog(cfg, steps)) == Says(ClientLog(cfg, before)) + says
      && Firings(cfg, steps) == Firings(cfg, before) + (if fires then 1 else 0)
      && Stances(cfg, steps) == Stances(cfg, before) + (if fires then [SaidWont] else says)
      && (fires ==> says == [])
  {
    var before, last := steps[..|steps| - 1], steps[|steps| - 1];
    hide Run, Journal, Fires;
    NothingSaid(cfg);
    SaysAppend(ClientLog(cfg, before), ClientJournal(cfg, Run(cfg, before), last));
  }

  lemma FiresSilent(cfg: Config, s: Session, now: Time)
    requires Fires(cfg, s, now)
    ensures s.client.mnes == Silent
  {
  }

  lemma NoLatest(says: seq<Mnes>)
    requires Latest(Silent, says) == Silent && Silent !in says
    ensures says == []
  {
  }

  /** Over every run: the recorded stance is the latest of what the client has said in its
      stream and the fallback; the game counts as asking exactly if there is a DO in its
      stream; and the fallback answers at most once, before the client has said anything. */
  lemma StanceOverStreams(cfg: Config, steps: seq<Step>)
    ensures var s := Run(cfg, steps);
      && s.client.mnes == Stance(cfg, steps)
      && (s.game.mnes == SaidDo <==> Asked(cfg, steps))
      && Firings(cfg, steps) <= 1
  {
    hide Run, Stances, Firings, ClientLog, GameLog, ClientHeard, GameHeard, Heard;
    StanceIsLatest(cfg, steps);
    StancesAreSays(cfg, steps);
    LogsAreStreams(cfg, steps);
    SaysOfLog(ClientLog(cfg, steps), 0);
    AsksOfLog(GameLog(cfg, steps), 0);
    var first := if Firings(cfg, steps) > 0 then [SaidWont] else [];
    assert Said(cfg, steps) == [] ==> first + Said(cfg, steps) == first;
  }

  // ---- The fallback ----

  /** The game has asked, and the client has said nothing. */
  predicate Owing(cfg: Config, steps: seq<Step>) {
    cfg.fallback && Asked(cfg, steps) && Said(cfg, steps) == []
  }

  /** The clock at the first loop head that found it so. */
  function FirstOwing(cfg: Config, steps: seq<Step>): Option<Time> {
    if steps == [] then None
    else
      var before := steps[..|steps| - 1];
      var last := steps[|steps| - 1];
      if FirstOwing(cfg, before).Some? then FirstOwing(cfg, before)
      else if last.LoopHead? && Owing(cfg, before) then Some(last.now)
      else None
  }

  /** At `now` the configured time has passed since then, and it is still so. */
  predicate Due(cfg: Config, steps: seq<Step>, now: Time) {
    && Owing(cfg, steps) && FirstOwing(cfg, steps).Some?
    && Total(now) >= Total(FirstOwing(cfg, steps).value) + cfg.fallbackMs * 1_000_000
  }

  /** Some loop head has found it due. */
  predicate Overdue(cfg: Config, steps: seq<Step>) {
    steps != [] &&
    var before, last := steps[..|steps| - 1], steps[|steps| - 1];
    Overdue(cfg, before) || (last.LoopHead? && Due(cfg, before, last.now))
  }

  /** The clock is always normalised, and from its reading at the first loop head that
      finds the client owing an answer a deadline can be armed. */
  ghost predicate ClocksOk(cfg: Config, steps: seq<Step>) {
    && (forall i :: 0 <= i < |steps| && steps[i].LoopHead? ==> Normal(steps[i].now))
    && (FirstOwing(cfg, steps).Some? ==> Armable(FirstOwing(cfg, steps).value, cfg.fallbackMs))
  }

  lemma WaitingIsOwing(cfg: Config, steps: seq<Step>)
    ensures Waiting(cfg, Run(cfg, steps)) <==> Owing(cfg, steps) && Firings(cfg, steps) == 0
  {
    hide Run, Firings, ClientHeard, GameHeard;
    StanceOverStreams(cfg, steps);
    SaysOnly(ClientHeard(cfg.clientMode, ClientStream(steps)));
  }

  lemma {:induction false} SaysOnly(marks: seq<Mark>)
    ensures Silent !in SaysIn(marks)
  {
    if marks != [] {
      SaysOnly(marks[1..]);
    }
  }

  /** What the fallback has done is what the streams and the clock say. */
  lemma {:induction false} FallbackSoFar(cfg: Config, steps: seq<Step>)
    requires ClocksOk(cfg, steps)
    ensures FirstWait(cfg, steps) == FirstOwing(cfg, steps)
    ensures FirstOwing(cfg, steps).Some? ==> Normal(FirstOwing(cfg, steps).value)
    ensures Firings(cfg, steps) == if Overdue(cfg, steps) then 1 else 0
    ensures Firings(cfg, steps) > 0 ==> FirstOwing(cfg, steps).Some?
    decreases |steps|
  {
    hide Run, Said, Asked, Fires, Owing, Waiting, Armable;
    if steps != [] {
      var before, last := steps[..|steps| - 1], steps[|steps| - 1];
      FallbackSoFar(cfg, before);
      WaitingIsOwing(cfg, before);
      if last.LoopHead? {
        FiresIsDue(cfg, before, last.now);
      }
    }
  }

  /** The two stances of a run, by its log and by the streams, are taken or not together. */
  lemma NoStanceYet(cfg: Config, steps: seq<Step>)
    ensures Asks(GameLog(cfg, steps)) <==> Asked(cfg, steps)
    ensures Stances(cfg, steps) == [] <==> Said(cfg, steps) == [] && Firings(cfg, steps) == 0
  {
    hide Run, Stances, Firings, ClientLog, GameLog, ClientHeard, GameHeard, Heard;
    StancesAreSays(cfg, steps);
    LogsAreStreams(cfg, steps);
    SaysOfLog(ClientLog(cfg, steps), 0);
    AsksOfLog(GameLog(cfg, steps), 0);
  }

  lemma FiresIsDue(cfg: Config, steps: seq<Step>, now: Time)
    requires Normal(now) && FirstWait(cfg, steps) == FirstOwing(cfg, steps)
    requires FirstOwing(cfg, steps).Some? ==>
      Normal(FirstOwing(cfg, steps).value) && Armable(FirstOwing(cfg, steps).value, cfg.fallbackMs)
    ensures Fires(cfg, Run(cfg, steps), now) <==> Due(cfg, steps, now) && Firings(cfg, steps) == 0
  {
    hide Run, Said, Asked, FirstWait, FirstOwing, Firings, Fires, Stances, GameLog, Armable;
    NoStanceYet(cfg, steps);
    FallbackTiming(cfg, steps, now);
  }

  /** A loop head answers for the client exactly if, by what the two sides have sent, the
      game has asked and the client said nothing, the configured time has passed since the
      first loop head that found it so, and no earlier one has found that: not before, and
      at the first opportunity after. The game is then sent WILL, and the client counts as
      refusing. The deadline is the one armed at that first loop head. */
  lemma FallbackOverStreams(cfg: Config, steps: seq<Step>, now: Time)
    requires ClocksOk(cfg, steps) && Normal(now)
    ensures var s := Run(cfg, steps);
      var t := Run(cfg, steps + [LoopHead(now)]);
      var fires := Due(cfg, steps, now) && !Overdue(cfg, steps);
      && InjectedTo(t.game) == InjectedTo(s.game) + (if fires then WILL_MNES else [])
      && t.client.mnes == (if fires then SaidWont else s.client.mnes)
      && s.deadline == (match FirstOwing(cfg, steps)
           case None => Time(0, 0)
           case Some(first) => Arm(first, cfg.fallbackMs))
  {
    hide Run, Only, Arm, Due, Overdue, FirstWait, FirstOwing, Firings, Fires, Stances, GameLog, Armable;
    FallbackSoFar(cfg, steps);
    FiresIsDue(cfg, steps, now);
    FallbackTiming(cfg, steps, now);
    DeadlineIsArmed(cfg, steps);
  }

  /** The condition on the clock holds for any delay that is not negative and any
      normalised clock that has reached one second. */
  lemma {:induction false} ClocksUsuallyOk(cfg: Config, steps: seq<Step>)
    requires cfg.fallbackMs >= 0
    requires forall i :: 0 <= i < |steps| && steps[i].LoopHead? ==> Normal(steps[i].now) && steps[i].now.sec > 0
    ensures ClocksOk(cfg, steps)
    decreases |steps|
  {
    hide Owing;
    if steps != [] {
      ClocksUsuallyOk(cfg, steps[..|steps| - 1]);
    }
  }
}
