/** The forking accept loop and its SIGCHLD handler, interleaved with the exits of
    the children. */
module Children {

  /** Where the loop of demonize is. */
  datatype MainPc =
    | Top        // about to test for shutdown and for capacity
    | Full       // waiting at capacity
    | Accepting  // in accept
    | Accepted   // connected, SIGCHLD not yet blocked
    | Masked     // about to fork
    | Forked     // a child exists that is not counted
    | Counted    // counted, SIGCHLD still blocked
    | NotForked  // fork failed, SIGCHLD still blocked
    | Stopped

  /** Where zombie_killer is: not running, about to call waitpid, or having reaped a
      child that is still counted. */
  datatype HandlerPc = Idle | Waiting | Reaped

  datatype State = State(
    main: MainPc,
    handler: HandlerPc,
    masked: bool,
    pending: bool,
    live: nat,
    zombies: nat,
    count: int,
    max: int)

  /** What can happen next. Steps of the loop whose outcome lies with the system
      carry it. */
  datatype Move =
    | Loop
    | Shutdown
    | AcceptReturns(ok: bool, interrupted: bool)
    | ForkReturns(ok: bool)
    | ChildExits
    | Deliver
    | HandlerStep

  predicate AtCapacity(s: State) {
    s.max > 0 && s.count >= s.max
  }

  /** The loop does not move while the handler runs on its thread. */
  function MainStep(s: State, m: Move): State
    requires s.handler == Idle
  {
    match s.main
    case Top =>
      if m == Shutdown then s.(main := Stopped)
      else if m != Loop then s
      else if AtCapacity(s) then s.(main := Full) else s.(main := Accepting)
    case Full => if m == Loop then s.(main := Top) else s
    case Accepting =>
      if !m.AcceptReturns? then s
      else if m.ok then s.(main := Accepted)
      else if m.interrupted then s.(main := Top) else s.(main := Stopped)
    case Accepted => if m == Loop then s.(main := Masked, masked := true) else s
    case Masked =>
      if !m.ForkReturns? then s
      else if m.ok then s.(main := Forked, live := s.live + 1) else s.(main := NotForked)
    case Forked => if m == Loop then s.(main := Counted, count := s.count + 1) else s
    case Counted => if m == Loop then s.(main := Top, masked := false) else s
    case NotForked => if m == Loop then s.(main := Top, masked := false) else s
    case Stopped => s
  }

  /** One waitpid with WNOHANG, or the subtraction after a successful one. */
  function HandlerMove(s: State): State {
    match s.handler
    case Idle => s
    case Waiting =>
      if s.zombies > 0 then s.(handler := Reaped, zombies := s.zombies - 1) else s.(handler := Idle)
    case Reaped => s.(handler := Waiting, count := s.count - 1)
  }

  /** The effect of a move; a move that is not possible changes nothing. Exits of
      several children leave a single SIGCHLD pending. */
  function Next(s: State, m: Move): State {
    match m
    case ChildExits =>
      if s.live > 0 then s.(live := s.live - 1, zombies := s.zombies + 1, pending := true) else s
    case Deliver =>
      if s.pending && !s.masked && s.handler == Idle then s.(pending := false, handler := Waiting) else s
    case HandlerStep => HandlerMove(s)
    case _ => if s.handler == Idle then MainStep(s, m) else s
  }

  function Start(max: int): State {
    State(Top, Idle, false, false, 0, 0, 0, max)
  }

  function Run(max: int, moves: seq<Move>): State
    decreases |moves|
  {
    if moves == [] then Start(max)
    else Next(Run(max, moves[..|moves| - 1]), moves[|moves| - 1])
  }

  // ---- What holds under every interleaving ----

  function Uncounted(s: State): nat { if s.main == Forked then 1 else 0 }

  function Unsubtracted(s: State): nat { if s.handler == Reaped then 1 else 0 }

  /** The loop has passed the test for capacity and not yet counted a new child. */
  predicate Admitted(s: State) {
    s.main == Accepting || s.main == Accepted || s.main == Masked || s.main == Forked
  }

  ghost predicate Accounted(s: State) {
    && s.count + Uncounted(s) == s.live + s.zombies + Unsubtracted(s)
    && s.count >= 0
    && (s.masked <==> s.main == Masked || s.main == Forked || s.main == Counted || s.main == NotForked)
    && (s.masked ==> s.handler == Idle)
    && (s.main == Forked ==> s.live + s.zombies > 0)
    && (s.max > 0 ==> s.count <= s.max && (Admitted(s) ==> s.count < s.max))
    && (s.zombies > 0 ==> s.pending || s.handler != Idle)
  }

  lemma NextAccounted(s: State, m: Move)
    requires Accounted(s)
    ensures Accounted(Next(s, m)) && Next(s, m).max == s.max
  {
  }

  /** The counter and the child not yet counted always make up the unreaped children
      and the one not yet subtracted; it is never negative; and there are never more
      children than permitted. */
  lemma {:induction false} ChildAccounting(max: int, moves: seq<Move>)
    ensures var s := Run(max, moves);
      && Accounted(s) && s.max == max
      && (max > 0 ==> s.live + s.zombies <= max)
    decreases |moves|
  {
    hide Next, Accounted;
    if moves == [] {
      StartAccounted(max);
      CapacityHolds(Start(max));
    } else {
      var n := |moves| - 1;
      ChildAccounting(max, moves[..n]);
      NextAccounted(Run(max, moves[..n]), moves[n]);
      CapacityHolds(Run(max, moves));
    }
  }

  lemma StartAccounted(max: int)
    ensures Accounted(Start(max))
  {
  }

  lemma CapacityHolds(s: State)
    requires Accounted(s)
    ensures s.max > 0 ==> s.live + s.zombies <= s.max
  {
  }

  /** A dead child that has not been reaped is never forgotten, although signals
      coalesce: one is pending, or the handler has yet to find nothing to reap. */
  lemma {:induction false} NoLostZombie(max: int, moves: seq<Move>)
    requires Run(max, moves).zombies > 0
    ensures Run(max, moves).pending || Run(max, moves).handler != Idle
  {
    ChildAccounting(max, moves);
  }

  /** `n` steps of the handler without anything in between. */
  function HandlerSteps(n: nat): seq<Move> {
    seq(n, i => HandlerStep)
  }

  lemma {:induction false} RunAppend(max: int, before: seq<Move>, m: Move)
    ensures Run(max, before + [m]) == Next(Run(max, before), m)
  {
    assert (before + [m])[..|before|] == before;
  }

  /** What zombie_killer leaves behind when nothing dies meanwhile. */
  function Swept(s: State): State {
    s.(zombies := 0, count := s.count - s.zombies, handler := Idle)
  }

  lemma HandlerRound(s: State)
    requires s.handler == Waiting
    ensures s.zombies == 0 ==> Next(s, HandlerStep) == Swept(s)
    ensures s.zombies > 0 ==>
      var t := Next(Next(s, HandlerStep), HandlerStep);
      && t == s.(zombies := s.zombies - 1, count := s.count - 1)
      && Swept(t) == Swept(s)
  {
  }

  /** Once it runs, the handler reaps all the dead in two steps each and one more. */
  lemma {:induction false} HandlerSweeps(max: int, moves: seq<Move>, z: nat)
    requires Run(max, moves).handler == Waiting && Run(max, moves).zombies == z
    ensures Run(max, moves + HandlerSteps(2 * z + 1)) == Swept(Run(max, moves))
    decreases z
  {
    hide Run, Next;
    var s := Run(max, moves);
    RunAppend(max, moves, HandlerStep);
    HandlerRound(s);
    if z == 0 {
      assert moves + HandlerSteps(1) == moves + [HandlerStep];
    } else {
      var once := moves + [HandlerStep];
      var twice := once + [HandlerStep];
      RunAppend(max, once, HandlerStep);
      HandlerSweeps(max, twice, z - 1);
      assert moves + HandlerSteps(2 * z + 1) == twice + HandlerSteps(2 * (z - 1) + 1);
    }
  }

  lemma FullGoesOn(s: State)
    requires s.main == Full && s.handler == Idle && s.zombies > 0 && Accounted(s)
    ensures s.pending && !s.masked
    ensures Next(s, Deliver) == s.(pending := false, handler := Waiting)
    ensures var t := Swept(Next(s, Deliver));
      Next(Next(t, Loop), Loop) == t.(main := Accepting) && t.count == s.live
  {
  }

  /** A parent waiting at capacity on account of a dead child gets out: the signal is
      deliverable, and when the handler is done and the loop goes round, it accepts. */
  lemma FullIsNotForEver(max: int, moves: seq<Move>)
    requires Run(max, moves).main == Full && Run(max, moves).handler == Idle
    requires Run(max, moves).zombies > 0
    ensures var s := Run(max, moves);
      && s.pending && !s.masked
      && var later := moves + [Deliver] + HandlerSteps(2 * s.zombies + 1) + [Loop] + [Loop];
        && Run(max, later).main == Accepting
        && Run(max, later).count == s.live && Run(max, later).zombies == 0
  {
    hide Run, Next, HandlerSteps;
    ChildAccounting(max, moves);
    var s := Run(max, moves);
    FullGoesOn(s);
    var delivered := moves + [Deliver];
    RunAppend(max, moves, Deliver);
    var swept := delivered + HandlerSteps(2 * s.zombies + 1);
    HandlerSweeps(max, delivered, s.zombies);
    RunAppend(max, swept, Loop);
    RunAppend(max, swept + [Loop], Loop);
  }

  // ---- The loop goes on ----

  /** Behind a child, a failed fork, a wait at capacity or an interrupted accept, the next
      round of an undisturbed loop accepts again if there are fewer children counted than
      permitted, and waits if not; and nothing else has changed, but that SIGCHLD is no
      longer blocked. */
  lemma {:induction false} GoesOn(max: int, moves: seq<Move>)
    requires Run(max, moves).handler == Idle
    ensures var s := Run(max, moves);
      s.main == Counted || s.main == NotForked || s.main == Full ==>
        Run(max, moves + [Loop] + [Loop])
          == s.(masked := false, main := if max > 0 && s.count >= max then Full else Accepting)
    ensures var s := Run(max, moves);
      s.main == Accepting ==>
        Run(max, moves + [AcceptReturns(false, true)] + [Loop])
          == s.(main := if max > 0 && s.count >= max then Full else Accepting)
  {
    hide Run;
    ChildAccounting(max, moves);
    RunAppend(max, moves, Loop);
    RunAppend(max, moves + [Loop], Loop);
    RunAppend(max, moves, AcceptReturns(false, true));
    RunAppend(max, moves + [AcceptReturns(false, true)], Loop);
  }

  /** A connection that is accepted gets a child, which lives and is counted, or none if
      the fork fails; and either way the loop is back before its tests. */
  lemma {:induction false} ServesClient(max: int, moves: seq<Move>, interrupted: bool, forks: bool)
    requires Run(max, moves).main == Accepting && Run(max, moves).handler == Idle
    ensures var s := Run(max, moves);
      var forked := moves + [AcceptReturns(true, interrupted)] + [Loop] + [ForkReturns(forks)];
      && (forks ==> Run(max, forked + [Loop] + [Loop]) == s.(main := Top, live := s.live + 1, count := s.count + 1))
      && (!forks ==> Run(max, forked + [Loop]) == s.(main := Top))
  {
    hide Run;
    ChildAccounting(max, moves);
    var accepted := moves + [AcceptReturns(true, interrupted)];
    var forked := accepted + [Loop] + [ForkReturns(forks)];
    RunAppend(max, moves, AcceptReturns(true, interrupted));
    RunAppend(max, accepted, Loop);
    RunAppend(max, accepted + [Loop], ForkReturns(forks));
    RunAppend(max, forked, Loop);
    RunAppend(max, forked + [Loop], Loop);
  }

  /** The loop has stopped exactly if it was once told to before its tests, or an accept
      has failed for another reason than a signal. */
  lemma {:induction false} StopsOnlyWhenTold(max: int, moves: seq<Move>)
    ensures Run(max, moves).main == Stopped <==>
      exists i :: 0 <= i < |moves| && Stops(Run(max, moves[..i]), moves[i])
    decreases |moves|
  {
    hide Run, Next, Stops;
    if moves == [] {
      assert Run(max, moves).main == Top by { StartsAtTop(max); }
    } else {
      var n := |moves| - 1;
      var before := moves[..n];
      StopsOnlyWhenTold(max, before);
      RunAppend(max, before, moves[n]);
      assert moves == before + [moves[n]];
      NextStops(Run(max, before), moves[n]);
      forall i | 0 <= i < n
        ensures Stops(Run(max, moves[..i]), moves[i]) <==> Stops(Run(max, before[..i]), before[i])
      {
        assert moves[..i] == before[..i] && moves[i] == before[i];
      }
    }
  }

  predicate Stops(s: State, m: Move) {
    s.handler == Idle
    && ((s.main == Top && m == Shutdown) || (s.main == Accepting && m == AcceptReturns(false, false)))
  }

  lemma StartsAtTop(max: int)
    ensures Run(max, []).main == Top
  {
  }

  lemma NextStops(s: State, m: Move)
    ensures Next(s, m).main == Stopped <==> s.main == Stopped || Stops(s, m)
  {
  }

  /** How many forks have succeeded, children have exited, and dead have been reaped. */
  function Tally(max: int, moves: seq<Move>): (t: (nat, nat, nat))
    decreases |moves|
  {
    if moves == [] then (0, 0, 0)
    else
      var before, m := moves[..|moves| - 1], moves[|moves| - 1];
      var (forks, exits, reaps) := Tally(max, before);
      var s := Run(max, before);
      (if m == ForkReturns(true) && s.main == Masked && s.handler == Idle then forks + 1 else forks,
       if m == ChildExits && s.live > 0 then exits + 1 else exits,
       if m == HandlerStep && s.handler == Waiting && s.zombies > 0 then reaps + 1 else reaps)
  }

  /** The living are those forked that have not exited, and the dead those exited that have
      not been reaped. */
  lemma {:induction false} Census(max: int, moves: seq<Move>)
    ensures var (forks, exits, reaps) := Tally(max, moves);
      Run(max, moves).live == forks - exits && Run(max, moves).zombies == exits - reaps
    decreases |moves|
  {
    if moves != [] {
      Census(max, moves[..|moves| - 1]);
    }
  }

  // ---- The loop is never stuck ----

  /** Moves that need nobody but the parent and its signal. */
  ghost predicate OnItsOwn(moves: seq<Move>) {
    forall i :: 0 <= i < |moves| ==> moves[i] == Loop || moves[i] == Deliver || moves[i] == HandlerStep
  }

  /** The steps of the handler, the first of them apart. */
  lemma {:induction false} OneStepFirst(max: int, before: seq<Move>, n: nat)
    ensures OnItsOwn(HandlerSteps(n))
    ensures before + HandlerSteps(n + 1) == before + [HandlerStep] + HandlerSteps(n)
  {
    assert HandlerSteps(n + 1) == [HandlerStep] + HandlerSteps(n);
  }

  /** A handler that has begun comes to its end, and leaves no dead. */
  lemma {:induction false} HandlerEnds(max: int, moves: seq<Move>) returns (more: seq<Move>)
    requires Run(max, moves).handler != Idle
    ensures OnItsOwn(more)
    ensures var s, t := Run(max, moves), Run(max, moves + more);
      t.handler == Idle && t.zombies == 0 && t.live == s.live && t.main == s.main
  {
    hide Run, Next, HandlerSteps;
    var s := Run(max, moves);
    if s.handler == Reaped {
      var once := moves + [HandlerStep];
      RunAppend(max, moves, HandlerStep);
      ReapedGoesOn(s);
      HandlerSweeps(max, once, s.zombies);
      OneStepFirst(max, moves, 2 * s.zombies + 1);
      more := [HandlerStep] + HandlerSteps(2 * s.zombies + 1);
      assert moves + more == once + HandlerSteps(2 * s.zombies + 1);
    } else {
      HandlerSweeps(max, moves, s.zombies);
      OneStepFirst(max, moves, 2 * s.zombies + 1);
      more := HandlerSteps(2 * s.zombies + 1);
    }
  }

  lemma ReapedGoesOn(s: State)
    requires s.handler == Reaped
    ensures Next(s, HandlerStep) == s.(handler := Waiting, count := s.count - 1)
  {
  }

  /** With the handler idle, the loop comes to its tests from behind a fork or a wait. */
  lemma {:induction false} ComesToTop(max: int, moves: seq<Move>) returns (more: seq<Move>)
    requires var s := Run(max, moves);
      && s.handler == Idle
      && (s.main == Top || s.main == Full || s.main == Forked || s.main == Counted || s.main == NotForked)
    ensures OnItsOwn(more)
    ensures var s, t := Run(max, moves), Run(max, moves + more);
      t.main == Top && t.handler == Idle && t.live == s.live && t.zombies == s.zombies
  {
    hide Run;
    var s := Run(max, moves);
    RunAppend(max, moves, Loop);
    RunAppend(max, moves + [Loop], Loop);
    if s.main == Top {
      more := [];
      assert moves + more == moves;
    } else if s.main == Forked {
      more := [Loop, Loop];
      assert moves + more == moves + [Loop] + [Loop];
    } else {
      more := [Loop];
    }
  }

  /** Before its tests, with the handler idle, the loop goes on to accept once its signal
      has been taken, if there is a place. */
  lemma {:induction false} AcceptsFromTop(max: int, moves: seq<Move>) returns (more: seq<Move>)
    requires Run(max, moves).main == Top && Run(max, moves).handler == Idle
    requires max > 0 ==> Run(max, moves).live < max
    ensures OnItsOwn(more)
    ensures Run(max, moves + more).main == Accepting && Run(max, moves + more).live == Run(max, moves).live
  {
    hide Run, HandlerSteps;
    ChildAccounting(max, moves);
    var s := Run(max, moves);
    if s.zombies == 0 {
      RunAppend(max, moves, Loop);
      more := [Loop];
    } else {
      var delivered := moves + [Deliver];
      RunAppend(max, moves, Deliver);
      var swept := HandlerEnds(max, delivered);
      ChildAccounting(max, delivered + swept);
      RunAppend(max, delivered + swept, Loop);
      more := [Deliver] + swept + [Loop];
      assert moves + more == delivered + swept + [Loop];
    }
  }

  /** From every reachable state behind a fork, a wait or before the tests, whatever the
      handler is doing and however many are dead, the parent comes to accept on its own, as
      long as there are fewer live children than permitted. */
  lemma {:induction false} NeverStuck(max: int, moves: seq<Move>) returns (more: seq<Move>)
    requires var s := Run(max, moves);
      s.main == Top || s.main == Full || s.main == Forked || s.main == Counted || s.main == NotForked
    requires max > 0 ==> Run(max, moves).live < max
    ensures OnItsOwn(more)
    ensures Run(max, moves + more).main == Accepting && Run(max, moves + more).live == Run(max, moves).live
  {
    hide Run;
    var first: seq<Move> := [];
    if Run(max, moves).handler != Idle {
      first := HandlerEnds(max, moves);
    } else {
      assert moves + first == moves;
    }
    var second := ComesToTop(max, moves + first);
    var third := AcceptsFromTop(max, moves + first + second);
    more := first + second + third;
    assert moves + more == moves + first + second + third;
  }

  // ---- The handler as a loop ----

  /** The process table entries and the counter the handler works on. */
  class Family {
    var live: nat
    var zombies: nat
    var childCount: int

    constructor (live: nat, zombies: nat)
      ensures this.live == live && this.zombies == zombies && childCount == live + zombies
    {
      this.live, this.zombies, this.childCount := live, zombies, live + zombies;
    }

    /** waitpid(-1, NULL, WNOHANG): positive if a dead child was reaped, 0 if there
        are only live ones, -1 if there are none. */
    method WaitPid() returns (pid: int)
      modifies this`zombies
      ensures pid > 0 <==> old(zombies) > 0
      ensures zombies == if pid > 0 then old(zombies) - 1 else old(zombies)
      ensures pid == -1 <==> live == 0 && old(zombies) == 0
    {
      if zombies > 0 {
        zombies := zombies - 1;
        pid := 1;
      } else if live > 0 {
        pid := 0;
      } else {
        pid := -1;
      }
    }

    /** Agrees with HandlerSweeps on the counter and the dead. */
    method ZombieKiller()
      modifies this
      ensures live == old(live)
      ensures forall s: State :: s.live == old(live) && s.zombies == old(zombies) && s.count == old(childCount) ==>
        zombies == Swept(s).zombies && childCount == Swept(s).count
    {
      var pid := WaitPid();
      while pid > 0
        invariant live == old(live)
        invariant childCount - zombies - (if pid > 0 then 1 else 0) == old(childCount) - old(zombies)
        invariant pid <= 0 ==> zombies == 0
        decreases zombies + if pid > 0 then 1 else 0
      {
        childCount := childCount - 1;
        pid := WaitPid();
      }
    }
  }
}
