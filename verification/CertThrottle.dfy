/** The notices about an expiring certificate, throttled by the age of a file that
    all proxy processes share under an exclusive, non-blocking lock. */
module CertThrottle {
  import opened Telnet

  /** Result of cert_days_remaining for a certificate that cannot be read. */
  const UNKNOWN: int := -1

  /** Seconds between two notices for a certificate with `days` days left. */
  function Interval(days: int): int {
    if days < 7 then 3600 else 86400
  }

  /** The throttle file: its size and modification time. */
  datatype File = File(size: nat, mtime: int)

  /** Where a process is in check_cert_expiry_throttled. */
  datatype Pc =
    | Begin
    | Opened
    | Locked
    | Looked(now: int)
    | Allowed
    | Notified
    | Truncated
    | Unlocking
    | Finished

  datatype Process = Process(days: int, pc: Pc)

  datatype Notice = Notice(at: int, days: int)

  /** The clock, the file if it exists, the process that holds its lock, the
      processes, and as a history all notices and the times they were recorded. */
  datatype World = World(
    clock: int,
    file: Option<File>,
    holder: Option<nat>,
    procs: seq<Process>,
    notices: seq<Notice>,
    records: seq<int>)

  /** Time passes, or one process takes one step. */
  datatype Move = Tick(seconds: nat) | Step(pid: nat)

  function SetPc(w: World, pid: nat, pc: Pc): World
    requires pid < |w.procs|
  {
    w.(procs := w.procs[pid := w.procs[pid].(pc := pc)])
  }

  /** Whether the file is too young for another notice. */
  predicate Young(file: Option<File>, now: int, days: int) {
    file.Some? && file.value.size > 0
    && now - file.value.mtime >= 0 && now - file.value.mtime < Interval(days)
  }

  function StepOf(w: World, pid: nat): World
    requires pid < |w.procs|
  {
    var days := w.procs[pid].days;
    match w.procs[pid].pc
    case Begin =>
      if days == UNKNOWN || days >= 30 then SetPc(w, pid, Finished)
      else SetPc(w, pid, Opened).(file := if w.file.None? then Some(File(0, w.clock)) else w.file)
    case Opened =>
      if w.holder.Some? then SetPc(w, pid, Finished)
      else SetPc(w, pid, Locked).(holder := Some(pid))
    case Locked => SetPc(w, pid, Looked(w.clock))
    case Looked(now) =>
      if Young(w.file, now, days) then SetPc(w, pid, Unlocking) else SetPc(w, pid, Allowed)
    case Allowed => SetPc(w, pid, Notified).(notices := w.notices + [Notice(w.clock, days)])
    case Notified => SetPc(w, pid, Truncated).(file := Some(File(0, w.clock)))
    case Truncated =>
      SetPc(w, pid, Unlocking).(file := Some(File(1, w.clock)), records := w.records + [w.clock])
    case Unlocking => SetPc(w, pid, Finished).(holder := None)
    case Finished => w
  }

  function Next(w: World, m: Move): World {
    match m
    case Tick(seconds) => w.(clock := w.clock + seconds)
    case Step(pid) => if pid < |w.procs| then StepOf(w, pid) else w
  }

  function Run(w: World, moves: seq<Move>): World
    decreases |moves|
  {
    if moves == [] then w
    else Next(Run(w, moves[..|moves| - 1]), moves[|moves| - 1])
  }

  /** All processes yet to begin; a file with content bears the record of an earlier
      notice. */
  ghost predicate Initial(w: World) {
    && w.holder == None
    && (forall p :: 0 <= p < |w.procs| ==> w.procs[p].pc == Begin)
    && if w.file.Some? && w.file.value.size > 0
       then w.records == [w.file.value.mtime] && |w.notices| == 1
         && w.notices[0].at <= w.file.value.mtime <= w.clock
       else w.records == [] && w.notices == []
  }

  // ---- What holds under every interleaving ----

  predicate Holding(pc: Pc) {
    pc.Locked? || pc.Looked? || pc.Allowed? || pc.Notified? || pc.Truncated? || pc.Unlocking?
  }

  /** A notice has been given and not yet recorded. */
  predicate Unrecorded(w: World) {
    w.holder.Some? && w.holder.value < |w.procs|
    && (w.procs[w.holder.value].pc.Notified? || w.procs[w.holder.value].pc.Truncated?)
  }

  /** `now` is late enough after the last record for a notice. */
  predicate Due(w: World, now: int, days: int) {
    w.records == [] || now - w.records[|w.records| - 1] >= Interval(days)
  }

  ghost predicate Exclusive(w: World) {
    && (w.holder.Some? ==> w.holder.value < |w.procs|)
    && (forall p :: 0 <= p < |w.procs| ==> (Holding(w.procs[p].pc) <==> w.holder == Some(p)))
  }

  /** The file tells when the last notice was recorded, except while its holder is
      giving the next one. */
  ghost predicate FileRecords(w: World) {
    && |w.notices| == |w.records| + (if Unrecorded(w) then 1 else 0)
    && (w.records != [] ==> w.records[|w.records| - 1] <= w.clock)
    && (!Unrecorded(w) ==>
        if w.records == [] then w.file.None? || w.file.value.size == 0
        else w.file.Some? && w.file.value.size > 0 && w.file.value.mtime == w.records[|w.records| - 1])
    && (w.holder.Some? && w.holder.value < |w.procs| ==>
        var p := w.procs[w.holder.value];
        && (p.pc.Looked? ==> p.pc.now <= w.clock)
        && (p.pc.Looked? && w.records != [] ==> w.records[|w.records| - 1] <= p.pc.now)
        && (p.pc.Allowed? ==> Due(w, w.clock, p.days)))
  }

  /** Every notice after the first comes at least its interval after the record of
      the one before, and no record precedes its notice. */
  ghost predicate Spaced(w: World) {
    && |w.records| <= |w.notices|
    && (forall i :: 0 <= i < |w.notices| ==> w.notices[i].at <= w.clock)
    && (forall i :: 0 <= i < |w.records| ==> w.notices[i].at <= w.records[i])
    && (forall i :: 0 < i < |w.notices| && i <= |w.records| ==>
          w.notices[i].at - w.records[i - 1] >= Interval(w.notices[i].days))
  }

  ghost predicate Throttled(w: World) {
    Exclusive(w) && FileRecords(w) && Spaced(w)
  }

  lemma StepExclusive(w: World, pid: nat)
    requires pid < |w.procs| && Exclusive(w)
    ensures Exclusive(StepOf(w, pid))
  {
  }

  lemma StepRecords(w: World, pid: nat)
    requires pid < |w.procs| && Throttled(w)
    ensures FileRecords(StepOf(w, pid))
  {
    hide Interval;
    assert Holding(w.procs[pid].pc) <==> w.holder == Some(pid);
  }

  lemma StepSpaced(w: World, pid: nat)
    requires pid < |w.procs| && Throttled(w)
    ensures Spaced(StepOf(w, pid))
  {
    var n := |w.notices|;
    assert Holding(w.procs[pid].pc) <==> w.holder == Some(pid);
    if w.procs[pid].pc.Allowed? && w.records != [] {
      assert w.clock - w.records[n - 1] >= Interval(w.procs[pid].days);
    }
  }

  lemma NextThrottled(w: World, m: Move)
    requires Throttled(w)
    ensures Throttled(Next(w, m))
  {
    hide StepOf;
    if m.Step? && m.pid < |w.procs| {
      StepExclusive(w, m.pid);
      StepRecords(w, m.pid);
      StepSpaced(w, m.pid);
    }
  }

  /** For any number of processes and any interleaving, any notice comes at least its
      interval after the record of the previous one. */
  lemma {:induction false} NoticesAreThrottled(w: World, moves: seq<Move>)
    requires Initial(w)
    ensures Throttled(Run(w, moves))
    decreases |moves|
  {
    if moves != [] {
      hide Throttled, Next;
      NoticesAreThrottled(w, moves[..|moves| - 1]);
      NextThrottled(Run(w, moves[..|moves| - 1]), moves[|moves| - 1]);
    }
  }

  /** So two notices in a row are at least an hour apart, and a day if the second finds
      a week or more left. */
  lemma NoticesFarApart(w: World, moves: seq<Move>, i: nat)
    requires Initial(w) && 0 < i < |Run(w, moves).notices|
    ensures var v := Run(w, moves);
      && v.notices[i].at - v.notices[i - 1].at >= 3600
      && (v.notices[i].days >= 7 ==> v.notices[i].at - v.notices[i - 1].at >= 86400)
  {
    hide Run;
    NoticesAreThrottled(w, moves);
  }

  /** A process that holds the lock and has read the clock goes on to give notice
      exactly if it is due by the last record: if there is none, or it is a day old, or an
      hour old with less than a week left. */
  lemma NoticeExactlyWhenDue(w: World, moves: seq<Move>, pid: nat)
    requires Initial(w) && pid < |Run(w, moves).procs|
    requires Run(w, moves).procs[pid].pc.Looked?
    ensures var v := Run(w, moves);
      var age := if v.records == [] then 0 else v.procs[pid].pc.now - v.records[|v.records| - 1];
      && (StepOf(v, pid).procs[pid].pc == Allowed <==>
            v.records == [] || age >= 86400 || (age >= 3600 && v.procs[pid].days < 7))
      && (StepOf(v, pid).procs[pid].pc != Allowed ==> StepOf(v, pid) == SetPc(v, pid, Unlocking))
  {
    hide Run;
    NoticesAreThrottled(w, moves);
    var v := Run(w, moves);
    assert Holding(v.procs[pid].pc) <==> v.holder == Some(pid);
  }

  // ---- A notice that is due is given ----

  lemma {:induction false} RunAppend(w: World, before: seq<Move>, after: seq<Move>)
    ensures Run(w, before + after) == Run(Run(w, before), after)
    decreases |after|
  {
    hide Next;
    if after == [] {
      assert before + after == before;
    } else {
      var n := |after| - 1;
      assert (before + after)[..|before| + n] == before + after[..n];
      RunAppend(w, before, after[..n]);
    }
  }

  /** Time, and steps of other processes. */
  ghost predicate Others(pid: nat, moves: seq<Move>) {
    forall i :: 0 <= i < |moves| ==> moves[i] != Step(pid)
  }

  /** While a process holds the lock, the others change nothing but the clock and their own
      affairs. */
  ghost predicate Held(w: World, v: World, pid: nat) {
    && v.holder == w.holder == Some(pid) && |v.procs| == |w.procs| && pid < |w.procs|
    && v.procs[pid] == w.procs[pid]
    && v.file == w.file && v.notices == w.notices && v.records == w.records && v.clock >= w.clock
  }

  lemma OtherStep(w: World, m: Move, pid: nat)
    requires Exclusive(w) && w.holder == Some(pid) && w.file.Some? && m != Step(pid)
    ensures Held(w, Next(w, m), pid) && Exclusive(Next(w, m))
  {
    if m.Step? && m.pid < |w.procs| {
      StepExclusive(w, m.pid);
      assert Holding(w.procs[m.pid].pc) <==> w.holder == Some(m.pid);
    }
  }

  lemma {:induction false} OthersWait(w: World, moves: seq<Move>, pid: nat)
    requires Exclusive(w) && w.holder == Some(pid) && w.file.Some? && Others(pid, moves)
    ensures Held(w, Run(w, moves), pid) && Exclusive(Run(w, moves))
    decreases |moves|
  {
    hide Next;
    if moves != [] {
      var n := |moves| - 1;
      OthersWait(w, moves[..n], pid);
      OtherStep(Run(w, moves[..n]), moves[n], pid);
    }
  }

  /** A process that has opened the file has made it, if there was none. */
  ghost predicate Created(w: World) {
    w.file.Some? || forall p :: 0 <= p < |w.procs| ==> w.procs[p].pc.Begin? || w.procs[p].pc.Finished?
  }

  lemma {:induction false} RunCreated(w: World, moves: seq<Move>)
    requires Initial(w)
    ensures Created(Run(w, moves))
    decreases |moves|
  {
    if moves != [] {
      RunCreated(w, moves[..|moves| - 1]);
    }
  }

  /** One step of the holder, and whatever others do then. */
  lemma {:induction false} HolderStep(w: World, pid: nat, others: seq<Move>) returns (v: World)
    requires Exclusive(w) && w.holder == Some(pid) && w.file.Some? && Others(pid, others)
    requires StepOf(w, pid).holder == Some(pid) && StepOf(w, pid).file.Some?
    ensures v == Run(w, [Step(pid)] + others) && Held(StepOf(w, pid), v, pid) && Exclusive(v)
  {
    hide Held, Others;
    var one := [Step(pid)];
    RunAppend(w, one, others);
    assert Run(w, one) == Next(Run(w, one[..0]), one[0]);
    assert one[..0] == [];
    StepExclusive(w, pid);
    OthersWait(StepOf(w, pid), others, pid);
    v := Run(w, one + others);
  }

  /** Over any interleaving: from the moment that a process holding the lock has found the
      file old enough, its next four steps give one notice, at the time of the first of
      them, then record it with the time of the third, and give the lock back. */
  lemma {:induction false} NoticeIsGiven(w: World, moves: seq<Move>, pid: nat, a: seq<Move>, b: seq<Move>, c: seq<Move>)
    returns (t: World)
    requires Initial(w) && pid < |Run(w, moves).procs| && Run(w, moves).procs[pid].pc.Allowed?
    requires Others(pid, a) && Others(pid, b) && Others(pid, c)
    ensures var own := [Step(pid)];
      t == Run(w, moves + (own + a) + (own + b) + (own + c) + own)
    ensures var v := Run(w, moves);
      && t.notices == v.notices + [Notice(v.clock, v.procs[pid].days)]
      && |t.records| == |v.records| + 1 && t.records[..|v.records|] == v.records
      && t.file == Some(File(1, t.records[|v.records|])) && v.clock <= t.records[|v.records|] <= t.clock
      && t.holder == None && |t.procs| == |v.procs| && t.procs[pid].pc == Finished
  {
    hide Run, Others, Throttled, Initial;
    var v := Run(w, moves);
    assert Exclusive(v) && v.file.Some? by {
      NoticesAreThrottled(w, moves);
      RunCreated(w, moves);
      ThrottledMeans(v);
    }
    assert v.holder == Some(pid) by {
      assert Holding(v.procs[pid].pc) <==> v.holder == Some(pid);
    }
    var own := [Step(pid)];
    var v1 := HolderStep(v, pid, a);
    RunAppend(w, moves, own + a);
    var v2 := HolderStep(v1, pid, b);
    RunAppend(w, moves + (own + a), own + b);
    var v3 := HolderStep(v2, pid, c);
    RunAppend(w, moves + (own + a) + (own + b), own + c);
    var last := moves + (own + a) + (own + b) + (own + c);
    t := StepOf(v3, pid);
    RunAppend(w, last, own);
    OneMove(v3, pid);
  }

  lemma OneMove(w: World, pid: nat)
    requires pid < |w.procs|
    ensures Run(w, [Step(pid)]) == StepOf(w, pid)
  {
    hide StepOf;
    var one := [Step(pid)];
    assert one[..0] == [];
    assert Run(w, one) == Next(Run(w, one[..0]), one[0]);
  }

  lemma ThrottledMeans(w: World)
    requires Throttled(w)
    ensures Exclusive(w) && FileRecords(w)
  {
  }

  /** A process alone with a free lock comes to look at the file, unless the certificate is
      unknown or good for a month, and gives the lock back if it finds the file too young;
      one that finds the lock taken leaves everything as it is. */
  lemma {:induction false} LooksAtFile(w: World, pid: nat)
    requires pid < |w.procs| && w.procs[pid].pc.Begin?
    ensures var days, own := w.procs[pid].days, [Step(pid)];
      && (days == -1 || days >= 30 ==> Run(w, own) == SetPc(w, pid, Finished))
      && (days != -1 && days < 30 && w.holder.Some? ==>
            Run(w, own + own) == SetPc(w, pid, Finished).(file := Run(w, own).file)
            && (w.file.Some? ==> Run(w, own).file == w.file))
      && (days != -1 && days < 30 && w.holder.None? ==>
            Run(w, own + own + own)
              == SetPc(w, pid, Looked(w.clock)).(holder := Some(pid), file := Run(w, own).file))
  {
    hide Run;
    var own := [Step(pid)];
    OneMove(w, pid);
    var w1 := StepOf(w, pid);
    OneMove(w1, pid);
    RunAppend(w, own, own);
    var w2 := StepOf(w1, pid);
    OneMove(w2, pid);
    RunAppend(w, own + own, own);
    assert w.procs[pid := w.procs[pid].(pc := Opened)][pid := w.procs[pid].(pc := Finished)]
        == w.procs[pid := w.procs[pid].(pc := Finished)];
    assert w.procs[pid := w.procs[pid].(pc := Opened)][pid := w.procs[pid].(pc := Locked)]
        == w.procs[pid := w.procs[pid].(pc := Locked)];
    assert w.procs[pid := w.procs[pid].(pc := Locked)][pid := w.procs[pid].(pc := Looked(w.clock))]
        == w.procs[pid := w.procs[pid].(pc := Looked(w.clock))];
  }

  // ---- One process on its own ----

  /** The shared file and its lock, as one process finds them. */
  class ThrottleFile {
    var file: Option<File>
    var locked: bool
    var notices: seq<Notice>

    constructor ()
      ensures file == None && !locked && notices == []
    {
      file, locked, notices := None, false, [];
    }

    /** check_cert_expiry_throttled, given the days left, the clock when it is read
        and the clock when the file is written. A notice is given if and only if the
        certificate is known to expire within 30 days, the lock is free, and the file
        is not too young; the file then records the time of writing, and is otherwise
        left as it is, though created empty. The lock is given back. */
    method CheckThrottled(days: int, now: int, later: int) returns (notified: bool)
      requires now <= later
      modifies this
      ensures locked == old(locked)
      ensures notified <==> days != UNKNOWN && days < 30 && !old(locked) && !Young(old(file), now, days)
      ensures days != -1 && days < 30 && !old(locked) && old(file).Some? && old(file).value.size > 0 ==>
        var age := now - old(file).value.mtime;
        (notified <==> age < 0 || age >= 86400 || (age >= 3600 && days < 7))
      ensures days != -1 && days < 30 && !old(locked) && (old(file).None? || old(file).value.size == 0) ==> notified
      ensures notices == old(notices) + if notified then [Notice(now, days)] else []
      ensures file == if notified then Some(File(1, later))
        else if days == UNKNOWN || days >= 30 || old(file).Some? then old(file)
        else Some(File(0, now))
    {
      notified := false;
      if days == UNKNOWN || days >= 30 {
        return;
      }
      if file.None? {
        file := Some(File(0, now));
      }
      if locked {
        return;
      }
      locked := true;
      if file.value.size > 0 {
        var diff := now - file.value.mtime;
        if diff >= 0 && diff < Interval(days) {
          locked := false;
          return;
        }
      }
      notified := true;
      notices := notices + [Notice(now, days)];
      file := Some(File(0, later));
      file := Some(File(1, later));
      locked := false;
    }
  }
}
