/** The clock arithmetic of the NEW-ENVIRON fallback timer. */
module Fallback {

  /** A timespec. */
  datatype Time = Time(sec: int, nsec: int)

  const SECOND: int := 1_000_000_000

  /** Division and remainder as in C: towards zero. */
  function CDiv(a: int, b: int): int
    requires b > 0
  {
    if a >= 0 then a / b else -((-a) / b)
  }

  function CMod(a: int, b: int): int
    requires b > 0
  {
    a - CDiv(a, b) * b
  }

  ghost predicate Normal(t: Time) {
    0 <= t.nsec < SECOND
  }

  function Total(t: Time): int {
    t.sec * SECOND + t.nsec
  }

  /** The deadline `ms` milliseconds after `now`, with one carry. */
  function Arm(now: Time, ms: int): Time {
    var sec := now.sec + CDiv(ms, 1000);
    var nsec := now.nsec + CMod(ms, 1000) * 1_000_000;
    if nsec >= SECOND then Time(sec + 1, nsec - SECOND) else Time(sec, nsec)
  }

  /** Seconds first, nanoseconds on a tie. */
  predicate Reached(now: Time, deadline: Time) {
    now.sec > deadline.sec || (now.sec == deadline.sec && now.nsec >= deadline.nsec)
  }

  /** The deadline lies exactly `ms` after `now`. One carry normalises it, unless
      a negative delay borrows more than the nanoseconds of `now`. */
  lemma ArmExact(now: Time, ms: int)
    requires Normal(now)
    ensures Total(Arm(now, ms)) == Total(now) + ms * 1_000_000
    ensures Normal(Arm(now, ms)) <==> now.nsec + CMod(ms, 1000) * 1_000_000 >= 0
    ensures Normal(Arm(now, ms)) <==> Arm(now, ms).nsec >= 0
    ensures ms >= 0 ==> Normal(Arm(now, ms))
  {
    assert ms == CDiv(ms, 1000) * 1000 + CMod(ms, 1000);
    assert -1000 < CMod(ms, 1000) < 1000;
  }

  lemma ReachedExact(now: Time, deadline: Time)
    requires Normal(now) && 0 <= deadline.nsec <= SECOND
    ensures Reached(now, deadline) <==> Total(now) >= Total(deadline)
  {
    assert now.sec > deadline.sec ==> now.sec * SECOND >= deadline.sec * SECOND + SECOND;
    assert now.sec < deadline.sec ==> now.sec * SECOND + SECOND <= deadline.sec * SECOND;
  }

  /** Comparing field by field is comparing instants for every clock reading
      exactly when the nanoseconds of the deadline are within one second. */
  lemma FieldOrderIsTimeOrder(deadline: Time)
    ensures (forall now :: Normal(now) ==> (Reached(now, deadline) <==> Total(now) >= Total(deadline)))
       <==> 0 <= deadline.nsec <= SECOND
  {
    if 0 <= deadline.nsec <= SECOND {
      forall now | Normal(now)
        ensures Reached(now, deadline) <==> Total(now) >= Total(deadline)
      {
        ReachedExact(now, deadline);
      }
    } else if deadline.nsec < 0 {
      var late := Time(deadline.sec - 1, SECOND - 1);
      assert Normal(late) && !Reached(late, deadline);
      assert Total(late) >= Total(deadline);
    } else {
      var early := Time(deadline.sec + 1, 0);
      assert Normal(early) && Reached(early, deadline) && Total(early) < Total(deadline);
    }
  }

  /** A clock in its first second and a delay below one: the armed deadline has no
      seconds, and so counts as not armed. */
  lemma EarlyClockNotArmed()
    ensures Arm(Time(0, 0), 999) == Time(0, 999_000_000)
  {
  }

  /** A delay of minus one millisecond: the deadline is not normalised, and a clock that
      is past it is not taken to have reached it. */
  lemma NegativeDelayMissed()
    ensures Arm(Time(5, 0), -1) == Time(5, -1_000_000)
    ensures var now := Time(4, 999_500_000);
      Normal(now) && Total(now) > Total(Time(5, -1_000_000)) && !Reached(now, Time(5, -1_000_000))
  {
    assert CDiv(-1, 1000) == 0;
  }
}
