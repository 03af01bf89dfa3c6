/** Start times of periodic tasks, and what the dispatcher does to its queue. */
module Schedule {
  import opened Arithmetic

  /** Time is a uint64_t of nanoseconds, on AVR a uint32_t of microseconds. */
  datatype Resolution = Nanoseconds | Microseconds

  /** Either platform. */
  const RESOLUTION: Resolution

  const LIMIT: nat := if RESOLUTION == Nanoseconds then 0x1_0000_0000_0000_0000 else 0x1_0000_0000

  const SECOND: nat := if RESOLUTION == Nanoseconds then 1_000_000_000 else 1_000_000

  type time = t: nat | t < LIMIT

  /** TimeBase.add */
  function Plus(a: time, b: time): time {
    (a + b) % LIMIT
  }

  // ------------------------------------------------------------ increase_by_multiple_above

  /** How many times b to add to get above a gap. */
  function Steps(gap: nat, b: nat): nat
    requires b > 0
  {
    gap / b + 1
  }

  function IncreaseByMultipleAbove(a: time, b: time, c: time): time
    requires b > 0
  {
    if a < c then (a + Steps(c - a, b) * b) % LIMIT else a
  }

  /** The loop the closed form stands for. */
  function Loop(a: nat, b: nat, c: nat): (r: nat)
    requires b > 0
    ensures r >= a && r >= c
    decreases c - a
  {
    if a < c then Loop(a + b, b, c) else a
  }

  lemma {:induction false} LoopClosed(a: nat, b: nat, c: nat)
    requires b > 0 && a < c
    ensures Loop(a, b, c) == a + (c - a) / b * b + (if (c - a) % b == 0 then 0 else b)
    decreases c - a
  {
    ModStep(c - a, b);
    if a + b < c {
      LoopClosed(a + b, b, c);
    } else if a + b == c {
      DivModUnique(c - a, b, 1, 0);
    } else {
      DivModUnique(c - a, b, 0, c - a);
    }
  }

  /** The sum the closed form ends in is within the range of time. */
  predicate Fits(a: nat, b: nat, c: nat)
    requires b > 0
  {
    a < c ==> a + Steps(c - a, b) * b < LIMIT
  }

  /** The sum before it is cut to the width of the type. */
  lemma SumBounds(a: nat, b: nat, c: nat)
    requires 0 < b && a < c
    ensures c < a + Steps(c - a, b) * b <= c + b
  {
    DivMod(c - a, b);
    OneMoreTimes((c - a) / b, b);
  }

  /** The sum is kept if it fits; otherwise it loses its top bit, which leaves it below b and c. */
  lemma Wrapped(a: time, b: time, c: time)
    requires 0 < b && a < c
    ensures var sum := a + Steps(c - a, b) * b;
            if Fits(a, b, c) then IncreaseByMultipleAbove(a, b, c) == sum
            else IncreaseByMultipleAbove(a, b, c) == sum - LIMIT && sum - LIMIT < b && sum - LIMIT < c
  {
    SumBounds(a, b, c);
    var sum := a + Steps(c - a, b) * b;
    if sum < LIMIT {
      SmallRemainder(sum, LIMIT);
    } else {
      WrapsOnce(sum, LIMIT);
    }
  }

  /** The closed form is the loop, with one more b when b divides the gap, exactly when the sum
      fits. */
  lemma ClosedFormIsLoop(a: time, b: time, c: time)
    requires 0 < b
    ensures IncreaseByMultipleAbove(a, b, c) == Loop(a, b, c) + (if a < c && (c - a) % b == 0 then b else 0)
            <==> Fits(a, b, c)
  {
    if a < c {
      Wrapped(a, b, c);
      LoopClosed(a, b, c);
      DivMod(c - a, b);
      OneMoreTimes((c - a) / b, b);
    }
  }

  /** The result is above c, as documented, exactly when a was, or was below c and the sum fits;
      when it does not fit, the result is below c. */
  lemma {:induction false} AboveExactly(a: time, b: time, c: time)
    requires 0 < b
    ensures IncreaseByMultipleAbove(a, b, c) > c <==> a > c || (a < c && a + Steps(c - a, b) * b < LIMIT)
    ensures IncreaseByMultipleAbove(a, b, c) < c <==> a < c && a + Steps(c - a, b) * b >= LIMIT
  {
    if a < c {
      Wrapped(a, b, c);
      SumBounds(a, b, c);
    }
  }

  /** A whole number of periods later. */
  ghost predicate SamePhase(start: nat, period: nat, later: nat) {
    exists k: nat :: later == start + k * period
  }

  /** From now itself the next start is now, not later. */
  lemma NotAboveItself(b: time, c: time)
    requires 0 < b
    ensures IncreaseByMultipleAbove(c, b, c) == c
  {
  }

  /** Shortly before the clock turns over the next start is far in the past. */
  lemma {:induction false} TurnsOver()
    ensures RESOLUTION == Nanoseconds ==>
              IncreaseByMultipleAbove(0xffff_ffff_ffff_fff5, 1_000_000, 0xffff_ffff_ffff_ffff) == 999_989
    ensures RESOLUTION == Microseconds ==>
              IncreaseByMultipleAbove(0xffff_fff5, 1_000_000, 0xffff_ffff) == 999_989
  {
    DivModUnique(10, 1_000_000, 0, 10);
    WrapsOnce(LIMIT - 11 + 1_000_000, LIMIT);
  }

  /** No multiple of b leads into the gap the closed form skips. */
  lemma {:induction false} NoneBetween(a: nat, b: nat, c: nat, k: nat)
    requires 0 < b && a < c < a + k * b
    ensures Steps(c - a, b) * b <= k * b
  {
    var q := (c - a) / b;
    DivMod(c - a, b);
    if k <= q {
      MulMonotone(k, q, b);
    } else {
      MulMonotone(q + 1, k, b);
    }
  }

  /** r is what the documentation asks for: reached from a in steps of b, and from below c the
      least such value above c. */
  ghost predicate LeastFrom(a: nat, b: nat, c: nat, r: nat) {
    && SamePhase(a, b, r)
    && (if a < c then r > c && forall s: nat :: SamePhase(a, b, s) && s > c ==> r <= s else r == a)
  }

  lemma LeastAbove(a: time, b: time, c: time)
    requires 0 < b
    ensures LeastFrom(a, b, c, IncreaseByMultipleAbove(a, b, c)) <==> Fits(a, b, c)
  {
    if a < c {
      Wrapped(a, b, c);
      SumBounds(a, b, c);
      forall r: nat | SamePhase(a, b, r) && r > c
        ensures a + Steps(c - a, b) * b <= r
      {
        var k: nat :| r == a + k * b;
        NoneBetween(a, b, c, k);
      }
    } else {
      assert IncreaseByMultipleAbove(a, b, c) == a + 0 * b;
    }
  }

  // ---------------------------------------------------------------------------- the queue

  /** A task as the queue sees it. */
  datatype Entry<T> = Entry(id: T, start: time, period: time)

  ghost predicate Sorted<T>(q: seq<Entry<T>>) {
    forall i, j :: 0 <= i < j < |q| ==> q[i].start <= q[j].start
  }

  /** Where insert_task puts a task: in front of the first one that does not start earlier. */
  function Position<T>(q: seq<Entry<T>>, start: time, i: nat): (p: nat)
    requires i <= |q|
    ensures i <= p <= |q|
    ensures forall j :: i <= j < p ==> q[j].start < start
    ensures p < |q| ==> q[p].start >= start
    decreases |q| - i
  {
    if i < |q| && q[i].start < start then Position(q, start, i + 1) else i
  }

  function Inserted<T>(q: seq<Entry<T>>, e: Entry<T>): (r: seq<Entry<T>>)
    ensures |r| == |q| + 1
  {
    var p := Position(q, e.start, 0);
    q[..p] + [e] + q[p..]
  }

  /** The new entry is in front of the first one that does not start earlier, the others are as
      before. */
  lemma InsertedInPlace<T>(q: seq<Entry<T>>, e: Entry<T>) returns (p: nat)
    ensures p <= |q| && Inserted(q, e)[..p] == q[..p] && Inserted(q, e)[p] == e && Inserted(q, e)[p + 1..] == q[p..]
    ensures (forall j :: 0 <= j < p ==> q[j].start < e.start) && (p < |q| ==> q[p].start >= e.start)
  {
    p := Position(q, e.start, 0);
  }

  lemma InsertedSorted<T>(q: seq<Entry<T>>, e: Entry<T>)
    requires Sorted(q)
    ensures Sorted(Inserted(q, e))
  {
    var (p, r) := (Position(q, e.start, 0), Inserted(q, e));
    forall i, j | 0 <= i < j < |r|
      ensures r[i].start <= r[j].start
    {
      assert r[i] == if i < p then q[i] else if i == p then e else q[i - 1];
      assert r[j] == if j < p then q[j] else if j == p then e else q[j - 1];
      if i == p && p < j - 1 {
        assert q[p].start <= q[j - 1].start;
      }
    }
  }

  /** The start of a periodic task after it ran. */
  function NextStart(start: time, period: time, now: time): time
    requires period > 0
  {
    IncreaseByMultipleAbove(Plus(start, period), period, now)
  }

  /** The next start is within the range of time. */
  predicate InRange(start: time, period: time, now: time)
    requires period > 0
  {
    start + period < LIMIT && Fits(start + period, period, now)
  }

  lemma SamePhaseTrans(a: nat, period: nat, b: nat, c: nat)
    requires SamePhase(a, period, b) && SamePhase(b, period, c)
    ensures SamePhase(a, period, c)
  {
    var k: nat :| b == a + k * period;
    var l: nat :| c == b + l * period;
    assert c == a + (k + l) * period;
  }

  /** One period on, the phase is the same; and what is later in that phase is at least that far. */
  lemma OnePeriodOn(start: nat, period: nat, r: nat)
    requires r > start
    ensures SamePhase(start + period, period, r) <==> SamePhase(start, period, r)
  {
    if SamePhase(start + period, period, r) {
      var k: nat :| r == start + period + k * period;
      OneMoreTimes(k, period);
      assert r == start + (k + 1) * period;
    }
    if SamePhase(start, period, r) {
      var k: nat :| r == start + k * period;
      assert k != 0;
      OneMoreTimes(k - 1, period);
      assert r == start + period + (k - 1) * period;
    }
  }

  /** A periodic task keeps its phase and moves on by at least one period, to the first start of
      its phase after now if the next period is not late, exactly when that is in range. */
  lemma PhaseKept(start: time, period: time, now: time)
    requires period > 0
    ensures var next := NextStart(start, period, now);
            && (next >= start + period <==> InRange(start, period, now))
            && (InRange(start, period, now) ==>
                  SamePhase(start, period, next) && LeastFrom(start + period, period, now, next))
  {
    var (a, next) := (start + period, NextStart(start, period, now));
    if a < LIMIT {
      SmallRemainder(a, LIMIT);
      LeastAbove(a, period, now);
      if a < now {
        Wrapped(a, period, now);
        SumBounds(a, period, now);
      }
      if InRange(start, period, now) {
        OnePeriodOn(start, period, next);
      }
    }
  }

  /** Unless the next period is itself out of range, a task is put into the past exactly when the
      first start after now is. */
  lemma NotInThePast(start: time, period: time, now: time)
    requires period > 0 && start + period < LIMIT
    ensures NextStart(start, period, now) >= now
            <==> start + period >= now || start + period + Steps(now - (start + period), period) * period < LIMIT
  {
    SmallRemainder(start + period, LIMIT);
    AboveExactly(start + period, period, now);
  }

  /** A whole number of periods later on a clock that turns over. */
  ghost predicate SamePhaseOnClock(start: nat, period: nat, later: nat) {
    exists k: nat :: later == (start + k * period) % LIMIT
  }

  lemma SamePhaseOnClockTrans(a: nat, period: nat, b: nat, c: nat)
    requires SamePhaseOnClock(a, period, b) && SamePhaseOnClock(b, period, c)
    ensures SamePhaseOnClock(a, period, c)
  {
    var k: nat :| b == (a + k * period) % LIMIT;
    var l: nat :| c == (b + l * period) % LIMIT;
    ModAdd(a + k * period, l * period, LIMIT);
    assert c == (a + (k + l) * period) % LIMIT;
  }

  /** Whatever the clock says, the result is a whole number of periods later. */
  lemma {:induction false} AlwaysInPhase(a: time, b: time, c: time)
    requires b > 0
    ensures SamePhaseOnClock(a, b, IncreaseByMultipleAbove(a, b, c))
  {
    if a >= c {
      SmallRemainder(a, LIMIT);
      assert IncreaseByMultipleAbove(a, b, c) == (a + 0 * b) % LIMIT;
    } else {
      assert IncreaseByMultipleAbove(a, b, c) == (a + Steps(c - a, b) * b) % LIMIT;
    }
  }

  lemma {:induction false} NextStartInPhase(start: time, period: time, now: time)
    requires period > 0
    ensures SamePhaseOnClock(start, period, NextStart(start, period, now))
  {
    assert Plus(start, period) == (start + 1 * period) % LIMIT;
    AlwaysInPhase(Plus(start, period), period, now);
    SamePhaseOnClockTrans(start, period, Plus(start, period), NextStart(start, period, now));
  }
}
