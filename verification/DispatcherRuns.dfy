/** Runs of the dispatcher. */
module DispatcherRuns {
  import opened Arithmetic
  import opened Schedule

  // The loop takes one task after the other; tasks are enqueued at any time, also by the task
  // that runs.

  datatype Option<T> = None | Some(value: T)

  /** The queue, the task that runs, and the tasks as they were when dispatched. */
  datatype State<T> = State(queue: seq<Entry<T>>, running: Option<Entry<T>>, log: seq<Entry<T>>)

  /** A call of enqueue; the loop takes a task and runs it; the task returns.  now is what the
      clock says. */
  datatype Event<T> = Enqueue(entry: Entry<T>, now: time) | Start | Finish(now: time)

  /** A task at the time of enqueuing: periodic ones start a second from now or later. */
  function Admitted<T>(e: Entry<T>, now: time): Entry<T> {
    if e.period == 0 then e else e.(start := IncreaseByMultipleAbove(e.start, e.period, Plus(now, SECOND)))
  }

  function Enqueued<T>(q: seq<Entry<T>>, e: Entry<T>, now: time): seq<Entry<T>> {
    Inserted(q, Admitted(e, now))
  }

  function Again<T>(e: Entry<T>, now: time): Entry<T>
    requires e.period > 0
  {
    e.(start := NextStart(e.start, e.period, now))
  }

  /** The queue after task e ran: a periodic task is back in. */
  function Dispatched<T>(q: seq<Entry<T>>, e: Entry<T>, now: time): seq<Entry<T>> {
    if e.period == 0 then q else Inserted(q, Again(e, now))
  }

  function Step<T>(s: State<T>, ev: Event<T>): State<T> {
    match ev
    case Enqueue(e, now) => s.(queue := Enqueued(s.queue, e, now))
    case Start =>
      if s.running.Some? || s.queue == [] then s
      else State(s.queue[1..], Some(s.queue[0]), s.log + [s.queue[0]])
    case Finish(now) =>
      if s.running.None? then s else State(Dispatched(s.queue, s.running.value, now), None, s.log)
  }

  function After<T>(events: seq<Event<T>>): State<T> {
    if events == [] then State([], None, []) else Step(After(events[..|events| - 1]), events[|events| - 1])
  }

  // ------------------------------------------------------------------------------- order

  lemma {:induction false} AlwaysSorted<T>(events: seq<Event<T>>)
    ensures Sorted(After(events).queue)
  {
    if events != [] {
      var (before, ev) := (events[..|events| - 1], events[|events| - 1]);
      AlwaysSorted(before);
      var s := After(before);
      match ev
      case Enqueue(e, now) => InsertedSorted(s.queue, Admitted(e, now));
      case Start =>
      case Finish(now) =>
        if s.running.Some? && s.running.value.period > 0 {
          InsertedSorted(s.queue, Again(s.running.value, now));
        }
    }
  }

  /** Of all tasks in the queue one with the earliest start is dispatched. */
  lemma {:induction false} EarliestFirst<T>(events: seq<Event<T>>)
    requires After(events).queue != [] && After(events).running.None?
    ensures var (s, s') := (After(events), After(events + [Start]));
            && |s'.log| == |s.log| + 1 && s'.log[|s.log|] in s.queue && s'.running == Some(s'.log[|s.log|])
            && forall e :: e in s.queue ==> s'.log[|s.log|].start <= e.start
  {
    AlwaysSorted(events);
    assert (events + [Start])[..|events|] == events;
  }

  // ------------------------------------------------------------------------ conservation

  /** How often a task is in a list, as a periodic task or as a one-shot task. */
  ghost function Count<T>(q: seq<Entry<T>>, id: T, periodic: bool): nat {
    if q == [] then 0 else Count(q[..|q| - 1], id, periodic) + Once(q[|q| - 1], id, periodic)
  }

  ghost function Once<T>(e: Entry<T>, id: T, periodic: bool): nat {
    if e.id == id && periodic == (e.period > 0) then 1 else 0
  }

  lemma {:induction false} CountConcat<T>(a: seq<Entry<T>>, b: seq<Entry<T>>, id: T, periodic: bool)
    ensures Count(a + b, id, periodic) == Count(a, id, periodic) + Count(b, id, periodic)
  {
    if b == [] {
      assert a + b == a;
    } else {
      var (front, last) := (b[..|b| - 1], b[|b| - 1]);
      assert (a + b)[..|a + b| - 1] == a + front;
      CountConcat(a, front, id, periodic);
    }
  }

  lemma CountMore<T>(q: seq<Entry<T>>, e: Entry<T>, id: T, periodic: bool)
    ensures Count(q + [e], id, periodic) == Count(q, id, periodic) + Once(e, id, periodic)
  {
    assert (q + [e])[..|q|] == q;
  }

  lemma CountInserted<T>(q: seq<Entry<T>>, e: Entry<T>, id: T, periodic: bool)
    ensures Count(Inserted(q, e), id, periodic) == Count(q, id, periodic) + Once(e, id, periodic)
  {
    var p := Position(q, e.start, 0);
    assert q[..p] + q[p..] == q;
    CountConcat(q[..p], q[p..], id, periodic);
    CountMore(q[..p], e, id, periodic);
    CountConcat(q[..p] + [e], q[p..], id, periodic);
  }

  lemma CountFirst<T>(q: seq<Entry<T>>, id: T, periodic: bool)
    requires q != []
    ensures Count(q, id, periodic) == Once(q[0], id, periodic) + Count(q[1..], id, periodic)
  {
    assert q == [q[0]] + q[1..];
    CountConcat([q[0]], q[1..], id, periodic);
    assert [q[0]] == [] + [q[0]];
    CountMore([], q[0], id, periodic);
  }

  /** The tasks that were enqueued. */
  function Given<T>(events: seq<Event<T>>): seq<Entry<T>> {
    if events == [] then []
    else
      var before := Given(events[..|events| - 1]);
      match events[|events| - 1]
      case Enqueue(e, _) => before + [e]
      case Start => before
      case Finish(_) => before
  }

  /** The task that runs. */
  ghost function Running<T>(s: State<T>, id: T, periodic: bool): nat {
    if s.running.Some? then Once(s.running.value, id, periodic) else 0
  }

  /** The task that is enqueued. */
  ghost function More<T>(ev: Event<T>, id: T, periodic: bool): nat {
    if ev.Enqueue? then Once(ev.entry, id, periodic) else 0
  }

  /** An enqueued task is one more in the queue; nothing else changes the numbers. */
  lemma {:induction false} StepConserves<T>(s: State<T>, ev: Event<T>, id: T)
    ensures var s' := Step(s, ev);
            && Count(s'.queue, id, true) + Running(s', id, true)
               == Count(s.queue, id, true) + Running(s, id, true) + More(ev, id, true)
            && Count(s'.queue, id, false) + Count(s'.log, id, false)
               == Count(s.queue, id, false) + Count(s.log, id, false) + More(ev, id, false)
  {
    match ev
    case Enqueue(e, now) =>
      CountInserted(s.queue, Admitted(e, now), id, true);
      CountInserted(s.queue, Admitted(e, now), id, false);
    case Start =>
      if s.running.None? && s.queue != [] {
        CountFirst(s.queue, id, true);
        CountFirst(s.queue, id, false);
        CountMore(s.log, s.queue[0], id, false);
      }
    case Finish(now) =>
      if s.running.Some? && s.running.value.period > 0 {
        CountInserted(s.queue, Again(s.running.value, now), id, true);
        CountInserted(s.queue, Again(s.running.value, now), id, false);
      }
  }

  /** No periodic task is lost or duplicated, and a one-shot task is either still in the queue or
      has been dispatched, once for each time it was enqueued. */
  lemma {:induction false} Conservation<T>(events: seq<Event<T>>, id: T)
    ensures var (s, given) := (After(events), Given(events));
            && Count(s.queue, id, true) + Running(s, id, true) == Count(given, id, true)
            && Count(s.queue, id, false) + Count(s.log, id, false) == Count(given, id, false)
  {
    if events != [] {
      var (before, ev) := (events[..|events| - 1], events[|events| - 1]);
      Conservation(before, id);
      StepConserves(After(before), ev, id);
      if ev.Enqueue? {
        CountMore(Given(before), ev.entry, id, true);
        CountMore(Given(before), ev.entry, id, false);
      }
    }
  }

  /** The one-shot tasks of a list are as they were given to enqueue. */
  ghost predicate OneShotsGiven<T>(given: seq<Entry<T>>, q: seq<Entry<T>>) {
    forall i :: 0 <= i < |q| && q[i].period == 0 ==> q[i] in given
  }

  lemma OneShotsInserted<T>(given: seq<Entry<T>>, q: seq<Entry<T>>, e: Entry<T>)
    requires OneShotsGiven(given, q) && (e.period == 0 ==> e in given)
    ensures OneShotsGiven(given, Inserted(q, e))
  {
    var p := InsertedInPlace(q, e);
    forall i | 0 <= i < |q| + 1 && Inserted(q, e)[i].period == 0
      ensures Inserted(q, e)[i] in given
    {
      if i < p {
        assert Inserted(q, e)[..p][i] == q[i];
      } else if i > p {
        assert Inserted(q, e)[p + 1..][i - p - 1] == q[p..][i - p - 1];
      }
    }
  }

  /** A one-shot task waits, runs and has run for the very start it was given with. */
  lemma {:induction false} OneShotsAsGiven<T>(events: seq<Event<T>>)
    ensures var (s, given) := (After(events), Given(events));
            && OneShotsGiven(given, s.queue) && OneShotsGiven(given, s.log)
            && (s.running.Some? && s.running.value.period == 0 ==> s.running.value in given)
  {
    if events != [] {
      var (before, ev) := (events[..|events| - 1], events[|events| - 1]);
      OneShotsAsGiven(before);
      var s := After(before);
      match ev
      case Enqueue(e, now) => OneShotsInserted(Given(before) + [e], s.queue, Admitted(e, now));
      case Start =>
      case Finish(now) =>
        if s.running.Some? && s.running.value.period > 0 {
          OneShotsInserted(Given(before), s.queue, Again(s.running.value, now));
        }
    }
  }

  // -------------------------------------------------------------------------------- phase

  /** The rule for callers: a task in the queue is not enqueued again, nor one that runs unless it
      is a one-shot task and stays one. */
  ghost predicate Permitted<T>(s: State<T>, ev: Event<T>) {
    ev.Enqueue? ==>
      && (forall i :: 0 <= i < |s.queue| ==> s.queue[i].id != ev.entry.id)
      && (s.running.Some? && s.running.value.id == ev.entry.id ==> s.running.value.period == ev.entry.period == 0)
  }

  ghost predicate Proper<T>(events: seq<Event<T>>) {
    events == [] || (Proper(events[..|events| - 1]) && Permitted(After(events[..|events| - 1]), events[|events| - 1]))
  }

  /** The next start of the task that ran is in the range of time. */
  predicate Timely<T>(s: State<T>, ev: Event<T>) {
    ev.Finish? && s.running.Some? && s.running.value.period > 0 ==>
      InRange(s.running.value.start, s.running.value.period, ev.now)
  }

  ghost predicate InTime<T>(events: seq<Event<T>>) {
    events == [] || (InTime(events[..|events| - 1]) && Timely(After(events[..|events| - 1]), events[|events| - 1]))
  }

  /** e is the periodic task r, at least one period later. */
  ghost predicate Follows<T>(r: Entry<T>, e: Entry<T>) {
    r.id == e.id && r.period == e.period && SamePhase(r.start, r.period, e.start) && e.start >= r.start + r.period
  }

  ghost predicate Unique<T>(q: seq<Entry<T>>) {
    forall i, j :: 0 <= i < j < |q| ==> q[i].id != q[j].id
  }

  /** e is not in the queue. */
  ghost predicate Absent<T>(q: seq<Entry<T>>, e: Entry<T>) {
    forall i :: 0 <= i < |q| ==> q[i].id != e.id
  }

  /** No task is twice in the queue, or in it while it runs as a periodic task. */
  ghost predicate UniqueTasks<T>(s: State<T>) {
    Unique(s.queue) && (s.running.Some? && s.running.value.period > 0 ==> Absent(s.queue, s.running.value))
  }

  ghost predicate FollowedIn<T>(r: Entry<T>, q: seq<Entry<T>>) {
    exists i :: 0 <= i < |q| && Follows(r, q[i])
  }

  /** r is the run of this task, or an earlier one. */
  ghost predicate UpTo<T>(r: Entry<T>, e: Entry<T>) {
    r == e || Follows(r, e)
  }

  /** Every periodic task that has been dispatched runs, or is in the queue for a later start. */
  ghost predicate Recurring<T>(s: State<T>) {
    forall r :: r in s.log && r.period > 0 ==>
      FollowedIn(r, s.queue) || (s.running.Some? && UpTo(r, s.running.value))
  }

  /** The runs of a periodic task follow each other. */
  ghost predicate Succession<T>(log: seq<Entry<T>>) {
    forall i, j :: 0 <= i < j < |log| && log[i].period > 0 && log[i].id == log[j].id ==> Follows(log[i], log[j])
  }

  lemma FollowsTrans<T>(a: Entry<T>, b: Entry<T>, c: Entry<T>)
    requires Follows(a, b) && Follows(b, c)
    ensures Follows(a, c)
  {
    SamePhaseTrans(a.start, a.period, b.start, c.start);
  }

  /** What is in the longer queue. */
  lemma FollowedInserted<T>(r: Entry<T>, q: seq<Entry<T>>, e: Entry<T>)
    ensures FollowedIn(r, q) ==> FollowedIn(r, Inserted(q, e))
    ensures Follows(r, e) ==> FollowedIn(r, Inserted(q, e))
  {
    var (p, q') := (Position(q, e.start, 0), Inserted(q, e));
    assert q'[p] == e;
    if FollowedIn(r, q) {
      var i :| 0 <= i < |q| && Follows(r, q[i]);
      assert q'[if i < p then i else i + 1] == q[i];
    }
  }

  lemma UniqueInserted<T>(q: seq<Entry<T>>, e: Entry<T>)
    requires Unique(q) && Absent(q, e)
    ensures Unique(Inserted(q, e))
    ensures forall d: Entry<T> :: Absent(q, d) && d.id != e.id ==> Absent(Inserted(q, e), d)
  {
    var (p, r) := (Position(q, e.start, 0), Inserted(q, e));
    forall i, j | 0 <= i < j < |r|
      ensures r[i].id != r[j].id
    {
      assert r[i] == if i < p then q[i] else if i == p then e else q[i - 1];
      assert r[j] == if j < p then q[j] else if j == p then e else q[j - 1];
    }
  }

  lemma {:induction false} UniqueStep<T>(s: State<T>, ev: Event<T>)
    requires UniqueTasks(s) && Permitted(s, ev)
    ensures UniqueTasks(Step(s, ev))
  {
    match ev
    case Enqueue(e, now) => UniqueInserted(s.queue, Admitted(e, now));
    case Start =>
    case Finish(now) =>
      if s.running.Some? && s.running.value.period > 0 {
        UniqueInserted(s.queue, Again(s.running.value, now));
      }
  }

  /** A periodic task goes back into the queue for a later start of its phase exactly when that
      is in range. */
  lemma {:induction false} AgainFollows<T>(e: Entry<T>, now: time)
    requires e.period > 0
    ensures Follows(e, Again(e, now)) <==> InRange(e.start, e.period, now)
  {
    PhaseKept(e.start, e.period, now);
  }

  lemma {:induction false} RecurringStep<T>(s: State<T>, ev: Event<T>)
    requires Recurring(s) && Timely(s, ev)
    ensures Recurring(Step(s, ev))
  {
    var s' := Step(s, ev);
    forall r | r in s'.log && r.period > 0
      ensures FollowedIn(r, s'.queue) || (s'.running.Some? && UpTo(r, s'.running.value))
    {
      match ev
      case Enqueue(e, now) => FollowedInserted(r, s.queue, Admitted(e, now));
      case Start => RecurringStart(s, r);
      case Finish(now) => RecurringFinish(s, now, r);
    }
  }

  lemma {:induction false} RecurringStart<T>(s: State<T>, r: Entry<T>)
    requires Recurring(s)
    requires r in Step(s, Start).log && r.period > 0
    ensures var s' := Step(s, Start); FollowedIn(r, s'.queue) || (s'.running.Some? && UpTo(r, s'.running.value))
  {
    if s.running.None? && s.queue != [] && r in s.log {
      var i :| 0 <= i < |s.queue| && Follows(r, s.queue[i]);
      if i > 0 {
        assert s.queue[1..][i - 1] == s.queue[i];
      }
    }
  }

  lemma {:induction false} RecurringFinish<T>(s: State<T>, now: time, r: Entry<T>)
    requires Recurring(s) && Timely(s, Finish(now))
    requires r in s.log && r.period > 0
    ensures var s' := Step(s, Finish(now)); FollowedIn(r, s'.queue) || (s'.running.Some? && UpTo(r, s'.running.value))
  {
    if s.running.Some? && s.running.value.period > 0 {
      var e := s.running.value;
      AgainFollows(e, now);
      if UpTo(r, e) && r != e {
        FollowsTrans(r, e, Again(e, now));
      }
      FollowedInserted(r, s.queue, Again(e, now));
    }
  }

  lemma {:induction false} SuccessionStart<T>(s: State<T>)
    requires Recurring(s) && Unique(s.queue) && Succession(s.log)
    ensures Succession(Step(s, Start).log)
  {
    if s.running.None? && s.queue != [] {
      var e := s.queue[0];
      forall r | r in s.log && r.period > 0 && r.id == e.id
        ensures Follows(r, e)
      {
        var i :| 0 <= i < |s.queue| && Follows(r, s.queue[i]);
        assert i == 0;
      }
    }
  }

  lemma {:induction false} UniqueOverRuns<T>(events: seq<Event<T>>)
    requires Proper(events)
    ensures UniqueTasks(After(events))
  {
    if events != [] {
      var (before, ev) := (events[..|events| - 1], events[|events| - 1]);
      UniqueOverRuns(before);
      UniqueStep(After(before), ev);
    }
  }

  /** Over every proper run in time, the runs of a periodic task keep its phase and are at least
      one period apart. */
  lemma {:induction false} PhaseOverRuns<T>(events: seq<Event<T>>)
    requires Proper(events) && InTime(events)
    ensures var s := After(events); Recurring(s) && Succession(s.log)
  {
    if events != [] {
      var (before, ev) := (events[..|events| - 1], events[|events| - 1]);
      PhaseOverRuns(before);
      UniqueOverRuns(before);
      RecurringStep(After(before), ev);
      if ev.Start? {
        SuccessionStart(After(before));
      }
    }
  }

  lemma {:induction false} RunningLogged<T>(events: seq<Event<T>>)
    ensures var s := After(events); s.running.Some? ==> s.running.value in s.log
  {
    if events != [] {
      RunningLogged(events[..|events| - 1]);
    }
  }

  /** A task that goes back into the queue out of time does not follow the run before. */
  lemma {:induction false} LateBreaksPhase<T>(s: State<T>, ev: Event<T>)
    requires !Timely(s, ev) && s.running.value in s.log && Unique(Step(s, ev).queue)
    ensures !Recurring(Step(s, ev))
  {
    var (e, s') := (s.running.value, Step(s, ev));
    AgainFollows(e, ev.now);
    var p := Position(s.queue, Again(e, ev.now).start, 0);
    assert s'.queue[p] == Again(e, ev.now);
  }

  /** After the first n events every periodic task that has been dispatched runs, or is in the
      queue for a later start of its phase. */
  ghost predicate PhaseAt<T>(events: seq<Event<T>>, n: nat)
    requires n <= |events|
  {
    Recurring(After(events[..n]))
  }

  lemma {:induction false} PhaseAtEnd<T>(events: seq<Event<T>>)
    requires Proper(events) && events != [] && InTime(events[..|events| - 1])
    ensures InTime(events) <==> PhaseAt(events, |events|)
  {
    assert events[..|events|] == events;
    if InTime(events) {
      PhaseOverRuns(events);
    } else {
      UniqueOverRuns(events);
      RunningLogged(events[..|events| - 1]);
      LateBreaksPhase(After(events[..|events| - 1]), events[|events| - 1]);
    }
  }

  /** At every moment up to the first n events. */
  ghost predicate PhaseUpTo<T>(events: seq<Event<T>>, n: nat)
    requires n <= |events|
  {
    forall i :: 0 <= i <= n ==> PhaseAt(events, i)
  }

  lemma {:induction false} PhaseUpToPrefix<T>(events: seq<Event<T>>)
    requires events != []
    ensures var n := |events| - 1; PhaseUpTo(events[..n], n) == PhaseUpTo(events, n)
  {
    var n := |events| - 1;
    forall i | 0 <= i <= n
      ensures PhaseAt(events[..n], i) == PhaseAt(events, i)
    {
      assert events[..n][..i] == events[..i];
    }
  }

  /** That holds at every moment of a proper run exactly when the run is in time. */
  lemma {:induction false} PhaseExactlyInTime<T>(events: seq<Event<T>>)
    requires Proper(events)
    ensures InTime(events) <==> PhaseUpTo(events, |events|)
  {
    if events != [] {
      var before := events[..|events| - 1];
      PhaseExactlyInTime(before);
      PhaseUpToPrefix(events);
      assert PhaseUpTo(events, |events|) <==> PhaseUpTo(events, |before|) && PhaseAt(events, |events|);
      if InTime(before) {
        PhaseAtEnd(events);
      }
    }
  }

  /** e is a task that was given to enqueue, at a start of its phase. */
  ghost predicate InPhase<T>(given: seq<Entry<T>>, e: Entry<T>) {
    exists g :: g in given && g.id == e.id && g.period == e.period && SamePhase(g.start, g.period, e.start)
  }

  ghost predicate AllInPhase<T>(given: seq<Entry<T>>, q: seq<Entry<T>>) {
    forall i :: 0 <= i < |q| && q[i].period > 0 ==> InPhase(given, q[i])
  }

  lemma AllInPhaseMore<T>(given: seq<Entry<T>>, q: seq<Entry<T>>, g: Entry<T>)
    requires AllInPhase(given, q)
    ensures AllInPhase(given + [g], q)
  {
    forall i | 0 <= i < |q| && q[i].period > 0
      ensures InPhase(given + [g], q[i])
    {
      var h :| h in given && h.id == q[i].id && h.period == q[i].period && SamePhase(h.start, h.period, q[i].start);
      assert h in given + [g];
    }
  }

  lemma AllInPhaseInserted<T>(given: seq<Entry<T>>, q: seq<Entry<T>>, e: Entry<T>)
    requires AllInPhase(given, q) && (e.period > 0 ==> InPhase(given, e))
    ensures AllInPhase(given, Inserted(q, e))
  {
    var (p, r) := (Position(q, e.start, 0), Inserted(q, e));
    forall i | 0 <= i < |r| && r[i].period > 0
      ensures InPhase(given, r[i])
    {
      assert r[i] == if i < p then q[i] else if i == p then e else q[i - 1];
    }
  }

  /** A periodic task is admitted to the first start of its phase after a second from now, or to
      its own if that is no earlier, exactly when that is in range. */
  lemma AdmittedExactly<T>(e: Entry<T>, now: time)
    requires e.period > 0
    ensures LeastFrom(e.start, e.period, Plus(now, SECOND), Admitted(e, now).start)
            <==> Fits(e.start, e.period, Plus(now, SECOND))
  {
    LeastAbove(e.start, e.period, Plus(now, SECOND));
  }

  /** A second, in the units of the clock. */
  lemma SecondFromNow<T>(e: Entry<T>, now: time)
    requires e.period > 0
    ensures var later := now + if RESOLUTION == Nanoseconds then 1_000_000_000 else 1_000_000;
            later < LIMIT ==> (Admitted(e, now).start >= later <==> Fits(e.start, e.period, later))
  {
    if now + SECOND < LIMIT {
      SmallRemainder(now + SECOND, LIMIT);
      AboveExactly(e.start, e.period, now + SECOND);
    }
  }

  /** No task is enqueued for a start out of range. */
  ghost predicate AdmittedInTime<T>(events: seq<Event<T>>) {
    forall ev :: ev in events && ev.Enqueue? && ev.entry.period > 0 ==>
      Fits(ev.entry.start, ev.entry.period, Plus(ev.now, SECOND))
  }

  lemma AdmittedInPhase<T>(given: seq<Entry<T>>, e: Entry<T>, now: time)
    requires e in given && e.period > 0 && Fits(e.start, e.period, Plus(now, SECOND))
    ensures InPhase(given, Admitted(e, now))
  {
    AdmittedExactly(e, now);
  }

  lemma AgainInPhase<T>(given: seq<Entry<T>>, e: Entry<T>, now: time)
    requires InPhase(given, e) && e.period > 0 && InRange(e.start, e.period, now)
    ensures InPhase(given, Again(e, now))
  {
    AgainFollows(e, now);
    var g :| g in given && g.id == e.id && g.period == e.period && SamePhase(g.start, g.period, e.start);
    SamePhaseTrans(g.start, g.period, e.start, Again(e, now).start);
  }

  /** Over every run in time, each start of a periodic task, past or to come, is a whole number of
      periods after the start it was enqueued with. */
  lemma {:induction false} InPhaseOverRuns<T>(events: seq<Event<T>>)
    requires InTime(events) && AdmittedInTime(events)
    ensures AllInPhase(Given(events), After(events).queue) && AllInPhase(Given(events), After(events).log)
  {
    if events != [] {
      var (before, ev) := (events[..|events| - 1], events[|events| - 1]);
      InPhaseOverRuns(before);
      var (s, given) := (After(before), Given(before));
      match ev
      case Enqueue(e, now) =>
        AllInPhaseMore(given, s.queue, e);
        AllInPhaseMore(given, s.log, e);
        if e.period > 0 {
          AdmittedInPhase(given + [e], e, now);
        }
        AllInPhaseInserted(given + [e], s.queue, Admitted(e, now));
      case Start =>
      case Finish(now) =>
        if s.running.Some? && s.running.value.period > 0 {
          RunningLogged(before);
          AgainInPhase(given, s.running.value, now);
          AllInPhaseInserted(given, s.queue, Again(s.running.value, now));
        }
    }
  }

  /** e is a task that was given to enqueue, whole periods later on the clock. */
  ghost predicate OnClock<T>(given: seq<Entry<T>>, e: Entry<T>) {
    exists g :: g in given && g.id == e.id && g.period == e.period && SamePhaseOnClock(g.start, g.period, e.start)
  }

  ghost predicate AllOnClock<T>(given: seq<Entry<T>>, q: seq<Entry<T>>) {
    forall i :: 0 <= i < |q| && q[i].period > 0 ==> OnClock(given, q[i])
  }

  lemma AllOnClockMore<T>(given: seq<Entry<T>>, q: seq<Entry<T>>, g: Entry<T>)
    requires AllOnClock(given, q)
    ensures AllOnClock(given + [g], q)
  {
    forall i | 0 <= i < |q| && q[i].period > 0
      ensures OnClock(given + [g], q[i])
    {
      var h :| h in given && h.id == q[i].id && h.period == q[i].period
               && SamePhaseOnClock(h.start, h.period, q[i].start);
      assert h in given + [g];
    }
  }

  lemma AllOnClockInserted<T>(given: seq<Entry<T>>, q: seq<Entry<T>>, e: Entry<T>)
    requires AllOnClock(given, q) && (e.period > 0 ==> OnClock(given, e))
    ensures AllOnClock(given, Inserted(q, e))
  {
    var (p, r) := (Position(q, e.start, 0), Inserted(q, e));
    forall i | 0 <= i < |r| && r[i].period > 0
      ensures OnClock(given, r[i])
    {
      assert r[i] == if i < p then q[i] else if i == p then e else q[i - 1];
    }
  }

  lemma {:induction false} AgainOnClock<T>(given: seq<Entry<T>>, e: Entry<T>, now: time)
    requires OnClock(given, e) && e.period > 0
    ensures OnClock(given, Again(e, now))
  {
    NextStartInPhase(e.start, e.period, now);
    var g :| g in given && g.id == e.id && g.period == e.period && SamePhaseOnClock(g.start, g.period, e.start);
    SamePhaseOnClockTrans(g.start, g.period, e.start, Again(e, now).start);
  }

  /** Over every run, in time or not, each start of a periodic task is a whole number of periods
      after the one it was enqueued with, modulo the range of the clock. */
  lemma {:induction false} OnClockOverRuns<T>(events: seq<Event<T>>)
    ensures AllOnClock(Given(events), After(events).queue) && AllOnClock(Given(events), After(events).log)
  {
    if events != [] {
      var (before, ev) := (events[..|events| - 1], events[|events| - 1]);
      OnClockOverRuns(before);
      var (s, given) := (After(before), Given(before));
      match ev
      case Enqueue(e, now) =>
        AllOnClockMore(given, s.queue, e);
        AllOnClockMore(given, s.log, e);
        if e.period > 0 {
          AlwaysInPhase(e.start, e.period, Plus(now, SECOND));
        }
        AllOnClockInserted(given + [e], s.queue, Admitted(e, now));
      case Start =>
      case Finish(now) =>
        if s.running.Some? && s.running.value.period > 0 {
          RunningLogged(before);
          AgainOnClock(given, s.running.value, now);
          AllOnClockInserted(given, s.queue, Again(s.running.value, now));
        }
    }
  }
}
