/** The dispatcher's queue as a chain of tasks. */
module Dispatcher {
  import opened Schedule
  import opened DispatcherRuns

  class Task {
    var realtime: bool
    var start: time
    var period: time
    var next: Task?

    constructor (s: time, p: time, rt: bool)
      ensures start == s && period == p && realtime == rt && next == null
    {
      realtime, start, period, next := rt, s, p, null;
    }

    function AsEntry(): Entry<Task>
      reads this
    {
      Entry(this, start, period)
    }

    /** Time.futurify */
    method Futurify(current: time)
      requires period > 0
      modifies this`start
      ensures start == IncreaseByMultipleAbove(old(start), period, current)
    {
      if start < current {
        start := (start + Steps(current - start, period) * period) % LIMIT;
      }
    }
  }

  /** Link i of the chain. */
  function At(tasks: seq<Task>, i: nat): Task? {
    if i < |tasks| then tasks[i] else null
  }

  /** Task i leads to the next one. */
  predicate Leads(tasks: seq<Task>, i: nat)
    requires i < |tasks|
    reads tasks
  {
    tasks[i].next == At(tasks, i + 1)
  }

  /** The tasks are chained from first on, none twice. */
  ghost predicate Chained(first: Task?, tasks: seq<Task>)
    reads tasks
  {
    && first == At(tasks, 0)
    && (forall i :: 0 <= i < |tasks| ==> Leads(tasks, i))
    && forall i, j :: 0 <= i < j < |tasks| ==> tasks[i] != tasks[j]
  }

  ghost function Entries(tasks: seq<Task>): (q: seq<Entry<Task>>)
    reads tasks
    ensures |q| == |tasks| && forall i :: 0 <= i < |q| ==> q[i] == tasks[i].AsEntry()
  {
    seq(|tasks|, i requires 0 <= i < |tasks| reads tasks => tasks[i].AsEntry())
  }

  lemma {:induction false} EntriesInserted(tasks: seq<Task>, more: seq<Task>, i: nat, t: Task)
    requires i <= |tasks| && more == tasks[..i] + [t] + tasks[i..]
    ensures Entries(more) == Entries(tasks)[..i] + [t.AsEntry()] + Entries(tasks)[i..]
  {
  }

  // What tasks do to the queue while they run: they may enqueue tasks they have set up.

  datatype Call = Call(entry: Entry<Task>, now: time)

  /** The calls of enqueue that the task makes, and what the clock says when it returns. */
  datatype Work = Work(calls: seq<Call>, now: time)

  ghost function Callees(calls: seq<Call>): set<Task> {
    set i | 0 <= i < |calls| :: calls[i].entry.id
  }

  /** No task is enqueued twice. */
  ghost predicate Distinct(calls: seq<Call>) {
    forall i, j :: 0 <= i < j < |calls| ==> calls[i].entry.id != calls[j].entry.id
  }

  function EnqueuedAll(q: seq<Entry<Task>>, calls: seq<Call>): seq<Entry<Task>> {
    if calls == [] then q
    else
      var last := |calls| - 1;
      Enqueued(EnqueuedAll(q, calls[..last]), calls[last].entry, calls[last].now)
  }

  lemma {:induction false} NextCall(q: seq<Entry<Task>>, calls: seq<Call>, i: nat)
    requires i < |calls| && Distinct(calls)
    ensures EnqueuedAll(q, calls[..i + 1]) == Enqueued(EnqueuedAll(q, calls[..i]), calls[i].entry, calls[i].now)
    ensures Callees(calls[..i + 1]) == Callees(calls[..i]) + {calls[i].entry.id} <= Callees(calls)
    ensures calls[i].entry.id !in Callees(calls[..i])
  {
    var some := calls[..i + 1];
    assert some[..i] == calls[..i];
    forall t | t in Callees(calls[..i]) + {calls[i].entry.id}
      ensures t in Callees(some)
    {
      if t == calls[i].entry.id {
        assert some[i].entry.id == t;
      } else {
        var j :| 0 <= j < i && calls[..i][j].entry.id == t;
        assert some[j].entry.id == t;
      }
    }
  }

  /** The queue after one iteration in which the task dispatched does this work. */
  function Iterated(q: seq<Entry<Task>>, w: Work): seq<Entry<Task>> {
    if q == [] then q else Dispatched(EnqueuedAll(q[1..], w.calls), q[0], w.now)
  }

  /** A task may enqueue others, not in the queue, and itself if it is a one-shot task and stays one. */
  ghost predicate MayCall(q: seq<Entry<Task>>, task: Entry<Task>, calls: seq<Call>) {
    && Distinct(calls)
    && (forall i, j :: 0 <= i < |calls| && 0 <= j < |q| ==> q[j].id != calls[i].entry.id)
    && forall i :: 0 <= i < |calls| && calls[i].entry.id == task.id ==> task.period == calls[i].entry.period == 0
  }

  /** Only a task that runs can do work. */
  ghost predicate MayWork(q: seq<Entry<Task>>, w: Work) {
    if q == [] then w.calls == [] else MayCall(q[1..], q[0], w.calls)
  }

  class Dispatcher {
    var first: Task?
    ghost var tasks: seq<Task>

    constructor ()
      ensures Valid() && Queue() == []
    {
      first := null;
      tasks := [];
    }

    ghost predicate Valid()
      reads this, tasks
    {
      Chained(first, tasks) && Sorted(Entries(tasks))
    }

    ghost function Queue(): seq<Entry<Task>>
      reads this, tasks
    {
      Entries(tasks)
    }

    /** Walk to the first task that does not start earlier. */
    method FindPlace(start: time) returns (predecessor: Task?, task: Task?, ghost i: nat)
      requires Valid()
      ensures i == Position(Queue(), start, 0)
      ensures task == At(tasks, i) && predecessor == if i == 0 then null else tasks[i - 1]
    {
      predecessor, task, i := null, first, 0;
      while task != null && task.start < start
        invariant i <= |tasks| && task == At(tasks, i) && predecessor == if i == 0 then null else tasks[i - 1]
        invariant Position(Queue(), start, 0) == Position(Queue(), start, i)
        decreases |tasks| - i
      {
        assert Leads(tasks, i);
        predecessor, task, i := task, task.next, i + 1;
      }
    }

    /** Chain a task in before task i. */
    method Link(newTask: Task, predecessor: Task?, task: Task?, ghost i: nat)
      requires Chained(first, tasks) && newTask !in tasks && i <= |tasks|
      requires task == At(tasks, i) && predecessor == if i == 0 then null else tasks[i - 1]
      modifies this, tasks, newTask
      ensures tasks == old(tasks[..i]) + [newTask] + old(tasks[i..]) && Chained(first, tasks)
      ensures forall t :: t in tasks <==> t in old(tasks) || t == newTask
      ensures forall t :: t in tasks ==> t.AsEntry() == old(t.AsEntry())
    {
      newTask.next := task;
      if predecessor == null {
        first := newTask;
      } else {
        predecessor.next := newTask;
      }
      ghost var was := tasks;
      tasks := tasks[..i] + [newTask] + tasks[i..];
      assert tasks[i] == newTask && forall j :: i < j < |tasks| ==> tasks[j] == was[j - 1];
      forall j | 0 <= j < |tasks|
        ensures Leads(tasks, j)
      {
        if j < i {
          assert old(Leads(was, j)) && tasks[j] == was[j];
        } else if j > i {
          assert old(Leads(was, j - 1)) && tasks[j] == was[j - 1] && At(tasks, j + 1) == At(was, j);
        }
      }
    }

    /** Insert by starting time, in front of tasks with the same one. */
    method InsertTask(newTask: Task)
      requires Valid() && newTask !in tasks
      modifies this, tasks, newTask
      ensures Valid() && Queue() == Inserted(old(Queue()), old(newTask.AsEntry()))
      ensures forall t :: t in tasks <==> t in old(tasks) || t == newTask
      ensures forall t :: t in tasks ==> t.AsEntry() == old(t.AsEntry())
    {
      ghost var was, q, e := tasks, Queue(), newTask.AsEntry();
      var predecessor, task, i := FindPlace(newTask.start);
      InsertedSorted(q, e);
      Link(newTask, predecessor, task, i);
      EntriesInserted(was, tasks, i, newTask);
      assert Entries(was) == q;
      assert Entries(tasks) == Inserted(q, e);
    }

    /** Queue.unlink: take the head off. */
    method Unlink() returns (task: Task?)
      requires Valid()
      modifies this
      ensures Valid() && tasks == if old(tasks) == [] then [] else old(tasks[1..])
      ensures task == At(old(tasks), 0) && (task != null ==> task !in tasks)
      ensures Queue() == if old(Queue()) == [] then [] else old(Queue())[1..]
    {
      task := first;
      if task != null {
        assert Leads(tasks, 0);
        first := task.next;
        ghost var was := tasks;
        tasks := tasks[1..];
        forall i | 0 <= i < |tasks| ensures Leads(tasks, i) {
          assert Leads(was, i + 1);
        }
      }
    }

    /** Take a task into the queue; it must not be there already.  Only the start of a periodic
        task changes. */
    method EnqueueTask(task: Task, now: time)
      requires Valid() && task !in tasks
      modifies this, tasks, task
      ensures Valid() && Queue() == Enqueued(old(Queue()), old(task.AsEntry()), now)
      ensures forall t :: t in tasks <==> t in old(tasks) || t == task
      ensures forall t :: t in tasks && (t != task || t.period == 0) ==> t.AsEntry() == old(t.AsEntry())
      ensures task.period == old(task.period)
      ensures task.period > 0 ==> task.start == IncreaseByMultipleAbove(old(task.start), task.period, Plus(now, SECOND))
    {
      if task.period != 0 {
        task.Futurify(Plus(now, SECOND));
      }
      InsertTask(task);
    }

    /** A task is set up and enqueued. */
    method Make(call: Call)
      requires Valid() && call.entry.id !in tasks
      modifies this, tasks, call.entry.id
      ensures Valid() && Queue() == Enqueued(old(Queue()), call.entry, call.now)
      ensures forall t :: t in tasks <==> t in old(tasks) || t == call.entry.id
      ensures call.entry.id.period == call.entry.period
      ensures forall t: Task :: old(allocated(t)) && t != call.entry.id ==> t.period == old(t.period)
    {
      var task := call.entry.id;
      task.start, task.period := call.entry.start, call.entry.period;
      EnqueueTask(task, call.now);
    }

    /** The first n calls have been made. */
    ghost predicate Made(was: seq<Task>, q: seq<Entry<Task>>, calls: seq<Call>, n: nat)
      requires n <= |calls|
      reads this, tasks, Callees(calls)
    {
      && Valid() && Queue() == EnqueuedAll(q, calls[..n])
      && (forall i :: 0 <= i < |tasks| ==> tasks[i] in was || tasks[i] in Callees(calls[..n]))
      && forall i :: 0 <= i < n ==> calls[i].entry.id.period == calls[i].entry.period
    }

    /** Call i is made. */
    method MakeNext(calls: seq<Call>, i: nat, ghost was: seq<Task>, ghost q: seq<Entry<Task>>)
      requires i < |calls| && Made(was, q, calls, i) && Distinct(calls)
      requires forall t :: t in Callees(calls) ==> t !in was
      modifies this, tasks, Callees(calls)
      ensures Made(was, q, calls, i + 1)
    {
      NextCall(q, calls, i);
      Make(calls[i]);
    }

    /** A task runs: it makes its calls. */
    method RunTask(calls: seq<Call>)
      requires Valid() && Distinct(calls) && forall t :: t in Callees(calls) ==> t !in tasks
      modifies this, tasks, Callees(calls)
      ensures Made(old(tasks), old(Queue()), calls, |calls|)
    {
      ghost var was, q := tasks, Queue();
      for i := 0 to |calls|
        invariant Made(was, q, calls, i)
      {
        MakeNext(calls, i, was, q);
      }
    }

    /** Put a periodic task back for a later start. */
    method PutBack(task: Task, now: time)
      requires Valid() && (task.period != 0 ==> task !in tasks)
      modifies this, tasks, task
      ensures Valid() && Queue() == Dispatched(old(Queue()), old(task.AsEntry()), now)
      ensures forall t :: t in tasks ==> t in old(tasks) || t == task
      ensures task.period == old(task.period)
      ensures if task.period > 0 then task in tasks && task.start == NextStart(old(task.start), task.period, now)
              else Queue() == old(Queue()) && task.start == old(task.start)
    {
      if task.period != 0 {
        task.start := Plus(task.start, task.period);
        task.Futurify(now);
        InsertTask(task);
      }
    }

    /** Run a task and, if it is periodic, put it back. */
    method Dispatch(task: Task, w: Work)
      requires Valid() && task !in tasks && MayCall(Queue(), task.AsEntry(), w.calls)
      modifies this, tasks, task, Callees(w.calls)
      ensures Valid()
      ensures Queue() == Dispatched(EnqueuedAll(old(Queue()), w.calls), old(task.AsEntry()), w.now)
      ensures forall t :: t in tasks ==> t in old(tasks) || t == task || t in Callees(w.calls)
    {
      RunTask(w.calls);
      assert w.calls[..|w.calls|] == w.calls;
      PutBack(task, w.now);
    }

    /** One iteration of the loop of run. */
    method Iterate(w: Work, ghost mine: set<Task>)
      requires Valid() && MayWork(Queue(), w) && Callees(w.calls) <= mine && forall t :: t in tasks ==> t in mine
      modifies this, mine
      ensures Valid() && Queue() == Iterated(old(Queue()), w)
      ensures forall t :: t in tasks ==> t in mine
    {
      ghost var was := tasks;
      var next := Unlink();
      if next != null {
        assert next == was[0];
        Dispatch(next, w);
      }
    }

    /** The loop of run. */
    method Run(work: seq<Work>)
      requires Valid() && Orderly(Queue(), work)
      modifies this, tasks, Workers(work)
      ensures Valid() && Queue() == IteratedOver(old(Queue()), work)
    {
      ghost var mine := (set t | t in tasks) + Workers(work);
      for i := 0 to |work|
        invariant Valid() && forall t :: t in tasks ==> t in mine
        invariant Queue() == IteratedOver(old(Queue()), work[..i])
      {
        OrderlyAt(old(Queue()), work, i);
        Iterate(work[i], mine);
      }
      assert work[..|work|] == work;
    }
  }

  /** The tasks enqueued in any of the iterations. */
  ghost function Workers(work: seq<Work>): set<Task> {
    set i, j | 0 <= i < |work| && 0 <= j < |work[i].calls| :: work[i].calls[j].entry.id
  }

  /** The queue after these iterations. */
  ghost function IteratedOver(q: seq<Entry<Task>>, work: seq<Work>): seq<Entry<Task>> {
    if work == [] then q else Iterated(IteratedOver(q, work[..|work| - 1]), work[|work| - 1])
  }

  /** In each iteration the task dispatched keeps to the rules. */
  ghost predicate Orderly(q: seq<Entry<Task>>, work: seq<Work>) {
    work == [] ||
    (Orderly(q, work[..|work| - 1]) && MayWork(IteratedOver(q, work[..|work| - 1]), work[|work| - 1]))
  }

  lemma {:induction false} OrderlyAt(q: seq<Entry<Task>>, work: seq<Work>, i: nat)
    requires Orderly(q, work) && i < |work|
    ensures MayWork(IteratedOver(q, work[..i]), work[i])
    ensures IteratedOver(q, work[..i + 1]) == Iterated(IteratedOver(q, work[..i]), work[i])
    ensures Callees(work[i].calls) <= Workers(work)
    decreases |work|
  {
    var (before, last) := (work[..|work| - 1], |work| - 1);
    assert work[..i + 1][..i] == work[..i];
    if i < last {
      assert before[..i] == work[..i] && before[i] == work[i];
      OrderlyAt(q, before, i);
    }
    forall j | 0 <= j < |work[i].calls|
      ensures work[i].calls[j].entry.id in Workers(work)
    {
    }
  }

  // ------------------------------------------------------------------------ the loop as a run

  function Enqueues(calls: seq<Call>): (events: seq<Event<Task>>)
    ensures |events| == |calls|
    ensures forall i :: 0 <= i < |events| ==> events[i] == Enqueue(calls[i].entry, calls[i].now)
  {
    seq(|calls|, i requires 0 <= i < |calls| => Enqueue(calls[i].entry, calls[i].now))
  }

  /** The task starts, makes its calls and finishes. */
  function OneIteration(w: Work): seq<Event<Task>> {
    [Start] + (Enqueues(w.calls) + [Finish(w.now)])
  }

  function Events(work: seq<Work>): seq<Event<Task>> {
    if work == [] then [] else Events(work[..|work| - 1]) + OneIteration(work[|work| - 1])
  }

  lemma AfterOne(events: seq<Event<Task>>, ev: Event<Task>)
    ensures After(events + [ev]) == Step(After(events), ev)
  {
    assert (events + [ev])[..|events|] == events;
  }

  lemma EnqueuesLast(calls: seq<Call>)
    requires calls != []
    ensures var (front, last) := (calls[..|calls| - 1], calls[|calls| - 1]);
            Enqueues(calls) == Enqueues(front) + [Enqueue(last.entry, last.now)]
  {
  }

  lemma {:induction false} AfterCalls(events: seq<Event<Task>>, calls: seq<Call>)
    ensures After(events + Enqueues(calls)) == After(events).(queue := EnqueuedAll(After(events).queue, calls))
  {
    if calls == [] {
      assert events + Enqueues(calls) == events;
    } else {
      var (front, last) := (calls[..|calls| - 1], calls[|calls| - 1]);
      AfterCalls(events, front);
      AfterOne(events + Enqueues(front), Enqueue(last.entry, last.now));
      EnqueuesLast(calls);
      Associative(events, Enqueues(front), [Enqueue(last.entry, last.now)]);
    }
  }

  lemma Associative<T>(a: seq<T>, b: seq<T>, c: seq<T>)
    ensures a + b + c == a + (b + c)
  {
  }

  lemma {:induction false} AfterIteration(events: seq<Event<Task>>, w: Work)
    ensures var s := Step(After(events), Start);
            After(events + OneIteration(w)) == Step(s.(queue := EnqueuedAll(s.queue, w.calls)), Finish(w.now))
  {
    var start := events + [Start];
    AfterOne(events, Start);
    AfterCalls(start, w.calls);
    AfterOne(start + Enqueues(w.calls), Finish(w.now));
    Associative(start, Enqueues(w.calls), [Finish(w.now)]);
    Associative(events, [Start], Enqueues(w.calls) + [Finish(w.now)]);
  }

  /** One iteration dispatches the first task of the queue, if there is one. */
  lemma {:induction false} IterationIsRun(events: seq<Event<Task>>, w: Work)
    requires After(events).running.None? && MayWork(After(events).queue, w)
    ensures var s := After(events + OneIteration(w));
            && s.running.None? && s.queue == Iterated(After(events).queue, w)
            && s.log == After(events).log + if After(events).queue == [] then [] else [After(events).queue[0]]
  {
    AfterIteration(events, w);
  }

  /** The loop is a run: what holds over all runs holds for it. */
  lemma {:induction false} LoopIsRun(events: seq<Event<Task>>, work: seq<Work>)
    requires After(events).running.None? && Orderly(After(events).queue, work)
    ensures var s := After(events + Events(work));
            s.running.None? && s.queue == IteratedOver(After(events).queue, work)
  {
    if work == [] {
      assert events + Events(work) == events;
    } else {
      var (before, w) := (work[..|work| - 1], work[|work| - 1]);
      LoopIsRun(events, before);
      IterationIsRun(events + Events(before), w);
      Associative(events, Events(before), OneIteration(w));
    }
  }
}
