/** SynchronizedBoundedBuffer as threads taking atomic steps. */
module BoundedBuffer {

  datatype Kind = Producer | Consumer

  function Other(k: Kind): Kind {
    if k == Producer then Consumer else Producer
  }

  /** A call: push_front with its item, or pop_back. */
  datatype Call<T> = PushFront(item: T) | PopBack
  {
    function Kind(): Kind {
      if PushFront? then Producer else Consumer
    }
  }

  /** Where a thread stands. */
  datatype Thread<T> =
    | Idle
    | Arriving(call: Call<T>)   // about to lock the mutex
    | Checking(call: Call<T>)   // holds the mutex, about to evaluate the condition
    | Waiting(call: Call<T>)    // gave the mutex back and sleeps on the condition variable
    | Waking(call: Call<T>)     // woken, about to lock the mutex again
    | Changing(call: Call<T>)   // holds the mutex and found the condition true
    | Unlocking(call: Call<T>)  // holds the mutex, the container is changed
    | Notifying(call: Call<T>)  // gave the mutex back, about to notify
  {
    predicate Holds() {
      Checking? || Changing? || Unlocking?
    }

    /** Has made this call, and not changed the container yet. */
    ghost predicate Owes(c: Call<T>) {
      (Arriving? || Checking? || Waiting? || Waking? || Changing?) && call == c
    }

    predicate Waits(k: Kind) {
      Waiting? && call.Kind() == k
    }
  }

  datatype Owner = Nobody | Owned(holder: nat)

  /** The shared object, its threads, and what was pushed and popped so far. */
  datatype State<T> = State(
    capacity: nat,
    container: seq<T>,
    mutex: Owner,
    threads: seq<Thread<T>>,
    pushed: seq<T>,
    popped: seq<T>)
  {
    /** is_not_full for producers, is_not_empty for consumers */
    predicate Ready(k: Kind) {
      Room(k) > 0
    }

    /** How often a caller of this kind could go ahead: free slots, or items. */
    function Room(k: Kind): int {
      if k == Consumer then |container| else capacity - |container|
    }

    function Goto(t: nat, thread: Thread<T>): State<T>
      requires t < |threads|
    {
      this.(threads := threads[t := thread])
    }
  }

  /** An empty buffer, all n threads outside. */
  function Start<T>(capacity: nat, n: nat): State<T> {
    State(capacity, [], Nobody, seq(n, _ => Idle), [], [])
  }

  datatype Action<T> =
    | Enter(t: nat, call: Call<T>)
    | Lock(t: nat)
    | Pass(t: nat)
    | Block(t: nat)
    | Change(t: nat)
    | Unlock(t: nat)
    | NotifyNone(t: nat)
    | NotifyOne(t: nat, woken: nat)
    | Spurious(t: nat)

  predicate Enabled<T>(s: State<T>, a: Action<T>) {
    a.t < |s.threads| &&
    var thread := s.threads[a.t];
    match a
    case Enter(_, _) => thread.Idle?
    case Lock(_) => (thread.Arriving? || thread.Waking?) && s.mutex == Nobody
    case Pass(_) => thread.Checking? && s.Ready(thread.call.Kind())
    case Block(_) => thread.Checking? && !s.Ready(thread.call.Kind())
    case Change(_) => thread.Changing?
    case Unlock(_) => thread.Unlocking?
    case NotifyNone(_) => thread.Notifying? && NoneWaits(s, Other(thread.call.Kind()))
    case NotifyOne(_, woken) =>
      thread.Notifying? && woken < |s.threads| && s.threads[woken].Waits(Other(thread.call.Kind()))
    case Spurious(_) => thread.Waiting?
  }

  predicate NoneWaits<T>(s: State<T>, k: Kind) {
    forall t :: 0 <= t < |s.threads| ==> !s.threads[t].Waits(k)
  }

  /** What changing the container does: push_front, or back and pop_back. */
  function Changed<T>(s: State<T>, call: Call<T>): State<T>
    requires call.PopBack? ==> s.container != []
  {
    match call
    case PushFront(item) => s.(container := [item] + s.container, pushed := s.pushed + [item])
    case PopBack =>
      var last := |s.container| - 1;
      s.(container := s.container[..last], popped := s.popped + [s.container[last]])
  }

  /** back and pop_back are called on a container that is not empty. */
  predicate Defined<T>(s: State<T>, a: Action<T>)
    requires Enabled(s, a)
  {
    a.Change? && s.threads[a.t].call.PopBack? ==> s.container != []
  }

  function Perform<T>(s: State<T>, a: Action<T>): State<T>
    requires Enabled(s, a) && Defined(s, a)
  {
    var thread := s.threads[a.t];
    match a
    case Enter(t, call) => s.Goto(t, Arriving(call))
    case Lock(t) => s.Goto(t, Checking(thread.call)).(mutex := Owned(t))
    case Pass(t) => s.Goto(t, Changing(thread.call))
    case Block(t) => s.Goto(t, Waiting(thread.call)).(mutex := Nobody)
    case Change(t) => Changed(s, thread.call).Goto(t, Unlocking(thread.call))
    case Unlock(t) => s.Goto(t, Notifying(thread.call)).(mutex := Nobody)
    case NotifyNone(t) => s.Goto(t, Idle)
    case NotifyOne(t, woken) => s.Goto(t, Idle).Goto(woken, Waking(s.threads[woken].call))
    case Spurious(t) => s.Goto(t, Waking(thread.call))
  }

  // ------------------------------------------------------------------------ counting threads

  /** What is added up over the threads. */
  datatype Measure = Helpers(kind: Kind) | Work

  function Weight<T>(m: Measure, thread: Thread<T>): nat {
    match m
    // a thread that is awake and will look at the container as a caller of this kind, or that
    // still owes the callers of this kind a notification
    case Helpers(k) =>
      if thread.Waking? || thread.Checking? || thread.Changing? then (if thread.call.Kind() == k then 1 else 0)
      else if thread.Unlocking? || thread.Notifying? then (if thread.call.Kind() == k then 0 else 1)
      else 0
    // more than the steps the thread can take before it wakes another one
    case Work =>
      match thread
      case Idle => 0
      case Arriving(_) => 7
      case Waking(_) => 7
      case Checking(_) => 6
      case Changing(_) => 5
      case Waiting(_) => 5
      case Unlocking(_) => 4
      case Notifying(_) => 3
  }

  function Total<T>(m: Measure, threads: seq<Thread<T>>): nat {
    if threads == [] then 0 else Weight(m, threads[0]) + Total(m, threads[1..])
  }

  lemma {:induction false} TotalUpdate<T>(m: Measure, threads: seq<Thread<T>>, t: nat, thread: Thread<T>)
    requires t < |threads|
    ensures Total(m, threads[t := thread]) == Total(m, threads) - Weight(m, threads[t]) + Weight(m, thread)
  {
    if t > 0 {
      assert threads[t := thread][1..] == threads[1..][t - 1 := thread];
      TotalUpdate(m, threads[1..], t - 1, thread);
    } else {
      assert threads[0 := thread][1..] == threads[1..];
    }
  }

  lemma {:induction false} TotalZero<T>(m: Measure, threads: seq<Thread<T>>)
    requires forall t :: 0 <= t < |threads| ==> Weight(m, threads[t]) == 0
    ensures Total(m, threads) == 0
  {
    if threads != [] {
      TotalZero(m, threads[1..]);
    }
  }

  // --------------------------------------------------------------------------- the invariants

  /** Exactly the owner of the mutex is inside. */
  ghost predicate MutualExclusion<T>(s: State<T>) {
    && (s.mutex.Owned? ==> s.mutex.holder < |s.threads|)
    && forall t :: 0 <= t < |s.threads| ==> (s.threads[t].Holds() <==> s.mutex == Owned(t))
  }

  function Reversed<T>(s: seq<T>): (r: seq<T>)
    ensures |r| == |s|
  {
    if s == [] then [] else Reversed(s[1..]) + [s[0]]
  }

  lemma {:induction false} ReversedLast<T>(s: seq<T>)
    requires s != []
    ensures Reversed(s) == [s[|s| - 1]] + Reversed(s[..|s| - 1])
  {
    if |s| > 1 {
      ReversedLast(s[1..]);
      assert s[1..][..|s| - 2] == s[..|s| - 1][1..];
    }
  }

  /** Never above capacity, and first in, first out. */
  ghost predicate Fifo<T>(s: State<T>) {
    |s.container| <= s.capacity && s.pushed == s.popped + Reversed(s.container)
  }

  /** A thread that found the condition true still finds it true. */
  ghost predicate ConditionHolds<T>(s: State<T>) {
    forall t :: 0 <= t < |s.threads| && s.threads[t].Changing? ==> s.Ready(s.threads[t].call.Kind())
  }

  /** While callers of a kind sleep, there is room for no more of them than there are threads
      awake to use it or to notify them. */
  ghost predicate NoLostWakeup<T>(s: State<T>, k: Kind) {
    NoneWaits(s, k) || s.Room(k) <= Total(Helpers(k), s.threads)
  }

  ghost predicate Inv<T>(s: State<T>) {
    MutualExclusion(s) && Fifo(s) && ConditionHolds(s) && NoLostWakeup(s, Producer) && NoLostWakeup(s, Consumer)
  }

  lemma StartInv<T>(capacity: nat, n: nat)
    ensures Inv(Start<T>(capacity, n))
  {
  }

  lemma {:induction false} MutualExclusionKept<T>(s: State<T>, a: Action<T>)
    requires Inv(s) && Enabled(s, a)
    ensures MutualExclusion(Perform(s, a))
  {
  }

  lemma FifoKept<T>(s: State<T>, a: Action<T>)
    requires Inv(s) && Enabled(s, a)
    ensures Fifo(Perform(s, a))
  {
    if a.Change? {
      match s.threads[a.t].call
      case PushFront(item) => assert ([item] + s.container)[1..] == s.container;
      case PopBack => ReversedLast(s.container);
    }
  }

  lemma ConditionKept<T>(s: State<T>, a: Action<T>)
    requires Inv(s) && Enabled(s, a)
    ensures ConditionHolds(Perform(s, a))
  {
  }

  /** One action's effect on a sum over the threads. */
  lemma {:induction false} TotalAfter<T>(m: Measure, s: State<T>, a: Action<T>)
    requires Inv(s) && Enabled(s, a)
    ensures var (before, s') := (s.threads, Perform(s, a));
            Total(m, s'.threads)
            == Total(m, before) - Weight(m, before[a.t]) + Weight(m, s'.threads[a.t])
               + (if a.NotifyOne? then Weight(m, s'.threads[a.woken]) - Weight(m, before[a.woken]) else 0)
  {
    var s' := Perform(s, a);
    if a.NotifyOne? {
      TotalUpdate(m, s.threads, a.t, Idle);
      TotalUpdate(m, s.threads[a.t := Idle], a.woken, s'.threads[a.woken]);
    } else {
      TotalUpdate(m, s.threads, a.t, s'.threads[a.t]);
    }
  }

  /** Who sleeps after an action slept before, unless the action is going to sleep. */
  lemma SleptBefore<T>(s: State<T>, a: Action<T>, k: Kind)
    requires Enabled(s, a) && Defined(s, a) && !a.Block? && NoneWaits(s, k)
    ensures NoneWaits(Perform(s, a), k)
  {
  }

  lemma {:induction false} WakeupBlock<T>(s: State<T>, a: Action<T>, k: Kind)
    requires Inv(s) && Enabled(s, a) && a.Block?
    ensures NoLostWakeup(Perform(s, a), k)
  {
    var s' := Perform(s, a);
    TotalAfter(Helpers(k), s, a);
    if s.threads[a.t].call.Kind() != k && NoneWaits(s, k) {
      assert NoneWaits(s', k);
    }
  }

  lemma {:induction false} WakeupChange<T>(s: State<T>, a: Action<T>, k: Kind)
    requires Inv(s) && Enabled(s, a) && a.Change?
    ensures NoLostWakeup(Perform(s, a), k)
  {
    TotalAfter(Helpers(k), s, a);
    if NoneWaits(s, k) {
      SleptBefore(s, a, k);
    }
  }

  lemma {:induction false} WakeupNotify<T>(s: State<T>, a: Action<T>, k: Kind)
    requires Inv(s) && Enabled(s, a) && (a.NotifyOne? || a.NotifyNone?)
    ensures NoLostWakeup(Perform(s, a), k)
  {
    TotalAfter(Helpers(k), s, a);
    if NoneWaits(s, k) {
      SleptBefore(s, a, k);
    }
  }

  lemma WakeupKept<T>(s: State<T>, a: Action<T>, k: Kind)
    requires Inv(s) && Enabled(s, a)
    ensures NoLostWakeup(Perform(s, a), k)
  {
    if a.Block? {
      WakeupBlock(s, a, k);
    } else if a.Change? {
      WakeupChange(s, a, k);
    } else if a.NotifyOne? || a.NotifyNone? {
      WakeupNotify(s, a, k);
    } else {
      TotalAfter(Helpers(k), s, a);
      if NoneWaits(s, k) {
        SleptBefore(s, a, k);
      }
    }
  }

  lemma {:induction false} StepInv<T>(s: State<T>, a: Action<T>)
    requires Inv(s) && Enabled(s, a)
    ensures Inv(Perform(s, a))
  {
    MutualExclusionKept(s, a);
    FifoKept(s, a);
    ConditionKept(s, a);
    WakeupKept(s, a, Producer);
    WakeupKept(s, a, Consumer);
  }

  // -------------------------------------------------------------------------------- whole runs

  /** s is what a run of actions leads to, from an empty buffer with all threads idle. */
  ghost predicate Reaches<T(!new)>(capacity: nat, n: nat, run: seq<Action<T>>, s: State<T>) {
    if run == [] then s == Start(capacity, n)
    else
      var last := |run| - 1;
      exists before: State<T> :: Reaches(capacity, n, run[..last], before) && Leads(before, run[last], s)
  }

  ghost predicate Leads<T>(s: State<T>, a: Action<T>, s': State<T>) {
    Enabled(s, a) && Defined(s, a) && s' == Perform(s, a)
  }

  lemma {:induction false} ReachableInv<T(!new)>(capacity: nat, n: nat, run: seq<Action<T>>, s: State<T>)
    requires Reaches(capacity, n, run, s)
    ensures Inv(s) && s.capacity == capacity && |s.threads| == n
    ensures forall a :: Enabled(s, a) ==> Defined(s, a)
  {
    if run == [] {
      StartInv<T>(capacity, n);
    } else {
      var last := |run| - 1;
      var before: State<T> :| Reaches(capacity, n, run[..last], before) && Leads(before, run[last], s);
      ReachableInv(capacity, n, run[..last], before);
      StepInv(before, run[last]);
    }
  }

  /** A prefix of what was pushed has been popped, in order, and never more than the capacity
      is between the two. */
  lemma PoppedIsPrefix<T(!new)>(capacity: nat, n: nat, run: seq<Action<T>>, s: State<T>)
    requires Reaches(capacity, n, run, s)
    ensures s.popped <= s.pushed && |s.pushed| - |s.popped| == |s.container| <= capacity
  {
    ReachableInv(capacity, n, run, s);
  }

  // ---------------------------------------------------------------------- every call has its effect

  /** How often a thread has made this call. */
  ghost function Calls<T>(run: seq<Action<T>>, c: Call<T>): nat {
    if run == [] then 0
    else
      var last := |run| - 1;
      Calls(run[..last], c) + if run[last].Enter? && run[last].call == c then 1 else 0
  }

  /** How many threads have made this call, and not changed the container yet. */
  ghost function Pending<T>(threads: seq<Thread<T>>, c: Call<T>): nat {
    if threads == [] then 0 else (if threads[0].Owes(c) then 1 else 0) + Pending(threads[1..], c)
  }

  lemma {:induction false} PendingUpdate<T>(threads: seq<Thread<T>>, t: nat, thread: Thread<T>, c: Call<T>)
    requires t < |threads|
    ensures Pending(threads[t := thread], c) + (if threads[t].Owes(c) then 1 else 0)
            == Pending(threads, c) + (if thread.Owes(c) then 1 else 0)
  {
    if t > 0 {
      assert threads[t := thread][1..] == threads[1..][t - 1 := thread];
      PendingUpdate(threads[1..], t - 1, thread, c);
    } else {
      assert threads[0 := thread][1..] == threads[1..];
    }
  }

  lemma {:induction false} NonePending<T>(n: nat, c: Call<T>)
    ensures Pending(seq(n, _ => Idle), c) == 0
  {
    if n > 0 {
      var threads: seq<Thread<T>> := seq(n, _ => Idle);
      assert threads[1..] == seq(n - 1, _ => Idle);
      NonePending(n - 1, c);
    }
  }

  /** How often the container was changed by this call. */
  ghost function Done<T>(s: State<T>, c: Call<T>): nat {
    match c
    case PushFront(item) => multiset(s.pushed)[item]
    case PopBack => |s.popped|
  }

  lemma {:induction false} PendingAfter<T>(s: State<T>, a: Action<T>, c: Call<T>)
    requires Inv(s) && Enabled(s, a)
    ensures Pending(Perform(s, a).threads, c) + (if a.Change? && s.threads[a.t].call == c then 1 else 0)
            == Pending(s.threads, c) + (if a.Enter? && a.call == c then 1 else 0)
  {
    var s' := Perform(s, a);
    if a.NotifyOne? {
      PendingUpdate(s.threads, a.t, Idle, c);
      PendingUpdate(s.threads[a.t := Idle], a.woken, s'.threads[a.woken], c);
    } else {
      PendingUpdate(s.threads, a.t, s'.threads[a.t], c);
    }
  }

  lemma {:induction false} DoneAfter<T>(s: State<T>, a: Action<T>, c: Call<T>)
    requires Inv(s) && Enabled(s, a)
    ensures Done(Perform(s, a), c) == Done(s, c) + if a.Change? && s.threads[a.t].call == c then 1 else 0
  {
  }

  /** Over every run, each call that was made has changed the container exactly once or is still
      to change it. */
  lemma {:induction false} CallsDone<T(!new)>(capacity: nat, n: nat, run: seq<Action<T>>, s: State<T>, c: Call<T>)
    requires Reaches(capacity, n, run, s)
    ensures Calls(run, c) == Done(s, c) + Pending(s.threads, c)
  {
    if run == [] {
      NonePending(n, c);
    } else {
      var last := |run| - 1;
      var before: State<T> :| Reaches(capacity, n, run[..last], before) && Leads(before, run[last], s);
      CallsDone(capacity, n, run[..last], before, c);
      ReachableInv(capacity, n, run[..last], before);
      PendingAfter(before, run[last], c);
      DoneAfter(before, run[last], c);
    }
  }

  /** Each item was pushed as often as push_front was called with it, but for the calls under way. */
  lemma ItemsPushed<T(!new)>(capacity: nat, n: nat, run: seq<Action<T>>, s: State<T>, item: T)
    requires Reaches(capacity, n, run, s)
    ensures Calls(run, PushFront(item)) == multiset(s.pushed)[item] + Pending(s.threads, PushFront(item))
  {
    CallsDone(capacity, n, run, s, PushFront(item));
  }

  /** As many items were popped as pop_back was called, but for the calls under way. */
  lemma ItemsPopped<T(!new)>(capacity: nat, n: nat, run: seq<Action<T>>, s: State<T>)
    requires Reaches(capacity, n, run, s)
    ensures Calls(run, PopBack) == |s.popped| + Pending(s.threads, PopBack)
  {
    CallsDone(capacity, n, run, s, PopBack);
  }

  /** All threads are outside or asleep. */
  ghost predicate Quiet<T>(s: State<T>) {
    forall t :: 0 <= t < |s.threads| ==> s.threads[t].Idle? || s.threads[t].Waiting?
  }

  /** Sleeping callers are right to sleep. */
  ghost predicate SleepersRight<T>(s: State<T>) {
    && (NoneWaits(s, Consumer) || s.container == [])
    && (NoneWaits(s, Producer) || |s.container| == s.capacity)
  }

  lemma QuietMeansRight<T(!new)>(capacity: nat, n: nat, run: seq<Action<T>>, s: State<T>)
    requires Reaches(capacity, n, run, s) && Quiet(s)
    ensures SleepersRight(s)
    ensures capacity > 0 ==> NoneWaits(s, Consumer) || NoneWaits(s, Producer)
  {
    ReachableInv(capacity, n, run, s);
    TotalZero(Helpers(Consumer), s.threads);
    TotalZero(Helpers(Producer), s.threads);
  }

  /** Steps that need neither a new call nor a spurious wakeup. */
  predicate Internal<T>(a: Action<T>) {
    !a.Enter? && !a.Spurious?
  }

  /** As long as the buffer is not quiet, some thread can go on. */
  lemma SomeoneMoves<T(!new)>(capacity: nat, n: nat, run: seq<Action<T>>, s: State<T>) returns (a: Action<T>)
    requires Reaches(capacity, n, run, s) && !Quiet(s)
    ensures Enabled(s, a) && Internal(a)
  {
    ReachableInv(capacity, n, run, s);
    if s.mutex.Owned? {
      var t := s.mutex.holder;
      var thread := s.threads[t];
      if thread.Changing? {
        a := Change(t);
      } else if thread.Unlocking? {
        a := Unlock(t);
      } else if s.Ready(thread.call.Kind()) {
        a := Pass(t);
      } else {
        a := Block(t);
      }
    } else {
      var t :| 0 <= t < |s.threads| && !s.threads[t].Idle? && !s.threads[t].Waiting?;
      if !s.threads[t].Notifying? {
        a := Lock(t);
      } else if NoneWaits(s, Other(s.threads[t].call.Kind())) {
        a := NotifyNone(t);
      } else {
        var woken :| 0 <= woken < |s.threads| && s.threads[woken].Waits(Other(s.threads[t].call.Kind()));
        a := NotifyOne(t, woken);
      }
    }
  }

  lemma WorkStep<T>(s: State<T>, a: Action<T>)
    requires Inv(s) && Enabled(s, a) && Internal(a)
    ensures Total(Work, Perform(s, a).threads) < Total(Work, s.threads)
  {
    TotalAfter(Work, s, a);
  }

  /** Every such step uses up work: without new calls and spurious wakeups the buffer becomes quiet. */
  lemma WorkDecreases<T(!new)>(capacity: nat, n: nat, run: seq<Action<T>>, s: State<T>, a: Action<T>)
    requires Reaches(capacity, n, run, s) && Enabled(s, a) && Internal(a)
    ensures Defined(s, a) && Total(Work, Perform(s, a).threads) < Total(Work, s.threads)
  {
    ReachableInv(capacity, n, run, s);
    WorkStep(s, a);
  }

  /** A run and one more action. */
  lemma OneMore<T(!new)>(capacity: nat, n: nat, run: seq<Action<T>>, s: State<T>, a: Action<T>, longer: seq<Action<T>>)
    requires Reaches(capacity, n, run, s) && Enabled(s, a) && Defined(s, a) && longer == run + [a]
    ensures Reaches(capacity, n, longer, Perform(s, a)) && run <= longer && |longer| == |run| + 1 && longer[|run|] == a
  {
    assert longer[..|run|] == run;
    assert Leads(s, a, Perform(s, a));
  }

  /** The thread t makes its call and goes on with it alone. */
  ghost predicate Alone<T(!new)>(run: seq<Action<T>>, t: nat, call: Call<T>, longer: seq<Action<T>>) {
    && |run| < |longer| && run <= longer && longer[|run|] == Enter(t, call)
    && forall i :: |run| < i < |longer| ==> Internal(longer[i]) && longer[i].t == t
  }

  /** The mutex is free, and the thread is here. */
  ghost predicate Stands<T>(s: State<T>, t: nat, thread: Thread<T>, mutex: Owner) {
    t < |s.threads| && s.threads[t] == thread && s.mutex == mutex
  }

  ghost predicate SameHistory<T>(s: State<T>, s': State<T>) {
    s'.pushed == s.pushed && s'.popped == s.popped && s'.container == s.container && s'.capacity == s.capacity
  }

  lemma {:induction false} MoveOn<T(!new)>(capacity: nat, n: nat, run: seq<Action<T>>, s: State<T>, a: Action<T>)
    returns (longer: seq<Action<T>>, s': State<T>)
    requires Reaches(capacity, n, run, s) && Enabled(s, a) && !a.Change?
    ensures Enabled(s, a) && Defined(s, a) && s' == Perform(s, a) && SameHistory(s, s')
    ensures longer == run + [a] && Reaches(capacity, n, longer, s')
  {
    longer, s' := run + [a], Perform(s, a);
    OneMore(capacity, n, run, s, a, longer);
  }

  lemma {:induction false} Locks<T(!new)>(capacity: nat, n: nat, run: seq<Action<T>>, s: State<T>,
                                          t: nat, call: Call<T>)
    returns (longer: seq<Action<T>>, s': State<T>)
    requires Reaches(capacity, n, run, s) && Stands(s, t, Idle, Nobody)
    ensures longer == run + [Enter(t, call), Lock(t)] && Reaches(capacity, n, longer, s')
    ensures Stands(s', t, Checking(call), Owned(t)) && SameHistory(s, s')
    ensures s'.threads == s.threads[t := Checking(call)]
  {
    var run1, s1 := MoveOn(capacity, n, run, s, Enter(t, call));
    longer, s' := MoveOn(capacity, n, run1, s1, Lock(t));
  }

  /** The call finds its condition true. */
  lemma {:induction false} Arrives<T(!new)>(capacity: nat, n: nat, run: seq<Action<T>>, s: State<T>,
                                            t: nat, call: Call<T>)
    returns (longer: seq<Action<T>>, s': State<T>)
    requires Reaches(capacity, n, run, s) && Stands(s, t, Idle, Nobody) && s.Ready(call.Kind())
    ensures Reaches(capacity, n, longer, s') && Alone(run, t, call, longer)
    ensures Stands(s', t, Changing(call), Owned(t)) && SameHistory(s, s')
  {
    var run2, s2 := Locks(capacity, n, run, s, t, call);
    longer, s' := MoveOn(capacity, n, run2, s2, Pass(t));
    TwoMore(run, t, call, Lock(t), Pass(t));
  }

  /** The container has been changed by this call. */
  ghost predicate Effect<T>(s: State<T>, call: Call<T>, s': State<T>) {
    match call
    case PushFront(item) => s'.pushed == s.pushed + [item] && s'.popped == s.popped
    case PopBack => s'.pushed == s.pushed && |s'.popped| == |s.popped| + 1
  }

  lemma {:induction false} Changes<T(!new)>(capacity: nat, n: nat, run: seq<Action<T>>, s: State<T>,
                                            t: nat, call: Call<T>)
    returns (longer: seq<Action<T>>, s': State<T>)
    requires Reaches(capacity, n, run, s) && Stands(s, t, Changing(call), Owned(t))
    ensures longer == run + [Change(t)] && Reaches(capacity, n, longer, s')
    ensures Stands(s', t, Unlocking(call), Owned(t)) && Effect(s, call, s')
  {
    ReachableInv(capacity, n, run, s);
    longer, s' := run + [Change(t)], Perform(s, Change(t));
    OneMore(capacity, n, run, s, Change(t), longer);
  }

  lemma {:induction false} Unlocks<T(!new)>(capacity: nat, n: nat, run: seq<Action<T>>, s: State<T>,
                                            t: nat, call: Call<T>)
    returns (longer: seq<Action<T>>, s': State<T>)
    requires Reaches(capacity, n, run, s) && Stands(s, t, Unlocking(call), Owned(t))
    ensures longer == run + [Unlock(t)] && Reaches(capacity, n, longer, s')
    ensures Stands(s', t, Notifying(call), Nobody) && SameHistory(s, s')
  {
    longer, s' := MoveOn(capacity, n, run, s, Unlock(t));
  }

  lemma {:induction false} Notifies<T(!new)>(capacity: nat, n: nat, run: seq<Action<T>>, s: State<T>,
                                             t: nat, call: Call<T>)
    returns (a: Action<T>, longer: seq<Action<T>>, s': State<T>)
    requires Reaches(capacity, n, run, s) && Stands(s, t, Notifying(call), Nobody)
    ensures Internal(a) && a.t == t && longer == run + [a] && Reaches(capacity, n, longer, s')
    ensures Stands(s', t, Idle, Nobody) && SameHistory(s, s')
  {
    if NoneWaits(s, Other(call.Kind())) {
      a := NotifyNone(t);
    } else {
      var woken :| 0 <= woken < |s.threads| && s.threads[woken].Waits(Other(call.Kind()));
      a := NotifyOne(t, woken);
    }
    longer, s' := MoveOn(capacity, n, run, s, a);
  }

  /** Steps of this thread that do not begin a call. */
  ghost predicate Own<T(!new)>(more: seq<Action<T>>, t: nat) {
    forall i :: 0 <= i < |more| ==> Internal(more[i]) && more[i].t == t
  }

  lemma {:induction false} AloneMore<T(!new)>(run: seq<Action<T>>, t: nat, call: Call<T>, longer: seq<Action<T>>,
                                              more: seq<Action<T>>)
    requires Alone(run, t, call, longer) && Own(more, t)
    ensures Alone(run, t, call, longer + more)
  {
  }

  lemma {:induction false} ThreeMore<T(!new)>(run: seq<Action<T>>, a: Action<T>, b: Action<T>, c: Action<T>)
    requires a.t == b.t == c.t && Internal(a) && Internal(b) && Internal(c)
    ensures run + [a] + [b] + [c] == run + [a, b, c] && Own([a, b, c], a.t)
  {
  }

  /** The call changes the container and returns. */
  lemma {:induction false} Returns<T(!new)>(capacity: nat, n: nat, run: seq<Action<T>>, s: State<T>,
                                            t: nat, call: Call<T>)
    returns (more: seq<Action<T>>, longer: seq<Action<T>>, s': State<T>)
    requires Reaches(capacity, n, run, s) && Stands(s, t, Changing(call), Owned(t))
    ensures longer == run + more && Reaches(capacity, n, longer, s')
    ensures Own(more, t)
    ensures Stands(s', t, Idle, Nobody) && Effect(s, call, s')
  {
    var run1, s1 := Changes(capacity, n, run, s, t, call);
    var run2, s2 := Unlocks(capacity, n, run1, s1, t, call);
    var a;
    a, longer, s' := Notifies(capacity, n, run2, s2, t, call);
    more := [Change(t), Unlock(t), a];
    ThreeMore(run, Change(t), Unlock(t), a);
  }

  lemma QuietIsFree<T>(s: State<T>)
    requires Quiet(s) && MutualExclusion(s)
    ensures s.mutex == Nobody
  {
  }

  /** A call that need not wait returns: its item is pushed, or the oldest item popped, and
      nothing else. */
  lemma {:induction false} CallReturns<T(!new)>(capacity: nat, n: nat, run: seq<Action<T>>, s: State<T>, t: nat,
                                                call: Call<T>)
    returns (longer: seq<Action<T>>, s': State<T>)
    requires Reaches(capacity, n, run, s) && Quiet(s) && t < |s.threads| && s.threads[t].Idle?
    requires if call.PushFront? then |s.pushed| - |s.popped| < capacity else |s.popped| < |s.pushed|
    ensures Reaches(capacity, n, longer, s') && Alone(run, t, call, longer) && s'.threads[t].Idle?
    ensures match call
            case PushFront(item) => s'.pushed == s.pushed + [item] && s'.popped == s.popped
            case PopBack => s'.pushed == s.pushed && s'.popped == s.pushed[..|s.popped| + 1]
  {
    ReachableInv(capacity, n, run, s);
    QuietIsFree(s);
    var run1, s1 := Arrives(capacity, n, run, s, t, call);
    var more;
    more, longer, s' := Returns(capacity, n, run1, s1, t, call);
    AloneMore(run, t, call, run1, more);
    PoppedIsPrefix(capacity, n, longer, s');
  }

  lemma {:induction false} TwoMore<T(!new)>(run: seq<Action<T>>, t: nat, call: Call<T>, b: Action<T>, c: Action<T>)
    requires b.t == c.t == t && Internal(b) && Internal(c)
    ensures Alone(run, t, call, run + [Enter(t, call), b] + [c])
  {
  }

  lemma {:induction false} Sleeps<T(!new)>(capacity: nat, n: nat, run: seq<Action<T>>, s: State<T>, t: nat,
                                           call: Call<T>)
    returns (longer: seq<Action<T>>, s': State<T>)
    requires Reaches(capacity, n, run, s) && Stands(s, t, Checking(call), Owned(t)) && !s.Ready(call.Kind())
    ensures longer == run + [Block(t)] && Reaches(capacity, n, longer, s')
    ensures Stands(s', t, Waiting(call), Nobody) && SameHistory(s, s') && s'.threads == s.threads[t := Waiting(call)]
  {
    longer, s' := MoveOn(capacity, n, run, s, Block(t));
  }

  /** A call that has to wait goes to sleep, and may wake up at any time. */
  lemma {:induction false} CallWaits<T(!new)>(capacity: nat, n: nat, run: seq<Action<T>>, s: State<T>, t: nat,
                                              call: Call<T>)
    returns (longer: seq<Action<T>>, s': State<T>)
    requires Reaches(capacity, n, run, s) && Quiet(s) && t < |s.threads| && s.threads[t].Idle?
    requires if call.PushFront? then |s.pushed| - |s.popped| == capacity else s.popped == s.pushed
    ensures Reaches(capacity, n, longer, s') && Alone(run, t, call, longer) && s'.threads[t] == Waiting(call)
    ensures SameHistory(s, s') && Quiet(s') && Enabled(s', Spurious(t))
  {
    ReachableInv(capacity, n, run, s);
    PoppedIsPrefix(capacity, n, run, s);
    QuietIsFree(s);
    var run2, s2 := Locks(capacity, n, run, s, t, call);
    longer, s' := Sleeps(capacity, n, run2, s2, t, call);
    TwoMore(run, t, call, Lock(t), Block(t));
  }

  /** The longer run goes on with internal steps only. */
  ghost predicate Continues<T(!new)>(run: seq<Action<T>>, longer: seq<Action<T>>) {
    run <= longer && forall i :: |run| <= i < |longer| ==> Internal(longer[i])
  }

  /** From every reachable state internal steps lead to a state in which every sleeper is right
      to sleep. */
  lemma {:induction false} BecomesQuiet<T(!new)>(capacity: nat, n: nat, run: seq<Action<T>>, s: State<T>)
    returns (longer: seq<Action<T>>, s': State<T>)
    requires Reaches(capacity, n, run, s)
    ensures Reaches(capacity, n, longer, s') && Continues(run, longer)
    ensures |longer| - |run| <= Total(Work, s.threads)
    ensures Quiet(s') && SleepersRight(s')
    decreases Total(Work, s.threads)
  {
    if Quiet(s) {
      longer, s' := run, s;
      QuietMeansRight(capacity, n, run, s);
    } else {
      var a := SomeoneMoves(capacity, n, run, s);
      WorkDecreases(capacity, n, run, s, a);
      var next := run + [a];
      OneMore(capacity, n, run, s, a, next);
      longer, s' := BecomesQuiet(capacity, n, next, Perform(s, a));
      ContinuesLonger(run, next, longer, a);
    }
  }

  lemma ContinuesLonger<T(!new)>(run: seq<Action<T>>, next: seq<Action<T>>, longer: seq<Action<T>>, a: Action<T>)
    requires run <= next && |next| == |run| + 1 && next[|run|] == a && Internal(a) && Continues(next, longer)
    ensures Continues(run, longer)
  {
  }
}
