/** The event buffer of the client binding's SubscriberEC. */
module SubscriberBuffer {
  import opened Arithmetic

  type byte = x: nat | x < 0x100

  /** The length of an event is a uint16_t. */
  type payload = d: seq<byte> | |d| < 0x1_0000 witness []

  datatype Event = Event(subject: nat, data: payload)

  /** The bytes of a slot. */
  const CAPACITY: nat := 0x1_0000

  // -------------------------------------------------------- a queue that drops when it is full

  /** The event last handed out, if its slot is still kept, the accepted events not yet handed
      out, and the history of both. */
  datatype Fifo = Fifo(lent: seq<Event>, waiting: seq<Event>, accepted: seq<Event>, delivered: seq<Event>)
  {
    function Size(): nat {
      |lent| + |waiting|
    }
  }

  const EMPTY := Fifo([], [], [], [])

  datatype Call = Cb(event: Event) | Poll

  function Accept(q: Fifo, max: nat, e: Event): Fifo {
    if q.Size() < max then q.(waiting := q.waiting + [e], accepted := q.accepted + [e]) else q
  }

  /** The kept slot is given back; the next event is handed out, if there is one. */
  function Deliver(q: Fifo): Fifo {
    if q.waiting == [] then q.(lent := [])
    else Fifo([q.waiting[0]], q.waiting[1..], q.accepted, q.delivered + [q.waiting[0]])
  }

  function Step(q: Fifo, max: nat, call: Call): Fifo {
    match call
    case Cb(e) => Accept(q, max, e)
    case Poll => Deliver(q)
  }

  function After(max: nat, calls: seq<Call>): Fifo {
    if calls == [] then EMPTY else Step(After(max, calls[..|calls| - 1]), max, calls[|calls| - 1])
  }

  /** Accepted events are delivered in order, each exactly once; an event is kept at most until
      the next poll. */
  lemma {:induction false} InOrderOnce(max: nat, calls: seq<Call>)
    requires max >= 1
    ensures var q := After(max, calls);
            && q.accepted == q.delivered + q.waiting && q.Size() <= max
            && |q.lent| <= 1 && (q.lent != [] ==> q.delivered != [] && q.lent[0] == q.delivered[|q.delivered| - 1])
  {
    if calls != [] {
      InOrderOnce(max, calls[..|calls| - 1]);
    }
  }

  /** An event is accepted, or lost because max events are kept: the one handed out last and
      those not yet handed out. */
  lemma {:induction false} AcceptedOrLost(max: nat, calls: seq<Call>, e: Event)
    requires max >= 1
    ensures var (q, q') := (After(max, calls), After(max, calls + [Cb(e)]));
            if |q.accepted| - |q.delivered| + |q.lent| < max
            then q'.accepted == q.accepted + [e] && q'.delivered == q.delivered && q'.lent == q.lent
            else q' == q
  {
    InOrderOnce(max, calls);
    assert (calls + [Cb(e)])[..|calls|] == calls;
  }

  /** The next accepted event is handed out, if there is one; the one before is no longer kept. */
  lemma {:induction false} DeliveredNext(max: nat, calls: seq<Call>)
    requires max >= 1
    ensures var (q, q') := (After(max, calls), After(max, calls + [Poll]));
            && q'.accepted == q.accepted
            && if |q.delivered| < |q.accepted|
               then q'.delivered == q.accepted[..|q.delivered| + 1] && q'.lent == [q.accepted[|q.delivered|]]
               else q'.delivered == q.delivered && q'.lent == []
  {
    InOrderOnce(max, calls);
    assert (calls + [Poll])[..|calls|] == calls;
  }

  // ------------------------------------------------------------------------- the cyclic buffer

  datatype Storage = Storage(used: nat, subject: nat, len: nat, data: seq<byte>)
  {
    predicate Holds(e: Event) {
      subject == e.subject && len == |e.data| && len <= |data| && data[..len] == e.data
    }
  }

  /** i slots after last, around the end. */
  function Slot(last: nat, i: nat, max: nat): (s: nat)
    requires last < max && i <= max
    ensures s < max
  {
    if last + i < max then last + i else last + i - max
  }

  lemma {:induction false} NextSlot(last: nat, i: nat, max: nat)
    requires last < max && i < max
    ensures (Slot(last, i, max) + 1) % max == Slot(last, i + 1, max)
    ensures Slot((last + 1) % max, i, max) == Slot(last, i + 1, max)
  {
    if last + 1 < max {
      SmallRemainder(last + 1, max);
    } else {
      DivModUnique(max, max, 1, 0);
    }
    var s := Slot(last, i, max);
    if s + 1 < max {
      SmallRemainder(s + 1, max);
    } else {
      DivModUnique(max, max, 1, 0);
    }
  }

  lemma SlotsApart(last: nat, i: nat, j: nat, max: nat)
    requires last < max && i < j < max
    ensures Slot(last, i, max) != Slot(last, j, max)
  {
  }

  /** From last on: the slot handed out, the slots waiting, the free slots. */
  ghost predicate Represents(events: seq<Storage>, first: nat, last: nat, q: Fifo) {
    && |q.lent| <= 1 && q.Size() <= |events| && last < |events|
    && first == Slot(last, q.Size(), |events|)
    && forall i :: 0 <= i < |events| ==> SlotFits(events, last, q, i)
  }

  ghost predicate SlotFits(events: seq<Storage>, last: nat, q: Fifo, i: nat)
    requires last < |events| && i < |events|
  {
    var s := events[Slot(last, i, |events|)];
    && |s.data| == CAPACITY
    && s.used == (if i < |q.lent| then 2 else if i < q.Size() then 1 else 0)
    && (i < q.Size() ==> s.Holds((q.lent + q.waiting)[i]))
  }

  ghost predicate AllUsed(events: seq<Storage>) {
    forall i :: 0 <= i < |events| ==> events[i].used != 0
  }

  /** The event has been put into the free slot i, and nothing else has changed. */
  ghost predicate Stored(was: seq<Storage>, now: seq<Storage>, i: nat, e: Event) {
    && i < |was| == |now| && was[i].used == 0 && now[i].used == 1 && now[i].Holds(e)
    && forall j :: 0 <= j < |was| && j != i ==> now[j] == was[j]
  }

  /** The slot handed out before is free, the one at e, if any, is handed out, and nothing else has
      changed. */
  ghost predicate Passed(was: seq<Storage>, now: seq<Storage>, found: bool, e: nat) {
    && |now| == |was| && (found ==> e < |was| && was[e].used == 1)
    && forall i :: 0 <= i < |was| ==> now[i] == if was[i].used == 2 then was[i].(used := 0)
                                               else if found && i == e then was[i].(used := 2)
                                               else was[i]
  }

  /** Which slot is handed out, and which are in use. */
  lemma {:induction false} LentIsLast(events: seq<Storage>, first: nat, last: nat, q: Fifo)
    requires Represents(events, first, last, q)
    ensures forall s :: 0 <= s < |events| ==> (events[s].used == 2 <==> s == last && q.lent != [])
    ensures q.Size() == 0 ==> forall s :: 0 <= s < |events| ==> events[s].used == 0
  {
    forall s | 0 <= s < |events|
      ensures events[s].used == 2 <==> s == last && q.lent != []
      ensures q.Size() == 0 ==> events[s].used == 0
    {
      var i := Distance(last, s, |events|);
      assert SlotFits(events, last, q, i) && SlotFits(events, last, q, 0);
      if i > 0 {
        SlotsApart(last, 0, i, |events|);
      }
    }
  }

  /** The slots once the event has been put into the one at first. */
  ghost function Filled(events: seq<Storage>, first: nat, e: Event): seq<Storage>
    requires first < |events| && |events[first].data| == CAPACITY
  {
    events[first := Storage(1, e.subject, |e.data|, e.data + events[first].data[|e.data|..])]
  }

  /** Every slot is at some distance from last. */
  lemma Distance(last: nat, s: nat, max: nat) returns (i: nat)
    requires last < max && s < max
    ensures i < max && Slot(last, i, max) == s
  {
    i := if s >= last then s - last else s + max - last;
  }

  /** The slot at first is free unless all are in use. */
  lemma {:induction false} FirstIsFree(events: seq<Storage>, first: nat, last: nat, q: Fifo)
    requires Represents(events, first, last, q)
    ensures first < |events| && |events[first].data| == CAPACITY
    ensures events[first].used == 0 <==> q.Size() < |events|
    ensures AllUsed(events) <==> q.Size() == |events|
  {
    var n := if q.Size() < |events| then q.Size() else 0;
    assert SlotFits(events, last, q, n);
    if q.Size() == |events| {
      forall s | 0 <= s < |events|
        ensures events[s].used != 0
      {
        var i := Distance(last, s, |events|);
        assert SlotFits(events, last, q, i);
      }
    }
  }

  lemma {:induction false} SlotsFilled(events: seq<Storage>, first: nat, last: nat, q: Fifo, e: Event)
    requires Represents(events, first, last, q) && q.Size() < |events|
    requires first < |events| && |events[first].data| == CAPACITY
    ensures Represents(Filled(events, first, e), (first + 1) % |events|, last, Accept(q, |events|, e))
  {
    var (n, max, filled, q') := (q.Size(), |events|, Filled(events, first, e), Accept(q, |events|, e));
    NextSlot(last, n, max);
    forall i | 0 <= i < max
      ensures SlotFits(filled, last, q', i)
    {
      assert SlotFits(events, last, q, i);
      if i < n {
        SlotsApart(last, i, n, max);
      } else if n < i {
        SlotsApart(last, n, i, max);
      }
    }
  }

  /** The slots once the one at last has been given back. */
  ghost function Freed(events: seq<Storage>, last: nat): seq<Storage>
    requires last < |events|
  {
    events[last := events[last].(used := 0)]
  }

  lemma {:induction false} SlotFreed(events: seq<Storage>, last: nat, q: Fifo, i: nat)
    requires |q.lent| == 1 && q.Size() <= |events| && last < |events| && i < |events|
    requires SlotFits(events, last, q, 0)
    requires i + 1 < |events| ==> SlotFits(events, last, q, i + 1)
    ensures SlotFits(Freed(events, last), (last + 1) % |events|, q.(lent := []), i)
  {
    NextSlot(last, i, |events|);
    if i + 1 < |events| {
      SlotsApart(last, 0, i + 1, |events|);
    }
  }

  lemma {:induction false} SlotsFreed(events: seq<Storage>, first: nat, last: nat, q: Fifo)
    requires Represents(events, first, last, q) && q.lent != []
    ensures Represents(Freed(events, last), first, (last + 1) % |events|, q.(lent := []))
  {
    NextSlot(last, q.Size() - 1, |events|);
    var (freed, next, q') := (Freed(events, last), (last + 1) % |events|, q.(lent := []));
    forall i | 0 <= i < |events|
      ensures SlotFits(freed, next, q', i)
    {
      SlotFreed(events, last, q, i);
    }
  }

  class SubscriberEC {
    const events: array<Storage>
    var first: nat
    var last: nat
    ghost var queue: Fifo

    ghost predicate Valid()
      reads this, events
    {
      events.Length >= 1 && Represents(events[..], first, last, queue)
    }

    constructor (count: nat)
      requires count >= 1
      ensures Valid() && queue == EMPTY && events.Length == count && fresh(events)
    {
      first, last := 0, 0;
      events := new Storage[count](_ => Storage(0, 0, 0, seq(CAPACITY, _ => 0)));
      queue := EMPTY;
      new;
      forall i | 0 <= i < events.Length ensures SlotFits(events[..], 0, EMPTY, i) { }
    }

    /** An event arrives: it is stored in a free slot, or lost when no slot is free. */
    method Callback(subject: nat, data: payload)
      requires Valid()
      modifies this, events
      ensures Valid() && queue == Accept(old(queue), events.Length, Event(subject, data))
      ensures !AllUsed(old(events[..])) ==>
                && queue.accepted == old(queue).accepted + [Event(subject, data)]
                && exists i: nat :: Stored(old(events[..]), events[..], i, Event(subject, data))
      ensures AllUsed(old(events[..])) ==> events[..] == old(events[..]) && queue == old(queue)
    {
      ghost var was, e := events[..], Event(subject, data);
      FirstIsFree(was, first, last, queue);
      if events[first].used == 0 {
        SlotsFilled(was, first, last, queue, e);
        assert Stored(was, Filled(was, first, e), first, e);
        var s := events[first];
        events[first] := Storage(1, subject, |data|, data + s.data[|data|..]);
        assert events[..] == Filled(was, first, e);
        first := (first + 1) % events.Length;
        queue := Accept(queue, events.Length, e);
      }
    }

    /** The slot handed out last becomes free. */
    method GiveBack()
      requires Valid() && queue.lent != []
      modifies this, events
      ensures Valid() && queue == old(queue).(lent := [])
      ensures events[..] == Freed(old(events[..]), old(last))
    {
      ghost var was := events[..];
      SlotsFreed(was, first, last, queue);
      events[last] := events[last].(used := 0);
      last := (last + 1) % events.Length;
      queue := queue.(lent := []);
      assert events[..] == Freed(was, old(last));
    }

    /** The oldest waiting event is handed out in its slot. */
    method HandOut()
      requires Valid() && queue.lent == [] && queue.waiting != []
      modifies this`queue, events
      ensures Valid() && queue == Deliver(old(queue))
      ensures events[last].Holds(old(queue).waiting[0]) && old(events[last]).used == 1
      ensures events[..] == old(events[..])[last := old(events[last]).(used := 2)]
    {
      ghost var was, q, max := events[..], queue, events.Length;
      assert SlotFits(was, last, q, 0);
      events[last] := events[last].(used := events[last].used + 1);
      queue := Deliver(q);
      assert queue.lent + queue.waiting == q.lent + q.waiting;
      forall i | 0 <= i < max ensures SlotFits(events[..], last, queue, i) {
        assert SlotFits(was, last, q, i);
        if i > 0 { SlotsApart(last, 0, i, max); }
      }
    }

    /** Give back the event handed out before and hand out the next one; e is its slot. */
    method Poll() returns (found: bool, e: nat)
      requires Valid()
      modifies this, events
      ensures Valid() && queue == Deliver(old(queue))
      ensures found <==> old(queue).waiting != []
      ensures found ==> e < events.Length && events[e].used == 2 && events[e].Holds(old(queue).waiting[0])
      ensures found ==> queue.delivered == old(queue).delivered + [old(queue).waiting[0]]
      ensures Passed(old(events[..]), events[..], found, e)
      ensures !found ==> forall i :: 0 <= i < events.Length ==> events[i].used == 0
    {
      e := 0;
      LentIsLast(events[..], first, last, queue);
      assert SlotFits(events[..], last, queue, 0);
      if events[last].used != 0 {
        if events[last].used == 2 {
          GiveBack();
          LentIsLast(events[..], first, last, queue);
        }
        assert SlotFits(events[..], last, queue, 0);
        if events[last].used == 1 {
          HandOut();
          return true, last;
        }
      }
      return false, 0;
    }
  }
}
