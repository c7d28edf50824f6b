/**
 The event queue of kernel/events/event.c: a ring of 64 slots that `event_pust` fills without checking
 whether it is full. The lemmas give the exact lossy semantics over whole runs.
 */
module EventRing {
  import opened Bytes

  const QUEUE_SIZE := 64

  datatype Event = Event(kind: Word, data1: Word, data2: Word)

  /** Everything pushed since `event_init`, and for each successful poll the index of the event it delivered. */
  datatype Log = Log(pushed: seq<Event>, delivered: seq<nat>) {
    /** Pushes minus successful polls. */
    function Outstanding(): int { |pushed| - |delivered| }

    /** How many events the ring shows. */
    function Shown(): nat { Outstanding() % QUEUE_SIZE }
  }

  /** The events still to be polled: the last (P - Q) mod 64 pushed ones. */
  ghost function Visible(log: Log): seq<Event>
    requires log.Shown() <= |log.pushed|
  {
    log.pushed[|log.pushed| - log.Shown()..]
  }

  datatype Op = Push(event: Event) | Poll

  ghost function Step(log: Log, op: Op): Log
    requires log.Shown() <= |log.pushed|
  {
    match op
    case Push(event) => Log(log.pushed + [event], log.delivered)
    case Poll => if log.Shown() == 0 then log else Log(log.pushed, log.delivered + [|log.pushed| - log.Shown()])
  }

  // ---------------------------------------------------------------- every run

  /** The number of pushes that filled the ring up and thereby dropped its 64 events. */
  ghost function Overruns(log: Log): int {
    log.Outstanding() / QUEUE_SIZE
  }

  /** Delivery `q` is already behind the visible queue, and was late by a whole number of lost rounds. */
  ghost predicate InStep(log: Log, q: nat)
    requires q < |log.delivered|
  {
    var d := log.delivered[q];
    q <= d < |log.pushed| - log.Shown() && (d - q) % QUEUE_SIZE == 0 && d - q <= QUEUE_SIZE * Overruns(log)
  }

  /** Losses never shrink between two deliveries. */
  ghost predicate NoCatchUp(log: Log, p: nat, q: nat)
    requires p < |log.delivered| && q < |log.delivered|
  {
    log.delivered[p] - p <= log.delivered[q] - q
  }

  /** What every run keeps. */
  ghost predicate LogOk(log: Log) {
    && log.Outstanding() >= 0
    && (forall q: nat {:trigger InStep(log, q)} | q < |log.delivered| :: InStep(log, q))
    && (forall p: nat, q: nat {:trigger NoCatchUp(log, p, q)} | p < q < |log.delivered| :: NoCatchUp(log, p, q))
  }

  lemma Around(x: nat)
    ensures x == QUEUE_SIZE * (x / QUEUE_SIZE) + x % QUEUE_SIZE
    ensures x % QUEUE_SIZE != 0 ==> (x - 1) / QUEUE_SIZE == x / QUEUE_SIZE && (x - 1) % QUEUE_SIZE == x % QUEUE_SIZE - 1
    ensures (x + 1) % QUEUE_SIZE == (if x % QUEUE_SIZE == QUEUE_SIZE - 1 then 0 else x % QUEUE_SIZE + 1)
    ensures (x + 1) / QUEUE_SIZE == x / QUEUE_SIZE + (if x % QUEUE_SIZE == QUEUE_SIZE - 1 then 1 else 0)
    ensures QUEUE_SIZE * (x / QUEUE_SIZE) % QUEUE_SIZE == 0
  {
  }

  lemma PushOk(log: Log, event: Event)
    requires LogOk(log)
    ensures LogOk(Step(log, Push(event))) && Overruns(log) <= Overruns(Step(log, Push(event)))
  {
    var log', x := Step(log, Push(event)), log.Outstanding();
    Around(x);
    assert log'.Outstanding() == x + 1;
    assert |log'.pushed| - log'.Shown() >= |log.pushed| - log.Shown();
    assert forall q: nat {:trigger InStep(log', q)} | q < |log'.delivered| :: InStep(log, q);
    assert forall p: nat, q: nat {:trigger NoCatchUp(log', p, q)} | p < q < |log'.delivered| :: NoCatchUp(log, p, q);
  }

  lemma PollOk(log: Log)
    requires LogOk(log)
    ensures LogOk(Step(log, Poll)) && Overruns(log) == Overruns(Step(log, Poll))
  {
    var log', x := Step(log, Poll), log.Outstanding();
    Around(x);
    if log.Shown() != 0 {
      var q := |log.delivered|;
      assert log'.Outstanding() == x - 1 && log'.Shown() == log.Shown() - 1;
      assert log'.delivered[q] - q == QUEUE_SIZE * Overruns(log);
      forall p: nat {:trigger InStep(log', p)} | p < |log'.delivered| ensures InStep(log', p) {
        if p < q { assert InStep(log, p); }
      }
      forall p: nat, k: nat {:trigger NoCatchUp(log', p, k)} | p < k < |log'.delivered| ensures NoCatchUp(log', p, k) {
        if k < q { assert NoCatchUp(log, p, k); } else { assert InStep(log, p); }
      }
    }
  }

  lemma StepOk(log: Log, op: Op)
    requires LogOk(log)
    ensures LogOk(Step(log, op)) && Overruns(log) <= Overruns(Step(log, op))
  {
    match op
    case Push(event) => PushOk(log, event);
    case Poll => PollOk(log);
  }

  /** The log after going on with `ops`. */
  ghost function Continue(log: Log, ops: seq<Op>): (after: Log)
    requires LogOk(log)
    ensures LogOk(after)
  {
    if ops == [] then log
    else
      var before := Continue(log, ops[..|ops| - 1]);
      StepOk(before, ops[|ops| - 1]);
      Step(before, ops[|ops| - 1])
  }

  ghost function Run(ops: seq<Op>): (log: Log)
    ensures LogOk(log)
  {
    Continue(Log([], []), ops)
  }

  /** Over any run the delivered events are a strictly increasing subsequence of the pushed ones, with gaps of 64. */
  lemma DeliveredIncreasing(ops: seq<Op>, p: nat, q: nat)
    requires p < q < |Run(ops).delivered|
    ensures Run(ops).delivered[p] < Run(ops).delivered[q] < |Run(ops).pushed|
    ensures (Run(ops).delivered[q] - Run(ops).delivered[p] - (q - p)) % 64 == 0
  {
    var log := Run(ops);
    assert InStep(log, p) && InStep(log, q) && NoCatchUp(log, p, q);
    MultiplesDiffer(log.delivered[p] - p, log.delivered[q] - q);
  }

  lemma MultiplesDiffer(a: int, b: int)
    requires a % QUEUE_SIZE == 0 && b % QUEUE_SIZE == 0
    ensures (b - a) % QUEUE_SIZE == 0
  {
  }

  /** Counting back from the last push and counting on from the head lead to the same slot. */
  lemma SameSlot(p: nat, q: nat, j: nat)
    requires q <= p && j < (p - q) % QUEUE_SIZE
    ensures (p - (p - q) % QUEUE_SIZE + j) % QUEUE_SIZE == (q % QUEUE_SIZE + j) % QUEUE_SIZE
  {
  }

  lemma SlotDistance(p: nat, q: nat)
    ensures (p % QUEUE_SIZE - q % QUEUE_SIZE) % QUEUE_SIZE == (p - q) % QUEUE_SIZE
    ensures p % QUEUE_SIZE == q % QUEUE_SIZE <==> (p - q) % QUEUE_SIZE == 0
  {
  }

  lemma SlotsDiffer(k: nat, n: nat)
    requires n - QUEUE_SIZE < k < n
    ensures k % QUEUE_SIZE != n % QUEUE_SIZE
  {
  }

  /** A poll succeeds exactly if the number of outstanding events is no multiple of 64. */
  lemma PollSucceedsIff(ops: seq<Op>)
    ensures Step(Run(ops), Poll) != Run(ops) <==> (|Run(ops).pushed| - |Run(ops).delivered|) % 64 != 0
  {
  }

  /** It then delivers the oldest undelivered event exactly when fewer than 64 are outstanding. */
  lemma PollIsFifoIff(ops: seq<Op>)
    requires (|Run(ops).pushed| - |Run(ops).delivered|) % 64 != 0
    ensures var log := Run(ops);
      Step(log, Poll).delivered
      == log.delivered + [|log.delivered| + 64 * ((|log.pushed| - |log.delivered|) / 64)]
    ensures var log := Run(ops);
      Step(log, Poll).delivered[|log.delivered|] == |log.delivered| <==> |log.pushed| - |log.delivered| < 64
  {
  }

  lemma NothingLostStep(log: Log, op: Op)
    requires LogOk(log) && log.Outstanding() < QUEUE_SIZE && Step(log, op).Outstanding() < QUEUE_SIZE
    requires forall q | 0 <= q < |log.delivered| :: log.delivered[q] == q
    ensures LogOk(Step(log, op))
    ensures forall q | 0 <= q < |Step(log, op).delivered| :: Step(log, op).delivered[q] == q
    ensures Visible(Step(log, op)) == Step(log, op).pushed[|Step(log, op).delivered|..]
  {
    StepOk(log, op);
    assert log.Shown() == log.Outstanding();
    assert Step(log, op).Shown() == Step(log, op).Outstanding();
  }

  /** Nothing is lost or reordered in a run that never has more than 63 events outstanding. */
  lemma {:induction false} NothingLost(ops: seq<Op>)
    requires forall k | 0 <= k <= |ops| :: |Run(ops[..k]).pushed| - |Run(ops[..k]).delivered| < 64
    ensures forall q | 0 <= q < |Run(ops).delivered| :: Run(ops).delivered[q] == q
    ensures Visible(Run(ops)) == Run(ops).pushed[|Run(ops).delivered|..]
  {
    assert ops[..|ops|] == ops;
    if ops != [] {
      var ops' := ops[..|ops| - 1];
      assert forall k | 0 <= k <= |ops'| :: ops'[..k] == ops[..k];
      NothingLost(ops');
      assert Run(ops[..|ops'|]).Outstanding() < 64;
      Around(Run(ops').Outstanding());
      NothingLostStep(Run(ops'), ops[|ops| - 1]);
    }
  }

  // ---------------------------------------------------------------- what an overrun loses

  /** The index of the next event a poll would deliver. */
  ghost function Front(log: Log): int {
    |log.pushed| - log.Shown()
  }

  lemma StepForward(log: Log, op: Op)
    requires LogOk(log)
    ensures Front(log) <= Front(Step(log, op)) && |log.pushed| <= |Step(log, op).pushed|
    ensures Step(log, op).delivered == log.delivered || Step(log, op).delivered == log.delivered + [Front(log)]
  {
    Around(log.Outstanding());
    if op.Push? {
      assert Step(log, op).Outstanding() == log.Outstanding() + 1;
    } else if log.Shown() != 0 {
      assert Step(log, op).Outstanding() == log.Outstanding() - 1;
    }
  }

  /** Whatever follows, an event before the front that was not delivered never is. */
  lemma {:induction false} NothingBehindFront(log: Log, ops: seq<Op>, k: nat)
    requires LogOk(log) && k < Front(log) && k !in log.delivered
    ensures k !in Continue(log, ops).delivered && k < Front(Continue(log, ops))
  {
    if ops != [] {
      NothingBehindFront(log, ops[..|ops| - 1], k);
      StepForward(Continue(log, ops[..|ops| - 1]), ops[|ops| - 1]);
    }
  }

  ghost function Pushes(events: seq<Event>): seq<Op> {
    seq(|events|, i requires 0 <= i < |events| => Push(events[i]))
  }

  ghost function Polls(n: nat): seq<Op> {
    seq(n, i => Poll)
  }

  lemma {:induction false} PushAll(log: Log, events: seq<Event>)
    requires LogOk(log)
    ensures Continue(log, Pushes(events)) == Log(log.pushed + events, log.delivered)
    decreases |events|
  {
    if events == [] {
      assert log.pushed + events == log.pushed;
    } else {
      var es := events[..|events| - 1];
      PushAll(log, es);
      assert Pushes(events)[..|events| - 1] == Pushes(es);
      assert log.pushed + events == log.pushed + es + [events[|events| - 1]];
    }
  }

  /** As many polls as there are visible events deliver them in order. */
  lemma {:induction false} PollAll(log: Log, n: nat)
    requires LogOk(log) && n <= log.Shown()
    ensures Continue(log, Polls(n)) == Log(log.pushed, log.delivered + seq(n, i => Front(log) + i))
  {
    if n > 0 {
      PollAll(log, n - 1);
      PollOnce(log, n - 1);
      assert Polls(n)[..n - 1] == Polls(n - 1);
      assert seq(n, i => Front(log) + i) == seq(n - 1, i => Front(log) + i) + [Front(log) + n - 1];
    }
  }

  lemma PollOnce(log: Log, n: nat)
    requires LogOk(log) && n < log.Shown()
    ensures var t := Log(log.pushed, log.delivered + seq(n, i => Front(log) + i));
      t.Shown() == log.Shown() - n && t.Shown() <= |t.pushed|
      && Step(t, Poll) == Log(t.pushed, t.delivered + [Front(log) + n])
  {
    SubtractShown(log.Outstanding(), n);
  }

  lemma SubtractShown(x: nat, n: nat)
    requires n <= x % QUEUE_SIZE
    ensures (x - n) % QUEUE_SIZE == x % QUEUE_SIZE - n
  {
  }

  /** An event still to be delivered has a continuation that delivers it exactly if it is not behind the front. */
  lemma DeliverableIff(log: Log, k: nat)
    requires LogOk(log) && k < |log.pushed| && k !in log.delivered
    ensures (exists ops :: k in Continue(log, ops).delivered) <==> k >= Front(log)
  {
    if k >= Front(log) {
      var n := k - Front(log) + 1;
      PollAll(log, n);
      assert k == (log.delivered + seq(n, i => Front(log) + i))[|log.delivered| + n - 1];
    } else {
      forall ops ensures k !in Continue(log, ops).delivered {
        NothingBehindFront(log, ops, k);
      }
    }
  }

  /** The push that makes the ring full loses itself and the 63 events before it for good. */
  lemma OverrunLosesRound(log: Log, event: Event, ops: seq<Op>, k: nat)
    requires LogOk(log) && (|log.pushed| - |log.delivered|) % 64 == 63 && |log.pushed| - 63 <= k <= |log.pushed|
    ensures LogOk(Step(log, Push(event))) && k !in Continue(Step(log, Push(event)), ops).delivered
  {
    PushOk(log, event);
    Around(log.Outstanding());
    var full := Step(log, Push(event));
    assert full.Outstanding() == log.Outstanding() + 1;
    forall q: nat | q < |log.delivered| ensures log.delivered[q] < k {
      assert InStep(log, q);
    }
    NothingBehindFront(full, ops, k);
  }

  /** The events delivered so far, in the order of delivery. */
  ghost function Received(log: Log): seq<Event>
    requires LogOk(log)
  {
    seq(|log.delivered|, q requires 0 <= q < |log.delivered| => (assert InStep(log, q); log.pushed[log.delivered[q]]))
  }

  lemma ReceivedGrows(log: Log, after: Log, events: seq<Event>)
    requires LogOk(log) && LogOk(after)
    requires after == Log(log.pushed + events, log.delivered + seq(|events|, i => |log.pushed| + i))
    ensures Received(after) == Received(log) + events
  {
    forall q | 0 <= q < |log.delivered| ensures Received(after)[q] == Received(log)[q] {
      assert InStep(log, q);
    }
  }

  lemma Bursts(x: nat, n: nat)
    requires x % 64 == 0 && n < 64
    ensures (x + n) % 64 == n && (x + 64) % 64 == 0 && (x + 65) % 64 == 1
  {
  }

  lemma BurstPolled(log: Log, full: Log, n: nat)
    requires LogOk(log) && LogOk(full) && (|log.pushed| - |log.delivered|) % 64 == 0 && n < 64
    requires |full.pushed| == |log.pushed| + n && full.delivered == log.delivered
    ensures Continue(full, Polls(n)) == Log(full.pushed, log.delivered + seq(n, i => |log.pushed| + i))
  {
    Bursts(log.Outstanding(), n);
    assert full.Shown() == n && Front(full) == |log.pushed|;
    PollAll(full, n);
    assert seq(n, i => Front(full) + i) == seq(n, i => |log.pushed| + i);
  }

  /** A burst of up to 63 events into a ring that shows none is delivered whole and in order. */
  lemma BurstArrives(log: Log, events: seq<Event>)
    requires LogOk(log) && (|log.pushed| - |log.delivered|) % 64 == 0 && |events| < 64
    ensures var after := Continue(Continue(log, Pushes(events)), Polls(|events|));
      && after.delivered == log.delivered + seq(|events|, i => |log.pushed| + i)
      && Received(after) == Received(log) + events
  {
    var full := Continue(log, Pushes(events));
    PushAll(log, events);
    BurstPolled(log, full, |events|);
    ReceivedGrows(log, Continue(full, Polls(|events|)), events);
  }

  lemma PollOfFull(full: Log, event: Event)
    requires LogOk(full) && full.Shown() == 0
    ensures Step(full, Poll) == full && LogOk(Step(full, Push(event)))
    ensures Step(Step(full, Push(event)), Poll).delivered == full.delivered + [|full.pushed|]
  {
    PushOk(full, event);
    Bursts(full.Outstanding(), 1);
    assert Step(full, Push(event)).Outstanding() == full.Outstanding() + 1;
  }

  lemma FullShowsNothing(log: Log, full: Log, events: seq<Event>)
    requires (|log.pushed| - |log.delivered|) % 64 == 0 && LogOk(log) && |events| == 64
    requires full == Log(log.pushed + events, log.delivered)
    ensures full.Shown() == 0
  {
    Bursts(log.Outstanding(), 0);
  }

  /** A burst of 64 shows nothing, so a poll delivers nothing; the 65th event is then the first delivered. */
  lemma BurstOf64IsLost(log: Log, events: seq<Event>, event: Event)
    requires LogOk(log) && (|log.pushed| - |log.delivered|) % 64 == 0 && |events| == 64
    ensures Step(Continue(log, Pushes(events)), Poll) == Continue(log, Pushes(events))
    ensures LogOk(Step(Continue(log, Pushes(events)), Push(event)))
    ensures Step(Step(Continue(log, Pushes(events)), Push(event)), Poll).delivered
      == log.delivered + [|log.pushed| + 64]
  {
    PushAll(log, events);
    var full := Continue(log, Pushes(events));
    FullShowsNothing(log, full, events);
    PollOfFull(full, event);
  }

  // ---------------------------------------------------------------- the visible queue

  /** What is visible, in numbers. */
  lemma VisibleIs(log: Log)
    requires LogOk(log)
    ensures Visible(log) == log.pushed[|log.pushed| - (|log.pushed| - |log.delivered|) % 64..]
  {
  }

  /** What a push does to the visible queue; the one that makes 64 events outstanding empties it. */
  lemma VisiblePush(log: Log, event: Event)
    requires LogOk(log)
    ensures LogOk(Step(log, Push(event)))
    ensures Visible(Step(log, Push(event)))
      == if (|log.pushed| - |log.delivered|) % 64 == 63 then [] else Visible(log) + [event]
  {
    PushOk(log, event);
    Around(log.Outstanding());
    assert Step(log, Push(event)).Outstanding() == log.Outstanding() + 1;
  }

  /** What a poll does to it: the first visible event is delivered and leaves. */
  lemma VisiblePoll(log: Log)
    requires LogOk(log) && log.Shown() != 0
    ensures LogOk(Step(log, Poll)) && Visible(Step(log, Poll)) == Visible(log)[1..]
    ensures Step(log, Poll).delivered[..|log.delivered|] == log.delivered
    ensures Visible(log)[0] == log.pushed[Step(log, Poll).delivered[|log.delivered|]]
  {
    PollOk(log);
    Around(log.Outstanding());
    assert Step(log, Poll).Outstanding() == log.Outstanding() - 1;
  }

  // ---------------------------------------------------------------- the ring itself

  /** The slot of push number `k` still holds it. */
  ghost predicate SlotHolds(queue: seq<Event>, pushed: seq<Event>, k: nat)
    requires |queue| == QUEUE_SIZE && k < |pushed|
  {
    queue[k % QUEUE_SIZE] == pushed[k]
  }

  class EventQueue {
    const queue: array<Event>
    var head: int
    var tail: int
    ghost var log: Log

    /** The events from `head` up to `tail`, going round the ring. */
    ghost function Contents(): seq<Event>
      requires queue.Length == QUEUE_SIZE
      reads this, queue
    {
      seq((tail - head) % QUEUE_SIZE, j requires 0 <= j reads this, queue => queue[(head + j) % QUEUE_SIZE])
    }

    ghost predicate Valid()
      reads this, queue
    {
      && queue.Length == QUEUE_SIZE && LogOk(log)
      && 0 <= head < QUEUE_SIZE && 0 <= tail < QUEUE_SIZE
      && tail == |log.pushed| % QUEUE_SIZE && head == |log.delivered| % QUEUE_SIZE
      && forall k: nat {:trigger SlotHolds(queue[..], log.pushed, k)} | |log.pushed| - QUEUE_SIZE <= k < |log.pushed| ::
        SlotHolds(queue[..], log.pushed, k)
    }

    constructor (blank: Event)
      ensures Valid() && log == Log([], []) && fresh(queue)
    {
      queue := new Event[QUEUE_SIZE](_ => blank);
      head := 0;
      tail := 0;
      log := Log([], []);
    }

    /** What lies between `head` and `tail` is the closed form. */
    lemma ContentsAreVisible()
      requires Valid()
      ensures Contents() == log.pushed[|log.pushed| - (|log.pushed| - |log.delivered|) % 64..] == Visible(log)
    {
      VisibleIs(log);
      SlotDistance(|log.pushed|, |log.delivered|);
      forall j | 0 <= j < log.Shown() ensures Contents()[j] == Visible(log)[j] {
        var k := |log.pushed| - log.Shown() + j;
        assert SlotHolds(queue[..], log.pushed, k);
        SameSlot(|log.pushed|, |log.delivered|, j);
      }
    }

    /** The slot at `head` holds the first visible event, and `head == tail` means there is none. */
    lemma HeadIsFirst()
      requires Valid()
      ensures head == tail <==> log.Shown() == 0
      ensures log.Shown() != 0 ==> queue[head] == log.pushed[|log.pushed| - log.Shown()]
    {
      SlotDistance(|log.pushed|, |log.delivered|);
      if log.Shown() != 0 {
        assert SlotHolds(queue[..], log.pushed, |log.pushed| - log.Shown());
        SameSlot(|log.pushed|, |log.delivered|, 0);
      }
    }

    /** `event_init`. */
    method Init()
      requires Valid()
      modifies this
      ensures Valid() && log == Log([], []) && head == 0 && tail == 0
    {
      head := 0;
      tail := 0;
      log := Log([], []);
    }

    /** `event_pust`. */
    method PushEvent(event: Event)
      requires Valid()
      modifies this, queue
      ensures Valid() && log == Log(old(log).pushed + [event], old(log).delivered)
      ensures tail == (old(tail) + 1) % 64 && head == old(head)
      ensures queue[..] == old(queue[..])[old(tail) := event]
    {
      ghost var before, was := queue[..], log;
      PushOk(was, event);
      Around(|was.pushed|);
      queue[tail] := event;
      tail := (tail + 1) % QUEUE_SIZE;
      log := Step(was, Push(event));
      forall k: nat {:trigger SlotHolds(queue[..], log.pushed, k)} | |log.pushed| - QUEUE_SIZE <= k < |log.pushed|
        ensures SlotHolds(queue[..], log.pushed, k)
      {
        if k < |was.pushed| {
          SlotsDiffer(k, |was.pushed|);
          assert SlotHolds(before, was.pushed, k);
        }
      }
    }

    /** `event_poll`: 0 and no event, or 1 and the event at the head of the visible queue. */
    method PollEvent(was: Event) returns (found: int, event: Event)
      requires Valid()
      modifies this
      ensures Valid() && log == Step(old(log), Poll)
      ensures found == if (|old(log).pushed| - |old(log).delivered|) % 64 == 0 then 0 else 1
      ensures tail == old(tail) && head == if found == 0 then old(head) else (old(head) + 1) % 64
      ensures found == 0 ==> event == was && log == old(log)
      ensures found == 1 ==>
        var k := |log.pushed| - (|old(log).pushed| - |old(log).delivered|) % 64;
        0 <= k < |log.pushed| && event == log.pushed[k]
        && log == Log(old(log).pushed, old(log).delivered + [k])
    {
      HeadIsFirst();
      if head == tail { return 0, was; }
      PollOk(log);
      Around(|log.delivered|);
      event := queue[head];
      head := (head + 1) % QUEUE_SIZE;
      log := Step(log, Poll);
      found := 1;
    }
  }
}
