/**
 The round robin of scheduler/scheduler.c: tasks linked through `next`, with `current` moving one link at
 every tick. As long as no task is added twice the links form a circle, described by the sequence of tasks
 met when walking from `current`; what a second add of the same task makes of it comes after that.
 */
module RoundRobin {

  // ---------------------------------------------------------------- the circle as a sequence

  datatype Op<T> = Add(task: T) | Tick

  /** `scheduler_add`: the new task goes right behind the current one. */
  ghost function Added<T>(ring: seq<T>, task: T): seq<T> {
    if ring == [] then [task] else [ring[0], task] + ring[1..]
  }

  /** `scheduler_tick`: the next task in the circle becomes current. */
  ghost function Ticked<T>(ring: seq<T>): seq<T> {
    if ring == [] then [] else ring[1..] + [ring[0]]
  }

  ghost function Run<T>(ring: seq<T>, ops: seq<Op<T>>): seq<T> {
    if ops == [] then ring
    else
      var before := Run(ring, ops[..|ops| - 1]);
      match ops[|ops| - 1]
      case Add(task) => Added(before, task)
      case Tick => Ticked(before)
  }

  ghost predicate Distinct<T>(ring: seq<T>) {
    forall i, j | 0 <= i < j < |ring| :: ring[i] != ring[j]
  }

  /** No task is added that is already in the circle. */
  ghost predicate Fresh<T>(ring: seq<T>, ops: seq<Op<T>>) {
    forall k | 0 <= k < |ops| && ops[k].Add? :: ops[k].task !in Run(ring, ops[..k])
  }

  ghost function Adds<T>(ops: seq<Op<T>>): (n: nat)
    ensures n <= |ops|
  {
    if ops == [] then 0 else Adds(ops[..|ops| - 1]) + (if ops[|ops| - 1].Add? then 1 else 0)
  }

  ghost function Ticks<T>(ops: seq<Op<T>>): nat {
    |ops| - Adds(ops)
  }

  lemma FreshPrefix<T>(ring: seq<T>, ops: seq<Op<T>>)
    requires Fresh(ring, ops) && ops != []
    ensures Fresh(ring, ops[..|ops| - 1])
  {
    var ops' := ops[..|ops| - 1];
    assert forall k | 0 <= k < |ops'| :: ops'[k] == ops[k] && ops'[..k] == ops[..k];
  }

  lemma {:induction false} RunStaysDistinct<T>(ring: seq<T>, ops: seq<Op<T>>)
    requires Distinct(ring) && Fresh(ring, ops)
    ensures Distinct(Run(ring, ops))
  {
    if ops != [] {
      FreshPrefix(ring, ops);
      RunStaysDistinct(ring, ops[..|ops| - 1]);
    }
  }

  /** The distance from `current` of the task that started at distance `p`, as long as it has not been reached. */
  ghost function Distance<T>(p: nat, ops: seq<Op<T>>): int {
    p + Adds(ops) - Ticks(ops)
  }

  /** One add moves every task but the current one a step away, one tick moves it a step nearer. */
  lemma StepMovesTask<T>(ring: seq<T>, d: nat, task: T)
    requires 0 < d < |ring|
    ensures d + 1 < |Added(ring, task)| && Added(ring, task)[d + 1] == ring[d]
    ensures d - 1 < |Ticked(ring)| && Ticked(ring)[d - 1] == ring[d]
  {
  }

  lemma DistinctHead<T>(ring: seq<T>, d: nat)
    requires Distinct(ring) && d < |ring|
    ensures ring[0] == ring[d] <==> d == 0
  {
  }

  /**
   A task at distance `p` becomes current after exactly `p` ticks plus one for every task added meanwhile,
   and not before.
   */
  lemma {:induction false} WaitsExactly<T>(ring: seq<T>, p: nat, ops: seq<Op<T>>)
    requires Distinct(ring) && Fresh(ring, ops) && p < |ring|
    requires forall k | 0 <= k < |ops| :: Distance(p, ops[..k]) > 0
    ensures 0 <= Distance(p, ops) < |Run(ring, ops)|
    ensures Run(ring, ops)[Distance(p, ops)] == ring[p]
    ensures Run(ring, ops)[0] == ring[p] <==> Distance(p, ops) == 0
  {
    if ops != [] {
      var ops' := ops[..|ops| - 1];
      FreshPrefix(ring, ops);
      assert forall k | 0 <= k < |ops'| :: ops'[..k] == ops[..k];
      assert Distance(p, ops') > 0;
      WaitsExactly(ring, p, ops');
      StepMovesTask(Run(ring, ops'), Distance(p, ops'), if ops[|ops| - 1].Add? then ops[|ops| - 1].task else ring[p]);
      RunStaysDistinct(ring, ops);
      DistinctHead(Run(ring, ops), Distance(p, ops));
    } else {
      assert Run(ring, ops) == ring;
    }
  }

  /** With an add before every tick nobody else ever becomes current. */
  lemma AddsStarve<T>(ring: seq<T>, p: nat, ops: seq<Op<T>>)
    requires Distinct(ring) && Fresh(ring, ops) && 0 < p < |ring|
    requires forall k | 0 <= k <= |ops| :: Ticks(ops[..k]) <= Adds(ops[..k])
    ensures Run(ring, ops) != [] && Run(ring, ops)[0] != ring[p]
  {
    assert ops[..|ops|] == ops && Ticks(ops[..|ops|]) <= Adds(ops[..|ops|]);
    WaitsExactly(ring, p, ops);
  }

  ghost function TickTimes<T>(ring: seq<T>, n: nat): (after: seq<T>)
    ensures |after| == |ring|
  {
    if n == 0 then ring else Ticked(TickTimes(ring, n - 1))
  }

  /** Without adds, `k` ticks turn the circle by `k` places. */
  lemma {:induction false} TicksRotate<T>(ring: seq<T>, k: nat)
    requires k <= |ring|
    ensures TickTimes(ring, k) == ring[k..] + ring[..k]
  {
    if k > 0 {
      TicksRotate(ring, k - 1);
      assert (ring[k - 1..] + ring[..k - 1])[1..] == ring[k..] + ring[..k - 1];
      assert ring[..k] == ring[..k - 1] + [ring[k - 1]];
    }
  }

  /** Any n consecutive ticks over n tasks run each task exactly once, in circle order, and come back to the first. */
  lemma EveryTaskOnce<T>(ring: seq<T>)
    requires Distinct(ring)
    ensures seq(|ring|, k requires 0 <= k < |ring| => TickTimes(ring, k)[0]) == ring
    ensures TickTimes(ring, |ring|) == ring
  {
    TicksRotate(ring, |ring|);
    forall k | 0 <= k < |ring| ensures TickTimes(ring, k)[0] == ring[k] {
      TicksRotate(ring, k);
    }
  }

  // ---------------------------------------------------------------- adding a task twice

  /** The tasks met when walking from `current`, and the place on that path to which the last one leads back. */
  datatype Links<T> = Links(path: seq<T>, back: nat)

  ghost function IndexOf<T>(s: seq<T>, x: T): (k: nat)
    requires x in s
    ensures k < |s| && s[k] == x && x !in s[..k]
  {
    if s[0] == x then 0 else 1 + IndexOf(s[1..], x)
  }

  /** `scheduler_add` of any task, linked already or not. */
  ghost function Joined<T>(l: Links<T>, task: T): Links<T> {
    if l.path == [] then Links([task], 0)
    else if task !in l.path then Links(Added(l.path, task), if l.back == 0 then 0 else l.back + 1)
    else
      var k := IndexOf(l.path, task);
      if k == 0 then Links([task], 0) else Links([l.path[0], task] + l.path[1..k], 1)
  }

  /** `scheduler_tick`; a current task that nothing leads back to is left for good. */
  ghost function Advanced<T>(l: Links<T>): Links<T> {
    if l.path == [] then l
    else if l.back == 0 then Links(Ticked(l.path), 0)
    else Links(l.path[1..], l.back - 1)
  }

  ghost predicate LinksOk<T>(l: Links<T>) {
    Distinct(l.path) && (if l.path == [] then l.back == 0 else l.back < |l.path|)
  }

  lemma JoinedOk<T>(l: Links<T>, task: T)
    requires LinksOk(l)
    ensures LinksOk(Joined(l, task))
  {
  }

  /** An add keeps the circle closed exactly if the task is new, or is the current one. */
  lemma CircleStaysIff<T>(ring: seq<T>, task: T)
    requires Distinct(ring)
    ensures Joined(Links(ring, 0), task).back == 0 <==> task !in ring || task == ring[0]
    ensures task !in ring ==> Joined(Links(ring, 0), task) == Links(Added(ring, task), 0)
    ensures ring != [] && task == ring[0] ==> Joined(Links(ring, 0), task) == Links([task], 0)
  {
  }

  ghost function AdvancedTimes<T>(l: Links<T>, n: nat): Links<T> {
    if n == 0 then l else Advanced(AdvancedTimes(l, n - 1))
  }

  lemma {:induction false} AdvanceCircle<T>(ring: seq<T>, n: nat)
    ensures AdvancedTimes(Links(ring, 0), n) == Links(TickTimes(ring, n), 0)
  {
    if n > 0 {
      AdvanceCircle(ring, n - 1);
    }
  }

  lemma AdvanceOnce<T>(l: Links<T>, n: nat)
    ensures AdvancedTimes(l, n + 1) == AdvancedTimes(Advanced(l), n)
  {
    if n > 0 {
      AdvanceOnce(l, n - 1);
    }
  }

  /** The task at distance `k` and the `k - 1` tasks before it, without the current one. */
  ghost function Inner<T>(ring: seq<T>, k: nat): seq<T>
    requires 0 < k < |ring|
  {
    [ring[k]] + ring[1..k]
  }

  /**
   Adding the task at distance `k` again makes it and the `k - 1` tasks before it the circle, from the next tick on.
   */
  lemma SecondAdd<T>(ring: seq<T>, k: nat, n: nat)
    requires Distinct(ring) && 0 < k < |ring|
    ensures AdvancedTimes(Joined(Links(ring, 0), ring[k]), n + 1) == Links(TickTimes(Inner(ring, k), n), 0)
  {
    var l := Joined(Links(ring, 0), ring[k]);
    assert IndexOf(ring, ring[k]) == k;
    assert l == Links([ring[0]] + Inner(ring, k), 1);
    AdvanceOnce(l, n);
    assert Advanced(l) == Links(Inner(ring, k), 0);
    AdvanceCircle(Inner(ring, k), n);
  }

  ghost function LinksRun<T>(l: Links<T>, ops: seq<Op<T>>): Links<T> {
    if ops == [] then l
    else
      var before := LinksRun(l, ops[..|ops| - 1]);
      match ops[|ops| - 1]
      case Add(task) => Joined(before, task)
      case Tick => Advanced(before)
  }

  /** Nothing leads to `x`: it is not on the path, or it is current and the path does not come back to it. */
  ghost predicate Unlinked<T>(l: Links<T>, x: T) {
    LinksOk(l) && l.path != [] && (x in l.path ==> l.path[0] == x && l.back > 0)
  }

  lemma JoinedUnlinked<T>(l: Links<T>, x: T, task: T)
    requires Unlinked(l, x) && task != x
    ensures Unlinked(Joined(l, task), x) && (x in Joined(l, task).path <==> x in l.path)
  {
    JoinedOk(l, task);
    if task in l.path {
      var k := IndexOf(l.path, task);
      if k > 0 { assert x in l.path[1..k] ==> x in l.path; }
    }
  }

  lemma AdvancedUnlinked<T>(l: Links<T>, x: T)
    requires Unlinked(l, x)
    ensures Unlinked(Advanced(l), x) && x !in Advanced(l).path
  {
  }

  /** Such a task is current exactly until the first tick, and never again in any run that does not add it. */
  lemma {:induction false} UnlinkedForever<T>(l: Links<T>, x: T, ops: seq<Op<T>>)
    requires Unlinked(l, x) && Add(x) !in ops
    ensures Unlinked(LinksRun(l, ops), x)
    ensures LinksRun(l, ops).path[0] == x <==> l.path[0] == x && Tick !in ops
  {
    if ops != [] {
      var ops', op := ops[..|ops| - 1], ops[|ops| - 1];
      assert ops == ops' + [op];
      UnlinkedForever(l, x, ops');
      match op
      case Add(task) => JoinedUnlinked(LinksRun(l, ops'), x, task);
      case Tick => AdvancedUnlinked(LinksRun(l, ops'), x);
    }
  }

  /**
   After a second add of the task at distance `k`, whatever is added later, the task that was current runs
   until the first tick only, and the tasks behind the one added not at all, unless they are added again.
   */
  lemma SecondAddStarves<T>(ring: seq<T>, k: nat, x: T, ops: seq<Op<T>>)
    requires Distinct(ring) && 0 < k < |ring| && (x == ring[0] || x in ring[k + 1..]) && Add(x) !in ops
    ensures LinksRun(Joined(Links(ring, 0), ring[k]), ops).path != []
    ensures LinksRun(Joined(Links(ring, 0), ring[k]), ops).path[0] == x <==> x == ring[0] && Tick !in ops
  {
    var l := Joined(Links(ring, 0), ring[k]);
    JoinedOk(Links(ring, 0), ring[k]);
    assert IndexOf(ring, ring[k]) == k;
    UnlinkedForever(l, x, ops);
  }

  /** A task that is added always runs at the next tick. */
  lemma AddedRunsNext<T>(l: Links<T>, task: T)
    requires LinksOk(l)
    ensures Advanced(Joined(l, task)).path != [] && Advanced(Joined(l, task)).path[0] == task
  {
  }

  // ---------------------------------------------------------------- the linked tasks

  ghost function Successor<T>(l: Links<T>, i: nat): T
    requires LinksOk(l) && i < |l.path|
  {
    if i == |l.path| - 1 then l.path[l.back] else l.path[i + 1]
  }

  class Task {
    var next: Task?
    constructor ()
      ensures next == null
    {
      next := null;
    }
  }

  class Scheduler {
    var current: Task?
    ghost var links: Links<Task>

    ghost predicate Valid()
      reads this, links.path
    {
      && LinksOk(links)
      && (current == null <==> links.path == [])
      && (links.path != [] ==> links.path[0] == current)
      && forall i: nat {:trigger Successor(links, i)} | i < |links.path| :: links.path[i].next == Successor(links, i)
    }

    constructor ()
      ensures Valid() && links == Links([], 0)
    {
      current := null;
      links := Links([], 0);
    }

    /** `scheduler_add`, of any task. */
    method AddTask(task: Task)
      requires Valid()
      modifies this, task, current
      ensures Valid() && links == Joined(old(links), task)
    {
      if current == null {
        current := task;
        task.next := task;
      } else {
        task.next := current.next;
        current.next := task;
      }
      ghost var was := links;
      JoinedOk(was, task);
      links := Joined(was, task);
      forall i: nat {:trigger Successor(links, i)} | i < |links.path|
        ensures links.path[i].next == Successor(links, i)
      {
        if was.path != [] {
          assert was.path[0].next == task;
          if task !in was.path {
            if i > 0 { assert old(was.path[i - 1].next == Successor(was, i - 1)); }
          } else if i > 1 {
            assert old(was.path[i - 1].next == Successor(was, i - 1));
          } else {
            assert old(was.path[0].next == Successor(was, 0));
          }
        }
      }
    }

    /** `scheduler_tick`; the context switch itself does not touch the links. */
    method TickOnce()
      requires Valid()
      modifies this
      ensures Valid() && links == Advanced(old(links))
    {
      if current == null { return; }
      ghost var was := links;
      assert current.next == Successor(was, 0);
      current := current.next;
      links := Advanced(was);
      forall i: nat {:trigger Successor(links, i)} | i < |links.path|
        ensures links.path[i].next == Successor(links, i)
      {
        var k := if was.back == 0 && i == |was.path| - 1 then 0 else i + 1;
        assert was.path[k].next == Successor(was, k);
      }
    }

    /** The task `k` links away from `current`. */
    ghost function Walk(k: nat): Task?
      requires Valid() && links.path != []
      reads this, links.path
    {
      if k == 0 then current
      else
        var before := Walk(k - 1);
        if before != null && before in links.path then before.next else null
    }

    /** Following `next` from `current` visits every task of the path once and then leads back into it. */
    lemma {:induction false} WalkReturns(k: nat)
      requires Valid() && k <= |links.path| && links.path != []
      ensures Walk(k) == if k == |links.path| then links.path[links.back] else links.path[k]
    {
      if k > 0 {
        WalkReturns(k - 1);
        assert links.path[k - 1].next == Successor(links, k - 1);
      }
    }
  }
}
