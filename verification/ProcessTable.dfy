/**
 process_manager/process.c on linked objects: `process_list` leads from the newest process through `next`
 down to idle, and every call rewrites fields of these objects in place. Each method is proved to compute
 the function of the same name in module Scheduling.
 */
module ProcessTable {
  import opened Bytes
  import opened Scheduling

  class Process {
    var pid: Word
    var ppid: Word
    var state: RunState
    var priority: byte
    var wakeup: Word
    var next: Process?

    constructor (pid: Word, ppid: Word, state: RunState, priority: byte, next: Process?)
      ensures View() == Proc(pid, ppid, state, priority, 0) && this.next == next
    {
      this.pid, this.ppid, this.state, this.priority, this.wakeup := pid, ppid, state, priority, 0;
      this.next := next;
    }

    ghost function View(): Proc
      reads this
    {
      Proc(pid, ppid, state, priority, wakeup)
    }
  }

  class Table {
    var processList: Process
    var current: Process
    var nextPid: Word
    /** The processes of the list, oldest first, and what they currently hold. */
    ghost var list: seq<Process>
    ghost var sys: Sys

    ghost predicate Linked(i: nat)
      requires i < |list|
      reads this`list, list
    {
      list[i].next == if i == 0 then null else list[i - 1]
    }

    /** The list is well linked, whatever its processes hold. */
    ghost predicate Shape()
      reads this`list, this`processList, this`nextPid, list
    {
      && |list| > 0 && processList == list[|list| - 1] && nextPid == |list| % WORD_LIMIT
      && (forall i, j | 0 <= i < j < |list| :: list[i] != list[j])
      && forall i: nat {:trigger Linked(i)} | i < |list| :: Linked(i)
    }

    ghost predicate Mirrors(procs: seq<Proc>)
      reads this`list, list
    {
      |list| == |procs| && forall i: nat {:trigger list[i]} | i < |list| :: list[i].View() == procs[i]
    }

    ghost predicate Valid()
      reads this, list
    {
      Shape() && Mirrors(sys.procs) && SysOk(sys) && current == list[sys.cur]
    }

    /** Assigning fields other than `next` keeps the list linked. */
    twostate lemma StillLinked()
      requires old(Shape()) && list == old(list) && processList == old(processList) && nextPid == old(nextPid)
      requires forall i | 0 <= i < |list| :: list[i].next == old(list[i].next)
      ensures Shape()
    {
      forall i: nat {:trigger Linked(i)} | i < |list| ensures Linked(i) {
        assert old(Linked(i));
      }
    }

    /** `process_init`. */
    constructor ()
      ensures Valid() && sys == Init() && fresh(list)
    {
      var idle := new Process(0, 0, Running, 0, null);
      processList := idle;
      current := idle;
      nextPid := 1;
      list := [idle];
      sys := Init();
      new;
      assert PidAt([IDLE], 0);
    }

    /** `process_create`, given that its allocations succeed. */
    method Create(priority: byte) returns (pid: Word)
      requires Valid()
      modifies this
      ensures Valid() && sys == Scheduling.Create(old(sys), priority)
      ensures fresh(list[|old(list)|]) && list[..|old(list)|] == old(list)
      ensures pid == sys.procs[|old(list)|].pid
    {
      CreateOk(sys, priority);
      pid := nextPid;
      nextPid := (nextPid + 1) % WORD_LIMIT;
      var proc := new Process(pid, current.pid, Waiting, priority, processList);
      processList := proc;
      list := list + [proc];
      sys := Scheduling.Create(sys, priority);
      forall i: nat {:trigger Linked(i)} | i < |list| ensures Linked(i) {
        if i < |old(list)| { assert old(Linked(i)); }
      }
      assert Shape() && Mirrors(sys.procs);
    }

    /** `process_kill`. */
    method Kill(pid: Word)
      requires Valid()
      modifies list
      modifies this`sys
      ensures Valid() && sys == Scheduling.Kill(old(sys), pid)
    {
      ghost var was := sys;
      KillOk(was, pid);
      var proc: Process? := processList;
      ghost var n: nat := |list|;
      while proc != null
        invariant n <= |list| && proc == (if n == 0 then null else list[n - 1])
        invariant Newest(sys.procs, pid, |list|) == Newest(sys.procs, pid, n)
        invariant Valid() && sys == was
        decreases n
      {
        assert Linked(n - 1) && list[n - 1].View() == sys.procs[n - 1];
        if proc.pid == pid {
          proc.state := Zombie;
          sys := Scheduling.Kill(was, pid);
          StillLinked();
          return;
        }
        proc := proc.next;
        n := n - 1;
      }
    }

    /** The scanning loop of `scheduler_switch`. */
    method Scan() returns (best: Process?)
      requires Valid()
      ensures best == if Best(sys.procs, 0) == |list| then null else list[Best(sys.procs, 0)]
    {
      var next: Process? := processList;
      best := null;
      var bestPriority := NEVER;
      ghost var n: nat := |list|;
      while next != null
        invariant n <= |list| && next == (if n == 0 then null else list[n - 1])
        invariant var b := Best(sys.procs, n);
          if b == |list| then best == null && bestPriority == NEVER
          else best == list[b] && bestPriority == sys.procs[b].priority
        decreases n
      {
        assert Linked(n - 1) && list[n - 1].View() == sys.procs[n - 1];
        if next.state == Waiting && next.priority < bestPriority {
          bestPriority := next.priority;
          best := next;
        }
        next := next.next;
        n := n - 1;
      }
    }

    /** `scheduler_switch`; the context switch itself does not touch the table. */
    method Switch()
      requires Valid()
      modifies this, list
      ensures Valid() && sys == Scheduling.Switch(old(sys)) && list == old(list)
    {
      ghost var was := sys;
      SwitchOk(was);
      var best := Scan();
      if best == null { best := processList; }
      if best == current { return; }
      current.state := Waiting;
      best.state := Running;
      current := best;
      sys := Scheduling.Switch(was);
      StillLinked();
    }

    /** `process_sleep`, with the timer reading it makes as a parameter. */
    method Sleep(now: Word, ms: Word)
      requires Valid()
      modifies this, list
      ensures Valid() && sys == Scheduling.Sleep(old(sys), now, ms) && list == old(list)
    {
      ghost var asleep := sys.procs[sys.cur].(wakeup := (now + ms) % WORD_LIMIT, state := Sleeping);
      current.wakeup := (now + ms) % WORD_LIMIT;
      current.state := Sleeping;
      SamePids(sys.procs, sys.procs[sys.cur := asleep]);
      sys := sys.(procs := sys.procs[sys.cur := asleep]);
      StillLinked();
      Switch();
    }

    /** The waking loop of `scheduler_tick`. */
    method WakeSleepers(now: Word, ghost was: seq<Proc>)
      requires Shape() && Mirrors(was)
      modifies list
      ensures Shape() && Mirrors(WokenEach(was, now))
    {
      var proc: Process? := processList;
      ghost var n: nat := |list|;
      while proc != null
        invariant n <= |list| == |was| && proc == (if n == 0 then null else list[n - 1])
        invariant Shape() && forall i: nat {:trigger list[i]} | i < |list| ::
          list[i].View() == if i < n then was[i] else Woken(was[i], now)
        decreases n
      {
        label L:
        assert Linked(n - 1) && list[n - 1].View() == was[n - 1];
        if proc.state == Sleeping && now >= proc.wakeup {
          proc.state := Waiting;
        }
        StillLinked@L();
        n := n - 1;
        proc := proc.next;
      }
    }

    /** `scheduler_tick`. One timer reading is enough, since only the current process can be SLEEPING. */
    method Tick(now: Word)
      requires Valid()
      modifies this, list
      ensures Valid() && sys == Scheduling.Tick(old(sys), now) && list == old(list)
    {
      WakeOk(sys, now);
      WakeSleepers(now, sys.procs);
      sys := WakeAll(sys, now);
      Switch();
    }
  }
}
