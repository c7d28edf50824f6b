/**
 The priority scheduler of process_manager/process.c as a state machine over values. Processes are kept
 in creation order, so that an index names the same process for ever; the C list runs the other way,
 from the newest process (the list head) down to idle. Module ProcessTable shows that the code on linked
 objects computes these functions.
 */
module Scheduling {
  import opened Bytes

  datatype RunState = Stopped | Waiting | Running | Sleeping | Zombie

  datatype Proc = Proc(pid: Word, ppid: Word, state: RunState, priority: byte, wakeup: Word)

  /** The processes, oldest first, and the index of the current one. */
  datatype Sys = Sys(procs: seq<Proc>, cur: nat) {
    function Head(): int { |procs| - 1 }
  }

  const IDLE := Proc(0, 0, Running, 0, 0)

  /** The priority no process is ever chosen for. */
  const NEVER := 0xFF

  // ---------------------------------------------------------------- operations

  ghost function Init(): Sys {
    Sys([IDLE], 0)
  }

  /** Pids count up from 0 in creation order, in 32 bits. */
  ghost predicate PidAt(procs: seq<Proc>, i: nat)
    requires i < |procs|
  {
    procs[i].pid == i % WORD_LIMIT
  }

  ghost predicate PidsOk(procs: seq<Proc>) {
    forall i: nat {:trigger PidAt(procs, i)} | i < |procs| :: PidAt(procs, i)
  }

  /** Pids are in order, only the current process is RUNNING or SLEEPING, and nobody is STOPPED. */
  ghost predicate SysOk(s: Sys) {
    && s.cur < |s.procs| && PidsOk(s.procs)
    && (forall i | 0 <= i < |s.procs| && s.procs[i].state in {Running, Sleeping} :: i == s.cur)
    && forall i | 0 <= i < |s.procs| :: s.procs[i].state != Stopped
  }

  ghost function Create(s: Sys, priority: byte): Sys
    requires s.cur < |s.procs|
  {
    s.(procs := s.procs + [Proc(|s.procs| % WORD_LIMIT, s.procs[s.cur].pid, Waiting, priority, 0)])
  }

  /** The newest process with this pid among the first `n`, or `|procs|` if there is none. */
  ghost function Newest(procs: seq<Proc>, pid: Word, n: nat): (i: nat)
    requires n <= |procs|
    ensures i < n || i == |procs|
    ensures i < |procs| ==> procs[i].pid == pid
    ensures forall j | 0 <= j < n && procs[j].pid == pid :: j <= i < |procs|
  {
    if n == 0 then |procs| else if procs[n - 1].pid == pid then n - 1 else Newest(procs, pid, n - 1)
  }

  ghost function Kill(s: Sys, pid: Word): Sys {
    var i := Newest(s.procs, pid, |s.procs|);
    if i == |s.procs| then s else s.(procs := s.procs[i := s.procs[i].(state := Zombie)])
  }

  ghost predicate Eligible(p: Proc) {
    p.state == Waiting && p.priority < NEVER
  }

  /** The index from `i` on of the eligible process the scan prefers, `|procs|` if none is eligible. */
  ghost function Best(procs: seq<Proc>, i: nat): (b: nat)
    requires i <= |procs|
    ensures i <= b <= |procs|
    ensures b < |procs| ==> Eligible(procs[b])
    ensures forall j | i <= j < |procs| && Eligible(procs[j]) :: b < |procs| && procs[b].priority <= procs[j].priority
    ensures forall j | b < j < |procs| && Eligible(procs[j]) :: procs[b].priority < procs[j].priority
    decreases |procs| - i
  {
    if i == |procs| then i
    else
      var b := Best(procs, i + 1);
      if Eligible(procs[i]) && (b == |procs| || procs[i].priority < procs[b].priority) then i else b
  }

  /** Where `scheduler_switch` goes: the best eligible process, or the list head if there is none. */
  ghost function Target(s: Sys): nat
    requires |s.procs| > 0
  {
    var b := Best(s.procs, 0);
    if b == |s.procs| then |s.procs| - 1 else b
  }

  ghost function Switch(s: Sys): Sys
    requires s.cur < |s.procs|
  {
    var t := Target(s);
    if t == s.cur then s
    else Sys(s.procs[s.cur := s.procs[s.cur].(state := Waiting)][t := s.procs[t].(state := Running)], t)
  }

  ghost function Sleep(s: Sys, now: Word, ms: Word): Sys
    requires s.cur < |s.procs|
  {
    Switch(s.(procs := s.procs[s.cur := s.procs[s.cur].(wakeup := (now + ms) % WORD_LIMIT, state := Sleeping)]))
  }

  function Woken(p: Proc, now: Word): Proc {
    if p.state == Sleeping && now >= p.wakeup then p.(state := Waiting) else p
  }

  ghost function WokenEach(procs: seq<Proc>, now: Word): (woken: seq<Proc>)
    ensures |woken| == |procs|
    ensures forall i | 0 <= i < |procs| :: woken[i] == Woken(procs[i], now)
  {
    if procs == [] then [] else WokenEach(procs[..|procs| - 1], now) + [Woken(procs[|procs| - 1], now)]
  }

  ghost function WakeAll(s: Sys, now: Word): Sys {
    s.(procs := WokenEach(s.procs, now))
  }

  ghost function Tick(s: Sys, now: Word): Sys
    requires s.cur < |s.procs|
  {
    Switch(WakeAll(s, now))
  }

  // ---------------------------------------------------------------- whole runs

  datatype Op = CreateOp(priority: byte) | KillOp(pid: Word) | SleepOp(now: Word, ms: Word)
    | YieldOp | TickOp(now: Word)

  ghost function Step(s: Sys, op: Op): (s': Sys)
    requires s.cur < |s.procs|
    ensures s'.cur < |s'.procs| && |s.procs| <= |s'.procs|
  {
    match op
    case CreateOp(priority) => Create(s, priority)
    case KillOp(pid) => Kill(s, pid)
    case SleepOp(now, ms) => Sleep(s, now, ms)
    case YieldOp => Switch(s)
    case TickOp(now) => Tick(s, now)
  }

  ghost function Run(s: Sys, ops: seq<Op>): (s': Sys)
    requires s.cur < |s.procs|
    ensures s'.cur < |s'.procs| && |s.procs| <= |s'.procs|
  {
    if ops == [] then s else Step(Run(s, ops[..|ops| - 1]), ops[|ops| - 1])
  }

  /** Operations that change no pid and create no process keep the pids. */
  lemma SamePids(procs: seq<Proc>, procs': seq<Proc>)
    requires PidsOk(procs) && |procs'| == |procs|
    requires forall i | 0 <= i < |procs| :: procs'[i].pid == procs[i].pid
    ensures PidsOk(procs')
  {
    forall i: nat {:trigger PidAt(procs', i)} | i < |procs'| ensures PidAt(procs', i) {
      assert PidAt(procs, i);
    }
  }

  lemma SwitchOk(s: Sys)
    requires SysOk(s)
    ensures SysOk(Switch(s))
  {
    SamePids(s.procs, Switch(s).procs);
  }

  lemma WakeOk(s: Sys, now: Word)
    requires SysOk(s)
    ensures SysOk(WakeAll(s, now))
  {
    SamePids(s.procs, WakeAll(s, now).procs);
  }

  lemma CreateOk(s: Sys, priority: byte)
    requires SysOk(s)
    ensures SysOk(Create(s, priority))
  {
    var procs := Create(s, priority).procs;
    forall i: nat {:trigger PidAt(procs, i)} | i < |procs| ensures PidAt(procs, i) {
      if i < |s.procs| { assert PidAt(s.procs, i); }
    }
  }

  lemma KillOk(s: Sys, pid: Word)
    requires SysOk(s)
    ensures SysOk(Kill(s, pid))
  {
    SamePids(s.procs, Kill(s, pid).procs);
  }

  lemma SleepOk(s: Sys, now: Word, ms: Word)
    requires SysOk(s)
    ensures SysOk(Sleep(s, now, ms))
  {
    var procs := s.procs[s.cur := s.procs[s.cur].(wakeup := (now + ms) % WORD_LIMIT, state := Sleeping)];
    SamePids(s.procs, procs);
    SwitchOk(s.(procs := procs));
  }

  lemma StepOk(s: Sys, op: Op)
    requires SysOk(s)
    ensures SysOk(Step(s, op))
  {
    match op
    case CreateOp(priority) => CreateOk(s, priority);
    case KillOp(pid) => KillOk(s, pid);
    case SleepOp(now, ms) => SleepOk(s, now, ms);
    case YieldOp => SwitchOk(s);
    case TickOp(now) => WakeOk(s, now); SwitchOk(WakeAll(s, now));
  }

  lemma PidsIncrease(procs: seq<Proc>, i: nat, j: nat)
    requires PidsOk(procs) && i < j < |procs| <= WORD_LIMIT
    ensures procs[i].pid == i && procs[j].pid == j
  {
    assert PidAt(procs, i) && PidAt(procs, j);
  }

  /**
   In every reachable state only the current process is RUNNING or SLEEPING, nobody is STOPPED, and pids follow
   creation order, so they decrease strictly from the list head to idle for the first 2^32 processes.
   */
  lemma {:induction false} ReachableOk(ops: seq<Op>)
    ensures SysOk(Run(Init(), ops))
    ensures |Run(Init(), ops).procs| <= WORD_LIMIT ==>
      forall i, j | 0 <= i < j < |Run(Init(), ops).procs| ::
        Run(Init(), ops).procs[i].pid < Run(Init(), ops).procs[j].pid
  {
    if ops != [] {
      ReachableOk(ops[..|ops| - 1]);
      StepOk(Run(Init(), ops[..|ops| - 1]), ops[|ops| - 1]);
    } else {
      assert PidAt([IDLE], 0);
    }
    var procs := Run(Init(), ops).procs;
    forall i, j | 0 <= i < j < |procs| && |procs| <= WORD_LIMIT ensures procs[i].pid < procs[j].pid {
      PidsIncrease(procs, i, j);
    }
  }

  // ---------------------------------------------------------------- who is chosen, and who is not

  /** A new process waits, with its number as pid, the current process as parent, and no wake-up time. */
  lemma CreateExact(s: Sys, priority: byte)
    requires SysOk(s)
    ensures Create(s, priority).cur == s.cur && |Create(s, priority).procs| == |s.procs| + 1
    ensures Create(s, priority).procs[..|s.procs|] == s.procs
    ensures var p := Create(s, priority).procs[|s.procs|];
      && p.pid == |s.procs| % 0x1_0000_0000 && p.ppid == s.procs[s.cur].pid == s.cur % 0x1_0000_0000
      && p.state == Waiting && p.priority == priority && p.wakeup == 0
  {
    assert PidAt(s.procs, s.cur);
  }

  /** `t` waits with priority at most 254, and no waiting process has a lower value, or the same and is newer. */
  ghost predicate Foremost(procs: seq<Proc>, t: nat) {
    && t < |procs| && procs[t].state == Waiting && procs[t].priority <= 254
    && (forall j | 0 <= j < |procs| && procs[j].state == Waiting :: procs[t].priority <= procs[j].priority)
    && forall j | t < j < |procs| && procs[j].state == Waiting :: procs[t].priority < procs[j].priority
  }

  /**
   What a switch does: it goes to the foremost process, or to the list head if there is none; the process left
   waits, the one reached runs, and nothing else changes. If that is the current process nothing changes at all.
   */
  lemma SwitchExact(s: Sys)
    requires SysOk(s)
    ensures var t := Switch(s).cur;
      Foremost(s.procs, t)
      || (t == |s.procs| - 1 && forall j | 0 <= j < |s.procs| && s.procs[j].state == Waiting ::
        s.procs[j].priority == 255)
    ensures Switch(s).cur == s.cur ==> Switch(s) == s
    ensures var t := Switch(s).cur;
      t != s.cur ==>
        Switch(s).procs == s.procs[s.cur := s.procs[s.cur].(state := Waiting)][t := s.procs[t].(state := Running)]
  {
    var b := Best(s.procs, 0);
    assert forall j | 0 <= j < |s.procs| && s.procs[j].state == Waiting ::
      Eligible(s.procs[j]) || s.procs[j].priority == 255;
  }

  /**
   A process that is neither current nor waiting is switched to exactly when it is the list head and no
   process is eligible. It is then a killed process, as nothing else is off the CPU without waiting.
   */
  lemma NotWaitingRunsIff(s: Sys, i: nat)
    requires SysOk(s) && i < |s.procs| && i != s.cur && s.procs[i].state != Waiting
    ensures s.procs[i].state == Zombie
    ensures Switch(s).cur == i <==> i == s.Head() && forall j | 0 <= j < |s.procs| :: !Eligible(s.procs[j])
  {
  }

  /** Killing the newest process and yielding from idle runs the killed process. */
  lemma KilledHeadRuns()
    ensures Run(Init(), [CreateOp(1), KillOp(1), YieldOp]).cur == 1
    ensures Run(Init(), [CreateOp(1), KillOp(1), YieldOp]).procs[1].state == Running
  {
    var a, b, c := [CreateOp(1)], [CreateOp(1), KillOp(1)], [CreateOp(1), KillOp(1), YieldOp];
    assert a[..0] == [] && b[..1] == a && c[..2] == b;
    assert Run(Init(), a) == Create(Init(), 1);
    assert Run(Init(), b) == Kill(Create(Init(), 1), 1);
  }

  /** A killed current process is put back to WAITING by the first switch that leaves it. */
  lemma KilledCurrentRevives(s: Sys)
    requires SysOk(s) && s.procs[s.cur].state == Zombie
    ensures Switch(s).procs[s.cur].state == (if Target(s) == s.cur then Zombie else Waiting)
    ensures Target(s) == s.cur <==> s.cur == s.Head() && forall j | 0 <= j < |s.procs| :: !Eligible(s.procs[j])
  {
  }

  /** Process `a` comes before `b`: a lower priority value, or the same and newer. */
  ghost predicate Before(procs: seq<Proc>, a: nat, b: nat)
    requires a < |procs| && b < |procs|
  {
    procs[a].priority < procs[b].priority || (procs[a].priority == procs[b].priority && a > b)
  }

  /**
   A switch does not leave the current process: it is waiting and preferred to everybody else who is, or it
   is the list head and there is nobody to switch to.
   */
  ghost predicate Stays(s: Sys)
    requires s.cur < |s.procs|
  {
    if Eligible(s.procs[s.cur]) then
      forall j: nat {:trigger Before(s.procs, s.cur, j)} |
        j < |s.procs| && j != s.cur && Eligible(s.procs[j]) :: Before(s.procs, s.cur, j)
    else
      s.cur == s.Head() && forall j | 0 <= j < |s.procs| :: !Eligible(s.procs[j])
  }

  lemma StaysIff(s: Sys)
    requires s.cur < |s.procs|
    ensures Target(s) == s.cur <==> Stays(s)
    ensures Best(s.procs, 0) == s.cur <==> Stays(s) && Eligible(s.procs[s.cur])
  {
    var b := Best(s.procs, 0);
    if Eligible(s.procs[s.cur]) && b != s.cur {
      assert !Before(s.procs, s.cur, b);
    }
  }

  /** The scan does not depend on a process that it does not choose, as long as that stays out of the choice. */
  lemma SameBest(procs: seq<Proc>, procs': seq<Proc>, k: nat, i: nat)
    requires |procs'| == |procs| && i <= |procs| && k < |procs|
    requires Best(procs, i) != k && !Eligible(procs'[k])
    requires forall j | 0 <= j < |procs| && j != k :: procs'[j] == procs[j]
    ensures Best(procs', i) == Best(procs, i)
  {
  }

  /**
   A change of the current process's state to one that cannot be chosen matters to the next switch exactly if
   that switch would not have left the process.
   */
  lemma ChangeOfCurrent(s: Sys, k: Sys)
    requires s.cur < |s.procs| && k.cur == s.cur && |k.procs| == |s.procs| && !Eligible(k.procs[s.cur])
    requires forall j | 0 <= j < |s.procs| && j != s.cur :: k.procs[j] == s.procs[j]
    ensures !Stays(s) ==> Target(k) == Target(s) != s.cur
    ensures Stays(s) ==> Switch(s) == s && (Switch(k) == k || Switch(k).cur != s.cur)
  {
    StaysIff(s);
    if Best(s.procs, 0) != s.cur {
      SameBest(s.procs, k.procs, s.cur, 0);
    }
  }

  lemma ZombieSwitch(s: Sys, k: Sys)
    requires s.cur < |s.procs| && k == s.(procs := s.procs[s.cur := s.procs[s.cur].(state := Zombie)])
    ensures Switch(k) == Switch(s) <==> s.procs[s.cur].state == Zombie || !Stays(s)
  {
    ChangeOfCurrent(s, k);
    if !Stays(s) {
      assert Switch(k).procs == Switch(s).procs;
    } else if s.procs[s.cur].state == Zombie {
      assert k.procs == s.procs;
    } else {
      assert k.procs[s.cur] != s.procs[s.cur];
    }
  }

  /**
   Killing the current process is forgotten by the next switch, which gives the same state with the kill as
   without it, exactly if that switch leaves the process; or if it was a zombie already.
   */
  lemma KillOfCurrentIsForgotten(s: Sys)
    requires SysOk(s) && |s.procs| <= WORD_LIMIT
    ensures Switch(Kill(s, s.procs[s.cur].pid)) == Switch(s) <==> s.procs[s.cur].state == Zombie || !Stays(s)
  {
    KillOfCurrent(s);
    ZombieSwitch(s, Kill(s, s.procs[s.cur].pid));
  }

  lemma KillOfCurrent(s: Sys)
    requires SysOk(s) && |s.procs| <= WORD_LIMIT
    ensures Kill(s, s.procs[s.cur].pid) == s.(procs := s.procs[s.cur := s.procs[s.cur].(state := Zombie)])
  {
    assert PidAt(s.procs, s.cur);
    KillHitsPid(s, s.cur);
  }

  /** Idle is killed while it runs, and left by a yield. */
  lemma KilledIdleWaits()
    ensures Run(Init(), [CreateOp(1), KillOp(0)]) == Sys([Proc(0, 0, Zombie, 0, 0), Proc(1, 0, Waiting, 1, 0)], 0)
    ensures Run(Init(), [CreateOp(1), KillOp(0), YieldOp])
      == Sys([Proc(0, 0, Waiting, 0, 0), Proc(1, 0, Running, 1, 0)], 1)
  {
    var a, b, c := [CreateOp(1)], [CreateOp(1), KillOp(0)], [CreateOp(1), KillOp(0), YieldOp];
    assert a[..0] == [] && b[..1] == a && c[..2] == b;
    assert Run(Init(), a) == Create(Init(), 1);
    var s := Sys([Proc(0, 0, Zombie, 0, 0), Proc(1, 0, Waiting, 1, 0)], 0);
    assert Kill(Create(Init(), 1), 0).procs == s.procs;
    assert Eligible(s.procs[1]);
    assert Switch(s).procs == [Proc(0, 0, Waiting, 0, 0), Proc(1, 0, Running, 1, 0)];
  }

  /** A run in which a killed process runs again: idle is killed while current and is back after two yields. */
  lemma KilledCurrentRunsAgain()
    ensures Run(Init(), [CreateOp(1), KillOp(0), YieldOp, YieldOp]).cur == 0
    ensures Run(Init(), [CreateOp(1), KillOp(0), YieldOp, YieldOp]).procs[0].state == Running
  {
    KilledIdleWaits();
    RunSnoc(Init(), [CreateOp(1), KillOp(0), YieldOp], YieldOp);
    assert [CreateOp(1), KillOp(0), YieldOp] + [YieldOp] == [CreateOp(1), KillOp(0), YieldOp, YieldOp];
    assert Eligible(Run(Init(), [CreateOp(1), KillOp(0), YieldOp]).procs[0]);
  }

  lemma RunSnoc(s: Sys, ops: seq<Op>, op: Op)
    requires s.cur < |s.procs|
    ensures Run(s, ops + [op]) == Step(Run(s, ops), op)
  {
    assert (ops + [op])[..|ops|] == ops;
  }

  /** A process off the CPU that is not the list head, and is a zombie or has the priority nobody is chosen for. */
  ghost predicate Buried(s: Sys, i: nat) {
    && s.cur < |s.procs| && i < |s.procs| - 1 && i != s.cur
    && (s.procs[i].state == Zombie || s.procs[i].priority == NEVER)
  }

  lemma SwitchKeepsBuried(s: Sys, i: nat)
    requires Buried(s, i)
    ensures Buried(Switch(s), i) && Switch(s).procs[i] == s.procs[i]
  {
  }

  lemma StepKeepsBuried(s: Sys, i: nat, op: Op)
    requires Buried(s, i)
    ensures Buried(Step(s, op), i)
    ensures s.procs[i].state == Zombie ==> Step(s, op).procs[i].state == Zombie
  {
    match op
    case YieldOp => SwitchKeepsBuried(s, i);
    case TickOp(now) => SwitchKeepsBuried(WakeAll(s, now), i);
    case CreateOp(priority) =>
    case KillOp(pid) =>
    case SleepOp(now, ms) =>
      var asleep := s.procs[s.cur := s.procs[s.cur].(wakeup := (now + ms) % WORD_LIMIT, state := Sleeping)];
      SwitchKeepsBuried(s.(procs := asleep), i);
  }

  /** Such a process never runs again, whatever happens, and a zombie among them stays one. */
  lemma {:induction false} BuriedForever(s: Sys, i: nat, ops: seq<Op>)
    requires Buried(s, i)
    ensures Buried(Run(s, ops), i)
    ensures s.procs[i].state == Zombie ==> Run(s, ops).procs[i].state == Zombie
  {
    if ops != [] {
      BuriedForever(s, i, ops[..|ops| - 1]);
      StepKeepsBuried(Run(s, ops[..|ops| - 1]), i, ops[|ops| - 1]);
    }
  }

  lemma KillBuries(s: Sys, pid: Word)
    requires SysOk(s)
    requires var i := Newest(s.procs, pid, |s.procs|); i != s.cur && i < |s.procs| - 1
    ensures Buried(Kill(s, pid), Newest(s.procs, pid, |s.procs|))
  {
  }

  /** Below 2^32 processes a kill hits the process created with that pid, or nobody. */
  lemma KillHitsPid(s: Sys, pid: Word)
    requires SysOk(s) && |s.procs| <= WORD_LIMIT
    ensures Kill(s, pid) == if pid < |s.procs| then s.(procs := s.procs[pid := s.procs[pid].(state := Zombie)]) else s
  {
    var i := Newest(s.procs, pid, |s.procs|);
    if i < |s.procs| { assert PidAt(s.procs, i); }
    if pid < |s.procs| { assert PidAt(s.procs, pid); }
  }

  // ---------------------------------------------------------------- which killed processes run again

  ghost predicate RunsAfter(s: Sys, ops: seq<Op>, i: nat)
    requires s.cur < |s.procs| && i < |s.procs|
  {
    Run(s, ops).cur == i && Run(s, ops).procs[i].state == Running
  }

  /**
   A killed process has a way back to the CPU: off it, by being the list head; on it, by being eligible once
   it is left, or else by being the list head and left for somebody who is.
   */
  ghost predicate HasWayBack(s: Sys, i: nat)
    requires s.cur < |s.procs| && i < |s.procs|
  {
    if i != s.cur then i == s.Head()
    else s.procs[i].priority < NEVER || (i == s.Head() && exists j :: 0 <= j < |s.procs| && Eligible(s.procs[j]))
  }

  /** Current but not RUNNING, and neither eligible when left nor in a position to be left and fallen back on. */
  ghost predicate Stranded(s: Sys, i: nat) {
    && s.cur < |s.procs| && i == s.cur && s.procs[i].state != Running && s.procs[i].priority == NEVER
    && (i == s.Head() ==> forall j | 0 <= j < |s.procs| :: !Eligible(s.procs[j]))
  }

  lemma SwitchKeepsStranded(s: Sys, i: nat)
    requires Stranded(s, i)
    ensures Stranded(Switch(s), i) || Buried(Switch(s), i)
  {
  }

  lemma StepKeepsStranded(s: Sys, i: nat, op: Op)
    requires SysOk(s) && Stranded(s, i)
    ensures Stranded(Step(s, op), i) || Buried(Step(s, op), i)
  {
    match op
    case YieldOp => SwitchKeepsStranded(s, i);
    case TickOp(now) =>
      TickWakesOnlyCurrent(s, now);
      assert forall j | 0 <= j < |s.procs| && j != i :: Eligible(WakeAll(s, now).procs[j]) == Eligible(s.procs[j]);
      SwitchKeepsStranded(WakeAll(s, now), i);
    case CreateOp(priority) =>
    case KillOp(pid) =>
      assert forall j | 0 <= j < |s.procs| && Eligible(Kill(s, pid).procs[j]) :: Eligible(s.procs[j]);
    case SleepOp(now, ms) =>
      var asleep := s.procs[s.cur := s.procs[s.cur].(wakeup := (now + ms) % WORD_LIMIT, state := Sleeping)];
      SwitchKeepsStranded(s.(procs := asleep), i);
  }

  lemma {:induction false} StrandedForever(s: Sys, i: nat, ops: seq<Op>)
    requires SysOk(s) && (Stranded(s, i) || Buried(s, i))
    ensures SysOk(Run(s, ops)) && (Stranded(Run(s, ops), i) || Buried(Run(s, ops), i))
    ensures !RunsAfter(s, ops, i)
  {
    if ops != [] {
      var t, op := Run(s, ops[..|ops| - 1]), ops[|ops| - 1];
      StrandedForever(s, i, ops[..|ops| - 1]);
      StepOk(t, op);
      if Stranded(t, i) { StepKeepsStranded(t, i, op); } else { StepKeepsBuried(t, i, op); }
    }
  }

  /** From `s` to `t` the processes below `n` but `i` were killed. */
  ghost predicate Cleared(s: Sys, t: Sys, n: nat, i: nat) {
    && SysOk(t) && t.cur == s.cur && |t.procs| == |s.procs|
    && forall j | 0 <= j < |s.procs| ::
      t.procs[j] == if j < n && j != i then s.procs[j].(state := Zombie) else s.procs[j]
  }

  lemma KillClears(s: Sys, t: Sys, n: nat, i: nat)
    requires Cleared(s, t, n, i) && n < |s.procs| <= WORD_LIMIT
    ensures Cleared(s, if n == i then t else Kill(t, n), n + 1, i)
  {
    KillHitsPid(t, n);
    KillOk(t, n);
  }

  lemma KillStep(s: Sys, ops: seq<Op>, n: nat, i: nat) returns (more: seq<Op>)
    requires s.cur < |s.procs| && Cleared(s, Run(s, ops), n, i) && n < |s.procs| <= WORD_LIMIT
    ensures Cleared(s, Run(s, more), n + 1, i)
  {
    KillClears(s, Run(s, ops), n, i);
    if n == i {
      more := ops;
    } else {
      more := ops + [KillOp(n)];
      RunSnoc(s, ops, KillOp(n));
    }
  }

  /** The run that kills all processes below `n` but `i`, in the order of their pids. */
  lemma {:induction false} KillOthers(s: Sys, n: nat, i: nat) returns (ops: seq<Op>)
    requires SysOk(s) && n <= |s.procs| <= WORD_LIMIT
    ensures Cleared(s, Run(s, ops), n, i)
  {
    if n == 0 {
      ops := [];
    } else {
      ops := KillOthers(s, n - 1, i);
      ops := KillStep(s, ops, n - 1, i);
    }
  }

  lemma OnlyChoice(t: Sys, i: nat)
    requires t.cur < |t.procs| && i < |t.procs| && i != t.cur && (Eligible(t.procs[i]) || i == t.Head())
    requires forall j | 0 <= j < |t.procs| && j != i :: !Eligible(t.procs[j])
    ensures Switch(t).cur == i && Switch(t).procs[i].state == Running
  {
    assert Target(t) == i;
  }

  /** With everybody else killed, a yield goes to whoever is eligible or the list head. */
  lemma ClearTheWay(s: Sys, i: nat) returns (ops: seq<Op>)
    requires SysOk(s) && |s.procs| <= WORD_LIMIT && i < |s.procs| && i != s.cur
    requires Eligible(s.procs[i]) || i == s.Head()
    ensures RunsAfter(s, ops, i)
  {
    var kills := KillOthers(s, |s.procs|, i);
    ops := kills + [YieldOp];
    RunSnoc(s, kills, YieldOp);
    OnlyChoice(Run(s, kills), i);
  }

  lemma {:induction false} RunAppend(s: Sys, a: seq<Op>, b: seq<Op>)
    requires s.cur < |s.procs|
    ensures Run(s, a + b) == Run(Run(s, a), b)
  {
    if b == [] {
      assert a + b == a;
    } else {
      assert (a + b)[..|a + b| - 1] == a + b[..|b| - 1];
      RunAppend(s, a, b[..|b| - 1]);
    }
  }

  /** A zombie that is current is left as soon as anybody is eligible, and then waits. */
  lemma ZombieIsLeft(s: Sys, j: nat)
    requires SysOk(s) && s.procs[s.cur].state == Zombie && j < |s.procs| && Eligible(s.procs[j])
    ensures Switch(s).cur != s.cur && |Switch(s).procs| == |s.procs|
    ensures Switch(s).procs[s.cur] == s.procs[s.cur].(state := Waiting)
  {
  }

  lemma WayBack(s: Sys, i: nat) returns (ops: seq<Op>)
    requires SysOk(s) && |s.procs| < WORD_LIMIT && i < |s.procs| && s.procs[i].state == Zombie && HasWayBack(s, i)
    ensures RunsAfter(s, ops, i)
  {
    if i != s.cur {
      ops := ClearTheWay(s, i);
    } else {
      var first: seq<Op>, t, j: nat;
      if s.procs[i].priority < NEVER {
        first, t, j := [CreateOp(0)], Create(s, 0), |s.procs|;
        CreateOk(s, 0);
        assert first[..0] == [];
        assert Eligible(t.procs[j]);
      } else {
        first, t := [], s;
        j :| 0 <= j < |s.procs| && Eligible(s.procs[j]);
      }
      assert Run(s, first) == t;
      ZombieIsLeft(t, j);
      SwitchOk(t);
      RunSnoc(s, first, YieldOp);
      var rest := ClearTheWay(Switch(t), i);
      RunAppend(s, first + [YieldOp], rest);
      ops := first + [YieldOp] + rest;
    }
  }

  /** Which killed processes run again in some continuation. */
  lemma KilledRunsAgainIff(s: Sys, i: nat)
    requires SysOk(s) && |s.procs| < WORD_LIMIT && i < |s.procs| && s.procs[i].state == Zombie
    ensures (exists ops :: RunsAfter(s, ops, i)) <==> HasWayBack(s, i)
  {
    if HasWayBack(s, i) {
      var ops := WayBack(s, i);
    } else {
      forall ops ensures !RunsAfter(s, ops, i) {
        StrandedForever(s, i, ops);
      }
    }
  }

  // ---------------------------------------------------------------- sleeping

  /** The current process is the list head, and there is nobody else to switch to. */
  ghost predicate Stuck(s: Sys)
    requires s.cur < |s.procs|
  {
    s.cur == s.Head() && forall j | 0 <= j < |s.procs| && j != s.cur :: !Eligible(s.procs[j])
  }

  /**
   What `process_sleep` leaves behind: the caller is SLEEPING exactly when there is nowhere else to go, and
   then it is still the current process; otherwise it is WAITING like everybody else. Either way the time
   recorded is that of the call plus the duration, in 32 bits.
   */
  lemma SleepExact(s: Sys, now: Word, ms: Word)
    requires SysOk(s)
    ensures var s' := Sleep(s, now, ms);
      && (s'.procs[s.cur].state == Sleeping <==> Stuck(s)) && (s'.cur == s.cur <==> Stuck(s))
      && (!Stuck(s) ==> s'.procs[s.cur].state == Waiting)
      && s'.procs[s.cur].wakeup == (now + ms) % 0x1_0000_0000
  {
    var asleep := s.procs[s.cur := s.procs[s.cur].(wakeup := (now + ms) % WORD_LIMIT, state := Sleeping)];
    assert !Eligible(asleep[s.cur]);
    assert forall j | 0 <= j < |s.procs| && j != s.cur :: Eligible(asleep[j]) == Eligible(s.procs[j]);
  }

  lemma TickOfStuck(s: Sys, t: Word)
    requires SysOk(s) && Stuck(s) && s.procs[s.cur].state in {Sleeping, Waiting}
    ensures Tick(s, t) == WakeAll(s, t) && SysOk(Tick(s, t)) && Stuck(Tick(s, t))
    ensures Tick(s, t).procs[s.cur] == Woken(s.procs[s.cur], t)
  {
    WakeOk(s, t);
    TickWakesOnlyCurrent(s, t);
    var w := WakeAll(s, t);
    assert forall j | 0 <= j < |s.procs| && j != s.cur :: Eligible(w.procs[j]) == Eligible(s.procs[j]);
  }

  /** Such a sleeper is woken by the first tick if and only if that comes at or after the call plus the duration. */
  lemma SleepWakesIff(s: Sys, now: Word, ms: Word, t: Word)
    requires SysOk(s) && Stuck(s)
    ensures Tick(Sleep(s, now, ms), t).procs[s.cur].state == Waiting <==> t >= (now + ms) % 0x1_0000_0000
  {
    AsleepIsStuck(s, now, ms);
    TickOfStuck(Sleep(s, now, ms), t);
  }

  lemma AsleepIsStuck(s: Sys, now: Word, ms: Word)
    requires SysOk(s) && Stuck(s)
    ensures SysOk(Sleep(s, now, ms)) && Stuck(Sleep(s, now, ms)) && Sleep(s, now, ms).cur == s.cur
    ensures Sleep(s, now, ms).procs[s.cur].state == Sleeping
    ensures Sleep(s, now, ms).procs[s.cur].wakeup == (now + ms) % 0x1_0000_0000
  {
    SleepOk(s, now, ms);
    SleepExact(s, now, ms);
  }

  /** Through any sequence of ticks it is SLEEPING, and current, until the first one that comes late enough. */
  lemma {:induction false} SleepsUntilDue(s: Sys, now: Word, ms: Word, ticks: seq<Op>)
    requires SysOk(s) && Stuck(s) && forall op | op in ticks :: op.TickOp?
    ensures var r := Run(Sleep(s, now, ms), ticks);
      && SysOk(r) && Stuck(r) && r.cur == s.cur && r.procs[s.cur].wakeup == (now + ms) % 0x1_0000_0000
      && r.procs[s.cur].state
        == if exists op :: op in ticks && op.now >= (now + ms) % 0x1_0000_0000 then Waiting else Sleeping
  {
    AsleepIsStuck(s, now, ms);
    if ticks != [] {
      var before, last := ticks[..|ticks| - 1], ticks[|ticks| - 1];
      SleepsUntilDue(s, now, ms, before);
      TickOfStuck(Run(Sleep(s, now, ms), before), last.now);
      assert forall op :: op in ticks <==> op in before || op == last;
    }
  }

  /**
   Nobody but the current process can be asleep, so a tick reads the timer at most once and wakes at most that one.
   */
  lemma TickWakesOnlyCurrent(s: Sys, now: Word)
    requires SysOk(s)
    ensures forall i | 0 <= i < |s.procs| && i != s.cur :: WakeAll(s, now).procs[i] == s.procs[i]
    ensures WakeAll(s, now).procs[s.cur].state ==
      (if s.procs[s.cur].state == Sleeping && now >= s.procs[s.cur].wakeup then Waiting else s.procs[s.cur].state)
  {
  }

  ghost predicate SameButWakeup(s: Sys, t: Sys) {
    && s.cur == t.cur && |s.procs| == |t.procs|
    && forall i | 0 <= i < |s.procs| :: s.procs[i] == t.procs[i].(wakeup := s.procs[i].wakeup)
  }

  /**
   Sleeping is yielding: whatever the time and the duration, both lead to the same state but for the recorded
   wake-up time, exactly if a yield leaves the caller; or if the caller was asleep already.
   */
  lemma SleepIsYieldIff(s: Sys, now: Word, ms: Word)
    requires SysOk(s)
    ensures SameButWakeup(Sleep(s, now, ms), Switch(s)) <==> s.procs[s.cur].state == Sleeping || !Stays(s)
  {
    var asleep := s.procs[s.cur := s.procs[s.cur].(wakeup := (now + ms) % WORD_LIMIT, state := Sleeping)];
    StaysIff(s);
    ChangeOfCurrent(s, s.(procs := asleep));
  }

  /** Idle sleeps for 1000 ms and runs again at the very next yield. */
  lemma SleeperRunsEarly()
    ensures Run(Init(), [CreateOp(1), SleepOp(0, 1000)]).procs[0] == Proc(0, 0, Waiting, 0, 1000)
    ensures Run(Init(), [CreateOp(1), SleepOp(0, 1000), YieldOp]).cur == 0
  {
    var a, b, c := [CreateOp(1)], [CreateOp(1), SleepOp(0, 1000)], [CreateOp(1), SleepOp(0, 1000), YieldOp];
    assert a[..0] == [] && b[..1] == a && c[..2] == b;
    var s1, s2 := Create(Init(), 1), Sys([Proc(0, 0, Waiting, 0, 1000), Proc(1, 0, Running, 1, 0)], 1);
    assert Run(Init(), a) == s1 && Eligible(s1.procs[1]);
    assert Sleep(s1, 0, 1000).procs == s2.procs;
    assert Eligible(s2.procs[0]);
  }

  // ---------------------------------------------------------------- alternation

  /** The current process is running and everybody else is waiting. */
  ghost predicate Calm(s: Sys) {
    && s.cur < |s.procs| && s.procs[s.cur].state == Running
    && forall i | 0 <= i < |s.procs| && i != s.cur :: s.procs[i].state == Waiting
  }

  /** `a` and `b` are the first and the second of all processes, and both can be chosen. */
  ghost predicate TopTwo(procs: seq<Proc>, a: nat, b: nat) {
    && a < |procs| && b < |procs| && a != b
    && procs[a].priority < NEVER && procs[b].priority < NEVER
    && (forall i: nat {:trigger Before(procs, a, i)} | i < |procs| && i != a :: Before(procs, a, i))
    && forall i: nat {:trigger Before(procs, b, i)} | i < |procs| && i != a && i != b :: Before(procs, b, i)
  }

  /** Two processes below priority 255 are enough for a first and a second to exist. */
  lemma TopTwoExists(procs: seq<Proc>, i: nat, j: nat) returns (a: nat, b: nat)
    requires i < |procs| && j < |procs| && i != j && procs[i].priority < NEVER && procs[j].priority < NEVER
    ensures TopTwo(procs, a, b)
  {
    var all := seq(|procs|, k requires 0 <= k < |procs| => procs[k].(state := Waiting));
    a := Best(all, 0);
    assert Eligible(all[i]) && Eligible(all[j]);
    var rest := all[a := all[a].(state := Stopped)];
    assert Eligible(rest[i]) || Eligible(rest[j]);
    b := Best(rest, 0);
    forall k: nat {:trigger Before(procs, a, k)} | k < |procs| && k != a ensures Before(procs, a, k) {
      assert Eligible(all[k]) || all[k].priority == NEVER;
    }
    forall k: nat {:trigger Before(procs, b, k)} | k < |procs| && k != a && k != b ensures Before(procs, b, k) {
      assert Eligible(rest[k]) || rest[k].priority == NEVER;
    }
  }

  /** The scan finds `t` if `t` is eligible and comes before everybody but the ineligible `cur`. */
  lemma BestIs(procs: seq<Proc>, t: nat, cur: nat)
    requires t < |procs| && cur < |procs| && Eligible(procs[t]) && !Eligible(procs[cur])
    requires forall i: nat {:trigger Before(procs, t, i)} | i < |procs| && i != t && i != cur :: Before(procs, t, i)
    ensures Best(procs, 0) == t
  {
    assert Best(procs, 0) != t ==> Before(procs, t, Best(procs, 0));
  }

  lemma SamePriorities(procs: seq<Proc>, procs': seq<Proc>, a: nat, b: nat)
    requires TopTwo(procs, a, b) && |procs| == |procs'|
    requires forall i | 0 <= i < |procs| :: procs'[i].priority == procs[i].priority
    ensures TopTwo(procs', a, b)
  {
    forall i: nat {:trigger Before(procs', a, i)} | i < |procs| && i != a ensures Before(procs', a, i) {
      assert Before(procs, a, i);
    }
    forall i: nat {:trigger Before(procs', b, i)} | i < |procs| && i != a && i != b ensures Before(procs', b, i) {
      assert Before(procs, b, i);
    }
  }

  lemma SwitchAlternates(s: Sys, a: nat, b: nat)
    requires Calm(s) && TopTwo(s.procs, a, b)
    ensures Calm(Switch(s)) && TopTwo(Switch(s).procs, a, b)
    ensures Switch(s).cur == if s.cur == a then b else a
  {
    var t := if s.cur == a then b else a;
    assert Eligible(s.procs[t]);
    BestIs(s.procs, t, s.cur);
    SamePriorities(s.procs, Switch(s).procs, a, b);
  }

  /**
   A tick of a calm system wakes nobody and a sleep records a time that nothing reads, so both do what a yield does.
   */
  lemma StepAlternates(s: Sys, a: nat, b: nat, op: Op)
    requires Calm(s) && TopTwo(s.procs, a, b) && (op.YieldOp? || op.TickOp? || op.SleepOp?)
    ensures Calm(Step(s, op)) && TopTwo(Step(s, op).procs, a, b)
    ensures Step(s, op).cur == if s.cur == a then b else a
  {
    SwitchAlternates(s, a, b);
    if op.TickOp? {
      assert WakeAll(s, op.now).procs == s.procs;
    } else if op.SleepOp? {
      SleepAlternates(s, a, b, op.now, op.ms);
    }
  }

  lemma SleepAlternates(s: Sys, a: nat, b: nat, now: Word, ms: Word)
    requires Calm(s) && TopTwo(s.procs, a, b)
    ensures Calm(Sleep(s, now, ms)) && TopTwo(Sleep(s, now, ms).procs, a, b)
    ensures Sleep(s, now, ms).cur == if s.cur == a then b else a
  {
    var t := if s.cur == a then b else a;
    var asleep := s.procs[s.cur := s.procs[s.cur].(wakeup := (now + ms) % WORD_LIMIT, state := Sleeping)];
    assert Eligible(s.procs[t]);
    BestIs(s.procs, t, s.cur);
    SameBest(s.procs, asleep, s.cur, 0);
    SamePriorities(s.procs, Sleep(s, now, ms).procs, a, b);
  }

  ghost predicate OnlySwitches(ops: seq<Op>) {
    forall op | op in ops :: op.YieldOp? || op.TickOp? || op.SleepOp?
  }

  predicate Odd(n: nat) {
    n % 2 == 1
  }

  lemma OddNext(n: nat)
    ensures Odd(n + 1) == !Odd(n)
  {
  }

  /**
   From a calm state the first switch, by tick, yield or sleep, goes to one of the two best processes, and
   from then on these two alternate for ever, however long they mean to sleep; every other process starves.
   */
  lemma {:induction false} AlternationForever(s: Sys, a: nat, b: nat, ops: seq<Op>)
    requires Calm(s) && TopTwo(s.procs, a, b) && OnlySwitches(ops)
    ensures Calm(Run(s, ops)) && TopTwo(Run(s, ops).procs, a, b)
    ensures ops != [] ==> Run(s, ops).cur == (if (s.cur == a) == Odd(|ops|) then b else a)
  {
    if ops != [] {
      var ops', op := ops[..|ops| - 1], ops[|ops| - 1];
      AlternationForever(s, a, b, ops');
      assert op in ops;
      StepAlternates(Run(s, ops'), a, b, op);
      OddNext(|ops'|);
    }
  }

  // ---------------------------------------------------------------- the freeze

  /** The current process is itself what the scan prefers, so no switch leaves it, and nobody is left to wake. */
  ghost predicate Frozen(s: Sys) {
    && s.cur < |s.procs| && Best(s.procs, 0) == s.cur
    && forall i | 0 <= i < |s.procs| :: s.procs[i].state != Sleeping
  }

  /** Ticks, yields, creations of processes with a larger priority value than that of `p`, and kills of others. */
  ghost predicate Harmless(op: Op, p: Proc) {
    match op
    case YieldOp => true
    case TickOp(now) => true
    case CreateOp(priority) => priority > p.priority
    case KillOp(pid) => pid != p.pid
    case SleepOp(now, ms) => false
  }

  /** Creating a process ends the freeze exactly if the newcomer is preferred: a lower value, or an equal one. */
  lemma CreateKeepsFreezeIff(s: Sys, priority: byte)
    requires Frozen(s)
    ensures Frozen(Create(s, priority)) <==> priority > s.procs[s.cur].priority
  {
    var procs := Create(s, priority).procs;
    var n := |s.procs|;
    assert forall j | 0 <= j < n :: procs[j] == s.procs[j];
    var b := Best(procs, 0);
    assert Eligible(procs[s.cur]);
    assert Eligible(s.procs[s.cur]);
    if priority <= s.procs[s.cur].priority {
      assert Eligible(procs[n]);
    }
    assert b < n ==> Eligible(s.procs[b]) && procs[b] == s.procs[b];
    assert forall j | 0 <= j < |procs| && procs[j].state == Sleeping :: j < n && s.procs[j].state == Sleeping;
  }

  /** A kill ends the freeze exactly if it hits the current process. */
  lemma KillKeepsFreezeIff(s: Sys, pid: Word)
    requires Frozen(s)
    ensures Frozen(Kill(s, pid)) <==> Newest(s.procs, pid, |s.procs|) != s.cur
  {
    var k, i := Kill(s, pid), Newest(s.procs, pid, |s.procs|);
    if i < |s.procs| && i != s.cur {
      SameBest(s.procs, k.procs, i, 0);
    }
  }

  /** A sleep ends it. */
  lemma SleepEndsFreeze(s: Sys, now: Word, ms: Word)
    requires Frozen(s)
    ensures Sleep(s, now, ms).cur != s.cur || !Frozen(Sleep(s, now, ms))
  {
    var asleep := s.procs[s.cur := s.procs[s.cur].(wakeup := (now + ms) % WORD_LIMIT, state := Sleeping)];
    if Target(s.(procs := asleep)) == s.cur {
      assert Sleep(s, now, ms).procs[s.cur].state == Sleeping;
    }
  }

  /** Which operations a frozen process survives on the CPU, exactly. */
  lemma FreezeStepIff(s: Sys, op: Op)
    requires SysOk(s) && Frozen(s) && |s.procs| <= WORD_LIMIT
    ensures Frozen(Step(s, op)) && Step(s, op).cur == s.cur <==> Harmless(op, s.procs[s.cur])
  {
    match op
    case YieldOp =>
    case TickOp(now) => assert WakeAll(s, now).procs == s.procs;
    case CreateOp(priority) => CreateKeepsFreezeIff(s, priority);
    case SleepOp(now, ms) => SleepEndsFreeze(s, now, ms);
    case KillOp(pid) =>
      KillKeepsFreezeIff(s, pid);
      KillHitsPid(s, pid);
      assert PidAt(s.procs, s.cur);
  }

  /** From `s` to `t` processes were at most created and killed. */
  ghost predicate OnlyKilled(s: Sys, t: Sys) {
    && |s.procs| <= |t.procs|
    && forall i | 0 <= i < |s.procs| :: t.procs[i] == s.procs[i] || t.procs[i] == s.procs[i].(state := Zombie)
  }

  lemma StepKeepsFreeze(s: Sys, op: Op)
    requires Frozen(s) && Harmless(op, s.procs[s.cur])
    ensures Frozen(Step(s, op)) && Step(s, op).cur == s.cur && OnlyKilled(s, Step(s, op))
    ensures Step(s, op).procs[s.cur] == s.procs[s.cur]
  {
    match op
    case YieldOp =>
    case TickOp(now) => assert WakeAll(s, now).procs == s.procs;
    case CreateOp(priority) => CreateKeepsFreezeIff(s, priority);
    case KillOp(pid) => KillKeepsFreezeIff(s, pid);
  }

  /**
   Once the current process is WAITING and the best choice, ticks, yields, creations of less urgent processes
   and kills of others never move it off the CPU, and nobody else runs.
   */
  lemma {:induction false} FrozenForever(s: Sys, ops: seq<Op>)
    requires Frozen(s) && forall op | op in ops :: Harmless(op, s.procs[s.cur])
    ensures Frozen(Run(s, ops)) && Run(s, ops).cur == s.cur && OnlyKilled(s, Run(s, ops))
    ensures Run(s, ops).procs[s.cur] == s.procs[s.cur]
  {
    if ops != [] {
      FrozenForever(s, ops[..|ops| - 1]);
      assert ops[|ops| - 1] in ops;
      StepKeepsFreeze(Run(s, ops[..|ops| - 1]), ops[|ops| - 1]);
    }
  }

  /** The process stays frozen at `cur` throughout the run. */
  ghost predicate FrozenThroughout(s: Sys, ops: seq<Op>)
    requires s.cur < |s.procs|
  {
    Frozen(Run(s, ops)) && Run(s, ops).cur == s.cur && (ops != [] ==> FrozenThroughout(s, ops[..|ops| - 1]))
  }

  /** The freeze lasts exactly as long as nothing but these operations happens. */
  lemma {:induction false} FreezeLastsIff(s: Sys, ops: seq<Op>)
    requires SysOk(s) && Frozen(s) && |Run(s, ops).procs| <= WORD_LIMIT
    ensures SysOk(Run(s, ops))
    ensures FrozenThroughout(s, ops) <==> forall op | op in ops :: Harmless(op, s.procs[s.cur])
  {
    if ops != [] {
      var ops', op := ops[..|ops| - 1], ops[|ops| - 1];
      FreezeLastsIff(s, ops');
      StepOk(Run(s, ops'), op);
      assert forall o :: o in ops <==> o in ops' || o == op;
      if forall o | o in ops' :: Harmless(o, s.procs[s.cur]) {
        FrozenForever(s, ops');
        FreezeStepIff(Run(s, ops'), op);
      }
    }
  }

  /** Idle sleeps alone and is woken by a tick: it is then WAITING, still current, and frozen. */
  lemma FreezeIsReachable()
    ensures Run(Init(), [SleepOp(0, 5), TickOp(5)]) == Sys([Proc(0, 0, Waiting, 0, 5)], 0)
    ensures Frozen(Run(Init(), [SleepOp(0, 5), TickOp(5)]))
  {
    var a, b := [SleepOp(0, 5)], [SleepOp(0, 5), TickOp(5)];
    assert a[..0] == [] && b[..1] == a;
    var s1, s2 := Sys([Proc(0, 0, Sleeping, 0, 5)], 0), Sys([Proc(0, 0, Waiting, 0, 5)], 0);
    assert Run(Init(), a) == Sleep(Init(), 0, 5) == s1;
    assert WakeAll(s1, 5).procs == s2.procs;
    assert Switch(s2) == s2;
  }

  /** Idle frozen, and a newcomer that is less urgent. */
  const FROZEN := Sys([Proc(0, 0, Waiting, 0, 5), Proc(1, 0, Waiting, 1, 0)], 0)

  lemma FrozenIsOk()
    ensures SysOk(FROZEN) && Frozen(FROZEN)
  {
    assert Eligible(FROZEN.procs[0]);
    assert forall i: nat {:trigger PidAt(FROZEN.procs, i)} | i < 2 :: PidAt(FROZEN.procs, i);
  }

  lemma FrozenFollows(ops: seq<Op>)
    requires Run(Init(), ops) == Sys([Proc(0, 0, Waiting, 0, 5)], 0)
    ensures Run(Init(), ops + [CreateOp(1)]) == FROZEN
  {
    RunSnoc(Init(), ops, CreateOp(1));
    assert FROZEN.procs == [Proc(0, 0, Waiting, 0, 5)] + [Proc(1, 0, Waiting, 1, 0)];
  }

  lemma FrozenIsReachable()
    ensures Run(Init(), [SleepOp(0, 5), TickOp(5)] + [CreateOp(1)]) == FROZEN
  {
    FreezeIsReachable();
    FrozenFollows([SleepOp(0, 5), TickOp(5)]);
  }

  /** There a yield changes nothing, yet a sleep or a kill of the current process hands the CPU over. */
  lemma FrozenHandsOver()
    ensures Switch(FROZEN) == FROZEN && Sleep(FROZEN, 5, 5).cur == 1 && Switch(Kill(FROZEN, 0)).cur == 1
  {
    FrozenIsOk();
    KillOfCurrent(FROZEN);
    ChangeOfCurrent(FROZEN, FROZEN.(procs := FROZEN.procs[0 := FROZEN.procs[0].(state := Zombie)]));
    assert Eligible(FROZEN.procs[1]);
  }
}
