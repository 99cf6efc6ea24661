/**
 The credit scheduler of kernel/src/task/sched.rs with the task operations that end in it.
 The registers of the processor are one value; what user code does with them is arbitrary.
*/
module Schedulers {
  import opened Prelude

  const IDLE := 0
  const FULL := 10

  datatype Context = Context(rcx: nat, others: int)

  /** The registers that are switched: interrupt frame, fs base and floating point unit. */
  datatype Cpu = Cpu(context: Context, fs: int, fpu: int)

  const FPU_INIT := 0x037f

  datatype RunState = Runnable | WaitPid(pid: nat)

  datatype Task = Task(cpu: Cpu, tm: nat, state: RunState)

  type Tasks = seq<Option<Task>>

  datatype Sched = Sched(tasks: Tasks, current: nat, nextTid: nat, cpu: Cpu)

  predicate Alive(ts: Tasks, i: nat) { i < |ts| && ts[i].Some? }

  /** May be chosen by the scheduler while task `cur` is current. */
  predicate Ready(ts: Tasks, cur: nat, i: nat) { Alive(ts, i) && i != cur && ts[i].value.state.Runnable? }

  predicate IdleFine(ts: Tasks) { Alive(ts, IDLE) && ts[IDLE].value.state.Runnable? }

  ghost predicate CreditsFine(ts: Tasks) { forall i: nat :: Alive(ts, i) ==> ts[i].value.tm <= FULL }

  /** Nobody waits for a task that is not there. */
  ghost predicate WaitsFine(ts: Tasks) { forall i: nat :: Alive(ts, i) && ts[i].value.state.WaitPid? ==> Alive(ts, ts[i].value.state.pid) }

  /** Holds between two events; the idle task neither waits nor exits. */
  ghost predicate Inv(st: Sched) {
    && IdleFine(st.tasks) && CreditsFine(st.tasks) && WaitsFine(st.tasks)
    && Alive(st.tasks, st.current) && st.tasks[st.current].value.state.Runnable?
    && |st.tasks| <= st.nextTid + 1
  }

  // ---- what one call of schedule does ----

  predicate TargetGone(ts: Tasks, t: Task) { t.state.WaitPid? && !Alive(ts, t.state.pid) }

  function WokenTask(ts: Tasks, t: Option<Task>): Option<Task> {
    if t.Some? && TargetGone(ts, t.value) then Some(t.value.(state := Runnable)) else t
  }

  function Woken(ts: Tasks): Tasks { seq(|ts|, i requires 0 <= i < |ts| => WokenTask(ts, ts[i])) }

  function ChargedTask(t: Option<Task>): Option<Task> {
    if t.Some? then Some(t.value.(tm := FULL)) else t
  }

  function Recharged(ts: Tasks): Tasks { seq(|ts|, i requires 0 <= i < |ts| => ChargedTask(ts[i])) }

  /** Nobody who could be chosen has credit left. */
  ghost predicate Spent(ts: Tasks, cur: nat) { forall i: nat :: Ready(ts, cur, i) ==> ts[i].value.tm == 0 }

  /** The most credit, and among equals the lowest number. */
  ghost predicate Richest(ts: Tasks, cur: nat, next: nat) {
    && Ready(ts, cur, next) && ts[next].value.tm > 0
    && forall i: nat :: Ready(ts, cur, i) ==> ts[i].value.tm < ts[next].value.tm || (ts[i].value.tm == ts[next].value.tm && next <= i)
  }

  /** The lowest number that is ready; the idle task if nobody is. */
  ghost predicate FirstOrIdle(ts: Tasks, cur: nat, next: nat) {
    && (Ready(ts, cur, next) || (next == IDLE && forall i: nat :: !Ready(ts, cur, i)))
    && forall i: nat :: Ready(ts, cur, i) ==> next <= i
  }

  function Spend(ts: Tasks, next: nat): Tasks {
    if Alive(ts, next) && ts[next].value.tm > 0 then ts[next := Some(ts[next].value.(tm := ts[next].value.tm - 1))] else ts
  }

  function Save(ts: Tasks, cur: nat, cpu: Cpu, exited: bool): Tasks {
    if !exited && Alive(ts, cur) then ts[cur := Some(ts[cur].value.(cpu := cpu))] else ts
  }

  /** Credits as they are when the choice has been made. */
  ghost function Credited(ts: Tasks, cur: nat): Tasks { if Spent(ts, cur) then Recharged(ts) else ts }

  ghost predicate Dispatch(a: Sched, b: Sched, exited: bool) {
    var w := Woken(a.tasks);
    && (if Spent(w, a.current) then FirstOrIdle(w, a.current, b.current) else Richest(w, a.current, b.current))
    && b.nextTid == a.nextTid
    && b.tasks == Save(Spend(Credited(w, a.current), b.current), a.current, a.cpu, exited)
    && Alive(b.tasks, b.current) && b.cpu == b.tasks[b.current].value.cpu
  }

  class Scheduler {
    var tasks: Tasks
    var current: nat
    var nextTid: nat
    var cpu: Cpu

    ghost function S(): Sched
      reads this
    {
      Sched(tasks, current, nextTid, cpu)
    }

    ghost predicate Valid()
      reads this
    {
      Inv(S())
    }

    /** Boot: the idle task alone. */
    constructor (cpu: Cpu)
      ensures Valid() && current == 0 && nextTid == 0 && |tasks| == 1
      ensures tasks[0] == Some(Task(Cpu(Context(0, 0), 0, 0x037f), 10, Runnable))
    {
      this.tasks := [Some(Task(Cpu(Context(0, 0), 0, FPU_INIT), FULL, Runnable))];
      this.current := IDLE;
      this.nextTid := 0;
      this.cpu := cpu;
    }

    /** Wakes whoever waits for a dead task and looks for the richest ready task, in one pass. */
    method WakeAndFind() returns (maxTid: Option<nat>)
      modifies this`tasks
      ensures tasks == Woken(old(tasks))
      ensures if maxTid.Some? then Richest(tasks, current, maxTid.value) else Spent(tasks, current)
    {
      ghost var was := tasks;
      ghost var w := Woken(tasks);
      var maxTm := 0;
      maxTid := None;
      for tid := 0 to |tasks|
        invariant |tasks| == |was|
        invariant forall i :: 0 <= i < tid ==> tasks[i] == w[i]
        invariant forall i :: tid <= i < |was| ==> tasks[i] == was[i]
        invariant forall i: nat :: Alive(tasks, i) <==> Alive(was, i)
        invariant maxTid.None? ==> maxTm == 0
        invariant maxTid.Some? ==> maxTid.value < tid && Ready(w, current, maxTid.value) && w[maxTid.value].value.tm == maxTm > 0
        invariant forall i: nat :: i < tid && Ready(w, current, i) ==> w[i].value.tm <= maxTm
        invariant forall i: nat :: i < tid && maxTid.Some? && Ready(w, current, i) && w[i].value.tm == maxTm ==> maxTid.value <= i
      {
        if tasks[tid].Some? {
          if TargetGone(tasks, tasks[tid].value) {
            tasks := tasks[tid := Some(tasks[tid].value.(state := Runnable))];
          }
          assert tasks[tid] == w[tid];
          var process := tasks[tid].value;
          if tid != current && process.tm > maxTm && process.state.Runnable? {
            maxTm := process.tm;
            maxTid := Some(tid);
          }
        }
      }
      assert tasks == w;
    }

    method Recharge()
      modifies this`tasks
      ensures tasks == Recharged(old(tasks))
    {
      ghost var was := tasks;
      for tid := 0 to |tasks|
        invariant |tasks| == |was|
        invariant forall i :: 0 <= i < tid ==> tasks[i] == ChargedTask(was[i])
        invariant forall i :: tid <= i < |was| ==> tasks[i] == was[i]
      {
        if tasks[tid].Some? {
          tasks := tasks[tid := Some(tasks[tid].value.(tm := FULL))];
        }
      }
      assert tasks == Recharged(was);
    }

    method FindReady() returns (next: nat)
      ensures FirstOrIdle(tasks, current, next)
    {
      for tid := 0 to |tasks|
        invariant forall i: nat :: i < tid ==> !Ready(tasks, current, i)
      {
        if tasks[tid].Some? && tasks[tid].value.state.Runnable? && tid != current {
          return tid;
        }
      }
      return IDLE;
    }

    /** Saves the registers of the current task, unless it is gone, and loads those of the next. */
    method SwitchTo(next: nat, exited: bool)
      requires Alive(tasks, next) && (!exited ==> Alive(tasks, current))
      modifies this
      ensures tasks == Save(old(tasks), old(current), old(cpu), exited)
      ensures current == next && nextTid == old(nextTid) && cpu == tasks[next].value.cpu
    {
      if !exited {
        tasks := tasks[current := Some(tasks[current].value.(cpu := cpu))];
      }
      cpu := tasks[next].value.cpu;
      current := next;
    }

    /** One scheduling decision; that the credit taken is there follows from how the task was found. */
    method Schedule(exited: bool)
      requires IdleFine(tasks) && (exited <==> !Alive(tasks, current))
      modifies this
      ensures Dispatch(old(S()), S(), exited) && Decides(old(S()), S())
    {
      ghost var a := S();
      ghost var w := Woken(tasks);
      var maxTid := WakeAndFind();
      if maxTid.None? {
        Recharge();
        var next := FindReady();
        SameReady(w, a.current, next);
        maxTid := Some(next);
      }
      assert Alive(tasks, maxTid.value) && tasks[maxTid.value].value.tm > 0;
      tasks := tasks[maxTid.value := Some(tasks[maxTid.value].value.(tm := tasks[maxTid.value].value.tm - 1))];
      SwitchTo(maxTid.value, exited);
      DispatchDecides(a, S(), exited);
    }

    /** The timer interrupt. */
    method Timer()
      requires Valid()
      modifies this
      ensures Valid() && Step(old(S()), S(), Tick) && Decides(old(S()), S())
    {
      ghost var a := S();
      Schedule(false);
      DispatchKeeps(a, S(), false);
    }

    /** Waitpid: the caller blocks even if the target is gone already, and is woken by the next pass. */
    method BlockCurrent(pid: nat)
      requires Valid() && current != IDLE
      modifies this
      ensures Valid() && Step(old(S()), S(), Wait(pid)) && Waits(old(S()), S(), pid)
    {
      ghost var a := S();
      tasks := tasks[current := Some(tasks[current].value.(state := WaitPid(pid)))];
      ghost var b := S();
      Schedule(false);
      DispatchKeeps(b, S(), false);
      WaitOutright(a, S(), pid);
    }

    method DoExit()
      requires Valid() && current != IDLE
      modifies this
      ensures Valid() && Step(old(S()), S(), Exit) && Exits(old(S()), S())
    {
      ghost var a := S();
      tasks := tasks[current := None];
      ghost var b := S();
      Schedule(true);
      DispatchKeeps(b, S(), true);
      ExitOutright(a, S());
    }

    /** The child gets a number never used before, no credit, and 0 in the register where the parent gets the number. */
    method DoFork()
      requires Valid()
      modifies this
      ensures Valid() && Step(old(S()), S(), Fork) && Forks(old(S()), S())
    {
      ghost var a := S();
      var newTid := nextTid + 1;
      nextTid := newTid;
      var child := Task(Cpu(cpu.context.(rcx := 0), 0, FPU_INIT), 0, Runnable);
      cpu := cpu.(context := cpu.context.(rcx := newTid));
      if |tasks| <= newTid {
        tasks := tasks + seq(newTid + 1 - |tasks|, _ => None);
      }
      tasks := tasks[newTid := Some(child)];
      ForkOutright(a, S());
    }
  }

  // ---- decisions in plain terms ----

  predicate IsLive(ts: Tasks, i: nat) { i < |ts| && ts[i].Some? }

  /** Runs, or waits for a task that is not there. */
  predicate MayRun(ts: Tasks, i: nat) {
    && i < |ts| && ts[i].Some?
    && (ts[i].value.state.Runnable? || !IsLive(ts, ts[i].value.state.pid))
  }

  /** Another task than the current one that may run and has credit. */
  predicate HasTurn(st: Sched, i: nat) { MayRun(st.tasks, i) && i != st.current && st.tasks[i].value.tm > 0 }

  /** The most credit among those with a turn; without turns the lowest number that may run, else task 0. */
  ghost predicate Chosen(st: Sched, next: nat) {
    if exists i: nat :: HasTurn(st, i) then
      && HasTurn(st, next)
      && forall i: nat :: HasTurn(st, i) ==>
           st.tasks[i].value.tm < st.tasks[next].value.tm || (st.tasks[i].value.tm == st.tasks[next].value.tm && next <= i)
    else
      && (forall i: nat :: MayRun(st.tasks, i) && i != st.current ==> next <= i)
      && ((MayRun(st.tasks, next) && next != st.current) || next == 0)
  }

  /** What a decision leaves of task `i`: woken if its target is gone, credit back at 10 if nobody has a turn, one unit spent. */
  ghost predicate LeavesTask(a: Sched, b: Sched, i: nat)
    requires i < |a.tasks| == |b.tasks|
  {
    && (a.tasks[i].Some? <==> b.tasks[i].Some?)
    && (a.tasks[i].Some? ==>
          && b.tasks[i].value.state == (if MayRun(a.tasks, i) then Runnable else a.tasks[i].value.state)
          && b.tasks[i].value.tm + (if i == b.current then 1 else 0)
               == (if exists j: nat :: HasTurn(a, j) then a.tasks[i].value.tm else 10)
          && b.tasks[i].value.cpu == (if i == a.current then a.cpu else a.tasks[i].value.cpu))
  }

  ghost predicate Decides(a: Sched, b: Sched) {
    && Chosen(a, b.current) && b.nextTid == a.nextTid && |b.tasks| == |a.tasks|
    && (forall i: nat :: i < |a.tasks| ==> LeavesTask(a, b, i))
    && IsLive(b.tasks, b.current) && b.cpu == b.tasks[b.current].value.cpu
  }

  /** Everything a decision does. */
  lemma DispatchDecides(a: Sched, b: Sched, exited: bool)
    requires IdleFine(a.tasks) && (exited <==> !Alive(a.tasks, a.current)) && Dispatch(a, b, exited)
    ensures Decides(a, b)
  {
    var w := Woken(a.tasks);
    forall i: nat
      ensures MayRun(a.tasks, i) && i != a.current <==> Ready(w, a.current, i)
      ensures MayRun(a.tasks, i) ==> Alive(w, i) && w[i].value.tm == a.tasks[i].value.tm
    {
    }
    if !Spent(w, a.current) {
      assert HasTurn(a, b.current);
    }
    assert Spent(w, a.current) <==> !exists i: nat :: HasTurn(a, i);
    forall i: nat | i < |a.tasks|
      ensures LeavesTask(a, b, i)
    {
      assert Alive(w, i) == Alive(a.tasks, i) == Alive(Credited(w, a.current), i);
    }
  }

  /** `pid` is waited for: the caller runs again only when there is no such task. */
  ghost predicate Waits(a: Sched, b: Sched, pid: nat) {
    && IsLive(b.tasks, a.current) && b.current != a.current
    && b.tasks[a.current].value.state == (if IsLive(a.tasks, pid) then WaitPid(pid) else Runnable)
    && b.tasks[a.current].value.cpu == a.cpu
    && forall i: nat :: i != a.current ==> KeepsState(a, b, i)
  }

  /** The task lives on or not as before, and waits as before unless its target is gone. */
  ghost predicate KeepsState(a: Sched, b: Sched, i: nat) {
    && (IsLive(b.tasks, i) <==> IsLive(a.tasks, i))
    && (IsLive(a.tasks, i) ==> b.tasks[i].value.state == if MayRun(a.tasks, i) then Runnable else a.tasks[i].value.state)
  }

  lemma WaitOutright(a: Sched, b: Sched, pid: nat)
    requires Inv(a) && Step(a, b, Wait(pid))
    ensures Waits(a, b, pid)
  {
    var mid := Blocked(a, pid);
    DispatchDecides(mid, b, false);
    FallbackIsIdle(mid, b, false);
    assert LeavesTask(mid, b, a.current);
    forall i: nat | i != a.current
      ensures KeepsState(a, b, i)
    {
      if i < |a.tasks| {
        assert LeavesTask(mid, b, i);
      }
    }
  }

  /** The caller is gone and whoever waited for it may run. */
  ghost predicate Exits(a: Sched, b: Sched) {
    && !IsLive(b.tasks, a.current) && b.current != a.current
    && forall i: nat :: i != a.current && IsLive(a.tasks, i) ==> ExitLeaves(a, b, i)
  }

  ghost predicate ExitLeaves(a: Sched, b: Sched, i: nat)
    requires IsLive(a.tasks, i)
  {
    && IsLive(b.tasks, i)
    && b.tasks[i].value.state == (if a.tasks[i].value.state == WaitPid(a.current) then Runnable else a.tasks[i].value.state)
  }

  lemma ExitOutright(a: Sched, b: Sched)
    requires Inv(a) && Step(a, b, Exit)
    ensures Exits(a, b)
  {
    var mid := Gone(a);
    DispatchDecides(mid, b, true);
    assert LeavesTask(mid, b, a.current);
    forall i: nat | i != a.current && IsLive(a.tasks, i)
      ensures ExitLeaves(a, b, i)
    {
      assert LeavesTask(mid, b, i) && Alive(a.tasks, i);
    }
  }

  /**
     A child under the next number, which the parent finds in rcx; the child finds 0 there and the parent's
     other registers, and starts without credit, fs base and floating point state.
  */
  ghost predicate Forks(a: Sched, b: Sched) {
    var child := a.nextTid + 1;
    && b.nextTid == child && b.current == a.current && !IsLive(a.tasks, child) && IsLive(b.tasks, child)
    && b.cpu.context.rcx == child && b.cpu.context.others == a.cpu.context.others && b.cpu.fs == a.cpu.fs && b.cpu.fpu == a.cpu.fpu
    && b.tasks[child].value.cpu.context.rcx == 0 && b.tasks[child].value.cpu.context.others == a.cpu.context.others
    && b.tasks[child].value.cpu.fs == 0 && b.tasks[child].value.cpu.fpu == 0x037f
    && b.tasks[child].value.tm == 0 && b.tasks[child].value.state == Runnable
    && forall i: nat :: i != child ==> SameTask(a, b, i)
  }

  predicate SameTask(a: Sched, b: Sched, i: nat) {
    (IsLive(b.tasks, i) <==> IsLive(a.tasks, i)) && (IsLive(a.tasks, i) ==> b.tasks[i] == a.tasks[i])
  }

  lemma ForkOutright(a: Sched, b: Sched)
    requires Inv(a) && Step(a, b, Fork)
    ensures Forks(a, b)
  {
  }

  // ---- events ----

  datatype Event = Tick | Wait(pid: nat) | Exit | Fork | UserCode

  function Blocked(st: Sched, pid: nat): Sched {
    if Alive(st.tasks, st.current)
    then st.(tasks := st.tasks[st.current := Some(st.tasks[st.current].value.(state := WaitPid(pid)))]) else st
  }

  function Gone(st: Sched): Sched {
    if Alive(st.tasks, st.current) then st.(tasks := st.tasks[st.current := None]) else st
  }

  ghost predicate ForkStep(a: Sched, b: Sched) {
    && b.current == a.current && b.nextTid == a.nextTid + 1
    && |b.tasks| == b.nextTid + 1
    && (forall i: nat :: i < b.nextTid ==> b.tasks[i] == if i < |a.tasks| then a.tasks[i] else None)
    && b.tasks[b.nextTid] == Some(Task(Cpu(a.cpu.context.(rcx := 0), 0, FPU_INIT), 0, Runnable))
    && b.cpu == a.cpu.(context := a.cpu.context.(rcx := b.nextTid))
  }

  ghost predicate Step(a: Sched, b: Sched, ev: Event) {
    match ev
    case Tick => Dispatch(a, b, false)
    case Wait(pid) => a.current != IDLE && Dispatch(Blocked(a, pid), b, false)
    case Exit => a.current != IDLE && Dispatch(Gone(a), b, true)
    case Fork => ForkStep(a, b)
    case UserCode => b == a.(cpu := b.cpu)
  }

  /** What must hold when schedule is called: the current task may just have blocked or gone. */
  ghost predicate Interrupted(st: Sched, exited: bool) {
    && IdleFine(st.tasks) && CreditsFine(st.tasks) && |st.tasks| <= st.nextTid + 1
    && (exited <==> !Alive(st.tasks, st.current))
    && (st.current == IDLE ==> !exited)
  }

  /** Recharging changes no one's readiness; the task to be chosen exists. */
  lemma SameReady(w: Tasks, cur: nat, next: nat)
    requires IdleFine(w) && FirstOrIdle(Recharged(w), cur, next)
    ensures FirstOrIdle(w, cur, next) && Alive(Recharged(w), next) && Recharged(w)[next].value.tm == FULL
  {
    forall i: nat
      ensures Ready(Recharged(w), cur, i) == Ready(w, cur, i)
    {
    }
  }

  lemma DispatchKeeps(a: Sched, b: Sched, exited: bool)
    requires Interrupted(a, exited) && Dispatch(a, b, exited)
    ensures Inv(b)
  {
    var w := Woken(a.tasks);
    var c := Credited(w, a.current);
    forall i: nat
      ensures Alive(b.tasks, i) == Alive(a.tasks, i)
      ensures Alive(a.tasks, i) ==> b.tasks[i].value.state == w[i].value.state && b.tasks[i].value.tm <= FULL
    {
      assert Alive(c, i) == Alive(w, i) == Alive(a.tasks, i);
    }
    assert IdleFine(w);
  }

  /** A waiting task is woken by a scheduling pass if and only if its target is gone; nobody else changes state. */
  lemma WokenExactly(a: Sched, b: Sched, exited: bool, i: nat)
    requires Interrupted(a, exited) && Dispatch(a, b, exited) && Alive(a.tasks, i)
    ensures Alive(b.tasks, i)
    ensures a.tasks[i].value.state.WaitPid? ==>
      (b.tasks[i].value.state.Runnable? <==> !Alive(a.tasks, a.tasks[i].value.state.pid))
    ensures b.tasks[i].value.state == a.tasks[i].value.state || b.tasks[i].value.state.Runnable?
  {
    var w := Woken(a.tasks);
    assert Alive(Credited(w, a.current), i) && Alive(w, i);
  }

  /** The idle fallback is taken only by the idle task itself: anyone else can switch to it. */
  lemma FallbackIsIdle(a: Sched, b: Sched, exited: bool)
    requires Interrupted(a, exited) && Dispatch(a, b, exited)
    ensures b.current != a.current || a.current == IDLE
    ensures b.current == a.current ==> forall i: nat :: Alive(b.tasks, i) && i != IDLE ==> b.tasks[i].value.state.WaitPid?
  {
    var w := Woken(a.tasks);
    assert IdleFine(w);
    if a.current != IDLE {
      assert Ready(w, a.current, IDLE);
    }
    forall i: nat | b.current == a.current && Alive(b.tasks, i) && i != IDLE
      ensures b.tasks[i].value.state.WaitPid?
    {
      assert Alive(w, i) && Alive(Credited(w, a.current), i);
      assert !Ready(w, a.current, i);
    }
  }

  lemma StepKeeps(a: Sched, b: Sched, ev: Event)
    requires Inv(a) && Step(a, b, ev)
    ensures Inv(b)
  {
    match ev
    case Tick => DispatchKeeps(a, b, false);
    case Wait(pid) => DispatchKeeps(Blocked(a, pid), b, false);
    case Exit => DispatchKeeps(Gone(a), b, true);
    case Fork =>
      forall i: nat
        ensures Alive(b.tasks, i) == (Alive(a.tasks, i) || i == b.nextTid)
      {
      }
    case UserCode =>
  }
}
