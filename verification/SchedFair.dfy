/**
 Runs of the scheduler: nobody ready is passed over for long, and a task finds its registers as
 it left them.
*/
module SchedFairness {
  import opened Prelude
  import opened Schedulers

  /** A run: `evs[i]` leads from `run[i]` to `run[i + 1]`. */
  ghost predicate IsRun(run: seq<Sched>, evs: seq<Event>) {
    && |run| == |evs| + 1 && Inv(run[0])
    && forall i :: 0 <= i < |evs| ==> Step(run[i], run[i + 1], evs[i])
  }

  lemma {:induction false} RunKeeps(run: seq<Sched>, evs: seq<Event>, i: nat)
    requires IsRun(run, evs) && i < |run|
    ensures Inv(run[i])
  {
    if i > 0 {
      RunKeeps(run, evs, i - 1);
      StepKeeps(run[i - 1], run[i], evs[i - 1]);
    }
  }

  /** Every event that ends in a call of schedule counts. */
  function Calls(evs: seq<Event>): nat {
    if evs == [] then 0 else CallsOf(evs[0]) + Calls(evs[1..])
  }

  function CallsOf(ev: Event): nat { if ev.Fork? || ev.UserCode? then 0 else 1 }

  /** Ticks, waits and exits count one each, forks and user code nothing. */
  lemma {:induction false} CallsAdd(x: seq<Event>, y: seq<Event>, ev: Event)
    ensures Calls(x + y) == Calls(x) + Calls(y)
    ensures Calls([ev]) == if ev == Tick || ev == Exit || ev.Wait? then 1 else 0
  {
    if x == [] {
      assert x + y == y;
    } else {
      assert (x + y)[1..] == x[1..] + y;
      CallsAdd(x[1..], y, ev);
    }
  }

  // ---- sums over the task table ----

  function Sum(w: seq<nat>): nat {
    if w == [] then 0 else w[0] + Sum(w[1..])
  }

  lemma {:induction false} SumUpdate(w: seq<nat>, i: nat, v: nat)
    requires i < |w|
    ensures Sum(w[i := v]) == Sum(w) - w[i] + v
  {
    if i == 0 {
      assert w[0 := v][1..] == w[1..];
    } else {
      SumUpdate(w[1..], i - 1, v);
      assert w[i := v][1..] == w[1..][i - 1 := v];
    }
  }

  /** Weights at most `k` times those of a table at least as long add up to at most `k` times the sum. */
  lemma {:induction false} SumScaled(u: seq<nat>, v: seq<nat>, k: nat)
    requires |u| <= |v| && forall i :: 0 <= i < |u| ==> u[i] <= k * v[i]
    ensures Sum(u) <= k * Sum(v)
    decreases |u|
  {
    if u != [] {
      assert u[0] <= k * v[0];
      forall i | 0 <= i < |u[1..]|
        ensures u[1..][i] <= k * v[1..][i]
      {
        assert u[i + 1] <= k * v[i + 1];
      }
      SumScaled(u[1..], v[1..], k);
      Distribute(k, v[0], Sum(v[1..]));
    } else {
      assert Sum(u) == 0;
    }
  }

  lemma Distribute(k: nat, x: nat, y: nat)
    ensures k * (x + y) == k * x + k * y
    ensures 0 <= k * (x + y)
  {
  }

  /** Longer by entries of weight zero. */
  lemma {:induction false} SumPadded(u: seq<nat>, v: seq<nat>)
    requires |u| <= |v| && (forall i :: 0 <= i < |u| ==> u[i] == v[i]) && forall i :: |u| <= i < |v| ==> v[i] == 0
    ensures Sum(v) == Sum(u)
  {
    if v != [] {
      if u == [] {
        SumPadded([], v[1..]);
      } else {
        SumPadded(u[1..], v[1..]);
      }
    }
  }

  function Ones(ts: Tasks): seq<nat> {
    seq(|ts|, i requires 0 <= i < |ts| => if ts[i].Some? then 1 else 0)
  }

  function LiveCount(ts: Tasks): nat { Sum(Ones(ts)) }

  /** One for each place that holds a task. */
  lemma LiveCountAdds(x: Tasks, y: Tasks, t: Option<Task>)
    ensures LiveCount(x + y) == LiveCount(x) + LiveCount(y)
    ensures LiveCount([t]) == if t.Some? then 1 else 0
  {
    assert Ones(x + y) == Ones(x) + Ones(y);
    SumAdds(Ones(x), Ones(y));
    var one := if t.Some? then 1 else 0;
    assert Ones([t]) == [one] && Sum([one]) == one + Sum([]);
  }

  lemma {:induction false} SumAdds(u: seq<nat>, v: seq<nat>)
    ensures Sum(u + v) == Sum(u) + Sum(v)
  {
    if u == [] {
      assert u + v == v;
    } else {
      assert (u + v)[1..] == u[1..] + v;
      SumAdds(u[1..], v);
    }
  }

  function Credits(ts: Tasks): seq<nat> {
    seq(|ts|, i requires 0 <= i < |ts| => if ts[i].Some? then ts[i].value.tm else 0)
  }

  /** How often another task may still be preferred to `t`, which has credit `c`. */
  function Ahead(ts: Tasks, t: nat, c: nat): seq<nat> {
    seq(|ts|, i requires 0 <= i < |ts| => AheadOf(ts[i], i == t, c))
  }

  function AheadOf(task: Option<Task>, self: bool, c: nat): nat {
    if task.Some? && !self && task.value.tm >= c then task.value.tm - c + 1 else 0
  }

  /** An upper bound on the scheduling calls that can pass over `t` while at most `n` tasks live. */
  function Rank(ts: Tasks, t: nat, n: nat): nat
    requires Alive(ts, t) && n > 0
  {
    var c := ts[t].value.tm;
    if c > 0 then Sum(Ahead(ts, t, c)) else Sum(Credits(ts)) + n - 1
  }

  /** Never more than 11 (n - 1). */
  lemma RankBound(ts: Tasks, t: nat, n: nat)
    requires Alive(ts, t) && CreditsFine(ts) && 0 < LiveCount(ts) <= n
    ensures Rank(ts, t, n) <= 11 * (n - 1)
  {
    var c := ts[t].value.tm;
    var others := Ones(ts)[t := 0];
    SumUpdate(Ones(ts), t, 0);
    if c > 0 {
      forall i | 0 <= i < |ts|
        ensures Ahead(ts, t, c)[i] <= FULL * others[i]
      {
        assert Alive(ts, i) ==> ts[i].value.tm <= FULL;
      }
      SumScaled(Ahead(ts, t, c), others, FULL);
    } else {
      forall i | 0 <= i < |ts|
        ensures Credits(ts)[i] <= FULL * others[i]
      {
        assert Alive(ts, i) ==> ts[i].value.tm <= FULL;
      }
      SumScaled(Credits(ts), others, FULL);
    }
  }

  // ---- one event ----

  /** Weights of the table before the call are the same after waking, and fewer if the caller has gone. */
  lemma RankOfCaller(a: Sched, mid: Sched, t: nat, n: nat, ev: Event)
    requires Inv(a) && Ready(a.tasks, a.current, t) && n > 0
    requires (ev == Tick && mid == a) || (ev.Wait? && mid == Blocked(a, ev.pid)) || (ev == Exit && mid == Gone(a))
    ensures Ready(mid.tasks, mid.current, t) && mid.tasks[t].value.tm == a.tasks[t].value.tm
    ensures Rank(Woken(mid.tasks), t, n) <= Rank(a.tasks, t, n)
  {
    var c := a.tasks[t].value.tm;
    var w := Woken(mid.tasks);
    forall i | 0 <= i < |w|
      ensures Credits(w)[i] <= 1 * Credits(a.tasks)[i] && Ahead(w, t, c)[i] <= 1 * Ahead(a.tasks, t, c)[i]
    {
      assert mid.tasks[i] == a.tasks[i] || i == a.current;
    }
    SumScaled(Credits(w), Credits(a.tasks), 1);
    SumScaled(Ahead(w, t, c), Ahead(a.tasks, t, c), 1);
  }

  /** Choosing somebody else makes the rank smaller. */
  lemma DispatchRank(a: Sched, b: Sched, exited: bool, t: nat, n: nat)
    requires Interrupted(a, exited) && Dispatch(a, b, exited) && Ready(a.tasks, a.current, t) && b.current != t
    requires LiveCount(b.tasks) <= n && n > 0
    ensures Ready(b.tasks, b.current, t)
    ensures Rank(b.tasks, t, n) < Rank(Woken(a.tasks), t, n)
  {
    var w := Woken(a.tasks);
    DispatchedTasks(a, b, exited);
    assert Ready(w, a.current, t);
    if Spent(w, a.current) {
      RechargeRank(w, b, a.current, t);
    } else {
      PreferredRank(w, b.tasks, a.current, b.current, t, n);
    }
  }

  /** Who lives, who is ready and what credit everybody has after the decision. */
  lemma DispatchedTasks(a: Sched, b: Sched, exited: bool)
    requires Interrupted(a, exited) && Dispatch(a, b, exited)
    ensures var w := Woken(a.tasks);
      && |b.tasks| == |w| && Alive(w, b.current)
      && (forall i: nat :: Alive(w, i) ==> Alive(b.tasks, i) && b.tasks[i].value.state == w[i].value.state)
      && (forall i: nat :: Alive(w, i) ==> b.tasks[i].value.tm == Left(w, a.current, b.current, i))
    ensures forall i: nat :: Alive(b.tasks, i) == Alive(Woken(a.tasks), i)
  {
    var w := Woken(a.tasks);
    var c := Credited(w, a.current);
    forall i: nat
      ensures Alive(b.tasks, i) == Alive(w, i) == Alive(c, i)
    {
    }
  }

  /** The credit a task has left: full after a recharge, one less for the one that was chosen. */
  ghost function Left(w: Tasks, cur: nat, next: nat, i: nat): int
    requires Alive(w, i)
  {
    (if Spent(w, cur) then FULL else w[i].value.tm) - if i == next then 1 else 0
  }

  /** Without a recharge the chosen task was at least as rich as `t`, and is one poorer now. */
  lemma PreferredRank(w: Tasks, ts: Tasks, cur: nat, next: nat, t: nat, n: nat)
    requires Ready(w, cur, t) && Richest(w, cur, next) && next != t && |ts| == |w| && n > 0
    requires forall i: nat :: Alive(ts, i) == Alive(w, i)
    requires forall i: nat :: Alive(w, i) && Alive(ts, i) ==> ts[i].value.tm == w[i].value.tm - if i == next then 1 else 0
    ensures Rank(ts, t, n) < Rank(w, t, n)
  {
    var c := w[t].value.tm;
    var before := if c > 0 then Ahead(w, t, c) else Credits(w);
    var after := if c > 0 then Ahead(ts, t, c) else Credits(ts);
    forall i | 0 <= i < |ts|
      ensures after[i] == before[i] - if i == next then 1 else 0
    {
      assert Alive(ts, i) == Alive(w, i);
    }
    assert after == before[next := before[next] - 1];
    SumUpdate(before, next, before[next] - 1);
  }

  /** After a recharge each of the others can be preferred once, except the one just chosen. */
  lemma RechargeRank(w: Tasks, b: Sched, cur: nat, t: nat)
    requires Alive(w, t) && |b.tasks| == |w| && t != b.current && Alive(w, b.current)
    requires forall i: nat :: Alive(b.tasks, i) == Alive(w, i)
    requires forall i: nat :: Alive(b.tasks, i) ==> b.tasks[i].value.tm == if i == b.current then FULL - 1 else FULL
    ensures Sum(Ahead(b.tasks, t, FULL)) + 2 <= LiveCount(b.tasks)
  {
    var ones := Ones(b.tasks);
    var rest := ones[t := 0];
    SumUpdate(ones, t, 0);
    var rest' := rest[b.current := 0];
    SumUpdate(rest, b.current, 0);
    forall i | 0 <= i < |w|
      ensures Ahead(b.tasks, t, FULL)[i] <= 1 * rest'[i]
    {
      assert Alive(b.tasks, i) == Alive(w, i);
    }
    SumScaled(Ahead(b.tasks, t, FULL), rest', 1);
  }

  /** A child starts without credit and so never comes in front. */
  lemma ForkRank(a: Sched, b: Sched, t: nat, n: nat)
    requires Inv(a) && ForkStep(a, b) && Ready(a.tasks, a.current, t) && n > 0
    ensures Ready(b.tasks, b.current, t) && Rank(b.tasks, t, n) == Rank(a.tasks, t, n)
  {
    var c := a.tasks[t].value.tm;
    SumPadded(Credits(a.tasks), Credits(b.tasks));
    if c > 0 {
      SumPadded(Ahead(a.tasks, t, c), Ahead(b.tasks, t, c));
    }
  }

  lemma StepRank(a: Sched, b: Sched, ev: Event, t: nat, n: nat)
    requires Inv(a) && Step(a, b, ev) && Ready(a.tasks, a.current, t) && b.current != t
    requires LiveCount(b.tasks) <= n && n > 0
    ensures Ready(b.tasks, b.current, t)
    ensures Rank(b.tasks, t, n) + CallsOf(ev) <= Rank(a.tasks, t, n)
  {
    match ev
    case Fork => ForkRank(a, b, t, n);
    case UserCode =>
    case Tick =>
      RankOfCaller(a, a, t, n, ev);
      DispatchRank(a, b, false, t, n);
    case Wait(pid) =>
      RankOfCaller(a, Blocked(a, pid), t, n, ev);
      DispatchRank(Blocked(a, pid), b, false, t, n);
    case Exit =>
      RankOfCaller(a, Gone(a), t, n, ev);
      DispatchRank(Gone(a), b, true, t, n);
  }

  // ---- whole runs ----

  /** As long as `t` is passed over it stays ready, and every call of schedule lowers its rank. */
  lemma {:induction false} PassedOver(run: seq<Sched>, evs: seq<Event>, t: nat, n: nat)
    requires IsRun(run, evs) && Ready(run[0].tasks, run[0].current, t) && n > 0
    requires forall i :: 0 <= i < |run| ==> LiveCount(run[i].tasks) <= n && run[i].current != t
    ensures Ready(run[|evs|].tasks, run[|evs|].current, t)
    ensures Rank(run[|evs|].tasks, t, n) + Calls(evs) <= Rank(run[0].tasks, t, n)
    decreases |evs|
  {
    if evs != [] {
      StepRank(run[0], run[1], evs[0], t, n);
      StepKeeps(run[0], run[1], evs[0]);
      PassedOver(run[1..], evs[1..], t, n);
    }
  }

  /**
     No starvation: with at most `n` live tasks throughout, a ready task that is not current is
     switched to within 11 (n - 1) + 1 calls of schedule, whatever forks, waits and exits happen.
   */
  lemma NoStarvation(run: seq<Sched>, evs: seq<Event>, t: nat, n: nat)
    requires IsRun(run, evs) && Ready(run[0].tasks, run[0].current, t)
    requires forall i :: 0 <= i < |run| ==> LiveCount(run[i].tasks) <= n
    requires Calls(evs) > 11 * (n - 1)
    ensures exists i :: 0 < i < |run| && run[i].current == t
  {
    if forall i :: 0 < i < |run| ==> run[i].current != t {
      SumUpdate(Ones(run[0].tasks), t, 0);
      PassedOver(run, evs, t, n);
      RankBound(run[0].tasks, t, n);
      assert false;
    }
  }

  /** While a task is not current nobody touches its saved registers; when it is switched to it gets them back. */
  lemma {:induction false} ResumesAsLeft(run: seq<Sched>, evs: seq<Event>, t: nat)
    requires IsRun(run, evs) && |evs| > 0 && Alive(run[0].tasks, t)
    requires forall i :: 0 <= i < |evs| ==> run[i].current != t
    ensures Alive(run[|evs|].tasks, t) && run[|evs|].tasks[t].value.cpu == run[0].tasks[t].value.cpu
    ensures run[|evs|].current == t ==> run[|evs|].cpu == run[0].tasks[t].value.cpu
    decreases |evs|
  {
    OthersUntouched(run[0], run[1], evs[0], t);
    StepKeeps(run[0], run[1], evs[0]);
    if |evs| > 1 {
      ResumesAsLeft(run[1..], evs[1..], t);
    }
  }

  lemma OthersUntouched(a: Sched, b: Sched, ev: Event, t: nat)
    requires Inv(a) && Step(a, b, ev) && Alive(a.tasks, t) && t != a.current
    ensures Alive(b.tasks, t) && b.tasks[t].value.cpu == a.tasks[t].value.cpu
    ensures b.current == t ==> b.cpu == a.tasks[t].value.cpu
  {
    if CallsOf(ev) == 1 {
      var mid := if ev.Wait? then Blocked(a, ev.pid) else if ev == Exit then Gone(a) else a;
      var w := Woken(mid.tasks);
      assert Alive(w, t) && Alive(Credited(w, a.current), t);
    }
  }

  /** Switching away saves exactly the registers the task had. */
  lemma SavedOnLeaving(a: Sched, b: Sched, ev: Event)
    requires Inv(a) && Step(a, b, ev) && b.current != a.current && ev != Exit
    ensures Alive(b.tasks, a.current) && b.tasks[a.current].value.cpu == a.cpu
  {
    var mid := if ev.Wait? then Blocked(a, ev.pid) else a;
    var w := Woken(mid.tasks);
    assert Alive(w, a.current) && Alive(Credited(w, a.current), a.current);
  }

  // ---- waiting ----

  /** Numbers are never used twice: who is there was there before, unless it is new. */
  lemma NoneReturns(a: Sched, b: Sched, ev: Event, i: nat)
    requires Inv(a) && Step(a, b, ev) && i <= a.nextTid && IsLive(b.tasks, i)
    ensures IsLive(a.tasks, i) && i <= b.nextTid
  {
    match ev
    case Tick => DispatchDecides(a, b, false);
    case Wait(pid) => WaitOutright(a, b, pid);
      assert i == a.current || KeepsState(a, b, i);
    case Exit => DispatchDecides(Gone(a), b, true);
    case Fork => ForkOutright(a, b);
      assert SameTask(a, b, i);
    case UserCode =>
  }

  /** A waiting task goes on waiting, and does not run, while its target is there. */
  lemma StillWaiting(a: Sched, b: Sched, ev: Event, t: nat, pid: nat)
    requires Inv(a) && Step(a, b, ev) && IsLive(a.tasks, t) && a.tasks[t].value.state == WaitPid(pid)
    requires pid <= a.nextTid && IsLive(b.tasks, pid)
    ensures IsLive(b.tasks, t) && b.tasks[t].value.state == WaitPid(pid)
  {
    NoneReturns(a, b, ev, pid);
    match ev
    case Tick => DispatchDecides(a, b, false);
      assert LeavesTask(a, b, t);
    case Wait(other) => WaitOutright(a, b, other);
      assert KeepsState(a, b, t);
    case Exit => ExitOutright(a, b);
      assert ExitLeaves(a, b, t);
    case Fork => ForkOutright(a, b);
      assert SameTask(a, b, t);
    case UserCode =>
  }

  lemma {:induction false} WaitingWhile(run: seq<Sched>, evs: seq<Event>, t: nat, pid: nat, i: nat)
    requires IsRun(run, evs) && 0 < i < |run| && evs[0] == Wait(pid) && t == run[0].current && IsLive(run[0].tasks, pid)
    ensures pid <= run[i].nextTid
    ensures IsLive(run[i].tasks, pid) ==> IsLive(run[i].tasks, t) && run[i].tasks[t].value.state == WaitPid(pid)
  {
    if i == 1 {
      WaitOutright(run[0], run[1], pid);
      DispatchDecides(Blocked(run[0], pid), run[1], false);
    } else {
      WaitingWhile(run, evs, t, pid, i - 1);
      RunKeeps(run, evs, i - 1);
      assert Step(run[i - 1], run[i], evs[i - 1]);
      NumbersGrow(run[i - 1], run[i], evs[i - 1]);
      if IsLive(run[i].tasks, pid) {
        NoneReturns(run[i - 1], run[i], evs[i - 1], pid);
        StillWaiting(run[i - 1], run[i], evs[i - 1], t, pid);
      }
    }
  }

  lemma NumbersGrow(a: Sched, b: Sched, ev: Event)
    requires Step(a, b, ev)
    ensures a.nextTid <= b.nextTid
  {
  }

  /** Waitpid waits: over every run the caller is not current again before its target is gone. */
  lemma WaiterWaits(run: seq<Sched>, evs: seq<Event>, t: nat, pid: nat, i: nat)
    requires IsRun(run, evs) && 0 < i < |run| && evs[0] == Wait(pid) && t == run[0].current && IsLive(run[0].tasks, pid)
    ensures run[i].current == t ==> !IsLive(run[i].tasks, pid)
  {
    WaitingWhile(run, evs, t, pid, i);
    RunKeeps(run, evs, i);
  }

  /** Waitpid returns: when the target exits, each waiter runs within 11 (n - 1) + 2 calls of schedule, that exit included. */
  lemma WaiterReturns(run: seq<Sched>, evs: seq<Event>, t: nat, n: nat)
    requires IsRun(run, evs) && evs != [] && evs[0] == Exit
    requires IsLive(run[0].tasks, t) && run[0].tasks[t].value.state == WaitPid(run[0].current)
    requires forall i :: 0 <= i < |run| ==> LiveCount(run[i].tasks) <= n
    requires Calls(evs) > 11 * (n - 1) + 1
    ensures exists i :: 0 < i < |run| && run[i].current == t
  {
    ExitOutright(run[0], run[1]);
    StepKeeps(run[0], run[1], evs[0]);
    assert ExitLeaves(run[0], run[1], t);
    if run[1].current != t {
      NoStarvation(run[1..], evs[1..], t, n);
      var i :| 0 < i < |run[1..]| && run[1..][i].current == t;
      assert run[i + 1].current == t;
    }
  }
}
