/** No starvation: how long a ready thread waits, and the scheduler's own runtime check. */
module Fairness {
  import opened Bitmap
  import opened ReadyQueues
  import opened Sequences
  import opened Threads
  import opened SchedulerSafety

  // ---------------------------------------------------------------- one step

  /** The step takes a thread off the ready queue. */
  predicate Dispatches(s: Sched, e: Step)
    requires s.Shaped()
  {
    match e
    case DoYield => s.queue != []
    case DoExit => s.queue != []
    case DoBlock(t) => t == s.current && s.queue != []
    case DoTick => s.queue != [] && (s.pool[s.current].ticks + 1 >= TIMESLICE || s.pool[s.current].isIdle)
    case _ => false
  }

  /** With a thread waiting, `schedule` runs the oldest one and keeps the order of the rest. */
  lemma ScheduleDispatches(s: Sched)
    requires Steady(s) && s.queue != []
    ensures var r := Schedule(s); r.current == s.queue[0] && s.queue[1..] <= r.queue && r.pool[r.current].ticks == 0
  {
    hide Count, Actives, CountsOk, StacksOk, Reclaim, QueueOk, PoolOk, Zombie;
    Reclaimed(s);
    var r := Reclaim(s);
    HeadSelectable(r.pool, r.queue, r.current);
    Popped(r.pool, r.queue);
    var popped := r.(queue := r.queue[1..]);
    CountsIgnoreQueue(r, popped);
    ParkedOk(popped, r.queue[0]);
  }

  lemma ExitDispatches(s: Sched)
    requires Inv(s) && s.queue != [] && !s.pool[s.current].isIdle
    ensures var r := Exit(s); r.current == s.queue[0] && r.queue == s.queue[1..] && r.pool[r.current].ticks == 0
  {
    hide Count, Actives, CountsOk, StacksOk, Reclaim, Zombie;
    assert TcbOk(s.pool[s.current], s.current);
    StateChanged(s, s.current, Terminated);
    Reclaimed(s.WithState(s.current, Terminated));
  }

  lemma {:induction false} WithoutPosition(q: seq<int>, x: int, k: nat) returns (k': nat)
    requires k < |q| && q[k] != x
    ensures k' <= k && k' < |Without(q, x)| && Without(q, x)[k'] == q[k]
  {
    if q[0] == x {
      k' := k - 1;
    } else if k == 0 {
      k' := 0;
    } else {
      var m := WithoutPosition(q[1..], x, k - 1);
      k' := m + 1;
    }
  }

  /** Ticks a thread at position `k` may still have to wait. */
  function Patience(s: Sched, k: nat): nat
    requires s.Shaped()
  {
    2 * k + if s.pool[s.current].ticks >= 1 then 1 else 2
  }

  /** Progress of the thread at position `k` from `s` to `r`: it runs, or it waits at `k'` with less to wait for. */
  ghost predicate Closer(s: Sched, k: nat, r: Sched, k': nat, ticked: bool, dispatched: bool)
    requires s.Shaped() && r.Shaped() && k < |s.queue|
  {
    || r.current == s.queue[k]
    || (&& k' < |r.queue| && r.queue[k'] == s.queue[k]
        && k' <= k - (if dispatched then 1 else 0) && Patience(r, k') <= Patience(s, k) - (if ticked then 1 else 0))
  }

  lemma DispatchCloser(s: Sched, k: nat, r: Sched, ticked: bool)
    requires s.Shaped() && r.Shaped() && k < |s.queue|
    requires r.current == s.queue[0] && s.queue[1..] <= r.queue && r.pool[r.current].ticks == 0
    ensures Closer(s, k, r, if k > 0 then k - 1 else 0, ticked, true)
  {
    if k > 0 { assert s.queue[1..][k - 1] == s.queue[k]; }
  }

  lemma StepCloser(s: Sched, e: Step, k: nat) returns (k': nat)
    requires Inv(s) && Allowed(s, e) && k < |s.queue| && e != DoBlock(s.queue[k])
    ensures Closer(s, k, After(s, e), k', e.DoTick?, Dispatches(s, e))
  {
    hide Schedule, Exit, Steady, Create, Closer;
    InvShaped(s);
    k' := if k > 0 && Dispatches(s, e) then k - 1 else k;
    match e
    case DoCreate(g) => CreateCloser(s, g, k);
    case DoYield => YieldDispatches(s); DispatchCloser(s, k, Yield(s), false);
    case DoTick => TickCloser(s, k);
    case DoBlock(t) =>
      if t == s.current {
        BlockDispatches(s);
        DispatchCloser(s, k, Block(s, t), false);
      } else {
        k' := WithoutPosition(s.queue, t, k);
        BlockCloser(s, t, k, k');
      }
    case DoUnblock(t) => UnblockCloser(s, t, k);
    case DoExit => ExitDispatches(s); DispatchCloser(s, k, Exit(s), false);
  }

  lemma InvShaped(s: Sched)
    requires Inv(s)
    ensures s.Shaped()
  {
  }

  lemma CreateCloser(s: Sched, g: Grant, k: nat)
    requires Inv(s) && k < |s.queue|
    ensures Closer(s, k, Create(s, g), k, false, false)
  {
    hide Steady, FreeSlot;
    InvShaped(s);
    CurrentActive(s);
  }

  lemma CurrentActive(s: Sched)
    requires Inv(s)
    ensures s.current < |s.pool| && s.pool[s.current].active && s.pool[s.current].state == Running
  {
  }

  lemma YieldDispatches(s: Sched)
    requires Inv(s) && s.queue != []
    ensures var r := Yield(s); r.current == s.queue[0] && s.queue[1..] <= r.queue && r.pool[r.current].ticks == 0
  {
    assert s.Shaped();
    hide Steady, Schedule;
    var s1 := if s.pool[s.current].isIdle then s else s.(stats := s.stats.(voluntary := s.stats.voluntary + 1));
    BookkeepingKept(s, s1);
    ScheduleDispatches(s1);
  }

  lemma TickCloser(s: Sched, k: nat)
    requires Inv(s) && k < |s.queue|
    ensures Closer(s, k, Tick(s), if k > 0 && Dispatches(s, DoTick) then k - 1 else k, true, Dispatches(s, DoTick))
  {
    assert s.Shaped();
    hide Steady, Schedule;
    if Dispatches(s, DoTick) {
      TickSteady(s, 1);
      ScheduleDispatches(Ticked(s, 1));
      assert Tick(s) == Schedule(Ticked(s, 1));
      DispatchCloser(s, k, Tick(s), true);
    }
  }

  lemma BlockDispatches(s: Sched)
    requires Inv(s) && s.queue != [] && !s.pool[s.current].isIdle
    ensures var r := Block(s, s.current);
            r.current == s.queue[0] && s.queue[1..] <= r.queue && r.pool[r.current].ticks == 0
  {
    assert TcbOk(s.pool[s.current], s.current);
    hide Schedule;
    StateChanged(s, s.current, Blocked);
    ScheduleDispatches(s.WithState(s.current, Blocked));
  }

  lemma BlockCloser(s: Sched, t: nat, k: nat, k': nat)
    requires Inv(s) && k < |s.queue| && t < MAX_THREADS && t != s.current
    requires k' <= k && k' < |Without(s.queue, t)| && Without(s.queue, t)[k'] == s.queue[k]
    ensures Closer(s, k, Block(s, t), k', false, false)
  {
    hide Steady;
    InvShaped(s);
  }

  lemma UnblockCloser(s: Sched, t: nat, k: nat)
    requires Inv(s) && k < |s.queue| && t < MAX_THREADS
    ensures Closer(s, k, Unblock(s, t), k, false, false)
  {
    hide Steady;
    InvShaped(s);
    CurrentActive(s);
  }

  // ---------------------------------------------------------------- whole runs

  function TicksIn(steps: seq<Step>): nat
  {
    if steps == [] then 0 else (if steps[0].DoTick? then 1 else 0) + TicksIn(steps[1..])
  }

  ghost function DispatchesIn(states: seq<Sched>, steps: seq<Step>): nat
    requires Run(states, steps)
  {
    if steps == [] then 0
    else
      (if Dispatches(states[0], steps[0]) then 1 else 0)
      + (RunTail(states, steps); DispatchesIn(states[1..], steps[1..]))
  }

  lemma RunTail(states: seq<Sched>, steps: seq<Step>)
    requires Run(states, steps) && steps != []
    ensures Run(states[1..], steps[1..])
  {
  }

  /** Thread `t` gets the processor at some point of the run. */
  ghost predicate Runs(states: seq<Sched>, t: int)
  {
    exists i :: 0 < i < |states| && states[i].current == t
  }

  lemma RunsLater(states: seq<Sched>, t: int)
    requires states != [] && Runs(states[1..], t)
    ensures Runs(states, t)
  {
    var i :| 0 < i < |states[1..]| && states[1..][i].current == t;
    assert states[i + 1].current == t;
  }

  /** Within its remaining patience in ticks, or one more dispatch than there are threads ahead of it, a thread runs. */
  lemma {:induction false} Waits(states: seq<Sched>, steps: seq<Step>, k: nat)
    requires Run(states, steps) && Inv(states[0]) && k < |states[0].queue|
    requires DoBlock(states[0].queue[k]) !in steps
    requires TicksIn(steps) >= Patience(states[0], k) || DispatchesIn(states, steps) > k
    ensures Runs(states, states[0].queue[k])
    decreases |steps|
  {
    hide Inv, After, Allowed, Dispatches;
    var s, t := states[0], states[0].queue[k];
    assert steps != [];
    assert steps[0] in steps;
    var k' := StepCloser(s, steps[0], k);
    StepInv(s, steps[0]);
    if states[1].current != t {
      RunTail(states, steps);
      assert DoBlock(t) !in steps[1..];
      Waits(states[1..], steps[1..], k');
      RunsLater(states, t);
    }
  }

  /** A ready thread with `k` threads ahead of it that is not blocked runs within `2 * (k + 1)` timer ticks, whatever
      else happens meanwhile. */
  lemma NoStarvation(states: seq<Sched>, steps: seq<Step>, k: nat)
    requires Run(states, steps) && Inv(states[0]) && k < |states[0].queue|
    requires DoBlock(states[0].queue[k]) !in steps && TicksIn(steps) >= 2 * (k + 1)
    ensures Runs(states, states[0].queue[k])
  {
    hide Inv;
    Waits(states, steps, k);
  }

  // ---------------------------------------------------------------- the runtime check

  /** `ReadyQueue::verify_invariants` on the queue's contents. */
  predicate VerifyQueue(pool: seq<Tcb>, queue: seq<int>)
    requires Queueable(queue) && |pool| == MAX_THREADS
  {
    && |queue| <= CAPACITY
    && forall i :: 0 <= i < |queue| ==>
         && pool[queue[i]].state == Ready && !pool[queue[i]].isIdle
         && forall j :: i < j < |queue| ==> queue[j] != queue[i]
  }

  function RunningFlags(pool: seq<Tcb>): seq<bool>
  {
    seq(|pool|, i requires 0 <= i < |pool| => pool[i].active && pool[i].state == Running)
  }

  predicate SlotInUse(s: Sched, slot: int)
  {
    0 <= slot < MAX_STACK_SLOTS && slot < |s.slots| && s.slots[slot]
  }

  /** Conditions 6 and 7 for one thread. */
  predicate VerifyThread(s: Sched, i: nat)
    requires s.Shaped() && i < MAX_THREADS
  {
    var t := s.pool[i];
    t.active ==>
      && (t.state in {Terminated, Blocked} ==> i !in s.queue)
      && (t.state == Ready && !t.isIdle ==> i in s.queue)
      && !(t.state == Terminated && i == s.current)
      && (t.stack.slot >= 0 ==>
            && SlotInUse(s, t.stack.slot)
            && forall j :: i < j < MAX_THREADS && s.pool[j].active && s.pool[j].stack.slot >= 0 ==>
                 s.pool[j].stack.slot != t.stack.slot)
  }

  /** `Scheduler::verify_invariants`, its eight conditions in order. */
  predicate VerifyInvariants(s: Sched)
    requires s.Shaped()
  {
    && s.pool[s.current].active && s.pool[s.current].state == Running && Count(RunningFlags(s.pool), true) == 1
    && s.current !in s.queue
    && s.pool[IDLE].active && s.pool[BOOTSTRAP].active && s.pool[IDLE].isIdle && s.pool[BOOTSTRAP].isBootstrap
    && s.pool[IDLE].state != Terminated
    && IDLE !in s.queue
    && VerifyQueue(s.pool, s.queue)
    && (forall i :: 0 <= i < MAX_THREADS ==> VerifyThread(s, i))
    && (s.pool[s.current].stack.slot >= 0 ==> SlotInUse(s, s.pool[s.current].stack.slot))
  }

  lemma {:induction false} CountUnique(bits: seq<bool>, k: nat)
    requires k < |bits| && bits[k] && forall i :: 0 <= i < |bits| && bits[i] ==> i == k
    ensures Count(bits, true) == 1
  {
    var n := |bits| - 1;
    if k == n {
      CountPositive(bits[..n], true);
    } else {
      CountUnique(bits[..n], k);
    }
  }

  lemma ThreadVerifies(s: Sched, i: nat)
    requires Inv(s) && i < MAX_THREADS
    ensures VerifyThread(s, i)
  {
    hide Count, Actives, CountsOk, Zombie;
    var t := s.pool[i];
    assert TcbOk(t, i);
    if t.active && t.stack.slot >= 0 {
      assert Owner(s.pool, i);
      forall j | i < j < MAX_THREADS && s.pool[j].active
        ensures s.pool[j].stack.slot != t.stack.slot
      {
        assert Owner(s.pool, j);
      }
    }
  }

  /** The runtime check never fails. */
  lemma CheckPasses(s: Sched)
    requires Inv(s)
    ensures VerifyInvariants(s)
  {
    hide CountsOk, Zombie, VerifyThread;
    CountUnique(RunningFlags(s.pool), s.current);
    assert TcbOk(s.pool[IDLE], IDLE) && TcbOk(s.pool[BOOTSTRAP], BOOTSTRAP) && TcbOk(s.pool[s.current], s.current);
    forall i | 0 <= i < MAX_THREADS ensures VerifyThread(s, i) { ThreadVerifies(s, i); }
    Pigeonhole(s.queue, MAX_THREADS);
    forall k | 0 <= k < |s.queue| ensures !s.pool[s.queue[k]].isIdle {
      assert Waiting(s.pool[s.queue[k]]) && TcbOk(s.pool[s.queue[k]], s.queue[k]);
    }
    if s.current > 0 { assert Owner(s.pool, s.current); }
  }

  /** After every run from `start` on, the runtime check passes and stacks are conserved. */
  lemma RunsAreSafe(base: nat, states: seq<Sched>, steps: seq<Step>, k: nat)
    requires Run(states, steps) && states[0] == Initial(base) && k < |states|
    ensures VerifyInvariants(states[k]) && AtMostOneZombie(states[k].pool)
    ensures var s := states[k];
            && Count(s.slots, true) == Count(Actives(s.pool), true) - 1
            && s.pagesOut - s.pagesBack == STACK_USABLE_PAGES * Count(s.slots, true)
  {
    hide VerifyInvariants, Initial, Run;
    AlwaysInv(base, states, steps, k);
    CheckPasses(states[k]);
  }
}
