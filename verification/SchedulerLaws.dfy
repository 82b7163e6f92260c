/** What each step of the scheduler does to every thread, said flatly: no step is described by another. */
module SchedulerLaws {
  import opened Bitmap
  import opened ReadyQueues
  import opened Sequences
  import opened Threads
  import opened SchedulerSafety
  import opened Fairness

  // ---------------------------------------------------------------- the law

  /** The running thread could go on and another waits: it yields, or its two ticks are over. */
  predicate GivesWay(s: Sched, e: Step)
    requires s.Shaped()
  {
    && s.current != IDLE && s.queue != []
    && (e.DoYield? || (e.DoTick? && s.pool[s.current].ticks + 1 >= 2))
  }

  /** The idle thread runs and another waits. */
  predicate Wakes(s: Sched, e: Step)
  {
    s.current == IDLE && s.queue != [] && (e.DoYield? || e.DoTick?)
  }

  /** The running thread ends or blocks itself. */
  predicate Stops(s: Sched, e: Step)
  {
    e.DoExit? || e == DoBlock(s.current)
  }

  predicate Switches(s: Sched, e: Step)
    requires s.Shaped()
  {
    GivesWay(s, e) || Wakes(s, e) || Stops(s, e)
  }

  /** The oldest waiting thread, else the idle thread. */
  function Oldest(s: Sched): (t: nat)
    requires s.Shaped()
    ensures t < MAX_THREADS
  {
    if s.queue == [] then IDLE else s.queue[0]
  }

  /** Stacks of terminated threads are freed at every entry to the scheduler. */
  predicate Enters(s: Sched, e: Step)
    requires s.Shaped()
  {
    || e.DoYield? || Stops(s, e)
    || (e.DoTick? && (s.pool[s.current].ticks + 1 >= 2 || (s.current == IDLE && s.queue != [])))
  }

  predicate Creates(s: Sched, e: Step, i: nat)
    requires s.Shaped()
  {
    e.DoCreate? && i == FreeTcb(s.pool, 2)
  }

  predicate Supplied(s: Sched, e: Step)
    requires s.Shaped()
  {
    e.DoCreate? && e.grant.Granted? && FreeSlot(s.slots, 0) < MAX_STACK_SLOTS
  }

  function StateAfter(s: Sched, e: Step, i: nat): ThreadState
    requires s.Shaped() && i < MAX_THREADS
  {
    if Switches(s, e) && i == Oldest(s) then Running
    else if GivesWay(s, e) && i == s.current then Ready
    else if Wakes(s, e) && i == IDLE then Idling
    else if e.DoExit? && i == s.current then Terminated
    else if e == DoBlock(i) then Blocked
    else if e == DoUnblock(i) && s.pool[i].state == Blocked then Ready
    else s.pool[i].state
  }

  function TicksAfter(s: Sched, e: Step, i: nat): nat
    requires s.Shaped() && i < MAX_THREADS
  {
    if Switches(s, e) && i == Oldest(s) then 0
    else if e.DoTick? && i == s.current then s.pool[i].ticks + 1
    else s.pool[i].ticks
  }

  /** A thread with a stack to free. */
  predicate Freed(s: Sched, e: Step, i: nat)
    requires s.Shaped() && i < MAX_THREADS
  {
    Enters(s, e) && i != s.current && s.pool[i].active && s.pool[i].state == Terminated && s.pool[i].stack.slot >= 0
  }

  function TcbAfter(s: Sched, e: Step, i: nat): Tcb
    requires s.Shaped() && i < MAX_THREADS
  {
    var t := s.pool[i];
    if Creates(s, e, i) then
      if Supplied(s, e) then
        Tcb(s.nextId, Ready, StackInfo(FreeSlot(s.slots, 0), e.grant.base, 4), 0, false, false, true)
      else Tcb(0, Created, StackInfo(-1, 0, 0), 0, false, false, false)
    else
      Tcb(t.id, StateAfter(s, e, i), if Freed(s, e, i) then StackInfo(-1, 0, 0) else t.stack, TicksAfter(s, e, i),
          t.isIdle, t.isBootstrap, t.active && !Freed(s, e, i))
  }

  function QueueAfter(s: Sched, e: Step): seq<int>
    requires s.Shaped()
  {
    if Switches(s, e) then
      (if s.queue == [] then [] else s.queue[1..]) + if GivesWay(s, e) then [s.current] else []
    else
      match e
      case DoBlock(t) => Without(s.queue, t)
      case DoUnblock(t) => if t < MAX_THREADS && s.pool[t].state == Blocked then s.queue + [t] else s.queue
      case DoCreate(_) =>
        if FreeTcb(s.pool, 2) < MAX_THREADS && Supplied(s, e) then s.queue + [FreeTcb(s.pool, 2)] else s.queue
      case _ => s.queue
  }

  /** Numbers are given out in order; past 2^32 - 1 they start over at 3. */
  function NextIdAfter(s: Sched, e: Step): nat
    requires s.Shaped()
  {
    if FreeTcb(s.pool, 2) < MAX_THREADS && Supplied(s, e) then
      if s.nextId + 1 == 0x1_0000_0000 then 3 else s.nextId + 1
    else s.nextId
  }

  /** The whole of `r` that threads can notice, and the counters of switches. */
  ghost predicate Follows(s: Sched, e: Step, r: Sched)
    requires s.Shaped() && r.Shaped()
  {
    && r.current == (if Switches(s, e) then Oldest(s) else s.current)
    && r.queue == QueueAfter(s, e)
    && (forall i {:trigger r.pool[i]} :: 0 <= i < MAX_THREADS ==> r.pool[i] == TcbAfter(s, e, i))
    && r.nextId == NextIdAfter(s, e)
    && r.pagesOut == s.pagesOut + (if FreeTcb(s.pool, 2) < MAX_THREADS && Supplied(s, e) then 4 else 0)
    && r.stats.total == s.stats.total + (if FreeTcb(s.pool, 2) < MAX_THREADS && Supplied(s, e) then 1 else 0)
    && r.stats.switches == s.stats.switches + (if Switches(s, e) then 1 else 0)
    && r.stats.preemptions == s.stats.preemptions + (if e.DoTick? && Enters(s, e) then 1 else 0)
    && r.stats.voluntary == s.stats.voluntary + (if e.DoYield? && s.current != IDLE then 1 else 0)
  }

  // ---------------------------------------------------------------- reclaiming and dispatching

  function Reaped(s: Sched, i: nat): Tcb
    requires s.Shaped() && i < MAX_THREADS
  {
    if Reclaimable(s, i) then s.pool[i].(stack := NO_STACK, active := false) else s.pool[i]
  }

  /** The counters reclaiming leaves alone. */
  predicate SameCounters(s: Sched, r: Sched)
  {
    && r.stats.switches == s.stats.switches && r.stats.preemptions == s.stats.preemptions
    && r.stats.voluntary == s.stats.voluntary && r.stats.total == s.stats.total && r.pagesOut == s.pagesOut
  }

  ghost predicate ReapedBelow(s: Sched, r: Sched, n: nat)
    requires s.Shaped() && r.Shaped()
  {
    && r.queue == s.queue && r.current == s.current && r.nextId == s.nextId && SameCounters(s, r)
    && forall j {:trigger r.pool[j]} :: 0 <= j < MAX_THREADS ==> r.pool[j] == if j < n then Reaped(s, j) else s.pool[j]
  }

  lemma {:induction false} ReclaimExactly(s: Sched, n: nat)
    requires s.Shaped() && n <= MAX_THREADS
    ensures ReapedBelow(s, ReclaimUpTo(s, n), n)
  {
    if n > 0 {
      ReclaimExactly(s, n - 1);
      ReclaimOneExactly(s, ReclaimUpTo(s, n - 1), n - 1);
    }
  }

  lemma ReclaimOneExactly(s: Sched, r: Sched, n: nat)
    requires s.Shaped() && r.Shaped() && n < MAX_THREADS && ReapedBelow(s, r, n)
    ensures ReapedBelow(s, ReclaimOne(r, n), n + 1)
  {
  }

  /** What `schedule` does to thread `i`. */
  function Dispatched(s: Sched, i: nat): Tcb
    requires s.Shaped() && i < MAX_THREADS
  {
    var t, cur := Reaped(s, i), s.pool[s.current].state;
    if s.queue == [] && cur == Running then t
    else if i == Oldest(s) then t.(state := Running, ticks := 0)
    else if i == s.current && cur == Running then t.(state := if i == IDLE then Idling else Ready)
    else t
  }

  /** `schedule`, whole: the running thread goes behind the waiting ones, the oldest of them runs. */
  lemma ScheduleExactly(s: Sched)
    requires Steady(s)
    ensures var r, cur := Schedule(s), s.pool[s.current].state;
            && (s.queue == [] && cur == Running ==> r.current == s.current && r.queue == [] && SameCounters(s, r))
            && (s.queue != [] || cur != Running ==>
                 && r.current == Oldest(s) && r.stats.switches == s.stats.switches + 1
                 && SameCounters(s, r.(stats := r.stats.(switches := s.stats.switches))))
            && (s.queue != [] ==>
                 r.queue == s.queue[1..] + if cur == Running && s.current != IDLE then [s.current] else [])
            && (s.queue == [] ==> r.queue == []) && r.nextId == s.nextId
            && forall i {:trigger r.pool[i]} :: 0 <= i < MAX_THREADS ==> r.pool[i] == Dispatched(s, i)
  {
    hide Count, Actives, CountsOk, StacksOk, Reclaim, QueueOk, PoolOk, Zombie, ReclaimUpTo, ReclaimedBelow;
    assert s.Shaped();
    ReclaimExactly(s, MAX_THREADS);
    Reclaimed(s);
    var r := Reclaim(s);
    assert r == ReclaimUpTo(s, MAX_THREADS) by { ReclaimIsAll(s); }
    CurrentKept(s, r);
    HeadSelectable(r.pool, r.queue, r.current);
    Popped(r.pool, r.queue);
    if s.queue != [] {
      var popped := r.(queue := r.queue[1..]);
      PoppedShaped(r);
      CountsIgnoreQueue(r, popped);
      ParkedOk(popped, r.queue[0]);
      ParkExactly(popped);
    }
  }

  lemma ReclaimIsAll(s: Sched)
    requires s.Shaped()
    ensures Reclaim(s) == ReclaimUpTo(s, MAX_THREADS)
  {
  }

  lemma CurrentKept(s: Sched, r: Sched)
    requires Steady(s) && r.Shaped() && ReapedBelow(s, r, MAX_THREADS)
    ensures r.pool[s.current] == s.pool[s.current] && (s.pool[s.current].isIdle <==> s.current == IDLE)
    ensures s.pool[s.current].state != Ready && (s.current == IDLE ==> s.pool[s.current].state == Running)
  {
    assert TcbOk(s.pool[s.current], s.current);
  }

  lemma ParkExactly(s: Sched)
    requires s.Shaped() && (s.pool[s.current].isIdle <==> s.current == IDLE)
    ensures SameCounters(s, Park(s)) && Park(s).current == s.current && Park(s).nextId == s.nextId
    ensures forall i :: 0 <= i < MAX_THREADS && i != s.current ==> Park(s).pool[i] == s.pool[i]
    ensures Park(s).pool[s.current] ==
              if s.pool[s.current].state != Running then s.pool[s.current]
              else s.pool[s.current].(state := if s.current == IDLE then Idling else Ready)
    ensures s.pool[s.current].state != Running || s.current == IDLE ==> Park(s).queue == s.queue
  {
  }

  // ---------------------------------------------------------------- every step

  lemma RunningFacts(s: Sched)
    requires Inv(s)
    ensures s.Shaped() && Steady(s) && s.pool[s.current].state == Running && s.pool[s.current].active
    ensures s.pool[s.current].isIdle <==> s.current == IDLE
    ensures s.current !in s.queue && IDLE !in s.queue
  {
    hide Count, Actives, CountsOk, StacksOk;
    assert TcbOk(s.pool[s.current], s.current) && TcbOk(s.pool[IDLE], IDLE);
  }

  lemma YieldFollows(s: Sched)
    requires Inv(s)
    ensures s.Shaped() && Follows(s, DoYield, Yield(s))
  {
    hide Steady, Inv, Schedule, TcbAfter, Dispatched, Follows;
    RunningFacts(s);
    var s1 := if s.pool[s.current].isIdle then s else s.(stats := s.stats.(voluntary := s.stats.voluntary + 1));
    BookkeepingKept(s, s1);
    ScheduleExactly(s1);
    forall i | 0 <= i < MAX_THREADS ensures Dispatched(s1, i) == TcbAfter(s, DoYield, i) { YieldedTcb(s, s1, i); }
    FollowsParts(s, DoYield, Yield(s));
  }

  lemma TickFollows(s: Sched)
    requires Inv(s)
    ensures s.Shaped() && Follows(s, DoTick, Tick(s))
  {
    hide Steady, Inv, Schedule, TcbAfter, Dispatched, Follows;
    RunningFacts(s);
    if Enters(s, DoTick) {
      TickSteady(s, 1);
      var s1 := Ticked(s, 1);
      ScheduleExactly(s1);
      assert Tick(s) == Schedule(s1);
      forall i | 0 <= i < MAX_THREADS ensures Dispatched(s1, i) == TcbAfter(s, DoTick, i) { TickedTcb(s, s1, i); }
    } else {
      forall i | 0 <= i < MAX_THREADS ensures Tick(s).pool[i] == TcbAfter(s, DoTick, i) { QuietTick(s, i); }
    }
    FollowsParts(s, DoTick, Tick(s));
  }

  lemma BlockFollows(s: Sched, t: nat)
    requires Inv(s) && t < MAX_THREADS && s.pool[t].active && t != IDLE
    ensures s.Shaped() && Follows(s, DoBlock(t), Block(s, t))
  {
    hide Inv, Steady, Schedule, TcbAfter, Dispatched, Follows;
    RunningFacts(s);
    if t == s.current {
      StateChanged(s, t, Blocked);
      var s1 := s.WithState(t, Blocked);
      ScheduleExactly(s1);
      forall i | 0 <= i < MAX_THREADS ensures Dispatched(s1, i) == TcbAfter(s, DoBlock(t), i) { BlockedTcb(s, s1, i); }
    } else {
      forall i | 0 <= i < MAX_THREADS ensures Block(s, t).pool[i] == TcbAfter(s, DoBlock(t), i) { SetAside(s, t, i); }
    }
    FollowsParts(s, DoBlock(t), Block(s, t));
  }

  lemma UnblockFollows(s: Sched, t: nat)
    requires Inv(s) && t < MAX_THREADS
    ensures s.Shaped() && Follows(s, DoUnblock(t), Unblock(s, t))
  {
    hide Inv, Steady, CanEnqueue, TcbAfter, Follows;
    RunningFacts(s);
    UnblockInv(s, t);
    forall i | 0 <= i < MAX_THREADS ensures Unblock(s, t).pool[i] == TcbAfter(s, DoUnblock(t), i) { Woken(s, t, i); }
    FollowsParts(s, DoUnblock(t), Unblock(s, t));
  }

  lemma ExitFollows(s: Sched)
    requires Inv(s) && s.current != IDLE
    ensures s.Shaped() && Follows(s, DoExit, Exit(s))
  {
    hide Inv, Steady, ReclaimUpTo, TcbAfter, Follows, Reaped;
    RunningFacts(s);
    var s1 := s.WithState(s.current, Terminated);
    ReclaimExactly(s1, MAX_THREADS);
    var r := Reclaim(s1);
    forall i | 0 <= i < MAX_THREADS ensures Exit(s).pool[i] == TcbAfter(s, DoExit, i) {
      assert r.pool[i] == Reaped(s1, i);
      ExitedTcb(s, s1, i);
    }
    FollowsParts(s, DoExit, Exit(s));
  }

  lemma CreateFollows(s: Sched, g: Grant)
    requires Inv(s)
    ensures s.Shaped() && Follows(s, DoCreate(g), Create(s, g))
  {
    hide Inv, Steady, FreeTcb, FreeSlot, Follows, TcbAfter;
    RunningFacts(s);
    var n := FreeTcb(s.pool, 2);
    if n < MAX_THREADS { NewThreadFits(s, n); }
    forall i | 0 <= i < MAX_THREADS ensures Create(s, g).pool[i] == TcbAfter(s, DoCreate(g), i) { CreatedTcb(s, g, i); }
    FollowsParts(s, DoCreate(g), Create(s, g));
  }

  lemma CreatedTcb(s: Sched, g: Grant, i: nat)
    requires s.Shaped() && i < MAX_THREADS
    requires FreeTcb(s.pool, 2) < MAX_THREADS ==> FreeTcb(s.pool, 2) !in s.queue && |s.queue| < CAPACITY
    ensures Create(s, g).pool[i] == TcbAfter(s, DoCreate(g), i)
  {
    hide FreeTcb, FreeSlot;
  }

  lemma FollowsParts(s: Sched, e: Step, r: Sched)
    requires s.Shaped() && r.Shaped()
    requires r.current == (if Switches(s, e) then Oldest(s) else s.current) && r.queue == QueueAfter(s, e)
    requires forall i {:trigger r.pool[i]} :: 0 <= i < MAX_THREADS ==> r.pool[i] == TcbAfter(s, e, i)
    requires r.nextId == NextIdAfter(s, e)
    requires r.pagesOut == s.pagesOut + (if FreeTcb(s.pool, 2) < MAX_THREADS && Supplied(s, e) then 4 else 0)
    requires r.stats.total == s.stats.total + (if FreeTcb(s.pool, 2) < MAX_THREADS && Supplied(s, e) then 1 else 0)
    requires r.stats.switches == s.stats.switches + (if Switches(s, e) then 1 else 0)
    requires r.stats.preemptions == s.stats.preemptions + (if e.DoTick? && Enters(s, e) then 1 else 0)
    requires r.stats.voluntary == s.stats.voluntary + (if e.DoYield? && s.current != IDLE then 1 else 0)
    ensures Follows(s, e, r)
  {
    hide TcbAfter, QueueAfter;
  }

  lemma YieldedTcb(s: Sched, s1: Sched, i: nat)
    requires s.Shaped() && s1.Shaped() && i < MAX_THREADS && s1.pool == s.pool && s1.current == s.current
    requires s1.queue == s.queue && s.pool[s.current].state == Running
    ensures Dispatched(s1, i) == TcbAfter(s, DoYield, i)
  {
  }

  lemma TickedTcb(s: Sched, s1: Sched, i: nat)
    requires s.Shaped() && s1 == Ticked(s, 1) && i < MAX_THREADS && s.pool[s.current].state == Running
    requires Enters(s, DoTick) && s.current !in s.queue
    ensures Dispatched(s1, i) == TcbAfter(s, DoTick, i)
  {
  }

  lemma QuietTick(s: Sched, i: nat)
    requires s.Shaped() && i < MAX_THREADS && !Enters(s, DoTick) && (s.pool[s.current].isIdle <==> s.current == IDLE)
    ensures Tick(s).pool[i] == TcbAfter(s, DoTick, i)
  {
  }

  lemma BlockedTcb(s: Sched, s1: Sched, i: nat)
    requires s.Shaped() && s1 == s.WithState(s.current, Blocked) && i < MAX_THREADS && s.current !in s.queue
    requires s.current != IDLE
    ensures Dispatched(s1, i) == TcbAfter(s, DoBlock(s.current), i)
  {
  }

  lemma SetAside(s: Sched, t: nat, i: nat)
    requires s.Shaped() && i < MAX_THREADS && t < MAX_THREADS && t != s.current
    ensures Block(s, t).pool[i] == TcbAfter(s, DoBlock(t), i)
  {
  }

  lemma Woken(s: Sched, t: nat, i: nat)
    requires s.Shaped() && i < MAX_THREADS && t < MAX_THREADS
    ensures Unblock(s, t).pool[i] == TcbAfter(s, DoUnblock(t), i)
  {
  }

  lemma ExitedTcb(s: Sched, s1: Sched, i: nat)
    requires s.Shaped() && s1 == s.WithState(s.current, Terminated) && i < MAX_THREADS && s.current !in s.queue
    requires s.current != IDLE
    ensures TcbAfter(s, DoExit, i) ==
              if i == Oldest(s) then Reaped(s1, i).(state := Running, ticks := 0) else Reaped(s1, i)
  {
  }

  lemma NewThreadFits(s: Sched, i: nat)
    requires Inv(s) && i < MAX_THREADS && !s.pool[i].active
    ensures i !in s.queue && |s.queue| < CAPACITY
  {
    hide Count, Actives, CountsOk, StacksOk;
    QueueHasRoom(s.queue, i);
  }

  /** Every step does exactly what the law says, to every thread. */
  lemma StepExactly(s: Sched, e: Step)
    requires Inv(s) && s.Shaped() && Allowed(s, e)
    ensures Follows(s, e, After(s, e))
  {
    hide Follows, Inv, Create, Yield, Tick, Block, Unblock, Exit;
    RunningFacts(s);
    match e
    case DoCreate(g) => CreateFollows(s, g);
    case DoYield => YieldFollows(s);
    case DoTick => TickFollows(s);
    case DoBlock(t) =>
      IdleFlag(s, t);
      BlockFollows(s, t);
    case DoUnblock(t) => UnblockFollows(s, t);
    case DoExit => ExitFollows(s);
  }

  lemma IdleFlag(s: Sched, t: nat)
    requires Inv(s) && t < MAX_THREADS
    ensures s.pool[t].isIdle <==> t == IDLE
  {
    hide Count, Actives, CountsOk, StacksOk;
    assert TcbOk(s.pool[t], t);
  }

  /** How it starts: the bootstrap thread, number 1, runs; the idle thread, number 2, has the first stack and is parked;
      nothing else is in use, and the next thread is number 3. */
  lemma StartsAs(base: nat)
    ensures var s := Initial(base);
            && s.current == 0 && s.queue == [] && s.nextId == 3 && s.pagesOut == 4 && s.pagesBack == 0
            && s.pool[0].active && s.pool[0].id == 1 && s.pool[0].state == Running && s.pool[0].stack.slot == -1
            && s.pool[1].active && s.pool[1].id == 2 && s.pool[1].state == Idling
            && s.pool[1].stack == StackInfo(0, base, 4) && s.pool[0].ticks == s.pool[1].ticks == 0
            && (forall i :: 2 <= i < 64 ==> !s.pool[i].active)
            && (forall k :: 0 <= k < 64 ==> (s.slots[k] <==> k == 0))
  {
  }

  // ---------------------------------------------------------------- what follows

  /** A thread that gives way waits behind all others and loses nothing but the processor. */
  lemma GoesBehind(s: Sched, e: Step)
    requires Inv(s) && s.Shaped() && Allowed(s, e) && GivesWay(s, e)
    ensures var r := After(s, e);
            && r.queue == s.queue[1..] + [s.current] && r.pool[s.current].state == Ready && r.pool[s.current].active
            && r.current == s.queue[0] && r.pool[r.current].state == Running && r.pool[r.current].ticks == 0
  {
    hide Inv, After;
    RunningFacts(s);
    StepExactly(s, e);
    var r := After(s, e);
    assert r.pool[s.current] == TcbAfter(s, e, s.current) && r.pool[s.queue[0]] == TcbAfter(s, e, s.queue[0]);
  }

  /** Each change of a thread's state from `a` to `b` has exactly one cause. */
  predicate Caused(s: Sched, e: Step, i: nat, a: ThreadState, b: ThreadState)
    requires s.Shaped()
  {
    && (a == Running && b == Ready <==> i == s.current && GivesWay(s, e))
    && (a != Running && b == Running <==> i == Oldest(s) && Switches(s, e))
    && (a != Idling && b == Idling <==> i == IDLE && Wakes(s, e))
    && (a != Blocked && b == Blocked <==> a != Blocked && e == DoBlock(i))
    && (a == Blocked && b != Blocked <==> a == Blocked && e == DoUnblock(i)) && (a == Blocked ==> b in {Blocked, Ready})
    && (a != Terminated && b == Terminated <==> i == s.current && e == DoExit)
    && (a == Terminated && b != Terminated <==> a == Terminated && e == DoBlock(i))
    && (b == Ready ==> a in {Ready, Running, Blocked}) && (b == Created ==> a == Created)
  }

  /** Why the state of a thread changes. */
  lemma StateChanges(s: Sched, e: Step, i: nat)
    requires Inv(s) && s.Shaped() && Allowed(s, e) && i < MAX_THREADS && !Creates(s, e, i)
    ensures Caused(s, e, i, s.pool[i].state, After(s, e).pool[i].state)
  {
    hide Inv, After, FreeTcb, FreeSlot, Caused, StateAfter;
    RunningFacts(s);
    StepExactly(s, e);
    StateFacts(s, i);
    assert After(s, e).pool[i] == TcbAfter(s, e, i);
    if s.queue != [] { HeadFacts(s); }
    StateCauses(s, e, i);
  }

  lemma StateCauses(s: Sched, e: Step, i: nat)
    requires s.Shaped() && Allowed(s, e) && i < MAX_THREADS
    requires s.pool[s.current].state == Running && (s.pool[s.current].isIdle <==> s.current == IDLE)
    requires s.pool[i].state == Running ==> i == s.current
    requires (i == IDLE ==> s.pool[i].state in {Idling, Running}) && (s.pool[i].state == Idling ==> i == IDLE)
    requires s.pool[i].isIdle <==> i == IDLE
    requires s.queue != [] ==> s.pool[s.queue[0]].state == Ready && s.queue[0] != IDLE && s.queue[0] != s.current
    ensures Caused(s, e, i, s.pool[i].state, StateAfter(s, e, i))
  {
  }

  lemma StateFacts(s: Sched, i: nat)
    requires Inv(s) && i < MAX_THREADS
    ensures s.pool[i].state == Running ==> i == s.current
    ensures i == IDLE ==> s.pool[i].state in {Idling, Running}
    ensures s.pool[i].state == Idling ==> i == IDLE
    ensures s.pool[i].isIdle <==> i == IDLE
  {
    hide Count, Actives, CountsOk, StacksOk;
    assert TcbOk(s.pool[i], i);
  }

  lemma HeadFacts(s: Sched)
    requires Inv(s) && s.queue != []
    ensures 0 <= s.queue[0] < MAX_THREADS && s.pool[s.queue[0]].state == Ready && s.queue[0] != IDLE
    ensures s.queue[0] != s.current
  {
    hide Count, Actives, CountsOk, StacksOk;
    assert Waiting(s.pool[s.queue[0]]) && TcbOk(s.pool[s.queue[0]], s.queue[0]);
  }

  /** Thread `t` waits for the processor or has it. */
  predicate Runnable(s: Sched, t: nat)
    requires s.Shaped()
  {
    t < MAX_THREADS && t != IDLE && s.pool[t].active && s.pool[t].state in {Ready, Running}
  }

  /** Thread `t` is blocked, or exits. */
  predicate Leaves(s: Sched, e: Step, t: nat)
  {
    e == DoBlock(t) || (e.DoExit? && s.current == t)
  }

  lemma StepRunnable(s: Sched, e: Step, t: nat)
    requires Inv(s) && s.Shaped() && Allowed(s, e) && Runnable(s, t) && !Leaves(s, e, t)
    ensures Runnable(After(s, e), t)
  {
    hide Inv, After, FreeSlot;
    RunningFacts(s);
    StepExactly(s, e);
    StateFacts(s, t);
    assert After(s, e).pool[t] == TcbAfter(s, e, t);
  }

  lemma RunnableWaits(s: Sched, t: nat)
    requires Inv(s) && s.Shaped() && Runnable(s, t)
    ensures s.current == t || t in s.queue
    ensures |s.queue| < MAX_THREADS
  {
    hide Count, Actives, CountsOk, StacksOk;
    assert s.current !in s.queue;
    Pigeonhole(s.queue + [s.current], MAX_THREADS);
  }

  /** No thread is lost: until it is blocked or exits, a runnable thread has the processor or waits for it. */
  lemma {:induction false} NeverLost(states: seq<Sched>, steps: seq<Step>, t: nat, k: nat)
    requires Run(states, steps) && Inv(states[0]) && Runnable(states[0], t) && k <= |steps|
    requires forall j :: 0 <= j < k ==> !Leaves(states[j], steps[j], t)
    ensures Inv(states[k]) && Runnable(states[k], t) && (states[k].current == t || t in states[k].queue)
  {
    hide Inv, After, Allowed, Runnable;
    if k > 0 {
      NeverLost(states, steps, t, k - 1);
      StepRunnable(states[k - 1], steps[k - 1], t);
      StepInv(states[k - 1], steps[k - 1]);
    }
    RunnableWaits(states[k], t);
  }

  /** A thread that gave way runs again within two ticks for each thread that waited. */
  lemma RunsAgain(states: seq<Sched>, steps: seq<Step>)
    requires Run(states, steps) && Inv(states[0]) && steps != [] && GivesWay(states[0], steps[0])
    requires DoBlock(states[0].current) !in steps && TicksIn(steps[1..]) >= 2 * |states[0].queue|
    ensures Runs(states[1..], states[0].current)
  {
    hide Inv, After, Allowed;
    var s, k := states[0], |states[0].queue| - 1;
    GoesBehind(s, steps[0]);
    StepInv(s, steps[0]);
    RunTail(states, steps);
    assert states[1..][0].queue[k] == s.current;
    NoStarvation(states[1..], steps[1..], k);
  }

  /** Every runnable thread, running or waiting, that is not blocked and does not exit gets the processor (again)
      within 128 timer ticks. */
  lemma EveryThreadRuns(states: seq<Sched>, steps: seq<Step>, t: nat)
    requires Run(states, steps) && Inv(states[0]) && Runnable(states[0], t) && TicksIn(steps) >= 128
    requires forall j :: 0 <= j < |steps| ==> !Leaves(states[j], steps[j], t)
    ensures Runs(states, t)
  {
    hide Inv, After, Allowed;
    var s := states[0];
    RunnableWaits(s, t);
    NotBlocked(states, steps, t);
    if t in s.queue {
      var k :| 0 <= k < |s.queue| && s.queue[k] == t;
      NoStarvation(states, steps, k);
    } else {
      assert steps != [];
      assert !Leaves(s, steps[0], t);
      StepExactly(s, steps[0]);
      RunningFacts(s);
      if GivesWay(s, steps[0]) {
        RunsAgain(states, steps);
        RunsLater(states, t);
      } else {
        assert states[1].current == t;
      }
    }
  }

  lemma NotBlocked(states: seq<Sched>, steps: seq<Step>, t: nat)
    requires |states| == |steps| + 1 && forall j :: 0 <= j < |steps| ==> !Leaves(states[j], steps[j], t)
    ensures DoBlock(t) !in steps
  {
  }

  // ---------------------------------------------------------------- thread numbers

  /** Threads in use have numbers of their own, all given out already. */
  ghost predicate OwnIds(s: Sched)
    requires s.Shaped()
  {
    && (forall i :: 0 <= i < MAX_THREADS && s.pool[i].active ==> s.pool[i].id < s.nextId)
    && forall i, j :: 0 <= i < j < MAX_THREADS && s.pool[i].active && s.pool[j].active ==> s.pool[i].id != s.pool[j].id
  }

  lemma StepIds(s: Sched, e: Step)
    requires Inv(s) && s.Shaped() && Allowed(s, e) && OwnIds(s) && s.nextId + 1 < 0x1_0000_0000
    ensures OwnIds(After(s, e)) && s.nextId <= After(s, e).nextId <= s.nextId + 1
  {
    hide Inv, After, StateAfter, TicksAfter, Freed;
    StepExactly(s, e);
    var r := After(s, e);
    forall i | 0 <= i < MAX_THREADS && r.pool[i].active
      ensures r.pool[i].id < r.nextId
              && (r.pool[i].id == s.nextId || (s.pool[i].active && r.pool[i].id == s.pool[i].id))
      ensures r.pool[i].id == s.nextId ==> i == FreeTcb(s.pool, 2)
    {
      assert r.pool[i] == TcbAfter(s, e, i);
    }
  }

  /** Until 2^32 - 4 steps have been taken, no two threads in use have the same number. */
  lemma {:induction false} NumbersUnique(base: nat, states: seq<Sched>, steps: seq<Step>, k: nat)
    requires Run(states, steps) && states[0] == Initial(base) && k < |states| && k < 0xFFFF_FFFC
    ensures OwnIds(states[k]) && states[k].nextId <= 3 + k
  {
    hide After, Allowed;
    if k > 0 {
      NumbersUnique(base, states, steps, k - 1);
      AlwaysInv(base, states, steps, k - 1);
      StepIds(states[k - 1], steps[k - 1]);
    }
  }
}
