/** What every step of the scheduler keeps. */
module SchedulerSafety {
  import opened Bitmap
  import opened ReadyQueues
  import opened Sequences
  import opened Threads

  // ---------------------------------------------------------------- the invariant

  /** One thread record, at index `i`. */
  predicate TcbOk(t: Tcb, i: int)
  {
    && (t.isIdle <==> i == IDLE) && (t.isBootstrap <==> i == BOOTSTRAP) && (i <= IDLE ==> t.active)
    && (!t.active ==> t.state in {Created, Terminated} && t.stack.slot == -1)
    && (t.active ==> t.state != Created) && (t.state == Idling ==> i == IDLE)
       && (i == IDLE ==> t.state in {Idling, Running})
    && (t.active && i == BOOTSTRAP ==> t.stack.slot == -1)
    && (t.active && i != BOOTSTRAP ==> 0 <= t.stack.slot < MAX_STACK_SLOTS && t.stack.pages == STACK_USABLE_PAGES)
  }

  predicate PoolOk(pool: seq<Tcb>)
  {
    |pool| == MAX_THREADS && forall i :: 0 <= i < MAX_THREADS ==> TcbOk(pool[i], i)
  }

  predicate Waiting(t: Tcb)
  {
    t.active && t.state == Ready
  }

  /** The queue holds exactly the ready threads, once each. */
  predicate QueueOk(pool: seq<Tcb>, queue: seq<int>)
  {
    && |pool| == MAX_THREADS && Distinct(queue) && Queueable(queue)
    && (forall k :: 0 <= k < |queue| ==> Waiting(pool[queue[k]]))
    && (forall i :: 0 <= i < MAX_THREADS && Waiting(pool[i]) ==> i in queue)
  }

  /** Owners of allocated stacks: every active thread but the bootstrap thread. */
  predicate Owner(pool: seq<Tcb>, i: int)
  {
    1 <= i < |pool| && pool[i].active
  }

  /** Every owner's slot is in use, and no two share one. */
  ghost predicate StacksOk(pool: seq<Tcb>, slots: seq<bool>)
  {
    && |slots| == MAX_STACK_SLOTS
    && (forall i :: Owner(pool, i) ==> 0 <= pool[i].stack.slot < MAX_STACK_SLOTS && slots[pool[i].stack.slot])
    && (forall i, j :: Owner(pool, i) && Owner(pool, j) && i != j ==> pool[i].stack.slot != pool[j].stack.slot)
  }

  function Actives(pool: seq<Tcb>): seq<bool>
  {
    seq(|pool|, i requires 0 <= i < |pool| => pool[i].active)
  }

  /** Conservation: slots in use are active threads less one, and pages handed out and not returned are four each. */
  predicate CountsOk(s: Sched)
  {
    && Count(Actives(s.pool), true) == Count(s.slots, true) + 1
    && s.pagesOut == s.pagesBack + STACK_USABLE_PAGES * Count(s.slots, true)
    && s.stats.pagesAllocated == s.pagesOut && s.stats.pagesReclaimed == s.pagesBack
    && s.stats.active == Count(Actives(s.pool), true) && s.stats.total == s.stats.active + s.stats.terminated
  }

  /** Nobody else runs; the current thread is not queued, and runs if it is the idle thread. */
  predicate CurrentOk(pool: seq<Tcb>, current: nat)
  {
    && current < |pool| && pool[current].active && pool[current].state != Ready
    && (current == IDLE ==> pool[current].state == Running)
    && forall i :: 0 <= i < |pool| && pool[i].active && pool[i].state == Running ==> i == current
  }

  predicate Zombie(t: Tcb)
  {
    t.active && t.state == Terminated && t.stack.slot >= 0
  }

  predicate AtMostOneZombie(pool: seq<Tcb>)
  {
    forall i, j :: 0 <= i < j < |pool| ==> !(Zombie(pool[i]) && Zombie(pool[j]))
  }

  /** Holds whenever a new thread may be selected. */
  ghost predicate Steady(s: Sched)
  {
    s.Shaped() && PoolOk(s.pool) && QueueOk(s.pool, s.queue) && StacksOk(s.pool, s.slots) && CountsOk(s)
    && CurrentOk(s.pool, s.current)
  }

  ghost predicate Inv(s: Sched)
  {
    Steady(s) && s.pool[s.current].state == Running && AtMostOneZombie(s.pool)
  }

  // ---------------------------------------------------------------- small facts

  lemma ActivesUpdate(pool: seq<Tcb>, i: nat, t: Tcb)
    requires i < |pool|
    ensures Actives(pool[i := t]) == Actives(pool)[i := t.active]
    ensures t.active == pool[i].active ==> Actives(pool[i := t]) == Actives(pool)
  {
    assert Actives(pool)[i] == pool[i].active;
  }

  /** A duplicate-free queue that misses a thread is not full. */
  lemma QueueHasRoom(queue: seq<int>, t: int)
    requires Distinct(queue) && Queueable(queue) && 0 <= t < MAX_THREADS && t !in queue
    ensures |queue| < CAPACITY
  {
    Pigeonhole(queue + [t], MAX_THREADS);
  }

  // ---------------------------------------------------------------- reclaiming

  lemma ReclaimOneSteady(s: Sched, i: nat)
    requires Steady(s) && i < MAX_THREADS
    ensures Steady(ReclaimOne(s, i))
  {
    if Reclaimable(s, i) {
      var slot := s.pool[i].stack.slot;
      assert TcbOk(s.pool[i], i);
      assert Owner(s.pool, i);
      CountUpdate(s.slots, slot, false);
      ActivesUpdate(s.pool, i, s.pool[i].(stack := NO_STACK, active := false));
      CountUpdate(Actives(s.pool), i, false);
      ReclaimedPool(s, i);
    }
  }

  lemma ReclaimedPool(s: Sched, i: nat)
    requires Steady(s) && i < MAX_THREADS && Reclaimable(s, i)
    ensures var r := ReclaimOne(s, i);
            PoolOk(r.pool) && QueueOk(r.pool, r.queue) && StacksOk(r.pool, r.slots) && CurrentOk(r.pool, r.current)
  {
    hide Count, CountsOk;
    var r := ReclaimOne(s, i);
    assert TcbOk(s.pool[i], i);
    forall j | 0 <= j < MAX_THREADS ensures TcbOk(r.pool[j], j) { assert TcbOk(s.pool[j], j); }
    forall j | Owner(r.pool, j) ensures 0 <= r.pool[j].stack.slot < MAX_STACK_SLOTS && r.slots[r.pool[j].stack.slot] {
      assert Owner(s.pool, j) && Owner(s.pool, i);
    }
    forall j, k | Owner(r.pool, j) && Owner(r.pool, k) && j != k ensures r.pool[j].stack.slot != r.pool[k].stack.slot {
      assert Owner(s.pool, j) && Owner(s.pool, k);
    }
  }

  /** From `s` to `r`, threads below `n` may have been reclaimed and nothing else happened to the pool. */
  ghost predicate ReclaimedBelow(s: Sched, r: Sched, n: nat)
  {
    && s.Shaped() && r.Shaped() && r.queue == s.queue && r.current == s.current && r.nextId == s.nextId
    && (forall j :: 0 <= j < n && j < MAX_THREADS && j != s.current ==> !Zombie(r.pool[j]))
    && (forall j :: 0 <= j < MAX_THREADS ==>
         r.pool[j] == s.pool[j] || (Reclaimable(s, j) && !r.pool[j].active && !r.pool[j].isIdle == !s.pool[j].isIdle))
  }

  lemma ReclaimNone(s: Sched)
    requires s.Shaped()
    ensures ReclaimedBelow(s, s, 0)
  {
  }

  lemma SteadyIsShaped(s: Sched)
    requires Steady(s)
    ensures s.Shaped()
  {
  }

  lemma ReclaimOneBelow(s: Sched, r: Sched, n: nat)
    requires ReclaimedBelow(s, r, n) && n < MAX_THREADS
    ensures ReclaimedBelow(s, ReclaimOne(r, n), n + 1)
  {
  }

  /** Reclaiming leaves no terminated thread with a stack, except the one still running on it. */
  lemma {:induction false} ReclaimSteady(s: Sched, n: nat)
    requires Steady(s) && n <= MAX_THREADS
    ensures Steady(ReclaimUpTo(s, n)) && ReclaimedBelow(s, ReclaimUpTo(s, n), n)
  {
    hide Steady, ReclaimedBelow, ReclaimOne;
    SteadyIsShaped(s);
    if n == 0 {
      ReclaimNone(s);
    } else {
      ReclaimSteady(s, n - 1);
      ReclaimOneSteady(ReclaimUpTo(s, n - 1), n - 1);
      ReclaimOneBelow(s, ReclaimUpTo(s, n - 1), n - 1);
    }
  }

  // ---------------------------------------------------------------- selecting a thread

  /** Only states, tick counts and statistics about switching changed. */
  ghost predicate SameOwners(s: Sched, r: Sched)
  {
    && s.Shaped() && r.Shaped() && r.slots == s.slots && r.pagesOut == s.pagesOut && r.pagesBack == s.pagesBack
    && (forall i :: 0 <= i < MAX_THREADS ==> r.pool[i].active == s.pool[i].active && r.pool[i].stack == s.pool[i].stack)
    && r.stats.(switches := s.stats.switches, preemptions := s.stats.preemptions, voluntary := s.stats.voluntary) ==
         s.stats
  }

  lemma OwnersKept(s: Sched, r: Sched)
    requires SameOwners(s, r) && StacksOk(s.pool, s.slots) && CountsOk(s)
    ensures StacksOk(r.pool, r.slots) && CountsOk(r)
  {
    assert Actives(r.pool) == Actives(s.pool);
    forall i | Owner(r.pool, i) ensures 0 <= r.pool[i].stack.slot < MAX_STACK_SLOTS && r.slots[r.pool[i].stack.slot] {
      assert Owner(s.pool, i);
    }
    forall i, j | Owner(r.pool, i) && Owner(r.pool, j) && i != j ensures r.pool[i].stack.slot != r.pool[j].stack.slot {
      assert Owner(s.pool, i) && Owner(s.pool, j);
    }
  }

  /** The queue once `t` has been taken out of it. */
  predicate QueueOkBut(pool: seq<Tcb>, queue: seq<int>, t: int)
  {
    && |pool| == MAX_THREADS && Distinct(queue) && Queueable(queue) && t !in queue
    && (forall k :: 0 <= k < |queue| ==> Waiting(pool[queue[k]]))
    && (forall i :: 0 <= i < MAX_THREADS && i != t && Waiting(pool[i]) ==> i in queue)
  }

  lemma Popped(pool: seq<Tcb>, queue: seq<int>)
    requires QueueOk(pool, queue)
    ensures queue != [] ==> QueueOkBut(pool, queue[1..], queue[0])
    ensures queue == [] && PoolOk(pool) ==> QueueOkBut(pool, queue, IDLE)
  {
    if queue != [] {
      forall i | 0 <= i < MAX_THREADS && i != queue[0] && Waiting(pool[i]) ensures i in queue[1..] {
        assert i in queue;
      }
    } else {
      forall i | 0 <= i < MAX_THREADS ensures !Waiting(pool[i]) { }
    }
  }

  /** A thread about to be selected. */
  predicate Selectable(pool: seq<Tcb>, next: int)
  {
    0 <= next < |pool| && pool[next].active && (next == IDLE || pool[next].state == Ready)
  }

  predicate NobodyRuns(pool: seq<Tcb>)
  {
    forall i :: 0 <= i < |pool| ==> !(pool[i].active && pool[i].state == Running)
  }

  /** Ready for `next` to take over. */
  ghost predicate Parked(s: Sched, next: int)
  {
    && s.Shaped() && PoolOk(s.pool) && QueueOkBut(s.pool, s.queue, next) && StacksOk(s.pool, s.slots) && CountsOk(s)
    && Selectable(s.pool, next) && NobodyRuns(s.pool)
  }

  lemma SwitchedOk(s: Sched, next: nat)
    requires next < MAX_THREADS && Parked(s, next) && AtMostOneZombie(s.pool)
    ensures Inv(SwitchTo(s, next))
  {
    hide Count, Actives, CountsOk, StacksOk;
    var r := SwitchTo(s, next);
    OwnersKept(s, r);
    forall i | 0 <= i < MAX_THREADS ensures TcbOk(r.pool[i], i) { assert TcbOk(s.pool[i], i); }
    assert QueueOk(r.pool, r.queue);
  }

  /** The outgoing thread is parked; if it goes to the queue, the queue takes it. */
  lemma ParkedOk(s: Sched, next: nat)
    requires s.Shaped() && PoolOk(s.pool) && StacksOk(s.pool, s.slots) && CountsOk(s) && CurrentOk(s.pool, s.current)
    requires QueueOkBut(s.pool, s.queue, next) && next < MAX_THREADS && Selectable(s.pool, next) && next != s.current
    ensures Parked(Park(s), next) && SameOwners(s, Park(s))
    ensures s.pool[s.current].state == Running && !s.pool[s.current].isIdle ==>
              CanEnqueue(s.WithState(s.current, Ready), s.current) && Park(s).queue == s.queue + [s.current]
    ensures forall i :: 0 <= i < MAX_THREADS ==> (Zombie(Park(s).pool[i]) <==> Zombie(s.pool[i]))
  {
    hide Count, Actives, CountsOk, StacksOk;
    var cur, r := s.current, Park(s);
    assert TcbOk(s.pool[cur], cur);
    assert cur !in s.queue;
    QueueHasRoom(s.queue, cur);
    OwnersKept(s, r);
    forall i | 0 <= i < MAX_THREADS ensures TcbOk(r.pool[i], i) { assert TcbOk(s.pool[i], i); }
    ParkedQueue(s, next);
  }

  lemma ParkedQueue(s: Sched, next: nat)
    requires s.Shaped() && PoolOk(s.pool) && CurrentOk(s.pool, s.current) && s.current !in s.queue
             && |s.queue| < CAPACITY
    requires QueueOkBut(s.pool, s.queue, next) && next < MAX_THREADS && next != s.current
    ensures QueueOkBut(Park(s).pool, Park(s).queue, next) && NobodyRuns(Park(s).pool)
  {
    var cur, r := s.current, Park(s);
    assert TcbOk(s.pool[cur], cur);
    assert forall k :: 0 <= k < |s.queue| ==> s.queue[k] != cur;
    if s.pool[cur].state == Running && !s.pool[cur].isIdle {
      assert r.queue == s.queue + [cur];
      forall i | 0 <= i < MAX_THREADS && i != next && Waiting(r.pool[i]) ensures i in r.queue {
        if i != cur { assert Waiting(s.pool[i]); }
      }
    }
  }

  /** After reclaiming: a steady state in which only the current thread may be terminated with a stack. */
  lemma Reclaimed(s: Sched)
    requires Steady(s)
    ensures Steady(Reclaim(s)) && ReclaimedBelow(s, Reclaim(s), MAX_THREADS) && AtMostOneZombie(Reclaim(s).pool)
  {
    hide Steady;
    ReclaimSteady(s, MAX_THREADS);
  }

  lemma HeadSelectable(pool: seq<Tcb>, queue: seq<int>, current: nat)
    requires PoolOk(pool) && QueueOk(pool, queue) && CurrentOk(pool, current)
    ensures queue != [] ==>
              Selectable(pool, queue[0]) && queue[0] != current && queue[0] != IDLE && 0 <= queue[0] < MAX_THREADS
    ensures Selectable(pool, IDLE)
  {
    assert TcbOk(pool[IDLE], IDLE);
    if queue != [] {
      assert Waiting(pool[queue[0]]);
      assert TcbOk(pool[queue[0]], queue[0]);
    }
  }

  /** `schedule` re-establishes the invariant whether the current thread runs on, gives way or has been blocked. */
  lemma ScheduleInv(s: Sched)
    requires Steady(s)
    ensures Inv(Schedule(s))
  {
    hide Count, Actives, CountsOk, StacksOk, Reclaim, QueueOk, PoolOk, Zombie, Park, SwitchTo, ReclaimedBelow;
    Reclaimed(s);
    var r := Reclaim(s);
    HeadSelectable(r.pool, r.queue, r.current);
    Popped(r.pool, r.queue);
    if r.queue == [] && r.pool[r.current].state == Running {
      assert r.WithState(r.current, Running) == r;
    } else {
      var next := if r.queue == [] then IDLE else r.queue[0];
      var popped := if r.queue == [] then r else r.(queue := r.queue[1..]);
      PoppedShaped(r);
      CountsIgnoreQueue(r, popped);
      ParkedOk(popped, next);
      SameZombies(popped.pool, Park(popped).pool);
      SwitchedOk(Park(popped), next);
    }
  }

  lemma PoppedShaped(r: Sched)
    requires r.Shaped()
    ensures r.queue != [] ==> r.(queue := r.queue[1..]).Shaped()
  {
  }

  lemma CountsIgnoreQueue(r: Sched, r': Sched)
    requires CountsOk(r) && r' == r.(queue := r'.queue)
    ensures CountsOk(r')
  {
  }

  lemma SameZombies(pool: seq<Tcb>, pool': seq<Tcb>)
    requires |pool| == |pool'| && (forall i :: 0 <= i < |pool| ==> (Zombie(pool'[i]) <==> Zombie(pool[i])))
             && AtMostOneZombie(pool)
    ensures AtMostOneZombie(pool')
  {
    hide Zombie;
  }

  /** Changing the state of one thread, active and not queued before or after. */
  lemma StateChanged(s: Sched, i: nat, state: ThreadState)
    requires Steady(s) && i < MAX_THREADS && s.pool[i].active && s.pool[i].state != Ready && i != IDLE
    requires state in {Blocked, Terminated} || (state == Running && i == s.current)
    requires i == s.current || state == Blocked
    ensures Steady(s.WithState(i, state))
  {
    hide Count, Actives, CountsOk, StacksOk;
    var r := s.WithState(i, state);
    OwnersKept(s, r);
    forall j | 0 <= j < MAX_THREADS ensures TcbOk(r.pool[j], j) { assert TcbOk(s.pool[j], j); }
    assert i !in s.queue;
    forall k | 0 <= k < |r.queue| ensures Waiting(r.pool[r.queue[k]]) { assert Waiting(s.pool[s.queue[k]]); }
    forall j | 0 <= j < MAX_THREADS && Waiting(r.pool[j]) ensures j in r.queue { assert Waiting(s.pool[j]); }
  }

  /** Bookkeeping fields do not matter. */
  lemma BookkeepingKept(s: Sched, r: Sched)
    requires Steady(s) && SameOwners(s, r) && r.queue == s.queue && r.current == s.current
    requires forall i :: 0 <= i < MAX_THREADS ==> r.pool[i].(ticks := s.pool[i].ticks) == s.pool[i]
    ensures Steady(r)
  {
    hide Count, Actives, CountsOk, StacksOk;
    OwnersKept(s, r);
    forall j | 0 <= j < MAX_THREADS ensures TcbOk(r.pool[j], j) { assert TcbOk(s.pool[j], j); }
    forall k | 0 <= k < |r.queue| ensures Waiting(r.pool[r.queue[k]]) { assert Waiting(s.pool[s.queue[k]]); }
    forall j | 0 <= j < MAX_THREADS && Waiting(r.pool[j]) ensures j in r.queue { assert Waiting(s.pool[j]); }
  }

  lemma YieldInv(s: Sched)
    requires Inv(s)
    ensures Inv(Yield(s))
  {
    assert s.Shaped();
    hide Steady, Schedule;
    var s1 := if s.pool[s.current].isIdle then s else s.(stats := s.stats.(voluntary := s.stats.voluntary + 1));
    BookkeepingKept(s, s1);
    ScheduleInv(s1);
  }

  lemma TickInv(s: Sched)
    requires Inv(s)
    ensures Inv(Tick(s))
  {
    assert s.Shaped();
    hide Steady, Schedule, AtMostOneZombie, SameOwners;
    var cur := s.pool[s.current];
    if cur.ticks + 1 >= TIMESLICE || (cur.isIdle && s.queue != []) {
      TickSteady(s, 1);
      ScheduleInv(Ticked(s, 1));
    } else {
      TickSteady(s, 0);
      SameZombies(s.pool, Ticked(s, 0).pool);
    }
  }

  function Ticked(s: Sched, n: nat): (r: Sched)
    requires s.Shaped()
    ensures r.Shaped()
  {
    var cur := s.pool[s.current];
    s.(pool := s.pool[s.current := cur.(ticks := cur.ticks + 1)],
      stats := s.stats.(preemptions := s.stats.preemptions + n))
  }

  lemma TickSteady(s: Sched, n: nat)
    requires Steady(s)
    ensures Steady(Ticked(s, n))
  {
    assert s.Shaped();
    hide Steady;
    BookkeepingKept(s, Ticked(s, n));
  }

  lemma ExitInv(s: Sched)
    requires Inv(s) && !s.pool[s.current].isIdle
    ensures Inv(Exit(s))
  {
    hide Count, Actives, CountsOk, StacksOk, Reclaim, QueueOk, Zombie, SwitchTo;
    assert TcbOk(s.pool[s.current], s.current);
    var s1 := s.WithState(s.current, Terminated);
    StateChanged(s, s.current, Terminated);
    Reclaimed(s1);
    var r := Reclaim(s1);
    HeadSelectable(r.pool, r.queue, r.current);
    Popped(r.pool, r.queue);
    PoppedShaped(r);
    var next := if r.queue == [] then IDLE else r.queue[0];
    var popped := if r.queue == [] then r else r.(queue := r.queue[1..]);
    CountsIgnoreQueue(r, popped);
    assert NobodyRuns(r.pool) by { assert r.pool[s.current] == s1.pool[s.current]; }
    SwitchedOk(popped, next);
  }

  lemma BlockInv(s: Sched, t: nat)
    requires Inv(s) && Allowed(s, DoBlock(t))
    ensures Inv(Block(s, t))
  {
    assert TcbOk(s.pool[t], t);
    if t == s.current {
      hide Steady, Schedule;
      StateChanged(s, t, Blocked);
      ScheduleInv(s.WithState(t, Blocked));
    } else {
      hide Count, Actives, CountsOk, StacksOk, Zombie;
      var r := Block(s, t);
      WithoutMembers(s.queue, t);
      OwnersKept(s, r);
      forall j | 0 <= j < MAX_THREADS ensures TcbOk(r.pool[j], j) { assert TcbOk(s.pool[j], j); }
      BlockedQueue(s.pool, s.queue, t);
      NoNewZombie(s.pool, t, s.pool[t].(state := Blocked));
    }
  }

  /** Reclaiming does not look at the state of the current thread. */
  lemma {:induction false} ReclaimCommutes(s: Sched, x: ThreadState, n: nat)
    requires s.Shaped() && n <= MAX_THREADS
    ensures ReclaimUpTo(s.WithState(s.current, x), n) == ReclaimUpTo(s, n).WithState(s.current, x)
    ensures ReclaimUpTo(s, n).current == s.current && ReclaimUpTo(s, n).queue == s.queue
    ensures ReclaimUpTo(s, n).pool[s.current] == s.pool[s.current]
  {
    hide ReclaimOne;
    if n > 0 {
      ReclaimCommutes(s, x, n - 1);
      ReclaimOneCommutes(ReclaimUpTo(s, n - 1), x, n - 1);
    }
  }

  lemma ReclaimOneCommutes(s: Sched, x: ThreadState, i: nat)
    requires s.Shaped() && i < MAX_THREADS
    ensures var r := ReclaimOne(s, i);
            && ReclaimOne(s.WithState(s.current, x), i) == r.WithState(s.current, x)
            && r.current == s.current && r.queue == s.queue && r.pool[s.current] == s.pool[s.current]
  {
    if Reclaimable(s, i) {
      var t, c := s.pool[i].(stack := NO_STACK, active := false), s.pool[s.current].(state := x);
      assert s.pool[s.current := c][i := t] == s.pool[i := t][s.current := c];
    }
  }

  /** Blocking keeps the invariant exactly for threads in use, the idle thread only while it runs and nobody waits. */
  lemma BlockExactly(s: Sched, t: nat)
    requires Inv(s) && t < MAX_THREADS
    ensures Inv(Block(s, t)) <==> s.pool[t].active && (t == IDLE ==> t == s.current && s.queue == [])
  {
    hide Count, Actives, CountsOk, StacksOk, AtMostOneZombie, Reclaim;
    assert TcbOk(s.pool[t], t);
    if t != IDLE && s.pool[t].active {
      BlockInv(s, t);
    } else if t != s.current {
      assert !TcbOk(Block(s, t).pool[t], t);
    } else {
      BlockIdle(s);
    }
  }

  lemma BlockIdle(s: Sched)
    requires Inv(s) && s.current == IDLE
    ensures Inv(Block(s, IDLE)) <==> s.queue == []
  {
    hide Count, Actives, CountsOk, StacksOk, AtMostOneZombie, ReclaimUpTo;
    ReclaimCommutes(s, Blocked, MAX_THREADS);
    if s.queue == [] {
      BlockIdleAlone(s);
    } else {
      assert Waiting(s.pool[s.queue[0]]);
      assert !TcbOk(Block(s, IDLE).pool[IDLE], IDLE);
    }
  }

  /** With nobody waiting the idle thread is chosen again at once. */
  lemma BlockIdleAlone(s: Sched)
    requires Inv(s) && s.current == IDLE && s.queue == []
    ensures Inv(Block(s, IDLE)) && Block(s, IDLE) == Schedule(s)
  {
    hide Steady, AtMostOneZombie, ReclaimUpTo;
    InvSteady(s);
    ReclaimCommutes(s, Blocked, MAX_THREADS);
    ScheduleInv(s);
    var r := Reclaim(s);
    assert r.WithState(IDLE, Blocked).WithState(IDLE, Running) == r == r.WithState(IDLE, Running);
  }

  lemma InvSteady(s: Sched)
    requires Inv(s)
    ensures Steady(s) && s.Shaped() && s.pool[s.current].state == Running && s.current < |s.pool|
  {
  }

  lemma BlockedQueue(pool: seq<Tcb>, queue: seq<int>, t: nat)
    requires QueueOk(pool, queue) && t < MAX_THREADS
    ensures QueueOk(pool[t := pool[t].(state := Blocked)], Without(queue, t))
  {
    WithoutMembers(queue, t);
    WithoutStaysQueueable(queue, t);
    var pool', q := pool[t := pool[t].(state := Blocked)], Without(queue, t);
    forall k | 0 <= k < |q| ensures Waiting(pool'[q[k]]) { assert q[k] in q; }
    forall i | 0 <= i < MAX_THREADS && Waiting(pool'[i]) ensures i in q { assert Waiting(pool[i]); }
  }

  lemma NoNewZombie(pool: seq<Tcb>, i: nat, t: Tcb)
    requires i < |pool| && AtMostOneZombie(pool) && !Zombie(t)
    ensures AtMostOneZombie(pool[i := t])
  {
  }

  /** Waking a thread: it is queued, and the queue always takes it. */
  lemma UnblockInv(s: Sched, t: nat)
    requires Inv(s) && t < MAX_THREADS
    ensures Inv(Unblock(s, t))
    ensures s.pool[t].state == Blocked ==> CanEnqueue(s.WithState(t, Ready), t)
  {
    hide Count, Actives, CountsOk, StacksOk;
    if s.pool[t].state == Blocked {
      assert TcbOk(s.pool[t], t);
      assert t !in s.queue;
      QueueHasRoom(s.queue, t);
      var r := Unblock(s, t);
      OwnersKept(s, r);
      forall j | 0 <= j < MAX_THREADS ensures TcbOk(r.pool[j], j) { assert TcbOk(s.pool[j], j); }
      AppendedQueue(s.pool, s.queue, t, s.pool[t].(state := Ready));
    }
  }

  lemma AppendedQueue(pool: seq<Tcb>, queue: seq<int>, i: nat, t: Tcb)
    requires QueueOk(pool, queue) && i < MAX_THREADS && i !in queue && Waiting(t)
    ensures QueueOk(pool[i := t], queue + [i])
  {
    var pool', q := pool[i := t], queue + [i];
    forall k | 0 <= k < |q| ensures Waiting(pool'[q[k]]) { if k < |queue| { assert Waiting(pool[queue[k]]); } }
    forall j | 0 <= j < MAX_THREADS && Waiting(pool'[j]) ensures j in q { if j != i { assert Waiting(pool[j]); } }
  }

  /** A new thread: pool entry, stack slot and queue place are all fresh; the queue always takes it. */
  lemma CreateInv(s: Sched, grant: Grant)
    requires Inv(s)
    ensures Inv(Create(s, grant))
    ensures var i, slot := FreeTcb(s.pool, 2), FreeSlot(s.slots, 0);
            i < MAX_THREADS && slot < MAX_STACK_SLOTS && grant.Granted? ==>
              CanEnqueue(Prepared(s, i, slot, grant.base), i)
  {
    var i, slot := FreeTcb(s.pool, 2), FreeSlot(s.slots, 0);
    if i < MAX_THREADS {
      assert TcbOk(s.pool[i], i);
      assert i !in s.queue;
      if slot == MAX_STACK_SLOTS || grant.Refused? {
        BlankKept(s, i);
      } else {
        QueueHasRoom(s.queue, i);
        CreatedInv(s, i, slot, grant);
      }
    }
  }

  lemma BlankKept(s: Sched, i: nat)
    requires Inv(s) && 2 <= i < MAX_THREADS && !s.pool[i].active
    ensures Inv(s.(pool := s.pool[i := BLANK]))
  {
    hide Count, Actives, CountsOk, StacksOk;
    var r := s.(pool := s.pool[i := BLANK]);
    assert TcbOk(s.pool[i], i);
    assert SameActive(s, r);
    SameActiveKept(s, r);
    forall j | 0 <= j < MAX_THREADS ensures TcbOk(r.pool[j], j) { assert TcbOk(s.pool[j], j); }
    forall k | 0 <= k < |r.queue| ensures Waiting(r.pool[r.queue[k]]) { assert Waiting(s.pool[s.queue[k]]); }
    forall j | 0 <= j < MAX_THREADS && Waiting(r.pool[j]) ensures j in r.queue { assert Waiting(s.pool[j]); }
    NoNewZombie(s.pool, i, BLANK);
  }

  ghost predicate SameActive(s: Sched, r: Sched)
  {
    && s.Shaped() && r == s.(pool := r.pool) && r.Shaped()
    && forall i :: 0 <= i < MAX_THREADS ==>
         r.pool[i].active == s.pool[i].active && (s.pool[i].active ==> r.pool[i] == s.pool[i])
  }

  lemma SameActiveKept(s: Sched, r: Sched)
    requires SameActive(s, r) && StacksOk(s.pool, s.slots) && CountsOk(s)
    ensures StacksOk(r.pool, r.slots) && CountsOk(r)
  {
    assert Actives(r.pool) == Actives(s.pool);
    forall i | Owner(r.pool, i) ensures 0 <= r.pool[i].stack.slot < MAX_STACK_SLOTS && r.slots[r.pool[i].stack.slot] {
      assert Owner(s.pool, i);
    }
    forall i, j | Owner(r.pool, i) && Owner(r.pool, j) && i != j ensures r.pool[i].stack.slot != r.pool[j].stack.slot {
      assert Owner(s.pool, i) && Owner(s.pool, j);
    }
  }

  lemma CreatedInv(s: Sched, i: nat, slot: nat, grant: Grant)
    requires Inv(s) && grant.Granted? && i == FreeTcb(s.pool, 2) < MAX_THREADS
             && slot == FreeSlot(s.slots, 0) < MAX_STACK_SLOTS
    requires i !in s.queue && |s.queue| < CAPACITY
    ensures CanEnqueue(Prepared(s, i, slot, grant.base), i) && Inv(Create(s, grant))
  {
    hide Count, FreeTcb, FreeSlot, Zombie;
    var r := Create(s, grant);
    var t := r.pool[i];
    assert TcbOk(s.pool[i], i);
    ActivesUpdate(s.pool, i, t);
    CountUpdate(Actives(s.pool), i, true);
    CountUpdate(s.slots, slot, true);
    forall j | 0 <= j < MAX_THREADS ensures TcbOk(r.pool[j], j) { assert TcbOk(s.pool[j], j); }
    AppendedQueue(s.pool, s.queue, i, t);
    NewOwner(s.pool, s.slots, i, t, slot);
    assert !Zombie(t) by { StateNotZombie(t); }
    NoNewZombie(s.pool, i, t);
  }

  lemma StateNotZombie(t: Tcb)
    requires t.state != Terminated
    ensures !Zombie(t)
  {
  }

  lemma NewOwner(pool: seq<Tcb>, slots: seq<bool>, i: nat, t: Tcb, slot: nat)
    requires StacksOk(pool, slots) && i < |pool| && !pool[i].active && slot < MAX_STACK_SLOTS && !slots[slot]
             && t.stack.slot == slot
    ensures StacksOk(pool[i := t], slots[slot := true])
  {
    var pool' := pool[i := t];
    forall j | Owner(pool', j)
      ensures 0 <= pool'[j].stack.slot < MAX_STACK_SLOTS && slots[slot := true][pool'[j].stack.slot]
    {
      if j != i { assert Owner(pool, j); }
    }
    forall j, k | Owner(pool', j) && Owner(pool', k) && j != k ensures pool'[j].stack.slot != pool'[k].stack.slot {
      if j != i { assert Owner(pool, j); }
      if k != i { assert Owner(pool, k); }
    }
  }

  // ---------------------------------------------------------------- runs

  /** A run: every step is allowed in the state it is taken in. */
  ghost predicate Run(states: seq<Sched>, steps: seq<Step>)
  {
    && |states| == |steps| + 1
    && (forall k :: 0 <= k < |states| ==> states[k].Shaped())
    && forall k :: 0 <= k < |steps| ==> Allowed(states[k], steps[k]) && states[k + 1] == After(states[k], steps[k])
  }

  lemma StepInv(s: Sched, e: Step)
    requires Inv(s) && Allowed(s, e)
    ensures Inv(After(s, e))
  {
    hide Steady, Create, Yield, Tick, Block, Unblock, Exit;
    match e
    case DoCreate(g) => CreateInv(s, g);
    case DoYield => YieldInv(s);
    case DoTick => TickInv(s);
    case DoBlock(t) => BlockInv(s, t);
    case DoUnblock(t) => UnblockInv(s, t);
    case DoExit => ExitInv(s);
  }

  lemma InitialInv(base: nat)
    ensures Inv(Initial(base))
  {
    var s := Initial(base);
    assert Actives(s.pool) == seq(MAX_THREADS, i => i <= IDLE);
    CountFirst(MAX_THREADS, 2);
    CountFirst(MAX_STACK_SLOTS, 1);
    assert s.slots == seq(MAX_STACK_SLOTS, i => i < 1);
    assert Actives(s.pool) == seq(MAX_THREADS, i => i < 2);
  }

  lemma {:induction false} CountFirst(n: nat, k: nat)
    requires k <= n
    ensures Count(seq(n, i => i < k), true) == k
  {
    var bits := seq(n, i => i < k);
    if n > 0 {
      var k' := if k == n then n - 1 else k;
      assert bits[..n - 1] == seq(n - 1, i => i < k');
      CountFirst(n - 1, k');
    }
  }

  /** Safety over whole runs from `start` on. */
  lemma {:induction false} AlwaysInv(base: nat, states: seq<Sched>, steps: seq<Step>, k: nat)
    requires Run(states, steps) && states[0] == Initial(base) && k < |states|
    ensures Inv(states[k])
  {
    if k == 0 {
      InitialInv(base);
    } else {
      AlwaysInv(base, states, steps, k - 1);
      StepInv(states[k - 1], steps[k - 1]);
    }
  }
}
