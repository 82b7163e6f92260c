/** kernel/threading/scheduler.cpp: the scheduler on its own data structures. Every method performs one step of the
    state machine in `Threads`. */
module Schedulers {
  import opened ReadyQueues
  import opened Sequences
  import opened Threads
  import opened SchedulerSafety
  import opened Stacks
  import opened Vmm

  /** Every thread that owns a stack remembers it as the allocator does. */
  ghost predicate AllRecorded(pool: seq<Tcb>, bases: map<nat, nat>)
  {
    forall i :: Owner(pool, i) ==> Records(pool[i].stack, bases)
  }

  class Scheduler {
    var pool: seq<Tcb>
    const queue: ReadyQueue
    const stacks: StackAllocator
    var current: nat
    var nextId: nat
    var stats: Stats

    ghost predicate Linked()
      reads this, queue, queue.entries, stacks, stacks.inUse, stacks.vmm, stacks.vmm.pmm, stacks.vmm.pmm.bitmap,
            stacks.vmm.pmm.ram, stacks.vmm.ram, stacks.vmm.pmm.tracker
    {
      queue.Valid() && stacks.Valid() && AllRecorded(pool, stacks.bases)
    }

    ghost function Abs(): Sched
      reads this, queue, queue.entries, stacks, stacks.inUse
      requires queue.Valid()
    {
      Sched(pool, queue.Contents(), current, nextId, stacks.inUse[..], stacks.pagesAllocated, stacks.pagesReclaimed,
        stats)
    }

    ghost predicate Valid()
      reads this, queue, queue.entries, stacks, stacks.inUse, stacks.vmm, stacks.vmm.pmm, stacks.vmm.pmm.bitmap,
            stacks.vmm.pmm.ram, stacks.vmm.ram, stacks.vmm.pmm.tracker
    {
      Linked() && Inv(Abs())
    }

    /** An empty pool and an empty queue over a stack allocator that has handed out nothing. */
    constructor (stacks: StackAllocator)
      requires stacks.Valid() && stacks.bases == map[] && stacks.pagesAllocated == 0 && stacks.pagesReclaimed == 0
      ensures this.stacks == stacks && fresh(queue) && fresh(queue.entries) && Blank()
    {
      pool := seq(MAX_THREADS, _ => BLANK);
      queue := new ReadyQueue();
      this.stacks := stacks;
      current, nextId, stats := 0, 1, Stats(0, 0, 0, 0, 0, 0, 0, 0);
    }

    ghost predicate Blank()
      reads this, queue, queue.entries, stacks, stacks.inUse, stacks.vmm, stacks.vmm.pmm, stacks.vmm.pmm.bitmap,
            stacks.vmm.pmm.ram, stacks.vmm.ram, stacks.vmm.pmm.tracker
    {
      && queue.Valid() && queue.Contents() == [] && |pool| == MAX_THREADS
         && (forall i :: 0 <= i < MAX_THREADS ==> pool[i] == BLANK)
      && stacks.Valid() && stacks.bases == map[] && stacks.pagesAllocated == 0 && stacks.pagesReclaimed == 0
    }

    /** `init` and `start`. The idle thread needs a stack; without one the scheduler does not come up. */
    method Start() returns (ok: bool)
      requires Blank()
      modifies this, stacks, stacks.inUse
      modifies stacks.vmm`forest, stacks.vmm.ram, stacks.vmm.pmm.bitmap, stacks.vmm.pmm`used, stacks.vmm.pmm`freeFrames,
               stacks.vmm.pmm`allocatedFrames, stacks.vmm.pmm`lastSearchFrame
      ensures ok ==> Valid() && exists base :: Abs() == Initial(base)
      ensures !ok ==>
                NoStackMemory(old(stacks.vmm.pmm.used), old(stacks.vmm.pmm.lastSearchFrame),
                  old(stacks.vmm.pmm.freeFrames),
                                    stacks.vmm.pmm.forceAllocFailure, stacks.vmm.pmm.freeFrames)
    {
      hide NoStackMemory, StackAllocator.Valid, ReadyQueue.Valid, ReadyQueue.Contents, Inv;
      Working(stacks);
      NoSlots(stacks);
      ghost var slots := stacks.inUse[..];
      FirstSlot(slots);
      var info;
      ok, info := stacks.AllocateStack();
      if ok {
        pool := pool[BOOTSTRAP := Tcb(1, Running, NO_STACK, 0, false, true, true)];
        pool := pool[IDLE := Tcb(2, Idling, info, 0, true, false, true)];
        current, nextId, stats := BOOTSTRAP, 3, Stats(2, 2, 0, STACK_USABLE_PAGES, 0, 0, 0, 0);
        assert pool == Initial(info.base).pool;
        assert stacks.inUse[..] == Initial(info.base).slots;
        assert Abs() == Initial(info.base);
        InitialInv(info.base);
      }
    }

    /** One thread of the reclaiming loop. */
    method ReclaimThread(i: nat)
      requires Linked() && Steady(Abs()) && i < MAX_THREADS
      modifies this`pool, this`stats, stacks`pagesReclaimed, stacks`bases, stacks.inUse
      modifies stacks.vmm.ram, stacks.vmm.pmm.bitmap, stacks.vmm.pmm`used, stacks.vmm.pmm`freeFrames,
               stacks.vmm.pmm`allocatedFrames, stacks.vmm.pmm`lastSearchFrame
      ensures Linked() && Steady(Abs()) && Abs() == ReclaimOne(old(Abs()), i)
    {
      hide Steady, StackAllocator.Valid, ReadyQueue.Valid, ReadyQueue.Contents, Records, ReclaimOne, AllRecorded, Owner;
      ghost var s := Abs();
      ReclaimOneSteady(s, i);
      SteadyIsShaped(s);
      Working(stacks);
      var t := pool[i];
      if t.active && t.state == Terminated && i != current && t.stack.slot >= 0 {
        ghost var before, bases := pool, stacks.bases;
        ReclaimedState(s, i);
        RecordedSlot(before, bases, i);
        RecordedWithout(before, bases, i, t.(stack := NO_STACK, active := false));
        var freed := stacks.FreeStack(t.stack);
        pool := pool[i := t.(stack := NO_STACK, active := false)];
        stats := stats.(pagesReclaimed := stats.pagesReclaimed + STACK_USABLE_PAGES, terminated := stats.terminated + 1,
                        active := OneLess(stats.active));
      } else {
        NotReclaimed(s, i);
      }
    }

    /** `reclaim_deferred_stacks`. */
    method ReclaimStacks()
      requires Linked() && Steady(Abs())
      modifies this`pool, this`stats, stacks`pagesReclaimed, stacks`bases, stacks.inUse
      modifies stacks.vmm.ram, stacks.vmm.pmm.bitmap, stacks.vmm.pmm`used, stacks.vmm.pmm`freeFrames,
               stacks.vmm.pmm`allocatedFrames, stacks.vmm.pmm`lastSearchFrame
      ensures Linked() && Steady(Abs()) && Abs() == Reclaim(old(Abs()))
    {
      hide Steady, StackAllocator.Valid, ReadyQueue.Valid, ReadyQueue.Contents, AllRecorded, ReclaimOne;
      SteadyIsShaped(Abs());
      for i := 0 to MAX_THREADS
        invariant Linked() && Steady(Abs()) && Abs() == ReclaimUpTo(old(Abs()), i)
      {
        ReclaimThread(i);
      }
    }

    /** Assigns a thread's state. */
    method SetState(i: nat, state: ThreadState)
      requires Linked() && Abs().Shaped() && i < MAX_THREADS
      modifies this`pool
      ensures Linked() && Abs() == old(Abs()).WithState(i, state)
    {
      hide StackAllocator.Valid, ReadyQueue.Valid, ReadyQueue.Contents, AllRecorded, Queueable;
      RecordedSame(pool, pool[i := pool[i].(state := state)], stacks.bases);
      pool := pool[i := pool[i].(state := state)];
    }

    method Enqueue(t: nat) returns (ok: bool)
      requires Linked() && Abs().Shaped() && t < MAX_THREADS
      modifies queue`tail, queue`count, queue.entries
      ensures Linked() && ok == CanEnqueue(old(Abs()), t) && Abs() == Enqueued(old(Abs()), t)
    {
      hide StackAllocator.Valid, ReadyQueue.Valid, ReadyQueue.Contents, AllRecorded, Queueable;
      ok := queue.Enqueue(t, pool[t].state == Ready);
    }

    /** Takes the head of the queue. */
    method Pop() returns (next: int)
      requires Linked() && Abs().Shaped()
      modifies queue`head, queue`count, queue.entries
      ensures Linked() && (next == if old(Abs()).queue == [] then NOBODY else old(Abs()).queue[0])
      ensures Abs() == old(Abs()).(queue := if old(Abs()).queue == [] then [] else old(Abs()).queue[1..])
    {
      hide StackAllocator.Valid, ReadyQueue.Valid, ReadyQueue.Contents, AllRecorded, Queueable;
      next := queue.Dequeue();
    }

    method Switch(next: nat)
      requires Linked() && Abs().Shaped() && next < MAX_THREADS
      modifies this`pool, this`current, this`stats
      ensures Linked() && Abs() == SwitchTo(old(Abs()), next)
    {
      hide StackAllocator.Valid, ReadyQueue.Valid, ReadyQueue.Contents, AllRecorded, Queueable;
      RecordedSame(pool, pool[next := pool[next].(state := Running, ticks := 0)], stacks.bases);
      pool := pool[next := pool[next].(state := Running, ticks := 0)];
      current := next;
      stats := stats.(switches := stats.switches + 1);
    }

    method ParkCurrent()
      requires Linked() && Abs().Shaped()
      modifies this`pool, queue`tail, queue`count, queue.entries
      ensures Linked() && Abs() == Park(old(Abs()))
    {
      hide StackAllocator.Valid, ReadyQueue.Valid, ReadyQueue.Contents, AllRecorded, Queueable, Enqueued, CanEnqueue;
      if pool[current].state == Running {
        if !pool[current].isIdle {
          SetState(current, Ready);
          StateShaped(old(Abs()), current, Ready);
          var queued := Enqueue(current);
        } else {
          SetState(current, Idling);
        }
      }
    }

    /** `schedule`. */
    method Schedule()
      requires Linked() && Steady(Abs())
      modifies this`pool, this`current, this`stats, queue, queue.entries, stacks`pagesReclaimed, stacks`bases,
               stacks.inUse
      modifies stacks.vmm.ram, stacks.vmm.pmm.bitmap, stacks.vmm.pmm`used, stacks.vmm.pmm`freeFrames,
               stacks.vmm.pmm`allocatedFrames, stacks.vmm.pmm`lastSearchFrame
      ensures Valid() && Abs() == Threads.Schedule(old(Abs()))
    {
      hide Steady, StackAllocator.Valid, ReadyQueue.Valid, ReadyQueue.Contents, AllRecorded, Queueable, Reclaim, Park,
           SwitchTo, Inv;
      ghost var s := Abs();
      ScheduleInv(s);
      ReclaimStacks();
      ghost var r := Abs();
      SteadyIsShaped(s);
      SteadyIsShaped(r);
      QueueRange(r);
      var cur := current;
      var next := Pop();
      if next == NOBODY {
        if pool[cur].state == Running || pool[cur].state == Ready {
          SetState(cur, Running);
          return;
        }
        next := IDLE;
      }
      if cur == next {
        SetState(cur, Running);
        return;
      }
      ParkCurrent();
      Switch(next);
    }

    method Yield()
      requires Valid()
      modifies this`pool, this`current, this`stats, queue, queue.entries, stacks`pagesReclaimed, stacks`bases,
               stacks.inUse
      modifies stacks.vmm.ram, stacks.vmm.pmm.bitmap, stacks.vmm.pmm`used, stacks.vmm.pmm`freeFrames,
               stacks.vmm.pmm`allocatedFrames, stacks.vmm.pmm`lastSearchFrame
      ensures Valid() && Abs() == Threads.Yield(old(Abs()))
    {
      hide Steady, StackAllocator.Valid, ReadyQueue.Valid, ReadyQueue.Contents, AllRecorded, Queueable, Inv,
           Threads.Schedule;
      InvSteady(Abs());
      if !pool[current].isIdle {
        CountedSteady(Abs(), stats.(voluntary := stats.voluntary + 1));
        stats := stats.(voluntary := stats.voluntary + 1);
      }
      Schedule();
    }

    /** `on_timer_tick`. */
    method Tick()
      requires Valid()
      modifies this`pool, this`current, this`stats, queue, queue.entries, stacks`pagesReclaimed, stacks`bases,
               stacks.inUse
      modifies stacks.vmm.ram, stacks.vmm.pmm.bitmap, stacks.vmm.pmm`used, stacks.vmm.pmm`freeFrames,
               stacks.vmm.pmm`allocatedFrames, stacks.vmm.pmm`lastSearchFrame
      ensures Valid() && Abs() == Threads.Tick(old(Abs()))
    {
      hide Steady, StackAllocator.Valid, ReadyQueue.Valid, ReadyQueue.Contents, AllRecorded, Queueable, Inv,
           Threads.Schedule;
      ghost var s := Abs();
      InvSteady(s);
      TickInv(s);
      TickSteady(s, 1);
      var cur := pool[current];
      RecordedSame(pool, pool[current := cur.(ticks := cur.ticks + 1)], stacks.bases);
      pool := pool[current := cur.(ticks := cur.ticks + 1)];
      if cur.ticks + 1 >= TIMESLICE || (cur.isIdle && queue.count > 0) {
        CountIsLength(queue);
        stats := stats.(preemptions := stats.preemptions + 1);
        assert Abs() == Ticked(s, 1);
        Schedule();
      } else {
        CountIsLength(queue);
      }
    }

    /** `exit`, up to and including the switch away. */
    method Exit()
      requires Valid() && !pool[current].isIdle
      modifies this`pool, this`current, this`stats, queue, queue.entries, stacks`pagesReclaimed, stacks`bases,
               stacks.inUse
      modifies stacks.vmm.ram, stacks.vmm.pmm.bitmap, stacks.vmm.pmm`used, stacks.vmm.pmm`freeFrames,
               stacks.vmm.pmm`allocatedFrames, stacks.vmm.pmm`lastSearchFrame
      ensures Valid() && Abs() == Threads.Exit(old(Abs()))
    {
      hide Steady, StackAllocator.Valid, ReadyQueue.Valid, ReadyQueue.Contents, AllRecorded, Queueable, Inv, Reclaim,
           SwitchTo;
      ghost var s := Abs();
      InvSteady(s);
      ExitInv(s);
      NotIdle(s, current);
      StateChanged(s, current, Terminated);
      SetState(current, Terminated);
      ReclaimStacks();
      ghost var r := Abs();
      SteadyIsShaped(r);
      QueueRange(r);
      var next := Pop();
      if next == NOBODY { next := IDLE; }
      Switch(next);
    }

    /** `block`; a null argument means the current thread. */
    method Block(thread: int)
      requires Valid() && (thread == NOBODY || 0 <= thread < MAX_THREADS)
      requires Allowed(Abs(), DoBlock(if thread == NOBODY then current else thread))
      modifies this`pool, this`current, this`stats, queue, queue.entries, stacks`pagesReclaimed, stacks`bases,
               stacks.inUse
      modifies stacks.vmm.ram, stacks.vmm.pmm.bitmap, stacks.vmm.pmm`used, stacks.vmm.pmm`freeFrames,
               stacks.vmm.pmm`allocatedFrames, stacks.vmm.pmm`lastSearchFrame
      ensures Valid() && Abs() == Threads.Block(old(Abs()), if thread == NOBODY then old(current) else thread)
    {
      hide Steady, StackAllocator.Valid, ReadyQueue.Valid, ReadyQueue.Contents, AllRecorded, Queueable, Inv,
           Threads.Schedule, Without;
      ghost var s := Abs();
      InvSteady(s);
      var target := if thread == NOBODY then current else thread;
      BlockInv(s, target);
      NotIdle(s, target);
      if target == current {
        StateChanged(s, target, Blocked);
        SetState(target, Blocked);
        Schedule();
      } else {
        WithoutStaysQueueable(s.queue, target);
        WithoutAbsentAnyway(s.queue, target);
        var removed := queue.Remove(target);
        SetState(target, Blocked);
      }
    }

    method Unblock(thread: int)
      requires Valid() && (thread == NOBODY || 0 <= thread < MAX_THREADS)
      modifies this`pool, queue`tail, queue`count, queue.entries
      ensures Valid() && Abs() == if thread == NOBODY then old(Abs()) else Threads.Unblock(old(Abs()), thread)
    {
      hide Steady, StackAllocator.Valid, ReadyQueue.Valid, ReadyQueue.Contents, AllRecorded, Queueable, Inv, Enqueued,
           CanEnqueue;
      InvSteady(Abs());
      if thread == NOBODY { return; }
      UnblockInv(Abs(), thread);
      if pool[thread].state == Blocked {
        StateShaped(Abs(), thread, Ready);
        SetState(thread, Ready);
        var queued := Enqueue(thread);
      }
    }

    method FindTcb() returns (i: nat)
      requires |pool| == MAX_THREADS
      ensures i == FreeTcb(pool, 2)
    {
      i := 2;
      while i < MAX_THREADS && pool[i].active
        invariant 2 <= i <= MAX_THREADS && FreeTcb(pool, 2) == FreeTcb(pool, i)
      {
        i := i + 1;
      }
    }

    /** `create_thread` for a thread with an entry point; the result is its index, or NOBODY. */
    method CreateThread() returns (thread: int, ghost grant: Grant)
      requires Valid()
      modifies this`pool, this`nextId, this`stats, queue`tail, queue`count, queue.entries, stacks`pagesAllocated,
               stacks`pagesReclaimed, stacks`bases, stacks.inUse
      modifies stacks.vmm`forest, stacks.vmm.ram, stacks.vmm.pmm.bitmap, stacks.vmm.pmm`used, stacks.vmm.pmm`freeFrames,
               stacks.vmm.pmm`allocatedFrames, stacks.vmm.pmm`lastSearchFrame
      ensures Valid() && Abs() == Create(old(Abs()), grant)
      ensures thread != NOBODY ==> old(Abs()).queue + [thread] == Abs().queue
      ensures thread == NOBODY ==> Abs().queue == old(Abs()).queue
      ensures thread == NOBODY ==>
                || FreeTcb(old(Abs()).pool, 2) == MAX_THREADS || FreeSlot(old(Abs()).slots, 0) == MAX_STACK_SLOTS
                || NoStackMemory(old(stacks.vmm.pmm.used), old(stacks.vmm.pmm.lastSearchFrame),
                  old(stacks.vmm.pmm.freeFrames),
                                 stacks.vmm.pmm.forceAllocFailure, stacks.vmm.pmm.freeFrames)
    {
      hide NoStackMemory, Steady, StackAllocator.Valid, ReadyQueue.Valid, ReadyQueue.Contents, AllRecorded, Queueable,
           Inv, Enqueued, CanEnqueue, Create, FreeTcb, FreeSlot, Records, Allotted;
      ghost var s := Abs();
      InvSteady(s);
      var i := FindTcb();
      thread, grant := NOBODY, Refused;
      CreateInv(s, grant);
      CreateRefused(s, grant);
      if i == MAX_THREADS { return; }
      ghost var bases := stacks.bases;
      var ok, info := Reserve(i);
      if !ok { return; }
      grant := Granted(info.base);
      Furnish(i, info, s, bases);
      thread := i;
    }

    /** A blank record and a stack for it, or the record only. */
    method Reserve(i: nat) returns (ok: bool, info: StackInfo)
      requires Linked() && Abs().Shaped() && i < MAX_THREADS
      modifies this`pool, stacks`pagesAllocated, stacks`bases, stacks.inUse
      modifies stacks.vmm`forest, stacks.vmm.ram, stacks.vmm.pmm.bitmap, stacks.vmm.pmm`used, stacks.vmm.pmm`freeFrames,
               stacks.vmm.pmm`allocatedFrames, stacks.vmm.pmm`lastSearchFrame
      ensures queue.Valid() && stacks.Valid() && AllRecorded(pool, old(stacks.bases))
      ensures !ok ==> Linked() && Abs() == old(Abs()).(pool := old(pool)[i := BLANK])
      ensures !ok ==> FreeSlot(old(stacks.inUse[..]), 0) == MAX_STACK_SLOTS
                      || NoStackMemory(old(stacks.vmm.pmm.used), old(stacks.vmm.pmm.lastSearchFrame),
                        old(stacks.vmm.pmm.freeFrames),
                                       stacks.vmm.pmm.forceAllocFailure, stacks.vmm.pmm.freeFrames)
      ensures ok ==>
                FreeSlot(old(stacks.inUse[..]), 0) < MAX_STACK_SLOTS
                && FreeSlot(old(stacks.inUse[..]), 0) !in old(stacks.bases)
      ensures ok ==> Allotted(old(stacks.inUse[..]), stacks.inUse[..], old(stacks.bases), stacks.bases, info)
      ensures ok ==>
                Abs() ==
                  old(Abs()).(pool := old(pool)[i := BLANK], slots := stacks.inUse[..],
                    pagesOut := old(stacks.pagesAllocated) + STACK_USABLE_PAGES)
    {
      hide NoStackMemory, StackAllocator.Valid, ReadyQueue.Valid, ReadyQueue.Contents, AllRecorded, Queueable, FreeSlot,
           Allotted;
      BlankRecorded(pool, i, stacks.bases);
      FreeSlotIsNew(stacks);
      Working(stacks);
      pool := pool[i := BLANK];
      ok, info := stacks.AllocateStack();
    }

    /** The rest of `create_thread`, once record and stack are found: the outcome of the create step. */
    method Furnish(i: nat, info: StackInfo, ghost s: Sched, ghost bases: map<nat, nat>)
      requires queue.Valid() && stacks.Valid() && Inv(s) && i == FreeTcb(s.pool, 2) < MAX_THREADS
               && FreeSlot(s.slots, 0) < MAX_STACK_SLOTS
      requires AllRecorded(pool, bases) && FreeSlot(s.slots, 0) !in bases
               && Allotted(s.slots, stacks.inUse[..], bases, stacks.bases, info)
      requires Abs() ==
                 s.(pool := s.pool[i := BLANK], slots := stacks.inUse[..], pagesOut := s.pagesOut + STACK_USABLE_PAGES)
      modifies this`pool, this`nextId, this`stats, queue`tail, queue`count, queue.entries
      ensures Valid() && Abs() == Create(s, Granted(info.base)) && Abs().queue == s.queue + [i]
    {
      hide Allotted, Steady, StackAllocator.Valid, ReadyQueue.Valid, ReadyQueue.Contents, AllRecorded, Queueable, Inv,
           Enqueued, CanEnqueue, Create, FreeTcb, FreeSlot, Records;
      InvSteady(s);
      CreateInv(s, Granted(info.base));
      CreateGranted(s, Granted(info.base));
      AllottedInfo(s.slots, stacks.inUse[..], bases, stacks.bases, info);
      AllottedShaped(s, i, info);
      TwoUpdates(s.pool, i, BLANK, BLANK.(id := nextId, state := Ready, stack := info, active := true));
      Admit(i, info, bases);
    }

    /** The new thread's record, its place in the queue and the statistics. */
    method Admit(i: nat, info: StackInfo, ghost bases: map<nat, nat>)
      requires queue.Valid() && stacks.Valid() && Abs().Shaped() && i < MAX_THREADS
      requires AllRecorded(pool, bases) && info.slot !in bases && info.slot in stacks.bases
      requires Records(info, stacks.bases) && stacks.bases == bases[info.slot := stacks.bases[info.slot]]
      modifies this`pool, this`nextId, this`stats, queue`tail, queue`count, queue.entries
      ensures Linked()
      ensures var a := old(Abs());
              var p := a.(pool := a.pool[i := BLANK.(id := a.nextId, state := Ready, stack := info, active := true)],
                         nextId := NextId(a.nextId));
              && p.Shaped()
              && Abs() == Enqueued(p, i).(stats := a.stats.(total := a.stats.total + 1, active := a.stats.active + 1,
                                                            pagesAllocated := a.stats.pagesAllocated
                                                              + STACK_USABLE_PAGES))
    {
      hide StackAllocator.Valid, ReadyQueue.Valid, ReadyQueue.Contents, AllRecorded, Queueable, Enqueued, CanEnqueue,
           Records;
      var t := BLANK.(id := nextId, state := Ready, stack := info, active := true);
      NewRecorded(pool, i, bases, stacks.bases, t);
      pool := pool[i := t];
      nextId := NextId(nextId);
      var queued := Enqueue(i);
      stats :=
        stats.(total := stats.total + 1, active := stats.active + 1,
          pagesAllocated := stats.pagesAllocated + STACK_USABLE_PAGES);
    }
  }

  lemma TwoUpdates(pool: seq<Tcb>, i: nat, a: Tcb, b: Tcb)
    requires i < |pool|
    ensures pool[i := a][i := b] == pool[i := b]
  {
  }

  lemma FreeSlotIsNew(stacks: StackAllocator)
    requires stacks.Valid()
    ensures |stacks.inUse[..]| == MAX_STACK_SLOTS && FreeSlot(stacks.inUse[..], 0) !in stacks.bases
  {
    SlotsRange(stacks.inUse[..], stacks.bases);
  }

  lemma AllottedInfo(slots: seq<bool>, slots': seq<bool>, bases: map<nat, nat>, bases': map<nat, nat>, info: StackInfo)
    requires Allotted(slots, slots', bases, bases', info)
    ensures |slots| == MAX_STACK_SLOTS && info == StackInfo(FreeSlot(slots, 0), info.base, STACK_USABLE_PAGES)
            && info.slot in bases'
    ensures slots' == slots[info.slot := true] && Records(info, bases')
            && bases' == bases[info.slot := bases'[info.slot]]
  {
  }

  lemma AllottedShaped(s: Sched, i: nat, info: StackInfo)
    requires s.Shaped() && i < MAX_THREADS && 0 <= info.slot < |s.slots|
    ensures s.(pool := s.pool[i := BLANK], slots := s.slots[info.slot := true],
              pagesOut := s.pagesOut + STACK_USABLE_PAGES).Shaped()
  {
  }

  lemma CountedSteady(s: Sched, stats: Stats)
    requires Steady(s) && stats == s.stats.(voluntary := stats.voluntary)
    ensures Steady(s.(stats := stats))
  {
    BookkeepingKept(s, s.(stats := stats));
  }

  lemma CountIsLength(queue: ReadyQueue)
    requires queue.Valid()
    ensures |queue.Contents()| == queue.count
  {
  }

  lemma NotIdle(s: Sched, i: nat)
    requires Steady(s) && i < MAX_THREADS && !s.pool[i].isIdle
    ensures i != IDLE && (i == s.current ==> s.pool[i].active && s.pool[i].state != Ready)
  {
    assert TcbOk(s.pool[i], i);
  }

  lemma WithoutAbsentAnyway(q: seq<int>, t: int)
    ensures t !in q ==> Without(q, t) == q
  {
    if t !in q { WithoutAbsent(q, t); }
  }

  lemma RecordedSame(pool: seq<Tcb>, pool': seq<Tcb>, bases: map<nat, nat>)
    requires AllRecorded(pool, bases) && |pool'| == |pool|
    requires forall i :: 0 <= i < |pool| ==> pool'[i].active == pool[i].active && pool'[i].stack == pool[i].stack
    ensures AllRecorded(pool', bases)
  {
    forall i | Owner(pool', i) ensures Records(pool'[i].stack, bases) { assert Owner(pool, i); }
  }

  lemma StateShaped(s: Sched, i: nat, state: ThreadState)
    requires s.Shaped() && i < MAX_THREADS
    ensures s.WithState(i, state).Shaped()
  {
  }

  lemma QueueRange(s: Sched)
    requires s.Shaped()
    ensures s.queue != [] ==> 0 <= s.queue[0] < MAX_THREADS && s.(queue := s.queue[1..]).Shaped()
  {
  }

  lemma Working(stacks: StackAllocator)
    requires stacks.Valid()
    ensures stacks.initialized
  {
  }

  lemma NoSlots(stacks: StackAllocator)
    requires stacks.Valid() && stacks.bases == map[]
    ensures |stacks.inUse[..]| == MAX_STACK_SLOTS && forall k :: 0 <= k < MAX_STACK_SLOTS ==> !stacks.inUse[..][k]
  {
    SlotsRange(stacks.inUse[..], stacks.bases);
    forall k | 0 <= k < MAX_STACK_SLOTS ensures !stacks.inUse[..][k] { assert k !in stacks.bases; }
  }

  lemma FirstSlot(slots: seq<bool>)
    requires |slots| == MAX_STACK_SLOTS && forall k :: 0 <= k < MAX_STACK_SLOTS ==> !slots[k]
    ensures FreeSlot(slots, 0) == 0
  {
  }

  lemma ReclaimedState(s: Sched, i: nat)
    requires Steady(s) && i < MAX_THREADS
    requires s.pool[i].active && s.pool[i].state == Terminated && i != s.current && s.pool[i].stack.slot >= 0
    ensures Owner(s.pool, i) && s.pool[i].stack.slot < |s.slots|
    ensures forall j :: Owner(s.pool, j) && j != i ==> s.pool[j].stack.slot != s.pool[i].stack.slot
    ensures ReclaimOne(s, i) ==
            Sched(s.pool[i := s.pool[i].(stack := NO_STACK, active := false)], s.queue, s.current, s.nextId,
                  s.slots[s.pool[i].stack.slot := false], s.pagesOut, s.pagesBack + s.pool[i].stack.pages,
                  s.stats.(pagesReclaimed := s.stats.pagesReclaimed + STACK_USABLE_PAGES,
                    terminated := s.stats.terminated + 1,
                           active := OneLess(s.stats.active)))
  {
    assert TcbOk(s.pool[i], i);
    assert Owner(s.pool, i);
  }

  lemma NotReclaimed(s: Sched, i: nat)
    requires s.Shaped() && i < MAX_THREADS
    requires !(s.pool[i].active && s.pool[i].state == Terminated && i != s.current && s.pool[i].stack.slot >= 0)
    ensures ReclaimOne(s, i) == s
  {
  }

  lemma RecordedSlot(pool: seq<Tcb>, bases: map<nat, nat>, i: nat)
    requires AllRecorded(pool, bases) && Owner(pool, i)
    ensures Records(pool[i].stack, bases) && pool[i].stack.slot in bases && pool[i].stack.pages == STACK_USABLE_PAGES
  {
  }

  lemma RecordedWithout(pool: seq<Tcb>, bases: map<nat, nat>, i: nat, t: Tcb)
    requires AllRecorded(pool, bases) && Owner(pool, i) && !t.active
    requires forall j :: Owner(pool, j) && j != i ==> pool[j].stack.slot != pool[i].stack.slot
    ensures pool[i].stack.slot >= 0 && AllRecorded(pool[i := t], bases - {pool[i].stack.slot})
  {
    assert Records(pool[i].stack, bases);
    var pool' := pool[i := t];
    forall j | Owner(pool', j) ensures Records(pool'[j].stack, bases - {pool[i].stack.slot}) {
      assert Owner(pool, j) && Records(pool[j].stack, bases);
    }
  }

  lemma CreateRefused(s: Sched, grant: Grant)
    requires s.Shaped() && grant.Refused?
    ensures var i := FreeTcb(s.pool, 2);
            Create(s, grant) == if i == MAX_THREADS then s else s.(pool := s.pool[i := BLANK])
  {
  }

  /** The outcome when pool, slots and memory all serve the request: the queue does too. */
  lemma CreateGranted(s: Sched, grant: Grant)
    requires Inv(s) && grant.Granted? && FreeTcb(s.pool, 2) < MAX_THREADS && FreeSlot(s.slots, 0) < MAX_STACK_SLOTS
    ensures var i, slot := FreeTcb(s.pool, 2), FreeSlot(s.slots, 0);
            var p := s.(pool := s.pool[i := BLANK.(id := s.nextId, state := Ready,
                       stack := StackInfo(slot, grant.base, STACK_USABLE_PAGES), active := true)],
                        slots :=
                          s.slots[slot := true], pagesOut :=
                            s.pagesOut + STACK_USABLE_PAGES, nextId := NextId(s.nextId));
            && p.Shaped() && CanEnqueue(p, i) && Enqueued(p, i).queue == s.queue + [i]
            && Create(s, grant) ==
                 Enqueued(p, i).(stats := s.stats.(total := s.stats.total + 1, active := s.stats.active + 1,
                                                                    pagesAllocated := s.stats.pagesAllocated
                                                                      + STACK_USABLE_PAGES))
  {
    hide Steady, FreeTcb, FreeSlot;
    InvSteady(s);
    CreateInv(s, grant);
  }

  lemma BlankRecorded(pool: seq<Tcb>, i: nat, bases: map<nat, nat>)
    requires AllRecorded(pool, bases) && i < |pool|
    ensures AllRecorded(pool[i := BLANK], bases)
  {
    var pool' := pool[i := BLANK];
    forall j | Owner(pool', j) ensures Records(pool'[j].stack, bases) { assert Owner(pool, j); }
  }

  lemma NewRecorded(pool: seq<Tcb>, i: nat, bases: map<nat, nat>, bases': map<nat, nat>, t: Tcb)
    requires AllRecorded(pool, bases) && i < |pool| && Records(t.stack, bases') && t.stack.slot !in bases
    requires bases' == bases[t.stack.slot := bases'[t.stack.slot]]
    ensures AllRecorded(pool[i := t], bases')
  {
    var pool' := pool[i := t];
    forall j | Owner(pool', j) ensures Records(pool'[j].stack, bases') {
      if j != i { assert Owner(pool, j) && Records(pool[j].stack, bases); }
    }
  }
}
