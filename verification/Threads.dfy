/** kernel/threading/scheduler.cpp as a state machine: one function per entry point, interrupts off throughout. */
module Threads {
  import opened Bitmap
  import opened ReadyQueues
  import opened Sequences

  const MAX_THREADS: nat := 64
  const MAX_STACK_SLOTS: nat := 64
  const STACK_USABLE_PAGES: nat := 4
  const TIMESLICE: nat := 2
  const BOOTSTRAP: nat := 0
  const IDLE: nat := 1

  datatype ThreadState = Created | Ready | Running | Blocked | Terminated | Idling

  /** The part of a thread's stack record the allocator is asked about; slot -1 is no allocated stack. */
  datatype StackInfo = StackInfo(slot: int, base: nat, pages: nat)

  const NO_STACK: StackInfo := StackInfo(-1, 0, 0)

  datatype Tcb = Tcb(id: nat, state: ThreadState, stack: StackInfo, ticks: nat, isIdle: bool, isBootstrap: bool,
    active: bool)

  const BLANK: Tcb := Tcb(0, Created, NO_STACK, 0, false, false, false)

  datatype Stats = Stats(total: nat, active: nat, terminated: nat, pagesAllocated: nat, pagesReclaimed: nat,
                         switches: nat, preemptions: nat, voluntary: nat)

  /** Scheduler and stack allocator: thread pool, ready queue, running thread, stack slots in use, page counters. */
  datatype Sched = Sched(pool: seq<Tcb>, queue: seq<int>, current: nat, nextId: nat,
                         slots: seq<bool>, pagesOut: nat, pagesBack: nat, stats: Stats)
  {
    predicate Shaped()
    {
      |pool| == MAX_THREADS && |slots| == MAX_STACK_SLOTS && current < MAX_THREADS && Queueable(queue)
    }

    function WithState(i: nat, state: ThreadState): Sched
      requires i < |pool|
    {
      this.(pool := pool[i := pool[i].(state := state)])
    }
  }

  predicate Queueable(q: seq<int>)
  {
    forall k :: 0 <= k < |q| ==> 0 <= q[k] < MAX_THREADS
  }

  // ---------------------------------------------------------------- the entry points

  /** `free_stack`: refused for a slot that is not in use. */
  function FreeStack(s: Sched, info: StackInfo): Sched
    requires s.Shaped()
  {
    if 0 <= info.slot < MAX_STACK_SLOTS && s.slots[info.slot]
    then s.(slots := s.slots[info.slot := false], pagesBack := s.pagesBack + info.pages) else s
  }

  predicate Reclaimable(s: Sched, i: nat)
    requires s.Shaped() && i < MAX_THREADS
  {
    s.pool[i].active && s.pool[i].state == Terminated && i != s.current && s.pool[i].stack.slot >= 0
  }

  /** The guarded decrement of a statistic. */
  function OneLess(n: nat): nat
  {
    if n > 0 then n - 1 else 0
  }

  function ReclaimOne(s: Sched, i: nat): (r: Sched)
    requires s.Shaped() && i < MAX_THREADS
    ensures r.Shaped()
  {
    if !Reclaimable(s, i) then s
    else
      FreeStack(s, s.pool[i].stack).(
        pool := s.pool[i := s.pool[i].(stack := NO_STACK, active := false)],
        stats := s.stats.(pagesReclaimed := s.stats.pagesReclaimed + STACK_USABLE_PAGES,
          terminated := s.stats.terminated + 1,
                          active := OneLess(s.stats.active)))
  }

  function ReclaimUpTo(s: Sched, n: nat): (r: Sched)
    requires s.Shaped() && n <= MAX_THREADS
    ensures r.Shaped()
  {
    if n == 0 then s else ReclaimOne(ReclaimUpTo(s, n - 1), n - 1)
  }

  /** `reclaim_deferred_stacks`. */
  function Reclaim(s: Sched): (r: Sched)
    requires s.Shaped()
    ensures r.Shaped()
  {
    ReclaimUpTo(s, MAX_THREADS)
  }

  predicate CanEnqueue(s: Sched, t: nat)
    requires s.Shaped() && t < MAX_THREADS
  {
    s.pool[t].state == Ready && |s.queue| < CAPACITY && t !in s.queue
  }

  /** `enqueue`, its answer dropped as the scheduler drops it. */
  function Enqueued(s: Sched, t: nat): (r: Sched)
    requires s.Shaped() && t < MAX_THREADS
    ensures r.Shaped()
  {
    if CanEnqueue(s, t) then s.(queue := s.queue + [t]) else s
  }

  function SwitchTo(s: Sched, next: nat): (r: Sched)
    requires s.Shaped() && next < MAX_THREADS
    ensures r.Shaped()
  {
    s.(pool := s.pool[next := s.pool[next].(state := Running, ticks := 0)], current := next,
       stats := s.stats.(switches := s.stats.switches + 1))
  }

  /** The outgoing thread: back to the queue if it could go on running. */
  function Park(s: Sched): (r: Sched)
    requires s.Shaped()
    ensures r.Shaped()
  {
    var cur := s.pool[s.current];
    if cur.state != Running then s
    else if !cur.isIdle then Enqueued(s.WithState(s.current, Ready), s.current)
    else s.WithState(s.current, Idling)
  }

  function Schedule(s: Sched): (r: Sched)
    requires s.Shaped()
    ensures r.Shaped()
  {
    var r := Reclaim(s);
    var next := if r.queue == [] then IDLE else r.queue[0];
    var popped := if r.queue == [] then r else r.(queue := r.queue[1..]);
    if (r.queue == [] && r.pool[r.current].state in {Running, Ready}) || r.current == next
    then popped.WithState(r.current, Running)
    else SwitchTo(Park(popped), next)
  }

  function Exit(s: Sched): (r: Sched)
    requires s.Shaped()
    ensures r.Shaped()
  {
    var r := Reclaim(s.WithState(s.current, Terminated));
    if r.queue == [] then SwitchTo(r, IDLE) else SwitchTo(r.(queue := r.queue[1..]), r.queue[0])
  }

  function Block(s: Sched, t: nat): (r: Sched)
    requires s.Shaped() && t < MAX_THREADS
    ensures r.Shaped()
  {
    if t == s.current then Schedule(s.WithState(t, Blocked))
    else
      WithoutStaysQueueable(s.queue, t);
      s.(queue := Without(s.queue, t)).WithState(t, Blocked)
  }

  lemma {:induction false} WithoutStaysQueueable(q: seq<int>, t: int)
    requires Queueable(q)
    ensures Queueable(Without(q, t))
  {
    if q != [] { WithoutStaysQueueable(q[1..], t); }
  }

  function Unblock(s: Sched, t: nat): (r: Sched)
    requires s.Shaped() && t < MAX_THREADS
    ensures r.Shaped()
  {
    if s.pool[t].state == Blocked then Enqueued(s.WithState(t, Ready), t) else s
  }

  function Yield(s: Sched): (r: Sched)
    requires s.Shaped()
    ensures r.Shaped()
  {
    Schedule(if s.pool[s.current].isIdle then s else s.(stats := s.stats.(voluntary := s.stats.voluntary + 1)))
  }

  function Tick(s: Sched): (r: Sched)
    requires s.Shaped()
    ensures r.Shaped()
  {
    var cur := s.pool[s.current];
    var s1 := s.(pool := s.pool[s.current := cur.(ticks := cur.ticks + 1)]);
    if cur.ticks + 1 >= TIMESLICE || (cur.isIdle && s.queue != [])
    then Schedule(s1.(stats := s.stats.(preemptions := s.stats.preemptions + 1))) else s1
  }

  /** `allocate_tcb`: the lowest inactive entry from `from` on, or MAX_THREADS. */
  function FreeTcb(pool: seq<Tcb>, from: nat): (i: nat)
    requires |pool| == MAX_THREADS && from <= MAX_THREADS
    ensures from <= i <= MAX_THREADS && (i < MAX_THREADS ==> !pool[i].active) && forall j :: from <= j < i ==>
              pool[j].active
    decreases MAX_THREADS - from
  {
    if from == MAX_THREADS || !pool[from].active then from else FreeTcb(pool, from + 1)
  }

  /** The slot search of `allocate_stack`. */
  function FreeSlot(slots: seq<bool>, from: nat): (i: nat)
    requires |slots| == MAX_STACK_SLOTS && from <= MAX_STACK_SLOTS
    ensures from <= i <= MAX_STACK_SLOTS && (i < MAX_STACK_SLOTS ==> !slots[i]) && forall j :: from <= j < i ==>
              slots[j]
    decreases MAX_STACK_SLOTS - from
  {
    if from == MAX_STACK_SLOTS || !slots[from] then from else FreeSlot(slots, from + 1)
  }

  /** Whether memory for a stack could be found, and where. */
  datatype Grant = Refused | Granted(base: nat)

  function NextId(id: nat): nat
  {
    if id + 1 == 0x1_0000_0000 then 3 else id + 1
  }

  /** The thread after its stack was allocated, before it is queued. */
  function Prepared(s: Sched, i: nat, slot: nat, base: nat): (r: Sched)
    requires s.Shaped() && i < MAX_THREADS && slot < MAX_STACK_SLOTS
    ensures r.Shaped()
  {
    s.(pool := s.pool[i := BLANK.(id := s.nextId, state := Ready, stack := StackInfo(slot, base, STACK_USABLE_PAGES),
      active := true)],
       slots := s.slots[slot := true], pagesOut := s.pagesOut + STACK_USABLE_PAGES, nextId := NextId(s.nextId))
  }

  /** `create_thread`, with the failure paths for the pool, the slots, memory and the queue. */
  function Create(s: Sched, grant: Grant): (r: Sched)
    requires s.Shaped()
    ensures r.Shaped()
  {
    var i := FreeTcb(s.pool, 2);
    var slot := FreeSlot(s.slots, 0);
    if i == MAX_THREADS then s
    else if slot == MAX_STACK_SLOTS || grant.Refused? then s.(pool := s.pool[i := BLANK])
    else
      var p := Prepared(s, i, slot, grant.base);
      if !CanEnqueue(p, i) then FreeStack(p, p.pool[i].stack).(pool := p.pool[i := p.pool[i].(active := false)])
      else Enqueued(p, i).(stats := s.stats.(total := s.stats.total + 1, active := s.stats.active + 1,
                                             pagesAllocated := s.stats.pagesAllocated + STACK_USABLE_PAGES))
  }

  // ---------------------------------------------------------------- runs

  datatype Step = DoCreate(grant: Grant) | DoYield | DoTick | DoBlock(t: nat) | DoUnblock(t: nat) | DoExit

  /** What callers owe: only threads in use other than the idle thread are blocked, and the idle thread does not
      exit. */
  predicate Allowed(s: Sched, e: Step)
    requires s.Shaped()
  {
    match e
    case DoBlock(t) => t < MAX_THREADS && s.pool[t].active && !s.pool[t].isIdle
    case DoUnblock(t) => t < MAX_THREADS
    case DoExit => !s.pool[s.current].isIdle
    case _ => true
  }

  function After(s: Sched, e: Step): (r: Sched)
    requires s.Shaped() && Allowed(s, e)
    ensures r.Shaped()
  {
    match e
    case DoCreate(g) => Create(s, g)
    case DoYield => Yield(s)
    case DoTick => Tick(s)
    case DoBlock(t) => Block(s, t)
    case DoUnblock(t) => Unblock(s, t)
    case DoExit => Exit(s)
  }

  /** `init` and `start`: the bootstrap thread runs, the idle thread owns the first stack. */
  function Initial(base: nat): (r: Sched)
    ensures r.Shaped()
  {
    var pool := seq(MAX_THREADS, i =>
      if i == BOOTSTRAP then Tcb(1, Running, NO_STACK, 0, false, true, true)
      else if i == IDLE then Tcb(2, Idling, StackInfo(0, base, STACK_USABLE_PAGES), 0, true, false, true)
      else BLANK);
    Sched(pool, [], BOOTSTRAP, 3, seq(MAX_STACK_SLOTS, i => i == 0), STACK_USABLE_PAGES, 0,
          Stats(2, 2, 0, STACK_USABLE_PAGES, 0, 0, 0, 0))
  }
}
