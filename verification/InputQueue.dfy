/** kernel/drivers/ps2/input_queue.hpp: the lock-free ring between the keyboard interrupt and the kernel loop, one load
    or store at a time. */
module InputQueues {
  import opened Machine

  /** `index & (Capacity - 1)`: the remainder modulo the capacity. */
  function Rem(k: nat, n: nat): (r: nat)
    requires n > 0
    ensures r < n
    decreases k
  {
    if k < n then k else Rem(k - n, n)
  }

  /** Where the producer is inside `push`. */
  datatype Producer<E> =
    | Outside
    | HasHead(event: E, head: u64)
    | HasBoth(event: E, head: u64, tail: u64)
    | Stored(event: E, head: u64)

  /** Where the consumer is inside `pop`. */
  datatype Consumer<E> =
    | Away
    | HasTail(tail: u64)
    | HasEnds(tail: u64, head: u64)
    | Loaded(tail: u64, event: E)

  /** Shared memory, the two locals, and the history: events accepted, popped and dropped, pushes begun. */
  datatype Ring<E> = Ring(buffer: seq<E>, head: u64, tail: u64, producer: Producer<E>, consumer: Consumer<E>,
                          accepted: seq<E>, popped: seq<E>, dropped: nat, attempted: nat)

  /** One load or store of one side. */
  datatype Step<E> =
    | PushStart(event: E) | PushLoadTail | PushStore | PushPublish | PopStart | PopLoadHead | PopLoad | PopPublish

  predicate Enabled<E>(q: Ring<E>, s: Step<E>)
  {
    match s
    case PushStart(_) => q.producer.Outside?
    case PushLoadTail => q.producer.HasHead?
    case PushStore => q.producer.HasBoth?
    case PushPublish => q.producer.Stored?
    case PopStart => q.consumer.Away?
    case PopLoadHead => q.consumer.HasTail?
    case PopLoad => q.consumer.HasEnds?
    case PopPublish => q.consumer.Loaded?
  }

  /** The effect of a step on a ring of `capacity` slots; indices are 64-bit and wrap. */
  function Next<E>(q: Ring<E>, s: Step<E>, capacity: nat): Ring<E>
    requires Enabled(q, s) && 0 < capacity == |q.buffer|
  {
    match s
    case PushStart(e) => q.(producer := HasHead(e, q.head), attempted := q.attempted + 1)
    case PushLoadTail => q.(producer := HasBoth(q.producer.event, q.producer.head, q.tail))
    case PushStore =>
      var p := q.producer;
      if Sub64(p.head, p.tail) >= capacity then q.(producer := Outside, dropped := q.dropped + 1)
      else q.(buffer := q.buffer[Rem(p.head, capacity) := p.event], producer := Stored(p.event, p.head))
    case PushPublish =>
      q.(head := Add64(q.producer.head, 1), producer := Outside, accepted := q.accepted + [q.producer.event])
    case PopStart => q.(consumer := HasTail(q.tail))
    case PopLoadHead => q.(consumer := HasEnds(q.consumer.tail, q.head))
    case PopLoad =>
      var c := q.consumer;
      if c.tail == c.head then q.(consumer := Away) else q.(consumer := Loaded(c.tail, q.buffer[Rem(c.tail, capacity)]))
    case PopPublish =>
      q.(tail := Add64(q.consumer.tail, 1), consumer := Away, popped := q.popped + [q.consumer.event])
  }

  // ---------------------------------------------------------------- the invariant

  /** Capacity is a power of two: exactly the divisors of 2^64. */
  predicate Capacity(capacity: nat)
  {
    0 < capacity < TWO64 && Rem(TWO64, capacity) == 0
  }

  /** Accepted events not yet popped sit in their slots. */
  ghost predicate Unread<E>(buffer: seq<E>, accepted: seq<E>, popped: nat, capacity: nat)
    requires |buffer| == capacity > 0
  {
    forall k :: popped <= k < |accepted| ==> accepted[k] == buffer[Rem(k, capacity)]
  }

  ghost predicate Inv<E>(q: Ring<E>, capacity: nat)
  {
    && Capacity(capacity) && |q.buffer| == capacity
    && q.head == |q.accepted| % TWO64 && q.tail == |q.popped| % TWO64
    && |q.popped| <= |q.accepted| <= |q.popped| + capacity
    && q.popped == q.accepted[..|q.popped|]
    && Unread(q.buffer, q.accepted, |q.popped|, capacity)
    && ProducerOk(q, capacity) && ConsumerOk(q, capacity)
    && |q.accepted| + q.dropped + (if q.producer.Outside? then 0 else 1) == q.attempted
  }

  /** What the producer's locals are worth: the head is current, the tail was so when it was read. */
  ghost predicate ProducerOk<E>(q: Ring<E>, capacity: nat)
    requires |q.buffer| == capacity > 0
  {
    match q.producer
    case Outside => true
    case HasHead(_, h) => h == q.head
    case HasBoth(_, h, t) => h == q.head && exists seen: nat :: SeenTail(q, seen, t, capacity)
    case Stored(e, h) =>
      h == q.head && |q.accepted| < |q.popped| + capacity && q.buffer[Rem(|q.accepted|, capacity)] == e
  }

  ghost predicate SeenTail<E>(q: Ring<E>, seen: nat, t: u64, capacity: nat)
  {
    seen <= |q.popped| && t == seen % TWO64 && |q.accepted| <= seen + capacity
  }

  ghost predicate ConsumerOk<E>(q: Ring<E>, capacity: nat)
  {
    match q.consumer
    case Away => true
    case HasTail(t) => t == q.tail
    case HasEnds(t, h) => t == q.tail && exists seen: nat :: SeenHead(q, seen, h)
    case Loaded(t, e) => t == q.tail && |q.popped| < |q.accepted| && e == q.accepted[|q.popped|]
  }

  ghost predicate SeenHead<E>(q: Ring<E>, seen: nat, h: u64)
  {
    |q.popped| <= seen <= |q.accepted| && h == seen % TWO64
  }

  // ---------------------------------------------------------------- arithmetic across the wrap

  /** The difference of two indices at most a capacity apart survives the wrap. */
  lemma Distance(a: nat, b: nat, capacity: nat)
    requires b <= a <= b + capacity && capacity < TWO64
    ensures Sub64(a % TWO64, b % TWO64) == a - b
    ensures a % TWO64 == b % TWO64 <==> a == b
  {
    var k := a / TWO64 - b / TWO64;
    assert a == a / TWO64 * TWO64 + a % TWO64 && b == b / TWO64 * TWO64 + b % TWO64;
    assert 0 <= k <= 1;
  }

  lemma Successor(a: nat)
    ensures Add64(a % TWO64, 1) == (a + 1) % TWO64
  {
  }

  lemma {:induction false} RemAdd(x: nat, m: nat, n: nat)
    requires n > 0 && Rem(m, n) == 0
    ensures Rem(x + m, n) == Rem(x, n)
    decreases m
  {
    if m >= n {
      RemAdd(x, m - n, n);
      assert x + m >= n && x + m - n == x + (m - n);
    }
  }

  /** Masking the wrapped index selects the slot of the unwrapped one. */
  lemma {:induction false} SlotOfWrapped(a: nat, capacity: nat)
    requires Capacity(capacity)
    ensures Rem(a % TWO64, capacity) == Rem(a, capacity)
    decreases a
  {
    hide Rem;
    if a >= TWO64 {
      SlotOfWrapped(a - TWO64, capacity);
      RemAdd(a - TWO64, TWO64, capacity);
      assert a % TWO64 == (a - TWO64) % TWO64;
    }
  }

  /** Within a window of `capacity` indices slots are distinct. */
  lemma {:induction false} SlotsDistinct(a: nat, b: nat, capacity: nat)
    requires 0 < capacity && a < b < a + capacity
    ensures Rem(a, capacity) != Rem(b, capacity)
    decreases a
  {
    if a >= capacity {
      SlotsDistinct(a - capacity, b - capacity, capacity);
    } else if b >= capacity {
      assert Rem(b, capacity) == Rem(b - capacity, capacity) == b - capacity;
    }
  }

  // ---------------------------------------------------------------- preservation

  lemma PushStoreInv<E>(q: Ring<E>, capacity: nat)
    requires Inv(q, capacity) && q.producer.HasBoth?
    ensures Inv(Next(q, PushStore, capacity), capacity)
  {
    var p, n := q.producer, |q.accepted|;
    var seen: nat :| SeenTail(q, seen, p.tail, capacity);
    Distance(n, seen, capacity);
    if Sub64(p.head, p.tail) < capacity {
      SlotOfWrapped(n, capacity);
      var q' := Next(q, PushStore, capacity);
      forall k | |q.popped| <= k < n ensures q.accepted[k] == q'.buffer[Rem(k, capacity)] {
        SlotsDistinct(k, n, capacity);
      }
    }
    ConsumerFrame(q, Next(q, PushStore, capacity), capacity);
  }

  /** The consumer's locals stay good while the producer works. */
  lemma ConsumerFrame<E>(q: Ring<E>, q': Ring<E>, capacity: nat)
    requires ConsumerOk(q, capacity) && q'.consumer == q.consumer && q'.tail == q.tail && q'.popped == q.popped
             && q.accepted <= q'.accepted
    ensures ConsumerOk(q', capacity)
  {
    if q.consumer.HasEnds? {
      var seen: nat :| SeenHead(q, seen, q.consumer.head);
      assert SeenHead(q', seen, q.consumer.head);
    }
  }

  /** The producer's locals stay good while the consumer works. */
  lemma ProducerFrame<E>(q: Ring<E>, q': Ring<E>, capacity: nat)
    requires 0 < capacity == |q.buffer| && q'.buffer == q.buffer && ProducerOk(q, capacity)
    requires q'.producer == q.producer && q'.head == q.head && q'.accepted == q.accepted && q.popped <= q'.popped
    ensures ProducerOk(q', capacity)
  {
    if q.producer.HasBoth? {
      var seen: nat :| SeenTail(q, seen, q.producer.tail, capacity);
      assert SeenTail(q', seen, q.producer.tail, capacity);
    }
  }

  lemma PushPublishInv<E>(q: Ring<E>, capacity: nat)
    requires Inv(q, capacity) && q.producer.Stored?
    ensures Inv(Next(q, PushPublish, capacity), capacity)
  {
    var q' := Next(q, PushPublish, capacity);
    Successor(|q.accepted|);
    assert q'.accepted[..|q.popped|] == q.accepted[..|q.popped|];
    ConsumerFrame(q, q', capacity);
  }

  lemma PopLoadInv<E>(q: Ring<E>, capacity: nat)
    requires Inv(q, capacity) && q.consumer.HasEnds?
    ensures Inv(Next(q, PopLoad, capacity), capacity)
  {
    var c, n := q.consumer, |q.popped|;
    var seen: nat :| SeenHead(q, seen, c.head);
    Distance(seen, n, capacity);
    SlotOfWrapped(n, capacity);
    ProducerFrame(q, Next(q, PopLoad, capacity), capacity);
  }

  lemma PopPublishInv<E>(q: Ring<E>, capacity: nat)
    requires Inv(q, capacity) && q.consumer.Loaded?
    ensures Inv(Next(q, PopPublish, capacity), capacity)
  {
    var q' := Next(q, PopPublish, capacity);
    Successor(|q.popped|);
    assert q.accepted[..|q.popped| + 1] == q.accepted[..|q.popped|] + [q.accepted[|q.popped|]];
    ProducerFrame(q, q', capacity);
  }

  lemma LoadsInv<E>(q: Ring<E>, s: Step<E>, capacity: nat)
    requires Inv(q, capacity) && Enabled(q, s) && (s.PushStart? || s.PushLoadTail? || s.PopStart? || s.PopLoadHead?)
    ensures Inv(Next(q, s, capacity), capacity)
  {
    var q' := Next(q, s, capacity);
    if s.PushStart? || s.PushLoadTail? { ConsumerFrame(q, q', capacity); } else { ProducerFrame(q, q', capacity); }
    if s.PushLoadTail? { assert SeenTail(q', |q.popped|, q.tail, capacity); }
    if s.PopLoadHead? { assert SeenHead(q', |q.accepted|, q.head); }
  }

  lemma StepInv<E>(q: Ring<E>, s: Step<E>, capacity: nat)
    requires Inv(q, capacity) && Enabled(q, s)
    ensures Inv(Next(q, s, capacity), capacity)
  {
    hide Inv;
    match s
    case PushStore => PushStoreInv(q, capacity);
    case PushPublish => PushPublishInv(q, capacity);
    case PopLoad => PopLoadInv(q, capacity);
    case PopPublish => PopPublishInv(q, capacity);
    case _ => LoadsInv(q, s, capacity);
  }

  /** An interleaving of the two sides. */
  ghost predicate Run<E>(states: seq<Ring<E>>, steps: seq<Step<E>>, capacity: nat)
  {
    && |states| == |steps| + 1 && (forall k :: 0 <= k < |states| ==> 0 < capacity == |states[k].buffer|)
    && forall k :: 0 <= k < |steps| ==>
         Enabled(states[k], steps[k]) && states[k + 1] == Next(states[k], steps[k], capacity)
  }

  ghost predicate Empty<E>(q: Ring<E>)
  {
    q.head == 0 && q.tail == 0 && q.producer.Outside? && q.consumer.Away? && q.accepted == [] && q.popped == []
    && q.dropped == 0 && q.attempted == 0
  }

  lemma {:induction false} AlwaysInv<E>(states: seq<Ring<E>>, steps: seq<Step<E>>, capacity: nat, k: nat)
    requires Capacity(capacity) && Run(states, steps, capacity) && Empty(states[0]) && k < |states|
    ensures Inv(states[k], capacity)
  {
    if k > 0 {
      hide Next, Inv;
      AlwaysInv(states, steps, capacity, k - 1);
      StepInv(states[k - 1], steps[k - 1], capacity);
    }
  }

  /** Under every interleaving: first in, first out, nothing lost or doubled, never more than `capacity` events in the
      ring, and every push either accepted or counted as dropped. */
  lemma Linearizes<E>(states: seq<Ring<E>>, steps: seq<Step<E>>, capacity: nat, k: nat)
    requires Capacity(capacity) && Run(states, steps, capacity) && Empty(states[0]) && k < |states|
    ensures var q := states[k];
            && q.popped <= q.accepted && |q.accepted| - |q.popped| <= capacity
            && Unread(q.buffer, q.accepted, |q.popped|, capacity)
            && (q.producer.Outside? ==> |q.accepted| + q.dropped == q.attempted)
  {
    hide Run, Empty;
    AlwaysInv(states, steps, capacity, k);
  }

  predicate Push<E>(s: Step<E>)
  {
    s.PushStart? || s.PushLoadTail? || s.PushStore? || s.PushPublish?
  }

  /** While only the consumer works, the producer's side stands still. */
  lemma {:induction false} ProducerStill<E>(states: seq<Ring<E>>, steps: seq<Step<E>>, capacity: nat, j: nat, k: nat)
    requires Run(states, steps, capacity) && j <= k < |states| && forall i :: j <= i < k ==> !Push(steps[i])
    ensures states[k].producer == states[j].producer && states[k].accepted == states[j].accepted
            && states[k].dropped == states[j].dropped
  {
    if j < k { ProducerStill(states, steps, capacity, j, k - 1); }
  }

  lemma {:induction false} ConsumerStill<E>(states: seq<Ring<E>>, steps: seq<Step<E>>, capacity: nat, j: nat, k: nat)
    requires Run(states, steps, capacity) && j <= k < |states| && forall i :: j <= i < k ==> Push(steps[i])
    ensures states[k].consumer == states[j].consumer && states[k].popped == states[j].popped
  {
    if j < k { ConsumerStill(states, steps, capacity, j, k - 1); }
  }

  /** A push that read the tail in state `j` and decides in state `k` drops its event exactly when the ring held
      `capacity` events in state `j`. */
  lemma DropsExactly<E>(states: seq<Ring<E>>, steps: seq<Step<E>>, capacity: nat, j: nat, k: nat)
    requires Capacity(capacity) && Run(states, steps, capacity) && Empty(states[0]) && j < k < |steps|
    requires steps[j].PushLoadTail? && steps[k].PushStore? && forall i :: j < i < k ==> !Push(steps[i])
    ensures states[k + 1].dropped ==
              states[k].dropped + (if |states[j].accepted| - |states[j].popped| == capacity then 1 else 0)
  {
    AlwaysInv(states, steps, capacity, j);
    ProducerStill(states, steps, capacity, j + 1, k);
    Distance(|states[j].accepted|, |states[j].popped|, capacity);
  }

  lemma {:induction false} EventCarried<E>(states: seq<Ring<E>>, steps: seq<Step<E>>, capacity: nat, j: nat, k: nat)
    requires Run(states, steps, capacity) && j < k < |states| && steps[j].PushStart?
    requires forall i :: j < i < k ==> !steps[i].PushStart?
    ensures states[k].producer.Outside? || states[k].producer.event == steps[j].event
  {
    if j + 1 < k { EventCarried(states, steps, capacity, j, k - 1); }
  }

  /** What a push publishes is the event it was given. */
  lemma PublishesItsEvent<E>(states: seq<Ring<E>>, steps: seq<Step<E>>, capacity: nat, j: nat, k: nat)
    requires Run(states, steps, capacity) && j < k < |steps| && steps[j].PushStart? && steps[k].PushPublish?
    requires forall i :: j < i < k ==> !steps[i].PushStart?
    ensures states[k + 1].accepted == states[k].accepted + [steps[j].event]
  {
    EventCarried(states, steps, capacity, j, k);
  }

  /** A pop that read the head in state `j` and decides in state `k` finds nothing exactly when the ring was empty in
      state `j`. */
  lemma EmptyExactly<E>(states: seq<Ring<E>>, steps: seq<Step<E>>, capacity: nat, j: nat, k: nat)
    requires Capacity(capacity) && Run(states, steps, capacity) && Empty(states[0]) && j < k < |steps|
    requires steps[j].PopLoadHead? && steps[k].PopLoad? && forall i :: j < i < k ==> Push(steps[i])
    ensures states[k + 1].consumer.Away? <==> |states[j].accepted| == |states[j].popped|
  {
    AlwaysInv(states, steps, capacity, j);
    ConsumerStill(states, steps, capacity, j + 1, k);
    Distance(|states[j].accepted|, |states[j].popped|, capacity);
  }
}
