/** kernel/threading/ready_queue.hpp: the circular FIFO of runnable threads. */
module ReadyQueues {
  import opened Sequences

  const CAPACITY: nat := 64

  /** No thread: the null pointer. */
  const NOBODY: int := -1

  lemma RemovedAt(q: seq<int>, t: int, i: nat)
    requires Distinct(q) && i < |q| && q[i] == t && t !in q[..i] && (forall k :: 0 <= k < |q| ==> q[k] >= 0)
    ensures Without(q, t) == q[..i] + q[i + 1..] && Distinct(Without(q, t)) && t in q
    ensures forall k :: 0 <= k < |Without(q, t)| ==> Without(q, t)[k] >= 0
  {
    forall j | 0 <= j < i ensures q[j] != t { assert q[j] == q[..i][j]; }
    WithoutAt(q, t, i);
    WithoutMembers(q, t);
  }

  /** Array position of the `i`-th entry. */
  function Slot(head: nat, i: nat): nat
    requires head < CAPACITY && i <= CAPACITY
  {
    if head + i < CAPACITY then head + i else head + i - CAPACITY
  }

  lemma SlotIsModulo(head: nat, i: nat)
    requires head < CAPACITY && i < CAPACITY
    ensures Slot(head, i) == (head + i) % CAPACITY
    ensures i + 1 < CAPACITY ==> Slot(head, i + 1) == (Slot(head, i) + 1) % CAPACITY
  {
  }

  function View(entries: seq<int>, head: nat, count: nat): seq<int>
    requires |entries| == CAPACITY && head < CAPACITY && count <= CAPACITY
  {
    seq(count, i requires 0 <= i < count => entries[Slot(head, i)])
  }

  lemma ViewLength(entries: seq<int>, head: nat, count: nat)
    requires |entries| == CAPACITY && head < CAPACITY && count <= CAPACITY
    ensures |View(entries, head, count)| == count
  {
  }

  lemma Appended(a: seq<int>, head: nat, count: nat, x: int)
    requires |a| == CAPACITY && head < CAPACITY && count < CAPACITY
    ensures View(a[Slot(head, count) := x], head, count + 1) == View(a, head, count) + [x]
    ensures x !in View(a, head, count) && Distinct(View(a, head, count)) ==> Distinct(View(a, head, count) + [x])
  {
  }

  lemma Removed(a: seq<int>, head: nat, count: nat)
    requires |a| == CAPACITY && head < CAPACITY && 0 < count <= CAPACITY
    ensures View(a[head := NOBODY], (head + 1) % CAPACITY, count - 1) == View(a, head, count)[1..]
            && View(a, head, count)[0] == a[head]
  {
    var v := View(a, head, count);
    forall i | 0 <= i < count - 1 ensures View(a[head := NOBODY], (head + 1) % CAPACITY, count - 1)[i] == v[1..][i] {
      assert Slot((head + 1) % CAPACITY, i) == Slot(head, i + 1) != head;
    }
  }

  lemma NextTail(head: nat, count: nat)
    requires head < CAPACITY && count < CAPACITY
    ensures ((head + count) % CAPACITY + 1) % CAPACITY == (head + (count + 1)) % CAPACITY
  {
  }

  lemma NextHead(head: nat, count: nat)
    requires head < CAPACITY && 0 < count <= CAPACITY
    ensures ((head + 1) % CAPACITY + (count - 1)) % CAPACITY == (head + count) % CAPACITY
  {
  }

  /** Entries `[i, j)` already hold their successors. */
  ghost predicate Shifted(a: seq<int>, head: nat, before: seq<int>, i: nat, j: nat)
  {
    && |a| == CAPACITY && head < CAPACITY && i <= j < |before| <= CAPACITY
    && forall k {:trigger Slot(head, k)} :: 0 <= k < |before| ==>
         a[Slot(head, k)] == if i <= k < j then before[k + 1] else before[k]
  }

  lemma ShiftNone(a: seq<int>, head: nat, before: seq<int>, i: nat)
    requires |a| == CAPACITY && head < CAPACITY && i < |before| <= CAPACITY && before == View(a, head, |before|)
    ensures Shifted(a, head, before, i, i)
  {
    forall k | 0 <= k < |before|
      ensures a[Slot(head, k)] == before[k]
    {
      assert View(a, head, |before|)[k] == a[Slot(head, k)];
    }
  }

  lemma ShiftOne(a: seq<int>, head: nat, before: seq<int>, i: nat, j: nat)
    requires Shifted(a, head, before, i, j) && j + 1 < |before|
    ensures Shifted(a[Slot(head, j) := a[Slot(head, j + 1)]], head, before, i, j + 1)
  {
  }

  lemma ShiftedAll(a: seq<int>, head: nat, before: seq<int>, i: nat)
    requires |before| > 0 && Shifted(a, head, before, i, |before| - 1)
    ensures View(a, head, |before|)[..|before| - 1] == before[..i] + before[i + 1..]
  {
    var n := |before| - 1;
    forall k | 0 <= k < n ensures View(a, head, |before|)[..n][k] == (before[..i] + before[i + 1..])[k] {
      assert View(a, head, |before|)[k] == a[Slot(head, k)];
    }
  }

  class ReadyQueue {
    const entries: array<int>
    var head: nat
    var tail: nat
    var count: nat

    ghost predicate Valid()
      reads this, entries
    {
      && entries.Length == CAPACITY && head < CAPACITY && count <= CAPACITY && tail < CAPACITY
      && tail == (head + count) % CAPACITY && Distinct(Contents())
      && forall i :: 0 <= i < count ==> Contents()[i] >= 0
    }

    /** The threads waiting, oldest first. */
    ghost function Contents(): seq<int>
      reads this, entries
      requires entries.Length == CAPACITY && head < CAPACITY && count <= CAPACITY
    {
      View(entries[..], head, count)
    }

    constructor ()
      ensures Valid() && Contents() == [] && fresh(entries)
    {
      entries := new int[CAPACITY](_ => NOBODY);
      head, tail, count := 0, 0, 0;
    }

    /** The walk of `contains` and `remove`: the position of a thread, or `count`. */
    method Find(thread: int) returns (i: nat)
      requires Valid()
      ensures i <= count && thread !in Contents()[..i] && (i < count ==> Contents()[i] == thread)
    {
      var idx := head;
      i := 0;
      while i < count
        invariant 0 <= i <= count && (i < CAPACITY ==> idx == Slot(head, i)) && thread !in Contents()[..i]
      {
        assert Contents()[i] == entries[idx];
        if entries[idx] == thread { return; }
        assert Contents()[..i + 1] == Contents()[..i] + [Contents()[i]];
        SlotIsModulo(head, i);
        idx := (idx + 1) % CAPACITY;
        i := i + 1;
      }
    }

    method Contains(thread: int) returns (found: bool)
      requires Valid()
      ensures found <==> thread != NOBODY && thread in Contents()
    {
      if thread == NOBODY || count == 0 { return false; }
      var i := Find(thread);
      assert Contents()[..count] == Contents();
      return i < count;
    }

    /** Appends, unless the thread is null, not ready, already queued, or the queue is full. */
    method Enqueue(thread: int, isReady: bool) returns (ok: bool)
      requires Valid() && thread >= NOBODY
      modifies entries, this`tail, this`count
      ensures Valid()
      ensures ok <==> thread != NOBODY && isReady && |old(Contents())| < CAPACITY && thread !in old(Contents())
      ensures Contents() == if ok then old(Contents()) + [thread] else old(Contents())
    {
      hide View, Slot, Distinct;
      ViewLength(entries[..], head, count);
      if thread == NOBODY || !isReady || count >= CAPACITY { return false; }
      var queued := Contains(thread);
      if queued { return false; }
      ghost var before, a := Contents(), entries[..];
      SlotIsModulo(head, count);
      Appended(a, head, count, thread);
      entries[tail] := thread;
      assert entries[..] == a[tail := thread];
      NextTail(head, count);
      tail := (tail + 1) % CAPACITY;
      count := count + 1;
      return true;
    }

    /** Takes the oldest thread. */
    method Dequeue() returns (thread: int)
      requires Valid()
      modifies entries, this`head, this`count
      ensures Valid()
      ensures thread == if old(Contents()) == [] then NOBODY else old(Contents())[0]
      ensures Contents() == if old(Contents()) == [] then [] else old(Contents())[1..]
    {
      hide View, Slot;
      ViewLength(entries[..], head, count);
      if count == 0 { return NOBODY; }
      ghost var before, a := Contents(), entries[..];
      Removed(a, head, count);
      thread := entries[head];
      entries[head] := NOBODY;
      assert entries[..] == a[head := NOBODY];
      NextHead(head, count);
      head := (head + 1) % CAPACITY;
      count := count - 1;
    }

    /** Moves the entries after position `i` one place forward. */
    method ShiftDown(i: nat)
      requires Valid() && i < count
      modifies entries
      ensures View(entries[..], head, count)[..count - 1] == old(Contents())[..i] + old(Contents())[i + 1..]
    {
      hide Shifted, Distinct, Slot, View;
      ghost var before := Contents();
      ViewLength(entries[..], head, count);
      var curr := (head + i) % CAPACITY;
      SlotIsModulo(head, i);
      ShiftNone(entries[..], head, before, i);
      for j := i to count - 1
        invariant curr == Slot(head, j) && Shifted(entries[..], head, before, i, j)
      {
        ghost var a := entries[..];
        SlotIsModulo(head, j);
        var next := (curr + 1) % CAPACITY;
        entries[curr] := entries[next];
        assert entries[..] == a[curr := a[next]];
        ShiftOne(a, head, before, i, j);
        curr := next;
      }
      ShiftedAll(entries[..], head, before, i);
    }

    /** Deletes one thread from wherever it waits. */
    method Remove(thread: int) returns (found: bool)
      requires Valid()
      modifies entries, this`tail, this`count
      ensures Valid()
      ensures found <==> thread != NOBODY && thread in old(Contents())
      ensures Contents() == if found then Without(old(Contents()), thread) else old(Contents())
    {
      if thread == NOBODY || count == 0 { return false; }
      ghost var before := Contents();
      var i := Find(thread);
      assert before[..count] == before;
      if i == count { return false; }
      RemovedAt(before, thread, i);
      hide Distinct, View, Without;
      ShiftDown(i);
      DropLast(before, i);
      return true;
    }

    method DropLast(ghost before: seq<int>, ghost i: nat)
      requires entries.Length == CAPACITY && head < CAPACITY && 0 < count <= CAPACITY
               && tail == (head + count) % CAPACITY
      requires i < |before| == count && View(entries[..], head, count)[..count - 1] == before[..i] + before[i + 1..]
      modifies entries, this`tail, this`count
      ensures count == old(count) - 1 && tail == (head + count) % CAPACITY
              && Contents() == before[..i] + before[i + 1..]
    {
      ghost var kept := View(entries[..], head, count)[..count - 1];
      tail := if tail == 0 then CAPACITY - 1 else tail - 1;
      entries[tail] := NOBODY;
      count := count - 1;
      assert Contents() == kept;
    }
  }
}
