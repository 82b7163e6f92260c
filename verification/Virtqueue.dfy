/** kernel/drivers/virtio/virtio_queue.cpp: descriptors, their free list and the rings (section 2.4 of VirtIO 1.0). */
module Virtqueues {

  const NIL: nat := 0xFFFF

  /** Guest memory a block request points at. */
  datatype Addr = Nowhere | Header | Status | Bounce

  datatype Desc = Desc(addr: Addr, len: nat, hasNext: bool, write: bool, next: nat)

  const CLEARED: Desc := Desc(Nowhere, 0, false, false, 0)

  predicate DistinctIndices(s: seq<nat>)
  {
    forall i, j :: 0 <= i < j < |s| ==> s[i] != s[j]
  }

  /** The free list: distinct descriptors, each naming the next. */
  predicate FreeList(desc: seq<Desc>, head: nat, free: seq<nat>)
  {
    && DistinctIndices(free) && (forall i :: 0 <= i < |free| ==> free[i] < |desc|)
    && head == (if free == [] then NIL else free[0])
    && forall i {:trigger Follower(free, i)} :: 0 <= i < |free| ==> desc[free[i]].next == Follower(free, i)
  }

  function Follower(free: seq<nat>, i: int): nat
    requires 0 <= i < |free|
  {
    if i + 1 < |free| then free[i + 1] else NIL
  }

  /** A request: distinct descriptors outside the free list, linked by their NEXT flags. */
  predicate Request(desc: seq<Desc>, free: seq<nat>, chain: seq<nat>)
  {
    && chain != [] && DistinctIndices(chain)
    && (forall i :: 0 <= i < |chain| ==> chain[i] < |desc| && chain[i] !in free)
    && (forall i :: 0 <= i < |chain| - 1 ==> desc[chain[i]].hasNext && desc[chain[i]].next == chain[i + 1])
    && !desc[chain[|chain| - 1]].hasNext
  }

  function Reversed(s: seq<nat>): (r: seq<nat>)
  {
    if s == [] then [] else Reversed(s[1..]) + [s[0]]
  }

  lemma {:induction false} ReversedGrows(s: seq<nat>, n: nat)
    requires n < |s|
    ensures Reversed(s[..n + 1]) == [s[n]] + Reversed(s[..n])
  {
    if n > 0 {
      ReversedGrows(s[1..], n - 1);
      assert s[..n + 1][1..] == s[1..][..n] && s[..n][1..] == s[1..][..n - 1];
    } else {
      assert s[..1] == [s[0]] && s[..0] == [];
      assert s[..1][1..] == [];
    }
  }

  lemma {:induction false} ReversedMembers(s: seq<nat>, x: nat)
    ensures x in Reversed(s) <==> x in s
    ensures |Reversed(s)| == |s|
  {
    if s != [] {
      ReversedMembers(s[1..], x);
      assert x in s <==> x == s[0] || x in s[1..];
    }
  }

  /** Putting a descriptor in front of the free list. */
  lemma Pushed(desc: seq<Desc>, head: nat, free: seq<nat>, d: nat)
    requires FreeList(desc, head, free) && d < |desc| && d !in free
    ensures FreeList(desc[d := CLEARED.(next := head)], d, [d] + free)
  {
    var desc', free' := desc[d := CLEARED.(next := head)], [d] + free;
    forall i | 0 <= i < |free'| ensures desc'[free'[i]].next == Follower(free', i) {
      if i > 0 { assert Follower(free', i) == Follower(free, i - 1); }
    }
  }

  /** Taking the first descriptor off. */
  lemma Popped(desc: seq<Desc>, head: nat, free: seq<nat>)
    requires FreeList(desc, head, free) && free != []
    ensures head < |desc| && FreeList(desc[head := CLEARED], desc[head].next, free[1..]) && head !in free[1..]
  {
    var desc', rest := desc[head := CLEARED], free[1..];
    forall i | 0 <= i < |rest| ensures rest[i] != head && desc'[rest[i]].next == Follower(rest, i) {
      assert rest[i] == free[i + 1] && Follower(rest, i) == Follower(free, i + 1);
    }
    assert desc[head].next == Follower(free, 0);
  }

  lemma KeptFree(desc: seq<Desc>, head: nat, free: seq<nat>, d: nat, content: Desc)
    requires FreeList(desc, head, free) && d < |desc| && d !in free
    ensures FreeList(desc[d := content], head, free)
  {
  }

  /** What a poll of the used ring shows: its index, and the id in the slot the driver looks at. */
  datatype Poll = Poll(usedIdx: nat, id: nat)

  /** The driver's index after these polls: it takes one entry whenever the ring's index differs from its own. */
  function Seen(lastUsed: nat, polls: seq<Poll>): nat
  {
    if polls == [] then lastUsed
    else
      var s := Seen(lastUsed, polls[..|polls| - 1]);
      if polls[|polls| - 1].usedIdx != s then (s + 1) % 0x1_0000 else s
  }

  /** Poll `i` shows the driver a new entry, and it is the one for `head`. */
  predicate AnsweredAt(lastUsed: nat, head: nat, polls: seq<Poll>, i: nat)
    requires i < |polls|
  {
    polls[i].usedIdx != Seen(lastUsed, polls[..i]) && polls[i].id == head
  }

  predicate Answered(lastUsed: nat, head: nat, polls: seq<Poll>)
  {
    exists i :: 0 <= i < |polls| && AnsweredAt(lastUsed, head, polls, i)
  }

  /** The first poll from `from` on that shows the entry for `head`. */
  function FirstAnswer(lastUsed: nat, head: nat, polls: seq<Poll>, from: nat): (i: nat)
    requires from <= |polls|
    ensures from <= i <= |polls| && (i < |polls| ==> AnsweredAt(lastUsed, head, polls, i))
    ensures forall j :: from <= j < i ==> !AnsweredAt(lastUsed, head, polls, j)
    decreases |polls| - from
  {
    if from == |polls| || AnsweredAt(lastUsed, head, polls, from)
       then from else FirstAnswer(lastUsed, head, polls, from + 1)
  }

  /** The driver's index once it stops waiting: polls after the answer are not made. */
  function Consumed(lastUsed: nat, head: nat, polls: seq<Poll>): nat
  {
    var i := FirstAnswer(lastUsed, head, polls, 0);
    Seen(lastUsed, if i < |polls| then polls[..i + 1] else polls)
  }

  class Virtqueue {
    const desc: array<Desc>
    const avail: array<nat>
    var availIdx: nat
    var freeHead: nat
    var numFree: nat
    var lastUsedIdx: nat
    ghost var free: seq<nat>

    ghost predicate Valid()
      reads this, desc
    {
      && 0 < desc.Length < NIL && avail.Length == desc.Length && availIdx < 0x1_0000 && lastUsedIdx < 0x1_0000
      && FreeList(desc[..], freeHead, free) && numFree == |free|
    }

    /** Nothing is outstanding: the free list holds every descriptor once. */
    ghost predicate Idle()
      reads this, desc
    {
      Valid() && |free| == desc.Length
    }

    constructor (size: nat)
      requires 0 < size < NIL
      ensures Idle() && desc.Length == size && fresh(desc) && fresh(avail)
    {
      desc := new Desc[size](i requires 0 <= i < size => CLEARED.(next := if i + 1 < size then i + 1 else NIL));
      avail := new nat[size](_ => 0);
      availIdx, freeHead, numFree, lastUsedIdx := 0, 0, size, 0;
      free := seq(size, i => i);
    }

    /** `alloc_descriptor`: -1 when none is free. */
    method AllocDescriptor() returns (d: int)
      requires Valid()
      modifies this`freeHead, this`numFree, this`free, desc
      ensures Valid() && (d == -1 <==> old(free) == [])
      ensures d == -1 ==> free == old(free) && desc[..] == old(desc[..])
      ensures d != -1 ==>
                d == old(free)[0] && 0 <= d < desc.Length && free == old(free)[1..] && d !in free
                && desc[..] == old(desc[..])[d := CLEARED]
    {
      if numFree == 0 || freeHead == NIL { return -1; }
      var idx := freeHead;
      ghost var before := desc[..];
      Popped(before, freeHead, free);
      freeHead := desc[idx].next;
      numFree := numFree - 1;
      desc[idx] := CLEARED;
      assert desc[..] == before[idx := CLEARED];
      free := free[1..];
      return idx;
    }

    /** `set_descriptor` on a descriptor in use. */
    method SetDescriptor(d: nat, content: Desc)
      requires Valid() && d < desc.Length && d !in free
      modifies desc
      ensures Valid() && desc[..] == old(desc[..])[d := content]
    {
      ghost var before := desc[..];
      KeptFree(before, freeHead, free, d, content);
      desc[d] := content;
      assert desc[..] == before[d := content];
    }

    /** `free_descriptor_chain`: every descriptor of the request goes back in front of the free list. */
    method FreeDescriptorChain(head: nat, ghost chain: seq<nat>)
      requires Valid() && chain != [] && Request(desc[..], free, chain) && chain[0] == head
      modifies this`freeHead, this`numFree, this`free, desc
      ensures Valid() && free == Reversed(chain) + old(free)
      ensures forall d :: 0 <= d < desc.Length && d !in chain ==> desc[d] == old(desc[d])
    {
      hide FreeList, Request;
      ghost var n: nat := 0;
      var cur := head;
      ghost var before, free0 := desc[..], free;
      RequestParts(before, free0, chain, 0);
      assert Reversed(chain[..0]) == [] && [] + free0 == free0;
      while true
        invariant Valid() && n < |chain| && cur == chain[n] < desc.Length && free == Reversed(chain[..n]) + free0
        invariant forall d :: 0 <= d < desc.Length && d !in chain[..n] ==> desc[d] == before[d]
        decreases |chain| - n
      {
        RequestParts(before, free0, chain, n);
        NotYetFreed(chain, free0, n);
        var next, hasNext := desc[cur].next, desc[cur].hasNext;
        PushFree(cur);
        ReversedGrows(chain, n);
        assert [cur] + (Reversed(chain[..n]) + free0) == ([cur] + Reversed(chain[..n])) + free0;
        assert chain[..n + 1] == chain[..n] + [chain[n]];
        if !hasNext || next >= desc.Length { break; }
        cur := next;
        n := n + 1;
      }
      assert chain[..n + 1] == chain;
    }

    /** Clears a descriptor and puts it in front of the free list. */
    method PushFree(cur: nat)
      requires Valid() && cur < desc.Length && cur !in free
      modifies this`freeHead, this`numFree, this`free, desc
      ensures Valid() && free == [cur] + old(free) && desc[..] == old(desc[..])[cur := CLEARED.(next := old(freeHead))]
    {
      hide FreeList;
      ghost var now := desc[..];
      Pushed(now, freeHead, free, cur);
      desc[cur] := CLEARED.(next := freeHead);
      assert desc[..] == now[cur := CLEARED.(next := freeHead)];
      freeHead := cur;
      numFree := numFree + 1;
      free := [cur] + free;
    }

    /** `submit_descriptor_chain`. */
    method Submit(head: nat)
      requires Valid() && head < desc.Length
      modifies avail, this`availIdx
      ensures Valid() && avail[old(availIdx) % desc.Length] == head && availIdx == (old(availIdx) + 1) % 0x1_0000
      ensures forall i :: 0 <= i < avail.Length && i != old(availIdx) % desc.Length ==> avail[i] == old(avail[i])
    {
      avail[availIdx % desc.Length] := head;
      availIdx := (availIdx + 1) % 0x1_0000;
    }

    /** `wait_for_completion` against whatever the used ring shows at each poll; completions of other requests are
        consumed and ignored. */
    method WaitForCompletion(head: nat, maxPolls: nat, polls: seq<Poll>) returns (ok: bool)
      requires Valid() && |polls| == maxPolls
      modifies this`lastUsedIdx
      ensures Valid() && (ok <==> Answered(old(lastUsedIdx), head, polls))
      ensures lastUsedIdx == Consumed(old(lastUsedIdx), head, polls)
    {
      hide FreeList;
      for i := 0 to maxPolls
        invariant Valid() && lastUsedIdx == Seen(old(lastUsedIdx), polls[..i])
        invariant forall j :: 0 <= j < i ==> !AnsweredAt(old(lastUsedIdx), head, polls, j)
      {
        assert polls[..i + 1][..i] == polls[..i];
        if lastUsedIdx != polls[i].usedIdx {
          lastUsedIdx := (lastUsedIdx + 1) % 0x1_0000;
          if polls[i].id == head {
            assert AnsweredAt(old(lastUsedIdx), head, polls, i);
            return true;
          }
        }
      }
      assert polls[..maxPolls] == polls;
      return false;
    }
  }

  lemma RequestParts(desc: seq<Desc>, free: seq<nat>, chain: seq<nat>, n: nat)
    requires Request(desc, free, chain) && n < |chain|
    ensures DistinctIndices(chain) && chain[n] < |desc| && chain[n] !in free
    ensures desc[chain[n]].hasNext <==> n + 1 < |chain|
    ensures n + 1 < |chain| ==> desc[chain[n]].next == chain[n + 1] && chain[n + 1] < |desc|
  {
  }

  lemma NotYetFreed(chain: seq<nat>, free: seq<nat>, n: nat)
    requires n < |chain| && DistinctIndices(chain) && chain[n] !in free
    ensures chain[n] !in Reversed(chain[..n]) + free && chain[n] !in chain[..n]
  {
    ReversedMembers(chain[..n], chain[n]);
    assert forall i :: 0 <= i < n ==> chain[..n][i] != chain[n];
  }

  /** Everything taken for a request and put back: the free list is complete again. */
  lemma FreedAll(taken: seq<nat>, rest: seq<nat>, size: nat)
    requires |taken| + |rest| == size
    ensures |Reversed(taken) + rest| == size
  {
    ReversedMembers(taken, 0);
  }
}
