/** kernel/drivers/virtio/virtio_block.cpp: chunked transfers through one bounce buffer, against any device. */
module VirtioBlocks {
  import opened FatDisk
  import opened Ram
  import opened Virtqueues

  const BOUNCE_SECTORS: nat := 64
  const HEADER_LEN: nat := 16
  const OK: Byte := 0
  const UNSUPPORTED: Byte := 2

  datatype BlockStatus = Success | IoError | OutOfBounds | ReadOnly | DeviceFault | Timeout | Unsupported

  datatype Kind = In | Out | Flush

  /** The DMA page and the bounce buffer. */
  datatype Dma = Dma(kind: Kind, sector: nat, status: Byte, bounce: seq<Sector>)

  /** What a device does with a request: its duty, or anything at all to its medium and to the memory it was given.
      Either way `polls` is what the used ring shows each time the driver looks, late answers and stray entries
      included. */
  datatype Reply = Honest(polls: seq<Poll>)
    | Other(polls: seq<Poll>, status: Byte, bounce: seq<Sector>, medium: seq<Sector>)

  // ---------------------------------------------------------------- a device that does its duty

  /** The descriptors of a data request: header, buffer of whole sectors in the right direction, status. */
  predicate DataRequest(desc: seq<Desc>, head: nat, toGuest: bool)
  {
    && head < |desc| && desc[head].addr == Header && desc[head].len == 16 && desc[head].hasNext
       && !desc[head].write
    && var b := desc[head].next;
    && b < |desc| && desc[b].addr == Bounce && desc[b].len % 512 == 0 && desc[b].hasNext && desc[b].write == toGuest
    && var s := desc[b].next;
    && s < |desc| && desc[s] == Desc(Status, 1, false, true, desc[s].next)
  }

  predicate FlushRequest(desc: seq<Desc>, head: nat)
  {
    && head < |desc| && desc[head].addr == Header && desc[head].len == 16 && desc[head].hasNext
       && !desc[head].write
    && var s := desc[head].next;
    && s < |desc| && desc[s] == Desc(Status, 1, false, true, desc[s].next)
  }

  function SectorsAsked(desc: seq<Desc>, head: nat): nat
  {
    if head < |desc| && desc[head].next < |desc| then desc[desc[head].next].len / 512 else 0
  }

  /** The request carried out on the medium, as section 5.2 of VirtIO 1.0 asks; a malformed one is refused. */
  function Served(desc: seq<Desc>, head: nat, dma: Dma, medium: seq<Sector>): (r: (Dma, seq<Sector>))
  {
    var n := SectorsAsked(desc, head);
    match dma.kind
    case In =>
      if DataRequest(desc, head, true) && dma.sector + n <= |medium| && n <= |dma.bounce|
      then (dma.(status := OK, bounce := medium[dma.sector..dma.sector + n] + dma.bounce[n..]), medium)
      else (dma.(status := 1), medium)
    case Out =>
      if DataRequest(desc, head, false) && dma.sector + n <= |medium| && n <= |dma.bounce|
      then (dma.(status := OK), medium[..dma.sector] + dma.bounce[..n] + medium[dma.sector + n..])
      else (dma.(status := 1), medium)
    case Flush => if FlushRequest(desc, head) then (dma.(status := OK), medium) else (dma.(status := 1), medium)
  }

  /** What the driver reports of a request, from the used ring and the status byte: 0 is success, 2 not supported,
      anything else an error. */
  predicate Reports(status: BlockStatus, answered: bool, byte: int)
  {
    && (status == Timeout <==> !answered) && (status == Success <==> answered && byte == 0)
    && (status == Unsupported <==> answered && byte == 2) && (status == IoError <==> answered && byte !in {0, 2})
  }

  class VirtioBlock {
    const queue: Virtqueue
    const readOnly: bool
    const supportsFlush: bool
    const maxPolls: nat
    var initialized: bool
    var totalSectors: nat
    var dma: Dma
    /** The device's storage. */
    var medium: seq<Sector>

    constructor (queue: Virtqueue, readOnly: bool, supportsFlush: bool, maxPolls: nat, medium: seq<Sector>)
      requires queue.Idle() && maxPolls > 0 && |medium| < 0x1_0000_0000_0000_0000
      ensures Valid() && this.queue == queue && this.medium == medium && this.readOnly == readOnly
              && this.supportsFlush == supportsFlush
    {
      this.queue, this.readOnly, this.supportsFlush, this.maxPolls, this.medium :=
        queue, readOnly, supportsFlush, maxPolls, medium;
      initialized, totalSectors := true, |medium|;
      dma := Dma(In, 0, 255, seq(BOUNCE_SECTORS, _ => seq(SECTOR, _ => 0)));
    }

    ghost predicate Valid()
      reads this, queue, queue.desc
    {
      queue.Idle() && |dma.bounce| == BOUNCE_SECTORS && totalSectors == |medium| < 0x1_0000_0000_0000_0000
      && maxPolls > 0
    }

    /** Three descriptors, or none: those already taken are put back. */
    method TakeThree() returns (ok: bool, d0: nat, d1: nat, d2: nat)
      requires queue.Idle()
      modifies queue`freeHead, queue`numFree, queue`free, queue.desc
      ensures queue.Valid() && (ok <==> queue.desc.Length >= 3)
      ensures !ok ==> queue.Idle()
      ensures ok ==> old(queue.free) == [d0, d1, d2] + queue.free && DistinctIndices([d0, d1, d2] + queue.free)
      ensures ok ==> d0 < queue.desc.Length && d1 < queue.desc.Length && d2 < queue.desc.Length
    {
      hide FreeList;
      ghost var free := queue.free;
      FreeDistinct(queue);
      var x0 := queue.AllocDescriptor();
      var x1 := queue.AllocDescriptor();
      var x2 := queue.AllocDescriptor();
      d0, d1, d2 := 0, 0, 0;
      if x0 < 0 || x1 < 0 || x2 < 0 {
        if x0 >= 0 { PutBack(x0); }
        if x1 >= 0 { PutBack(x1); }
        return false, 0, 0, 0;
      }
      assert free == [x0, x1, x2] + queue.free;
      return true, x0, x1, x2;
    }

    /** Frees a single descriptor that was allocated and not set up. */
    method PutBack(d: nat)
      requires queue.Valid() && d < queue.desc.Length && d !in queue.free && !queue.desc[d].hasNext
      modifies queue`freeHead, queue`numFree, queue`free, queue.desc
      ensures queue.Valid() && queue.free == [d] + old(queue.free)
      ensures forall e :: 0 <= e < queue.desc.Length && e != d ==> queue.desc[e] == old(queue.desc[e])
    {
      hide FreeList;
      assert Request(queue.desc[..], queue.free, [d]);
      queue.FreeDescriptorChain(d, [d]);
      assert Reversed([d]) == [d] by { assert [d][1..] == []; }
    }

    /** The device's turn on the request at `head`: what the used ring shows afterwards. */
    method DeviceActs(head: nat, reply: Reply) returns (polls: seq<Poll>)
      requires ReplyShaped(reply, maxPolls, |medium|)
      modifies this`dma, this`medium
      ensures polls == reply.polls
      ensures reply.Other? ==>
                dma == old(dma).(status := reply.status, bounce := reply.bounce) && medium == reply.medium
      ensures reply.Honest? ==> (dma, medium) == Served(queue.desc[..], head, old(dma), old(medium))
    {
      match reply {
        case Honest(_) =>
          var served := Served(queue.desc[..], head, dma, medium);
          dma, medium := served.0, served.1;
        case Other(_, status, bounce, m) =>
          dma, medium := dma.(status := status, bounce := bounce), m;
      }
      polls := reply.polls;
    }

    /** One request of `n` sectors: header, buffer and status descriptors, submitted, awaited, freed. Whatever the
        device does, every descriptor is free again afterwards; an honest one carries out the transfer, whenever it
        answers. */
    method Exchange(kind: Kind, sector: nat, n: nat, reply: Reply) returns (status: BlockStatus)
      requires Valid() && kind != Flush && 0 < n <= BOUNCE_SECTORS && ReplyShaped(reply, maxPolls, |medium|)
      modifies this`dma, this`medium, queue, queue.desc, queue.avail
      ensures Valid() && |medium| == |old(medium)| && (status == DeviceFault <==> queue.desc.Length < 3)
      ensures queue.desc.Length >= 3 ==>
                && |old(queue.free)| >= 3
                   && Reports(status, Answered(old(queue.lastUsedIdx), old(queue.free)[0], reply.polls), dma.status)
                && |queue.free| >= 3 && queue.free[0] == old(queue.free)[2] && queue.free[2] == old(queue.free)[0]
                && queue.lastUsedIdx == Consumed(old(queue.lastUsedIdx), old(queue.free)[0], reply.polls)
      ensures reply.Other? && queue.desc.Length >= 3 ==>
                dma.status == reply.status && dma.bounce == reply.bounce && medium == reply.medium
      ensures queue.desc.Length < 3 ==> medium == old(medium)
      ensures reply.Honest? && queue.desc.Length >= 3 && sector + n <= |old(medium)| ==> dma.status == OK
      ensures reply.Honest? && queue.desc.Length >= 3 && sector + n <= |old(medium)| && kind == In ==>
                dma.bounce[..n] == old(medium)[sector..sector + n] && medium == old(medium)
      ensures reply.Honest? && queue.desc.Length >= 3 && sector + n <= |old(medium)| && kind == Out ==>
                medium == old(medium)[..sector] + old(dma).bounce[..n] + old(medium)[sector + n..]
    {
      hide FreeList, Served, DistinctIndices, Request, Answered, Consumed;
      dma := dma.(kind := kind, sector := sector, status := 255);
      var ok, d0, d1, d2 := TakeThree();
      if !ok { return DeviceFault; }
      ghost var rest := queue.free;
      SetUp(d0, d1, d2, kind, n);
      SetUpServes(queue.desc[..], d0, d1, d2, kind, n, dma, medium);
      status := Complete(d0, [d0, d1, d2], reply);
      FreedAll([d0, d1, d2], rest, queue.desc.Length);
      ReversedThree(d0, d1, d2);
    }

    /** Submits a prepared request, waits, and frees its descriptors. */
    method Complete(head: nat, ghost chain: seq<nat>, reply: Reply) returns (status: BlockStatus)
      requires queue.Valid() && ReplyShaped(reply, maxPolls, |medium|) && head < queue.desc.Length
      requires chain != [] && Request(queue.desc[..], queue.free, chain) && chain[0] == head
      modifies this`dma, this`medium, queue, queue.desc, queue.avail
      ensures queue.Valid() && queue.free == Reversed(chain) + old(queue.free)
      ensures reply.Honest? ==> (dma, medium) == Served(old(queue.desc[..]), head, old(dma), old(medium))
      ensures reply.Other? ==>
                medium == reply.medium && dma == old(dma).(status := reply.status, bounce := reply.bounce)
      ensures Reports(status, Answered(old(queue.lastUsedIdx), head, reply.polls), dma.status)
      ensures queue.lastUsedIdx == Consumed(old(queue.lastUsedIdx), head, reply.polls)
    {
      hide FreeList, Served, Request, DistinctIndices, Answered, Consumed;
      queue.Submit(head);
      var polls := DeviceActs(head, reply);
      var ok := queue.WaitForCompletion(head, maxPolls, polls);
      queue.FreeDescriptorChain(head, chain);
      if !ok { return Timeout; }
      if dma.status != OK { return if dma.status == UNSUPPORTED then Unsupported else IoError; }
      return Success;
    }

    /** The three descriptors of a data request. */
    method SetUp(d0: nat, d1: nat, d2: nat, kind: Kind, n: nat)
      requires queue.Valid() && DistinctIndices([d0, d1, d2] + queue.free)
      requires d0 < queue.desc.Length && d1 < queue.desc.Length && d2 < queue.desc.Length
      modifies queue.desc
      ensures queue.Valid() && Request(queue.desc[..], queue.free, [d0, d1, d2])
      ensures queue.desc[d0] == Desc(Header, HEADER_LEN, true, false, d1)
              && queue.desc[d1] == Desc(Bounce, n * SECTOR, true, kind == In, d2)
      ensures queue.desc[d2] == Desc(Status, 1, false, true, 0)
    {
      hide FreeList;
      OutsideFree(d0, d1, d2, queue.free);
      queue.SetDescriptor(d0, Desc(Header, HEADER_LEN, true, false, d1));
      queue.SetDescriptor(d1, Desc(Bounce, n * SECTOR, true, kind == In, d2));
      queue.SetDescriptor(d2, Desc(Status, 1, false, true, 0));
    }

    /** `validate_bounds`: with the overflow test of the source, exactly the ranges on the medium. */
    method InBounds(lba: nat, count: nat, hasBuffer: bool) returns (ok: bool)
      requires Valid() && lba < 0x1_0000_0000_0000_0000 && 0 < count < 0x1_0000_0000
      ensures ok <==> hasBuffer && lba + count <= |medium|
    {
      if !hasBuffer { return false; }
      if lba > 0xFFFF_FFFF_FFFF_FFFF - count { return false; }
      return lba + count <= totalSectors;
    }

    /** `read_sectors`. For every device all descriptors are free afterwards; an honest device makes it one straight
        copy. Whatever comes later, what honest answers delivered is a prefix of what was asked for. */
    method ReadSectors(lba: nat, count: nat, hasBuffer: bool, replies: seq<Reply>)
      returns (status: BlockStatus, out: seq<Sector>)
      requires Valid() && lba < 0x1_0000_0000_0000_0000 && count < 0x1_0000_0000
      requires AllShaped(replies, maxPolls, |medium|) && count <= BOUNCE_SECTORS * |replies|
      modifies this`dma, this`medium, queue, queue.desc, queue.avail
      ensures Valid()
      ensures !initialized ==> status == DeviceFault
      ensures initialized && count == 0 ==> status == Success && out == []
      ensures initialized && count > 0 && !(hasBuffer && lba + count <= |old(medium)|) ==> status == OutOfBounds
      ensures initialized && count > 0 && hasBuffer && lba + count <= |old(medium)| ==>
                && status in {Success, DeviceFault, Timeout, Unsupported, IoError}
                   && (status == DeviceFault <==> queue.desc.Length < 3)
                && |out| <= count && (status == Success <==> |out| == count)
                && (status == Success ==> dma.status == 0) && (status == Unsupported ==> dma.status == 2)
                && (status == IoError ==> dma.status != 0 && dma.status != 2)
      ensures initialized && hasBuffer && lba + count <= |old(medium)| && old(Serves(queue, replies)) ==>
                status == Success && out == old(medium)[lba..lba + count] && medium == old(medium)
      ensures initialized && hasBuffer && lba + count <= |old(medium)| && HonestFor(replies, |out|) ==>
                |out| <= count && out == old(medium)[lba..lba + |out|]
    {
      hide Virtqueue.Idle, AllShaped, AllAnswer, ReplyShaped, Answered, Consumed, HonestFor;
      out := [];
      if !initialized { return DeviceFault, []; }
      if count == 0 { return Success, []; }
      var ok := InBounds(lba, count, hasBuffer);
      if !ok { return OutOfBounds, []; }
      ghost var good := Serves(queue, replies);
      var sector, remaining, i := lba, count, 0;
      assert replies[0..] == replies;
      while remaining > 0
        invariant Valid() && 0 <= i && 0 <= remaining <= count && sector == lba + (count - remaining)
                  && lba + count <= |medium|
        invariant |out| == count - remaining && (remaining < count ==> queue.desc.Length >= 3 && dma.status == 0)
                  && |medium| == |old(medium)|
        invariant i <= |replies| && remaining <= BOUNCE_SECTORS * (|replies| - i)
        invariant good ==> medium == old(medium) && out == medium[lba..sector] && Serves(queue, replies[i..])
        invariant remaining > 0 ==> |out| == BOUNCE_SECTORS * i
        invariant HonestFor(replies, |out|) ==> medium == old(medium) && out == medium[lba..sector]
        decreases remaining
      {
        var chunk := if remaining > BOUNCE_SECTORS then BOUNCE_SECTORS else remaining;
        ShapedAt(replies, i, maxPolls, |medium|);
        if good { ServesNext(queue, replies[i..]); }
        assert replies[i..][0] == replies[i] && replies[i..][1..] == replies[i + 1..];
        status := Exchange(In, sector, chunk, replies[i]);
        if status != Success { return status, out; }
        HonestGrows(replies, i, |out|, chunk);
        NextCopied(medium, lba, sector, chunk, out, dma.bounce[..chunk]);
        out := out + dma.bounce[..chunk];
        sector, remaining, i := sector + chunk, remaining - chunk, i + 1;
      }
      return Success, out;
    }

    /** `write_sectors`; `done` sectors were acknowledged. */
    method WriteSectors(lba: nat, src: seq<Sector>, hasBuffer: bool, replies: seq<Reply>)
      returns (status: BlockStatus, ghost done: nat)
      requires Valid() && lba < 0x1_0000_0000_0000_0000 && |src| < 0x1_0000_0000
      requires AllShaped(replies, maxPolls, |medium|) && |src| <= BOUNCE_SECTORS * |replies|
      modifies this`dma, this`medium, queue, queue.desc, queue.avail
      ensures Valid()
      ensures !initialized ==> status == DeviceFault
      ensures initialized && readOnly ==> status == ReadOnly
      ensures initialized && !readOnly && src == [] ==> status == Success
      ensures initialized && !readOnly && src != [] && !(hasBuffer && lba + |src| <= |old(medium)|) ==>
                status == OutOfBounds
      ensures status in {ReadOnly, OutOfBounds} || src == [] ==> medium == old(medium)
      ensures initialized && !readOnly && src != [] && hasBuffer && lba + |src| <= |old(medium)| ==>
                && status in {Success, DeviceFault, Timeout, Unsupported, IoError}
                && (status == DeviceFault <==> queue.desc.Length < 3)
                && (status == Success ==> dma.status == 0) && (status == Unsupported ==> dma.status == 2)
                && (status == IoError ==> dma.status != 0 && dma.status != 2)
      ensures initialized && !readOnly && hasBuffer && lba + |src| <= |old(medium)| && old(Serves(queue, replies)) ==>
                status == Success && Written(old(medium), medium, src, lba, |src|)
      ensures initialized && !readOnly && src != [] && hasBuffer && lba + |src| <= |old(medium)|
              && HonestFor(replies, done) ==>
                Stopped(old(medium), medium, src, lba, done, status, replies)
    {
      hide Virtqueue.Idle, AllShaped, AllAnswer, ReplyShaped, Stopped, HonestFor;
      done := 0;
      if !initialized { return DeviceFault, 0; }
      if readOnly { return ReadOnly, 0; }
      if src == [] { return Success, 0; }
      var ok := InBounds(lba, |src|, hasBuffer);
      if !ok { return OutOfBounds, 0; }
      status, done := WriteChunks(lba, src, replies);
    }

    /** The chunk loop of `write_sectors`. */
    method WriteChunks(lba: nat, src: seq<Sector>, replies: seq<Reply>) returns (status: BlockStatus, ghost done: nat)
      requires Valid() && AllShaped(replies, maxPolls, |medium|) && lba + |src| <= |medium|
               && |src| <= BOUNCE_SECTORS * |replies|
      modifies this`dma, this`medium, queue, queue.desc, queue.avail
      ensures Valid() && status in {Success, DeviceFault, Timeout, Unsupported, IoError}
      ensures src != [] ==>
                (status == DeviceFault <==> queue.desc.Length < 3) && (status == Success ==> dma.status == 0)
      ensures (status == Unsupported ==> dma.status == 2) && (status == IoError ==> dma.status != 0 && dma.status != 2)
      ensures old(Serves(queue, replies)) ==> status == Success && Written(old(medium), medium, src, lba, |src|)
      ensures HonestFor(replies, done) ==> Stopped(old(medium), medium, src, lba, done, status, replies)
    {
      hide Virtqueue.Idle, AllShaped, AllAnswer, ReplyShaped, Written, Answered, Consumed, HonestFor;
      ghost var good, before := Serves(queue, replies), medium;
      assert replies[0..] == replies;
      var sector, written, i := lba, 0, 0;
      done := 0;
      NothingWritten(before, src, lba);
      while written < |src|
        invariant Valid() && 0 <= i && 0 <= written <= |src| && sector == lba + written && |medium| == |before|
        invariant written > 0 ==> queue.desc.Length >= 3 && dma.status == 0
        invariant i <= |replies| && |src| - written <= BOUNCE_SECTORS * (|replies| - i)
        invariant good ==> Written(before, medium, src, lba, written) && Serves(queue, replies[i..])
        invariant done == written && (written < |src| ==> written == BOUNCE_SECTORS * i)
        invariant HonestFor(replies, done) ==> Written(before, medium, src, lba, done)
        decreases |src| - written
      {
        var chunk := if |src| - written > BOUNCE_SECTORS then BOUNCE_SECTORS else |src| - written;
        dma := dma.(bounce := src[written..written + chunk] + dma.bounce[chunk..]);
        assert dma.bounce[..chunk] == src[written..written + chunk];
        ghost var now := medium;
        ShapedAt(replies, i, maxPolls, |medium|);
        if good { ServesNext(queue, replies[i..]); }
        assert replies[i..][0] == replies[i] && replies[i..][1..] == replies[i + 1..];
        status := Exchange(Out, sector, chunk, replies[i]);
        if HonestFor(replies, done) { NextPiece(before, now, src, lba, written, chunk); }
        if status != Success { return; }
        HonestGrows(replies, i, done, chunk);
        if good { NextPiece(before, now, src, lba, written, chunk); }
        sector, written, i, done := sector + chunk, written + chunk, i + 1, done + chunk;
      }
      return Success, done;
    }

    /** `flush`: two descriptors, no data. */
    method FlushCache(reply: Reply) returns (status: BlockStatus)
      requires Valid() && ReplyShaped(reply, maxPolls, |medium|)
      modifies this`dma, this`medium, queue, queue.desc, queue.avail
      ensures Valid() && (reply.Honest? ==> medium == old(medium))
      ensures !initialized ==> status == DeviceFault
      ensures initialized && !supportsFlush ==> status == Success
      ensures initialized && supportsFlush && queue.desc.Length < 2 ==> status == DeviceFault
      ensures initialized && supportsFlush && queue.desc.Length >= 2 ==>
                && (reply.Other? ==> dma.status == reply.status) && (reply.Honest? ==> dma.status == 0)
                && status == if !Answered(old(queue.lastUsedIdx), old(queue.free)[0], reply.polls) then Timeout
                             else if dma.status == 0 then Success else IoError
    {
      hide FreeList, DistinctIndices, Answered, Served, Request;
      if !initialized { return DeviceFault; }
      if !supportsFlush { return Success; }
      dma := dma.(kind := Flush, sector := 0, status := 255);
      ghost var free := queue.free;
      FreeDistinct(queue);
      var x0 := queue.AllocDescriptor();
      var x1 := queue.AllocDescriptor();
      if x0 < 0 || x1 < 0 {
        if x0 >= 0 { PutBack(x0); }
        return DeviceFault;
      }
      ghost var rest := queue.free;
      TwoApart(free, rest, x0, x1);
      queue.SetDescriptor(x0, Desc(Header, HEADER_LEN, true, false, x1));
      queue.SetDescriptor(x1, Desc(Status, 1, false, true, 0));
      TwoChained(queue.desc[..], rest, x0, x1);
      FlushServes(queue.desc[..], x0, x1, dma, medium);
      status := Complete(x0, [x0, x1], reply);
      FreedAll([x0, x1], rest, queue.desc.Length);
      if status == Unsupported { status := IoError; }
    }
  }

  predicate AllShaped(replies: seq<Reply>, maxPolls: nat, sectors: nat)
  {
    forall i :: 0 <= i < |replies| ==> ReplyShaped(replies[i], maxPolls, sectors)
  }

  lemma ShapedAt(replies: seq<Reply>, i: nat, maxPolls: nat, sectors: nat)
    requires AllShaped(replies, maxPolls, sectors) && i < |replies|
    ensures ReplyShaped(replies[i], maxPolls, sectors)
  {
  }

  /** Each request is carried out and answered before the driver gives up. The head descriptor alternates between the
      first and the third of the free list, since a request is freed back to front. */
  ghost predicate AllAnswer(replies: seq<Reply>, lastUsed: nat, head: nat, other: nat)
  {
    replies == []
    || (&& replies[0].Honest? && Answered(lastUsed, head, replies[0].polls)
        && AllAnswer(replies[1..], Consumed(lastUsed, head, replies[0].polls), other, head))
  }

  /** A correct device that never makes the driver time out. */
  ghost predicate Serves(queue: Virtqueue, replies: seq<Reply>)
    reads queue
  {
    queue.desc.Length >= 3 && |queue.free| >= 3 && AllAnswer(replies, queue.lastUsedIdx, queue.free[0], queue.free[2])
  }

  lemma ServesNext(queue: Virtqueue, replies: seq<Reply>)
    requires Serves(queue, replies) && replies != []
    ensures replies[0].Honest? && Answered(queue.lastUsedIdx, queue.free[0], replies[0].polls)
    ensures AllAnswer(replies[1..], Consumed(queue.lastUsedIdx, queue.free[0], replies[0].polls), queue.free[2],
              queue.free[0])
  {
  }

  /** The requests for the first `n` sectors were answered by a correct device. */
  predicate HonestFor(replies: seq<Reply>, n: nat)
  {
    forall k :: 0 <= k < |replies| && BOUNCE_SECTORS * k < n ==> replies[k].Honest?
  }

  lemma HonestGrows(replies: seq<Reply>, i: nat, n: nat, chunk: nat)
    requires i < |replies| && n == BOUNCE_SECTORS * i && 0 < chunk <= BOUNCE_SECTORS
    ensures HonestFor(replies, n + chunk) ==> HonestFor(replies, n) && replies[i].Honest?
  {
  }

  /** Where a write ended after `done` acknowledged sectors: all of them on the medium and nothing else; and, if a
      request was sent and failed, its chunk as well if the device was correct and only late, or whatever the device
      did. */
  predicate Stopped(before: seq<Sector>, now: seq<Sector>, src: seq<Sector>, lba: nat, done: nat, status: BlockStatus,
                    replies: seq<Reply>)
  {
    if status in {Success, DeviceFault}
       then Written(before, now, src, lba, done) && (status == Success ==> done == |src|)
    else
      && done < |src| && done % BOUNCE_SECTORS == 0 && done / BOUNCE_SECTORS < |replies|
      && match replies[done / BOUNCE_SECTORS]
         case Honest(_) =>
           status == Timeout
           && Written(before, now, src, lba, if |src| - done > BOUNCE_SECTORS then done + BOUNCE_SECTORS else |src|)
         case Other(_, _, _, medium) => now == medium
  }

  lemma ReversedThree(a: nat, b: nat, c: nat)
    ensures Reversed([a, b, c]) == [c, b, a]
  {
    assert [a, b, c][1..] == [b, c] && [b, c][1..] == [c] && [c][1..] == [];
    assert Reversed([b, c]) == [c, b] by { assert Reversed([c]) == [c]; }
  }

  /** The first `done` sectors of `src` are on the medium from `lba` on, and nothing else changed. */
  predicate Written(before: seq<Sector>, now: seq<Sector>, src: seq<Sector>, lba: nat, done: nat)
  {
    done <= |src| && lba + done <= |before| && now == before[..lba] + src[..done] + before[lba + done..]
  }

  lemma NothingWritten(before: seq<Sector>, src: seq<Sector>, lba: nat)
    requires lba <= |before|
    ensures Written(before, before, src, lba, 0)
  {
  }

  lemma NextCopied(medium: seq<Sector>, lba: nat, sector: nat, chunk: nat, out: seq<Sector>, piece: seq<Sector>)
    requires lba <= sector && sector + chunk <= |medium|
    ensures out == medium[lba..sector] && piece == medium[sector..sector + chunk] ==>
              out + piece == medium[lba..sector + chunk]
  {
    assert medium[lba..sector] + medium[sector..sector + chunk] == medium[lba..sector + chunk];
  }

  lemma NextPiece(before: seq<Sector>, now: seq<Sector>, src: seq<Sector>, lba: nat, done: nat, chunk: nat)
    requires done + chunk <= |src| && lba + |src| <= |before| && Written(before, now, src, lba, done)
    ensures |now| == |before|
    ensures Written(before, now[..lba + done] + src[done..done + chunk] + now[lba + done + chunk..], src, lba,
              done + chunk)
  {
    assert now[..lba + done] == before[..lba] + src[..done];
    assert now[lba + done + chunk..] == before[lba + done + chunk..];
    assert src[..done + chunk] == src[..done] + src[done..done + chunk];
  }

  lemma TwoApart(free: seq<nat>, rest: seq<nat>, x0: nat, x1: nat)
    requires DistinctIndices(free) && |free| >= 2 && free[0] == x0 && free[1] == x1 && rest == free[2..]
    ensures x0 != x1 && x0 !in rest && x1 !in rest
  {
    forall i | 0 <= i < |rest| ensures rest[i] != x0 && rest[i] != x1 { assert rest[i] == free[i + 2]; }
  }

  lemma FlushServes(desc: seq<Desc>, d0: nat, d1: nat, dma: Dma, medium: seq<Sector>)
    requires d0 < |desc| && d1 < |desc| && dma.kind == Flush
    requires desc[d0] == Desc(Header, HEADER_LEN, true, false, d1) && desc[d1] == Desc(Status, 1, false, true, 0)
    ensures Served(desc, d0, dma, medium) == (dma.(status := OK), medium)
  {
  }

  lemma TwoChained(desc: seq<Desc>, free: seq<nat>, x0: nat, x1: nat)
    requires x0 < |desc| && x1 < |desc| && x0 != x1 && x0 !in free && x1 !in free
    requires desc[x0] == Desc(Header, HEADER_LEN, true, false, x1) && desc[x1] == Desc(Status, 1, false, true, 0)
    ensures Request(desc, free, [x0, x1])
  {
  }

  predicate ReplyShaped(reply: Reply, maxPolls: nat, sectors: nat)
  {
    |reply.polls| == maxPolls && (reply.Other? ==> |reply.bounce| == BOUNCE_SECTORS && |reply.medium| == sectors)
  }

  lemma OutsideFree(d0: nat, d1: nat, d2: nat, free: seq<nat>)
    requires DistinctIndices([d0, d1, d2] + free)
    ensures d0 != d1 && d0 != d2 && d1 != d2 && d0 !in free && d1 !in free && d2 !in free
  {
    var all := [d0, d1, d2] + free;
    assert all[0] == d0 && all[1] == d1 && all[2] == d2;
    forall i | 0 <= i < |free| ensures free[i] != d0 && free[i] != d1 && free[i] != d2 { assert all[3 + i] == free[i]; }
  }

  /** A request so set up is one an honest device carries out. */
  lemma SetUpServes(desc: seq<Desc>, d0: nat, d1: nat, d2: nat, kind: Kind, n: nat, dma: Dma, medium: seq<Sector>)
    requires d0 < |desc| && d1 < |desc| && d2 < |desc| && kind != Flush && 0 < n <= |dma.bounce| && dma.kind == kind
    requires desc[d0] == Desc(Header, HEADER_LEN, true, false, d1)
             && desc[d1] == Desc(Bounce, n * SECTOR, true, kind == In, d2)
    requires desc[d2] == Desc(Status, 1, false, true, 0)
    ensures var served := Served(desc, d0, dma, medium);
            && |served.0.bounce| == |dma.bounce| && |served.1| == |medium|
            && (dma.sector + n <= |medium| ==>
                  && served.0.status == OK
                  && (kind == In ==> served.0.bounce[..n] == medium[dma.sector..dma.sector + n] && served.1 == medium)
                  && (kind == Out ==> served.1 == medium[..dma.sector] + dma.bounce[..n] + medium[dma.sector + n..]))
  {
    assert desc[d1].len / SECTOR == n && desc[d1].len % SECTOR == 0;
  }

  lemma FreeDistinct(queue: Virtqueue)
    requires queue.Valid()
    ensures DistinctIndices(queue.free) && forall i :: 0 <= i < |queue.free| ==> queue.free[i] < queue.desc.Length
  {
  }
}
