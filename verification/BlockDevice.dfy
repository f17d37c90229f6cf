/**
 The virtio block device (section 5.2 of OASIS VIRTIO 1.2): requests popped from its queue, served
 against a disk file whose reads and writes may be short or fail, and pushed back as used.
 */
module BlockDevice {
  import opened Base
  import opened GuestMemory
  import opened Virtqueue
  import opened BlockTransfer
  import VirtqueueDevice

  const TYPE_IN: nat := 0
  const TYPE_OUT: nat := 1
  const TYPE_FLUSH: nat := 4
  const STATUS_OK: u8 := 0
  const STATUS_IOERR: u8 := 1
  const STATUS_UNSUPPORTED: u8 := 2

  class BlockDevice {
    const queue: VirtqueueDevice.VirtqueueDevice
    const capacity: nat          // in sectors
    const readonly: bool
    const flushNegotiated: bool
    var disk: seq<u8>
    var memory: Memory
    ghost var popped: seq<nat>   // heads popped so far
    ghost var pushed: seq<nat>   // heads pushed as used so far

    ghost predicate Valid()
      reads this, queue
    {
      queue.Valid() && capacity * SECTOR <= |disk| && capacity <= U64_MAX / SECTOR
    }

    constructor (file: seq<u8>, readOnly: bool, flush: bool, guest: Memory)
      requires |file| < U64
      ensures Valid() && fresh(queue) && disk == file && memory == guest
      ensures capacity == |file| / SECTOR && popped == [] && pushed == []
    {
      queue := new VirtqueueDevice.VirtqueueDevice();
      capacity, readonly, flushNegotiated := |file| / SECTOR, readOnly, flush;
      disk, memory, popped, pushed := file, guest, [], [];
    }

    // ----- The host file -----

    /** The host reads at most what was asked, up to the end of the file; it may also fail. */
    method Pread(offset: nat, want: nat) returns (count: int, data: seq<u8>)
      requires 0 < want
      ensures count <= want
      ensures count > 0 ==> offset + count <= |disk| && data == disk[offset..offset + count]
    {
      count := *;
      if count <= 0 || offset >= |disk| {
        count := if count < 0 then count else 0;
        return count, [];
      }
      count := if count > want then want else count;
      count := if offset + count > |disk| then |disk| - offset else count;
      data := disk[offset..offset + count];
    }

    /** The host writes a prefix of what was given; it may also fail. */
    method Pwrite(offset: nat, data: seq<u8>) returns (count: int)
      requires 0 < |data| && offset + |data| <= |disk|
      modifies this`disk
      ensures count <= |data|
      ensures disk == if count > 0 then Splice(old(disk), offset, data[..count]) else old(disk)
    {
      count := *;
      if count > 0 {
        count := if count > |data| then |data| else count;
        disk := Splice(disk, offset, data[..count]);
      }
    }

    /** Reads until the buffer is full, however short the single reads are. */
    method ReadFully(offset: nat, length: nat) returns (buffer: Option<seq<u8>>)
      requires offset + length <= |disk|
      ensures buffer.Some? ==> buffer.value == disk[offset..offset + length]
    {
      var done: seq<u8> := [];
      while |done| < length
        invariant |done| <= length && done == disk[offset..offset + |done|]
      {
        var count, data := Pread(offset + |done|, length - |done|);
        if count <= 0 {
          return None;
        }
        done := done + data;
      }
      return Some(done);
    }

    /** Writes until the buffer is out, however short the single writes are; a failure leaves a prefix written. */
    method WriteFully(offset: nat, buffer: seq<u8>) returns (ok: bool)
      requires offset + |buffer| <= |disk|
      modifies this`disk
      ensures ok ==> disk == Splice(old(disk), offset, buffer)
      ensures exists n :: 0 <= n <= |buffer| && disk == Splice(old(disk), offset, buffer[..n])
    {
      var done := 0;
      NothingSpliced(disk, offset);
      while done < |buffer|
        invariant 0 <= done <= |buffer| && disk == Splice(old(disk), offset, buffer[..done])
      {
        hide Splice;
        var count := Pwrite(offset + done, buffer[done..]);
        if count <= 0 {
          return false;
        }
        assert buffer[..done + count] == buffer[..done] + buffer[done..][..count];
        SpliceMore(old(disk), offset, buffer[..done], buffer[done..][..count]);
        done := done + count;
      }
      assert buffer[..done] == buffer;
      return true;
    }

    // ----- Transfers -----

    /** Disk to guest, one segment after the other. */
    method TransferIn(links: seq<Link>, offset: nat) returns (r: Result<()>, used: nat)
      requires |links| >= 2 && offset + Total(Segments(links)) <= |disk|
      modifies this`memory
      ensures memory.Keys == old(memory).Keys
      ensures exists k :: 1 <= k <= |links| - 1 && PartlyRead(old(memory), memory, links, k, offset, disk) &&
                          used == Total(SegmentsBefore(links, k)) && (r.Ok? ==> k == |links| - 1)
      ensures r.Err? && NoneEmpty(links) ==> used < Total(Segments(links))
    {
      hide PartlyRead, Total, SegmentsBefore, Mapped;
      used := 0;
      var i := 1;
      NothingRead(memory, links, offset, disk);
      while i + 1 < |links|
        invariant 1 <= i <= |links| - 1
        invariant PartlyRead(old(memory), memory, links, i, offset, disk)
        invariant used == Total(SegmentsBefore(links, i))
      {
        var d := links[i].descriptor;
        SegmentsBeforeNext(links, i);
        SegmentsBeforeBound(links, i + 1, |links| - 1);
        PartlyReadKeys(old(memory), memory, links, i, offset, disk);
        var buffer := ReadFully(offset + used, d.length);
        if buffer.None? {
          return Err(EIO), used;
        }
        if !Mapped(memory, d.address, d.length) {
          return Err(EIO), used;
        }
        ReadOneMore(old(memory), memory, links, i, offset, disk, buffer.value);
        memory := Store(memory, d.address, buffer.value);
        used := used + d.length;
        i := i + 1;
      }
      PartlyReadKeys(old(memory), memory, links, i, offset, disk);
      return Ok(()), used;
    }

    /** Guest to disk, one segment after the other. */
    method TransferOut(links: seq<Link>, offset: nat) returns (r: Result<()>, used: nat)
      requires |links| >= 2 && offset + Total(Segments(links)) <= |disk|
      modifies this`disk
      ensures SameOutside(disk, old(disk), offset, Total(Segments(links)))
      ensures r.Ok? ==> AllMapped(memory, Segments(links)) && used == Total(Segments(links)) &&
                        disk == Splice(old(disk), offset, Gather(memory, Segments(links)))
      ensures r.Err? && NoneEmpty(links) ==> used < Total(Segments(links))
    {
      hide Total, SegmentsBefore, Gather, Load, Splice;
      used := 0;
      var i := 1;
      NothingBefore(links);
      SegmentsBeforeBound(links, 1, |links| - 1);
      NothingSpliced(disk, offset);
      while i + 1 < |links|
        invariant 1 <= i <= |links| - 1 && used == Total(SegmentsBefore(links, i)) <= Total(Segments(links))
        invariant AllMapped(memory, SegmentsBefore(links, i))
        invariant disk == Splice(old(disk), offset, Gather(memory, SegmentsBefore(links, i)))
      {
        var d := links[i].descriptor;
        SegmentsBeforeNext(links, i);
        SegmentsBeforeBound(links, i + 1, |links| - 1);
        if !Mapped(memory, d.address, d.length) {
          SpliceReadsBack(old(disk), offset, Gather(memory, SegmentsBefore(links, i)));
          return Err(EIO), used;
        }
        var buffer := Load(memory, d.address, d.length);
        GatherOneMore(memory, SegmentsBefore(links, i), Segment(d.address, d.length));
        SpliceMore(old(disk), offset, Gather(memory, SegmentsBefore(links, i)), buffer);
        SpliceReadsBack(old(disk), offset, Gather(memory, SegmentsBefore(links, i)));
        ghost var before := disk;
        var ok := WriteFully(offset + used, buffer);
        if !ok {
          PrefixStaysInside(old(disk), before, disk, offset, used, buffer, Total(Segments(links)));
          return Err(EIO), used;
        }
        used := used + d.length;
        i := i + 1;
      }
      SpliceReadsBack(old(disk), offset, Gather(memory, SegmentsBefore(links, i)));
      return Ok(()), used;
    }

    /** Validates a request, then moves its data. A rejected request touches nothing. */
    method Io(links: seq<Link>, toGuest: bool, sector: nat) returns (r: Result<()>, used: nat)
      requires |links| >= 2 && capacity * SECTOR <= |disk|
      modifies this`disk, this`memory
      ensures |disk| == |old(disk)| && memory.Keys == old(memory).Keys
      ensures Accepted(capacity, links, toGuest, sector).None? ==>
                r == Err(EINVAL) && used == 0 && disk == old(disk) && memory == old(memory)
      ensures toGuest ==> disk == old(disk)
      ensures !toGuest ==> memory == old(memory)
      ensures var offset := Accepted(capacity, links, toGuest, sector);
              offset.Some? ==>
                && (r.Ok? ==> used == Total(Segments(links)) && AllMapped(old(memory), Segments(links)))
                && (r.Ok? && toGuest ==>
                      memory == Scatter(old(memory), Segments(links), disk[offset.value..offset.value + Total(Segments(links))]))
                && (r.Ok? && !toGuest ==>
                      disk == Splice(old(disk), offset.value, Gather(old(memory), Segments(links))))
                && SameOutside(disk, old(disk), offset.value, Total(Segments(links)))
                && (r.Err? ==> used < Total(Segments(links)))
    {
      hide Total, SegmentsBefore, Gather, Scatter, Splice;
      var offset := Validate(links, toGuest, sector);
      if offset.None? {
        return Err(EINVAL), 0;
      }
      if toGuest {
        r, used := TransferIn(links, offset.value);
      } else {
        r, used := TransferOut(links, offset.value);
      }
    }

    /**
     A write and a later read of the same sectors. Whatever the two segmentations, whatever short counts the host
     returns, and whatever guest memory became in between: if both succeed, the read finds the bytes written.
     */
    method WriteThenRead(source: seq<Link>, target: seq<Link>, sector: nat, between: Memory) returns (r: Result<()>)
      requires |source| >= 2 && |target| >= 2 && capacity * SECTOR <= |disk|
      requires Total(Segments(source)) == Total(Segments(target)) && PairwiseApart(Segments(target))
      modifies this`disk, this`memory
      ensures r.Ok? ==>
                && AllMapped(old(memory), Segments(source)) && AllMapped(memory, Segments(target))
                && Gather(memory, Segments(target)) == Gather(old(memory), Segments(source))
                && SameOutside(disk, old(disk), sector * SECTOR, Total(Segments(source)))
    {
      hide Total, Segments, Gather, Scatter, Splice, AllMapped, PairwiseApart, SameOutside, Accepted;
      var used: nat;
      r, used := Io(source, false, sector);
      if r.Err? {
        return;
      }
      AcceptedOffset(capacity, source, false, sector);
      memory := between;
      r, used := Io(target, true, sector);
      if r.Ok? {
        AcceptedOffset(capacity, target, true, sector);
        WrittenIsReadBack(old(disk), sector * SECTOR, old(memory), Segments(source), between, Segments(target));
      }
    }

    method Validate(links: seq<Link>, toGuest: bool, sector: nat) returns (offset: Option<nat>)
      requires |links| >= 2
      ensures offset == Accepted(capacity, links, toGuest, sector)
    {
      hide Total, SegmentsBefore;
      var total, i := 0, 1;
      NothingBefore(links);
      while i + 1 < |links|
        invariant 1 <= i <= |links| - 1 && total == Total(SegmentsBefore(links, i))
        invariant forall k :: 1 <= k < i ==> LinkAccepted(links[k], toGuest)
      {
        if !LinkAccepted(links[i], toGuest) {
          return None;
        }
        SegmentsBeforeNext(links, i);
        total := total + links[i].descriptor.length;
        i := i + 1;
      }
      if total == 0 || total % SECTOR != 0 || total >= U32 {
        return None;
      }
      return DiskOffset(capacity, sector, total);
    }

    // ----- Requests -----

    /** Serves one popped request: header, data, status byte, used element. */
    method Process(chain: Chain) returns (r: Result<()>, ghost answer: Answer)
      requires Valid() && queue.ready && chain.head < queue.size
      modifies this`disk, this`memory, this`pushed, queue`nextUsed
      ensures Valid() && |disk| == |old(disk)|
      ensures pushed == if r.Ok? then old(pushed) + [chain.head] else old(pushed)
      ensures r.Ok? ==> UsedOnce(old(queue.View()), queue.View(), memory, chain.head)
      ensures r.Ok? ==>
                answer.disk == disk && Completed(Profile(), old(queue.View()), old(memory), old(disk), chain, answer, memory)
      ensures var readable := WellFormed(chain.links) && Mapped(old(memory), chain.links[0].descriptor.address, 16);
              !readable ==>
                && r == Err(if WellFormed(chain.links) then ENOENT else EPROTO)
                && disk == old(disk) && memory == old(memory) && queue.nextUsed == old(queue.nextUsed)
    {
      hide ValidQueue, Performed, HeaderHolds, Posted, UsedOnce;
      answer := Answer(0, 0, memory, disk);
      IndicesBounded(queue.View());
      if |chain.links| < 2 {
        return Err(EPROTO), answer;
      }
      var header, status := chain.links[0].descriptor, chain.links[|chain.links| - 1].descriptor;
      if header.length < 16 || Writable(header) || status.length == 0 || !Writable(status) {
        return Err(EPROTO), answer;
      }
      var raw := Read(memory, header.address, 16);
      if raw.None? {
        return Err(ENOENT), answer;
      }
      var code, used := Serve(chain.links, Le(raw.value[..4]), Le(raw.value[8..]));
      answer := Answer(code, used, memory, disk);
      forall kind, sector | HeaderHolds(old(memory), header.address, kind, sector)
        ensures Performed(Profile(), kind, sector, chain.links, old(memory), old(disk), answer)
      {
        HeaderIs(old(memory), header.address, kind, sector);
      }
      r := Complete(status.address, code, chain.head, used);
    }

    /** The status byte, then the used element. */
    method Complete(status: nat, code: u8, head: u16, used: u32) returns (r: Result<()>)
      requires Valid() && queue.ready && head < queue.size
      modifies this`memory, this`pushed, queue`nextUsed
      ensures Valid()
      ensures pushed == if r.Ok? then old(pushed) + [head] else old(pushed)
      ensures r.Ok? ==>
                && status in old(memory) && queue.size > 0 && RingMapped(old(queue.View()), old(memory))
                && UsedOnce(old(queue.View()), queue.View(), memory, head)
                && memory == Posted(old(queue.View()), old(memory), status, code, head, used)
    {
      hide ValidQueue, PushUsed, Store, Posted, RingMapped;
      if !Mapped(memory, status, 1) {
        return Err(ENOENT);
      }
      memory := Store(memory, status, [code]);
      var elementWorks: bool, indexWorks: bool := *, *;
      ghost var before := memory;
      memory, r := queue.Push(memory, head, used, elementWorks, indexWorks);
      if r.Ok? {
        pushed := pushed + [head];
        CompletedBytes(old(queue.View()), old(memory), status, code, head, used, elementWorks, indexWorks);
        assert UsedWith(old(queue.View()), queue.View(), before, memory, head, used);
      }
    }

    ghost function Profile(): (p: Properties)
    {
      Properties(capacity, readonly, flushNegotiated)
    }

    /** The request by type; the answer is the status byte and the reported length. */
    method Serve(links: seq<Link>, kind: nat, sector: nat) returns (code: u8, used: u32)
      requires Valid() && |links| >= 2
      modifies this`disk, this`memory
      ensures Valid() && |disk| == |old(disk)|
      ensures Performed(Profile(), kind, sector, links, old(memory), old(disk), Answer(code, used, memory, disk))
    {
      hide Total, Segments, SegmentsBefore, Gather, Scatter, Splice;
      code, used := STATUS_UNSUPPORTED, 0;
      if kind == TYPE_IN || kind == TYPE_OUT {
        if kind == TYPE_OUT && readonly {
          code := STATUS_IOERR;
        } else {
          var r, moved := Io(links, kind == TYPE_IN, sector);
          code := if r.Err? then STATUS_IOERR else STATUS_OK;
          used := moved % U32;
          AcceptedExact(capacity, links, kind == TYPE_IN, sector);
        }
      } else if kind == TYPE_FLUSH && flushNegotiated {
        var synced: bool := *;
        code := if synced then STATUS_OK else STATUS_IOERR;
      }
    }

    /** One round of the notification loop. */
    method ServeNext() returns (round: Round, ghost chain: Chain, ghost answer: Answer)
      requires Valid() && queue.ready
      modifies this`disk, this`memory, this`popped, this`pushed, queue`lastAvail, queue`nextUsed
      ensures Valid()
      ensures popped == old(popped) + (if round.Served? || round.RequestFailed? then [round.head] else [])
      ensures pushed == old(pushed) + (if round.Served? then [round.head] else [])
      ensures queue.lastAvail ==
              if round.Served? || round.RequestFailed? then (old(queue.lastAvail) + 1) % U16 else old(queue.lastAvail)
      ensures round.Served? ==> queue.nextUsed == (old(queue.nextUsed) + 1) % U16
      ensures round.Empty? || round.PopFailed? ==>
                queue.nextUsed == old(queue.nextUsed) && memory == old(memory) && disk == old(disk)
      ensures round.Empty? <==> Pop(old(queue.View()), old(memory)).1 == Err(EAGAIN)
      ensures round.Served? ==>
                && Pop(old(queue.View()), old(memory)).1 == Ok(chain) && chain.head == round.head && answer.disk == disk
                && Completed(Profile(), old(queue.View()), old(memory), old(disk), chain, answer, memory)
    {
      hide ValidQueue, Pop, PushUsed, Performed, HeaderHolds, Posted;
      ghost var before := queue.View();
      chain, answer := Chain(0, []), Answer(0, 0, memory, disk);
      var next := queue.PopChain(memory);
      PopAdvances(before, memory);
      if next.Err? {
        round := if next.error == EAGAIN then Empty else PopFailed(next.error);
        return;
      }
      chain := next.value;
      popped := popped + [next.value.head];
      ghost var served := queue.View();
      var r;
      r, answer := Process(next.value);
      if r.Err? {
        round := RequestFailed(next.value.head, r.error);
        return;
      }
      UsedOnceAdvances(served, queue.View(), memory, next.value.head);
      SamePosting(before, served, answer.served, chain.links[|chain.links| - 1].descriptor.address, answer.code,
                  chain.head, answer.used);
      round := Served(next.value.head);
    }

    /**
     Pops and serves requests until the queue is empty. The loop has no bound of its own: a guest can make
     a request rewrite its available ring. `budget` bounds the rounds; no answer means it ran out.
     Without an error, the heads pushed are exactly the heads popped, in order; with one, at most the last
     popped head is missing.
     */
    method Notify(budget: nat) returns (answer: Option<Result<()>>, ghost heads: seq<nat>, ghost rejected: seq<nat>)
      requires Valid() && queue.ready
      modifies this`disk, this`memory, this`popped, this`pushed, queue`lastAvail, queue`nextUsed
      ensures Valid()
      ensures popped == old(popped) + heads + rejected && pushed == old(pushed) + heads
      ensures |rejected| <= 1 && (answer == Some(Ok(())) ==> rejected == [])
      ensures queue.lastAvail == (old(queue.lastAvail) + |heads| + |rejected|) % U16
      ensures answer == Some(Ok(())) ==> queue.nextUsed == (old(queue.nextUsed) + |heads|) % U16
    {
      hide ValidQueue, Completed, Pop;
      heads, rejected := [], [];
      var count := 0;
      IndicesBounded(queue.View());
      while count < budget
        invariant Valid() && queue.ready && rejected == []
        invariant popped == old(popped) + heads && pushed == old(pushed) + heads
        invariant queue.lastAvail == (old(queue.lastAvail) + |heads|) % U16
        invariant queue.nextUsed == (old(queue.nextUsed) + |heads|) % U16
      {
        var round;
        ghost var chain, done;
        round, chain, done := ServeNext();
        NextCount(old(queue.nextUsed) + |heads|);
        NextCount(old(queue.lastAvail) + |heads|);
        match round {
          case Empty =>
            var raised: bool := *;
            answer := Some(if count == 0 || raised then Ok(()) else Err(EIO));
            return;
          case PopFailed(error) =>
            answer := Some(Err(error));
            return;
          case RequestFailed(head, error) =>
            rejected := [head];
            answer := Some(Err(error));
            return;
          case Served(head) =>
            heads := heads + [head];
            count := count + 1;
        }
      }
      answer := None;
    }
  }

  /** What of a device its requests depend on. */
  datatype Properties = Properties(capacity: nat, readonly: bool, flush: bool)

  /** What serving a request came to: status, reported length, guest memory after the transfer, and disk. */
  datatype Answer = Answer(code: nat, used: nat, served: Memory, disk: seq<u8>)

  /** A readable header of at least 16 bytes comes first, and a writable status byte last. */
  ghost predicate WellFormed(links: seq<Link>) {
    && |links| >= 2
    && var header, status := links[0].descriptor, links[|links| - 1].descriptor;
    && header.length >= 16 && header.flags / 2 % 2 == 0 && status.length > 0 && status.flags / 2 % 2 == 1
  }

  /** The request header in memory: the type in four bytes, and the sector in the last eight of sixteen. */
  ghost predicate HeaderHolds(m: Memory, address: nat, kind: nat, sector: nat) {
    && kind < U32 && sector < U64
    && var raw := Read(m, address, 16);
    && raw.Some? && raw.value[..4] == Bytes(kind, 4) && raw.value[8..] == Bytes(sector, 8)
  }

  lemma HeaderIs(m: Memory, address: nat, kind: nat, sector: nat)
    requires HeaderHolds(m, address, kind, sector)
    ensures Le(Read(m, address, 16).value[..4]) == kind && Le(Read(m, address, 16).value[8..]) == sector
  {
    hide Le, Bytes, Power256;
    PowersOf256();
    LeExact(Read(m, address, 16).value[..4], kind);
    LeExact(Read(m, address, 16).value[8..], sector);
  }

  /** The status bytes: 0 for success, 1 for an error, 2 for an unsupported request. */
  ghost predicate Performed(p: Properties, kind: nat, sector: nat, links: seq<Link>, m: Memory, disk: seq<u8>, a: Answer)
    requires |links| >= 2
  {
    var data, total, first := Segments(links), Total(Segments(links)), sector * 512;
    var untouched := a.served == m && a.disk == disk;
    if kind == 0 then
      && (a.code == 0 || a.code == 1) && a.disk == disk
      && (Accepted(p.capacity, links, true, sector).None? ==> a.code == 1 && untouched && a.used == 0)
      && (Accepted(p.capacity, links, true, sector).Some? && a.code == 1 ==> a.used < total)
      && (a.code == 0 ==>
            && first + total <= p.capacity * 512 && first + total <= |disk| && AllMapped(m, data) && a.used == total
            && a.served == Scatter(m, data, disk[first..first + total]))
    else if kind == 1 && p.readonly then a.code == 1 && untouched && a.used == 0
    else if kind == 1 then
      && (a.code == 0 || a.code == 1) && a.served == m
      && (Accepted(p.capacity, links, false, sector).None? ==> a.code == 1 && untouched && a.used == 0)
      && (Accepted(p.capacity, links, false, sector).Some? && a.code == 1 ==>
            a.used < total && SameOutside(a.disk, disk, first, total))
      && (a.code == 0 ==>
            && first + total <= p.capacity * 512 && first + total <= |disk| && AllMapped(m, data) && a.used == total
            && a.disk == Splice(disk, first, Gather(m, data)))
    else if kind == 4 && p.flush then (a.code == 0 || a.code == 1) && untouched && a.used == 0
    else a.code == 2 && untouched && a.used == 0
  }

  /** Guest memory after the answer: the status byte, then the used element, then the used index. */
  function Posted(q: Queue, served: Memory, status: nat, code: nat, head: nat, used: nat): Memory
    requires q.size > 0 && code < U8
  {
    var element := q.used + 4 + 8 * (q.nextUsed % q.size);
    Store(Store(Store(served, status, [code]), element, Bytes(head, 4) + Bytes(used, 4)),
          q.used + 2, Bytes((q.nextUsed + 1) % U16, 2))
  }

  /** The used slot in turn and the used index lie in mapped memory. */
  ghost predicate RingMapped(q: Queue, m: Memory)
    requires q.size > 0
  {
    Mapped(m, q.used + 4 + 8 * (q.nextUsed % q.size), 8) && Mapped(m, q.used + 2, 2)
  }

  /** A request as its bytes in memory describe it was performed, and its answer posted. */
  ghost predicate Completed(p: Properties, q: Queue, m: Memory, disk: seq<u8>, chain: Chain, a: Answer, m': Memory) {
    && WellFormed(chain.links) && q.size > 0 && a.code < U8
    && var header, status := chain.links[0].descriptor, chain.links[|chain.links| - 1].descriptor;
    && Mapped(m, header.address, 16) && status.address in a.served && RingMapped(q, a.served)
    && (forall kind, sector :: HeaderHolds(m, header.address, kind, sector) ==>
          Performed(p, kind, sector, chain.links, m, disk, a))
    && m' == Posted(q, a.served, status.address, a.code, chain.head, a.used)
  }

  /**
   The driver finds the head and the moved length in the used element, and the index advanced. It finds the status
   where the last descriptor points, unless the ring itself lies there. The answer writes nothing else.
   */
  lemma AnswerIsSeen(p: Properties, q: Queue, m: Memory, disk: seq<u8>, chain: Chain, a: Answer, m': Memory)
    requires Completed(p, q, m, disk, chain, a, m')
    ensures var status, element := chain.links[|chain.links| - 1].descriptor.address, q.used + 4 + 8 * (q.nextUsed % q.size);
            && m'.Keys == a.served.Keys
            && Read(m', element, 8) == Some(Bytes(chain.head, 4) + Bytes(a.used, 4))
            && Read(m', q.used + 2, 2) == Some(Bytes((q.nextUsed + 1) % U16, 2))
            && (forall x :: x in m' && !(q.used + 2 <= x < q.used + 4) && !(element <= x < element + 8) ==>
                  m'[x] == if x == status then a.code else a.served[x])
  {
    hide Performed, HeaderHolds, Bytes, Store, Read;
    var status, element := chain.links[|chain.links| - 1].descriptor.address, q.used + 4 + 8 * (q.nextUsed % q.size);
    StoredInTurn(a.served, status, a.code, element, Bytes(chain.head, 4) + Bytes(a.used, 4),
                 q.used + 2, Bytes((q.nextUsed + 1) % U16, 2));
  }

  lemma StoredInTurn(m: Memory, status: nat, code: u8, element: nat, used: seq<u8>, at: nat, index: seq<u8>)
    requires Mapped(m, element, |used|) && Mapped(m, at, |index|) && at + |index| <= element
    ensures var m' := Store(Store(Store(m, status, [code]), element, used), at, index);
            && m'.Keys == m.Keys && Read(m', element, |used|) == Some(used) && Read(m', at, |index|) == Some(index)
            && (forall x :: x in m' && !(at <= x < at + |index|) && !(element <= x < element + |used|) ==>
                  m'[x] == if x == status then code else m[x])
  {
    hide Store;
    var m1 := Store(m, status, [code]);
    var m2 := Store(m1, element, used);
    LoadStored(m1, element, used);
    LoadStored(m2, at, index);
    LoadDisjoint(m2, at, index, element, |used|);
  }

  lemma PushedBytes(q: Queue, m: Memory, head: u16, length: u32, elementWorks: bool, indexWorks: bool)
    requires ValidQueue(q) && PushUsed(q, m, head, length, elementWorks, indexWorks).result.Ok?
    ensures q.size > 0 && elementWorks && indexWorks && RingMapped(q, m)
    ensures PushUsed(q, m, head, length, elementWorks, indexWorks).result == Ok(())
    ensures PushUsed(q, m, head, length, elementWorks, indexWorks).memory ==
            Store(Store(m, q.used + 4 + 8 * (q.nextUsed % q.size), Bytes(head, 4) + Bytes(length, 4)),
                  q.used + 2, Bytes((q.nextUsed + 1) % U16, 2))
  {
    hide Bytes, Store, Mapped;
    SameMapped(m, q.used + 4 + 8 * (q.nextUsed % q.size), Bytes(head, 4) + Bytes(length, 4), q.used + 2, 2);
  }

  lemma SameMapped(m: Memory, address: nat, data: seq<u8>, other: nat, length: nat)
    ensures Mapped(Store(m, address, data), other, length) <==> Mapped(m, other, length)
  {
  }

  lemma CompletedBytes(q: Queue, m: Memory, status: nat, code: u8, head: u16, used: u32, elementWorks: bool, indexWorks: bool)
    requires ValidQueue(q) && PushUsed(q, Store(m, status, [code]), head, used, elementWorks, indexWorks).result.Ok?
    ensures q.size > 0 && RingMapped(q, m)
    ensures PushUsed(q, Store(m, status, [code]), head, used, elementWorks, indexWorks) ==
            PushUsed(q, Store(m, status, [code]), head, used, true, true)
    ensures PushUsed(q, Store(m, status, [code]), head, used, true, true).result == Ok(())
    ensures PushUsed(q, Store(m, status, [code]), head, used, true, true).memory == Posted(q, m, status, code, head, used)
  {
    hide ValidQueue, PushUsed, Bytes, Store, Mapped;
    PushedBytes(q, Store(m, status, [code]), head, used, elementWorks, indexWorks);
    SameMapped(m, status, [code], q.used + 4 + 8 * (q.nextUsed % q.size), 8);
    SameMapped(m, status, [code], q.used + 2, 2);
  }

  datatype Round = Served(head: nat) | Empty | PopFailed(error: Errno) | RequestFailed(head: nat, error: Errno)

  /** The used element of a head was written and its index published. */
  ghost predicate UsedWith(before: Queue, after: Queue, m: Memory, m': Memory, head: nat, length: nat)
  {
    && ValidQueue(before) && head < U16 && length < U32
    && PushUsed(before, m, head, length, true, true) == Pushed(after, m', Ok(()))
  }

  ghost predicate UsedOnce(before: Queue, after: Queue, m': Memory, head: nat) {
    exists m: Memory, length: nat :: UsedWith(before, after, m, m', head, length)
  }

  lemma AcceptedOffset(capacity: nat, links: seq<Link>, toGuest: bool, sector: nat)
    requires |links| >= 2
    ensures var offset := Accepted(capacity, links, toGuest, sector);
            offset.Some? ==> offset.value == sector * SECTOR && offset.value + Total(Segments(links)) <= capacity * SECTOR
  {
    hide Total, Segments;
  }

  /** Where an answer is posted does not depend on the available side of the queue. */
  lemma SamePosting(q: Queue, q': Queue, m: Memory, status: nat, code: u8, head: nat, used: nat)
    requires 0 < q'.size == q.size && q'.used == q.used && q'.nextUsed == q.nextUsed
    ensures Posted(q', m, status, code, head, used) == Posted(q, m, status, code, head, used)
  {
    hide Store, Bytes;
  }

  lemma UsedOnceAdvances(before: Queue, after: Queue, m': Memory, head: nat)
    requires UsedOnce(before, after, m', head)
    ensures after.nextUsed == (before.nextUsed + 1) % U16
  {
  }

  lemma IndicesBounded(q: Queue)
    requires ValidQueue(q)
    ensures q.lastAvail < U16 && q.nextUsed < U16 && (q.ready ==> 0 < q.size < U16)
  {
  }

  lemma PopAdvances(q: Queue, m: Memory)
    requires ValidQueue(q)
    ensures var (q', r) := Pop(q, m);
            && q' == (if r.Ok? then q.(lastAvail := (q.lastAvail + 1) % U16) else q)
            && (r.Ok? ==> r.value.head < q.size)
  {
    hide Follow;
  }

  /** A prefix of a segment's bytes, written behind earlier segments, stays inside the request's range. */
  lemma PrefixStaysInside(first: seq<u8>, before: seq<u8>, after: seq<u8>, offset: nat, used: nat, buffer: seq<u8>, total: nat)
    requires SameOutside(before, first, offset, used) && used + |buffer| <= total
    requires offset + used + |buffer| <= |before|
    requires exists n :: 0 <= n <= |buffer| && after == Splice(before, offset + used, buffer[..n])
    ensures SameOutside(after, first, offset, total)
  {
    var n :| 0 <= n <= |buffer| && after == Splice(before, offset + used, buffer[..n]);
    SpliceReadsBack(before, offset + used, buffer[..n]);
  }

  lemma NothingSpliced(disk: seq<u8>, offset: nat)
    requires offset <= |disk|
    ensures Splice(disk, offset, []) == disk
  {
  }

  lemma NothingBefore(links: seq<Link>)
    requires |links| >= 1
    ensures SegmentsBefore(links, 1) == [] && Total(SegmentsBefore(links, 1)) == 0
    ensures forall m :: Gather(m, SegmentsBefore(links, 1)) == []
  {
  }

  /** The first k - 1 data segments have been read from the disk into guest memory. */
  ghost predicate PartlyRead(before: Memory, after: Memory, links: seq<Link>, k: nat, offset: nat, disk: seq<u8>) {
    && 1 <= k <= |links| && offset + Total(SegmentsBefore(links, k)) <= |disk|
    && AllMapped(before, SegmentsBefore(links, k))
    && after == Scatter(before, SegmentsBefore(links, k), disk[offset..offset + Total(SegmentsBefore(links, k))])
  }

  lemma NothingRead(m: Memory, links: seq<Link>, offset: nat, disk: seq<u8>)
    requires |links| >= 2 && offset + Total(Segments(links)) <= |disk|
    ensures PartlyRead(m, m, links, 1, offset, disk) && Total(SegmentsBefore(links, 1)) == 0
  {
    NothingBefore(links);
    assert Scatter(m, [], []) == m;
  }

  lemma PartlyReadKeys(before: Memory, after: Memory, links: seq<Link>, k: nat, offset: nat, disk: seq<u8>)
    requires PartlyRead(before, after, links, k, offset, disk)
    ensures after.Keys == before.Keys
  {
  }

  lemma ReadOneMore(before: Memory, after: Memory, links: seq<Link>, i: nat, offset: nat, disk: seq<u8>, buffer: seq<u8>)
    requires i < |links| && PartlyRead(before, after, links, i, offset, disk)
    requires var d, sofar := links[i].descriptor, Total(SegmentsBefore(links, i));
             && offset + sofar + d.length <= |disk| && buffer == disk[offset + sofar..offset + sofar + d.length]
             && Mapped(after, d.address, d.length)
    ensures PartlyRead(before, Store(after, links[i].descriptor.address, buffer), links, i + 1, offset, disk)
  {
    hide Store, Scatter, Total, SegmentsBefore;
    var d, sofar := links[i].descriptor, Total(SegmentsBefore(links, i));
    var one := Segment(d.address, d.length);
    SegmentsBeforeNext(links, i);
    ScatterOne(after, one, buffer);
    ScatterAppend(before, SegmentsBefore(links, i), [one], disk[offset..offset + sofar], buffer);
    assert disk[offset..offset + sofar] + buffer == disk[offset..offset + sofar + d.length];
    assert Mapped(before, d.address, d.length);
  }

  lemma GatherOneMore(m: Memory, segments: seq<Segment>, s: Segment)
    requires AllMapped(m, segments) && Mapped(m, s.address, s.length)
    ensures AllMapped(m, segments + [s])
    ensures Gather(m, segments + [s]) == Gather(m, segments) + Load(m, s.address, s.length)
  {
    hide Load;
    GatherAppend(m, segments, [s]);
    assert Gather(m, [s]) == Load(m, s.address, s.length) + Gather(m, []);
  }
}
