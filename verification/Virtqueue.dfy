/**
 The split virtqueue (section 2.7 of OASIS VIRTIO 1.2): popping descriptor chains and pushing used elements
 over 16-bit free-running ring indices.
 */
module Virtqueue {
  import opened Base
  import opened GuestMemory

  const MAX_QUEUE_SIZE: nat := 1024

  datatype Descriptor = Descriptor(address: nat, length: nat, flags: nat, next: nat)

  /** A descriptor of a chain, and its index in the table. */
  datatype Link = Link(index: nat, descriptor: Descriptor)

  datatype Chain = Chain(head: nat, links: seq<Link>)

  datatype Queue = Queue(
    size: nat, lastAvail: nat, nextUsed: nat,
    descriptors: nat, available: nat, used: nat, ready: bool)

  predicate Next(d: Descriptor) { d.flags % 2 == 1 }
  predicate Writable(d: Descriptor) { d.flags / 2 % 2 == 1 }
  predicate Indirect(d: Descriptor) { d.flags / 4 % 2 == 1 }

  predicate IsPowerOfTwo(n: nat) {
    n == 1 || (n > 1 && n % 2 == 0 && IsPowerOfTwo(n / 2))
  }

  /** The last byte of a range is still a 64-bit address. */
  predicate RangeValid(address: nat, size: nat) {
    size == 0 || address <= U64_MAX - (size - 1)
  }

  ghost predicate ValidQueue(q: Queue) {
    && q.lastAvail < U16 && q.nextUsed < U16
    && (q.ready ==>
          && 0 < q.size <= MAX_QUEUE_SIZE && IsPowerOfTwo(q.size)
          && RangeValid(q.descriptors, q.size * 16)
          && RangeValid(q.available, 4 + q.size * 2)
          && RangeValid(q.used, 4 + q.size * 8))
  }

  function Configure(q: Queue, size: u16, descriptors: u64, available: u64, used: u64): (Queue, Result<()>) {
    if size == 0 || size > MAX_QUEUE_SIZE || !IsPowerOfTwo(size) ||
       descriptors % 16 != 0 || available % 2 != 0 || used % 4 != 0 then (q, Err(EINVAL))
    else if q.ready then (q, Err(EBUSY))
    else if !RangeValid(descriptors, size * 16) || !RangeValid(available, 4 + size * 2) || !RangeValid(used, 4 + size * 8)
      then (q, Err(EOVERFLOW))
    else (Queue(size, 0, 0, descriptors, available, used, true), Ok(()))
  }

  function Reset(q: Queue): Queue { q.(ready := false, size := 0, lastAvail := 0, nextUsed := 0) }

  /** Exactly which configurations are accepted, and that the queue is then the one described, at its start. */
  lemma ConfigureExact(q: Queue, size: u16, descriptors: u64, available: u64, used: u64)
    ensures var (q', r) := Configure(q, size, descriptors, available, used);
            && (r.Ok? <==>
                  && size in {1, 2, 4, 8, 16, 32, 64, 128, 256, 512, 1024} && !q.ready
                  && descriptors % 16 == 0 && available % 2 == 0 && used % 4 == 0
                  && descriptors + 16 * size <= U64 && available + 4 + 2 * size <= U64 && used + 4 + 8 * size <= U64)
            && (r.Ok? ==>
                  && q'.ready && q'.size == size && q'.lastAvail == 0 && q'.nextUsed == 0
                  && q'.descriptors == descriptors && q'.available == available && q'.used == used)
            && (r.Err? ==> q' == q)
  {
    if size in {1, 2, 4, 8, 16, 32, 64, 128, 256, 512, 1024} {
      PowersAreSmall();
    } else if 0 < size <= 1024 && IsPowerOfTwo(size) {
      SmallPowers(size);
    }
    hide IsPowerOfTwo;
  }

  lemma PowersAreSmall()
    ensures forall size :: size in {1, 2, 4, 8, 16, 32, 64, 128, 256, 512, 1024} ==> IsPowerOfTwo(size)
  {
    assert IsPowerOfTwo(1) && IsPowerOfTwo(2) && IsPowerOfTwo(4) && IsPowerOfTwo(8) && IsPowerOfTwo(16) && IsPowerOfTwo(32);
    assert IsPowerOfTwo(64) && IsPowerOfTwo(128) && IsPowerOfTwo(256) && IsPowerOfTwo(512) && IsPowerOfTwo(1024);
  }

  /** After a reset a queue answers nothing, and configures like any other queue that is not in use. */
  lemma ResetForgets(q: Queue, other: Queue, m: Memory, size: u16, descriptors: u64, available: u64, used: u64)
    requires ValidQueue(q) && ValidQueue(other) && !other.ready
    ensures ValidQueue(Reset(q)) && Pop(Reset(q), m) == (Reset(q), Err(ENODEV))
    ensures PushUsed(Reset(q), m, 0, 0, true, true) == Pushed(Reset(q), m, Err(ENODEV))
    ensures var (after, r) := Configure(Reset(q), size, descriptors, available, used);
            && r == Configure(other, size, descriptors, available, used).1 && r != Err(EBUSY)
            && (r.Ok? ==> after == Configure(other, size, descriptors, available, used).0)
  {
  }

  // ----- Descriptor chains -----

  function Decode(raw: seq<u8>): Descriptor
    requires |raw| == 16
  {
    Descriptor(Le(raw[..8]), Le(raw[8..12]), Le(raw[12..14]), Le(raw[14..]))
  }

  function ReadDescriptor(m: Memory, q: Queue, index: nat): Option<Descriptor> {
    match Read(m, q.descriptors + index * 16, 16)
    case None => None
    case Some(raw) => Some(Decode(raw))
  }

  /** The sixteen bytes of a descriptor lie in its slot of the table: address, length, flags, next. */
  ghost predicate Stored(m: Memory, q: Queue, index: nat, d: Descriptor) {
    && d.address < U64 && d.length < U32 && d.flags < U16 && d.next < U16
    && Read(m, q.descriptors + 16 * index, 16) ==
       Some(Bytes(d.address, 8) + Bytes(d.length, 4) + Bytes(d.flags, 2) + Bytes(d.next, 2))
  }

  /** What is read as a descriptor is exactly what is stored. */
  lemma DescriptorExact(m: Memory, q: Queue, index: nat, d: Descriptor)
    ensures ReadDescriptor(m, q, index) == Some(d) <==> Stored(m, q, index, d)
  {
    var raw := Read(m, q.descriptors + 16 * index, 16);
    if raw.Some? {
      DecodeExact(raw.value, d);
    }
    hide Decode, Bytes, Read;
  }

  lemma DecodeExact(raw: seq<u8>, d: Descriptor)
    requires |raw| == 16
    ensures Decode(raw) == d <==>
            && d.address < U64 && d.length < U32 && d.flags < U16 && d.next < U16
            && raw == Bytes(d.address, 8) + Bytes(d.length, 4) + Bytes(d.flags, 2) + Bytes(d.next, 2)
  {
    hide Le, Bytes, Power256;
    PowersOf256();
    LeExact(raw[..8], d.address);
    LeExact(raw[8..12], d.length);
    LeExact(raw[12..14], d.flags);
    LeExact(raw[14..], d.next);
    assert raw == raw[..8] + raw[8..12] + raw[12..14] + raw[14..];
    var whole := Bytes(d.address, 8) + Bytes(d.length, 4) + Bytes(d.flags, 2) + Bytes(d.next, 2);
    assert whole[..8] == Bytes(d.address, 8) && whole[8..12] == Bytes(d.length, 4);
    assert whole[12..14] == Bytes(d.flags, 2) && whole[14..] == Bytes(d.next, 2);
  }

  ghost function Unvisited(size: nat, visited: set<nat>): set<nat> {
    set i: nat | i < size && i !in visited
  }

  /** The loop of the pop: follows NEXT links, and stops with an error on a repeated index. */
  function Follow(m: Memory, q: Queue, index: nat, visited: set<nat>): (r: Result<seq<Link>>)
    requires index < q.size
    ensures r.Ok? ==> |r.value| > 0
    decreases Unvisited(q.size, visited)
  {
    if index in visited then Err(ELOOP)
    else
      match ReadDescriptor(m, q, index)
      case None => Err(ENOENT)
      case Some(d) =>
        if Indirect(d) then Err(ENOTSUP)
        else if d.flags >= 8 then Err(EPROTO)
        else if !Next(d) then Ok([Link(index, d)])
        else if d.next >= q.size || |visited| + 1 == MAX_QUEUE_SIZE then Err(EPROTO)
        else
          assert index in Unvisited(q.size, visited);
          assert index !in Unvisited(q.size, visited + {index});
          match Follow(m, q, d.next, visited + {index})
          case Err(error) => Err(error)
          case Ok(links) => Ok([Link(index, d)] + links)
  }

  /** One round of the loop. */
  lemma FollowStep(m: Memory, q: Queue, index: nat, visited: set<nat>)
    requires index < q.size
    ensures var r, d := Follow(m, q, index, visited), ReadDescriptor(m, q, index);
            if index in visited then r == Err(ELOOP)
            else if d.None? then r == Err(ENOENT)
            else if Indirect(d.value) then r == Err(ENOTSUP)
            else if d.value.flags >= 8 then r == Err(EPROTO)
            else if !Next(d.value) then r == Ok([Link(index, d.value)])
            else if d.value.next >= q.size || |visited| + 1 == MAX_QUEUE_SIZE then r == Err(EPROTO)
            else
              var rest := Follow(m, q, d.value.next, visited + {index});
              r == if rest.Ok? then Ok([Link(index, d.value)] + rest.value) else rest
  {
    hide ReadDescriptor, Indirect, Next;
  }

  /**
   Independent of the walk, on the bytes in memory: a path from `head` through the descriptor table, over pairwise
   distinct indices within the queue, with flag bit 0 on all descriptors but the last and no other flag than bit 1.
   */
  ghost predicate IsChain(m: Memory, q: Queue, head: nat, links: seq<Link>) {
    && links != [] && links[0].index == head
    && (forall i :: 0 <= i < |links| ==>
          links[i].index < q.size && Stored(m, q, links[i].index, links[i].descriptor) && links[i].descriptor.flags < 4)
    && (forall i :: 0 <= i < |links| ==> (links[i].descriptor.flags % 2 == 1 <==> i + 1 < |links|))
    && (forall i :: 0 <= i < |links| - 1 ==> links[i].descriptor.next == links[i + 1].index)
    && (forall i, j :: 0 <= i < j < |links| ==> links[i].index != links[j].index)
  }

  /** A chain whose indices avoid the visited set. */
  ghost predicate Avoids(links: seq<Link>, visited: set<nat>) {
    forall i :: 0 <= i < |links| ==> links[i].index !in visited
  }

  lemma {:induction false} FollowIsChain(m: Memory, q: Queue, index: nat, visited: set<nat>)
    requires index < q.size && Follow(m, q, index, visited).Ok?
    ensures var links := Follow(m, q, index, visited).value;
            IsChain(m, q, index, links) && Avoids(links, visited)
    decreases Unvisited(q.size, visited)
  {
    hide ReadDescriptor, Stored;
    var d := ReadDescriptor(m, q, index).value;
    DescriptorExact(m, q, index, d);
    assert d.flags < 4 && (Next(d) <==> d.flags % 2 == 1);
    hide Indirect, Next;
    if d.flags % 2 == 1 {
      assert index in Unvisited(q.size, visited);
      assert index !in Unvisited(q.size, visited + {index});
      FollowIsChain(m, q, d.next, visited + {index});
      var rest := Follow(m, q, d.next, visited + {index}).value;
      var links := [Link(index, d)] + rest;
      assert Follow(m, q, index, visited) == Ok(links);
      assert forall i :: 0 < i < |links| ==> links[i] == rest[i - 1];
      assert forall i :: 0 < i < |links| ==> links[i].index !in visited + {index};
    }
  }

  lemma {:induction false} ChainIsFollowed(m: Memory, q: Queue, index: nat, visited: set<nat>, links: seq<Link>)
    requires index < q.size <= MAX_QUEUE_SIZE && IsChain(m, q, index, links) && Avoids(links, visited)
    requires |visited| + |links| <= q.size
    ensures Follow(m, q, index, visited) == Ok(links)
    decreases |links|
  {
    hide ReadDescriptor, Stored;
    var d := links[0].descriptor;
    assert links[0] == Link(index, d);
    DescriptorExact(m, q, index, d);
    assert !Indirect(d) && (Next(d) <==> d.flags % 2 == 1);
    hide Indirect, Next;
    if |links| > 1 {
      ChainTail(m, q, index, visited, links);
      hide IsChain, Avoids;
      ChainIsFollowed(m, q, d.next, visited + {index}, links[1..]);
      assert links == [Link(index, d)] + links[1..];
    } else {
      assert links == [Link(index, d)];
    }
  }

  lemma ChainTail(m: Memory, q: Queue, index: nat, visited: set<nat>, links: seq<Link>)
    requires IsChain(m, q, index, links) && Avoids(links, visited) && |links| > 1
    ensures var d := links[0].descriptor;
            && d.next < q.size && d.flags % 2 == 1 && index !in visited
            && IsChain(m, q, d.next, links[1..]) && Avoids(links[1..], visited + {index})
            && |visited + {index}| == |visited| + 1
  {
    hide Stored;
    var rest := links[1..];
    assert forall i :: 0 <= i < |rest| ==> rest[i] == links[i + 1];
    assert links[0].descriptor.next == links[1].index && links[1].index < q.size;
  }

  /** Pairwise distinct indices below a bound are no more than the bound. */
  lemma {:induction false} DistinctBound(links: seq<Link>, size: nat)
    requires forall i :: 0 <= i < |links| ==> links[i].index < size
    requires forall i, j :: 0 <= i < j < |links| ==> links[i].index != links[j].index
    ensures |links| <= size
  {
    var indices := set i | 0 <= i < |links| :: links[i].index;
    DistinctCount(links);
    RangeCount(indices, size);
  }

  lemma {:induction false} DistinctCount(links: seq<Link>)
    requires forall i, j :: 0 <= i < j < |links| ==> links[i].index != links[j].index
    ensures |(set i | 0 <= i < |links| :: links[i].index)| == |links|
  {
    var all := set i | 0 <= i < |links| :: links[i].index;
    if links != [] {
      var front := links[..|links| - 1];
      var last := links[|links| - 1].index;
      DistinctCount(front);
      var some := set i | 0 <= i < |front| :: front[i].index;
      assert all == some + {last} by {
        forall x | x in all ensures x in some + {last} {
          var i :| 0 <= i < |links| && links[i].index == x;
          if i < |front| {
            assert front[i].index == x;
          }
        }
        forall x | x in some ensures x in all {
          var i :| 0 <= i < |front| && front[i].index == x;
          assert links[i].index == x;
        }
      }
      assert last !in some;
    }
  }

  lemma {:induction false} RangeCount(s: set<nat>, n: nat)
    requires forall x :: x in s ==> x < n
    ensures |s| <= n
    decreases n
  {
    if n > 0 {
      RangeCount(s - {n - 1}, n - 1);
    } else {
      assert s == {};
    }
  }

  /**
   The chain walk is exact: it answers `links` if and only if they are the NEXT-linked path from the head.
   In particular at most `size` descriptors are ever stored, so the fixed array is never exceeded.
   */
  lemma FollowExact(m: Memory, q: Queue, head: nat, links: seq<Link>)
    requires head < q.size <= MAX_QUEUE_SIZE
    ensures Follow(m, q, head, {}) == Ok(links) <==> IsChain(m, q, head, links)
    ensures IsChain(m, q, head, links) ==> |links| <= q.size
  {
    hide ReadDescriptor, Indirect, Next, Stored;
    if IsChain(m, q, head, links) {
      DistinctBound(links, q.size);
      ChainIsFollowed(m, q, head, {}, links);
    }
    if Follow(m, q, head, {}) == Ok(links) {
      FollowIsChain(m, q, head, {});
    }
  }

  // ----- Pop -----

  /** The slot of the available ring that the next pop reads. */
  function HeadAddress(q: Queue): nat
    requires q.size > 0
  {
    q.available + 4 + q.lastAvail % q.size * 2
  }

  function Pop(q: Queue, m: Memory): (Queue, Result<Chain>)
    requires ValidQueue(q)
  {
    if !q.ready then (q, Err(ENODEV))
    else
      match Read(m, q.available + 2, 2)
      case None => (q, Err(ENOENT))
      case Some(raw) =>
        var available := Le(raw);
        if available == q.lastAvail then (q, Err(EAGAIN))
        else if (available - q.lastAvail) % U16 > q.size then (q, Err(EPROTO))
        else
          match Read(m, HeadAddress(q), 2)
          case None => (q, Err(ENOENT))
          case Some(rawHead) =>
            var head := Le(rawHead);
            if head >= q.size then (q, Err(EPROTO))
            else
              match Follow(m, q, head, {})
              case Err(error) => (q, Err(error))
              case Ok(links) => (q.(lastAvail := (q.lastAvail + 1) % U16), Ok(Chain(head, links)))
  }

  /** Two bytes of memory hold a number. */
  ghost predicate Holds16(m: Memory, address: nat, x: nat) {
    x < U16 && Read(m, address, 2) == Some(Bytes(x, 2))
  }

  lemma Holds16Exact(m: Memory, address: nat, x: nat)
    ensures Holds16(m, address, x) <==> Read(m, address, 2).Some? && Le(Read(m, address, 2).value) == x
  {
    hide Le, Bytes, Power256;
    PowersOf256();
    var raw := Read(m, address, 2);
    if raw.Some? {
      LeExact(raw.value, x);
    }
  }

  /**
   A pop answers a chain exactly when the available index, read as `index`, is ahead of the queue by at most its
   size, the next slot of the available ring holds the head, and the links are the head's chain.
   */
  ghost predicate Offers(q: Queue, m: Memory, index: nat, chain: Chain) {
    && q.ready && q.size > 0 && Holds16(m, q.available + 2, index)
    && index != q.lastAvail && (index - q.lastAvail) % U16 <= q.size
    && Holds16(m, q.available + 4 + 2 * (q.lastAvail % q.size), chain.head) && chain.head < q.size
    && IsChain(m, q, chain.head, chain.links)
  }

  lemma PopExact(q: Queue, m: Memory, chain: Chain)
    requires ValidQueue(q)
    ensures Pop(q, m).1 == Ok(chain) <==> exists index :: Offers(q, m, index, chain)
    ensures Pop(q, m).0 == q.(lastAvail := (q.lastAvail + if Pop(q, m).1.Ok? then 1 else 0) % U16)
    ensures Pop(q, m).1 == Err(EAGAIN) <==> q.ready && Holds16(m, q.available + 2, q.lastAvail)
  {
    FollowErrors(q, m);
    hide Follow, IsChain, Read, Le, Bytes, IsPowerOfTwo, RangeValid, Holds16;
    var at := q.available + 2;
    var raw := Read(m, at, 2);
    forall x: nat ensures Holds16(m, at, x) <==> raw.Some? && Le(raw.value) == x {
      Holds16Exact(m, at, x);
    }
    if q.ready {
      Holds16Exact(m, HeadAddress(q), chain.head);
      if chain.head < q.size {
        FollowExact(m, q, chain.head, chain.links);
      }
      if Pop(q, m).1 == Ok(chain) {
        assert Offers(q, m, Le(raw.value), chain);
      }
    }
  }

  lemma FollowErrors(q: Queue, m: Memory)
    ensures forall head :: 0 <= head < q.size ==> Follow(m, q, head, {}) != Err(EAGAIN)
  {
    hide ReadDescriptor, Indirect, Next, Follow;
    forall head | 0 <= head < q.size ensures Follow(m, q, head, {}) != Err(EAGAIN) {
      NeverEmpty(m, q, head, {});
    }
  }

  lemma {:induction false} NeverEmpty(m: Memory, q: Queue, index: nat, visited: set<nat>)
    requires index < q.size
    ensures Follow(m, q, index, visited) != Err(EAGAIN)
    decreases Unvisited(q.size, visited)
  {
    hide ReadDescriptor, Indirect, Next, Follow;
    FollowStep(m, q, index, visited);
    var d := ReadDescriptor(m, q, index);
    if index !in visited && d.Some? && d.value.next < q.size {
      assert index in Unvisited(q.size, visited) && index !in Unvisited(q.size, visited + {index});
      NeverEmpty(m, q, d.value.next, visited + {index});
    }
  }

  // ----- Push -----

  /** The n-th slot of the used ring, counting round the ring. */
  function UsedSlot(q: Queue, n: nat): (a: nat)
    requires q.size > 0
    ensures q.used + 4 <= a && a + 8 <= q.used + 4 + q.size * 8
  {
    assert n % q.size + 1 <= q.size;
    q.used + 4 + n % q.size * 8
  }

  function ElementAddress(q: Queue): nat
    requires q.size > 0
  {
    UsedSlot(q, q.nextUsed)
  }

  function Element(head: nat, length: nat): (b: seq<u8>)
    ensures |b| == 8
  {
    Bytes(head, 4) + Bytes(length, 4)
  }

  /** A DMA write that may also fail for reasons of its own. */
  function Write(m: Memory, address: nat, data: seq<u8>, works: bool): Option<Memory> {
    if works && Mapped(m, address, |data|) then Some(Store(m, address, data)) else None
  }

  datatype Pushed = Pushed(queue: Queue, memory: Memory, result: Result<()>)

  /** `elementWorks` and `indexWorks` say whether the two DMA writes go through. */
  function PushUsed(q: Queue, m: Memory, head: u16, length: u32, elementWorks: bool, indexWorks: bool): Pushed
    requires ValidQueue(q)
  {
    if !q.ready then Pushed(q, m, Err(ENODEV))
    else if head >= q.size then Pushed(q, m, Err(EINVAL))
    else
      match Write(m, ElementAddress(q), Element(head, length), elementWorks)
      case None => Pushed(q, m, Err(EIO))
      case Some(m1) =>
        var next := (q.nextUsed + 1) % U16;
        var q' := q.(nextUsed := next);
        match Write(m1, q.used + 2, Bytes(next, 2), indexWorks)
        case None => Pushed(q', m1, Err(EIO))
        case Some(m2) => Pushed(q', m2, Ok(()))
  }

  // ----- Slots across the 16-bit wrap -----

  /** A queue size divides 2^16, so a wrapped index names the slot of the unwrapped count. */
  lemma WrappedSlot(n: nat, size: nat)
    requires 0 < size <= MAX_QUEUE_SIZE && IsPowerOfTwo(size)
    ensures n % U16 % size == n % size
  {
    SizeDivides(size);
    WrappedBy(n, size, U16 / size, n / U16, n % U16);
  }

  lemma WrappedBy(n: nat, size: nat, k: nat, q: nat, r: nat)
    requires 0 < size && size * k == U16 && n == U16 * q + r
    ensures r % size == n % size
  {
    WrapParts(size, k, q, r / size, r % size);
    DivModUnique(n, size, k * q + r / size, r % size);
  }

  lemma WrapParts(size: nat, k: nat, q: nat, a: nat, b: nat)
    requires size * k == U16
    ensures U16 * q + (size * a + b) == size * (k * q + a) + b
  {
    MulAssociative(size, k, q);
    MulDistributes(size, k * q, a);
  }

  lemma SizeDivides(size: nat)
    requires 0 < size <= MAX_QUEUE_SIZE && IsPowerOfTwo(size)
    ensures size * (U16 / size) == U16
  {
    assert IsPowerOfTwo(size) ==> size in {1, 2, 4, 8, 16, 32, 64, 128, 256, 512, 1024} by {
      SmallPowers(size);
    }
  }

  lemma SmallPowers(size: nat)
    requires 0 < size <= 1024 && IsPowerOfTwo(size)
    ensures size in {1, 2, 4, 8, 16, 32, 64, 128, 256, 512, 1024}
  {
    if size > 1 {
      SmallPowers(size / 2);
    }
  }

  /** Counts less than a queue apart fall into different slots. */
  lemma DifferentSlots(i: nat, j: nat, size: nat)
    requires 0 < size && i < j < i + size
    ensures i % size != j % size
  {
    var a, b := j / size, i / size;
    assert j == size * a + j % size && i == size * b + i % size;
    assert size * (b + 1) == size * b + size;
    if b < a {
      MulMonotone(size, b + 1, a);
    } else {
      MulMonotone(size, a, b);
    }
  }

  // ----- Runs between configure and reset -----

  /**
   A live queue with its history: the chains popped, the elements written to the used ring, and how many
   elements the used index in guest memory covers, once the device has written it.
   */
  datatype Ring = Ring(queue: Queue, memory: Memory, popped: seq<Chain>, written: seq<(nat, nat)>, published: Option<nat>)

  datatype RingOp =
    | OpPop
    | OpPush(head: u16, length: u32, elementWorks: bool, indexWorks: bool)
    | OpGuest(memory: Memory)

  /** The guest and other devices may change any memory except the used ring. */
  ghost predicate OutsideUsedRing(q: Queue, before: Memory, after: Memory) {
    && before.Keys <= after.Keys
    && forall a :: a in before && q.used <= a < q.used + 4 + q.size * 8 ==> after[a] == before[a]
  }

  ghost predicate CanStep(s: Ring, op: RingOp) {
    op.OpGuest? ==> OutsideUsedRing(s.queue, s.memory, op.memory)
  }

  ghost function RingStep(s: Ring, op: RingOp): Ring
    requires ValidQueue(s.queue)
  {
    match op
    case OpPop =>
      var (q, r) := Pop(s.queue, s.memory);
      s.(queue := q, popped := if r.Ok? then s.popped + [r.value] else s.popped)
    case OpPush(head, length, elementWorks, indexWorks) =>
      var p := PushUsed(s.queue, s.memory, head, length, elementWorks, indexWorks);
      var written := if p.queue != s.queue then s.written + [(head as nat, length as nat)] else s.written;
      Ring(p.queue, p.memory, s.popped, written, if p.result.Ok? then Some(|written|) else s.published)
    case OpGuest(memory) => s.(memory := memory)
  }

  /** Element j is in its slot of the used ring. */
  ghost predicate InPlace(s: Ring, j: nat)
    requires j < |s.written| && s.queue.size > 0
  {
    var at := s.queue.used + 4 + 8 * (j % s.queue.size);
    Mapped(s.memory, at, 8) && Load(s.memory, at, 8) == Bytes(s.written[j].0, 4) + Bytes(s.written[j].1, 4)
  }

  ghost predicate RingInv(s: Ring) {
    var q := s.queue;
    && ValidQueue(q) && q.ready
    && q.lastAvail == |s.popped| % U16 && q.nextUsed == |s.written| % U16
    && (forall j :: 0 <= j < |s.written| && |s.written| <= j + q.size ==> InPlace(s, j))
    && (s.published.Some? ==>
          s.published.value <= |s.written| && Mapped(s.memory, q.used + 2, 2) &&
          Load(s.memory, q.used + 2, 2) == Bytes(s.published.value % U16, 2))
  }

  lemma PopKeepsRing(s: Ring)
    requires RingInv(s)
    ensures RingInv(RingStep(s, OpPop))
    ensures Pop(s.queue, s.memory).1.Ok? ==>
              Read(s.memory, s.queue.available + 4 + |s.popped| % s.queue.size * 2, 2).Some? &&
              Pop(s.queue, s.memory).1.value.head ==
                Le(Read(s.memory, s.queue.available + 4 + |s.popped| % s.queue.size * 2, 2).value)
  {
    hide Follow, Read, Le, IsPowerOfTwo, InPlace;
    WrappedSlot(|s.popped|, s.queue.size);
    var s' := RingStep(s, OpPop);
    NextCount(|s.popped|);
    forall j | 0 <= j < |s'.written| && |s'.written| <= j + s'.queue.size ensures InPlace(s', j) {
      assert InPlace(s, j);
      SameRingSameElement(s, s', j);
    }
  }

  lemma NextCount(n: nat)
    ensures (n % U16 + 1) % U16 == (n + 1) % U16
  {
  }

  lemma SameRingSameElement(s: Ring, s': Ring, j: nat)
    requires j < |s.written| && s.queue.size > 0 && InPlace(s, j)
    requires s'.queue.size == s.queue.size && s'.queue.used == s.queue.used
    requires s.written <= s'.written
    requires OutsideUsedRing(s.queue, s.memory, s'.memory)
    ensures InPlace(s', j)
  {
    var at := UsedSlot(s.queue, j);
    assert Load(s'.memory, at, 8) == Load(s.memory, at, 8);
  }

  lemma GuestKeepsRing(s: Ring, memory: Memory)
    requires RingInv(s) && CanStep(s, OpGuest(memory))
    ensures RingInv(RingStep(s, OpGuest(memory)))
  {
    hide Bytes;
    var s' := RingStep(s, OpGuest(memory));
    forall j | 0 <= j < |s'.written| && |s'.written| <= j + s'.queue.size ensures InPlace(s', j) {
      assert InPlace(s, j);
      SameRingSameElement(s, s', j);
    }
    if s.published.Some? {
      assert Load(s'.memory, s.queue.used + 2, 2) == Load(s.memory, s.queue.used + 2, 2);
    }
  }

  /** A used element is written into slot n mod size, where n counts the elements before it. */
  lemma PushTargetsSlot(s: Ring)
    requires RingInv(s)
    ensures ElementAddress(s.queue) == UsedSlot(s.queue, |s.written|)
  {
    WrappedSlot(|s.written|, s.queue.size);
  }

  /** The first write of a push went through. */
  ghost function ElementWritten(s: Ring, head: nat, length: nat): Ring
    requires s.queue.size > 0
  {
    s.(queue := s.queue.(nextUsed := (s.queue.nextUsed + 1) % U16),
       memory := Store(s.memory, ElementAddress(s.queue), Element(head, length)),
       written := s.written + [(head, length)])
  }

  /** The second write of a push went through. */
  ghost function IndexPublished(s: Ring): Ring {
    s.(memory := Store(s.memory, s.queue.used + 2, Bytes(s.queue.nextUsed, 2)), published := Some(|s.written|))
  }

  /** A push does nothing, or its first write, or both. */
  lemma PushEffect(s: Ring, op: RingOp)
    requires RingInv(s) && op.OpPush?
    ensures var s1 := ElementWritten(s, op.head, op.length);
            var s' := RingStep(s, op);
            || s' == s
            || (Mapped(s.memory, ElementAddress(s.queue), 8) &&
                (s' == s1 || (Mapped(s1.memory, s.queue.used + 2, 2) && s' == IndexPublished(s1))))
  {
    hide Bytes, Element, IsPowerOfTwo, InPlace, Load, Store, UsedSlot;
  }

  lemma AdvancedQueue(q: Queue)
    requires ValidQueue(q)
    ensures ValidQueue(q.(nextUsed := (q.nextUsed + 1) % U16)) && ValidQueue(q.(lastAvail := (q.lastAvail + 1) % U16))
  {
  }

  lemma SlotsApart(q: Queue, i: nat, j: nat)
    requires q.size > 0 && i < j < i + q.size
    ensures UsedSlot(q, i) + 8 <= UsedSlot(q, j) || UsedSlot(q, j) + 8 <= UsedSlot(q, i)
  {
    DifferentSlots(i, j, q.size);
  }

  /** The new element is in its slot, and the size - 1 elements before it still are. */
  lemma ElementInPlace(s: Ring, head: nat, length: nat, j: nat)
    requires RingInv(s) && Mapped(s.memory, ElementAddress(s.queue), 8)
    requires j <= |s.written| < j + s.queue.size
    ensures InPlace(ElementWritten(s, head, length), j)
  {
    PushTargetsSlot(s);
    var data := Element(head, length);
    var s1 := ElementWritten(s, head, length);
    SameSlots(s.queue, s1.queue, j);
    hide Element, ValidQueue, Load, Store, UsedSlot;
    if j == |s.written| {
      LoadStored(s.memory, UsedSlot(s.queue, j), data);
    } else {
      assert InPlace(s, j);
      SlotsApart(s.queue, j, |s.written|);
      LoadDisjoint(s.memory, ElementAddress(s.queue), data, UsedSlot(s.queue, j), 8);
    }
  }

  lemma SameSlots(q: Queue, q': Queue, n: nat)
    requires q.size > 0 && q'.size == q.size && q'.used == q.used
    ensures UsedSlot(q', n) == UsedSlot(q, n)
  {
  }

  lemma ElementKeepsRing(s: Ring, head: nat, length: nat)
    requires RingInv(s) && Mapped(s.memory, ElementAddress(s.queue), 8)
    ensures RingInv(ElementWritten(s, head, length))
  {
    NextCount(|s.written|);
    AdvancedQueue(s.queue);
    hide InPlace, Bytes, Element, ValidQueue, Load, Store, UsedSlot;
    var s1 := ElementWritten(s, head, length);
    forall j | 0 <= j < |s1.written| && |s1.written| <= j + s1.queue.size ensures InPlace(s1, j) {
      ElementInPlace(s, head, length, j);
    }
    if s.published.Some? {
      LoadDisjoint(s.memory, ElementAddress(s.queue), Element(head, length), s.queue.used + 2, 2);
    }
  }

  lemma PublishKeepsRing(s: Ring)
    requires s.queue.size > 0 && RingInv(s) && Mapped(s.memory, s.queue.used + 2, 2)
    ensures RingInv(IndexPublished(s))
  {
    hide Bytes, InPlace, ValidQueue, Load, Store, Mapped;
    var s' := IndexPublished(s);
    forall j | 0 <= j < |s.written| && |s.written| <= j + s.queue.size ensures InPlace(s', j) {
      PublishKeepsElement(s, j);
    }
    LoadStored(s.memory, s.queue.used + 2, Bytes(s.queue.nextUsed, 2));
  }

  lemma PublishKeepsElement(s: Ring, j: nat)
    requires s.queue.size > 0 && j < |s.written| && InPlace(s, j)
    ensures InPlace(IndexPublished(s), j)
  {
    hide Bytes, Load, Store;
    LoadDisjoint(s.memory, s.queue.used + 2, Bytes(s.queue.nextUsed, 2), s.queue.used + 4 + 8 * (j % s.queue.size), 8);
  }

  /**
   Every step of a live queue keeps the rings in order: the n-th pop reads available slot n mod size, the
   n-th push fills used slot n mod size, and the published index never covers an element that was not
   written, whatever DMA writes fail.
   */
  lemma StepKeepsRing(s: Ring, op: RingOp)
    requires RingInv(s) && CanStep(s, op)
    ensures RingInv(RingStep(s, op))
  {
    assert s.queue.size > 0;
    match op
    case OpPop => PopKeepsRing(s);
    case OpGuest(memory) => GuestKeepsRing(s, memory);
    case OpPush(head, length, _, _) =>
      PushEffect(s, op);
      hide RingStep, RingInv;
      if RingStep(s, op) != s {
        ElementKeepsRing(s, head, length);
        var s1 := ElementWritten(s, head, length);
        if Mapped(s1.memory, s1.queue.used + 2, 2) {
          PublishKeepsRing(s1);
        }
      }
  }

  /** A failing pop leaves the queue as it was. */
  lemma FailedPopChangesNothing(q: Queue, m: Memory)
    requires ValidQueue(q) && Pop(q, m).1.Err?
    ensures Pop(q, m).0 == q
  {
  }

  ghost predicate CanRun(s: Ring, ops: seq<RingOp>)
    requires RingInv(s)
    decreases |ops|
  {
    ops == [] || (CanStep(s, ops[0]) && (StepKeepsRing(s, ops[0]); CanRun(RingStep(s, ops[0]), ops[1..])))
  }

  ghost function RingRun(s: Ring, ops: seq<RingOp>): (s': Ring)
    requires RingInv(s) && CanRun(s, ops)
    ensures RingInv(s')
    decreases |ops|
  {
    if ops == [] then s
    else
      StepKeepsRing(s, ops[0]);
      RingRun(RingStep(s, ops[0]), ops[1..])
  }

  /** From configuration on, over every run of pops, pushes with failing writes, and guest activity. */
  lemma ConfiguredRun(q: Queue, m: Memory, size: u16, descriptors: u64, available: u64, used: u64, ops: seq<RingOp>)
    requires Configure(q, size, descriptors, available, used).1.Ok?
    requires var s := Ring(Configure(q, size, descriptors, available, used).0, m, [], [], None);
             RingInv(s) ==> CanRun(s, ops)
    ensures var s := Ring(Configure(q, size, descriptors, available, used).0, m, [], [], None);
            RingInv(s) && RingInv(RingRun(s, ops))
  {
  }
}
