/**
 The virtqueue as the program keeps it: ring indices advanced in place, a pop loop that fills a descriptor
 array and marks visited indices. Each method acts as the function of `Virtqueue` on `View()`.
 */
module VirtqueueDevice {
  import opened Base
  import opened GuestMemory
  import opened Virtqueue

  /** A walk that has recorded some links and has the rest before it. */
  ghost predicate Continues(whole: Result<seq<Link>>, done: seq<Link>, rest: Result<seq<Link>>) {
    whole == if rest.Ok? then Ok(done + rest.value) else rest
  }

  lemma ContinuesOn(whole: Result<seq<Link>>, done: seq<Link>, link: Link, rest: Result<seq<Link>>, rest': Result<seq<Link>>)
    requires Continues(whole, done, rest)
    requires rest == if rest'.Ok? then Ok([link] + rest'.value) else rest'
    ensures Continues(whole, done + [link], rest')
  {
    if rest'.Ok? {
      assert done + ([link] + rest'.value) == done + [link] + rest'.value;
    }
  }

  class VirtqueueDevice {
    var size: nat
    var lastAvail: nat
    var nextUsed: nat
    var descriptors: nat
    var available: nat
    var used: nat
    var ready: bool

    ghost predicate Valid()
      reads this
    {
      ValidQueue(View())
    }

    ghost function View(): Queue
      reads this
    {
      Queue(size, lastAvail, nextUsed, descriptors, available, used, ready)
    }

    constructor ()
      ensures Valid() && !ready
    {
      size, lastAvail, nextUsed, descriptors, available, used, ready := 0, 0, 0, 0, 0, 0, false;
    }

    method SetUp(queueSize: u16, descriptorAddress: u64, availableAddress: u64, usedAddress: u64) returns (r: Result<()>)
      requires Valid()
      modifies this
      ensures Valid()
      ensures (View(), r) == Configure(old(View()), queueSize, descriptorAddress, availableAddress, usedAddress)
    {
      if queueSize == 0 || queueSize > MAX_QUEUE_SIZE || !IsPowerOfTwo(queueSize) ||
         descriptorAddress % 16 != 0 || availableAddress % 2 != 0 || usedAddress % 4 != 0 {
        return Err(EINVAL);
      }
      if ready {
        return Err(EBUSY);
      }
      if !RangeValid(descriptorAddress, queueSize * 16) || !RangeValid(availableAddress, 4 + queueSize * 2) ||
         !RangeValid(usedAddress, 4 + queueSize * 8) {
        return Err(EOVERFLOW);
      }
      size, lastAvail, nextUsed := queueSize, 0, 0;
      descriptors, available, used, ready := descriptorAddress, availableAddress, usedAddress, true;
      return Ok(());
    }

    method TearDown()
      requires Valid()
      modifies this
      ensures Valid() && View() == Reset(old(View()))
      ensures forall m :: Pop(View(), m) == (View(), Err(ENODEV))
      ensures forall size, descriptors, available, used ::
                Configure(View(), size, descriptors, available, used).1 != Err(EBUSY)
    {
      ready, size, lastAvail, nextUsed := false, 0, 0, 0;
    }

    /** Follows the chain from a head, storing descriptors in a fixed array. */
    method WalkChain(memory: Memory, head: nat) returns (r: Result<seq<Link>>)
      requires Valid() && ready && head < size
      ensures r == Follow(memory, View(), head, {})
    {
      hide ReadDescriptor, Indirect, Next, IsPowerOfTwo, RangeValid, Follow, Unvisited;
      var visited := new bool[MAX_QUEUE_SIZE](_ => false);
      var chain := new Link[MAX_QUEUE_SIZE](_ => Link(0, Descriptor(0, 0, 0, 0)));
      var count: nat, index: nat := 0, head;
      ghost var seen: set<nat> := {};
      ghost var whole := Follow(memory, View(), head, {});
      assert whole.Ok? ==> chain[..0] + whole.value == whole.value;
      while true
        invariant index < size && count == |seen| < MAX_QUEUE_SIZE
        invariant forall i :: 0 <= i < MAX_QUEUE_SIZE ==> visited[i] == (i in seen)
        invariant forall i :: i in seen ==> 0 <= i < size
        invariant Continues(whole, chain[..count], Follow(memory, View(), index, seen))
        decreases Unvisited(size, seen)
      {
        FollowStep(memory, View(), index, seen);
        ghost var before := chain[..count];
        if visited[index] {
          return Err(ELOOP);
        }
        visited[index] := true;
        var read := ReadDescriptorNow(memory, index);
        if read.None? {
          return Err(ENOENT);
        }
        var d := read.value;
        chain[count] := Link(index, d);
        count := count + 1;
        assert chain[..count] == before + [Link(index, d)];
        if Indirect(d) {
          return Err(ENOTSUP);
        }
        if d.flags >= 8 {
          return Err(EPROTO);
        }
        if !Next(d) {
          return Ok(chain[..count]);
        }
        if d.next >= size || count == MAX_QUEUE_SIZE {
          return Err(EPROTO);
        }
        FewerUnvisited(size, seen, index);
        ContinuesOn(whole, before, Link(index, d), Follow(memory, View(), index, seen),
                    Follow(memory, View(), d.next, seen + {index}));
        seen := seen + {index};
        index := d.next;
      }
    }

    method ReadDescriptorNow(memory: Memory, index: nat) returns (d: Option<Descriptor>)
      ensures d == ReadDescriptor(memory, View(), index)
    {
      var raw := Read(memory, descriptors + index * 16, 16);
      d := if raw.None? then None else Some(Decode(raw.value));
    }

    method PopChain(memory: Memory) returns (r: Result<Chain>)
      requires Valid()
      modifies this`lastAvail
      ensures Valid() && (View(), r) == Pop(old(View()), memory)
    {
      hide Follow, IsPowerOfTwo;
      if !ready {
        return Err(ENODEV);
      }
      var raw := Read(memory, available + 2, 2);
      if raw.None? {
        return Err(ENOENT);
      }
      var published := Le(raw.value);
      if published == lastAvail {
        return Err(EAGAIN);
      }
      if (published - lastAvail) % U16 > size {
        return Err(EPROTO);
      }
      var rawHead := Read(memory, available + 4 + lastAvail % size * 2, 2);
      if rawHead.None? {
        return Err(ENOENT);
      }
      var head := Le(rawHead.value);
      if head >= size {
        return Err(EPROTO);
      }
      var links := WalkChain(memory, head);
      if links.Err? {
        return Err(links.error);
      }
      lastAvail := (lastAvail + 1) % U16;
      return Ok(Chain(head, links.value));
    }

    /** The element is written before the index that covers it. */
    method Push(memory: Memory, head: u16, length: u32, elementWorks: bool, indexWorks: bool)
      returns (memory': Memory, r: Result<()>)
      requires Valid()
      modifies this`nextUsed
      ensures Valid() && Pushed(View(), memory', r) == PushUsed(old(View()), memory, head, length, elementWorks, indexWorks)
    {
      hide IsPowerOfTwo;
      memory' := memory;
      if !ready {
        return memory, Err(ENODEV);
      }
      if head >= size {
        return memory, Err(EINVAL);
      }
      assert used + 4 + nextUsed % size * 8 == ElementAddress(View());
      var first := Write(memory, used + 4 + nextUsed % size * 8, Element(head, length), elementWorks);
      if first.None? {
        return memory, Err(EIO);
      }
      nextUsed := (nextUsed + 1) % U16;
      var second := Write(first.value, used + 2, Bytes(nextUsed, 2), indexWorks);
      if second.None? {
        return first.value, Err(EIO);
      }
      return second.value, Ok(());
    }
  }

  lemma FewerUnvisited(size: nat, seen: set<nat>, index: nat)
    requires index < size && index !in seen
    ensures Unvisited(size, seen + {index}) < Unvisited(size, seen)
  {
    assert index in Unvisited(size, seen) && index !in Unvisited(size, seen + {index});
  }
}
