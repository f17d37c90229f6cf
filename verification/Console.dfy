/**
 The console: host input waits in a ring until the UART takes it, one byte at a time.
 */
module Console {
  import opened Base
  import Serial

  const CAPACITY: nat := 4096

  function Position(head: nat, i: nat): (k: nat)
    ensures k < CAPACITY
  {
    (head + i) % CAPACITY
  }

  /** The bytes of a ring from its head on. */
  function Ring(buffer: seq<u8>, head: nat, count: nat): (s: seq<u8>)
    requires |buffer| == CAPACITY
    ensures |s| == count && forall i :: 0 <= i < count ==> s[i] == buffer[Position(head, i)]
  {
    seq(count, i requires 0 <= i => buffer[Position(head, i)])
  }

  /** Filling the ring at its tail appends. */
  lemma Filled(before: seq<u8>, after: seq<u8>, head: nat, count: nat, data: seq<u8>)
    requires |before| == |after| == CAPACITY
    requires forall k :: count <= k < count + |data| ==> after[Position(head, k)] == data[k - count]
    requires forall k :: 0 <= k < count ==> after[Position(head, k)] == before[Position(head, k)]
    ensures Ring(after, head, count + |data|) == Ring(before, head, count) + data
  {
    hide Position, Ring;
  }

  /** Where the free slots are: up to the end of the buffer, then from its start. */
  lemma FreeSlot(head: nat, count: nat, k: nat, tail: nat, first: nat, size: nat)
    requires head < CAPACITY && count <= k < count + size <= CAPACITY && tail == Position(head, count)
    requires first == if CAPACITY - tail > size then size else CAPACITY - tail
    ensures Position(head, k) == if k - count < first then tail + (k - count) else k - count - first
  {
  }

  /** The slots in use are none of those. */
  lemma UsedSlot(head: nat, count: nat, k: nat, tail: nat, first: nat, size: nat)
    requires head < CAPACITY && k < count && count + size <= CAPACITY && 0 < size && tail == Position(head, count)
    requires first == if CAPACITY - tail > size then size else CAPACITY - tail
    ensures !(tail <= Position(head, k) < tail + first) && size - first <= Position(head, k)
  {
  }

  lemma Taken(buffer: seq<u8>, head: nat, count: nat)
    requires |buffer| == CAPACITY && head < CAPACITY && 0 < count
    ensures Ring(buffer, head, count)[0] == buffer[head]
    ensures Ring(buffer, (head + 1) % CAPACITY, count - 1) == Ring(buffer, head, count)[1..]
  {
    forall i | 0 <= i < count - 1
      ensures Ring(buffer, (head + 1) % CAPACITY, count - 1)[i] == Ring(buffer, head, count)[1..][i]
    {
      assert Position((head + 1) % CAPACITY, i) == Position(head, i + 1);
    }
  }

  class Console {
    const uart: Serial.Uart
    const input: array<u8>
    var head: nat
    var count: nat
    ghost var accepted: seq<u8>   // bytes taken from the host

    ghost function Footprint(): set<object>
      reads this, uart`irq
    {
      {this, input} + uart.Footprint()
    }

    ghost function Waiting(): seq<u8>
      requires input.Length == CAPACITY
      reads this, input
    {
      Ring(input[..], head, count)
    }

    ghost predicate Separate()
      reads uart`irq
    {
      input as object != uart && (uart.irq != null ==> uart.irq as object != input && uart.irq as object != this)
    }

    /** No byte is lost, repeated or reordered between host and guest. */
    ghost predicate Valid()
      reads this, input, uart, uart.irq
    {
      && input.Length == CAPACITY && head < CAPACITY && count <= CAPACITY && Separate() && uart.Valid()
      && accepted == uart.received + Waiting()
    }

    /** What the host sent is what the guest has read, then the byte the UART holds, then the ring. */
    lemma Conserved()
      requires Valid()
      ensures accepted == uart.consumed + uart.Held() + Waiting()
    {
    }

    constructor (device: Serial.Uart)
      requires device.Valid() && device.received == []
      ensures Valid() && uart == device && fresh(input) && accepted == []
    {
      uart := device;
      input := new u8[CAPACITY](i => 0);
      head, count, accepted := 0, 0, [];
    }

    /** Takes as much of the input as there is room for. */
    method QueueInput(data: seq<u8>) returns (r: Result<nat>)
      requires Valid()
      modifies this`count, this`accepted, input
      ensures Valid() && uart.consumed == old(uart.consumed)
      ensures data == [] ==> r == Ok(0)
      ensures data != [] && old(count) == CAPACITY ==> r == Err(EAGAIN)
      ensures data != [] && old(count) < CAPACITY ==>
                r == Ok(if |data| <= CAPACITY - old(count) then |data| else CAPACITY - old(count))
      ensures accepted == old(accepted) + if r.Ok? then data[..r.value] else []
    {
      if data == [] {
        return Ok(0);
      }
      var space := CAPACITY - count;
      if space == 0 {
        return Err(EAGAIN);
      }
      hide Ring, Position, Serial.Uart.Valid;
      var size := if |data| > space then space else |data|;
      CopyIn(data[..size]);
      count := count + size;
      accepted := accepted + data[..size];
      r := Ok(size);
    }

    /** Copies bytes to the free part of the ring: up to the end of the buffer, then from its start. */
    method CopyIn(data: seq<u8>)
      requires input.Length == CAPACITY && head < CAPACITY && count + |data| <= CAPACITY && data != []
      modifies input
      ensures Ring(input[..], head, count + |data|) == Ring(old(input[..]), head, count) + data
    {
      hide Ring, Position;
      var size, tail := |data|, Position(head, count);
      var first := if CAPACITY - tail > size then size else CAPACITY - tail;
      forall i | 0 <= i < first {
        input[tail + i] := data[i];
      }
      forall i | first <= i < size {
        input[i - first] := data[i];
      }
      FilledInput(old(input[..]), data, tail, first);
    }

    /** The two copies fill the free part of the ring. */
    lemma FilledInput(before: seq<u8>, data: seq<u8>, tail: nat, first: nat)
      requires input.Length == CAPACITY == |before| && head < CAPACITY && count + |data| <= CAPACITY && data != []
      requires tail == Position(head, count) && first <= |data|
      requires first == if CAPACITY - tail > |data| then |data| else CAPACITY - tail
      requires forall k :: 0 <= k < CAPACITY ==>
                 input[k] == if tail <= k < tail + first then data[k - tail]
                             else if k < |data| - first then data[k + first] else before[k]
      ensures Ring(input[..], head, count + |data|) == Ring(before, head, count) + data
    {
      hide Position;
      forall k | count <= k < count + |data| ensures input[..][Position(head, k)] == data[k - count] {
        FreeSlot(head, count, k, tail, first, |data|);
      }
      forall k | 0 <= k < count ensures input[..][Position(head, k)] == before[Position(head, k)] {
        UsedSlot(head, count, k, tail, first, |data|);
      }
      Filled(before, input[..], head, count, data);
    }

    /**
     Moves a byte to the UART if it holds none and its interrupt line allows. The sink is asked at most once, since a
     second byte finds the first still held; a sink that refuses with EAGAIN looks like a full UART.
     */
    method DrainInput(sink: Option<Errno>) returns (r: Result<nat>)
      requires Valid()
      modifies this`head, this`count, uart, uart.Footprint()
      ensures Valid() && accepted == old(accepted) && uart.consumed == old(uart.consumed) && uart.irq == old(uart.irq)
      ensures r == if old(count) == 0 || old(uart.Ready()) then Ok(0)
                   else if old(uart.Settles(uart.ier, Serial.IDLE + 1, sink)) then Ok(1)
                   else if sink == Some(EAGAIN) then Ok(0) else Err(sink.value)
      ensures count == old(count) - (if r == Ok(1) then 1 else 0)
      ensures uart.Held() == if r == Ok(1) then [old(Waiting()[0])] else old(uart.Held())
    {
      hide Ring, Serial.Uart.Valid, Serial.Uart.Held, Serial.Uart.Ready, Serial.Pending;
      r := Ok(0);
      while count != 0
        invariant Valid() && accepted == old(accepted) && uart.consumed == old(uart.consumed) && uart.irq == old(uart.irq)
        invariant r == Ok(0) || r == Ok(1)
        invariant r == Ok(1) ==> old(count) > 0 && !old(uart.Ready()) && uart.Ready() && count == old(count) - 1
        invariant r == Ok(1) ==> old(uart.Settles(uart.ier, Serial.IDLE + 1, sink)) && uart.Held() == [old(Waiting()[0])]
        invariant r == Ok(0) ==> count == old(count) && Waiting() == old(Waiting()) && uart.Ready() == old(uart.Ready())
        invariant r == Ok(0) ==> uart.Held() == old(uart.Held())
        invariant r == Ok(0) ==>
                    uart.Settles(uart.ier, Serial.IDLE + 1, sink) == old(uart.Settles(uart.ier, Serial.IDLE + 1, sink))
        decreases count
      {
        var taken := Offer(sink);
        if taken == Err(EAGAIN) {
          break;
        }
        if taken.Err? {
          return Err(taken.error);
        }
        r := Ok(1);
      }
    }

    /** Offers the oldest byte to the UART. */
    method Offer(sink: Option<Errno>) returns (r: Result<()>)
      requires Valid() && 0 < count
      modifies this`head, this`count, uart, uart.Footprint()
      ensures Valid() && accepted == old(accepted) && uart.consumed == old(uart.consumed) && uart.irq == old(uart.irq)
      ensures r == if old(uart.Ready()) then Err(EAGAIN)
                   else if old(uart.Settles(uart.ier, Serial.IDLE + 1, sink)) then Ok(()) else Err(sink.value)
      ensures r.Ok? ==> count == old(count) - 1 && uart.Ready() && uart.Held() == [old(Waiting()[0])]
      ensures r.Err? ==> count == old(count) && Waiting() == old(Waiting()) && uart.Held() == old(uart.Held())
    {
      hide Ring, Position, Serial.Uart.LineAgrees, Serial.Uart.Settles, Serial.Identification;
      Taken(input[..], head, count);
      r := uart.Receive(input[head], sink);
      if r.Ok? {
        head := (head + 1) % CAPACITY;
        count := count - 1;
      }
    }

    /** A guest read of the receive buffer takes the oldest byte that is left. */
    method GuestRead(sink: Option<Errno>) returns (r: Result<u8>)
      requires Valid() && uart.lcr / Serial.DLAB == 0
      modifies uart, uart.Footprint()
      ensures Valid() && accepted == old(accepted) && count == old(count)
      ensures r.Ok? && old(uart.Ready()) ==>
                |old(uart.consumed)| < |accepted| && r.value == accepted[|old(uart.consumed)|] &&
                uart.consumed == old(uart.consumed) + [r.value]
      ensures r.Err? || !old(uart.Ready()) ==> uart.consumed == old(uart.consumed)
      ensures r.Err? ==> old(uart.Ready()) && sink.Some?
    {
      r := uart.ReadData(sink);
    }
  }
}
