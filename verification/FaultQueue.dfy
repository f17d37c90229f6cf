/**
 The fault queue of the RISC-V IOMMU Architecture Specification: a ring of 32-byte records in guest
 memory, written by the device at the tail and read by the guest at the head.
 */
module FaultQueue {
  import opened Base
  import opened GuestMemory

  const RECORD: nat := 32
  const MAX_LOG2: nat := 13

  // ----- Registers and records -----

  function Log2(fqb: u64): nat {
    fqb % 32
  }

  function Power2(n: nat): (p: nat)
    ensures 1 <= p && (1 <= n ==> 2 <= p)
  {
    if n == 0 then 1 else 2 * Power2(n - 1)
  }

  /** Bits 10 to 49 of the base register, as a page address. */
  function QueueBase(fqb: u64): nat {
    fqb / 1024 % 0x100_0000_0000 * 0x1000
  }

  predicate Usable(fqb: u64) {
    1 <= Log2(fqb) <= MAX_LOG2
  }

  datatype FaultInfo = FaultInfo(requester: u16, address: u64, size: u64, write: bool, errno: u32)

  /** Cause and device ID, a zero word, the address, and the error with the low half of the size. */
  function Encode(f: FaultInfo): (r: seq<u8>)
    ensures |r| == RECORD
  {
    Bytes((if f.write then 7 else 5) + f.requester * 0x100_0000_0000, 8) + Bytes(0, 8) + Bytes(f.address, 8) +
    Bytes(f.errno + f.size % U32 * U32, 8)
  }

  /** What a guest reads back from a record. */
  function Decode(r: seq<u8>): FaultInfo
    requires |r| == RECORD
  {
    var header, last := Le(r[..8]), Le(r[24..]);
    FaultInfo(header / 0x100_0000_0000 % U16, Le(r[16..24]) % U64, last / U32 % U64, header % 0x1000 == 7, last % U32)
  }

  lemma WordBack(x: u64)
    ensures Le(Bytes(x, 8)) == x
  {
    PowersOf256();
    LeBytes(x, 8);
  }

  /** The fields of the base register: the ring's size in bits 0 to 4, its page number in bits 10 to 49. */
  lemma BaseFields(log2: nat, unused: nat, page: nat, high: nat)
    requires log2 < 32 && unused < 32 && page < 0x100_0000_0000 && high < 0x4000
    ensures var fqb := log2 + 0x20 * unused + 0x400 * page + 0x4_0000_0000_0000 * high;
            fqb < U64 && Log2(fqb) == log2 && QueueBase(fqb) == 0x1000 * page
  {
    var fqb := log2 + 0x20 * unused + 0x400 * page + 0x4_0000_0000_0000 * high;
    DivModUnique(fqb, 0x20, unused + 0x20 * page + 0x2000_0000_0000 * high, log2);
    DivModUnique(fqb, 1024, page + 0x100_0000_0000 * high, log2 + 0x20 * unused);
    DivModUnique(page + 0x100_0000_0000 * high, 0x100_0000_0000, high, page);
  }

  /** Decoding a record gives the fault, the size cut to 32 bits; the word in between is zero. */
  lemma DecodeEncode(f: FaultInfo)
    ensures Decode(Encode(f)) == f.(size := f.size % U32) && Le(Encode(f)[8..16]) == 0
  {
    hide Bytes, Le;
    var header := (if f.write then 7 else 5) + f.requester * 0x100_0000_0000;
    var last := f.errno + f.size % U32 * U32;
    var r := Encode(f);
    assert r[8..16] == Bytes(0, 8);
    WordBack(0);
    assert r[..8] == Bytes(header, 8) && r[16..24] == Bytes(f.address, 8) && r[24..] == Bytes(last, 8);
    WordBack(header);
    WordBack(f.address);
    WordBack(last);
    DivModUnique(last, U32, f.size % U32, f.errno);
    HeaderFields(f.requester, if f.write then 7 else 5);
  }

  lemma HeaderFields(requester: u16, cause: nat)
    requires cause < 0x1000
    ensures var header := cause + requester * 0x100_0000_0000;
            header / 0x100_0000_0000 % U16 == requester && header % 0x1000 == cause
  {
    var header := cause + requester * 0x100_0000_0000;
    DivModUnique(header, 0x100_0000_0000, requester, cause);
    DivModUnique(header, 0x1000, requester * 0x1000_0000, cause);
  }

  // ----- Ring positions -----

  function Index(x: nat, entries: nat): (i: nat)
    requires 0 < entries
    ensures i < entries
  {
    x % entries
  }

  function Slot(base: nat, entries: nat, position: nat): nat
    requires 0 < entries
  {
    base + Index(position, entries) * RECORD
  }

  /** The slot `i` places after the head. */
  function SlotAt(base: nat, entries: nat, head: nat, i: nat): nat
    requires 0 < entries
  {
    Slot(base, entries, head + i)
  }

  ghost function RecordAt(m: Memory, base: nat, entries: nat, head: nat, i: nat): Option<seq<u8>>
    requires 0 < entries
  {
    Read(m, SlotAt(base, entries, head, i), RECORD)
  }

  /** The records between head and tail, oldest first. */
  ghost function Unread(m: Memory, base: nat, entries: nat, head: nat, count: nat): (s: seq<Option<seq<u8>>>)
    requires 0 < entries
    ensures |s| == count && forall i :: 0 <= i < count ==> s[i] == RecordAt(m, base, entries, head, i)
  {
    seq(count, i requires 0 <= i => RecordAt(m, base, entries, head, i))
  }

  lemma Wrapped(x: nat, n: nat)
    requires 0 < n && x < 2 * n
    ensures Index(x, n) == if x < n then x else x - n
  {
    if x >= n {
      DivModUnique(x, n, 1, x - n);
    } else {
      DivModUnique(x, n, 0, x);
    }
  }

  lemma SlotsApart(base: nat, entries: nat, head: nat, i: nat, j: nat)
    requires head < entries && i < j < entries
    ensures var a, b := SlotAt(base, entries, head, i), SlotAt(base, entries, head, j);
            a + RECORD <= b || b + RECORD <= a
  {
    Wrapped(head + i, entries);
    Wrapped(head + j, entries);
  }

  /** A record stored in the tail slot joins the unread ones and disturbs none of them. */
  lemma StoredAtTail(m: Memory, base: nat, entries: nat, head: nat, count: nat, data: seq<u8>)
    requires head < entries && count < entries && |data| == RECORD
    requires Mapped(m, SlotAt(base, entries, head, count), RECORD)
    ensures Unread(Store(m, SlotAt(base, entries, head, count), data), base, entries, head, count + 1) ==
            Unread(m, base, entries, head, count) + [Some(data)]
  {
    hide SlotAt, Unread, Read;
    var at := SlotAt(base, entries, head, count);
    var m' := Store(m, at, data);
    forall i | 0 <= i < count ensures RecordAt(m', base, entries, head, i) == RecordAt(m, base, entries, head, i) {
      SlotsApart(base, entries, head, i, count);
      ReadElsewhere(m, at, data, SlotAt(base, entries, head, i), RECORD);
    }
    ReadStored(m, at, data);
  }

  lemma ReadStored(m: Memory, at: nat, data: seq<u8>)
    requires Mapped(m, at, |data|)
    ensures Read(Store(m, at, data), at, |data|) == Some(data)
  {
    LoadStored(m, at, data);
  }

  lemma ReadElsewhere(m: Memory, at: nat, data: seq<u8>, other: nat, length: nat)
    requires other + length <= at || at + |data| <= other
    ensures Read(Store(m, at, data), other, length) == Read(m, other, length)
  {
    if Mapped(m, other, length) {
      LoadDisjoint(m, at, data, other, length);
    }
  }

  lemma Consumed(m: Memory, base: nat, entries: nat, head: nat, count: nat, j: nat)
    requires 0 < entries && j <= count && head < entries && j < entries
    ensures Unread(m, base, entries, Index(head + j, entries), count - j) == Unread(m, base, entries, head, count)[j..]
  {
    Wrapped(head + j, entries);
    var head' := Index(head + j, entries);
    assert head' == head + j || head' + entries == head + j;
    hide Slot, Unread, Read;
    forall i | 0 <= i < count - j ensures RecordAt(m, base, entries, head', i) == RecordAt(m, base, entries, head, j + i) {
      SamePosition(base, entries, head' + i, head + j + i);
    }
  }

  lemma SamePosition(base: nat, entries: nat, x: nat, y: nat)
    requires 0 < entries && (y == x || y == x + entries)
    ensures Slot(base, entries, x) == Slot(base, entries, y)
  {
    DivModUnique(x + entries, entries, x / entries + 1, x % entries);
  }

  // ----- The device -----

  class FaultQueue {
    const fqb: u64
    var fqh: u32
    var fqt: u32
    var on: bool
    var overflow: bool
    var memoryFault: bool
    var memory: Memory
    ghost var fifo: seq<Option<seq<u8>>>   // what the guest has not read yet

    function Entries(): (n: nat)
      ensures 0 < n && (Usable(fqb) ==> 2 <= n)
    {
      Power2(Log2(fqb))
    }

    function Head(): nat
      reads this`fqh
    {
      Index(fqh, Entries())
    }

    /** The ring between head and tail holds the queue. */
    ghost predicate Valid()
      reads this
    {
      && |fifo| < Entries()
      && Index(fqt, Entries()) == Index(Head() + |fifo|, Entries())
      && fifo == Unread(memory, QueueBase(fqb), Entries(), Head(), |fifo|)
    }

    constructor (base: u64, guest: Memory)
      ensures Valid() && fqb == base && fifo == [] && memory == guest
      ensures fqh == 0 && fqt == 0 && !on && !overflow && !memoryFault
    {
      hide Power2, Index, QueueBase, Unread;
      fqb, fqh, fqt, on, overflow, memoryFault := base, 0, 0, false, false, false;
      memory, fifo := guest, [];
      new;
      Wrapped(0, Entries());
    }

    /**
     Appends one record to a bounded queue of one less than the ring's entries, or drops it and says why.
     A dropped record moves nothing and writes nothing.
     */
    method Enqueue(f: FaultInfo) returns (r: Result<()>)
      requires Valid()
      modifies this`fqt, this`overflow, this`memoryFault, this`memory, this`fifo
      ensures Valid()
      ensures on && r.Ok? ==>
                && |old(fifo)| < Entries() - 1 && fifo == old(fifo) + [Some(Encode(f))]
                && fqt == Index(Index(old(fqt), Entries()) + 1, Entries())
                && memory == Store(old(memory), Slot(QueueBase(fqb), Entries(), old(fqt)), Encode(f))
                && overflow == old(overflow) && memoryFault == old(memoryFault)
      ensures !on || r.Err? ==> fifo == old(fifo) && fqt == old(fqt) && memory == old(memory)
      ensures !on ==> r.Ok? && overflow == old(overflow) && memoryFault == old(memoryFault)
      ensures on && !Usable(fqb) ==> r == Err(EINVAL) && memoryFault && overflow == old(overflow)
      ensures on && Usable(fqb) && |old(fifo)| == Entries() - 1 ==>
                r == Err(ENOSPC) && overflow && memoryFault == old(memoryFault)
      ensures on && Usable(fqb) && |old(fifo)| < Entries() - 1 ==>
                && (r.Ok? <==> Mapped(old(memory), Slot(QueueBase(fqb), Entries(), old(fqt)), RECORD))
                && (r.Err? ==> r == Err(EFAULT) && memoryFault && overflow == old(overflow))
    {
      hide Encode, QueueBase, Unread, Power2, Slot, SlotAt, Read, Index;
      if !on {
        return Ok(());
      }
      if Log2(fqb) == 0 || Log2(fqb) > MAX_LOG2 {
        memoryFault := true;
        return Err(EINVAL);
      }
      var entries := Entries();
      var head, tail := Index(fqh, entries), Index(fqt, entries);
      var next := Index(tail + 1, entries);
      RingFull(head, tail, |fifo|, entries);
      if next == head {
        overflow := true;
        return Err(ENOSPC);
      }
      var base := QueueBase(fqb);
      EntriesBound(Log2(fqb));
      BaseBound(fqb);
      if tail > (U64_MAX - base - RECORD) / RECORD {
        assert false;   // the base is below two to the 52, so this guard of the source never fires
      }
      var at := base + tail * RECORD;
      SlotOfTail(base, entries, head, |fifo|, fqt);
      if !Mapped(memory, at, RECORD) {
        memoryFault := true;
        return Err(EFAULT);
      }
      StoredAtTail(memory, base, entries, head, |fifo|, Encode(f));
      memory := Store(memory, at, Encode(f));
      fqt := next;
      fifo := fifo + [Some(Encode(f))];
      r := Ok(());
    }

    /** The guest moves the head past `j` records. */
    method Consume(j: nat, value: u32)
      requires Valid() && j <= |fifo| && Index(value, Entries()) == Index(Head() + j, Entries())
      modifies this`fqh, this`fifo
      ensures Valid() && fifo == old(fifo)[j..] && fqh == value
    {
      hide Unread, QueueBase, Power2, Index;
      var entries := Entries();
      Consumed(memory, QueueBase(fqb), entries, Head(), |fifo|, j);
      RingAdvance(Head(), |fifo|, j, entries);
      fqh := value;
      fifo := fifo[j..];
    }

    /** The guest writes memory that holds no unread record. */
    method GuestStore(address: nat, data: seq<u8>)
      requires Valid()
      requires forall i :: 0 <= i < |fifo| ==>
                 var at := SlotAt(QueueBase(fqb), Entries(), Head(), i);
                 at + RECORD <= address || address + |data| <= at
      modifies this`memory
      ensures Valid() && memory == Store(old(memory), address, data)
    {
      hide QueueBase, Power2, SlotAt, Unread, Read, Index;
      var base, entries := QueueBase(fqb), Entries();
      ghost var head := Head();
      ghost var after := Store(memory, address, data);
      forall i | 0 <= i < |fifo| ensures RecordAt(after, base, entries, head, i) == RecordAt(memory, base, entries, head, i) {
        ReadElsewhere(memory, address, data, SlotAt(base, entries, head, i), RECORD);
      }
      assert Unread(after, base, entries, head, |fifo|) == fifo;
      memory := Store(memory, address, data);
    }

    /** A write to the control register: flags are cleared by writing one, and an unusable base does not turn on. */
    method WriteControl(value: u32) returns (r: Result<()>)
      requires Valid()
      modifies this`on, this`overflow, this`memoryFault
      ensures Valid() && fifo == old(fifo)
      ensures on <==> value % 2 == 1 && Usable(fqb)
      ensures r.Err? <==> value % 2 == 1 && !Usable(fqb)
      ensures overflow <==> old(overflow) && value / 0x200 % 2 == 0
      ensures memoryFault <==> r.Err? || (old(memoryFault) && value / 0x100 % 2 == 0)
    {
      overflow := overflow && value / 0x200 % 2 == 0;
      memoryFault := memoryFault && value / 0x100 % 2 == 0;
      on := false;
      if value % 2 == 1 {
        if Log2(fqb) == 0 || Log2(fqb) > MAX_LOG2 {
          memoryFault := true;
          return Err(EINVAL);
        }
        on := true;
      }
      r := Ok(());
    }
  }

  /** The full test: the slot after the tail is the head exactly when all but one entry is in use. */
  lemma RingFull(head: nat, tail: nat, count: nat, entries: nat)
    requires 2 <= entries && head < entries && count < entries && tail == Index(head + count, entries)
    ensures Index(tail + 1, entries) == head <==> count == entries - 1
    ensures Index(tail + 1, entries) == Index(head + count + 1, entries)
    ensures Index(Index(tail + 1, entries), entries) == Index(tail + 1, entries)
  {
    Wrapped(head + count, entries);
    Wrapped(tail + 1, entries);
    Wrapped(Index(tail + 1, entries), entries);
    if head + count + 1 < 2 * entries {
      Wrapped(head + count + 1, entries);
    }
  }

  lemma RingAdvance(head: nat, count: nat, j: nat, entries: nat)
    requires 0 < entries && head < entries && j <= count < entries
    ensures Index(Index(head + j, entries) + (count - j), entries) == Index(head + count, entries)
  {
    Wrapped(head + j, entries);
    Wrapped(head + count, entries);
    Wrapped(Index(head + j, entries) + (count - j), entries);
  }

  lemma SlotOfTail(base: nat, entries: nat, head: nat, count: nat, fqt: nat)
    requires 0 < entries && Index(fqt, entries) == Index(head + count, entries)
    ensures SlotAt(base, entries, head, count) == base + Index(fqt, entries) * RECORD == Slot(base, entries, fqt)
  {
  }

  lemma EntriesBound(n: nat)
    requires n <= MAX_LOG2
    ensures Power2(n) <= 8192
  {
    PowerMonotone(n, MAX_LOG2);
    assert Power2(4) == 16 && Power2(8) == 256 && Power2(12) == 4096 && Power2(13) == 8192;
  }

  lemma {:induction false} PowerMonotone(n: nat, k: nat)
    requires n <= k
    ensures Power2(n) <= Power2(k)
  {
    if n < k {
      PowerMonotone(n, k - 1);
    }
  }

  lemma BaseBound(fqb: u64)
    ensures QueueBase(fqb) <= 0xf_ffff_ffff_f000
  {
  }
}
