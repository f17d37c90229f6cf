/**
 MSI-X of a PCI function: raises, masking, the pending-bit array, and delivery through a sink that may refuse.
 What the sink answers, an error or none, is a parameter of the operations that can reach it.
 */
module Msix {
  import opened Base

  // ----- Pending bits, eight to a byte -----

  function Mask(k: nat): bv8
    requires k < 8
  {
    if k == 0 then 1 else if k == 1 then 2 else if k == 2 then 4 else if k == 3 then 8
    else if k == 4 then 16 else if k == 5 then 32 else if k == 6 then 64 else 128
  }

  predicate Meets(b: bv8, m: bv8) {
    b & m != 0
  }

  predicate Bit(b: bv8, k: nat)
    requires k < 8
  {
    Meets(b, Mask(k))
  }

  lemma SetBit(b: bv8, k: nat, j: nat)
    requires k < 8 && j < 8
    ensures Bit(b | Mask(k), j) <==> j == k || Bit(b, j)
  {
    hide Mask, Meets;
    MasksApart(k, j);
    SetMask(b, Mask(k), Mask(j));
  }

  lemma ClearBit(b: bv8, k: nat, j: nat)
    requires k < 8 && j < 8
    ensures Bit(b & !Mask(k), j) <==> j != k && Bit(b, j)
  {
    hide Mask, Meets;
    MasksApart(k, j);
    ClearMask(b, Mask(k), Mask(j));
  }

  lemma MasksApart(k: nat, j: nat)
    requires k < 8 && j < 8
    ensures Mask(k) != 0 && (Mask(k) == Mask(j) <==> k == j) && (k != j ==> !Meets(Mask(k), Mask(j)))
  {
  }

  lemma SetMask(b: bv8, m: bv8, n: bv8)
    requires m != 0 && (m == n || !Meets(m, n))
    ensures Meets(b | m, n) <==> m == n || Meets(b, n)
  {
  }

  lemma ClearMask(b: bv8, m: bv8, n: bv8)
    requires m != 0 && (m == n || !Meets(m, n))
    ensures Meets(b & !m, n) <==> m != n && Meets(b, n)
  {
  }

  lemma BitByShift(b: bv8, k: nat)
    requires k < 8
    ensures Bit(b, k) <==> (b >> k) & 1 == 1
  {
    if k == 0 { } else if k == 1 { } else if k == 2 { } else if k == 3 { }
    else if k == 4 { } else if k == 5 { } else if k == 6 { } else { assert k == 7; }
  }

  // ----- Histories -----

  datatype Event = Raised(vector: nat) | Delivered(vector: nat)

  /** The latest event of the vector is a raise. */
  ghost predicate Waiting(log: seq<Event>, v: nat) {
    if log == [] then false
    else
      var e := log[|log| - 1];
      if e.vector == v then e.Raised? else Waiting(log[..|log| - 1], v)
  }

  /** Every delivery answers a raise that was waiting. */
  ghost predicate Justified(log: seq<Event>) {
    log == [] ||
    var e, before := log[|log| - 1], log[..|log| - 1];
    Justified(before) && (e.Delivered? ==> Waiting(before, e.vector))
  }

  function Count(log: seq<Event>, e: Event): nat {
    if log == [] then 0 else Count(log[..|log| - 1], e) + if log[|log| - 1] == e then 1 else 0
  }

  lemma {:induction false} AnsweredOnce(log: seq<Event>, v: nat)
    requires Justified(log)
    ensures Count(log, Delivered(v)) + (if Waiting(log, v) then 1 else 0) <= Count(log, Raised(v))
  {
    if log != [] {
      AnsweredOnce(log[..|log| - 1], v);
    }
  }

  lemma Appended(log: seq<Event>, e: Event, v: nat)
    ensures Waiting(log + [e], v) <==> if e.vector == v then e.Raised? else Waiting(log, v)
    ensures Justified(log + [e]) <==> Justified(log) && (e.Delivered? ==> Waiting(log, e.vector))
  {
    assert (log + [e])[..|log|] == log;
  }

  // ----- The device -----

  class Msix {
    const count: nat
    const table: array<u8>       // 16 bytes a vector; bit 0 of byte 12 masks it
    const pba: array<bv8>
    var enabled: bool
    var functionMask: bool
    ghost var log: seq<Event>
    ghost var reliable: bool     // no sink call was refused

    ghost predicate Shape() {
      table.Length == count * 16 && count <= pba.Length * 8 && table as object != pba as object
    }

    constructor (vectors: nat)
      requires 0 < vectors <= 2048
      ensures Valid() && count == vectors && fresh(table) && fresh(pba) && log == [] && reliable
      ensures pba.Length == (count + 63) / 64 * 8
      ensures !enabled && !functionMask && forall v :: 0 <= v < count ==> !Pending(v)
    {
      count := vectors;
      table := new u8[vectors * 16](i => 0);
      pba := new bv8[(vectors + 63) / 64 * 8](i => 0);
      enabled, functionMask := false, false;
      log, reliable := [], true;
    }

    predicate Pending(v: nat)
      requires Shape() && v < count
      reads pba
    {
      Bit(pba[v / 8], v % 8)
    }

    predicate Masked(v: nat)
      requires Shape() && v < count
      reads table
    {
      table[v * 16 + 12] % 2 == 1
    }

    predicate Blocked(v: nat)
      requires Shape() && v < count
      reads this`enabled, this`functionMask, table
    {
      !enabled || functionMask || Masked(v)
    }

    /** A pending bit is set exactly when a raise has not been answered. */
    ghost predicate Recorded()
      reads this`log, pba
    {
      && Shape() && Justified(log)
      && (forall v :: 0 <= v < count ==> (Pending(v) <==> Waiting(log, v)))
    }

    /** Unless the sink has refused, only blocked vectors wait. */
    ghost predicate Settled()
      requires Shape()
      reads this`enabled, this`functionMask, this`reliable, table, pba
    {
      reliable ==> forall v :: 0 <= v < count && Pending(v) ==> Blocked(v)
    }

    ghost predicate Valid()
      reads this, table, pba
    {
      Recorded() && Settled()
    }

    /** The deliveries of the first `n` vectors when everything pending is tried in vector order. */
    ghost function Answers(n: nat, sinks: nat -> Option<Errno>): seq<Event>
      requires Shape() && n <= count
      reads this`enabled, this`functionMask, table, pba
    {
      if n == 0 then []
      else
        Answers(n - 1, sinks) +
        if Pending(n - 1) && !Blocked(n - 1) && sinks(n - 1).None? then [Delivered(n - 1)] else []
    }

    /** Some pending vector reaches the sink and is refused. */
    ghost predicate Refusals(n: nat, sinks: nat -> Option<Errno>)
      requires Shape() && n <= count
      reads this`enabled, this`functionMask, table, pba
    {
      exists v :: 0 <= v < n && Pending(v) && !Blocked(v) && sinks(v).Some?
    }

    method SetPending(v: nat)
      requires Shape() && v < count
      modifies pba
      ensures forall w :: 0 <= w < count ==> (Pending(w) <==> w == v || old(Pending(w)))
    {
      hide Mask, Bit;
      ghost var before := pba[v / 8];
      pba[v / 8] := pba[v / 8] | Mask(v % 8);
      forall w | 0 <= w < count ensures Pending(w) <==> w == v || old(Pending(w)) {
        if w / 8 == v / 8 {
          SetBit(before, v % 8, w % 8);
        }
      }
    }

    method ClearPending(v: nat)
      requires Shape() && v < count
      modifies pba
      ensures forall w :: 0 <= w < count ==> (Pending(w) <==> w != v && old(Pending(w)))
    {
      hide Mask, Bit;
      ghost var before := pba[v / 8];
      pba[v / 8] := pba[v / 8] & !Mask(v % 8);
      forall w | 0 <= w < count ensures Pending(w) <==> w != v && old(Pending(w)) {
        if w / 8 == v / 8 {
          ClearBit(before, v % 8, w % 8);
        }
      }
    }

    /** One attempt to deliver a pending vector; the bit is cleared exactly when the sink is asked and accepts. */
    method Deliver(v: nat, sink: Option<Errno>) returns (r: Result<()>)
      requires Recorded() && v < count && Pending(v)
      modifies this`log, this`reliable, pba
      ensures Recorded()
      ensures r == if Blocked(v) then Err(EAGAIN) else if sink.Some? then Err(sink.value) else Ok(())
      ensures log == old(log) + if r.Ok? then [Delivered(v)] else []
      ensures reliable == (old(reliable) && (Blocked(v) || sink.None?))
      ensures forall w :: 0 <= w < count ==> (Pending(w) <==> old(Pending(w)) && !(r.Ok? && w == v))
    {
      hide Mask, Bit;
      if !enabled || functionMask || Masked(v) {
        return Err(EAGAIN);
      }
      if sink.Some? {
        reliable := false;
        return Err(sink.value);
      }
      forall w ensures Justified(log + [Delivered(v)]) && (Waiting(log + [Delivered(v)], w) <==> w != v && Waiting(log, w)) {
        Appended(log, Delivered(v), w);
      }
      ClearPending(v);
      log := log + [Delivered(v)];
      r := Ok(());
    }

    /** Delivers what is pending and not blocked, in vector order. */
    method FlushPending(sinks: nat -> Option<Errno>)
      requires Recorded()
      modifies this`log, this`reliable, pba
      ensures Valid() && log == old(log) + old(Answers(count, sinks))
      ensures reliable == (old(reliable) && !old(Refusals(count, sinks)))
      ensures forall w :: 0 <= w < count ==> (Pending(w) <==> old(Pending(w)) && (Blocked(w) || sinks(w).Some?))
    {
      hide Mask, Bit, Waiting, Justified;
      if !enabled || functionMask {
        NoAnswers(count, sinks);
        return;
      }
      var v := 0;
      while v < count
        invariant v <= count && Recorded() && log == old(log) + old(Answers(v, sinks))
        invariant reliable == (old(reliable) && !old(Refusals(v, sinks)))
        invariant forall w :: 0 <= w < v ==> (Pending(w) <==> old(Pending(w)) && (Blocked(w) || sinks(w).Some?))
        invariant forall w :: v <= w < count ==> (Pending(w) <==> old(Pending(w)))
      {
        if Pending(v) {
          var _ := Deliver(v, sinks(v));
        }
        v := v + 1;
      }
    }

    lemma {:induction false} NoAnswers(n: nat, sinks: nat -> Option<Errno>)
      requires Shape() && n <= count && (!enabled || functionMask)
      ensures Answers(n, sinks) == [] && !Refusals(n, sinks)
      decreases n
    {
      if n > 0 {
        NoAnswers(n - 1, sinks);
      }
    }

    /** A guest write into the vector table. */
    method TableWrite(offset: nat, bytes: seq<u8>, sinks: nat -> Option<Errno>) returns (r: Result<()>)
      requires Valid()
      modifies this`log, this`reliable, pba, table
      ensures Valid()
      ensures r.Ok? <==> offset + |bytes| <= table.Length
      ensures forall k :: 0 <= k < table.Length ==>
                table[k] == if r.Ok? && offset <= k < offset + |bytes| then bytes[k - offset] else old(table[k])
      ensures r.Ok? ==> forall w :: 0 <= w < count ==> (Pending(w) <==> old(Pending(w)) && (Blocked(w) || sinks(w).Some?))
      ensures r.Err? ==> log == old(log) && pba[..] == old(pba[..])
    {
      if offset > table.Length || |bytes| > table.Length - offset {
        return Err(EINVAL);
      }
      forall i | 0 <= i < |bytes| {
        table[offset + i] := bytes[i];
      }
      FlushPending(sinks);
      r := Ok(());
    }

    /** A write to the capability's control word. */
    method UpdateControl(control: u16, sinks: nat -> Option<Errno>)
      requires Valid()
      modifies this`enabled, this`functionMask, this`log, this`reliable, pba
      ensures Valid()
      ensures enabled == (control / 0x8000 % 2 == 1) && functionMask == (control / 0x4000 % 2 == 1)
      ensures forall w :: 0 <= w < count ==> (Pending(w) <==> old(Pending(w)) && (Blocked(w) || sinks(w).Some?))
    {
      enabled, functionMask := control / 0x8000 % 2 == 1, control / 0x4000 % 2 == 1;
      FlushPending(sinks);
    }

    /** Sets the pending bit and records the raise. */
    method Record(v: nat)
      requires Recorded() && v < count
      modifies this`log, pba
      ensures Recorded() && log == old(log) + [Raised(v)]
      ensures forall w :: 0 <= w < count ==> (Pending(w) <==> w == v || old(Pending(w)))
    {
      hide Mask, Bit;
      forall w ensures Justified(log + [Raised(v)]) && (Waiting(log + [Raised(v)], w) <==> w == v || Waiting(log, w)) {
        Appended(log, Raised(v), w);
      }
      hide Waiting, Justified;
      SetPending(v);
      log := log + [Raised(v)];
    }

    /** The device raises a vector: it is delivered now, or left pending when it is blocked or refused. */
    method Raise(v: nat, sink: Option<Errno>) returns (r: Result<()>)
      requires Valid()
      modifies this`log, this`reliable, pba
      ensures Valid()
      ensures r == if v >= count then Err(EINVAL) else if Blocked(v) || sink.None? then Ok(()) else Err(sink.value)
      ensures v >= count ==> log == old(log) && pba[..] == old(pba[..]) && reliable == old(reliable)
      ensures v < count ==>
                && (Pending(v) <==> Blocked(v) || sink.Some?)
                && log == old(log) + (if Pending(v) then [Raised(v)] else [Raised(v), Delivered(v)])
                && reliable == (old(reliable) && (Blocked(v) || sink.None?))
      ensures forall w :: 0 <= w < count && w != v ==> (Pending(w) <==> old(Pending(w)))
    {
      hide Mask, Bit, Waiting, Justified;
      if v >= count {
        return Err(EINVAL);
      }
      Record(v);
      if !enabled || functionMask || Masked(v) {
        return Ok(());
      }
      r := Deliver(v, sink);
      assert old(log) + [Raised(v)] + [Delivered(v)] == old(log) + [Raised(v), Delivered(v)];
    }

    /**
     The table and the pending array as the guest lays them out: bit 0 of the fourth dword of a vector's entry masks
     it, and its pending bit is the bit of its number, counted from the lowest of the first byte.
     */
    lemma RegisterLayout(v: nat)
      requires Shape() && v < count
      ensures Blocked(v) <==> !enabled || functionMask || table[16 * v + 4 * 3] % 2 == 1
      ensures Pending(v) <==> (pba[v / 8] >> (v % 8)) & 1 == 1
    {
      BitByShift(pba[v / 8], v % 8);
    }

    /** Deliveries and the pending bit together never exceed the raises. */
    lemma NeverMoreThanRaised(v: nat)
      requires Valid() && v < count
      ensures Count(log, Delivered(v)) + (if Pending(v) then 1 else 0) <= Count(log, Raised(v))
    {
      AnsweredOnce(log, v);
    }

    /** With a sink that never refused, a raise that was not answered is masked or disabled. */
    lemma NothingLost(v: nat)
      requires Valid() && v < count && reliable && !Blocked(v)
      ensures !Waiting(log, v)
    {
    }
  }
}
