/**
 The IOMMU context as the program keeps it: a 64-slot entry array with a live count and an eviction
 cursor, updated in place. Each method is proved to act as the function of `TranslationCache` on `View()`.
 */
module IommuContext {
  import opened Base
  import opened PageWalk
  import opened TranslationCache

  class IommuContext {
    var mode: Mode
    var rootPpn: nat
    var rootValid: bool
    var updateAd: bool
    var memory: Memory
    const slots: array<Entry>
    var count: nat
    var next: nat
    var generation: nat

    ghost predicate Valid()
      reads this, slots
    {
      && slots.Length == CAPACITY && count <= CAPACITY && next < U64
      && rootPpn <= U64_MAX / 0x1000
      && forall i :: 0 <= i < count ==> Bounded(slots[i])
    }

    /** The live entries and the mode fields, as a value. */
    ghost function View(): (c: Context)
      requires Valid()
      reads this, slots
      ensures ValidContext(c)
    {
      Context(mode, rootPpn, rootValid, updateAd, Cache(slots[..count], next))
    }

    constructor (initialMode: Mode, downstream: Memory)
      ensures Valid() && fresh(slots)
      ensures View() == Initial(initialMode, downstream).context && memory == downstream && generation == 0
    {
      mode, rootPpn, rootValid, updateAd, memory := initialMode, 0, false, false, downstream;
      slots := new Entry[CAPACITY](_ => Entry(0, 0, 0, 0, false));
      count, next, generation := 0, 0, 0;
    }

    method Flush()
      requires Valid()
      modifies this`count, this`next, slots
      ensures Valid() && View() == old(View()).(cache := EmptyCache())
    {
      forall i | 0 <= i < slots.Length {
        slots[i] := Entry(0, 0, 0, 0, false);
      }
      count, next := 0, 0;
    }

    method FindCached(iova: nat, size: u64, write: bool) returns (hit: Option<nat>)
      requires Valid() && 0 < size
      ensures hit == if updateAd then None else Lookup(View().cache.entries, iova, size, write)
    {
      if updateAd {
        return None;
      }
      var i := 0;
      while i < count
        invariant i <= count
        invariant Lookup(slots[..count], iova, size, write) == Lookup(slots[i..count], iova, size, write)
      {
        assert slots[i..count][0] == slots[i] && slots[i..count][1..] == slots[i + 1..count];
        if !Skips(slots[i], iova, size, write) {
          var offset := iova - slots[i].iovaBase;
          if slots[i].target > U64_MAX - offset || slots[i].target + offset > U64_MAX - (size - 1) {
            return None;
          }
          return Some(slots[i].target + offset);
        }
        i := i + 1;
      }
      return None;
    }

    method InsertCached(t: Translation)
      requires Valid() && Bounded(EntryOf(t))
      modifies this`count, this`next, slots
      ensures Valid() && View() == old(View()).(cache := Insert(old(View()).cache, t))
    {
      if count < CAPACITY {
        slots[count] := EntryOf(t);
        count := count + 1;
      } else {
        slots[next % CAPACITY] := EntryOf(t);
        next := (next + 1) % U64;
      }
    }

    /** Removes one entry by moving the entries behind it down one slot. */
    method RemoveAt(i: nat)
      requires Valid() && i < count
      modifies this`count, slots
      ensures Valid() && count == old(count) - 1
      ensures slots[..i] == old(slots[..i]) && slots[i..count] == old(slots[i + 1..count])
    {
      forall k | i <= k < count - 1 {
        slots[k] := slots[k + 1];
      }
      count := count - 1;
      assert forall k :: i <= k < count ==> slots[k] == old(slots[k + 1]);
    }

    method InvalidateCached(first: nat, length: nat)
      requires Valid() && first + length < U64
      modifies this`count, this`next, slots
      ensures Valid() && View() == old(View()).(cache := InvalidateRange(old(View()).cache, first, length))
    {
      hide Disjoint, Overlaps, OverlapsWrapping;
      ghost var all := slots[..count];
      var i := 0;
      while i < count
        invariant Valid() && i <= count && next == old(next)
        invariant slots[..i] + Disjoint(slots[i..count], first, length) == Disjoint(all, first, length)
        decreases count - i
      {
        ghost var kept, rest := slots[..i], slots[i..count];
        DisjointStep(kept, rest, first, length);
        assert rest[1..] == slots[i + 1..count];
        if OverlapsWrapping(slots[i], first, length) {
          RemoveAt(i);
        } else {
          i := i + 1;
          assert slots[..i] == kept + [rest[0]];
        }
      }
      assert slots[..i] == slots[..count] && slots[i..count] == [];
      NothingDisjoint(first, length);
      next := if count == 0 then 0 else next % count;
    }

    /** The level loop of the walk, with the A/D write-back. */
    method WalkTables(iova: nat, size: u64, write: bool) returns (r: Result<Translation>)
      requires Valid() && 0 < size
      modifies this`memory
      ensures var walk := Walk(old(memory), ConfigOf(View()), iova, size, write);
              r == walk.result && memory == walk.memory
    {
      hide V, R, W, U, A, D, ReservedOrNapot, Permissions, Ppn, SetAd, Index, Place;
      var table: u64, level := rootPpn * 0x1000, 0;
      var x4 := mode == Sv39x4;
      while true
        invariant level < 3 && memory == old(memory)
        invariant FindLeaf(memory, x4, rootPpn * 0x1000, 0, iova) == FindLeaf(memory, x4, table, level, iova)
        decreases 3 - level
      {
        var offset := Index(x4, iova, level) * 8;
        if table > U64_MAX - offset {
          return Err(EFAULT);
        }
        if table + offset !in memory {
          return Err(ENOENT);
        }
        var pte := memory[table + offset];
        if !V(pte) || ReservedOrNapot(pte) {
          return Err(EFAULT);
        }
        if Permissions(pte) == 0 {
          if level == 2 || Ppn(pte) > U64_MAX / 0x1000 {
            return Err(EFAULT);
          }
          table, level := Ppn(pte) * 0x1000, level + 1;
          continue;
        }
        if Denied(pte, write) {
          return Err(EACCES);
        }
        if NeedsAd(pte, write) {
          if !updateAd {
            return Err(EFAULT);
          }
          memory := memory[table + offset := SetAd(pte, write)];
        }
        return Place(Leaf(table + offset, pte, level), iova, size);
      }
    }

    method TranslateAddress(address: u64, size: u64, write: bool) returns (r: Result<nat>)
      requires Valid()
      modifies this`memory, this`count, this`next, slots
      ensures Valid()
      ensures var o := Translate(old(View()), old(memory), address, size, write);
              View() == o.context && memory == o.memory && r == o.result
    {
      hide V, R, W, U, A, D, ReservedOrNapot, Permissions, PermissionR, PermissionW, Ppn, SetAd, FindLeaf, Lookup;
      if size == 0 {
        return Err(EINVAL);
      }
      if mode == Fault {
        return Err(EACCES);
      }
      if mode == Identity {
        return Ok(address);
      }
      if !rootValid {
        return Err(ENODEV);
      }
      var canonical := Canonical(address, mode == Sv39x4);
      if canonical.Err? {
        return Err(canonical.error);
      }
      var iova := canonical.value;
      var hit := FindCached(iova, size, write);
      if hit.Some? {
        return Ok(hit.value);
      }
      var walk := WalkTables(iova, size, write);
      if walk.Err? {
        return Err(walk.error);
      }
      InsertCached(walk.value);
      return Ok(walk.value.target + (iova - walk.value.iovaBase));
    }

    method ChangeMode(newMode: Mode) returns (r: Result<()>)
      requires Valid()
      modifies this`mode, this`count, this`next, slots
      ensures Valid() && (View(), r) == SetMode(old(View()), newMode)
    {
      if Translating(newMode) && !rootValid {
        return Err(EINVAL);
      }
      mode := newMode;
      Flush();
      return Ok(());
    }

    method ChangeRoot(newRoot: nat, ad: bool, x4: bool) returns (r: Result<()>)
      requires Valid()
      modifies this`mode, this`rootPpn, this`rootValid, this`updateAd, this`count, this`next, slots
      ensures Valid() && (View(), r) == SetRoot(old(View()), newRoot, ad, x4)
    {
      if newRoot > U64_MAX / 0x1000 || (x4 && newRoot % 4 != 0) {
        return Err(EINVAL);
      }
      rootPpn, rootValid, updateAd, mode := newRoot, true, ad, if x4 then Sv39x4 else Sv39;
      Flush();
      return Ok(());
    }

    /** Accepted invalidations also advance the generation, which wraps. */
    method InvalidateMapped(address: u64, size: u64) returns (r: Result<()>)
      requires Valid() && generation < U64
      modifies this`generation, this`count, this`next, slots
      ensures Valid() && (View(), r) == Invalidate(old(View()), address, size)
      ensures generation == if r.Ok? then (old(generation) + 1) % U64 else old(generation)
    {
      hide Disjoint;
      if size == 0 || address > U64_MAX - (size - 1) {
        return Err(EINVAL);
      }
      if Translating(mode) {
        var limit := IovaLimit(mode == Sv39x4);
        var iova := Canonical(address, mode == Sv39x4);
        if iova.Err? {
          return Err(EFAULT);
        }
        if size >= limit {
          Flush();
        } else if iova.value > limit - size {
          return Err(ERANGE);
        } else {
          InvalidateCached(iova.value, size);
        }
      } else {
        Flush();
      }
      generation := (generation + 1) % U64;
      return Ok(());
    }
  }

  /** The overlap test on 64-bit sums. */
  predicate OverlapsWrapping(e: Entry, first: nat, length: nat)
    ensures Bounded(e) && first + length < U64 ==> OverlapsWrapping(e, first, length) == Overlaps(e, first, length)
  {
    first < (e.iovaBase + e.size) % U64 && e.iovaBase < (first + length) % U64
  }

  lemma NothingDisjoint(first: nat, length: nat)
    ensures Disjoint([], first, length) == []
  {
  }

  /** Entry bounds are sums that do not wrap: cached pages end at or below 2^41. */
  predicate Bounded(e: Entry) {
    e.iovaBase + e.size < U64
  }
}
