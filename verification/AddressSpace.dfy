/**
 The address space: regions with priorities, where equal priorities must not overlap, and the lookup that
 dispatches an access. Regions are named by an identity `I`, the program's region pointer.
 */
module AddressSpace {
  import opened Base

  datatype Region<I> = Region(id: I, base: nat, size: nat, priority: int, enabled: bool)

  /** Non-empty, and the last byte is still a 64-bit address. */
  predicate ValidRegion<I>(r: Region<I>) {
    0 < r.size && r.base < U64 && r.base <= U64_MAX - (r.size - 1)
  }

  /** The program's overlap test, on last addresses. */
  predicate Overlap<I>(a: Region<I>, b: Region<I>)
    requires ValidRegion(a) && ValidRegion(b)
  {
    a.base <= b.base + b.size - 1 && b.base <= a.base + a.size - 1
  }

  /** Whether an enabled region holds a whole access; a zero-length access may sit right behind it. */
  predicate Contains<I>(r: Region<I>, address: nat, size: nat) {
    r.enabled && r.base <= address && address - r.base <= r.size && size <= r.size - (address - r.base)
  }

  /** Two regions may be in one space: not the same region, and no overlap at equal priority. */
  predicate Compatible<I(==)>(a: Region<I>, b: Region<I>) {
    && ValidRegion(a) && ValidRegion(b)
    && a.id != b.id && (a.priority == b.priority ==> !Overlap(a, b))
  }

  /** The invariant of every space. */
  ghost predicate SpaceInv<I>(s: seq<Region<I>>) {
    && (forall i :: 0 <= i < |s| ==> ValidRegion(s[i]))
    && (forall i, j {:trigger Compatible(s[i], s[j])} :: 0 <= i < j < |s| ==> Compatible(s[i], s[j]))
  }

  lemma InvPair<I>(s: seq<Region<I>>, a: Region<I>, b: Region<I>)
    requires SpaceInv(s) && a in s && b in s && a != b
    ensures Compatible(a, b)
  {
    var i :| 0 <= i < |s| && s[i] == a;
    var j :| 0 <= j < |s| && s[j] == b;
    assert if i < j then Compatible(s[i], s[j]) else Compatible(s[j], s[i]);
  }

  lemma InvDistinct<I>(s: seq<Region<I>>)
    requires SpaceInv(s)
    ensures forall i, j :: 0 <= i < j < |s| ==> s[i].id != s[j].id
  {
    forall i, j | 0 <= i < j < |s| ensures s[i].id != s[j].id { assert Compatible(s[i], s[j]); }
  }

  predicate Has<I(==)>(s: seq<Region<I>>, id: I) {
    exists i :: 0 <= i < |s| && s[i].id == id
  }

  /** An equal-priority region of the space is in the way. */
  predicate Clashes<I>(s: seq<Region<I>>, r: Region<I>)
    requires ValidRegion(r) && forall i :: 0 <= i < |s| ==> ValidRegion(s[i])
  {
    exists i :: 0 <= i < |s| && s[i].priority == r.priority && Overlap(r, s[i])
  }

  function Remove<I(==)>(s: seq<Region<I>>, id: I): seq<Region<I>> {
    if s == [] then [] else if s[0].id == id then s[1..] else [s[0]] + Remove(s[1..], id)
  }

  /** The first region of the highest priority among those that contain the access. */
  function Find<I>(s: seq<Region<I>>, address: nat, size: nat): Option<Region<I>> {
    if s == [] then None
    else
      var best := Find(s[..|s| - 1], address, size);
      var r := s[|s| - 1];
      if Contains(r, address, size) && (best.None? || r.priority > best.value.priority) then Some(r) else best
  }

  // ----- Adding, removing, enabling -----

  lemma {:induction false} RemoveMembers<I>(s: seq<Region<I>>, id: I)
    requires forall i, j :: 0 <= i < j < |s| ==> s[i].id != s[j].id
    ensures forall r :: r in Remove(s, id) <==> r in s && r.id != id
    ensures Has(s, id) ==> |Remove(s, id)| == |s| - 1
    ensures !Has(s, id) ==> Remove(s, id) == s
  {
    if s != [] && s[0].id != id {
      RemoveMembers(s[1..], id);
      assert Has(s, id) <==> Has(s[1..], id) by {
        if i :| 0 <= i < |s| && s[i].id == id {
          assert s[1..][i - 1].id == id;
        }
        if i :| 0 <= i < |s[1..]| && s[1..][i].id == id {
          assert s[i + 1].id == id;
        }
      }
    } else if s != [] {
      assert s == [s[0]] + s[1..];
      assert Has(s, id) by { assert s[0].id == id; }
    }
  }

  lemma {:induction false} RemoveAt<I>(s: seq<Region<I>>, i: nat)
    requires i < |s| && forall j, k :: 0 <= j < k < |s| ==> s[j].id != s[k].id
    ensures Remove(s, s[i].id) == s[..i] + s[i + 1..]
    decreases i
  {
    if i > 0 {
      assert s[1..][i - 1] == s[i];
      RemoveAt(s[1..], i - 1);
      assert [s[0]] + (s[1..][..i - 1] + s[1..][i..]) == s[..i] + s[i + 1..];
    }
  }

  lemma RemovedFrom<I>(s: seq<Region<I>>, id: I, x: Region<I>)
    requires forall i, j :: 0 <= i < j < |s| ==> s[i].id != s[j].id
    ensures x in Remove(s, id) <==> x in s && x.id != id
  {
    hide Remove;
    RemoveMembers(s, id);
  }

  /** Leaving one region out keeps the others compatible. */
  lemma LeaveOneOut<I>(s: seq<Region<I>>, i: nat)
    requires SpaceInv(s) && i < |s|
    ensures SpaceInv(s[..i] + s[i + 1..])
  {
    hide Compatible, ValidRegion;
    var t := s[..i] + s[i + 1..];
    forall j | 0 <= j < |t| ensures ValidRegion(t[j]) {
      assert t[j] == s[if j < i then j else j + 1];
    }
    forall j, k | 0 <= j < k < |t| ensures Compatible(t[j], t[k]) {
      var j', k' := if j < i then j else j + 1, if k < i then k else k + 1;
      assert t[j] == s[j'] && t[k] == s[k'];
      assert Compatible(s[j'], s[k']);
    }
  }

  lemma RemoveKeepsInv<I>(s: seq<Region<I>>, id: I)
    requires SpaceInv(s)
    ensures SpaceInv(Remove(s, id))
  {
    hide SpaceInv, Remove;
    InvDistinct(s);
    RemoveMembers(s, id);
    if Has(s, id) {
      var i :| 0 <= i < |s| && s[i].id == id;
      RemoveAt(s, i);
      LeaveOneOut(s, i);
    }
  }

  lemma AddKeepsInv<I>(s: seq<Region<I>>, r: Region<I>)
    requires SpaceInv(s) && ValidRegion(r) && !Has(s, r.id) && !Clashes(s, r)
    ensures SpaceInv(s + [r])
  {
    var t := s + [r];
    forall j, k | 0 <= j < k < |t|
      ensures Compatible(t[j], t[k])
    {
      if k < |s| {
        assert Compatible(s[j], s[k]);
      }
    }
  }

  /** Enabling and disabling is not part of the invariant. */
  lemma EnableKeepsInv<I>(s: seq<Region<I>>, i: nat, enabled: bool)
    requires SpaceInv(s) && i < |s|
    ensures SpaceInv(s[i := s[i].(enabled := enabled)])
  {
    var t := s[i := s[i].(enabled := enabled)];
    forall j, k | 0 <= j < k < |t|
      ensures Compatible(t[j], t[k])
    {
      assert Compatible(s[j], s[k]);
    }
  }

  /** Putting a removed region back cannot fail, and gives the same regions. */
  lemma PutBack<I>(s: seq<Region<I>>, r: Region<I>)
    requires SpaceInv(s) && r in s
    ensures SpaceInv(Remove(s, r.id)) && !Has(Remove(s, r.id), r.id) && !Clashes(Remove(s, r.id), r)
    ensures forall x :: x in Remove(s, r.id) + [r] <==> x in s
  {
    RemoveKeepsInv(s, r.id);
    InvDistinct(s);
    RemoveMembers(s, r.id);
    hide SpaceInv, Remove;
    var kept := Remove(s, r.id);
    forall i | 0 <= i < |kept|
      ensures ValidRegion(kept[i]) && kept[i].id != r.id && Compatible(kept[i], r)
    {
      var x := kept[i];
      RemovedFrom(s, r.id, x);
      InvPair(s, x, r);
    }
    forall x
      ensures x in kept + [r] <==> x in s
    {
      RemovedFrom(s, r.id, x);
      if x in s && x != r {
        InvPair(s, x, r);
      }
    }
  }

  // ----- Lookup -----

  /** The whole access lies in an enabled region. */
  predicate Covers<I>(r: Region<I>, address: nat, size: nat) {
    r.enabled && r.base <= address && address + size <= r.base + r.size
  }

  /** The answer of a lookup, said without an order: the one covering region that beats all others. */
  ghost predicate Dispatches<I(!new)>(regions: iset<Region<I>>, address: nat, size: nat, r: Region<I>) {
    && r in regions && Covers(r, address, size)
    && forall other :: other in regions && Covers(other, address, size) && other != r ==> other.priority < r.priority
  }

  predicate HasByte<I>(r: Region<I>, byte: nat) { r.base <= byte < r.base + r.size }

  /** The overlap test on last addresses finds exactly the regions that share a byte. */
  lemma OverlapExact<I>(a: Region<I>, b: Region<I>)
    requires ValidRegion(a) && ValidRegion(b)
    ensures Overlap(a, b) <==> exists byte :: HasByte(a, byte) && HasByte(b, byte)
  {
    if Overlap(a, b) {
      var byte := if a.base < b.base then b.base else a.base;
      assert HasByte(a, byte) && HasByte(b, byte);
    }
  }

  ghost function SetOf<I(!new)>(s: seq<Region<I>>): iset<Region<I>> { iset r | r in s }

  lemma {:induction false} FindBest<I>(s: seq<Region<I>>, address: nat, size: nat)
    ensures Find(s, address, size).Some? ==>
              Find(s, address, size).value in s && Contains(Find(s, address, size).value, address, size)
    ensures forall r :: r in s && Contains(r, address, size) ==>
              Find(s, address, size).Some? && r.priority <= Find(s, address, size).value.priority
  {
    if s != [] {
      FindBest(s[..|s| - 1], address, size);
      forall r | r in s ensures r in s[..|s| - 1] || r == s[|s| - 1] { }
    }
  }

  /** Two regions that contain a common byte overlap. */
  lemma SharedByteOverlaps<I>(a: Region<I>, b: Region<I>, address: nat, size: nat)
    requires ValidRegion(a) && ValidRegion(b) && 0 < size && Contains(a, address, size) && Contains(b, address, size)
    ensures Overlap(a, b)
  {
  }

  /**
   For an access of at least one byte, lookup answers exactly the unique highest-priority enabled region that
   contains the whole access, and nothing exactly when none contains it. The order of the regions plays no part.
   */
  lemma FindDispatches<I(!new)>(s: seq<Region<I>>, address: nat, size: nat)
    requires SpaceInv(s) && 0 < size
    ensures forall r :: Find(s, address, size) == Some(r) <==> Dispatches(SetOf(s), address, size, r)
    ensures Find(s, address, size).None? <==> forall r :: r in s ==> !Covers(r, address, size)
  {
    FindBest(s, address, size);
    var found := Find(s, address, size);
    assert forall r :: r in s ==> (Contains(r, address, size) <==> Covers(r, address, size));
    if found.Some? {
      var r := found.value;
      forall other | other in s && Contains(other, address, size) && other != r
        ensures other.priority < r.priority
      {
        InvPair(s, other, r);
        SharedByteOverlaps(r, other, address, size);
      }
      assert Dispatches(SetOf(s), address, size, r);
    }
  }

  /** Spaces with the same regions answer every lookup alike, however they were built. */
  lemma FindIgnoresOrder<I(!new)>(s: seq<Region<I>>, t: seq<Region<I>>, address: nat, size: nat)
    requires SpaceInv(s) && SpaceInv(t) && 0 < size && SetOf(s) == SetOf(t)
    ensures Find(s, address, size) == Find(t, address, size)
  {
    hide SpaceInv, Find, Dispatches;
    FindDispatches(s, address, size);
    FindDispatches(t, address, size);
    var a, b := Find(s, address, size), Find(t, address, size);
    if a.Some? {
      assert Dispatches(SetOf(s), address, size, a.value);
    } else if b.Some? {
      assert Dispatches(SetOf(t), address, size, b.value);
    }
  }

  /** One byte is needed: between two adjacent regions, a zero-length lookup answers the one added first. */
  lemma ZeroLengthSeesOrder<I>(first: I, second: I)
    requires first != second
    ensures var a, b := Region(first, 0, 16, 0, true), Region(second, 16, 16, 0, true);
            && SpaceInv([a, b]) && SpaceInv([b, a])
            && Find([a, b], 16, 0) == Some(a) && Find([b, a], 16, 0) == Some(b)
  {
    var a, b := Region(first, 0, 16, 0, true), Region(second, 16, 16, 0, true);
    FindOfTwo(a, b, 16, 0);
    FindOfTwo(b, a, 16, 0);
  }

  /** Of two regions of equal priority that both contain an access, the first is found. */
  lemma FindOfTwo<I>(a: Region<I>, b: Region<I>, address: nat, size: nat)
    requires Contains(a, address, size) && Contains(b, address, size) && a.priority == b.priority
    ensures Find([a, b], address, size) == Some(a)
  {
    hide Contains;
    var none: seq<Region<I>> := [];
    assert [a][..0] == none && [a][0] == a && [a, b][..1] == [a] && [a, b][1] == b;
    assert Find(none, address, size) == None;
    assert Find([a], address, size) == Some(a);
  }

  // ----- The space as the program keeps it -----

  class RegionObject {
    var base: nat
    var size: nat
    var priority: int
    var enabled: bool
    var space: AddressSpace?

    constructor (at: nat, length: nat, rank: int)
      requires 0 < length && at < U64 && at <= U64_MAX - (length - 1)
      ensures base == at && size == length && priority == rank && enabled && space == null
    {
      base, size, priority, enabled, space := at, length, rank, true, null;
    }

    function Value(): Region<RegionObject>
      reads this
    {
      Region(this, base, size, priority, enabled)
    }
  }

  class AddressSpace {
    var regions: seq<RegionObject>

    ghost predicate Valid()
      reads this, regions
    {
      && SpaceInv(View())
      && forall r :: r in regions ==> r.space == this
    }

    function View(): (v: seq<Region<RegionObject>>)
      reads this, regions
      ensures |v| == |regions| && forall i :: 0 <= i < |v| ==> v[i] == regions[i].Value()
    {
      seq(|regions|, i requires 0 <= i < |regions| reads this, regions => regions[i].Value())
    }

    constructor ()
      ensures Valid() && regions == []
    {
      regions := [];
    }

    /** `EALREADY` for a region that belongs to a space, `EEXIST` for an equal-priority overlap. */
    method Add(region: RegionObject) returns (r: Result<()>)
      requires Valid() && ValidRegion(region.Value())
      modifies this, region`space
      ensures Valid()
      ensures r == if old(region.space) != null then Err(EALREADY)
                   else if old(Clashes(View(), region.Value())) then Err(EEXIST) else Ok(())
      ensures regions == if r.Ok? then old(regions) + [region] else old(regions)
      ensures region.space == if r.Ok? then this else old(region.space)
    {
      if region.space != null {
        return Err(EALREADY);
      }
      var i := 0;
      while i < |regions|
        invariant 0 <= i <= |regions|
        invariant forall k :: 0 <= k < i ==>
                    regions[k].priority != region.priority || !Overlap(region.Value(), regions[k].Value())
      {
        assert View()[i] == regions[i].Value();
        if regions[i].priority == region.priority && Overlap(region.Value(), regions[i].Value()) {
          return Err(EEXIST);
        }
        i := i + 1;
      }
      ghost var before := View();
      AddKeepsInv(before, region.Value());
      regions := regions + [region];
      region.space := this;
      assert View() == before + [region.Value()];
      return Ok(());
    }

    /** `ENOENT` for a region of another space; the others keep their order. */
    method Drop(region: RegionObject) returns (r: Result<()>)
      requires Valid()
      modifies this, region`space
      ensures Valid()
      ensures r == if old(region.space) != this || region !in old(regions) then Err(ENOENT) else Ok(())
      ensures r.Err? ==> regions == old(regions) && region.space == old(region.space)
      ensures r.Ok? ==> region.space == null && View() == Remove(old(View()), region)
    {
      if region.space != this {
        return Err(ENOENT);
      }
      var i := 0;
      while i < |regions|
        invariant 0 <= i <= |regions| && region !in regions[..i]
      {
        if regions[i] == region {
          ghost var before := View();
          assert before[i].id == region;
          InvDistinct(before);
          RemoveAt(before, i);
          RemoveKeepsInv(before, region);
          regions := regions[..i] + regions[i + 1..];
          forall k | 0 <= k < |regions|
            ensures regions[k] != region
          {
            assert before[if k < i then k else k + 1].id == regions[k];
          }
          region.space := null;
          assert View() == before[..i] + before[i + 1..];
          return Ok(());
        }
        i := i + 1;
      }
      return Err(ENOENT);
    }

    method Enable(region: RegionObject, on: bool) returns (r: Result<()>)
      requires Valid()
      modifies region`enabled
      ensures Valid() && regions == old(regions)
      ensures r == if region.space != this then Err(ENOENT) else Ok(())
      ensures region.enabled == if r.Ok? then on else old(region.enabled)
    {
      if region.space != this {
        return Err(ENOENT);
      }
      ghost var before := View();
      region.enabled := on;
      forall j, k | 0 <= j < k < |regions|
        ensures Compatible(View()[j], View()[k])
      {
        assert Compatible(before[j], before[k]);
      }
      return Ok(());
    }

    method Lookup(address: nat, size: nat) returns (r: RegionObject?)
      requires Valid()
      ensures var found := Find(View(), address, size);
              if r == null then found.None? else found == Some(r.Value()) && r in regions
      ensures r != null ==> r.enabled && r.base <= address && address + size <= r.base + r.size
      ensures forall other :: other in regions && Covers(other.Value(), address, size) ==>
                r != null && other.priority <= r.priority
    {
      r := null;
      var i := 0;
      while i < |regions|
        invariant 0 <= i <= |regions|
        invariant var found := Find(View()[..i], address, size);
                  if r == null then found.None? else found == Some(r.Value()) && r in regions
      {
        assert View()[..i + 1][..i] == View()[..i];
        var region := regions[i];
        if Contains(region.Value(), address, size) && (r == null || region.priority > r.priority) {
          r := region;
        }
        i := i + 1;
      }
      assert View()[..i] == View();
      FindBest(View(), address, size);
      forall other | other in regions ensures other.Value() in View() {
        var k :| 0 <= k < |regions| && regions[k] == other;
        assert View()[k] == other.Value();
      }
    }
  }
}
