/**
 The memory BARs of a PCI function and its MSI-X table and pending array: mapping, relocation with
 rollback, and the memory-enable bit, over an address space shared with other devices. Bridge windows
 are fixed.
 */
module PciBars {
  import opened Base
  import opened AddressSpace

  const BAR_COUNT: nat := 6

  /** The regions of this function, and those of everyone else. */
  datatype Name = BarRegion(index: nat) | TableRegion | PbaRegion | Foreign(n: nat)

  datatype Bar = Bar(implemented: bool, highPart: bool, size: nat, prefetchable: bool, address: nat, mapped: bool)

  datatype Msix = Msix(configured: bool, tableBar: nat, pbaBar: nat, tableOffset: nat, pbaOffset: nat, vectors: nat, mapped: bool)

  datatype Window = Window(base: nat, size: nat)

  type Space = seq<Region<Name>>

  /** A window of the bus or of a bus above holds the range. */
  predicate InWindows(windows: seq<Window>, address: nat, last: nat) {
    exists i :: 0 <= i < |windows| && windows[i].size != 0 && windows[i].base <= U64_MAX - windows[i].size &&
                windows[i].base <= address && last < windows[i].base + windows[i].size
  }

  function BarValue(index: nat, size: nat, address: nat): Region<Name> {
    Region(BarRegion(index), address, size, 0, true)
  }

  function TableSize(msix: Msix): nat { msix.vectors * 16 }

  function PbaSize(msix: Msix): nat { (msix.vectors + 63) / 64 * 8 }

  function TableValue(bars: seq<Bar>, msix: Msix): Region<Name>
    requires msix.tableBar < |bars|
  {
    Region(TableRegion, bars[msix.tableBar].address + msix.tableOffset, TableSize(msix), 1, true)
  }

  function PbaValue(bars: seq<Bar>, msix: Msix): Region<Name>
    requires msix.pbaBar < |bars|
  {
    Region(PbaRegion, bars[msix.pbaBar].address + msix.pbaOffset, PbaSize(msix), 1, true)
  }

  predicate UsesBar(msix: Msix, index: nat) {
    msix.configured && (msix.tableBar == index || msix.pbaBar == index)
  }

  /** Table and pending array lie within their BARs and, in one BAR, apart. */
  function MsixLayout(bars: seq<Bar>, msix: Msix): Result<()>
    requires msix.tableBar < |bars| && msix.pbaBar < |bars| && 0 < msix.vectors
  {
    var table, pba := bars[msix.tableBar], bars[msix.pbaBar];
    if !table.implemented || !pba.implemented || msix.tableOffset > table.size ||
       TableSize(msix) > table.size - msix.tableOffset || msix.pbaOffset > pba.size ||
       PbaSize(msix) > pba.size - msix.pbaOffset then Err(ERANGE)
    else if msix.tableBar == msix.pbaBar && msix.tableOffset <= msix.pbaOffset + PbaSize(msix) - 1 &&
            msix.pbaOffset <= msix.tableOffset + TableSize(msix) - 1 then Err(EINVAL)
    else Ok(())
  }

  /** Exactly which layouts are sound: both structures whole within implemented BARs, and sharing no byte. */
  lemma MsixLayoutExact(bars: seq<Bar>, msix: Msix)
    requires msix.tableBar < |bars| && msix.pbaBar < |bars| && 0 < msix.vectors
    ensures MsixLayout(bars, msix).Ok? <==>
            && bars[msix.tableBar].implemented && msix.tableOffset + 16 * msix.vectors <= bars[msix.tableBar].size
            && bars[msix.pbaBar].implemented && msix.pbaOffset + (msix.vectors + 63) / 64 * 8 <= bars[msix.pbaBar].size
            && (msix.tableBar == msix.pbaBar ==>
                  msix.tableOffset + 16 * msix.vectors <= msix.pbaOffset ||
                  msix.pbaOffset + (msix.vectors + 63) / 64 * 8 <= msix.tableOffset)
  {
  }

  /** The layout does not depend on where BARs are or whether they are mapped. */
  lemma SameLayout(before: seq<Bar>, after: seq<Bar>, msix: Msix)
    requires |after| == |before|
    requires forall i :: 0 <= i < |before| ==> after[i].implemented == before[i].implemented && after[i].size == before[i].size
    ensures msix.tableBar < |before| && msix.pbaBar < |before| && 0 < msix.vectors ==>
              MsixLayout(after, msix) == MsixLayout(before, msix)
  {
  }

  // ----- Spaces by their members -----

  ghost predicate Same(a: Space, b: Space) { forall x :: x in a <==> x in b }

  ghost predicate Without(after: Space, before: Space, names: set<Name>) {
    forall x :: x in after <==> x in before && x.id !in names
  }

  ghost predicate Within(a: Space, b: Space) { forall x :: x in a ==> x in b }

  /** Two ranges of addresses share none. */
  predicate Apart(a: Region<Name>, b: Region<Name>) {
    a.base + a.size <= b.base || b.base + b.size <= a.base
  }

  /** A region fits into a space without the named regions: 64-bit addresses, and nothing of its priority in the way. */
  ghost predicate Room(s: Space, without: set<Name>, r: Region<Name>) {
    && 0 < r.size && r.base + r.size <= U64
    && forall x :: x in s && x.id !in without && x.priority == r.priority ==> Apart(x, r)
  }

  lemma RoomIsNoClash(part: Space, whole: Space, names: set<Name>, r: Region<Name>)
    requires SpaceInv(part) && Without(part, whole, names)
    ensures Room(whole, names, r) <==> ValidRegion(r) && !Clashes(part, r)
  {
    AllValid(part);
    if ValidRegion(r) {
      forall x | x in part && x.priority == r.priority ensures Overlap(r, x) <==> !Apart(x, r) { }
      if Clashes(part, r) {
        var i :| 0 <= i < |part| && part[i].priority == r.priority && Overlap(r, part[i]);
        assert part[i] in whole && !Apart(part[i], r);
      }
      if x :| x in part && x.priority == r.priority && !Apart(x, r) {
        var i :| 0 <= i < |part| && part[i] == x;
        assert Overlap(r, part[i]);
      }
    }
  }

  /** A region behind another one of a space. */
  lemma RoomBehind(s: Space, first: Region<Name>, r: Region<Name>)
    requires SpaceInv(s) && SpaceInv(s + [first])
    ensures Room(s, {}, r) && (first.priority == r.priority ==> Apart(first, r)) <==>
            ValidRegion(r) && !Clashes(s + [first], r)
  {
    hide SpaceInv, Clashes, ValidRegion, Apart;
    RoomIsNoClash(s + [first], s + [first], {}, r);
    forall x ensures x in s + [first] <==> x in s || x == first { }
  }

  lemma LayoutIgnoresMapped(bars: seq<Bar>, msix: Msix, mapped: bool)
    requires msix.tableBar < |bars| && msix.pbaBar < |bars| && 0 < msix.vectors
    ensures var other := msix.(mapped := mapped);
            && MsixLayout(bars, other) == MsixLayout(bars, msix)
            && TableValue(bars, other) == TableValue(bars, msix) && PbaValue(bars, other) == PbaValue(bars, msix)
  {
  }

  lemma HasIsMember(s: Space, name: Name)
    ensures Has(s, name) <==> exists x :: x in s && x.id == name
  {
  }

  lemma RemoveIsWithout(s: Space, name: Name)
    requires SpaceInv(s)
    ensures SpaceInv(Remove(s, name)) && Without(Remove(s, name), s, {name}) && !Has(Remove(s, name), name)
  {
    RemoveKeepsInv(s, name);
    InvDistinct(s);
    hide SpaceInv, Remove;
    forall x ensures x in Remove(s, name) <==> x in s && x.id !in {name} {
      RemovedFrom(s, name, x);
    }
  }

  /** A region of a space fits into any part of that space it was taken out of. */
  lemma FitsBack(whole: Space, part: Space, r: Region<Name>)
    requires SpaceInv(whole) && SpaceInv(part) && Within(part, whole) && r in whole && !Has(part, r.id)
    ensures ValidRegion(r) && !Clashes(part, r) && SpaceInv(part + [r]) && Within(part + [r], whole)
  {
    hide SpaceInv;
    InvValid(whole, r);
    forall i | 0 <= i < |part| ensures ValidRegion(part[i]) && Compatible(part[i], r) {
      assert part[i] in part;
      InvPair(whole, part[i], r);
    }
    AddKeepsInv(part, r);
  }

  lemma InvValid(s: Space, r: Region<Name>)
    requires SpaceInv(s) && r in s
    ensures ValidRegion(r)
  {
  }

  lemma AllValid(s: Space)
    requires SpaceInv(s)
    ensures forall i :: 0 <= i < |s| ==> ValidRegion(s[i])
  {
  }

  /** Table and pending array fit over their BARs in a space without the named regions. */
  ghost predicate MsixFits(bars: seq<Bar>, msix: Msix, s: Space, without: set<Name>)
    requires msix.tableBar < |bars| && msix.pbaBar < |bars| && 0 < msix.vectors
  {
    var table, pba := TableValue(bars, msix), PbaValue(bars, msix);
    MsixLayout(bars, msix).Ok? && Room(s, without, table) && Room(s, without, pba) && Apart(table, pba)
  }

  /** Regions of other priorities are not in the way, and mapped flags play no part. */
  lemma MsixFitsBeside(bars: seq<Bar>, bars': seq<Bar>, msix: Msix, msix': Msix, s: Space, without: set<Name>, s': Space)
    requires |bars'| == |bars| && forall k :: 0 <= k < |bars| ==> bars'[k] == bars[k].(mapped := bars'[k].mapped)
    requires msix' == msix.(mapped := msix'.mapped) && msix.tableBar < |bars| && msix.pbaBar < |bars| && 0 < msix.vectors
    requires forall x: Region<Name> :: x.priority == 1 ==> (x in s' <==> x in s && x.id !in without)
    ensures MsixFits(bars', msix', s', {}) <==> MsixFits(bars, msix, s, without)
  {
    hide Apart;
    SameLayout(bars, bars', msix);
    LayoutIgnoresMapped(bars', msix, msix'.mapped);
    hide MsixLayout;
  }

  predicate Wanted(bar: Bar) { bar.implemented && !bar.highPart }

  function RegionOf(bars: seq<Bar>, k: nat): Region<Name>
    requires k < |bars|
  {
    BarValue(k, bars[k].size, bars[k].address)
  }

  ghost predicate AmongFirst(bars: seq<Bar>, i: nat, x: Region<Name>)
    requires i <= |bars|
  {
    exists k :: 0 <= k < i && Wanted(bars[k]) && x == RegionOf(bars, k)
  }

  /** A space with the regions of the first BARs added. */
  ghost predicate WithFirst(s: Space, s': Space, bars: seq<Bar>, i: nat)
    requires i <= |bars|
  {
    forall x :: x in s' <==> x in s || AmongFirst(bars, i, x)
  }

  /** A BAR's region fits into a space beside the BARs before it. */
  ghost predicate FitsBeside(s: Space, bars: seq<Bar>, i: nat)
    requires i < |bars|
  {
    && Room(s, {}, RegionOf(bars, i))
    && forall k :: 0 <= k < i && Wanted(bars[k]) ==> Apart(RegionOf(bars, k), RegionOf(bars, i))
  }

  lemma FitsIsNoClash(s: Space, s': Space, bars: seq<Bar>, i: nat)
    requires i < |bars| && WithFirst(s, s', bars, i) && SpaceInv(s')
    ensures FitsBeside(s, bars, i) <==> ValidRegion(RegionOf(bars, i)) && !Clashes(s', RegionOf(bars, i))
  {
    hide Apart, SpaceInv, ValidRegion, Clashes;
    var r := RegionOf(bars, i);
    RoomIsNoClash(s', s', {}, r);
    if FitsBeside(s, bars, i) {
      forall x | x in s' && x.priority == r.priority ensures Apart(x, r) { }
    }
    if Room(s', {}, r) {
      forall k | 0 <= k < i && Wanted(bars[k]) ensures Apart(RegionOf(bars, k), r) {
        assert AmongFirst(bars, i, RegionOf(bars, k));
      }
    }
  }

  lemma NoneYet(s: Space, bars: seq<Bar>)
    ensures WithFirst(s, s, bars, 0)
  {
  }

  lemma OneMore(s: Space, s': Space, bars: seq<Bar>, i: nat)
    requires i < |bars| && WithFirst(s, s', bars, i)
    ensures !Wanted(bars[i]) ==> WithFirst(s, s', bars, i + 1)
    ensures Wanted(bars[i]) ==> WithFirst(s, s' + [RegionOf(bars, i)], bars, i + 1)
  {
    forall x ensures AmongFirst(bars, i + 1, x) <==> AmongFirst(bars, i, x) || (Wanted(bars[i]) && x == RegionOf(bars, i)) {
      if Wanted(bars[i]) && x == RegionOf(bars, i) {
        assert 0 <= i < i + 1 && x == RegionOf(bars, i);
      }
    }
  }

  lemma RoomWithout(part: Space, whole: Space, names: set<Name>, r: Region<Name>)
    requires Without(part, whole, names)
    ensures Room(part, {}, r) <==> Room(whole, names, r)
  {
    hide Apart;
  }

  lemma FirstLeaveMsix(s: Space, s': Space, bars: seq<Bar>)
    requires WithFirst(s, s', bars, |bars|)
    ensures forall x: Region<Name> :: x.priority == 1 ==> (x in s' <==> x in s)
  {
  }

  lemma MsixFitsBack(bars: seq<Bar>, msix: Msix, s: Space)
    requires msix.tableBar < |bars| && msix.pbaBar < |bars| && 0 < msix.vectors && MsixLayout(bars, msix).Ok?
    requires SpaceInv(s) && SpaceInv(s + [TableValue(bars, msix)])
    requires ValidRegion(TableValue(bars, msix)) && !Clashes(s, TableValue(bars, msix))
    requires ValidRegion(PbaValue(bars, msix)) && !Clashes(s + [TableValue(bars, msix)], PbaValue(bars, msix))
    ensures MsixFits(bars, msix, s, {})
  {
    hide MsixLayout, Room, Clashes, SpaceInv, ValidRegion;
    RoomIsNoClash(s, s, {}, TableValue(bars, msix));
    RoomBehind(s, TableValue(bars, msix), PbaValue(bars, msix));
  }

  class PciFunction {
    const windows: seq<Window>
    const prefetchWindows: seq<Window>
    var bars: seq<Bar>
    var msix: Msix
    var memoryEnabled: bool
    var space: Space

    /** Sound static configuration. */
    ghost predicate Configured()
      reads this`bars, this`msix
    {
      && |bars| == BAR_COUNT
      && (forall i :: 0 <= i < BAR_COUNT ==> bars[i].address < U64 && (bars[i].implemented ==> 0 < bars[i].size))
      && (msix.configured ==> msix.tableBar < BAR_COUNT && msix.pbaBar < BAR_COUNT && 0 < msix.vectors)
    }

    /** The space holds a BAR's region exactly if its mapped flag is set, and then at its address. */
    ghost predicate BarInPlace(i: nat)
      requires i < |bars|
      reads this`bars, this`space
    {
      var bar := bars[i];
      if bar.mapped
      then bar.implemented && !bar.highPart && Mappable(bar, bar.address) && BarValue(i, bar.size, bar.address) in space
      else !Has(space, BarRegion(i))
    }

    ghost predicate MsixInPlace()
      requires Configured()
      reads this`bars, this`msix, this`space
    {
      if msix.mapped
      then msix.configured && MsixLayout(bars, msix).Ok? && TableValue(bars, msix) in space && PbaValue(bars, msix) in space
      else !Has(space, TableRegion) && !Has(space, PbaRegion)
    }

    ghost predicate Valid()
      reads this`bars, this`msix, this`space
    {
      Configured() && SpaceInv(space) && (forall i :: 0 <= i < BAR_COUNT ==> BarInPlace(i)) && MsixInPlace()
    }

    /** Memory decoding is on exactly when everything is mapped; when it is off nothing is. */
    ghost predicate Realized()
      reads this
    {
      && Valid()
      && (forall i :: 0 <= i < BAR_COUNT ==> bars[i].mapped == (memoryEnabled && bars[i].implemented && !bars[i].highPart))
      && msix.mapped == (memoryEnabled && msix.configured)
    }

    /** A function with memory decoding off, in a space that holds none of its regions. */
    constructor (shared: Space, memoryWindows: seq<Window>, prefetchableWindows: seq<Window>, layout: seq<Bar>, vectors: Msix)
      requires |layout| == BAR_COUNT && SpaceInv(shared) && Without(shared, shared, OwnNames())
      requires forall i :: 0 <= i < BAR_COUNT ==>
                 layout[i].address < U64 && !layout[i].mapped && (layout[i].implemented ==> 0 < layout[i].size)
      requires !vectors.mapped
      requires vectors.configured ==> vectors.tableBar < BAR_COUNT && vectors.pbaBar < BAR_COUNT && 0 < vectors.vectors
      ensures Realized() && !memoryEnabled && bars == layout && msix == vectors && space == shared
      ensures windows == memoryWindows && prefetchWindows == prefetchableWindows
    {
      windows, prefetchWindows, space := memoryWindows, prefetchableWindows, shared;
      bars, msix, memoryEnabled := layout, vectors, false;
      new;
      forall name | name in OwnNames() ensures !Has(space, name) {
        HasIsMember(space, name);
      }
    }

    /** A BAR can move: it fits at the new address, and MSI-X fits over it, once both are out of the way. */
    ghost predicate MoveFits(index: nat, address: nat)
      requires Configured() && index < BAR_COUNT
      reads this`bars, this`msix, this`space
    {
      var withMsix := msix.mapped && UsesBar(msix, index);
      && Mappable(bars[index], address)
      && Room(space, TakenOut(withMsix, index), BarValue(index, bars[index].size, address))
      && (withMsix ==>
            && msix.configured
            && MsixFits(bars[index := bars[index].(address := address)], msix, space, TakenOut(withMsix, index)))
    }

    /** All BARs and MSI-X fit into the space, and beside each other, at the recorded addresses. */
    ghost predicate EnableFits()
      requires Configured()
      reads this`bars, this`msix, this`space
    {
      && (forall k :: 0 <= k < BAR_COUNT && Wanted(bars[k]) ==>
            Mappable(bars[k], bars[k].address) && FitsBeside(space, bars, k))
      && (msix.configured ==> MsixFits(bars, msix, space, {}))
    }

    /** Alignment, no wrap, and a window that holds the range. */
    predicate Mappable(bar: Bar, address: nat) {
      && 0 < bar.size && address % bar.size == 0 && address < U64 && address <= U64_MAX - (bar.size - 1)
      && InWindows(if bar.prefetchable then prefetchWindows else windows, address, address + bar.size - 1)
    }

    method MapBar(index: nat, address: u64) returns (r: Result<()>)
      requires Valid() && index < BAR_COUNT && !bars[index].mapped && bars[index].implemented && !bars[index].highPart
      requires msix.mapped ==> !UsesBar(msix, index)
      modifies this`bars, this`space
      ensures Valid()
      ensures r.Ok? <==> old(Mappable(bars[index], address) && !Clashes(space, BarValue(index, bars[index].size, address)))
      ensures r.Ok? ==> bars == old(bars)[index := old(bars)[index].(address := address, mapped := true)] &&
                        space == old(space) + [BarValue(index, bars[index].size, address)]
      ensures r.Err? ==> bars == old(bars) && space == old(space)
    {
      hide SpaceInv, Clashes, InWindows, MsixLayout;
      var bar := bars[index];
      AllValid(space);
      if address % bar.size != 0 || address > U64_MAX - (bar.size - 1) {
        return Err(EINVAL);
      }
      if !InWindows(if bar.prefetchable then prefetchWindows else windows, address, address + bar.size - 1) {
        return Err(ERANGE);
      }
      var region := BarValue(index, bar.size, address);
      if Clashes(space, region) {
        return Err(EEXIST);
      }
      assert BarInPlace(index) && MsixInPlace();
      AddKeepsInv(space, region);
      ghost var before, oldBars := space, bars;
      space := space + [region];
      bars := bars[index := bar.(address := address, mapped := true)];
      HasAppended(before, region);
      SameLayout(oldBars, bars, msix);
      forall i | 0 <= i < BAR_COUNT ensures BarInPlace(i) {
        assert old(BarInPlace(i));
      }
      return Ok(());
    }

    /** Takes a BAR's region out of the space. */
    method UnmapBar(index: nat)
      requires Valid() && index < BAR_COUNT
      modifies this`bars, this`space
      ensures Valid()
      ensures bars == old(bars)[index := old(bars)[index].(mapped := false)]
      ensures Without(space, old(space), {BarRegion(index)})
      ensures !old(bars)[index].mapped ==> space == old(space)
    {
      hide SpaceInv, MsixLayout, InWindows, Remove, Has;
      assert BarInPlace(index);
      if bars[index].mapped {
        RemoveIsWithout(space, BarRegion(index));
        ghost var before := space;
        space := Remove(space, BarRegion(index));
        HasWithout(before, space, {BarRegion(index)});
      } else {
        HasIsMember(space, BarRegion(index));
      }
      ghost var oldBars := bars;
      bars := bars[index := bars[index].(mapped := false)];
      assert old(MsixInPlace());
      SameLayout(oldBars, bars, msix);
      forall i | 0 <= i < BAR_COUNT ensures BarInPlace(i) {
        assert old(BarInPlace(i));
      }
    }

    method UnmapMsix()
      requires Valid()
      modifies this`msix, this`space
      ensures Valid() && msix == old(msix).(mapped := false)
      ensures Without(space, old(space), {TableRegion, PbaRegion})
      ensures !old(msix.mapped) ==> space == old(space)
    {
      hide SpaceInv, MsixLayout, InWindows, Remove, Has;
      assert old(MsixInPlace());
      ghost var before := space;
      if msix.mapped {
        RemoveIsWithout(space, TableRegion);
        space := Remove(space, TableRegion);
        RemoveIsWithout(space, PbaRegion);
        space := Remove(space, PbaRegion);
        HasWithout(before, space, {TableRegion, PbaRegion});
        msix := msix.(mapped := false);
      } else {
        HasIsMember(space, TableRegion);
        HasIsMember(space, PbaRegion);
      }
      forall i | 0 <= i < BAR_COUNT ensures BarInPlace(i) {
        assert old(BarInPlace(i));
      }
    }

    /** Overlays the MSI-X table and pending array on their BARs; both or neither. */
    method MapMsix() returns (r: Result<()>)
      requires Valid()
      modifies this`msix, this`space
      ensures Valid()
      ensures !msix.configured || old(msix.mapped) ==> r.Ok? && msix == old(msix) && space == old(space)
      ensures msix.configured && !old(msix.mapped) && r.Ok? ==>
                msix == old(msix).(mapped := true) && space == old(space) + [TableValue(bars, msix)] + [PbaValue(bars, msix)]
      ensures r.Err? ==> msix == old(msix) && Same(space, old(space))
      ensures msix.configured && !old(msix.mapped) ==> (r.Ok? <==> old(MsixFits(bars, msix, space, {})))
    {
      hide SpaceInv, Clashes, InWindows, Has, Remove, Room, Apart;
      assert MsixInPlace();
      if !msix.configured || msix.mapped {
        return Ok(());
      }
      var layout := MsixLayout(bars, msix);
      if layout.Err? {
        return layout;
      }
      var table, pba := TableValue(bars, msix), PbaValue(bars, msix);
      AllValid(space);
      RoomIsNoClash(space, space, {}, table);
      if !ValidRegion(table) {
        return Err(EINVAL);
      }
      if Clashes(space, table) {
        return Err(EEXIST);
      }
      ghost var before := space;
      AddKeepsInv(space, table);
      RoomBehind(space, table, pba);
      space := space + [table];
      AllValid(space);
      if !ValidRegion(pba) || Clashes(space, pba) {
        r := if ValidRegion(pba) then Err(EEXIST) else Err(EINVAL);
        RemoveIsWithout(space, TableRegion);
        space := Remove(space, TableRegion);
        HasIsMember(before, TableRegion);
        assert Same(space, before);
        SameHas(before, space);
        forall i | 0 <= i < BAR_COUNT ensures BarInPlace(i) {
          assert old(BarInPlace(i));
        }
        return;
      }
      HasAppended(before, table);
      AddKeepsInv(space, pba);
      HasAppended(space, pba);
      space := space + [pba];
      msix := msix.(mapped := true);
      forall i | 0 <= i < BAR_COUNT ensures BarInPlace(i) {
        assert old(BarInPlace(i));
      }
      return Ok(());
    }

    /** Unmaps everything; addresses stay. */
    method DisableMemory()
      requires Valid()
      modifies this`bars, this`msix, this`space
      ensures Valid() && msix == old(msix).(mapped := false) && bars == Unmapped(old(bars))
      ensures Without(space, old(space), OwnNames())
    {
      hide SpaceInv, MsixLayout, InWindows, BarInPlace, MsixInPlace;
      UnmapMsix();
      ghost var names := {TableRegion, PbaRegion};
      var i := 0;
      while i < BAR_COUNT
        invariant i <= BAR_COUNT && Valid() && msix == old(msix).(mapped := false)
        invariant forall k :: 0 <= k < BAR_COUNT ==>
                    bars[k] == if k < i then old(bars)[k].(mapped := false) else old(bars)[k]
        invariant names == {TableRegion, PbaRegion} + (set k: nat | k < i :: BarRegion(k))
        invariant Without(space, old(space), names)
      {
        ghost var before := space;
        UnmapBar(i);
        WithoutMore(space, before, old(space), names, {BarRegion(i)});
        names := names + {BarRegion(i)};
        i := i + 1;
        assert names == {TableRegion, PbaRegion} + (set k: nat | k < i :: BarRegion(k));
      }
    }

    /** Maps every implemented BAR at its recorded address, then MSI-X; on any failure nothing stays mapped. */
    method EnableMemory() returns (r: Result<()>)
      requires Realized() && !memoryEnabled
      modifies this`bars, this`msix, this`space
      ensures Valid()
      ensures r.Ok? ==> msix == old(msix).(mapped := msix.configured) &&
                        forall k :: 0 <= k < BAR_COUNT ==>
                          bars[k] == old(bars)[k].(mapped := old(bars)[k].implemented && !old(bars)[k].highPart)
      ensures r.Err? ==> bars == old(bars) && msix == old(msix) && Same(space, old(space))
      ensures Without(old(space), space, OwnNames())
      ensures r.Ok? <==> old(EnableFits())
    {
      hide SpaceInv, MsixLayout, InWindows, BarInPlace, MsixInPlace, Clashes, FitsBeside, AmongFirst, MsixFits;
      NothingOwn();
      var i := 0;
      NoneYet(space, bars);
      while i < BAR_COUNT
        invariant i <= BAR_COUNT && Valid() && msix == old(msix)
        invariant WithFirst(old(space), space, old(bars), i)
        invariant forall k :: 0 <= k < i && Wanted(old(bars)[k]) ==>
                    Mappable(old(bars)[k], old(bars)[k].address) && FitsBeside(old(space), old(bars), k)
        invariant forall k :: 0 <= k < BAR_COUNT ==>
                    bars[k] == if k < i then old(bars)[k].(mapped := old(bars)[k].implemented && !old(bars)[k].highPart)
                               else old(bars)[k]
        invariant Without(old(space), space, OwnNames())
      {
        OneMore(old(space), space, old(bars), i);
        FitsIsNoClash(old(space), space, old(bars), i);
        if bars[i].implemented && !bars[i].highPart && !bars[i].mapped {
          r := MapBar(i, bars[i].address);
          if r.Err? {
            ghost var middle := space;
            DisableMemory();
            Undone(old(space), middle, space);
            return;
          }
        }
        i := i + 1;
      }
      if msix.configured {
        FirstLeaveMsix(old(space), space, old(bars));
        MsixFitsBeside(old(bars), bars, old(msix), msix, old(space), {}, space);
      }
      r := MapMsix();
      if r.Err? {
        ghost var middle := space;
        DisableMemory();
        Undone(old(space), middle, space);
      }
    }

    /**
     Puts a BAR, and MSI-X if it was mapped, back where they were. `whole` is the space they were taken out
     of; because it held them, putting them back cannot fail.
     */
    method Restore(index: nat, address: u64, withMsix: bool, ghost whole: Space, ghost wholeMsix: Msix)
      requires Valid() && index < BAR_COUNT && bars[index].implemented && !bars[index].highPart && !bars[index].mapped
      requires SpaceInv(whole) && Mappable(bars[index], address) && BarValue(index, bars[index].size, address) in whole
      requires wholeMsix == msix.(mapped := withMsix || msix.mapped)
      requires if withMsix then !msix.mapped && UsesBar(msix, index) else (msix.mapped ==> !UsesBar(msix, index))
      requires Without(space, whole, TakenOut(withMsix, index))
      requires withMsix ==>
                 var restored := bars[index := bars[index].(address := address, mapped := true)];
                 MsixLayout(restored, msix).Ok? && TableValue(restored, msix) in whole && PbaValue(restored, msix) in whole
      modifies this`bars, this`msix, this`space
      ensures Valid() && Same(space, whole) && msix == wholeMsix
      ensures bars == old(bars)[index := old(bars)[index].(address := address, mapped := true)]
    {
      hide SpaceInv, MsixLayout, InWindows, Clashes, BarInPlace, MsixInPlace, Has;
      var region := BarValue(index, bars[index].size, address);
      HasWithoutOne(space, whole, BarRegion(index), TakenOut(withMsix, index));
      FitsBack(whole, space, region);
      ghost var part := space;
      var again := MapBar(index, address);
      UniqueNames(whole);
      if again.Ok? && withMsix {
        HasAppended(part, region);
        HasWithoutOne(part, whole, TableRegion, TakenOut(withMsix, index));
        HasWithoutOne(part, whole, PbaRegion, TakenOut(withMsix, index));
        var table, pba := TableValue(bars, msix), PbaValue(bars, msix);
        FitsBack(whole, space, table);
        HasAppended(space, table);
        FitsBack(whole, space + [table], pba);
        MsixFitsBack(bars, msix, space);
        var _ := MapMsix();
      }
    }

    /** Unmaps a BAR, and MSI-X first if it lies in that BAR. */
    method TakeOut(index: nat) returns (withMsix: bool)
      requires Valid() && index < BAR_COUNT
      modifies this`bars, this`msix, this`space
      ensures Valid() && withMsix == (old(msix.mapped) && UsesBar(old(msix), index))
      ensures bars == old(bars)[index := old(bars)[index].(mapped := false)]
      ensures msix == if withMsix then old(msix).(mapped := false) else old(msix)
      ensures Without(space, old(space), TakenOut(withMsix, index))
    {
      hide SpaceInv, MsixLayout, InWindows, Clashes, BarInPlace, MsixInPlace;
      withMsix := msix.mapped && UsesBar(msix, index);
      if withMsix {
        UnmapMsix();
      }
      ghost var middle := space;
      UnmapBar(index);
      if withMsix {
        WithoutMore(space, middle, old(space), {TableRegion, PbaRegion}, {BarRegion(index)});
      }
    }

    /** Maps a BAR and, if asked, MSI-X; if either fails, neither is mapped. */
    method PutIn(index: nat, address: u64, withMsix: bool) returns (r: Result<()>)
      requires Valid() && index < BAR_COUNT && !bars[index].mapped && bars[index].implemented && !bars[index].highPart
      requires if withMsix then msix.configured && !msix.mapped else (msix.mapped ==> !UsesBar(msix, index))
      modifies this`bars, this`msix, this`space
      ensures Valid()
      ensures r.Ok? ==> bars == old(bars)[index := old(bars)[index].(address := address, mapped := true)] &&
                        msix == old(msix).(mapped := withMsix || old(msix.mapped))
      ensures r.Err? ==> (exists a: u64 :: bars == old(bars)[index := old(bars)[index].(address := a)]) &&
                         msix == old(msix) && Same(space, old(space))
      ensures r.Ok? <==> old(Mappable(bars[index], address) && Room(space, {}, BarValue(index, bars[index].size, address)) &&
                             (withMsix ==> MsixFits(bars[index := bars[index].(address := address)], msix, space, {})))
    {
      hide SpaceInv, MsixLayout, InWindows, Clashes, MsixInPlace, Room, MsixFits;
      assert BarInPlace(index);
      ghost var part := space;
      RoomIsNoClash(space, space, {}, BarValue(index, bars[index].size, address));
      assert bars == bars[index := bars[index].(address := bars[index].address)];
      r := MapBar(index, address);
      if r.Ok? && withMsix {
        ghost var grown := space;
        MsixFitsBeside(old(bars)[index := old(bars)[index].(address := address)], bars, msix, msix, part, {}, space);
        r := MapMsix();
        if r.Err? {
          ghost var unmoved := space;
          UnmapBar(index);
          BackToPart(part, grown, unmoved, space, BarRegion(index));
          assert bars == old(bars)[index := old(bars)[index].(address := address)];
        }
      }
    }

    /**
     Moves a BAR. With memory decoding on, the region moves too, and MSI-X with it; if that fails, the
     function's addresses, flags and the set of regions are as before.
     */
    method Relocate(index: nat, address: u64) returns (r: Result<()>)
      requires Realized() && index < BAR_COUNT && bars[index].implemented && !bars[index].highPart
      modifies this`bars, this`msix, this`space
      ensures Realized()
      ensures r.Ok? ==> bars == old(bars)[index := old(bars)[index].(address := address)] && msix == old(msix)
      ensures r.Err? ==> bars == old(bars) && msix == old(msix) && Same(space, old(space))
      ensures !memoryEnabled ==> r.Ok? && space == old(space)
      ensures memoryEnabled ==> (r.Ok? <==> old(MoveFits(index, address)))
    {
      if !memoryEnabled {
        MoveUnmapped(index, address);
        return Ok(());
      }
      hide Valid;
      r := MoveMapped(index, address);
    }

    /** Takes the BAR out, puts it in at the new address, and restores it if that fails. */
    method MoveMapped(index: nat, address: u64) returns (r: Result<()>)
      requires Valid() && index < BAR_COUNT && |bars| == BAR_COUNT && bars[index].mapped
      modifies this`bars, this`msix, this`space
      ensures Valid()
      ensures r.Ok? ==> bars == old(bars)[index := old(bars)[index].(address := address)] && msix == old(msix)
      ensures r.Err? ==> bars == old(bars) && msix == old(msix) && Same(space, old(space))
      ensures r.Ok? <==> old(MoveFits(index, address))
    {
      hide SpaceInv, MsixLayout, InWindows, Clashes, Room, MsixFits;
      var oldAddress := bars[index].address;
      ghost var oldBars, whole := bars, space;
      assert BarInPlace(index) && MsixInPlace();
      hide BarInPlace, MsixInPlace;
      var withMsix := TakeOut(index);
      ghost var part := space;
      RoomWithout(part, whole, TakenOut(withMsix, index), BarValue(index, bars[index].size, address));
      if withMsix {
        MsixFitsBeside(oldBars[index := oldBars[index].(address := address)], bars[index := bars[index].(address := address)],
                       old(msix), msix, whole, TakenOut(withMsix, index), part);
      }
      r := PutIn(index, address, withMsix);
      if r.Err? {
        assert bars[index := bars[index].(address := oldAddress, mapped := true)] == oldBars;
        SameWithout(space, part, whole, TakenOut(withMsix, index));
        if withMsix {
          LayoutIgnoresMapped(oldBars, old(msix), false);
        }
        hide Same, Without;
        Restore(index, oldAddress, withMsix, whole, old(msix));
      }
    }

    /** With memory decoding off, only the recorded address changes. */
    method MoveUnmapped(index: nat, address: u64)
      requires Realized() && !memoryEnabled && index < BAR_COUNT
      modifies this`bars
      ensures Realized() && bars == old(bars)[index := old(bars)[index].(address := address)]
    {
      hide SpaceInv, MsixLayout, InWindows;
      ghost var oldBars := bars;
      bars := bars[index := bars[index].(address := address)];
      assert old(MsixInPlace());
      forall i | 0 <= i < BAR_COUNT ensures BarInPlace(i) {
        assert old(BarInPlace(i));
      }
    }

    /** A dword write to a BAR register; all ones only arms the size probe. */
    method WriteBar(index: nat, high: bool, value: u32) returns (r: Result<()>)
      requires Realized() && index < BAR_COUNT && bars[index].implemented && !bars[index].highPart
      modifies this`bars, this`msix, this`space
      ensures Realized()
      ensures value == U32 - 1 ==> r.Ok? && bars == old(bars) && msix == old(msix) && space == old(space)
      ensures value != U32 - 1 && r.Ok? ==>
                var a := bars[index].address;
                && bars == old(bars)[index := old(bars)[index].(address := a)]
                && (if high then a / U32 == value && a % U32 == old(bars)[index].address % U32
                    else a / U32 == old(bars)[index].address / U32 && a % U32 == value - value % 16)
      ensures r.Err? ==> bars == old(bars) && msix == old(msix) && Same(space, old(space))
      ensures value != U32 - 1 ==>
                var current := old(bars)[index].address;
                var address := if high then current % U32 + value * U32 else current / U32 * U32 + (value - value % 16);
                r.Ok? <==> (memoryEnabled ==> old(MoveFits(index, address)))
    {
      hide SpaceInv, MsixLayout, InWindows, BarInPlace, MsixInPlace, MoveFits;
      if value == U32 - 1 {
        return Ok(());
      }
      var current := bars[index].address;
      var address := if high then current % U32 + value * U32 else current / U32 * U32 + (value - value % 16);
      r := Relocate(index, address);
    }

    /** A write to the command register that sets or clears memory enable. A failed enable leaves it clear. */
    method WriteCommand(enable: bool) returns (r: Result<()>)
      requires Realized()
      modifies this`bars, this`msix, this`space, this`memoryEnabled
      ensures Realized()
      ensures memoryEnabled == if r.Ok? then enable else old(memoryEnabled)
      ensures forall k :: 0 <= k < BAR_COUNT ==> bars[k].address == old(bars)[k].address
      ensures r.Err? ==> bars == old(bars) && msix == old(msix) && Same(space, old(space))
      ensures enable == old(memoryEnabled) ==> r.Ok? && bars == old(bars) && msix == old(msix) && space == old(space)
      ensures r.Ok? <==> (enable && !old(memoryEnabled) ==> old(EnableFits()))
    {
      hide EnableFits;
      hide SpaceInv, MsixLayout, InWindows, BarInPlace, MsixInPlace;
      if enable && !memoryEnabled {
        r := EnableMemory();
        if r.Err? {
          return;
        }
      } else if !enable && memoryEnabled {
        DisableMemory();
      }
      memoryEnabled := enable;
      return Ok(());
    }

    /** Exactly where a BAR may lie: aligned to its size, in 64 bits, and whole within one window of its kind. */
    lemma MappableExact(bar: Bar, address: nat)
      ensures var allowed := if bar.prefetchable then prefetchWindows else windows;
              Mappable(bar, address) <==>
              && 0 < bar.size && address % bar.size == 0 && address + bar.size <= U64
              && exists i :: 0 <= i < |allowed| && 0 < allowed[i].size && allowed[i].base + allowed[i].size < U64 &&
                             allowed[i].base <= address && address + bar.size <= allowed[i].base + allowed[i].size
    {
    }

    /** A region of this function in the space is the one its registers describe. */
    lemma OwnRegion(x: Region<Name>)
      requires Valid() && x in space
      ensures x.id.BarRegion? && x.id.index < BAR_COUNT ==> x == RegionOf(bars, x.id.index)
      ensures x.id == TableRegion ==> msix.mapped && x == TableValue(bars, msix)
      ensures x.id == PbaRegion ==> msix.mapped && x == PbaValue(bars, msix)
    {
      UniqueNames(space);
      HasIsMember(space, x.id);
      hide SpaceInv, MsixLayout, Has;
      assert MsixInPlace();
      if x.id.BarRegion? && x.id.index < BAR_COUNT {
        assert BarInPlace(x.id.index);
      }
    }

    /** An access to the vector table reaches it, unless someone else's region of a higher priority lies there. */
    lemma TableAnswers(x: nat, size: nat)
      requires Valid() && msix.mapped && 0 < size && x + size <= 16 * msix.vectors
      requires Below(space, bars[msix.tableBar].address + msix.tableOffset + x, size, 1)
      ensures var found := Find(space, bars[msix.tableBar].address + msix.tableOffset + x, size);
              found.Some? && found.value.id == TableRegion
    {
      hide MsixLayout, InWindows;
      assert MsixInPlace();
      MsixBeats(bars[msix.tableBar].address + msix.tableOffset + x, size, TableValue(bars, msix));
    }

    /** An access to the pending array, a bit for every vector in whole 64-bit words, reaches it likewise. */
    lemma PbaAnswers(x: nat, size: nat)
      requires Valid() && msix.mapped && 0 < size && x + size <= (msix.vectors + 63) / 64 * 8
      requires Below(space, bars[msix.pbaBar].address + msix.pbaOffset + x, size, 1)
      ensures var found := Find(space, bars[msix.pbaBar].address + msix.pbaOffset + x, size);
              found.Some? && found.value.id == PbaRegion
    {
      hide MsixLayout, InWindows;
      assert MsixInPlace();
      MsixBeats(bars[msix.pbaBar].address + msix.pbaOffset + x, size, PbaValue(bars, msix));
    }

    lemma MsixBeats(address: nat, size: nat, r: Region<Name>)
      requires Valid() && 0 < size && r in space && r.priority == 1 && Covers(r, address, size) && Below(space, address, size, 1)
      ensures Find(space, address, size) == Some(r)
    {
      hide SpaceInv, Find, BarInPlace, MsixInPlace;
      FindDispatches(space, address, size);
      forall x | x in space && Covers(x, address, size) && x != r ensures x.priority < r.priority {
        OwnRegion(x);
        InvPair(space, x, r);
      }
      assert Dispatches(SetOf(space), address, size, r);
    }

    /** Any other access within a mapped BAR reaches the BAR. */
    lemma BarAnswers(i: nat, x: nat, size: nat)
      requires Valid() && i < BAR_COUNT && bars[i].mapped && 0 < size && x + size <= bars[i].size
      requires Below(space, bars[i].address + x, size, 0)
      requires msix.mapped ==>
                 var address, table, pba := bars[i].address + x, bars[msix.tableBar].address + msix.tableOffset,
                                            bars[msix.pbaBar].address + msix.pbaOffset;
                 && !(table <= address && address + size <= table + 16 * msix.vectors)
                 && !(pba <= address && address + size <= pba + (msix.vectors + 63) / 64 * 8)
      ensures var found := Find(space, bars[i].address + x, size);
              found.Some? && found.value.id == BarRegion(i) && found.value.base == bars[i].address
    {
      assert BarInPlace(i);
      hide SpaceInv, Find, BarInPlace, MsixInPlace, MsixLayout, InWindows;
      var address, r := bars[i].address + x, RegionOf(bars, i);
      FindDispatches(space, address, size);
      forall y | y in space && Covers(y, address, size) && y != r ensures y.priority < r.priority {
        OwnRegion(y);
        InvPair(space, y, r);
      }
      assert Dispatches(SetOf(space), address, size, r);
    }

    /** With memory decoding off, no region of this function is in the space. */
    lemma NothingOwn()
      requires Realized() && !memoryEnabled
      ensures Without(space, space, OwnNames())
    {
      forall x | x in space ensures x.id !in OwnNames() {
        HasIsMember(space, x.id);
        assert MsixInPlace();
        if x.id.BarRegion? && x.id.index < BAR_COUNT {
          assert BarInPlace(x.id.index);
        }
      }
    }
  }

  /** What is unmapped before a BAR moves. */
  ghost function TakenOut(withMsix: bool, index: nat): set<Name> {
    if withMsix then {TableRegion, PbaRegion} + {BarRegion(index)} else {BarRegion(index)}
  }

  /** Where an access lands, no region of others has more than the given priority. */
  ghost predicate Below(s: Space, address: nat, size: nat, priority: int) {
    forall x :: x in s && x.id !in OwnNames() && Covers(x, address, size) ==> x.priority <= priority
  }

  /** The names of this function's regions. */
  ghost function OwnNames(): set<Name> {
    {TableRegion, PbaRegion} + (set k: nat | k < BAR_COUNT :: BarRegion(k))
  }

  function Unmapped(bars: seq<Bar>): seq<Bar> {
    seq(|bars|, i requires 0 <= i < |bars| => bars[i].(mapped := false))
  }

  /** Taking the own regions out of a grown space gives the space it grew from. */
  lemma Undone(first: Space, middle: Space, last: Space)
    requires Without(first, middle, OwnNames()) && Without(last, middle, OwnNames())
    ensures Same(last, first) && Without(first, last, OwnNames())
  {
  }

  /** Members are determined by their names. */
  lemma UniqueNames(s: Space)
    requires SpaceInv(s)
    ensures forall x, y :: x in s && y in s && x.id == y.id ==> x == y
  {
    forall x, y | x in s && y in s && x.id == y.id ensures x == y {
      if x != y {
        InvPair(s, x, y);
      }
    }
  }

  lemma HasWithoutOne(after: Space, before: Space, name: Name, names: set<Name>)
    requires Without(after, before, names) && name in names
    ensures !Has(after, name)
  {
    HasIsMember(after, name);
  }

  /** Mapping and unmapping a BAR around a failed MSI-X mapping leaves the members as they were. */
  lemma BackToPart(part: Space, grown: Space, unmoved: Space, last: Space, name: Name)
    requires !Has(part, name) && Same(unmoved, grown) && Without(last, unmoved, {name})
    requires exists r: Region<Name> :: r.id == name && grown == part + [r]
    ensures Same(last, part)
  {
    HasIsMember(part, name);
  }

  lemma SameWithout(after: Space, middle: Space, before: Space, names: set<Name>)
    requires Without(middle, before, names) && Same(after, middle)
    ensures Without(after, before, names)
  {
  }

  lemma WithoutMore(after: Space, middle: Space, before: Space, some: set<Name>, more: set<Name>)
    requires Without(middle, before, some) && Without(after, middle, more)
    ensures Without(after, before, some + more)
  {
  }

  lemma HasAppended(s: Space, r: Region<Name>)
    ensures forall name :: Has(s + [r], name) <==> Has(s, name) || name == r.id
  {
    forall name ensures Has(s + [r], name) <==> Has(s, name) || name == r.id {
      HasIsMember(s, name);
      HasIsMember(s + [r], name);
      assert r in s + [r];
    }
  }

  lemma HasWithout(before: Space, after: Space, names: set<Name>)
    requires Without(after, before, names)
    ensures forall name :: Has(after, name) <==> Has(before, name) && name !in names
  {
    forall name ensures Has(after, name) <==> Has(before, name) && name !in names {
      HasIsMember(before, name);
      HasIsMember(after, name);
    }
  }

  lemma SameHas(before: Space, after: Space)
    requires Same(after, before)
    ensures forall name :: Has(after, name) <==> Has(before, name)
  {
    forall name ensures Has(after, name) <==> Has(before, name) {
      HasIsMember(before, name);
      HasIsMember(after, name);
    }
  }

  /** A rolled-back change is invisible: every access is dispatched as before. */
  lemma SameLookups(a: Space, b: Space, address: nat, size: nat)
    requires SpaceInv(a) && SpaceInv(b) && Same(a, b) && 0 < size
    ensures Find(a, address, size) == Find(b, address, size)
  {
    hide SpaceInv, Find;
    FindIgnoresOrder(a, b, address, size);
  }
}
