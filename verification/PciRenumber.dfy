/**
 What a write to a bridge's bus-number register does: which numbers change, where devices answer afterwards,
 and where nothing answers any more.
 */
module PciRenumber {
  import opened Base
  import opened PciTopology
  import opened PciHierarchy
  import opened PciRollback

  /** A write that gives the bridge new numbers; an all-zero write is accepted and changes nothing. */
  ghost predicate Renumbers(t: Topology, b: nat, secondary: u8, subordinate: u8) {
    && Inv(t) && b in t.buses && WriteBusNumbers(t, b, secondary, subordinate).1.Ok?
    && (secondary != 0 || subordinate != 0)
  }

  /** The bridge's bus gets both numbers. No other bus changes but for the subordinate numbers above. */
  ghost predicate GetsNumbers(t: Topology, t': Topology, b: nat, secondary: nat, subordinate: nat) {
    && b in t.buses && t'.buses.Keys == t.buses.Keys && t'.limit == t.limit
    && t'.buses[b] == t.buses[b].(number := secondary, subordinate := subordinate)
    && (forall c :: c in t.buses && c != b ==> t'.buses[c] == t.buses[c].(subordinate := t'.buses[c].subordinate))
  }

  /** Buses above reach the new number, and no farther than they must. */
  ghost predicate AncestorsReach(t: Topology, t': Topology, b: nat, subordinate: nat)
    requires Tree(t) && b in t.buses && t'.buses.Keys == t.buses.Keys
  {
    forall c :: c in t.buses && c != b ==>
      if Below(t, c, b)
      then subordinate <= t'.buses[c].subordinate && t.buses[c].subordinate <= t'.buses[c].subordinate &&
           (t'.buses[c].subordinate == subordinate || t'.buses[c].subordinate == HighestAbove(t, b, c))
      else t'.buses[c].subordinate == t.buses[c].subordinate
  }

  /** The largest subordinate number on the way up from the parent of `b` to `c`. */
  ghost function HighestAbove(t: Topology, b: nat, c: nat): nat
    requires Tree(t) && b in t.buses && c != b && Below(t, c, b)
  {
    TreeHas(t, b);
    Highest(t, t.buses[b].parent.value, c)
  }

  ghost predicate DevicesFollow(t: Topology, t': Topology, b: nat, secondary: nat) {
    t'.devices.Keys == t.devices.Keys && forall d :: d in t.devices ==> Follows(t, b, secondary, t.devices[d], t'.devices[d])
  }

  /** A device keeps its place and its state; an attached one has the requester ID of its place. */
  ghost predicate Follows(t: Topology, b: nat, secondary: nat, dev: Device, dev': Device) {
    && dev' == dev.(requesterId := dev'.requesterId)
    && (dev.place.Some? ==>
          var (c, f) := dev.place.value;
          c in t.buses && dev'.requesterId == (if c == b then secondary else t.buses[c].number) * U8 + f)
  }

  /** What an accepted write comes to. */
  lemma WriteBusNumbersEffect(t: Topology, b: nat, secondary: u8, subordinate: u8)
    requires Renumbers(t, b, secondary, subordinate)
    ensures var t' := WriteBusNumbers(t, b, secondary, subordinate).0;
            && Inv(t') && GetsNumbers(t, t', b, secondary, subordinate)
            && AncestorsReach(t, t', b, subordinate) && DevicesFollow(t, t', b, secondary)
  {
    WriteBusNumbersKeepsInv(t, b, secondary, subordinate);
    Rewritten(t, b, secondary, subordinate);
    hide Inv, WriteBusNumbers, GetsNumbers, AncestorsReach, DevicesFollow, RaiseAncestors, Renumber;
    InvParts(t);
    Numbers(t, b, secondary, subordinate);
    Ancestors(t, b, secondary, subordinate);
    Followers(t, b, secondary, subordinate);
  }

  lemma InvParts(t: Topology)
    requires Inv(t)
    ensures Tree(t) && Placed(t)
  {
  }

  lemma Rewritten(t: Topology, b: nat, secondary: u8, subordinate: u8)
    requires Renumbers(t, b, secondary, subordinate)
    ensures Tree(t) && Tree(Renumber(t, b, secondary, subordinate)) && b in Renumber(t, b, secondary, subordinate).buses
    ensures WriteBusNumbers(t, b, secondary, subordinate).0 == RaiseAncestors(Renumber(t, b, secondary, subordinate), b)
  {
    hide FindBus, RaiseAncestors, StampBelow, Placed, DistinctNumbers, Numbered, Tree;
    RenumberKeepsTree(t, b, secondary, subordinate);
  }

  lemma Numbers(t: Topology, b: nat, secondary: nat, subordinate: nat)
    requires Tree(t) && b in t.buses && Tree(Renumber(t, b, secondary, subordinate))
    requires b in Renumber(t, b, secondary, subordinate).buses
    ensures GetsNumbers(t, RaiseAncestors(Renumber(t, b, secondary, subordinate), b), b, secondary, subordinate)
  {
    hide Tree, StampBelow, RaiseAncestors;
    var t1 := Renumber(t, b, secondary, subordinate);
    RaiseExact(t1, b);
    hide Unraised, PathNested;
    var t' := RaiseAncestors(t1, b);
    assert OnlyRaised(t1, t');
  }

  lemma Ancestors(t: Topology, b: nat, secondary: nat, subordinate: nat)
    requires Tree(t) && b in t.buses && Tree(Renumber(t, b, secondary, subordinate))
    requires b in Renumber(t, b, secondary, subordinate).buses
    ensures var t' := RaiseAncestors(Renumber(t, b, secondary, subordinate), b);
            t'.buses.Keys == t.buses.Keys && AncestorsReach(t, t', b, subordinate)
  {
    hide Tree, StampBelow, RaiseAncestors, Below, HighestAbove;
    var t1 := Renumber(t, b, secondary, subordinate);
    forall c | c in t.buses && c != b
      ensures RaiseAncestors(t1, b).buses[c].subordinate ==
              if Below(t, c, b) then Larger(subordinate, HighestAbove(t, b, c)) else t.buses[c].subordinate
      ensures Below(t, c, b) ==> t.buses[c].subordinate <= HighestAbove(t, b, c)
    {
      Ancestor(t, t1, b, c);
    }
  }

  function Larger(a: nat, b: nat): nat {
    if a < b then b else a
  }

  lemma Ancestor(t: Topology, t1: Topology, b: nat, c: nat)
    requires Tree(t) && Tree(t1) && b in t.buses && c in t.buses && c != b && t1.buses.Keys == t.buses.Keys
    requires t1.buses[b].parent == t.buses[b].parent
    requires forall x :: x in t.buses && x != b ==> t1.buses[x] == t.buses[x]
    ensures RaiseAncestors(t1, b).buses[c].subordinate ==
            if Below(t, c, b) then Larger(t1.buses[b].subordinate, HighestAbove(t, b, c)) else t.buses[c].subordinate
    ensures Below(t, c, b) ==> t.buses[c].subordinate <= HighestAbove(t, b, c)
  {
    RaisedTo(t1, b, c);
    UpOne(t, b, c);
    UpOne(t1, b, c);
    hide Tree, Below, Highest, RaiseAncestors;
    if t.buses[b].parent.Some? {
      var p := t.buses[b].parent.value;
      SamePath(t, t1, p, c);
      if Below(t, c, p) {
        HighestIsHigh(t, p, c);
      }
    }
  }

  lemma UpOne(t: Topology, b: nat, c: nat)
    requires Tree(t) && b in t.buses && c != b
    ensures t.buses[b].parent.Some? ==> t.buses[b].parent.value in t.buses && t.buses[b].parent.value < b
    ensures Below(t, c, b) <==> t.buses[b].parent.Some? && Below(t, c, t.buses[b].parent.value)
    ensures Below(t, c, b) ==> Highest(t, b, c) == Larger(t.buses[b].subordinate, Highest(t, t.buses[b].parent.value, c))
    ensures Below(t, c, b) ==> HighestAbove(t, b, c) == Highest(t, t.buses[b].parent.value, c)
  {
    TreeHas(t, b);
    hide Tree, LinkedDown;
  }

  lemma {:induction false} HighestIsHigh(t: Topology, b: nat, c: nat)
    requires Tree(t) && b in t.buses && c in t.buses && Below(t, c, b)
    ensures t.buses[c].subordinate <= Highest(t, b, c)
    decreases b
  {
    TreeHas(t, b);
    hide Tree, LinkedDown;
    if b != c {
      HighestIsHigh(t, t.buses[b].parent.value, c);
    }
  }

  lemma Followers(t: Topology, b: nat, secondary: nat, subordinate: nat)
    requires Tree(t) && Placed(t) && b in t.buses && Tree(Renumber(t, b, secondary, subordinate))
    requires b in Renumber(t, b, secondary, subordinate).buses
    ensures DevicesFollow(t, RaiseAncestors(Renumber(t, b, secondary, subordinate), b), b, secondary)
  {
    hide Tree, StampBelow, RaiseAncestors, FunctionsAgree;
    var t1 := Renumber(t, b, secondary, subordinate);
    forall d | d in t.devices
      ensures d in t1.devices && Follows(t, b, secondary, t.devices[d], t1.devices[d])
    {
      Follower(t, b, secondary, subordinate, d);
    }
  }

  lemma Follower(t: Topology, b: nat, secondary: nat, subordinate: nat, d: nat)
    requires Tree(t) && Placed(t) && b in t.buses && d in t.devices
    ensures var t1 := Renumber(t, b, secondary, subordinate);
            d in t1.devices && Follows(t, b, secondary, t.devices[d], t1.devices[d])
  {
    hide Tree, StampBelow, FunctionsAgree;
    RenumberedDevice(t, b, secondary, subordinate, d);
    StampedOnly(t, b, secondary, subordinate, d);
    assert t.devices[d].place.Some? ==> PlacedAt(t, d);
  }

  lemma StampedOnly(t: Topology, b: nat, secondary: nat, subordinate: nat, d: nat)
    requires Tree(t) && b in t.buses && d in t.devices
    ensures var t1 := Renumber(t, b, secondary, subordinate);
            d in t1.devices && t1.devices[d] == t.devices[d].(requesterId := t1.devices[d].requesterId)
  {
    hide Tree, StampBelow;
    var t1 := t.(buses := t.buses[b := t.buses[b].(number := secondary, subordinate := subordinate)]);
    SameLinksKeepTree(t, t1);
    StampBelowEither(t1, t.devices, b, d);
  }

  /** After the write, a realized device on the bus answers under the new number, and any other where it did. */
  lemma RenumberedIsFound(t: Topology, b: nat, secondary: u8, subordinate: u8, d: nat, register: nat, size: nat)
    requires Renumbers(t, b, secondary, subordinate)
    requires Attached(t, d) && t.devices[d].realized && register < 0x1000 && register + size <= 0x1000
    ensures var (c, f) := t.devices[d].place.value;
            && c in t.buses && f < U8 && t.buses[c].number < U8
            && var t', number := WriteBusNumbers(t, b, secondary, subordinate).0, if c == b then secondary else t.buses[c].number;
            Inv(t') && EcamLookup(t', (number * U8 + f) * 0x1000 + register, size) == Some(d)
  {
    hide EcamLookup, FindBus, RaiseAncestors, Renumber, Tree, DistinctNumbers, AncestorsReach, GetsNumbers;
    WriteBusNumbersEffect(t, b, secondary, subordinate);
    var t' := WriteBusNumbers(t, b, secondary, subordinate).0;
    assert PlacedAt(t, d) && PlacedAt(t', d);
    IdBound(t', t.devices[d].place.value.0, t.devices[d].place.value.1);
    FoundAt(t', d, register, size);
  }

  /** When the number changed, nothing answers under the old one. */
  lemma OldNumberIsGone(t: Topology, b: nat, secondary: u8, subordinate: u8, f: nat, register: nat, size: nat)
    requires Renumbers(t, b, secondary, subordinate) && t.buses[b].number != secondary
    requires f < U8 && register < 0x1000 && register + size <= 0x1000
    ensures var t' := WriteBusNumbers(t, b, secondary, subordinate).0;
            Inv(t') && EcamLookup(t', (t.buses[b].number * U8 + f) * 0x1000 + register, size) == None
  {
    hide EcamLookup, FindBus, RaiseAncestors, Renumber, Tree, AncestorsReach;
    WriteBusNumbersEffect(t, b, secondary, subordinate);
    var t', id := WriteBusNumbers(t, b, secondary, subordinate).0, t.buses[b].number * U8 + f;
    var offset := id * 0x1000 + register;
    IdBound(t, b, f);
    DivModUnique(offset, 0x1000, id, register);
    var found := EcamLookup(t', offset, size);
    if found.Some? {
      EcamExact(t', offset, size, found.value);
      var d := found.value;
      assert PlacedAt(t', d);
      var (c, g) := t'.devices[d].place.value;
      SameId(t'.buses[c].number, g, t.buses[b].number, f);
    }
  }

  /** An all-zero write is accepted on every bridge and changes nothing. */
  lemma ZeroWriteIsIgnored(t: Topology, b: nat)
    requires Inv(t) && b in t.buses && b != ROOT
    ensures WriteBusNumbers(t, b, 0, 0) == (t, Ok(()))
  {
    TreeHas(t, b);
  }
}
