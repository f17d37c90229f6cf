/**
 The PCI bus tree: bus numbers, requester IDs, bridge renumbering, and configuration-space dispatch.
 Buses and devices are named by natural numbers, the program's pointers; a bus is created after its parent.
 */
module PciTopology {
  import opened Base

  const ROOT: nat := 0
  const WINDOW: nat := 0x1000_0000

  /** What a range of a bus's memory window was handed out for. */
  datatype Owner = Window(bus: nat) | Bar(device: nat, index: nat)

  datatype Grant = Grant(owner: Owner, start: nat, size: nat)

  /**
   A bus; `functions` maps devfn to a device. Memory is handed out from `next` on inside the window of `size`
   bytes at `base`; `grants` is a history variable that records what was handed out.
   */
  datatype Bus = Bus(
    parent: Option<nat>, children: seq<nat>, number: nat, subordinate: nat,
    functions: map<nat, nat>, base: nat, size: nat, next: nat, grants: seq<Grant>)

  datatype Device = Device(place: Option<(nat, nat)>, requesterId: nat, realized: bool)

  datatype Topology = Topology(buses: map<nat, Bus>, devices: map<nat, Device>, limit: nat)

  // ----- The tree -----

  predicate NoDuplicates(s: seq<nat>) {
    forall i, j :: 0 <= i < j < |s| ==> s[i] != s[j]
  }

  /** Every bus but the root is a child of an earlier one. */
  ghost predicate LinkedUp(t: Topology, b: nat)
    requires b in t.buses
  {
    var parent := t.buses[b].parent;
    && (parent.None? <==> b == ROOT)
    && (parent.Some? ==> parent.value < b && parent.value in t.buses && b in t.buses[parent.value].children)
  }

  ghost predicate IsChild(t: Topology, b: nat, c: nat) {
    c in t.buses && t.buses[c].parent == Some(b) && b < c
  }

  ghost predicate LinkedDown(t: Topology, b: nat)
    requires b in t.buses
  {
    NoDuplicates(t.buses[b].children) && forall c :: c in t.buses[b].children ==> IsChild(t, b, c)
  }

  ghost predicate Linked(t: Topology, b: nat)
    requires b in t.buses
  {
    b < t.limit && LinkedUp(t, b) && LinkedDown(t, b)
  }

  ghost predicate Tree(t: Topology) {
    ROOT in t.buses && forall b :: b in t.buses ==> Linked(t, b)
  }

  lemma ChildAt(t: Topology, b: nat, i: nat)
    requires Tree(t) && b in t.buses && i < |t.buses[b].children|
    ensures b < t.limit && IsChild(t, b, t.buses[b].children[i])
    ensures Linked(t, t.buses[b].children[i])
  {
    assert Linked(t, b);
    assert IsChild(t, b, t.buses[b].children[i]);
  }

  lemma LimitIsFresh(t: Topology)
    requires Tree(t)
    ensures t.limit !in t.buses && forall b :: b in t.buses ==> b < t.limit
  {
    forall b | b in t.buses ensures b < t.limit { assert Linked(t, b); }
  }

  lemma NoDuplicatesAppend(s: seq<nat>, x: nat)
    requires NoDuplicates(s) && x !in s
    ensures NoDuplicates(s + [x])
  {
  }

  /** `x` is `b` or lies below it. */
  ghost predicate Below(t: Topology, b: nat, x: nat)
    requires Tree(t) && x in t.buses
    decreases x
  {
    x == b || (t.buses[x].parent.Some? && (assert Linked(t, x); Below(t, b, t.buses[x].parent.value)))
  }

  lemma {:induction false} BelowRoot(t: Topology, x: nat)
    requires Tree(t) && x in t.buses
    ensures Below(t, ROOT, x)
    decreases x
  {
    assert Linked(t, x);
    if x != ROOT {
      BelowRoot(t, t.buses[x].parent.value);
    }
  }

  /** The child of `b` on the way to a bus strictly below it. */
  lemma {:induction false} ChildTowards(t: Topology, b: nat, x: nat) returns (i: nat)
    requires Tree(t) && b in t.buses && x in t.buses && x != b && Below(t, b, x)
    ensures i < |t.buses[b].children|
    ensures t.buses[b].children[i] in t.buses && Below(t, t.buses[b].children[i], x)
    decreases x
  {
    assert Linked(t, x) && Linked(t, b);
    var p := t.buses[x].parent.value;
    if p == b {
      i :| 0 <= i < |t.buses[b].children| && t.buses[b].children[i] == x;
    } else {
      i := ChildTowards(t, b, p);
    }
  }

  lemma {:induction false} BelowIsLater(t: Topology, b: nat, x: nat)
    requires Tree(t) && x in t.buses && Below(t, b, x)
    ensures b <= x
    decreases x
  {
    if x != b {
      assert Linked(t, x);
      BelowIsLater(t, b, t.buses[x].parent.value);
    }
  }

  // ----- Finding a bus by number -----

  /** Depth first, the bus before its children. */
  function FindBus(t: Topology, b: nat, number: nat): (r: Option<nat>)
    requires Tree(t) && b in t.buses
    ensures r.Some? ==> r.value in t.buses && t.buses[r.value].number == number
    decreases t.limit - b, 1, 0
  {
    if t.buses[b].number == number then Some(b) else FindAmong(t, b, 0, number)
  }

  function FindAmong(t: Topology, b: nat, i: nat, number: nat): (r: Option<nat>)
    requires Tree(t) && b in t.buses && i <= |t.buses[b].children|
    ensures r.Some? ==> r.value in t.buses && t.buses[r.value].number == number
    decreases t.limit - b, 0, |t.buses[b].children| - i
  {
    assert Linked(t, b);
    if i == |t.buses[b].children| then None
    else
      ChildAt(t, b, i);
      var found := FindBus(t, t.buses[b].children[i], number);
      if found.Some? then found else FindAmong(t, b, i + 1, number)
  }

  lemma {:induction false} FindBusComplete(t: Topology, b: nat, x: nat)
    requires Tree(t) && b in t.buses && x in t.buses && Below(t, b, x)
    ensures FindBus(t, b, t.buses[x].number).Some?
    decreases t.limit - b
  {
    assert Linked(t, b);
    if x != b && t.buses[b].number != t.buses[x].number {
      var i := ChildTowards(t, b, x);
      ChildAt(t, b, i);
      FindBusComplete(t, t.buses[b].children[i], x);
      FindAmongReaches(t, b, 0, i, t.buses[x].number);
    }
  }

  lemma {:induction false} FindAmongReaches(t: Topology, b: nat, j: nat, i: nat, number: nat)
    requires Tree(t) && b in t.buses && j <= i < |t.buses[b].children|
    requires t.buses[b].children[i] in t.buses && FindBus(t, t.buses[b].children[i], number).Some?
    ensures FindAmong(t, b, j, number).Some?
    decreases i - j
  {
    assert Linked(t, b);
    hide FindBus, Tree;
    if j < i {
      FindAmongReaches(t, b, j + 1, i, number);
    }
  }

  // ----- The invariant -----

  ghost predicate DistinctNumbers(t: Topology) {
    forall b, c :: b in t.buses && c in t.buses && t.buses[b].number == t.buses[c].number ==> b == c
  }

  /** Numbers are bytes, and every bus but the root is within its own subordinate range, so it is visible. */
  ghost predicate Numbered(t: Topology) {
    forall b :: b in t.buses ==> t.buses[b].number < U8 && (b != ROOT ==> t.buses[b].number <= t.buses[b].subordinate)
  }

  /** Functions and devices agree, and requester IDs are up to date. */
  ghost predicate Placed(t: Topology) {
    && (forall b :: b in t.buses ==> FunctionsAgree(t, b))
    && (forall d :: d in t.devices && t.devices[d].place.Some? ==> PlacedAt(t, d))
  }

  ghost predicate FunctionsAgree(t: Topology, b: nat)
    requires b in t.buses
  {
    forall f :: f in t.buses[b].functions ==>
      t.buses[b].functions[f] in t.devices && t.devices[t.buses[b].functions[f]].place == Some((b, f))
  }

  ghost predicate PlacedAt(t: Topology, d: nat)
    requires d in t.devices && t.devices[d].place.Some?
  {
    var (b, f) := t.devices[d].place.value;
    && b in t.buses && f < U8 && f in t.buses[b].functions && t.buses[b].functions[f] == d
    && t.devices[d].requesterId == t.buses[b].number * U8 + f
  }

  ghost predicate Inv(t: Topology) {
    Tree(t) && DistinctNumbers(t) && Numbered(t) && Placed(t)
  }

  /** In a whole tree, finding by number is exact. */
  lemma FindBusExact(t: Topology, number: nat, x: nat)
    requires Tree(t) && DistinctNumbers(t)
    ensures FindBus(t, ROOT, number) == Some(x) <==> x in t.buses && t.buses[x].number == number
  {
    if x in t.buses && t.buses[x].number == number {
      BelowRoot(t, x);
      FindBusComplete(t, ROOT, x);
    }
  }

  /** Requester IDs are globally unique. */
  lemma RequesterIdsUnique(t: Topology, d: nat, e: nat)
    requires Inv(t) && d in t.devices && e in t.devices
    requires t.devices[d].place.Some? && t.devices[e].place.Some?
    ensures t.devices[d].requesterId == t.devices[e].requesterId ==> d == e
  {
    assert PlacedAt(t, d) && PlacedAt(t, e);
    hide Tree, Numbered, Placed;
    var (b, f) := t.devices[d].place.value;
    var (c, g) := t.devices[e].place.value;
    DivModUnique(t.devices[d].requesterId, U8, t.buses[b].number, f);
    DivModUnique(t.devices[e].requesterId, U8, t.buses[c].number, g);
  }

  // ----- Configuration-space dispatch -----

  /** All buses from the target up to the root are within their subordinate ranges. */
  predicate Visible(t: Topology, b: nat)
    requires Tree(t) && b in t.buses
    decreases b
  {
    assert Linked(t, b);
    b == ROOT || (t.buses[b].number <= t.buses[b].subordinate && Visible(t, t.buses[b].parent.value))
  }

  /** The realized function at a bus number and devfn. */
  function FunctionAt(t: Topology, number: nat, devfn: nat): Option<nat>
    requires Tree(t)
  {
    match FindBus(t, ROOT, number)
    case None => None
    case Some(b) =>
      if !Visible(t, b) || devfn !in t.buses[b].functions then None
      else
        var d := t.buses[b].functions[devfn];
        if d in t.devices && t.devices[d].realized then Some(d) else None
  }

  function EcamLookup(t: Topology, offset: nat, size: nat): Option<nat>
    requires Tree(t)
  {
    if size > 0x1000 || offset % 0x1000 > 0x1000 - size then None
    else FunctionAt(t, offset / 0x10_0000 % U8, offset / 0x1000 % 0x100)
  }

  lemma {:induction false} AllVisible(t: Topology, b: nat)
    requires Tree(t) && Numbered(t) && b in t.buses
    ensures Visible(t, b)
    decreases b
  {
    assert Linked(t, b);
    if b != ROOT {
      AllVisible(t, t.buses[b].parent.value);
    }
  }

  /**
   An access within the window reaches device `d` exactly when it stays within one configuration space, `d` is
   attached and realized, and its requester ID is the offset without its register part.
   */
  lemma EcamExact(t: Topology, offset: nat, size: nat, d: nat)
    requires Inv(t) && offset < 0x1000_0000
    ensures EcamLookup(t, offset, size) == Some(d) <==>
            offset % 0x1000 + size <= 0x1000 && d in t.devices && t.devices[d].place.Some? && t.devices[d].realized &&
            t.devices[d].requesterId == offset / 0x1000
  {
    hide FunctionAt, Inv;
    var number, devfn := offset / 0x10_0000, offset / 0x1000 % 0x100;
    OffsetParts(offset);
    FunctionAtExact(t, number, devfn, d);
  }

  lemma OffsetParts(offset: nat)
    requires offset < 0x1000_0000
    ensures offset / 0x10_0000 < U8 && offset / 0x1000 == offset / 0x10_0000 * U8 + offset / 0x1000 % 0x100
  {
  }

  lemma FunctionAtExact(t: Topology, number: nat, devfn: nat, d: nat)
    requires Inv(t) && devfn < U8
    ensures FunctionAt(t, number, devfn) == Some(d) <==>
            d in t.devices && t.devices[d].place.Some? && t.devices[d].realized &&
            t.devices[d].requesterId == number * U8 + devfn
  {
    assert ROOT in t.buses;
    hide Tree, Visible, FindBus;
    var found := FindBus(t, ROOT, number);
    if found.Some? {
      AllVisible(t, found.value);
    }
    if d in t.devices && t.devices[d].place.Some? {
      assert PlacedAt(t, d);
      var (b, f) := t.devices[d].place.value;
      FindBusExact(t, number, b);
      SameId(t.buses[b].number, f, number, devfn);
    }
  }

  lemma SameId(a: nat, f: nat, b: nat, g: nat)
    requires f < U8 && g < U8
    ensures a * U8 + f == b * U8 + g <==> a == b && f == g
  {
  }

  // ----- Subordinate numbers -----

  /** Two topologies that differ in nothing but larger subordinate numbers. */
  ghost predicate OnlyRaised(t: Topology, t': Topology) {
    && t'.devices == t.devices && t'.limit == t.limit && t'.buses.Keys == t.buses.Keys
    && forall b :: b in t.buses ==>
         t.buses[b].subordinate <= t'.buses[b].subordinate &&
         t'.buses[b] == t.buses[b].(subordinate := t'.buses[b].subordinate)
  }

  lemma RaisedKeepsTree(t: Topology, t': Topology)
    requires Tree(t) && OnlyRaised(t, t')
    ensures Tree(t')
  {
    hide Tree;
    SameLinksKeepTree(t, t');
  }

  /** The tree is a matter of parents and children only. */
  lemma SameLinksKeepTree(t: Topology, t': Topology)
    requires Tree(t) && t'.limit == t.limit && t'.buses.Keys == t.buses.Keys
    requires forall b :: b in t.buses ==>
               t'.buses[b].parent == t.buses[b].parent && t'.buses[b].children == t.buses[b].children
    ensures Tree(t')
  {
    forall b | b in t'.buses ensures Linked(t', b) {
      assert Linked(t, b);
      forall c | c in t'.buses[b].children ensures IsChild(t', b, c) {
        assert IsChild(t, b, c);
      }
    }
  }

  /** Devices stay placed when buses keep their numbers and functions. */
  lemma KeepsPlaced(t: Topology, t': Topology)
    requires Placed(t) && t'.devices == t.devices && t.buses.Keys <= t'.buses.Keys
    requires forall b :: b in t.buses ==> t'.buses[b].number == t.buses[b].number && t'.buses[b].functions == t.buses[b].functions
    requires forall b :: b in t'.buses && b !in t.buses ==> t'.buses[b].functions == map[]
    ensures Placed(t')
  {
    forall b | b in t'.buses ensures FunctionsAgree(t', b) {
      if b in t.buses {
        assert FunctionsAgree(t, b);
      }
    }
    forall d | d in t'.devices && t'.devices[d].place.Some? ensures PlacedAt(t', d) {
      assert PlacedAt(t, d);
    }
  }

  lemma RaisedKeepsInv(t: Topology, t': Topology)
    requires Inv(t) && OnlyRaised(t, t')
    ensures Inv(t')
  {
    RaisedKeepsTree(t, t');
    hide Tree, Placed;
    KeepsPlaced(t, t');
  }

  /** From a bus up to the root, each parent's subordinate number is raised to its child's. */
  function RaiseAncestors(t: Topology, b: nat): (t': Topology)
    requires Tree(t) && b in t.buses
    ensures OnlyRaised(t, t')
    decreases b
  {
    assert Linked(t, b);
    if t.buses[b].parent.None? then t
    else
      var p := t.buses[b].parent.value;
      var raised := if t.buses[p].subordinate < t.buses[b].subordinate then t.buses[b].subordinate else t.buses[p].subordinate;
      var t1 := t.(buses := t.buses[p := t.buses[p].(subordinate := raised)]);
      RaisedKeepsTree(t, t1);
      RaiseAncestors(t1, p)
  }

  // ----- Bridges -----

  /** Rounds up to a multiple of a power of two, in 64 bits. */
  function AlignUp(x: nat, size: nat): nat
    requires 0 < size
  {
    var v := (x + size - 1) % U64;
    v - v % size
  }

  /** The next window of a size in a bus's own window. */
  function WindowFor(bus: Bus, size: nat): Option<nat>
    requires 0 < size
  {
    if bus.size < size || bus.base > U64_MAX - bus.size then None
    else
      var next := if bus.next < bus.base then bus.base else bus.next;
      var base := AlignUp(next, size);
      if base < next || base > U64_MAX - size || base < bus.base || base + size > bus.base + bus.size then None
      else Some(base)
  }

  /** A bridge below `parent`: a new bus with its own number and a window taken from the parent's. */
  function InitBridge(t: Topology, parent: nat, number: u8, size: nat): (r: (Topology, Result<nat>))
    requires Tree(t) && parent in t.buses && 0 < size
    ensures r.1.Err? ==> r.0 == t
  {
    if number <= t.buses[parent].number then (t, Err(EINVAL))
    else if FindBus(t, ROOT, number).Some? then (t, Err(EEXIST))
    else if WindowFor(t.buses[parent], size).None? then (t, Err(ENOSPC))
    else
      var t1 := Attach(t, parent, number, WindowFor(t.buses[parent], size).value, size);
      AttachKeepsTree(t, parent, number, WindowFor(t.buses[parent], size).value, size);
      (RaiseAncestors(t1, t.limit), Ok(t.limit))
  }

  function Attach(t: Topology, parent: nat, number: nat, base: nat, size: nat): Topology
    requires parent in t.buses
  {
    var p := t.buses[parent];
    var bus := Bus(Some(parent), [], number, number, map[], base, size, base, []);
    var grants := p.grants + [Grant(Window(t.limit), base, size)];
    Topology(t.buses[parent := p.(children := p.children + [t.limit], next := base + size, grants := grants)][t.limit := bus],
             t.devices, t.limit + 1)
  }

  lemma AttachKeepsTree(t: Topology, parent: nat, number: nat, base: nat, size: nat)
    requires Tree(t) && parent in t.buses
    ensures Tree(Attach(t, parent, number, base, size))
  {
    var t' := Attach(t, parent, number, base, size);
    forall b | b in t'.buses ensures Linked(t', b) {
      if b == t.limit {
        NewIsLinked(t, parent, number, base, size);
      } else {
        OldStaysLinked(t, parent, number, base, size, b);
      }
    }
    assert Linked(t, parent) && Linked(t, ROOT);
  }

  lemma NewIsLinked(t: Topology, parent: nat, number: nat, base: nat, size: nat)
    requires Tree(t) && parent in t.buses
    ensures Linked(Attach(t, parent, number, base, size), t.limit)
  {
    assert Linked(t, parent);
    var children := Attach(t, parent, number, base, size).buses[parent].children;
    assert children[|children| - 1] == t.limit;
  }

  lemma OldStaysLinked(t: Topology, parent: nat, number: nat, base: nat, size: nat, b: nat)
    requires Tree(t) && parent in t.buses && b in t.buses
    ensures b < t.limit && Linked(Attach(t, parent, number, base, size), b)
  {
    assert Linked(t, b) && Linked(t, parent);
    hide Tree, NoDuplicates;
    var t' := Attach(t, parent, number, base, size);
    LimitIsFresh(t);
    var before, after := t.buses[b].children, t'.buses[b].children;
    assert after == if b == parent then before + [t.limit] else before;
    forall c | c in after ensures IsChild(t', b, c) {
      assert c in before ==> IsChild(t, b, c);
    }
    if b == parent {
      assert t.limit in before ==> IsChild(t, b, t.limit);
      NoDuplicatesAppend(before, t.limit);
    }
  }

  lemma AttachKeepsInv(t: Topology, parent: nat, number: nat, base: nat, size: nat)
    requires Inv(t) && parent in t.buses && number < U8 && FindBus(t, ROOT, number).None?
    ensures Inv(Attach(t, parent, number, base, size))
  {
    hide Tree, FindBus, Placed, DistinctNumbers;
    AttachKeepsTree(t, parent, number, base, size);
    LimitIsFresh(t);
    NumberIsFresh(t, number);
    var t' := Attach(t, parent, number, base, size);
    KeepsPlaced(t, t');
    NewNumberIsDistinct(t, t', t.limit);
  }

  lemma NumberIsFresh(t: Topology, number: nat)
    requires Tree(t) && DistinctNumbers(t) && FindBus(t, ROOT, number).None?
    ensures forall b :: b in t.buses ==> t.buses[b].number != number
  {
    hide Tree, FindBus, DistinctNumbers;
    forall b | b in t.buses ensures t.buses[b].number != number {
      FindBusExact(t, number, b);
    }
  }

  lemma NewNumberIsDistinct(t: Topology, t': Topology, added: nat)
    requires DistinctNumbers(t) && added in t'.buses && t'.buses.Keys == t.buses.Keys + {added}
    requires forall b :: b in t.buses && b != added ==> t'.buses[b].number == t.buses[b].number
    requires forall b :: b in t.buses && b != added ==> t.buses[b].number != t'.buses[added].number
    ensures DistinctNumbers(t')
  {
  }

  lemma InitBridgeKeepsInv(t: Topology, parent: nat, number: u8, size: nat)
    requires Inv(t) && parent in t.buses && 0 < size
    ensures Inv(InitBridge(t, parent, number, size).0)
  {
    hide FindBus, WindowFor, RaiseAncestors;
    var (t', r) := InitBridge(t, parent, number, size);
    if r.Ok? {
      var base := WindowFor(t.buses[parent], size).value;
      AttachKeepsInv(t, parent, number, base, size);
      hide Inv, Attach;
      RaisedKeepsInv(Attach(t, parent, number, base, size), t');
    }
  }

  // ----- Renumbering -----

  /** A device with the requester ID of its place. */
  function Stamped(t: Topology, dev: Device): Device {
    if dev.place.Some? && dev.place.value.0 in t.buses
    then dev.(requesterId := t.buses[dev.place.value.0].number * U8 + dev.place.value.1)
    else dev
  }

  lemma StampedTwice(t: Topology, dev: Device)
    ensures Stamped(t, dev).place == dev.place && Stamped(t, Stamped(t, dev)) == Stamped(t, dev)
  {
  }

  /** The devices of one bus get current requester IDs. */
  function StampBus(t: Topology, devices: map<nat, Device>, b: nat): map<nat, Device> {
    map d | d in devices ::
      if devices[d].place.Some? && devices[d].place.value.0 == b then Stamped(t, devices[d]) else devices[d]
  }

  /** The recursion over a bus and the buses below it. */
  function StampBelow(t: Topology, devices: map<nat, Device>, b: nat): (r: map<nat, Device>)
    requires Tree(t) && b in t.buses
    ensures r.Keys == devices.Keys
    decreases t.limit - b, 1, 0
  {
    StampAmong(t, StampBus(t, devices, b), b, 0)
  }

  function StampAmong(t: Topology, devices: map<nat, Device>, b: nat, i: nat): (r: map<nat, Device>)
    requires Tree(t) && b in t.buses && i <= |t.buses[b].children|
    ensures r.Keys == devices.Keys
    decreases t.limit - b, 0, |t.buses[b].children| - i
  {
    assert Linked(t, b);
    if i == |t.buses[b].children| then devices
    else
      ChildAt(t, b, i);
      StampAmong(t, StampBelow(t, devices, t.buses[b].children[i]), b, i + 1)
  }

  /** Stamping changes a device only to its stamped form. */
  lemma {:induction false} StampBelowEither(t: Topology, devices: map<nat, Device>, b: nat, d: nat)
    requires Tree(t) && b in t.buses && d in devices
    ensures StampBelow(t, devices, b)[d] == devices[d] || StampBelow(t, devices, b)[d] == Stamped(t, devices[d])
    decreases t.limit - b, 1, 0
  {
    hide Tree;
    StampAmongEither(t, StampBus(t, devices, b), b, 0, d);
  }

  lemma {:induction false} StampAmongEither(t: Topology, devices: map<nat, Device>, b: nat, i: nat, d: nat)
    requires Tree(t) && b in t.buses && i <= |t.buses[b].children| && d in devices
    ensures StampAmong(t, devices, b, i)[d] == devices[d] || StampAmong(t, devices, b, i)[d] == Stamped(t, devices[d])
    decreases t.limit - b, 0, |t.buses[b].children| - i
  {
    assert Linked(t, b);
    hide Tree, StampBelow, Linked, Stamped;
    StampedTwice(t, devices[d]);
    if i < |t.buses[b].children| {
      ChildAt(t, b, i);
      var c := t.buses[b].children[i];
      StampBelowEither(t, devices, c, d);
      StampAmongEither(t, StampBelow(t, devices, c), b, i + 1, d);
    }
  }

  /** Every device on a bus below is reached. */
  lemma {:induction false} StampBelowReaches(t: Topology, devices: map<nat, Device>, b: nat, d: nat)
    requires Tree(t) && b in t.buses && d in devices && devices[d].place.Some?
    requires devices[d].place.value.0 in t.buses && Below(t, b, devices[d].place.value.0)
    ensures StampBelow(t, devices, b)[d] == Stamped(t, devices[d])
    decreases t.limit - b, 1, 0
  {
    hide Tree;
    var x := devices[d].place.value.0;
    if x == b {
      StampAmongEither(t, StampBus(t, devices, b), b, 0, d);
    } else {
      var i := ChildTowards(t, b, x);
      StampAmongReaches(t, StampBus(t, devices, b), b, 0, i, d);
    }
  }

  lemma {:induction false} StampAmongReaches(t: Topology, devices: map<nat, Device>, b: nat, j: nat, i: nat, d: nat)
    requires Tree(t) && b in t.buses && j <= i < |t.buses[b].children| && d in devices && devices[d].place.Some?
    requires devices[d].place.value.0 in t.buses
    requires t.buses[b].children[i] in t.buses && Below(t, t.buses[b].children[i], devices[d].place.value.0)
    ensures StampAmong(t, devices, b, j)[d] == Stamped(t, devices[d])
    decreases t.limit - b, 0, |t.buses[b].children| - j
  {
    assert Linked(t, b);
    hide Tree, StampBelow, Below, Linked, Stamped;
    ChildAt(t, b, j);
    var c := t.buses[b].children[j];
    var devices1 := StampBelow(t, devices, c);
    StampBelowEither(t, devices, c, d);
    StampedTwice(t, devices[d]);
    if j == i {
      StampBelowReaches(t, devices, c, d);
      StampAmongEither(t, devices1, b, j + 1, d);
    } else {
      StampAmongReaches(t, devices1, b, j + 1, i, d);
    }
  }

  /** A write to a bridge's bus-number register. All-zero numbers are accepted and ignored. */
  function WriteBusNumbers(t: Topology, b: nat, secondary: u8, subordinate: u8): (r: (Topology, Result<()>))
    requires Tree(t) && b in t.buses
    ensures r.1.Err? ==> r.0 == t
  {
    assert Linked(t, b);
    if t.buses[b].parent.None? then (t, Err(EINVAL))
    else if secondary == 0 && subordinate == 0 then (t, Ok(()))
    else if secondary <= t.buses[t.buses[b].parent.value].number || subordinate < secondary then (t, Err(EINVAL))
    else
      var existing := FindBus(t, ROOT, secondary);
      if existing.Some? && existing.value != b then (t, Err(EEXIST))
      else
        RenumberKeepsTree(t, b, secondary, subordinate);
        (RaiseAncestors(Renumber(t, b, secondary, subordinate), b), Ok(()))
  }

  function Renumber(t: Topology, b: nat, secondary: nat, subordinate: nat): Topology
    requires Tree(t) && b in t.buses
  {
    var t1 := t.(buses := t.buses[b := t.buses[b].(number := secondary, subordinate := subordinate)]);
    SameLinksKeepTree(t, t1);
    t1.(devices := StampBelow(t1, t.devices, b))
  }

  lemma RenumberKeepsTree(t: Topology, b: nat, secondary: nat, subordinate: nat)
    requires Tree(t) && b in t.buses
    ensures Tree(Renumber(t, b, secondary, subordinate))
  {
    hide Tree, StampBelow;
    SameLinksKeepTree(t, Renumber(t, b, secondary, subordinate));
  }

  /** After a renumbering, a device keeps its place and has that place's requester ID. */
  lemma RenumberedDevice(t: Topology, b: nat, secondary: nat, subordinate: nat, d: nat)
    requires Tree(t) && b in t.buses && d in t.devices
    ensures var t' := Renumber(t, b, secondary, subordinate);
            && d in t'.devices && t'.devices[d].place == t.devices[d].place
            && (t.devices[d].place.Some? && PlacedAt(t, d) ==> PlacedAt(t', d))
  {
    hide Tree, StampBelow;
    var t1 := t.(buses := t.buses[b := t.buses[b].(number := secondary, subordinate := subordinate)]);
    SameLinksKeepTree(t, t1);
    StampBelowEither(t1, t.devices, b, d);
    if t.devices[d].place.Some? && t.devices[d].place.value.0 == b {
      StampBelowReaches(t1, t.devices, b, d);
    }
  }

  lemma RenumberKeepsPlaced(t: Topology, b: nat, secondary: nat, subordinate: nat)
    requires Tree(t) && Placed(t) && b in t.buses
    ensures Placed(Renumber(t, b, secondary, subordinate))
  {
    hide Tree, StampBelow, PlacedAt;
    var t' := Renumber(t, b, secondary, subordinate);
    forall c | c in t'.buses ensures FunctionsAgree(t', c) {
      assert FunctionsAgree(t, c);
      forall f | f in t.buses[c].functions
        ensures t'.devices[t.buses[c].functions[f]].place == Some((c, f))
      {
        RenumberedDevice(t, b, secondary, subordinate, t.buses[c].functions[f]);
      }
    }
    forall d | d in t'.devices && t'.devices[d].place.Some? ensures PlacedAt(t', d) {
      RenumberedDevice(t, b, secondary, subordinate, d);
      assert PlacedAt(t, d);
    }
  }

  lemma RenumberKeepsInv(t: Topology, b: nat, secondary: u8, subordinate: u8)
    requires Inv(t) && b in t.buses && secondary <= subordinate
    requires forall c :: c in t.buses && c != b ==> t.buses[c].number != secondary
    ensures Inv(Renumber(t, b, secondary, subordinate))
  {
    hide Tree, Placed, DistinctNumbers, StampBelow;
    RenumberKeepsTree(t, b, secondary, subordinate);
    RenumberKeepsPlaced(t, b, secondary, subordinate);
    NewNumberIsDistinct(t, Renumber(t, b, secondary, subordinate), b);
  }

  lemma OtherNumbers(t: Topology, b: nat, number: nat)
    requires Tree(t) && DistinctNumbers(t)
    requires var existing := FindBus(t, ROOT, number); existing.None? || existing.value == b
    ensures forall c :: c in t.buses && c != b ==> t.buses[c].number != number
  {
    hide Tree, FindBus, DistinctNumbers;
    forall c | c in t.buses && c != b ensures t.buses[c].number != number {
      FindBusExact(t, number, c);
    }
  }

  lemma WriteBusNumbersKeepsInv(t: Topology, b: nat, secondary: u8, subordinate: u8)
    requires Inv(t) && b in t.buses
    ensures Inv(WriteBusNumbers(t, b, secondary, subordinate).0)
  {
    hide Tree, FindBus, RaiseAncestors, Placed, DistinctNumbers, Numbered, Renumber;
    var t' := WriteBusNumbers(t, b, secondary, subordinate).0;
    if t' != t {
      OtherNumbers(t, b, secondary);
      RenumberKeepsInv(t, b, secondary, subordinate);
      RaisedKeepsInv(Renumber(t, b, secondary, subordinate), t');
    }
  }

  /** Exactly which bus-number writes are accepted. */
  lemma WriteBusNumbersExact(t: Topology, b: nat, secondary: u8, subordinate: u8)
    requires Inv(t) && b in t.buses
    ensures WriteBusNumbers(t, b, secondary, subordinate).1.Ok? <==>
            && t.buses[b].parent.Some?
            && ((secondary == 0 && subordinate == 0) ||
                (t.buses[b].parent.value in t.buses && t.buses[t.buses[b].parent.value].number < secondary <= subordinate &&
                 forall c :: c in t.buses && c != b ==> t.buses[c].number != secondary))
  {
    assert Linked(t, b);
    hide Tree, FindBus, RaiseAncestors, Placed, StampBelow, Renumber;
    var existing := FindBus(t, ROOT, secondary);
    if existing.Some? && existing.value != b {
      assert t.buses[existing.value].number == secondary;
    }
    forall c | c in t.buses && c != b && (existing.None? || existing.value == b) ensures t.buses[c].number != secondary {
      FindBusExact(t, secondary, c);
    }
  }
}
