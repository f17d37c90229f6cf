/**
 Memory windows of the PCI bus tree: bridge windows and BARs are handed out from each bus's window by a moving
 cursor. Covers non-prefetchable BARs and windows the guest has not reprogrammed; sizes are powers of two.
 */
module PciWindows {
  import opened Base
  import opened PciTopology
  import opened PciHierarchy

  // ----- Placing the BARs of a device -----

  /** The address of the next BAR of a size. */
  function PlaceBar(bus: Bus, size: nat): Result<nat>
    requires 0 < size
  {
    var address := AlignUp(bus.next, size);
    if address < bus.next || address > U64_MAX - (size - 1) then Err(EOVERFLOW)
    else if bus.size == 0 || bus.size < size || bus.base > U64_MAX - bus.size || address < bus.base ||
            address > bus.base + bus.size - size then Err(ERANGE)
    else Ok(address)
  }

  function Granted(bus: Bus, owner: Owner, start: nat, size: nat): Bus {
    bus.(next := start + size, grants := bus.grants + [Grant(owner, start, size)])
  }

  /**
   Places the BARs from the `i`-th on; `None` is a BAR that is not implemented or the upper half of one.
   `failures` says which mappings the address space refuses; the last key is the MSI-X mapping.
   */
  function PlaceBars(bus: Bus, d: nat, bars: seq<Option<nat>>, i: nat, failures: map<nat, Errno>): Result<Bus>
    requires i <= |bars| && SizesPositive(bars)
    decreases |bars| - i
  {
    if i == |bars| then if i in failures then Err(failures[i]) else Ok(bus)
    else if bars[i].None? then PlaceBars(bus, d, bars, i + 1, failures)
    else
      var size := bars[i].value;
      match PlaceBar(bus, size)
      case Err(e) => Err(e)
      case Ok(address) =>
        if i in failures then Err(failures[i])
        else PlaceBars(Granted(bus, Bar(d, i), address, size), d, bars, i + 1, failures)
  }

  predicate SizesPositive(bars: seq<Option<nat>>) {
    forall i :: 0 <= i < |bars| && bars[i].Some? ==> 0 < bars[i].value
  }

  /** The realize loop; on failure the bus has its old cursor. */
  method RealizeBars(bus: Bus, d: nat, bars: seq<Option<nat>>, failures: map<nat, Errno>) returns (bus': Bus, r: Result<()>)
    requires SizesPositive(bars)
    ensures match PlaceBars(bus, d, bars, 0, failures)
            case Ok(placed) => bus' == placed && r == Ok(())
            case Err(e) => bus' == bus && r == Err(e)
  {
    bus' := bus;
    var i := 0;
    while i < |bars|
      invariant i <= |bars| && PlaceBars(bus, d, bars, 0, failures) == PlaceBars(bus', d, bars, i, failures)
    {
      if bars[i].Some? {
        var address := PlaceBar(bus', bars[i].value);
        if address.Err? {
          return bus, Err(address.error);
        }
        if i in failures {
          return bus, Err(failures[i]);
        }
        bus' := Granted(bus', Bar(d, i), address.value, bars[i].value);
      }
      i := i + 1;
    }
    if |bars| in failures {
      return bus, Err(failures[|bars|]);
    }
    r := Ok(());
  }

  // ----- The invariant -----

  /** A grant lies in the window, below the cursor, at a multiple of its size. */
  ghost predicate Inside(bus: Bus, g: Grant) {
    0 < g.size && g.start % g.size == 0 && bus.base <= g.start && g.start + g.size <= bus.next
  }

  /** Everything handed out is inside the window, and later grants start after earlier ones end. */
  ghost predicate GrantsOk(bus: Bus) {
    && bus.base <= bus.next <= bus.base + bus.size
    && (forall i :: 0 <= i < |bus.grants| ==> Inside(bus, bus.grants[i]))
    && (forall i, j :: 0 <= i < j < |bus.grants| ==> bus.grants[i].start + bus.grants[i].size <= bus.grants[j].start)
  }

  /** A bus below another owns a grant of it. */
  ghost predicate Leased(t: Topology, b: nat)
    requires b in t.buses
  {
    t.buses[b].parent.Some? ==>
      && t.buses[b].parent.value in t.buses
      && Grant(Window(b), t.buses[b].base, t.buses[b].size) in t.buses[t.buses[b].parent.value].grants
  }

  ghost predicate Windows(t: Topology) {
    forall b :: b in t.buses ==> GrantsOk(t.buses[b]) && Leased(t, b)
  }

  lemma GrantedOk(bus: Bus, owner: Owner, start: nat, size: nat)
    requires GrantsOk(bus) && 0 < size && start % size == 0 && bus.next <= start && start + size <= bus.base + bus.size
    ensures GrantsOk(Granted(bus, owner, start, size))
  {
    var bus' := Granted(bus, owner, start, size);
    forall i | 0 <= i < |bus'.grants| ensures Inside(bus', bus'.grants[i]) {
      assert i < |bus.grants| ==> Inside(bus, bus.grants[i]);
    }
    forall i, j | 0 <= i < j < |bus'.grants| ensures bus'.grants[i].start + bus'.grants[i].size <= bus'.grants[j].start {
      assert Inside(bus, bus.grants[i]);
    }
  }

  lemma {:induction false} PlaceBarsOk(bus: Bus, d: nat, bars: seq<Option<nat>>, i: nat, failures: map<nat, Errno>)
    requires GrantsOk(bus) && i <= |bars| && SizesPositive(bars)
    ensures var r := PlaceBars(bus, d, bars, i, failures);
            r.Ok? ==> && GrantsOk(r.value) && bus.grants <= r.value.grants
                      && r.value == bus.(next := r.value.next, grants := r.value.grants)
    decreases |bars| - i
  {
    hide GrantsOk, AlignUp;
    if i < |bars| && bars[i].None? {
      PlaceBarsOk(bus, d, bars, i + 1, failures);
    } else if i < |bars| && PlaceBar(bus, bars[i].value).Ok? {
      var size := bars[i].value;
      var address := PlaceBar(bus, size).value;
      AlignUpMultiple(bus.next, size, 1, size);
      GrantedOk(bus, Bar(d, i), address, size);
      if i !in failures {
        PlaceBarsOk(Granted(bus, Bar(d, i), address, size), d, bars, i + 1, failures);
      }
    }
  }

  /** Every implemented BAR of a realized device has its own grant. */
  lemma {:induction false} EveryBarPlaced(bus: Bus, d: nat, bars: seq<Option<nat>>, i: nat, failures: map<nat, Errno>, k: nat)
    requires GrantsOk(bus) && i <= k < |bars| && SizesPositive(bars) && bars[k].Some?
    requires PlaceBars(bus, d, bars, i, failures).Ok?
    ensures var placed := PlaceBars(bus, d, bars, i, failures).value;
            exists g :: g in placed.grants && g.owner == Bar(d, k) && g.size == bars[k].value
    decreases |bars| - i
  {
    hide GrantsOk, AlignUp;
    if bars[i].None? {
      EveryBarPlaced(bus, d, bars, i + 1, failures, k);
    } else {
      var size := bars[i].value;
      var address := PlaceBar(bus, size).value;
      AlignUpMultiple(bus.next, size, 1, size);
      GrantedOk(bus, Bar(d, i), address, size);
      var bus1 := Granted(bus, Bar(d, i), address, size);
      if i == k {
        PlaceBarsOk(bus1, d, bars, i + 1, failures);
        assert bus1.grants[|bus.grants|] == Grant(Bar(d, k), address, size);
        assert Grant(Bar(d, k), address, size) in PlaceBars(bus1, d, bars, i + 1, failures).value.grants;
      } else {
        EveryBarPlaced(bus1, d, bars, i + 1, failures, k);
      }
    }
  }

  lemma RoundedUp(x: nat, size: nat, q: nat, r: nat, k: nat)
    requires r < size && x + size - 1 == size * q + r && x <= size * k
    ensures x <= size * q <= size * k
  {
    if k < q {
      MulMonotone(size, k + 1, q);
    } else {
      MulMonotone(size, q, k);
    }
  }

  /** The aligned cursor is the least multiple of the size that is not below it. */
  lemma LeastMultiple(x: nat, size: nat, k: nat)
    requires 0 < size && x <= size * k && size * k + size <= U64
    ensures x <= AlignUp(x, size) <= size * k
  {
    var v := x + size - 1;
    DivModUnique(v, U64, 0, v);
    RoundedUp(x, size, v / size, v % size, k);
  }

  /** Allocation is first fit: whenever an aligned range past the cursor fits, one at or below it is found. */
  lemma FirstFit(bus: Bus, size: nat, k: nat)
    requires GrantsOk(bus) && 0 < size && bus.base + bus.size <= U64_MAX
    requires bus.next <= size * k && size * k + size <= bus.base + bus.size
    ensures PlaceBar(bus, size).Ok? && PlaceBar(bus, size).value <= size * k
    ensures WindowFor(bus, size).Some? && WindowFor(bus, size).value <= size * k
  {
    LeastMultiple(bus.next, size, k);
    hide AlignUp;
  }

  // ----- What the invariant means -----

  /** The window of a bus lies in the window of every bus above it. */
  lemma {:induction false} WindowsNest(t: Topology, b: nat, x: nat)
    requires Tree(t) && Windows(t) && b in t.buses && x in t.buses && Below(t, b, x)
    ensures t.buses[b].base <= t.buses[x].base
    ensures t.buses[x].base + t.buses[x].size <= t.buses[b].base + t.buses[b].size
    decreases x
  {
    if x != b {
      assert Linked(t, x);
      var p := t.buses[x].parent.value;
      hide Tree;
      WindowsNest(t, b, p);
      assert Leased(t, x) && GrantsOk(t.buses[p]);
      assert Inside(t.buses[p], Grant(Window(x), t.buses[x].base, t.buses[x].size));
    }
  }

  predicate Apart(start: nat, size: nat, start': nat, size': nat) {
    start + size <= start' || start' + size' <= start
  }

  /** Two different grants of a bus never overlap. */
  lemma GrantsApart(bus: Bus, g: Grant, h: Grant)
    requires GrantsOk(bus) && g in bus.grants && h in bus.grants && g != h
    ensures Apart(g.start, g.size, h.start, h.size)
  {
    var i :| 0 <= i < |bus.grants| && bus.grants[i] == g;
    var j :| 0 <= j < |bus.grants| && bus.grants[j] == h;
  }

  /** Sibling windows are disjoint and aligned to their size. */
  lemma SiblingsApart(t: Topology, b: nat, c: nat)
    requires Tree(t) && Windows(t) && b in t.buses && c in t.buses && b != c
    requires t.buses[b].parent.Some? && t.buses[b].parent == t.buses[c].parent
    ensures Apart(t.buses[b].base, t.buses[b].size, t.buses[c].base, t.buses[c].size)
    ensures 0 < t.buses[b].size && t.buses[b].base % t.buses[b].size == 0
  {
    hide Tree;
    assert Leased(t, b) && Leased(t, c);
    var p := t.buses[t.buses[b].parent.value];
    var g := Grant(Window(b), t.buses[b].base, t.buses[b].size);
    GrantsApart(p, g, Grant(Window(c), t.buses[c].base, t.buses[c].size));
    assert Inside(p, g);
  }

  /** A BAR and a bridge window on the same bus are disjoint. */
  lemma BarAndWindowApart(t: Topology, c: nat, g: Grant)
    requires Windows(t) && c in t.buses && t.buses[c].parent.Some? && t.buses[c].parent.value in t.buses
    requires g in t.buses[t.buses[c].parent.value].grants && g.owner.Bar?
    ensures Apart(t.buses[c].base, t.buses[c].size, g.start, g.size)
  {
    assert Leased(t, c);
    GrantsApart(t.buses[t.buses[c].parent.value], Grant(Window(c), t.buses[c].base, t.buses[c].size), g);
  }

  // ----- Every operation keeps the windows -----

  /** Nothing about windows has changed. */
  ghost predicate SameWindows(t: Topology, t': Topology) {
    && t'.buses.Keys == t.buses.Keys
    && forall b :: b in t.buses ==> SameWindow(t.buses[b], t'.buses[b])
  }

  ghost predicate SameWindow(bus: Bus, bus': Bus) {
    && bus'.parent == bus.parent && bus'.base == bus.base && bus'.size == bus.size
    && bus'.next == bus.next && bus'.grants == bus.grants
  }

  lemma SameWindowsKeep(t: Topology, t': Topology)
    requires Windows(t) && SameWindows(t, t')
    ensures Windows(t')
  {
    forall b | b in t'.buses ensures GrantsOk(t'.buses[b]) && Leased(t', b) {
      assert SameWindow(t.buses[b], t'.buses[b]) && GrantsOk(t.buses[b]) && Leased(t, b);
      SameGrants(t.buses[b], t'.buses[b]);
      hide GrantsOk;
      if t.buses[b].parent.Some? {
        assert SameWindow(t.buses[t.buses[b].parent.value], t'.buses[t.buses[b].parent.value]);
      }
    }
  }

  lemma SameGrants(bus: Bus, bus': Bus)
    requires GrantsOk(bus) && SameWindow(bus, bus')
    ensures GrantsOk(bus')
  {
    forall i | 0 <= i < |bus'.grants| ensures Inside(bus', bus'.grants[i]) {
      assert Inside(bus, bus.grants[i]);
    }
  }

  /** A window for a bridge is an aligned range past everything handed out. */
  lemma WindowIsNew(bus: Bus, size: nat)
    requires GrantsOk(bus) && 0 < size && WindowFor(bus, size).Some?
    ensures var base := WindowFor(bus, size).value;
            base % size == 0 && bus.next <= base && base + size <= bus.base + bus.size
  {
    hide AlignUp;
    AlignUpMultiple(bus.next, size, 1, size);
  }

  lemma AttachKeepsWindows(t: Topology, parent: nat, number: nat, size: nat)
    requires Tree(t) && Windows(t) && parent in t.buses && 0 < size && WindowFor(t.buses[parent], size).Some?
    ensures Windows(Attach(t, parent, number, WindowFor(t.buses[parent], size).value, size))
  {
    hide Tree, WindowFor;
    LimitIsFresh(t);
    var p, base := t.buses[parent], WindowFor(t.buses[parent], size).value;
    WindowIsNew(p, size);
    GrantedOk(p, Window(t.limit), base, size);
    var t' := Attach(t, parent, number, base, size);
    var p' := t'.buses[parent];
    SameGrants(Granted(p, Window(t.limit), base, size), p');
    assert p'.grants[|p.grants|] == Grant(Window(t.limit), base, size);
    hide GrantsOk;
    forall b | b in t'.buses ensures GrantsOk(t'.buses[b]) && Leased(t', b) {
      if b == t.limit {
        NewWindowOk(t'.buses[b]);
      } else {
        assert GrantsOk(t.buses[b]) && Leased(t, b);
      }
    }
  }

  lemma NewWindowOk(bus: Bus)
    requires bus.grants == [] && bus.next == bus.base
    ensures GrantsOk(bus)
  {
  }

  lemma BridgeKeepsWindows(t: Topology, parent: nat, number: u8, size: nat)
    requires Tree(t) && Windows(t) && parent in t.buses && 0 < size
    ensures Windows(InitBridge(t, parent, number, size).0)
  {
    hide Tree, InitBridge, WindowFor, Windows;
    var (t', r) := InitBridge(t, parent, number, size);
    if r.Ok? {
      BridgeSteps(t, parent, number, size);
      AttachKeepsWindows(t, parent, number, size);
      hide Attach;
      SameWindowsKeep(Attach(t, parent, number, WindowFor(t.buses[parent], size).value, size), t');
    }
  }

  lemma {:induction false} PortsKeepWindows(t: Topology, up: nat, first: nat, k: nat, ports: nat)
    requires Tree(t) && Windows(t) && up in t.buses && k <= ports && first + ports < U8
    ensures Windows(InitPorts(t, up, first, k, ports).0)
    decreases ports - k
  {
    hide Tree, InitBridge, Windows;
    if k < ports {
      BridgeKeepsWindows(t, up, first + k + 1, WINDOW);
      InitBridgeKeepsTree(t, up, first + k + 1, WINDOW);
      BusesStay(t, up, first + k + 1, WINDOW);
      var (t1, r) := InitBridge(t, up, first + k + 1, WINDOW);
      if r.Ok? {
        PortsKeepWindows(t1, up, first, k + 1, ports);
      }
    }
  }

  lemma SwitchKeepsWindows(t: Topology, parent: nat, secondary: u8, ports: nat)
    requires Tree(t) && Windows(t) && parent in t.buses
    ensures Windows(InitSwitch(t, parent, secondary, ports).0)
  {
    hide Tree, InitBridge, InitPorts, Teardown, Grown, Windows;
    var (t', r) := InitSwitch(t, parent, secondary, ports);
    if r.Err? {
      FailedSwitchRestores(t, parent, secondary, ports);
      SameWindowsKeep(t, t');
    } else {
      UpstreamGrown(t, parent, secondary, ports * WINDOW);
      BridgeKeepsWindows(t, parent, secondary, ports * WINDOW);
      var t1 := InitBridge(t, parent, secondary, ports * WINDOW).0;
      assert t.limit in t1.buses by { GrownIds(t, t1, parent, secondary, 0); }
      PortsKeepWindows(t1, t.limit, secondary, 0, ports);
    }
  }

  lemma DestroyKeepsWindows(t: Topology, b: nat)
    requires Tree(t) && Windows(t) && b in t.buses && b != ROOT
    ensures Windows(DestroyBus(t, b).0)
  {
    hide GrantsOk, Without;
    var (t', r) := DestroyBus(t, b);
    if r.Ok? {
      assert Linked(t, b);
      forall c | c in t'.buses ensures GrantsOk(t'.buses[c]) && Leased(t', c) {
        assert Linked(t, c) && GrantsOk(t.buses[c]) && Leased(t, c);
        SameGrants(t.buses[c], t'.buses[c]);
        if c != ROOT {
          assert c in t.buses[t.buses[c].parent.value].children;
        }
      }
    }
  }

  lemma WriteKeepsWindows(t: Topology, b: nat, secondary: u8, subordinate: u8)
    requires Tree(t) && Windows(t) && b in t.buses
    ensures Windows(WriteBusNumbers(t, b, secondary, subordinate).0)
  {
    hide Tree, FindBus, RaiseAncestors, StampBelow, Windows;
    var t' := WriteBusNumbers(t, b, secondary, subordinate).0;
    if t' != t {
      assert SameWindows(t, Renumber(t, b, secondary, subordinate));
      SameWindowsKeep(t, t');
    }
  }

  /** Realizes an attached device: its BARs are placed on its bus, or nothing changes. */
  function RealizeDevice(t: Topology, d: nat, bars: seq<Option<nat>>, failures: map<nat, Errno>): (r: (Topology, Result<()>))
    requires d in t.devices && t.devices[d].place.Some? && t.devices[d].place.value.0 in t.buses && SizesPositive(bars)
    ensures r.1.Err? ==> r.0 == t
  {
    var b := t.devices[d].place.value.0;
    match PlaceBars(t.buses[b], d, bars, 0, failures)
    case Err(e) => (t, Err(e))
    case Ok(bus) => (SetRealized(t.(buses := t.buses[b := bus]), d, true), Ok(()))
  }

  lemma RealizeKeeps(t: Topology, d: nat, bars: seq<Option<nat>>, failures: map<nat, Errno>)
    requires Inv(t) && Windows(t)
    requires d in t.devices && t.devices[d].place.Some? && t.devices[d].place.value.0 in t.buses && SizesPositive(bars)
    ensures var t' := RealizeDevice(t, d, bars, failures).0; Inv(t') && Windows(t')
  {
    hide Tree, DistinctNumbers, Numbered, Placed, PlaceBars, GrantsOk, SizesPositive;
    var b := t.devices[d].place.value.0;
    assert GrantsOk(t.buses[b]);
    PlaceBarsOk(t.buses[b], d, bars, 0, failures);
    var r := PlaceBars(t.buses[b], d, bars, 0, failures);
    if r.Ok? {
      CursorKeepsInv(t, b, r.value);
      var t1 := t.(buses := t.buses[b := r.value]);
      hide Inv;
      SetRealizedKeepsInv(t1, d, true);
      CursorKeepsWindows(t, b, r.value);
    }
  }

  lemma CursorKeepsInv(t: Topology, b: nat, bus: Bus)
    requires Inv(t) && b in t.buses && bus == t.buses[b].(next := bus.next, grants := bus.grants)
    ensures Inv(t.(buses := t.buses[b := bus]))
  {
    hide Tree, Placed;
    var t' := t.(buses := t.buses[b := bus]);
    SameLinksKeepTree(t, t');
    KeepsPlaced(t, t');
  }

  lemma CursorKeepsWindows(t: Topology, b: nat, bus: Bus)
    requires Windows(t) && b in t.buses && bus == t.buses[b].(next := bus.next, grants := bus.grants)
    requires t.buses[b].grants <= bus.grants && GrantsOk(bus)
    ensures Windows(t.(buses := t.buses[b := bus]))
  {
    hide GrantsOk;
    var t' := t.(buses := t.buses[b := bus]);
    forall c | c in t'.buses ensures GrantsOk(t'.buses[c]) && Leased(t', c) {
      assert GrantsOk(t.buses[c]) && Leased(t, c);
    }
  }

  // ----- Runs -----

  datatype WindowOp =
    | Shape(op: Op)
    | PlaceDevice(device: nat, bars: seq<Option<nat>>, failures: map<nat, Errno>)

  function WindowStep(t: Topology, op: WindowOp): Topology
    requires Tree(t)
  {
    match op
    case Shape(shape) => Step(t, shape)
    case PlaceDevice(d, bars, failures) =>
      if Attached(t, d) && t.devices[d].place.value.0 in t.buses && SizesPositive(bars)
      then RealizeDevice(t, d, bars, failures).0 else t
  }

  lemma ShapeKeepsWindows(t: Topology, op: Op)
    requires Tree(t) && Windows(t)
    ensures Windows(Step(t, op))
  {
    hide Tree, Windows, InitBridge, InitSwitch, DestroyBus, WriteBusNumbers;
    match op
    case AddBridge(parent, number) => if parent in t.buses { BridgeKeepsWindows(t, parent, number, WINDOW); }
    case AddSwitch(parent, number, ports) => if parent in t.buses { SwitchKeepsWindows(t, parent, number, ports); }
    case DropBus(b) => if b in t.buses && b != ROOT { DestroyKeepsWindows(t, b); }
    case SetNumbers(b, first, last) => if b in t.buses { WriteKeepsWindows(t, b, first, last); }
    case PlugIn(b, d, devfn) => SameWindowsKeep(t, Step(t, op));
    case PlugOut(b, d) => SameWindowsKeep(t, Step(t, op));
    case Realize(d, on) => SameWindowsKeep(t, Step(t, op));
  }

  lemma WindowStepKeeps(t: Topology, op: WindowOp)
    requires Inv(t) && Windows(t)
    ensures Inv(WindowStep(t, op)) && Windows(WindowStep(t, op))
  {
    hide Tree, DistinctNumbers, Numbered, Placed, Windows, Step, SizesPositive, RealizeDevice;
    match op
    case Shape(shape) =>
      StepKeepsInv(t, shape);
      ShapeKeepsWindows(t, shape);
    case PlaceDevice(d, bars, failures) =>
      if Attached(t, d) && t.devices[d].place.value.0 in t.buses && SizesPositive(bars) {
        RealizeKeeps(t, d, bars, failures);
      }
  }

  ghost function WindowRun(t: Topology, ops: seq<WindowOp>): (t': Topology)
    requires Inv(t) && Windows(t)
    ensures Inv(t') && Windows(t')
    decreases |ops|
  {
    hide Tree, DistinctNumbers, Numbered, Placed, Windows, WindowStep;
    if ops == [] then t
    else
      WindowStepKeeps(t, ops[0]);
      WindowRun(WindowStep(t, ops[0]), ops[1..])
  }

  lemma StartWindows(devices: set<nat>)
    ensures Inv(Start(devices)) && Windows(Start(devices))
  {
    StartInv(devices);
    NewWindowOk(Start(devices).buses[ROOT]);
  }

  /**
   After any run: windows nest along the tree, siblings are disjoint and aligned, and what one bus handed out,
   BARs and windows alike, is aligned, inside its window and pairwise disjoint.
   */
  lemma ReachableWindows(devices: set<nat>, ops: seq<WindowOp>)
    ensures Inv(Start(devices)) && Windows(Start(devices))
    ensures var t := WindowRun(Start(devices), ops);
            && (forall b, x | b in t.buses && x in t.buses && Below(t, b, x) ::
                  t.buses[b].base <= t.buses[x].base && t.buses[x].base + t.buses[x].size <= t.buses[b].base + t.buses[b].size)
            && (forall b, c | b in t.buses && c in t.buses && b != c && t.buses[b].parent.Some? && t.buses[b].parent == t.buses[c].parent ::
                  Apart(t.buses[b].base, t.buses[b].size, t.buses[c].base, t.buses[c].size))
            && (forall b, g | b in t.buses && g in t.buses[b].grants ::
                  0 < g.size && g.start % g.size == 0 && t.buses[b].base <= g.start && g.start + g.size <= t.buses[b].base + t.buses[b].size)
            && (forall b, g, h | b in t.buses && g in t.buses[b].grants && h in t.buses[b].grants && g != h ::
                  Apart(g.start, g.size, h.start, h.size))
  {
    StartWindows(devices);
    var t := WindowRun(Start(devices), ops);
    hide WindowRun, Start, Tree, Placed, Numbered, Below;
    forall b, x | b in t.buses && x in t.buses && Below(t, b, x)
      ensures t.buses[b].base <= t.buses[x].base && t.buses[x].base + t.buses[x].size <= t.buses[b].base + t.buses[b].size
    {
      WindowsNest(t, b, x);
    }
    forall b, c | b in t.buses && c in t.buses && b != c && t.buses[b].parent.Some? && t.buses[b].parent == t.buses[c].parent
      ensures Apart(t.buses[b].base, t.buses[b].size, t.buses[c].base, t.buses[c].size)
    {
      SiblingsApart(t, b, c);
    }
    forall b, g | b in t.buses && g in t.buses[b].grants
      ensures 0 < g.size && g.start % g.size == 0 && t.buses[b].base <= g.start && g.start + g.size <= t.buses[b].base + t.buses[b].size
    {
      assert GrantsOk(t.buses[b]) && Inside(t.buses[b], g);
    }
    forall b, g, h | b in t.buses && g in t.buses[b].grants && h in t.buses[b].grants && g != h
      ensures Apart(g.start, g.size, h.start, h.size)
    {
      GrantsApart(t.buses[b], g, h);
    }
  }
}
