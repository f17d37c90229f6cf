/**
 Multi-function slots: a slot (eight consecutive functions of a bus) is occupied only when its function 0 is, so
 enumeration by function 0 finds every device. Attaching and removing keep this over every run.
 */
module PciSlots {
  import opened Base
  import opened PciTopology
  import opened PciHierarchy
  import opened PciRollback

  /** Every function of a bus has function 0 of its slot beside it. */
  ghost predicate Led(functions: map<nat, nat>) {
    forall f :: f in functions ==> f - f % 8 in functions
  }

  ghost predicate SlotsLed(t: Topology) {
    forall b :: b in t.buses ==> Led(t.buses[b].functions)
  }

  /** The functions of a bus are those it had before, or none. */
  ghost predicate FunctionsKept(t: Topology, t': Topology) {
    forall b :: b in t'.buses ==>
      t'.buses[b].functions == map[] || (b in t.buses && t'.buses[b].functions == t.buses[b].functions)
  }

  lemma KeptStayLed(t: Topology, t': Topology)
    requires SlotsLed(t) && FunctionsKept(t, t')
    ensures SlotsLed(t')
  {
  }

  lemma KeptTwice(t: Topology, t1: Topology, t2: Topology)
    requires FunctionsKept(t, t1) && FunctionsKept(t1, t2)
    ensures FunctionsKept(t, t2)
  {
  }

  lemma BridgeKeeps(t: Topology, parent: nat, number: u8, size: nat)
    requires Tree(t) && parent in t.buses && 0 < size
    ensures FunctionsKept(t, InitBridge(t, parent, number, size).0)
  {
    hide Tree, FindBus, WindowFor, RaiseAncestors;
  }

  lemma DestroyKeeps(t: Topology, b: nat)
    requires Tree(t) && b in t.buses && b != ROOT
    ensures FunctionsKept(t, DestroyBus(t, b).0)
  {
    TreeHas(t, b);
    hide Tree;
  }

  lemma {:induction false} PortsKeep(t: Topology, up: nat, first: nat, k: nat, ports: nat)
    requires Tree(t) && up in t.buses && k <= ports && first + ports < U8
    ensures FunctionsKept(t, InitPorts(t, up, first, k, ports).0)
    decreases ports - k
  {
    hide Tree, InitBridge, FunctionsKept;
    if k == ports {
      Same(t);
    } else {
      InitBridgeKeepsTree(t, up, first + k + 1, WINDOW);
      BusesStay(t, up, first + k + 1, WINDOW);
      BridgeKeeps(t, up, first + k + 1, WINDOW);
      var (t1, r) := InitBridge(t, up, first + k + 1, WINDOW);
      if r.Err? {
        Same(t);
      } else {
        PortsKeep(t1, up, first, k + 1, ports);
        KeptTwice(t, t1, InitPorts(t1, up, first, k + 1, ports).0);
      }
    }
  }

  lemma Same(t: Topology)
    ensures FunctionsKept(t, t)
  {
  }

  lemma SwitchKeeps(t: Topology, parent: nat, secondary: u8, ports: nat)
    requires Tree(t) && parent in t.buses
    ensures FunctionsKept(t, InitSwitch(t, parent, secondary, ports).0)
  {
    var (t', r) := InitSwitch(t, parent, secondary, ports);
    if r.Err? {
      FailedSwitchRestores(t, parent, secondary, ports);
    } else {
      hide Tree, InitBridge, InitPorts, FunctionsKept, Grown, Teardown;
      var t1 := InitBridge(t, parent, secondary, ports * WINDOW).0;
      UpstreamGrown(t, parent, secondary, ports * WINDOW);
      BridgeKeeps(t, parent, secondary, ports * WINDOW);
      GrownIds(t, t1, parent, secondary, 0);
      PortsKeep(t1, t.limit, secondary, 0, ports);
      KeptTwice(t, t1, t');
    }
  }

  lemma RenumberKeeps(t: Topology, b: nat, secondary: u8, subordinate: u8)
    requires Tree(t) && b in t.buses
    ensures FunctionsKept(t, WriteBusNumbers(t, b, secondary, subordinate).0)
  {
    hide Tree, FindBus, RaiseAncestors, StampBelow;
  }

  lemma RealizeKeeps(t: Topology, d: nat, on: bool)
    requires d in t.devices
    ensures FunctionsKept(t, SetRealized(t, d, on))
  {
  }

  /** Exactly which attachments are accepted. */
  lemma AddExact(t: Topology, b: nat, d: nat, devfn: u8)
    requires b in t.buses && d in t.devices
    ensures AddDevice(t, b, d, devfn).1.Ok? <==>
            && t.devices[d].place.None? && !t.devices[d].realized && devfn !in t.buses[b].functions
            && (devfn % 8 == 0 || devfn - devfn % 8 in t.buses[b].functions)
  {
  }

  /** Exactly which removals are accepted: of devices that are on the bus, not realized, and not in the lead of others. */
  lemma RemoveExact(t: Topology, b: nat, d: nat)
    requires Inv(t) && b in t.buses && d in t.devices
    ensures RemoveDevice(t, b, d).1.Ok? <==>
            && t.devices[d].place.Some? && t.devices[d].place.value.0 == b && !t.devices[d].realized
            && var f := t.devices[d].place.value.1;
            f % 8 == 0 ==> forall g :: g in t.buses[b].functions && g / 8 == f / 8 ==> g == f
  {
    if t.devices[d].place.Some? {
      assert PlacedAt(t, d);
      var f := t.devices[d].place.value.1;
      if f % 8 == 0 {
        forall g | g in t.buses[b].functions ensures f < g < f + 8 <==> g / 8 == f / 8 && g != f {
          EighthOf(f, g);
        }
      }
    }
  }

  lemma EighthOf(f: nat, g: nat)
    requires f % 8 == 0
    ensures f < g < f + 8 <==> g / 8 == f / 8 && g != f
  {
  }

  /** A function is attached only beside function 0 of its slot. */
  lemma AddKeepsLed(t: Topology, b: nat, d: nat, devfn: u8)
    requires SlotsLed(t) && b in t.buses && d in t.devices
    ensures SlotsLed(AddDevice(t, b, d, devfn).0)
  {
    assert Led(t.buses[b].functions);
  }

  /** Function 0 is removed only when it is alone. */
  lemma RemoveKeepsLed(t: Topology, b: nat, d: nat)
    requires SlotsLed(t) && b in t.buses && d in t.devices
    ensures SlotsLed(RemoveDevice(t, b, d).0)
  {
    assert Led(t.buses[b].functions);
    var (t', r) := RemoveDevice(t, b, d);
    if r.Ok? {
      var gone := t.devices[d].place.value.1;
      forall f | f in t'.buses[b].functions ensures f - f % 8 in t'.buses[b].functions {
        assert f - f % 8 != gone;
      }
    }
  }

  lemma StepKeepsLed(t: Topology, op: Op)
    requires Inv(t) && SlotsLed(t)
    ensures SlotsLed(Step(t, op))
  {
    hide Tree, DistinctNumbers, Numbered, Placed, InitBridge, InitSwitch, DestroyBus, WriteBusNumbers, AddDevice, RemoveDevice;
    hide SlotsLed, FunctionsKept;
    Same(t);
    match op {
      case AddBridge(parent, number) => if parent in t.buses { BridgeKeeps(t, parent, number, WINDOW); }
      case AddSwitch(parent, number, ports) => if parent in t.buses { SwitchKeeps(t, parent, number, ports); }
      case DropBus(b) => if b in t.buses && b != ROOT { DestroyKeeps(t, b); }
      case SetNumbers(b, first, last) => if b in t.buses { RenumberKeeps(t, b, first, last); }
      case PlugIn(b, d, devfn) => if b in t.buses && d in t.devices { AddKeepsLed(t, b, d, devfn); }
      case PlugOut(b, d) => if b in t.buses && d in t.devices { RemoveKeepsLed(t, b, d); }
      case Realize(d, on) => if d in t.devices { RealizeKeeps(t, d, on); }
    }
    if FunctionsKept(t, Step(t, op)) {
      KeptStayLed(t, Step(t, op));
    }
  }

  lemma {:induction false} RunKeepsLed(t: Topology, ops: seq<Op>)
    requires Inv(t) && SlotsLed(t)
    ensures SlotsLed(Run(t, ops))
    decreases |ops|
  {
    hide Step, Tree, DistinctNumbers, Numbered, Placed, SlotsLed;
    if ops != [] {
      StepKeepsInv(t, ops[0]);
      StepKeepsLed(t, ops[0]);
      RunKeepsLed(Step(t, ops[0]), ops[1..]);
    }
  }

  /**
   After any run, a realized or unrealized function never stands in a slot without function 0: every device on a
   bus is found by probing function 0 of the slots and then the functions of those that answer.
   */
  lemma ReachableSlots(devices: set<nat>, ops: seq<Op>, d: nat)
    ensures Inv(Start(devices))
    ensures var t := Run(Start(devices), ops);
            Attached(t, d) ==>
              var (b, f) := t.devices[d].place.value;
              b in t.buses && f < U8 && f - f % 8 in t.buses[b].functions &&
              t.buses[b].functions[f - f % 8] in t.devices &&
              t.devices[t.buses[b].functions[f - f % 8]].place == Some((b, f - f % 8))
  {
    hide Run, Tree, DistinctNumbers, Numbered;
    StartInv(devices);
    RunKeepsLed(Start(devices), ops);
    var t := Run(Start(devices), ops);
    if Attached(t, d) {
      assert PlacedAt(t, d);
      var (b, f) := t.devices[d].place.value;
      assert Led(t.buses[b].functions) && FunctionsAgree(t, b);
    }
  }
}
