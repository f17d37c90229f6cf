/**
 Exactly when a failed switch initialisation leaves the bus tree as it was: subordinate numbers are raised while
 the switch is built and are not lowered again when it is undone.
 */
module PciRollback {
  import opened Base
  import opened PciTopology
  import opened PciHierarchy

  /** From a bus to the root, no subordinate number is smaller than the one below it. */
  ghost predicate PathNested(t: Topology, b: nat)
    requires Tree(t) && b in t.buses
    decreases b
  {
    TreeHas(t, b);
    t.buses[b].parent.Some? ==>
      t.buses[b].subordinate <= t.buses[t.buses[b].parent.value].subordinate && PathNested(t, t.buses[b].parent.value)
  }

  /** The buses of the first tree have their subordinate numbers in the second. */
  ghost predicate Unraised(t: Topology, t': Topology) {
    forall b :: b in t.buses ==> b in t'.buses && t'.buses[b].subordinate == t.buses[b].subordinate
  }

  /** Raising the ancestors does nothing exactly when the path is nested, and never touches the bus itself. */
  lemma {:induction false} RaiseExact(t: Topology, b: nat)
    requires Tree(t) && b in t.buses
    ensures Unraised(t, RaiseAncestors(t, b)) <==> PathNested(t, b)
    ensures forall c :: c in t.buses && b <= c ==> RaiseAncestors(t, b).buses[c] == t.buses[c]
    decreases b
  {
    TreeHas(t, b);
    hide Tree, LinkedUp, LinkedDown;
    if t.buses[b].parent.Some? {
      RaiseStep(t, b);
      hide RaiseAncestors;
      var p, t1 := t.buses[b].parent.value, RaisedParent(t, b);
      if t.buses[b].subordinate <= t.buses[p].subordinate {
        assert t1.buses == t.buses;
        RaiseExact(t, p);
      } else {
        RaiseExact(t1, p);
        assert t.buses[p].subordinate < t1.buses[p].subordinate <= RaiseAncestors(t, b).buses[p].subordinate;
      }
    }
  }

  lemma RaiseStep(t: Topology, b: nat)
    requires Tree(t) && b in t.buses && t.buses[b].parent.Some?
    ensures t.buses[b].parent.value in t.buses && Tree(RaisedParent(t, b))
    ensures RaiseAncestors(t, b) == RaiseAncestors(RaisedParent(t, b), t.buses[b].parent.value)
  {
    TreeHas(t, b);
    hide Tree, LinkedUp, LinkedDown;
    RaisedKeepsTree(t, RaisedParent(t, b));
  }

  function RaisedParent(t: Topology, b: nat): (t': Topology)
    requires b in t.buses && t.buses[b].parent.Some? && t.buses[b].parent.value in t.buses
    ensures OnlyRaised(t, t')
  {
    var p := t.buses[b].parent.value;
    var raised := if t.buses[p].subordinate < t.buses[b].subordinate then t.buses[b].subordinate else t.buses[p].subordinate;
    t.(buses := t.buses[p := t.buses[p].(subordinate := raised)])
  }

  /** Nesting of a path is a matter of the buses on it. */
  lemma {:induction false} PathSame(t: Topology, t': Topology, b: nat)
    requires Tree(t) && Tree(t') && b in t.buses
    requires forall c :: c in t.buses && c <= b ==>
               c in t'.buses && t'.buses[c].parent == t.buses[c].parent && t'.buses[c].subordinate == t.buses[c].subordinate
    ensures PathNested(t, b) <==> PathNested(t', b)
    decreases b
  {
    TreeHas(t, b);
    hide Tree, LinkedDown;
    if t.buses[b].parent.Some? {
      PathSame(t, t', t.buses[b].parent.value);
    }
  }

  /** The largest subordinate number on the way up from `b` to `c`. */
  ghost function Highest(t: Topology, b: nat, c: nat): nat
    requires Tree(t) && b in t.buses && Below(t, c, b)
    decreases b
  {
    TreeHas(t, b);
    if b == c then t.buses[b].subordinate
    else
      var above := Highest(t, t.buses[b].parent.value, c);
      if above < t.buses[b].subordinate then t.buses[b].subordinate else above
  }

  lemma {:induction false} SamePath(t: Topology, t': Topology, b: nat, c: nat)
    requires Tree(t) && Tree(t') && b in t.buses && b in t'.buses
    requires forall d :: d in t.buses && d <= b ==>
               d in t'.buses && t'.buses[d].parent == t.buses[d].parent && t'.buses[d].subordinate == t.buses[d].subordinate
    ensures Below(t', c, b) <==> Below(t, c, b)
    ensures Below(t, c, b) ==> Highest(t', b, c) == Highest(t, b, c)
    decreases b
  {
    TreeHas(t, b);
    hide Tree, LinkedDown;
    if b != c && t.buses[b].parent.Some? {
      SamePath(t, t', t.buses[b].parent.value, c);
    }
  }

  /** What raising comes to: every bus above gets the largest number on its way, and no other bus changes. */
  lemma {:induction false} RaisedTo(t: Topology, b: nat, c: nat)
    requires Tree(t) && b in t.buses && c in t.buses
    ensures RaiseAncestors(t, b).buses[c].subordinate ==
            if Below(t, c, b) then Highest(t, b, c) else t.buses[c].subordinate
    decreases b
  {
    TreeHas(t, b);
    hide Tree, LinkedUp, LinkedDown;
    if t.buses[b].parent.Some? {
      RaiseStep(t, b);
      RaiseExact(t, b);
      hide RaiseAncestors;
      var p, t1 := t.buses[b].parent.value, RaisedParent(t, b);
      RaisedTo(t1, p, c);
      AboveParent(t, b, c);
    }
  }

  lemma AboveParent(t: Topology, b: nat, c: nat)
    requires Tree(t) && b in t.buses && c in t.buses && t.buses[b].parent.Some?
    requires t.buses[b].parent.value < b && t.buses[b].parent.value in t.buses && Tree(RaisedParent(t, b))
    ensures var p, t1 := t.buses[b].parent.value, RaisedParent(t, b);
            && (Below(t1, c, p) <==> Below(t, c, p))
            && (Below(t, c, p) ==>
                  Highest(t1, p, c) ==
                  if Highest(t, p, c) < t.buses[b].subordinate then t.buses[b].subordinate else Highest(t, p, c))
  {
    var p, t1 := t.buses[b].parent.value, RaisedParent(t, b);
    TreeHas(t, p);
    hide Tree, LinkedDown;
    if p != c && t.buses[p].parent.Some? {
      SamePath(t, t1, t.buses[p].parent.value, c);
    }
  }

  /** How many numbers after `n` are free in a row, up to a limit. */
  ghost function FreeRun(t: Topology, n: nat, limit: nat): nat
    decreases limit
  {
    if limit == 0 || !Free(t, n + 1) then 0 else 1 + FreeRun(t, n + 1, limit - 1)
  }

  // ----- Building -----

  /** The upstream bridge raises nothing exactly when its number is within the parent's range and the path is nested. */
  lemma UpstreamUnraised(t: Topology, parent: nat, number: u8, size: nat)
    requires Tree(t) && parent in t.buses && 0 < size && InitBridge(t, parent, number, size).1.Ok?
    ensures var t' := InitBridge(t, parent, number, size).0;
            && t.limit in t'.buses && t'.buses[t.limit].subordinate == number
            && (Unraised(t, t') <==> number <= t.buses[parent].subordinate && PathNested(t, parent))
  {
    hide Tree, FindBus, WindowFor, RaiseAncestors, PathNested, Unraised, OnlyRaised;
    LimitIsFresh(t);
    var base := WindowFor(t.buses[parent], size).value;
    AttachKeepsTree(t, parent, number, base, size);
    var a, t' := Attach(t, parent, number, base, size), InitBridge(t, parent, number, size).0;
    assert t' == RaiseAncestors(a, t.limit);
    AttachedBuses(t, parent, number, base, size);
    hide Attach, InitBridge;
    RaiseExact(a, t.limit);
    SameKeys(a, t.limit);
    PathOf(a, t.limit);
    PathSame(t, a, parent);
    RestUnraised(t, a, t');
  }

  lemma SameKeys(t: Topology, b: nat)
    requires Tree(t) && b in t.buses
    ensures RaiseAncestors(t, b).buses.Keys == t.buses.Keys
  {
    hide Tree, RaiseAncestors;
  }

  lemma AttachedBuses(t: Topology, parent: nat, number: nat, base: nat, size: nat)
    requires parent in t.buses && forall b :: b in t.buses ==> b < t.limit
    ensures var a := Attach(t, parent, number, base, size);
            && (forall c :: c in t.buses ==>
                  c in a.buses && a.buses[c].parent == t.buses[c].parent && a.buses[c].subordinate == t.buses[c].subordinate)
            && (forall c :: c in a.buses && c !in t.buses ==> c == t.limit)
            && t.limit in a.buses && a.buses[t.limit].parent == Some(parent) && a.buses[t.limit].subordinate == number
  {
  }

  lemma PathOf(t: Topology, b: nat)
    requires Tree(t) && b in t.buses && t.buses[b].parent.Some? && t.buses[b].parent.value in t.buses
    ensures PathNested(t, b) <==>
            t.buses[b].subordinate <= t.buses[t.buses[b].parent.value].subordinate && PathNested(t, t.buses[b].parent.value)
  {
    hide Tree;
  }

  /** A raised bus stays raised. */
  lemma StaysRaised(t0: Topology, t: Topology, t': Topology, parent: nat, first: nat, k: nat)
    requires Grown(t0, t, parent, first, k) && !Unraised(t0, t)
    requires forall b :: b in t.buses ==> b in t'.buses && t.buses[b].subordinate <= t'.buses[b].subordinate
    ensures !Unraised(t0, t')
  {
    hide Ids, Port;
    assert forall b :: b in t0.buses ==> Kept(t0, t, parent, b);
  }

  /** A port is attached, its bridge raised, and then what is above the upstream bus. */
  lemma PortSteps(t: Topology, up: nat, number: u8)
    requires Tree(t) && up in t.buses && InitBridge(t, up, number, WINDOW).1.Ok?
    ensures WindowFor(t.buses[up], WINDOW).Some?
    ensures var a := Attach(t, up, number, WindowFor(t.buses[up], WINDOW).value, WINDOW);
            && up < t.limit && t.limit !in t.buses && t.limit in a.buses && a.buses[t.limit].parent == Some(up) && up in a.buses
            && var a' := RaisedParent(a, t.limit);
            && Tree(a') && InitBridge(t, up, number, WINDOW).0 == RaiseAncestors(a', up)
  {
    TreeHas(t, up);
    LimitIsFresh(t);
    var base := WindowFor(t.buses[up], WINDOW).value;
    AttachKeepsTree(t, up, number, base, WINDOW);
    hide Tree, FindBus, WindowFor, LinkedUp, LinkedDown;
    var a := Attach(t, up, number, base, WINDOW);
    RaisedKeepsTree(a, RaisedParent(a, t.limit));
  }

  lemma PortUnraised(t0: Topology, t: Topology, parent: nat, first: nat, k: nat)
    requires Tree(t0) && Tree(t) && Grown(t0, t, parent, first, k) && t.limit == t0.limit + k + 1 && first + k + 1 < U8
    requires parent in t0.buses && t0.limit in t.buses && t.buses[t0.limit].subordinate == first + k
    requires InitBridge(t, t0.limit, first + k + 1, WINDOW).1.Ok?
    ensures var t' := InitBridge(t, t0.limit, first + k + 1, WINDOW).0;
            && t0.limit in t'.buses && t'.buses[t0.limit].subordinate == first + k + 1
            && (Unraised(t0, t') <==>
                Unraised(t0, t) && first + k + 1 <= t0.buses[parent].subordinate && PathNested(t0, parent))
  {
    hide Tree, InitBridge, WindowFor, RaiseAncestors, PathNested, Ids, Port;
    LimitIsFresh(t0);
    var up, number := t0.limit, first + k + 1;
    PortSteps(t, up, number);
    var a := Attach(t, up, number, WindowFor(t.buses[up], WINDOW).value, WINDOW);
    var a', t' := RaisedParent(a, t.limit), InitBridge(t, up, number, WINDOW).0;
    RaiseExact(a', up);
    PathOf(a', up);
    if Unraised(t0, t) {
      OldBuses(t0, t, a', parent, first, k, number);
      PathSame(t0, a', parent);
      RestUnraised(t0, a', t');
    } else {
      StaysRaised(t0, t, t', parent, first, k);
    }
  }

  lemma OldBuses(t0: Topology, t: Topology, a': Topology, parent: nat, first: nat, k: nat, number: nat)
    requires Grown(t0, t, parent, first, k) && Unraised(t0, t) && forall b :: b in t0.buses ==> b < t0.limit
    requires t0.limit in t.buses && t0.limit < t.limit && t.limit !in t.buses && WindowFor(t.buses[t0.limit], WINDOW).Some?
    requires a' == RaisedParent(Attach(t, t0.limit, number, WindowFor(t.buses[t0.limit], WINDOW).value, WINDOW), t.limit)
    ensures forall c :: c in t0.buses ==>
              c in a'.buses && a'.buses[c].parent == t0.buses[c].parent && a'.buses[c].subordinate == t0.buses[c].subordinate
    ensures forall c :: c in a'.buses && c !in t0.buses ==> t0.limit <= c
  {
    hide Ids, Port, WindowFor;
    forall c | c in t0.buses
      ensures c in a'.buses && a'.buses[c].parent == t0.buses[c].parent && a'.buses[c].subordinate == t0.buses[c].subordinate
    {
      assert Kept(t0, t, parent, c);
    }
  }

  lemma RestUnraised(t0: Topology, a: Topology, t': Topology)
    requires forall c :: c in t0.buses ==> c in a.buses && a.buses[c].subordinate == t0.buses[c].subordinate
    requires forall c :: c in a.buses && c !in t0.buses ==> t0.limit <= c
    requires forall c :: c in a.buses && t0.limit <= c ==> c in t'.buses && t'.buses[c] == a.buses[c]
    ensures Unraised(t0, t') <==> Unraised(a, t')
  {
  }

  /** As many ports are built as numbers are free in a row, and whether anything was raised depends on the last one. */
  lemma {:induction false} PortsUnraised(t0: Topology, t: Topology, parent: nat, first: nat, k: nat, ports: nat)
    requires Tree(t0) && Tree(t) && Grown(t0, t, parent, first, k) && t.limit == t0.limit + k + 1 && parent in t0.buses
    requires k <= ports <= 4 && first + ports < U8
    requires t0.limit in t.buses && RoomFor(t.buses[t0.limit], ports, k) && t.buses[t0.limit].subordinate == first + k
    requires Unraised(t0, t) <==> first + k <= t0.buses[parent].subordinate && PathNested(t0, parent)
    ensures var r := InitPorts(t, t0.limit, first, k, ports);
            && r.1 == k + FreeRun(t0, first + k, ports - k)
            && (Unraised(t0, r.0) <==> first + r.1 <= t0.buses[parent].subordinate && PathNested(t0, parent))
    decreases ports - k
  {
    hide Tree, InitBridge, Grown, RoomFor, Free, PathNested, Unraised;
    if k < ports {
      PortGrown(t0, t, parent, first, k);
      PortSucceedsExactly(t0, t, parent, first, k, ports);
      var (t1, r) := InitBridge(t, t0.limit, first + k + 1, WINDOW);
      if r.Ok? {
        PortUnraised(t0, t, parent, first, k);
        PortsUnraised(t0, t1, parent, first, k + 1, ports);
      }
    }
  }

  // ----- Undoing -----

  /** Removing buses leaves the subordinate numbers of the others alone. */
  lemma {:induction false} TeardownLowersNothing(t: Topology, up: nat, k: nat)
    requires Tree(t) && ROOT < up && forall i :: up <= i <= up + k ==> i in t.buses
    ensures var t' := Teardown(t, up, k);
            forall b :: b in t'.buses ==> b in t.buses && t'.buses[b].subordinate == t.buses[b].subordinate
    decreases k
  {
    hide Tree, DestroyBus;
    DestroyLowersNothing(t, up + k);
    if k > 0 {
      DestroyKeepsTree(t, up + k);
      TeardownLowersNothing(DestroyBus(t, up + k).0, up, k - 1);
    }
  }

  lemma DestroyLowersNothing(t: Topology, b: nat)
    requires Tree(t) && b in t.buses && b != ROOT
    ensures var t' := DestroyBus(t, b).0;
            forall c :: c in t'.buses ==> c in t.buses && t'.buses[c].subordinate == t.buses[c].subordinate
  {
    TreeHas(t, b);
    hide Tree, Without;
  }

  /**
   A failed switch leaves the bus tree exactly as it was if and only if its arguments are refused, its own number or
   window is not available, or the last number it uses is within the parent's range and no bus above the parent
   would be raised.
   */
  lemma FailedSwitchExact(t: Topology, parent: nat, secondary: u8, ports: nat)
    requires Tree(t) && parent in t.buses && InitSwitch(t, parent, secondary, ports).1.Err?
    ensures var t' := InitSwitch(t, parent, secondary, ports).0;
            t'.(limit := t.limit) == t <==>
            || ports !in {1, 2, 4} || secondary > 255 - ports
            || secondary <= t.buses[parent].number || !Free(t, secondary)
            || WindowFor(t.buses[parent], ports * WINDOW).None?
            || (secondary + FreeRun(t, secondary, ports) <= t.buses[parent].subordinate && PathNested(t, parent))
  {
    hide Tree, InitBridge, InitPorts, Teardown, Grown, PathNested, RoomFor, FreeRun, Free, WindowFor;
    FailedSwitchRestores(t, parent, secondary, ports);
    if ports in {1, 2, 4} {
      BridgeSucceedsExactly(t, parent, secondary, ports * WINDOW);
    }
    if ports in {1, 2, 4} && secondary <= 255 - ports && InitBridge(t, parent, secondary, ports * WINDOW).1.Ok? {
      SwitchUnraised(t, parent, secondary, ports);
      SameTree(t, InitSwitch(t, parent, secondary, ports).0);
    }
  }

  /** A bridge is accepted exactly when its number is above the parent's and free, and a window is left. */
  lemma BridgeSucceedsExactly(t: Topology, parent: nat, number: u8, size: nat)
    requires Tree(t) && parent in t.buses && 0 < size
    ensures InitBridge(t, parent, number, size).1.Ok? <==>
            t.buses[parent].number < number && Free(t, number) && WindowFor(t.buses[parent], size).Some?
  {
    hide Tree, FindBus, WindowFor, RaiseAncestors, Free;
    FindNone(t, number);
  }

  lemma SameTree(t: Topology, t': Topology)
    requires OnlyRaised(t, t'.(limit := t.limit))
    ensures t'.(limit := t.limit) == t <==> Unraised(t, t')
  {
    if Unraised(t, t') {
      assert t'.buses == t.buses;
    }
  }

  lemma SwitchUnraised(t: Topology, parent: nat, secondary: u8, ports: nat)
    requires Tree(t) && parent in t.buses && ports in {1, 2, 4} && secondary <= 255 - ports
    requires InitBridge(t, parent, secondary, ports * WINDOW).1.Ok? && InitSwitch(t, parent, secondary, ports).1.Err?
    ensures Unraised(t, InitSwitch(t, parent, secondary, ports).0) <==>
            secondary + FreeRun(t, secondary, ports) <= t.buses[parent].subordinate && PathNested(t, parent)
  {
    hide Tree, InitBridge, InitPorts, Teardown, Grown, PathNested, RoomFor, FreeRun, Unraised, RestoredBus;
    var t1 := InitBridge(t, parent, secondary, ports * WINDOW).0;
    UpstreamGrown(t, parent, secondary, ports * WINDOW);
    UpstreamRoom(t, parent, secondary, ports);
    UpstreamUnraised(t, parent, secondary, ports * WINDOW);
    PortsGrown(t, t1, parent, secondary, 0, ports);
    PortsUnraised(t, t1, parent, secondary, 0, ports);
    var (t2, k, failure) := InitPorts(t1, t.limit, secondary, 0, ports);
    TeardownRestores(t, t2, parent, secondary, k);
    TeardownLowersNothing(t2, t.limit, k);
    hide FreeRun, Free;
    UndoneUnraised(t, t2, Teardown(t2, t.limit, k), InitSwitch(t, parent, secondary, ports).0, parent);
  }

  lemma UndoneUnraised(t: Topology, t2: Topology, t3: Topology, t': Topology, parent: nat)
    requires parent in t.buses && Restored(t, t3, parent) && parent in t3.buses
    requires forall b :: b in t3.buses ==> b in t2.buses && t3.buses[b].subordinate == t2.buses[b].subordinate
    requires t'.buses == t3.buses[parent := t3.buses[parent].(next := t.buses[parent].next, grants := t.buses[parent].grants)]
    requires parent in t.buses
    ensures Unraised(t, t') <==> Unraised(t, t2)
  {
    assert forall b :: b in t.buses ==> RestoredBus(t, t3, parent, b);
  }

  // ----- A switch that fails and leaves a trace -----

  /** Within the ranges above it, a bridge is attached and nothing is raised. */
  lemma NestedBridge(t: Topology, parent: nat, number: u8, size: nat)
    requires Tree(t) && parent in t.buses && 0 < size && t.buses[parent].number < number && Free(t, number)
    requires WindowFor(t.buses[parent], size).Some? && number <= t.buses[parent].subordinate && PathNested(t, parent)
    ensures InitBridge(t, parent, number, size).0 ==
            Attach(t, parent, number, WindowFor(t.buses[parent], size).value, size)
  {
    hide Tree, InitBridge, WindowFor, Free, PathNested;
    BridgeSucceedsExactly(t, parent, number, size);
    UpstreamUnraised(t, parent, number, size);
    BridgeSteps(t, parent, number, size);
    LimitIsFresh(t);
    var a, t' := Attach(t, parent, number, WindowFor(t.buses[parent], size).value, size), InitBridge(t, parent, number, size).0;
    assert forall b :: b in a.buses ==> t'.buses[b] == a.buses[b];
    assert t'.buses == a.buses;
  }

  /** A root with one bridge, and with two. */
  function OneBridge(): Topology {
    Attach(Start({}), ROOT, 1, MMIO_BASE, WINDOW)
  }

  function TwoBridges(): Topology {
    Attach(OneBridge(), ROOT, 3, MMIO_BASE + WINDOW, WINDOW)
  }

  lemma OneBridgeIsReached()
    ensures Inv(Start({})) && Step(Start({}), AddBridge(ROOT, 1)) == OneBridge()
  {
    StartInv({});
    var t := Start({});
    assert WindowFor(t.buses[ROOT], WINDOW) == Some(MMIO_BASE);
    hide Tree, WindowFor, InitBridge, Attach;
    NestedBridge(t, ROOT, 1, WINDOW);
  }

  lemma SecondBridge()
    ensures Inv(OneBridge()) && Step(OneBridge(), AddBridge(ROOT, 3)) == TwoBridges()
  {
    hide WindowFor, InitBridge, Attach, Free, Start, OneBridge, DistinctNumbers, Numbered, Placed, PathNested;
    OneBridgeIsReached();
    var t := OneBridge();
    OneBridgeFacts();
    StepKeepsInv(Start({}), AddBridge(ROOT, 1));
    RootIsNested(t);
    hide Tree;
    NestedBridge(t, ROOT, 3, WINDOW);
  }

  lemma OneBridgeFacts()
    ensures var t := OneBridge();
            && ROOT in t.buses && t.buses[ROOT].number == 0 && t.buses[ROOT].subordinate == 255 && Free(t, 3)
            && WindowFor(t.buses[ROOT], WINDOW) == Some(MMIO_BASE + WINDOW)
  {
  }

  lemma RootIsNested(t: Topology)
    requires Tree(t) && ROOT in t.buses
    ensures PathNested(t, ROOT)
  {
    TreeHas(t, ROOT);
    hide Tree;
  }

  lemma RunOfTwo(t: Topology, a: Op, b: Op)
    requires Inv(t)
    ensures Inv(Step(t, a)) && Run(t, [a, b]) == Step(Step(t, a), b)
  {
    hide Tree, DistinctNumbers, Numbered, Placed, Step;
    StepKeepsInv(t, a);
    StepKeepsInv(Step(t, a), b);
    assert [a, b][1..] == [b] && [b][1..] == [];
    assert Run(Step(t, a), [b]) == Run(Step(Step(t, a), b), []);
  }

  /** With number 2 free and number 3 taken, a switch with one port gets its upstream bridge and fails at the port. */
  lemma TraceBelow(t: Topology)
    requires Inv(t) && 1 in t.buses && t.buses[1].number == 1 && Free(t, 2) && !Free(t, 3)
    requires WindowFor(t.buses[1], WINDOW).Some?
    ensures InitSwitch(t, 1, 2, 1).1.Err?
    ensures 1 in Step(t, AddSwitch(1, 2, 1)).buses && 2 <= Step(t, AddSwitch(1, 2, 1)).buses[1].subordinate
  {
    hide Tree, DistinctNumbers, Numbered, Placed, WindowFor, InitBridge, InitSwitch, Free;
    SwitchSucceedsExactly(t, 1, 2, 1);
    assert !(forall n :: 2 <= n <= 2 + 1 ==> Free(t, n)) by { assert !Free(t, 3); }
    BridgeSucceedsExactly(t, 1, 2, 1 * WINDOW);
    FailedSwitchRestores(t, 1, 2, 1);
  }

  lemma TwoBridgesFacts()
    ensures var t := TwoBridges();
            && 1 in t.buses && t.buses[1].number == 1 && t.buses[1].subordinate == 1 && Free(t, 2) && !Free(t, 3)
            && WindowFor(t.buses[1], WINDOW).Some?
  {
    var t := TwoBridges();
    assert t.buses[2].number == 3;
    assert WindowFor(t.buses[1], WINDOW) == Some(MMIO_BASE);
  }

  /**
   Below the bridge with number 1, a switch with number 2 and one port fails because number 3 is taken, and the
   bridge's subordinate number stays raised.
   */
  lemma FailedSwitchLeavesTrace()
    ensures Inv(Start({}))
    ensures var t := Run(Start({}), [AddBridge(ROOT, 1), AddBridge(ROOT, 3)]);
            && 1 in t.buses && InitSwitch(t, 1, 2, 1).1.Err? && t.buses[1].subordinate == 1
            && 1 in Step(t, AddSwitch(1, 2, 1)).buses && 2 <= Step(t, AddSwitch(1, 2, 1)).buses[1].subordinate
  {
    hide Run, Start, Inv, OneBridge, TwoBridges, WindowFor, InitSwitch, Free, Step;
    OneBridgeIsReached();
    SecondBridge();
    RunOfTwo(Start({}), AddBridge(ROOT, 1), AddBridge(ROOT, 3));
    TwoBridgesFacts();
    TraceBelow(TwoBridges());
  }
}
