/**
 Operations on the PCI bus tree: attaching and removing devices, switches with rollback, and the run-level
 results about bus numbers, requester IDs and dispatch.
 */
module PciHierarchy {
  import opened Base
  import opened PciTopology

  // ----- Devices -----

  function AddDevice(t: Topology, b: nat, d: nat, devfn: u8): (r: (Topology, Result<()>))
    requires b in t.buses && d in t.devices
    ensures r.1.Err? ==> r.0 == t
  {
    var bus, dev := t.buses[b], t.devices[d];
    if dev.place.Some? then (t, Err(EALREADY))
    else if devfn in bus.functions then (t, Err(EEXIST))
    else if devfn % 8 != 0 && devfn - devfn % 8 !in bus.functions then (t, Err(EINVAL))
    else if dev.realized then (t, Err(EBUSY))
    else
      (t.(buses := t.buses[b := bus.(functions := bus.functions[devfn as nat := d])],
          devices := t.devices[d := Device(Some((b, devfn as nat)), bus.number * U8 + devfn, false)]), Ok(()))
  }

  /** Function 0 of a slot is removed last. */
  function RemoveDevice(t: Topology, b: nat, d: nat): (r: (Topology, Result<()>))
    requires b in t.buses && d in t.devices
    ensures r.1.Err? ==> r.0 == t
  {
    var bus, dev := t.buses[b], t.devices[d];
    if dev.place.None? || dev.place.value.0 != b then (t, Err(ENOENT))
    else
      var devfn := dev.place.value.1;
      if devfn !in bus.functions || bus.functions[devfn] != d then (t, Err(ENOENT))
      else if dev.realized then (t, Err(EBUSY))
      else if devfn % 8 == 0 && exists g :: g in bus.functions && devfn < g < devfn + 8 then (t, Err(EBUSY))
      else
        (t.(buses := t.buses[b := bus.(functions := bus.functions - {devfn})],
            devices := t.devices[d := Device(None, 0, false)]), Ok(()))
  }

  function SetRealized(t: Topology, d: nat, on: bool): Topology
    requires d in t.devices
  {
    t.(devices := t.devices[d := t.devices[d].(realized := on)])
  }

  /** Device operations leave links, numbers and subordinate numbers alone. */
  ghost predicate SameBuses(t: Topology, t': Topology) {
    && t'.limit == t.limit && t'.buses.Keys == t.buses.Keys
    && forall b :: b in t.buses ==> t'.buses[b] == t.buses[b].(functions := t'.buses[b].functions)
  }

  lemma SameBusesKeepNumbers(t: Topology, t': Topology)
    requires Tree(t) && DistinctNumbers(t) && Numbered(t) && SameBuses(t, t')
    ensures Tree(t') && DistinctNumbers(t') && Numbered(t')
  {
    hide Tree;
    SameLinksKeepTree(t, t');
  }

  lemma AddDeviceKeepsInv(t: Topology, b: nat, d: nat, devfn: u8)
    requires Inv(t) && b in t.buses && d in t.devices
    ensures Inv(AddDevice(t, b, d, devfn).0)
  {
    hide Tree, DistinctNumbers, Numbered;
    var (t', r) := AddDevice(t, b, d, devfn);
    if r.Ok? {
      SameBusesKeepNumbers(t, t');
      forall c | c in t'.buses ensures FunctionsAgree(t', c) {
        assert FunctionsAgree(t, c);
      }
      forall e | e in t'.devices && t'.devices[e].place.Some? ensures PlacedAt(t', e) {
        assert e != d ==> PlacedAt(t, e);
      }
    }
  }

  lemma RemoveDeviceKeepsInv(t: Topology, b: nat, d: nat)
    requires Inv(t) && b in t.buses && d in t.devices
    ensures Inv(RemoveDevice(t, b, d).0)
  {
    hide Tree, DistinctNumbers, Numbered;
    var (t', r) := RemoveDevice(t, b, d);
    if r.Ok? {
      SameBusesKeepNumbers(t, t');
      assert PlacedAt(t, d);
      forall c | c in t'.buses ensures FunctionsAgree(t', c) {
        assert FunctionsAgree(t, c);
      }
      forall e | e in t'.devices && t'.devices[e].place.Some? ensures PlacedAt(t', e) {
        assert PlacedAt(t, e);
      }
    }
  }

  lemma SetRealizedKeepsInv(t: Topology, d: nat, on: bool)
    requires Inv(t) && d in t.devices
    ensures Inv(SetRealized(t, d, on))
  {
    hide Tree, DistinctNumbers, Numbered;
    var t' := SetRealized(t, d, on);
    SameBusesKeepNumbers(t, t');
    forall c | c in t'.buses ensures FunctionsAgree(t', c) {
      assert FunctionsAgree(t, c);
    }
    forall e | e in t'.devices && t'.devices[e].place.Some? ensures PlacedAt(t', e) {
      assert PlacedAt(t, e);
    }
  }

  lemma IdBound(t: Topology, b: nat, devfn: nat)
    requires Numbered(t) && b in t.buses && devfn < U8
    ensures t.buses[b].number * U8 + devfn < 0x1_0000
  {
  }

  /** A device that is plugged in and realized answers at its bus number and devfn. */
  lemma PluggedInIsFound(t: Topology, b: nat, d: nat, devfn: u8, register: nat, size: nat)
    requires Inv(t) && b in t.buses && d in t.devices && AddDevice(t, b, d, devfn).1.Ok?
    requires register < 0x1000 && register + size <= 0x1000
    ensures var t' := SetRealized(AddDevice(t, b, d, devfn).0, d, true);
            Inv(t') && EcamLookup(t', (t.buses[b].number * U8 + devfn) * 0x1000 + register, size) == Some(d)
  {
    hide Tree, DistinctNumbers, Numbered, Placed, EcamLookup;
    AddDeviceKeepsInv(t, b, d, devfn);
    SetRealizedKeepsInv(AddDevice(t, b, d, devfn).0, d, true);
    var t', rid := SetRealized(AddDevice(t, b, d, devfn).0, d, true), t.buses[b].number * U8 + devfn;
    assert Attached(t', d) && t'.devices[d].realized && t'.devices[d].requesterId == rid;
    IdBound(t, b, devfn);
    hide AddDevice, SetRealized, Inv;
    FoundAt(t', d, register, size);
  }

  lemma FoundAt(t: Topology, d: nat, register: nat, size: nat)
    requires Inv(t) && Attached(t, d) && t.devices[d].realized && t.devices[d].requesterId < 0x1_0000
    requires register < 0x1000 && register + size <= 0x1000
    ensures EcamLookup(t, t.devices[d].requesterId * 0x1000 + register, size) == Some(d)
  {
    hide Inv, EcamLookup;
    var rid := t.devices[d].requesterId;
    DivModUnique(rid * 0x1000 + register, 0x1000, rid, register);
    EcamExact(t, rid * 0x1000 + register, size, d);
  }

  /** After a device is taken out, nothing answers at its requester ID. */
  lemma PluggedOutIsGone(t: Topology, b: nat, d: nat, register: nat, size: nat)
    requires Inv(t) && b in t.buses && d in t.devices && RemoveDevice(t, b, d).1.Ok?
    requires register < 0x1000 && register + size <= 0x1000
    ensures Inv(RemoveDevice(t, b, d).0)
    ensures EcamLookup(RemoveDevice(t, b, d).0, t.devices[d].requesterId * 0x1000 + register, size) == None
  {
    hide EcamLookup, Tree, Numbered, DistinctNumbers, FunctionsAgree;
    assert t.devices[d].place.Some? && PlacedAt(t, d);
    IdBound(t, b, t.devices[d].place.value.1);
    hide Placed;
    RemoveDeviceKeepsInv(t, b, d);
    var t', rid := RemoveDevice(t, b, d).0, t.devices[d].requesterId;
    var offset := rid * 0x1000 + register;
    DivModUnique(offset, 0x1000, rid, register);
    var found := EcamLookup(t', offset, size);
    if found.Some? {
      EcamExact(t', offset, size, found.value);
      RequesterIdsUnique(t, d, found.value);
    }
  }

  // ----- Removing buses -----

  function Without(s: seq<nat>, x: nat): seq<nat> {
    if s == [] then [] else if s[0] == x then s[1..] else [s[0]] + Without(s[1..], x)
  }

  lemma {:induction false} WithoutMembers(s: seq<nat>, x: nat)
    requires NoDuplicates(s)
    ensures NoDuplicates(Without(s, x)) && forall y :: y in Without(s, x) <==> y in s && y != x
  {
    if s != [] {
      assert NoDuplicates(s[1..]);
      WithoutMembers(s[1..], x);
      assert s == [s[0]] + s[1..];
      var rest := Without(s[1..], x);
      if s[0] != x {
        forall i, j | 0 <= i < j < |[s[0]] + rest| ensures ([s[0]] + rest)[i] != ([s[0]] + rest)[j] {
          assert rest[j - 1] in rest;
        }
      }
    }
  }

  lemma {:induction false} WithoutLast(s: seq<nat>, x: nat)
    requires x !in s
    ensures Without(s + [x], x) == s
  {
    if s == [] {
      assert s + [x] == [x];
    } else {
      assert (s + [x])[1..] == s[1..] + [x];
      WithoutLast(s[1..], x);
      assert [s[0]] + s[1..] == s;
    }
  }

  /** Takes an empty bus out of the tree; a bus with devices or children stays. */
  function DestroyBus(t: Topology, b: nat): (r: (Topology, Result<()>))
    requires Tree(t) && b in t.buses && b != ROOT
    ensures r.1.Err? ==> r.0 == t
  {
    assert Linked(t, b);
    if t.buses[b].functions != map[] || t.buses[b].children != [] then (t, Err(EBUSY))
    else (Cut(t, b), Ok(()))
  }

  function Cut(t: Topology, b: nat): Topology
    requires b in t.buses && t.buses[b].parent.Some? && t.buses[b].parent.value in t.buses
  {
    var p := t.buses[b].parent.value;
    t.(buses := t.buses[p := t.buses[p].(children := Without(t.buses[p].children, b))] - {b})
  }

  lemma CutKeepsTree(t: Topology, b: nat)
    requires Tree(t) && b in t.buses && b != ROOT && t.buses[b].children == []
    ensures t.buses[b].parent.Some? && t.buses[b].parent.value in t.buses && Tree(Cut(t, b))
  {
    assert Linked(t, b);
    var p, t' := t.buses[b].parent.value, Cut(t, b);
    assert Linked(t, p) && Linked(t, ROOT);
    WithoutMembers(t.buses[p].children, b);
    forall c | c in t'.buses ensures Linked(t', c) {
      assert Linked(t, c);
      if c != ROOT {
        var q := t.buses[c].parent.value;
        assert c in t.buses[q].children;
      }
      forall e | e in t'.buses[c].children ensures IsChild(t', c, e) {
        assert IsChild(t, c, e);
      }
    }
  }

  lemma DestroyKeepsInv(t: Topology, b: nat)
    requires Inv(t) && b in t.buses && b != ROOT
    ensures Inv(DestroyBus(t, b).0)
  {
    if DestroyBus(t, b).1.Ok? {
      CutKeepsTree(t, b);
      CutKeepsPlaced(t, b);
    }
  }

  lemma CutKeepsPlaced(t: Topology, b: nat)
    requires Placed(t) && b in t.buses && t.buses[b].functions == map[]
    requires t.buses[b].parent.Some? && t.buses[b].parent.value in t.buses
    ensures Placed(Cut(t, b))
  {
    hide Without;
    var t' := Cut(t, b);
    forall c | c in t'.buses ensures FunctionsAgree(t', c) {
      assert FunctionsAgree(t, c);
    }
    forall e | e in t'.devices && t'.devices[e].place.Some? ensures PlacedAt(t', e) {
      assert PlacedAt(t, e);
    }
  }

  // ----- Switches -----

  lemma InitBridgeKeepsTree(t: Topology, parent: nat, number: u8, size: nat)
    requires Tree(t) && parent in t.buses && 0 < size
    ensures Tree(InitBridge(t, parent, number, size).0)
  {
    hide Tree, FindBus, WindowFor, RaiseAncestors;
    var (t', r) := InitBridge(t, parent, number, size);
    if r.Ok? {
      var base := WindowFor(t.buses[parent], size).value;
      AttachKeepsTree(t, parent, number, base, size);
      RaisedKeepsTree(Attach(t, parent, number, base, size), t');
    }
  }

  /** Downstream ports `k` and up, until one fails; the second result counts the ports that exist. */
  function InitPorts(t: Topology, up: nat, first: nat, k: nat, ports: nat): (r: (Topology, nat, Option<Errno>))
    requires Tree(t) && up in t.buses && k <= ports && first + ports < U8
    ensures Tree(r.0) && k <= r.1 <= ports
    ensures r.2.None? <==> r.1 == ports
    decreases ports - k
  {
    hide Tree, InitBridge;
    if k == ports then (t, k, None)
    else
      InitBridgeKeepsTree(t, up, first + k + 1, WINDOW);
      BusesStay(t, up, first + k + 1, WINDOW);
      var (t1, r) := InitBridge(t, up, first + k + 1, WINDOW);
      if r.Err? then (t, k, Some(r.error)) else InitPorts(t1, up, first, k + 1, ports)
  }

  lemma BusesStay(t: Topology, parent: nat, number: u8, size: nat)
    requires Tree(t) && parent in t.buses && 0 < size
    ensures t.buses.Keys <= InitBridge(t, parent, number, size).0.buses.Keys
  {
    hide Tree, FindBus, WindowFor, RaiseAncestors;
  }

  /** Ports are destroyed last to first, then the upstream bridge. */
  function Teardown(t: Topology, up: nat, k: nat): Topology
    requires Tree(t) && ROOT < up && forall i :: up <= i <= up + k ==> i in t.buses
    decreases k
  {
    hide Tree, DestroyBus;
    if k == 0 then DestroyBus(t, up).0
    else
      DestroyKeepsTree(t, up + k);
      Teardown(DestroyBus(t, up + k).0, up, k - 1)
  }

  lemma DestroyKeepsTree(t: Topology, b: nat)
    requires Tree(t) && b in t.buses && b != ROOT
    ensures Tree(DestroyBus(t, b).0) && t.buses.Keys - {b} <= DestroyBus(t, b).0.buses.Keys
  {
    if DestroyBus(t, b).1.Ok? {
      CutKeepsTree(t, b);
    }
  }

  /** An upstream bridge with a window for all ports, then the ports; a failure undoes what was built. */
  function InitSwitch(t: Topology, parent: nat, secondary: u8, ports: nat): (r: (Topology, Result<nat>))
    requires Tree(t) && parent in t.buses
  {
    if ports !in {1, 2, 4} || secondary > 255 - ports then (t, Err(EINVAL))
    else
      var (t1, up) := InitBridge(t, parent, secondary, ports * WINDOW);
      if up.Err? then (t, up)
      else
        UpstreamGrown(t, parent, secondary, ports * WINDOW);
        var (t2, k, failure) := InitPorts(t1, t.limit, secondary, 0, ports);
        PortsGrown(t, t1, parent, secondary, 0, ports);
        if failure.None? then (t2, up)
        else
          GrownIds(t, t2, parent, secondary, k);
          TeardownRestores(t, t2, parent, secondary, k);
          var t3 := Teardown(t2, t.limit, k);
          (t3.(buses := t3.buses[parent := t3.buses[parent].(next := t.buses[parent].next, grants := t.buses[parent].grants)]), Err(failure.value))
  }

  // ----- What a switch under construction looks like -----

  function Ids(from: nat, k: nat): seq<nat> {
    seq(k, i requires 0 <= i => from + i)
  }

  /** A bus that was there before: it has only gained `up` as a last child, cursor moves and subordinate raises. */
  ghost predicate Kept(t0: Topology, t: Topology, parent: nat, b: nat)
    requires b in t0.buses
  {
    && b in t.buses && t0.buses[b].subordinate <= t.buses[b].subordinate
    && t.buses[b] == t0.buses[b].(
         subordinate := t.buses[b].subordinate,
         children := if b == parent then t0.buses[b].children + [t0.limit] else t0.buses[b].children,
         next := if b == parent then t.buses[b].next else t0.buses[b].next,
         grants := if b == parent then t.buses[b].grants else t0.buses[b].grants)
  }

  ghost predicate NewBus(t: Topology, parent: nat, number: nat, children: seq<nat>, b: nat) {
    && b in t.buses && t.buses[b].parent == Some(parent) && t.buses[b].number == number
    && t.buses[b].children == children && t.buses[b].functions == map[]
  }

  ghost predicate Port(t: Topology, up: nat, first: nat, i: nat) {
    up <= i && NewBus(t, up, first + (i - up), [], i)
  }

  /** `t` is `t0` with the upstream bus `t0.limit` and its first `k` ports. */
  ghost predicate Shaped(t0: Topology, t: Topology, parent: nat, first: nat, k: nat) {
    var up := t0.limit;
    && t.devices == t0.devices && up <= t.limit
    && (forall b :: b in t.buses <==> b in t0.buses || up <= b <= up + k)
    && (forall b :: b in t0.buses ==> Kept(t0, t, parent, b))
    && NewBus(t, parent, first, Ids(up + 1, k), up)
    && (forall i :: up < i <= up + k ==> Port(t, up, first, i))
  }

  /** In addition the parent's subordinate number covers the upstream bus. */
  ghost predicate Grown(t0: Topology, t: Topology, parent: nat, first: nat, k: nat) {
    Shaped(t0, t, parent, first, k) && parent in t.buses && first <= t.buses[parent].subordinate
  }

  lemma TreeHas(t: Topology, b: nat)
    requires Tree(t) && b in t.buses
    ensures ROOT in t.buses && b < t.limit && Linked(t, b)
  {
  }

  lemma GrownIds(t0: Topology, t: Topology, parent: nat, first: nat, k: nat)
    requires Grown(t0, t, parent, first, k)
    ensures forall i :: t0.limit <= i <= t0.limit + k ==> i in t.buses
  {
  }

  lemma RaisedStaysShaped(t0: Topology, t: Topology, t': Topology, parent: nat, first: nat, k: nat)
    requires Shaped(t0, t, parent, first, k) && OnlyRaised(t, t')
    ensures Shaped(t0, t', parent, first, k)
  {
    hide Ids;
    forall b | b in t0.buses ensures Kept(t0, t', parent, b) {
      assert Kept(t0, t, parent, b);
    }
    forall i | t0.limit < i <= t0.limit + k ensures Port(t', t0.limit, first, i) {
      assert Port(t, t0.limit, first, i);
    }
  }

  /** A bridge as one step: attach, then raise the ancestors. */
  lemma BridgeSteps(t: Topology, parent: nat, number: u8, size: nat)
    requires Tree(t) && parent in t.buses && 0 < size && InitBridge(t, parent, number, size).1.Ok?
    ensures var t' := InitBridge(t, parent, number, size).0;
            && WindowFor(t.buses[parent], size).Some?
            && var t1 := Attach(t, parent, number, WindowFor(t.buses[parent], size).value, size);
            && Tree(t') && OnlyRaised(t1, t') && t'.limit == t.limit + 1
            && parent in t'.buses && number <= t'.buses[parent].subordinate
  {
    hide Tree, FindBus, WindowFor, RaiseAncestors;
    InitBridgeKeepsTree(t, parent, number, size);
    LimitIsFresh(t);
    var base := WindowFor(t.buses[parent], size).value;
    AttachKeepsTree(t, parent, number, base, size);
    RaisesParent(Attach(t, parent, number, base, size), t.limit);
  }

  lemma RaisesParent(t: Topology, b: nat)
    requires Tree(t) && b in t.buses && t.buses[b].parent.Some? && t.buses[b].parent.value in t.buses
    ensures t.buses[b].subordinate <= RaiseAncestors(t, b).buses[t.buses[b].parent.value].subordinate
  {
    hide Tree, LinkedUp, LinkedDown;
  }

  lemma UpstreamGrown(t: Topology, parent: nat, number: u8, size: nat)
    requires Tree(t) && parent in t.buses && 0 < size
    ensures var (t', r) := InitBridge(t, parent, number, size);
            r.Ok? ==> r.value == t.limit && t'.limit == t.limit + 1 && Tree(t') && Grown(t, t', parent, number, 0)
  {
    hide Tree, FindBus, WindowFor, RaiseAncestors;
    LimitIsFresh(t);
    var (t', r) := InitBridge(t, parent, number, size);
    if r.Ok? {
      BridgeSteps(t, parent, number, size);
      var base := WindowFor(t.buses[parent], size).value;
      AttachUpstream(t, parent, number, base, size);
      hide Shaped, Attach;
      RaisedStaysShaped(t, Attach(t, parent, number, base, size), t', parent, number, 0);
    }
  }

  lemma AttachUpstream(t: Topology, parent: nat, number: nat, base: nat, size: nat)
    requires parent in t.buses && forall b :: b in t.buses ==> b < t.limit
    ensures Shaped(t, Attach(t, parent, number, base, size), parent, number, 0)
  {
    assert Ids(t.limit + 1, 0) == [];
    hide Ids;
  }

  lemma PortGrown(t0: Topology, t: Topology, parent: nat, first: nat, k: nat)
    requires Tree(t0) && Tree(t) && Grown(t0, t, parent, first, k) && t.limit == t0.limit + k + 1 && first + k + 1 < U8
    requires parent in t0.buses
    ensures t0.limit in t.buses
    ensures var (t', r) := InitBridge(t, t0.limit, first + k + 1, WINDOW);
            r.Ok? ==> Tree(t') && t'.limit == t.limit + 1 && Grown(t0, t', parent, first, k + 1)
  {
    hide Tree, InitBridge, WindowFor, Port, Kept, Ids;
    LimitIsFresh(t0);
    var up := t0.limit;
    var (t', r) := InitBridge(t, up, first + k + 1, WINDOW);
    if r.Ok? {
      BridgeSteps(t, up, first + k + 1, WINDOW);
      var base := WindowFor(t.buses[up], WINDOW).value;
      AttachGrown(t0, t, parent, first, k, base);
      hide Shaped;
      RaisedStaysShaped(t0, Attach(t, up, first + k + 1, base, WINDOW), t', parent, first, k + 1);
    }
  }

  lemma AttachGrown(t0: Topology, t: Topology, parent: nat, first: nat, k: nat, base: nat)
    requires Shaped(t0, t, parent, first, k) && t.limit == t0.limit + k + 1
    requires forall b :: b in t0.buses ==> b < t0.limit
    ensures Shaped(t0, Attach(t, t0.limit, first + k + 1, base, WINDOW), parent, first, k + 1)
  {
    var up := t0.limit;
    var t' := Attach(t, up, first + k + 1, base, WINDOW);
    assert Ids(up + 1, k + 1) == Ids(up + 1, k) + [t.limit];
    hide Ids;
    forall b | b in t0.buses ensures Kept(t0, t', parent, b) {
      assert Kept(t0, t, parent, b);
    }
    forall i | up < i <= up + k + 1 ensures Port(t', up, first, i) {
      assert i <= up + k ==> Port(t, up, first, i);
    }
  }

  lemma {:induction false} PortsGrown(t0: Topology, t: Topology, parent: nat, first: nat, k: nat, ports: nat)
    requires Tree(t0) && Tree(t) && Grown(t0, t, parent, first, k) && t.limit == t0.limit + k + 1
    requires k <= ports && first + ports < U8 && parent in t0.buses
    ensures t0.limit in t.buses
    ensures var r := InitPorts(t, t0.limit, first, k, ports); Grown(t0, r.0, parent, first, r.1)
    decreases ports - k
  {
    hide Tree, InitBridge, Port, Kept, Ids;
    if k < ports {
      PortGrown(t0, t, parent, first, k);
      var (t1, r) := InitBridge(t, t0.limit, first + k + 1, WINDOW);
      if r.Ok? {
        PortsGrown(t0, t1, parent, first, k + 1, ports);
      }
    }
  }

  /** Like `t0` but for raised subordinate numbers and the parent's cursor. */
  ghost predicate Restored(t0: Topology, t: Topology, parent: nat) {
    && t.devices == t0.devices && t.buses.Keys == t0.buses.Keys && t0.limit <= t.limit
    && forall b :: b in t0.buses ==> RestoredBus(t0, t, parent, b)
  }

  ghost predicate RestoredBus(t0: Topology, t: Topology, parent: nat, b: nat)
    requires b in t0.buses
  {
    && b in t.buses && t0.buses[b].subordinate <= t.buses[b].subordinate
    && t.buses[b] == t0.buses[b].(
         subordinate := t.buses[b].subordinate,
         next := if b == parent then t.buses[b].next else t0.buses[b].next,
         grants := if b == parent then t.buses[b].grants else t0.buses[b].grants)
  }

  lemma PortCut(t0: Topology, t: Topology, parent: nat, first: nat, k: nat)
    requires Tree(t0) && Tree(t) && Grown(t0, t, parent, first, k) && 0 < k && parent in t0.buses
    ensures t0.limit + k in t.buses && t0.limit + k != ROOT
    ensures var t' := DestroyBus(t, t0.limit + k).0; Tree(t') && Grown(t0, t', parent, first, k - 1)
  {
    hide Tree, Cut;
    LimitIsFresh(t0);
    var b := t0.limit + k;
    assert Port(t, t0.limit, first, b);
    CutKeepsTree(t, b);
    CutPort(t0, t, parent, first, k);
  }

  lemma CutEffect(t: Topology, b: nat, c: nat)
    requires b in t.buses && t.buses[b].parent.Some? && t.buses[b].parent.value in t.buses && c in t.buses && c != b
    ensures var t', p := Cut(t, b), t.buses[b].parent.value;
            && c in t'.buses && (c != p ==> t'.buses[c] == t.buses[c])
            && (c == p ==> t'.buses[c] == t.buses[c].(children := Without(t.buses[c].children, b)))
  {
  }

  /** The upstream bus loses its last port. */
  lemma LastPortGone(t: Topology, parent: nat, first: nat, up: nat, k: nat)
    requires NewBus(t, parent, first, Ids(up + 1, k), up) && 0 < k && up + k in t.buses && t.buses[up + k].parent == Some(up)
    ensures NewBus(Cut(t, up + k), parent, first, Ids(up + 1, k - 1), up)
  {
    assert Ids(up + 1, k) == Ids(up + 1, k - 1) + [up + k];
    WithoutLast(Ids(up + 1, k - 1), up + k);
    hide Ids, Without;
  }

  lemma CutPort(t0: Topology, t: Topology, parent: nat, first: nat, k: nat)
    requires Grown(t0, t, parent, first, k) && 0 < k && parent in t0.buses && forall b :: b in t0.buses ==> b < t0.limit
    requires t0.limit + k in t.buses && t.buses[t0.limit + k].parent == Some(t0.limit) && t0.limit in t.buses
    ensures Grown(t0, Cut(t, t0.limit + k), parent, first, k - 1)
  {
    hide Ids, Without;
    var up, b := t0.limit, t0.limit + k;
    LastPortGone(t, parent, first, up, k);
    var t' := Cut(t, b);
    assert t'.buses.Keys == t.buses.Keys - {b} && t'.devices == t.devices && t'.limit == t.limit;
    hide Cut;
    forall c | c in t0.buses ensures Kept(t0, t', parent, c) {
      assert Kept(t0, t, parent, c);
      CutEffect(t, b, c);
    }
    forall i | up < i <= up + k - 1 ensures Port(t', up, first, i) {
      assert Port(t, up, first, i);
      CutEffect(t, b, i);
    }
  }

  lemma UpstreamCut(t0: Topology, t: Topology, parent: nat, first: nat)
    requires Tree(t0) && Tree(t) && Grown(t0, t, parent, first, 0) && parent in t0.buses
    ensures t0.limit in t.buses && t0.limit != ROOT
    ensures var t' := DestroyBus(t, t0.limit).0; Restored(t0, t', parent) && first <= t'.buses[parent].subordinate
  {
    hide Tree, Cut, Without;
    LimitIsFresh(t0);
    TreeHas(t0, parent);
    assert Ids(t0.limit + 1, 0) == [];
    forall c | c in t0.buses[parent].children ensures c < t0.limit { assert IsChild(t0, parent, c); }
    CutUpstream(t0, t, parent, first);
  }

  lemma CutUpstream(t0: Topology, t: Topology, parent: nat, first: nat)
    requires Grown(t0, t, parent, first, 0) && parent in t0.buses && t0.limit !in t0.buses[parent].children
    requires forall b :: b in t0.buses ==> b < t0.limit
    requires t0.limit in t.buses && t.buses[t0.limit].parent == Some(parent)
    ensures var t' := Cut(t, t0.limit); Restored(t0, t', parent) && first <= t'.buses[parent].subordinate
  {
    WithoutLast(t0.buses[parent].children, t0.limit);
    hide Without, Ids;
    assert Kept(t0, t, parent, parent);
    forall c | c in t0.buses ensures RestoredBus(t0, Cut(t, t0.limit), parent, c) {
      assert Kept(t0, t, parent, c);
    }
  }

  lemma {:induction false} TeardownRestores(t0: Topology, t: Topology, parent: nat, first: nat, k: nat)
    requires Tree(t0) && Tree(t) && Grown(t0, t, parent, first, k) && parent in t0.buses
    ensures ROOT < t0.limit && forall i :: t0.limit <= i <= t0.limit + k ==> i in t.buses
    ensures var t' := Teardown(t, t0.limit, k); Restored(t0, t', parent) && first <= t'.buses[parent].subordinate
    decreases k
  {
    hide Tree, DestroyBus, Port, Kept, Ids;
    TreeHas(t0, parent);
    if k == 0 {
      UpstreamCut(t0, t, parent, first);
    } else {
      PortCut(t0, t, parent, first, k);
      TeardownRestores(t0, DestroyBus(t, t0.limit + k).0, parent, first, k - 1);
    }
  }

  // ----- Switch results -----

  /**
   A failed switch leaves every bus, device, child list and allocation cursor as it was. Only subordinate
   numbers can have grown, and the parent's has when a port failed after the upstream bridge was in place.
   */
  lemma FailedSwitchRestores(t: Topology, parent: nat, secondary: u8, ports: nat)
    requires Tree(t) && parent in t.buses && InitSwitch(t, parent, secondary, ports).1.Err?
    ensures var t' := InitSwitch(t, parent, secondary, ports).0;
            && OnlyRaised(t, t'.(limit := t.limit)) && t.limit <= t'.limit
            && (ports in {1, 2, 4} && secondary <= 255 - ports && InitBridge(t, parent, secondary, ports * WINDOW).1.Ok? ==>
                  secondary <= t'.buses[parent].subordinate)
  {
    hide Tree, InitBridge, InitPorts, Teardown, Grown;
    if ports in {1, 2, 4} && secondary <= 255 - ports {
      var (t1, up) := InitBridge(t, parent, secondary, ports * WINDOW);
      if up.Ok? {
        UpstreamGrown(t, parent, secondary, ports * WINDOW);
        assert t.limit in t1.buses by { PortsGrown(t, t1, parent, secondary, 0, ports); }
        var (t2, k, failure) := InitPorts(t1, t.limit, secondary, 0, ports);
        PortsGrown(t, t1, parent, secondary, 0, ports);
        TeardownRestores(t, t2, parent, secondary, k);
        var t3 := Teardown(t2, t.limit, k);
        var t' := InitSwitch(t, parent, secondary, ports).0;
        forall b | b in t.buses
          ensures t.buses[b].subordinate <= t'.buses[b].subordinate &&
                  t'.buses[b] == t.buses[b].(subordinate := t'.buses[b].subordinate)
        {
          assert RestoredBus(t, t3, parent, b);
        }
      }
    }
  }

  /** No bus has the number. */
  ghost predicate Free(t: Topology, number: nat) {
    forall b :: b in t.buses ==> t.buses[b].number != number
  }

  lemma FindNone(t: Topology, number: nat)
    requires Tree(t)
    ensures ROOT in t.buses && (FindBus(t, ROOT, number).None? <==> Free(t, number))
  {
    hide FindBus;
    forall b | b in t.buses && t.buses[b].number == number ensures FindBus(t, ROOT, number).Some? {
      BelowRoot(t, b);
      FindBusComplete(t, ROOT, b);
    }
  }

  /** The upstream window has been handed out in whole ports, from the bottom. */
  ghost predicate RoomFor(bus: Bus, ports: nat, k: nat) {
    && bus.size == ports * WINDOW && bus.base % WINDOW == 0 && bus.base + bus.size <= U64_MAX
    && bus.next == bus.base + k * WINDOW
  }

  lemma RoomIsThere(bus: Bus, ports: nat, k: nat)
    requires RoomFor(bus, ports, k) && k < ports <= 4
    ensures WindowFor(bus, WINDOW) == Some(bus.next)
  {
    var q := bus.base / WINDOW;
    DivModUnique(bus.next + WINDOW - 1, WINDOW, q + k, WINDOW - 1);
  }

  lemma MultipleOfMultiple(q: nat, size: nat, m: nat, unit: nat)
    requires 0 < unit && size == unit * m
    ensures (size * q) % unit == 0
  {
    MulAssociative(unit, m, q);
    DivModUnique(size * q, unit, m * q, 0);
  }

  lemma AlignUpMultiple(x: nat, size: nat, m: nat, unit: nat)
    requires 0 < unit && 0 < size && size == unit * m
    ensures AlignUp(x, size) >= 0 && AlignUp(x, size) % unit == 0
  {
    var v := (x + size - 1) % U64;
    MultipleOfMultiple(v / size, size, m, unit);
    assert v == size * (v / size) + v % size;
  }

  lemma UpstreamWindow(bus: Bus, ports: nat)
    requires ports in {1, 2, 4} && WindowFor(bus, ports * WINDOW).Some?
    ensures var base := WindowFor(bus, ports * WINDOW).value;
            base % WINDOW == 0 && base + ports * WINDOW <= U64_MAX
  {
    hide AlignUp;
    AlignUpMultiple(if bus.next < bus.base then bus.base else bus.next, ports * WINDOW, ports, WINDOW);
  }

  /** With room, a port fails exactly when its number is taken. */
  lemma PortSucceedsExactly(t0: Topology, t: Topology, parent: nat, first: nat, k: nat, ports: nat)
    requires Tree(t) && Grown(t0, t, parent, first, k) && k < ports <= 4 && first + ports < U8
    requires t0.limit in t.buses && RoomFor(t.buses[t0.limit], ports, k)
    ensures var (t', r) := InitBridge(t, t0.limit, first + k + 1, WINDOW);
            && (r.Ok? <==> Free(t0, first + k + 1))
            && (r.Ok? ==> t0.limit in t'.buses && RoomFor(t'.buses[t0.limit], ports, k + 1))
  {
    hide Tree, FindBus, WindowFor, RaiseAncestors, Shaped, Attach, OnlyRaised;
    TreeHas(t, t0.limit);
    RoomIsThere(t.buses[t0.limit], ports, k);
    FindNone(t, first + k + 1);
    OnlyOldNumbers(t0, t, parent, first, k);
    UpstreamNumber(t0, t, parent, first, k);
    hide Free, RoomFor, Grown;
    var (t', r) := InitBridge(t, t0.limit, first + k + 1, WINDOW);
    if r.Ok? {
      BridgeSteps(t, t0.limit, first + k + 1, WINDOW);
      NextRoom(t, t', t0.limit, first + k + 1, ports, k);
    }
  }

  lemma UpstreamNumber(t0: Topology, t: Topology, parent: nat, first: nat, k: nat)
    requires Grown(t0, t, parent, first, k)
    ensures t0.limit in t.buses && t.buses[t0.limit].number == first
  {
  }

  lemma NextRoom(t: Topology, t': Topology, up: nat, number: nat, ports: nat, k: nat)
    requires up in t.buses && up < t.limit && RoomFor(t.buses[up], ports, k) && WindowFor(t.buses[up], WINDOW) == Some(t.buses[up].next)
    requires OnlyRaised(Attach(t, up, number, t.buses[up].next, WINDOW), t')
    ensures up in t'.buses && RoomFor(t'.buses[up], ports, k + 1)
  {
    hide WindowFor;
  }

  lemma OnlyOldNumbers(t0: Topology, t: Topology, parent: nat, first: nat, k: nat)
    requires Grown(t0, t, parent, first, k)
    ensures Free(t, first + k + 1) <==> Free(t0, first + k + 1)
  {
    var up := t0.limit;
    forall b | b in t.buses ensures t.buses[b].number == first + k + 1 ==> b in t0.buses && Kept(t0, t, parent, b) {
      if b !in t0.buses {
        assert b == up || Port(t, up, first, b);
      }
    }
    forall b | b in t0.buses ensures b in t.buses && t.buses[b].number == t0.buses[b].number {
      assert Kept(t0, t, parent, b);
    }
  }

  lemma {:induction false} PortsSucceedExactly(t0: Topology, t: Topology, parent: nat, first: nat, k: nat, ports: nat)
    requires Tree(t0) && Tree(t) && Grown(t0, t, parent, first, k) && t.limit == t0.limit + k + 1 && parent in t0.buses
    requires k <= ports <= 4 && first + ports < U8
    requires t0.limit in t.buses && RoomFor(t.buses[t0.limit], ports, k)
    ensures InitPorts(t, t0.limit, first, k, ports).2.None? <==> forall n :: first + k < n <= first + ports ==> Free(t0, n)
    decreases ports - k
  {
    hide Tree, InitBridge, Grown, RoomFor, Free;
    if k < ports {
      PortGrown(t0, t, parent, first, k);
      PortSucceedsExactly(t0, t, parent, first, k, ports);
      var (t1, r) := InitBridge(t, t0.limit, first + k + 1, WINDOW);
      if r.Ok? {
        PortsSucceedExactly(t0, t1, parent, first, k + 1, ports);
      }
    }
  }

  /** A switch succeeds exactly when its port count, numbers and window are available; ports never lack room. */
  lemma SwitchSucceedsExactly(t: Topology, parent: nat, secondary: u8, ports: nat)
    requires Tree(t) && parent in t.buses
    ensures InitSwitch(t, parent, secondary, ports).1.Ok? <==>
            && ports in {1, 2, 4} && secondary + ports <= 255 && t.buses[parent].number < secondary
            && WindowFor(t.buses[parent], ports * WINDOW).Some?
            && forall n :: secondary <= n <= secondary + ports ==> Free(t, n)
  {
    hide Tree, FindBus, WindowFor, RaiseAncestors, InitPorts, Grown, Teardown, Free, RoomFor;
    if ports in {1, 2, 4} && secondary <= 255 - ports {
      FindNone(t, secondary);
      var (t1, up) := InitBridge(t, parent, secondary, ports * WINDOW);
      if up.Ok? {
        UpstreamGrown(t, parent, secondary, ports * WINDOW);
        UpstreamRoom(t, parent, secondary, ports);
        PortsSucceedExactly(t, t1, parent, secondary, 0, ports);
      }
    }
  }

  lemma UpstreamRoom(t: Topology, parent: nat, secondary: u8, ports: nat)
    requires Tree(t) && parent in t.buses && ports in {1, 2, 4} && InitBridge(t, parent, secondary, ports * WINDOW).1.Ok?
    ensures var t1 := InitBridge(t, parent, secondary, ports * WINDOW).0;
            t.limit in t1.buses && RoomFor(t1.buses[t.limit], ports, 0)
  {
    hide Tree, InitBridge, WindowFor;
    BridgeSteps(t, parent, secondary, ports * WINDOW);
    UpstreamWindow(t.buses[parent], ports);
  }

  lemma {:induction false} InitPortsKeepsInv(t: Topology, up: nat, first: nat, k: nat, ports: nat)
    requires Inv(t) && up in t.buses && k <= ports && first + ports < U8
    ensures Inv(InitPorts(t, up, first, k, ports).0)
    decreases ports - k
  {
    hide InitBridge, Tree, DistinctNumbers, Numbered, Placed;
    if k < ports {
      InitBridgeKeepsInv(t, up, first + k + 1, WINDOW);
      BusesStay(t, up, first + k + 1, WINDOW);
      var (t1, r) := InitBridge(t, up, first + k + 1, WINDOW);
      if r.Ok? {
        InitPortsKeepsInv(t1, up, first, k + 1, ports);
      }
    }
  }

  lemma LargerLimit(t: Topology, limit: nat)
    requires Inv(t) && t.limit <= limit
    ensures Inv(t.(limit := limit))
  {
    var t' := t.(limit := limit);
    hide FunctionsAgree, PlacedAt;
    assert Tree(t') by {
      forall b | b in t'.buses ensures Linked(t', b) {
        assert Linked(t, b);
        forall c | c in t'.buses[b].children ensures IsChild(t', b, c) { assert IsChild(t, b, c); }
      }
    }
    KeepsPlaced(t, t');
  }

  lemma InitSwitchKeepsInv(t: Topology, parent: nat, secondary: u8, ports: nat)
    requires Inv(t) && parent in t.buses
    ensures Inv(InitSwitch(t, parent, secondary, ports).0)
  {
    hide Tree, DistinctNumbers, Numbered, Placed, InitBridge, InitPorts, Teardown, Grown;
    var (t', r) := InitSwitch(t, parent, secondary, ports);
    if r.Err? {
      FailedSwitchRestores(t, parent, secondary, ports);
      RaisedKeepsInv(t, t'.(limit := t.limit));
      LargerLimit(t'.(limit := t.limit), t'.limit);
    } else {
      UpstreamGrown(t, parent, secondary, ports * WINDOW);
      InitBridgeKeepsInv(t, parent, secondary, ports * WINDOW);
      var t1 := InitBridge(t, parent, secondary, ports * WINDOW).0;
      assert t.limit in t1.buses by { GrownIds(t, t1, parent, secondary, 0); }
      InitPortsKeepsInv(t1, t.limit, secondary, 0, ports);
    }
  }

  // ----- Runs -----

  datatype Op =
    | AddBridge(parent: nat, number: u8)
    | AddSwitch(parent: nat, number: u8, ports: nat)
    | DropBus(bus: nat)
    | SetNumbers(bus: nat, secondary: u8, subordinate: u8)
    | PlugIn(bus: nat, device: nat, devfn: u8)
    | PlugOut(bus: nat, device: nat)
    | Realize(device: nat, on: bool)

  /** An operation on a bus or device that exists; others cannot be called. */
  function Step(t: Topology, op: Op): Topology
    requires Tree(t)
  {
    match op
    case AddBridge(parent, number) => if parent in t.buses then InitBridge(t, parent, number, WINDOW).0 else t
    case AddSwitch(parent, number, ports) => if parent in t.buses then InitSwitch(t, parent, number, ports).0 else t
    case DropBus(b) => if b in t.buses && b != ROOT then DestroyBus(t, b).0 else t
    case SetNumbers(b, first, last) => if b in t.buses then WriteBusNumbers(t, b, first, last).0 else t
    case PlugIn(b, d, devfn) => if b in t.buses && d in t.devices then AddDevice(t, b, d, devfn).0 else t
    case PlugOut(b, d) => if b in t.buses && d in t.devices then RemoveDevice(t, b, d).0 else t
    case Realize(d, on) => if d in t.devices then SetRealized(t, d, on) else t
  }

  lemma StepKeepsInv(t: Topology, op: Op)
    requires Inv(t)
    ensures Inv(Step(t, op))
  {
    hide Tree, DistinctNumbers, Numbered, Placed, InitBridge, InitSwitch, DestroyBus, WriteBusNumbers, AddDevice, RemoveDevice, SetRealized;
    match op
    case AddBridge(parent, number) => if parent in t.buses { InitBridgeKeepsInv(t, parent, number, WINDOW); }
    case AddSwitch(parent, number, ports) => if parent in t.buses { InitSwitchKeepsInv(t, parent, number, ports); }
    case DropBus(b) => if b in t.buses && b != ROOT { DestroyKeepsInv(t, b); }
    case SetNumbers(b, first, last) => if b in t.buses { WriteBusNumbersKeepsInv(t, b, first, last); }
    case PlugIn(b, d, devfn) => if b in t.buses && d in t.devices { AddDeviceKeepsInv(t, b, d, devfn); }
    case PlugOut(b, d) => if b in t.buses && d in t.devices { RemoveDeviceKeepsInv(t, b, d); }
    case Realize(d, on) => if d in t.devices { SetRealizedKeepsInv(t, d, on); }
  }

  ghost function Run(t: Topology, ops: seq<Op>): (t': Topology)
    requires Inv(t)
    ensures Inv(t')
    decreases |ops|
  {
    hide Step, Tree, DistinctNumbers, Numbered, Placed;
    if ops == [] then t
    else
      StepKeepsInv(t, ops[0]);
      Run(Step(t, ops[0]), ops[1..])
  }

  const MMIO_BASE: nat := 0x4000_0000
  const MMIO_SIZE: nat := 0x4000_0000

  /** A root complex before any bridge or device is attached. */
  function Start(devices: set<nat>): Topology {
    Topology(map[ROOT := Bus(None, [], 0, 255, map[], MMIO_BASE, MMIO_SIZE, MMIO_BASE, [])],
             map d | d in devices :: Device(None, 0, false), 1)
  }

  lemma StartInv(devices: set<nat>)
    ensures Inv(Start(devices))
  {
    var t := Start(devices);
    assert Linked(t, ROOT);
    assert FunctionsAgree(t, ROOT);
  }

  /** Attached devices have requester IDs of their own. */
  ghost predicate IdsUnique(t: Topology) {
    forall d, e :: Attached(t, d) && Attached(t, e) && t.devices[d].requesterId == t.devices[e].requesterId ==> d == e
  }

  /** A bus is found by its number and by nothing else. */
  ghost predicate BusesFound(t: Topology)
    requires Tree(t) && ROOT in t.buses
  {
    forall number, b :: FindBus(t, ROOT, number) == Some(b) <==> b in t.buses && t.buses[b].number == number
  }

  /** A configuration access reaches exactly the realized device whose requester ID is in the offset. */
  ghost predicate AccessesExact(t: Topology)
    requires Tree(t)
  {
    forall offset: nat, size: nat, d ::
      offset < 0x1000_0000 && size <= 0x1000 && offset % 0x1000 <= 0x1000 - size ==>
        (EcamLookup(t, offset, size) == Some(d) <==>
         Attached(t, d) && t.devices[d].realized && t.devices[d].requesterId == offset / 0x1000)
  }

  /** After any run: bus numbers and requester IDs are unique, bus search is exact, and dispatch is exact. */
  lemma ReachableTopology(devices: set<nat>, ops: seq<Op>)
    ensures Inv(Start(devices))
    ensures var t := Run(Start(devices), ops); Tree(t) && ROOT in t.buses
    ensures var t := Run(Start(devices), ops); DistinctNumbers(t) && IdsUnique(t) && BusesFound(t) && AccessesExact(t)
  {
    hide Run, Inv, Start, BusesFound, AccessesExact, IdsUnique;
    StartInv(devices);
    var t := Run(Start(devices), ops);
    AllIdsUnique(t);
    AllBusesFound(t);
    AllAccessesExact(t);
  }

  lemma AllIdsUnique(t: Topology)
    requires Inv(t)
    ensures IdsUnique(t)
  {
    hide Inv;
    forall d, e | Attached(t, d) && Attached(t, e) && t.devices[d].requesterId == t.devices[e].requesterId ensures d == e {
      RequesterIdsUnique(t, d, e);
    }
  }

  lemma AllBusesFound(t: Topology)
    requires Inv(t)
    ensures Tree(t) && ROOT in t.buses && DistinctNumbers(t) && BusesFound(t)
  {
    hide FindBus, Numbered, Placed;
    forall number: nat, b: nat
      ensures FindBus(t, ROOT, number) == Some(b) <==> b in t.buses && t.buses[b].number == number
    {
      FindBusExact(t, number, b);
    }
  }

  lemma AllAccessesExact(t: Topology)
    requires Inv(t)
    ensures Tree(t) && AccessesExact(t)
  {
    hide EcamLookup, Tree, Numbered, Placed, DistinctNumbers;
    forall offset: nat, size: nat, d: nat
      | offset < 0x1000_0000 && size <= 0x1000 && offset % 0x1000 <= 0x1000 - size
      ensures EcamLookup(t, offset, size) == Some(d) <==>
              Attached(t, d) && t.devices[d].realized && t.devices[d].requesterId == offset / 0x1000
    {
      EcamExact(t, offset, size, d);
    }
  }

  predicate Attached(t: Topology, d: nat) {
    d in t.devices && t.devices[d].place.Some?
  }
}
