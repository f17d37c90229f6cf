/**
 The software IOMMU context: translation modes, and the 64-entry cache in front of the page-table walk.

 The main result is over every run of mode changes, translations, page-table edits and
 invalidations: a translation answers exactly what a fresh walk would, unless the page tables were
 edited under that IOVA and no invalidation has covered it since.
 */
module TranslationCache {
  import opened Base
  import opened PageWalk

  const CAPACITY: nat := 64

  datatype Entry = Entry(iovaBase: nat, target: nat, size: nat, permissions: nat, valid: bool)

  /** The live entries in array order, and the eviction cursor. */
  datatype Cache = Cache(entries: seq<Entry>, next: nat)

  datatype Mode = Identity | Fault | Sv39 | Sv39x4

  datatype Context = Context(mode: Mode, rootPpn: nat, rootValid: bool, updateAd: bool, cache: Cache)

  // ----- The cache -----

  function EmptyCache(): Cache { Cache([], 0) }

  /** The entry does not serve this access; the bound test wraps at 2^64 as the program's does. */
  predicate Skips(e: Entry, iova: nat, size: u64, write: bool)
    requires 0 < size
  {
    || !e.valid
    || iova < e.iovaBase
    || iova > U64_MAX - (size - 1)
    || (iova + size) % U64 > e.iovaBase + e.size
    || !PermissionR(e.permissions)
    || (write && !PermissionW(e.permissions))
  }

  /** The first entry that serves the access decides. */
  function Lookup(entries: seq<Entry>, iova: nat, size: u64, write: bool): Option<nat>
    requires 0 < size
  {
    if entries == [] then None
    else if Skips(entries[0], iova, size, write) then Lookup(entries[1..], iova, size, write)
    else
      var offset := iova - entries[0].iovaBase;
      if entries[0].target > U64_MAX - offset || entries[0].target + offset > U64_MAX - (size - 1) then None
      else Some(entries[0].target + offset)
  }

  function EntryOf(t: Translation): Entry {
    Entry(t.iovaBase, t.target, t.size, t.permissions, true)
  }

  /** Appended while there is room; afterwards the cursor's entry is replaced. */
  function Insert(cache: Cache, t: Translation): Cache
    requires |cache.entries| <= CAPACITY
  {
    if |cache.entries| < CAPACITY then cache.(entries := cache.entries + [EntryOf(t)])
    else Cache(cache.entries[cache.next % CAPACITY := EntryOf(t)], (cache.next + 1) % U64)
  }

  predicate Overlaps(e: Entry, first: nat, length: nat) {
    first < e.iovaBase + e.size && e.iovaBase < first + length
  }

  /** The entries disjoint from a range, in order. */
  function Disjoint(entries: seq<Entry>, first: nat, length: nat): seq<Entry> {
    if entries == [] then []
    else (if Overlaps(entries[0], first, length) then [] else [entries[0]]) + Disjoint(entries[1..], first, length)
  }

  lemma DisjointStep(kept: seq<Entry>, entries: seq<Entry>, first: nat, length: nat)
    requires entries != []
    ensures Overlaps(entries[0], first, length) ==>
              Disjoint(entries, first, length) == Disjoint(entries[1..], first, length)
    ensures !Overlaps(entries[0], first, length) ==>
              kept + Disjoint(entries, first, length) == kept + [entries[0]] + Disjoint(entries[1..], first, length)
  {
  }

  function InvalidateRange(cache: Cache, first: nat, length: nat): Cache {
    var entries := Disjoint(cache.entries, first, length);
    Cache(entries, if |entries| == 0 then 0 else cache.next % |entries|)
  }

  lemma {:induction false} DisjointMembers(entries: seq<Entry>, first: nat, length: nat)
    ensures forall e :: e in Disjoint(entries, first, length) <==> e in entries && !Overlaps(e, first, length)
    ensures |Disjoint(entries, first, length)| <= |entries|
  {
    if entries != [] {
      DisjointMembers(entries[1..], first, length);
    }
  }

  /** A hit comes from some entry that serves the access. */
  lemma {:induction false} LookupHit(entries: seq<Entry>, iova: nat, size: u64, write: bool) returns (e: Entry)
    requires 0 < size && Lookup(entries, iova, size, write).Some?
    ensures e in entries && !Skips(e, iova, size, write)
    ensures Lookup(entries, iova, size, write) == Some(e.target + (iova - e.iovaBase))
  {
    if Skips(entries[0], iova, size, write) {
      e := LookupHit(entries[1..], iova, size, write);
    } else {
      e := entries[0];
    }
  }

  // ----- The context -----

  predicate Translating(mode: Mode) { mode == Sv39 || mode == Sv39x4 }

  function ConfigOf(c: Context): Config {
    Config(c.rootPpn, c.mode == Sv39x4, c.updateAd)
  }

  datatype Outcome = Outcome(context: Context, memory: Memory, result: Result<nat>)

  ghost predicate ValidContext(c: Context) {
    c.rootPpn <= U64_MAX / 0x1000 && |c.cache.entries| <= CAPACITY
  }

  function Translate(c: Context, memory: Memory, address: u64, size: nat, write: bool): Outcome
    requires ValidContext(c) && size < U64
  {
    if size == 0 then Outcome(c, memory, Err(EINVAL))
    else if c.mode == Fault then Outcome(c, memory, Err(EACCES))
    else if c.mode == Identity then Outcome(c, memory, Ok(address))
    else if !c.rootValid then Outcome(c, memory, Err(ENODEV))
    else
      match Canonical(address, c.mode == Sv39x4)
      case Err(error) => Outcome(c, memory, Err(error))
      case Ok(iova) =>
        var hit := if c.updateAd then None else Lookup(c.cache.entries, iova, size, write);
        if hit.Some? then Outcome(c, memory, Ok(hit.value))
        else
          var walk := Walk(memory, ConfigOf(c), iova, size, write);
          match walk.result
          case Err(error) => Outcome(c, walk.memory, Err(error))
          case Ok(t) =>
            Outcome(c.(cache := Insert(c.cache, t)), walk.memory, Ok(t.target + (iova - t.iovaBase)))
  }

  /** The same answer computed without any cache. */
  function FreshTranslate(c: Context, memory: Memory, address: u64, size: nat, write: bool): Result<nat>
    requires ValidContext(c) && size < U64
  {
    if size == 0 then Err(EINVAL)
    else if c.mode == Fault then Err(EACCES)
    else if c.mode == Identity then Ok(address)
    else if !c.rootValid then Err(ENODEV)
    else
      match Canonical(address, c.mode == Sv39x4)
      case Err(error) => Err(error)
      case Ok(iova) =>
        match Walk(memory, ConfigOf(c), iova, size, write).result
        case Err(error) => Err(error)
        case Ok(t) => Ok(t.target + (iova - t.iovaBase))
  }

  function SetMode(c: Context, mode: Mode): (Context, Result<()>) {
    if Translating(mode) && !c.rootValid then (c, Err(EINVAL))
    else (c.(mode := mode, cache := EmptyCache()), Ok(()))
  }

  function SetRoot(c: Context, rootPpn: nat, updateAd: bool, x4: bool): (Context, Result<()>) {
    if rootPpn > U64_MAX / 0x1000 || (x4 && rootPpn % 4 != 0) then (c, Err(EINVAL))
    else (Context(if x4 then Sv39x4 else Sv39, rootPpn, true, updateAd, EmptyCache()), Ok(()))
  }

  function Invalidate(c: Context, address: u64, size: nat): (Context, Result<()>)
    requires size < U64
  {
    if size == 0 || address > U64_MAX - (size - 1) then (c, Err(EINVAL))
    else if !Translating(c.mode) then (c.(cache := EmptyCache()), Ok(()))
    else
      var limit := IovaLimit(c.mode == Sv39x4);
      match Canonical(address, c.mode == Sv39x4)
      case Err(error) => (c, Err(EFAULT))
      case Ok(iova) =>
        if size >= limit then (c.(cache := EmptyCache()), Ok(()))
        else if iova > limit - size then (c, Err(ERANGE))
        else (c.(cache := InvalidateRange(c.cache, iova, size)), Ok(()))
  }

  // ----- Walks without A/D update -----

  /** The translation of the page that holds an IOVA, as a one-byte read finds it. */
  function ReadWalk(memory: Memory, config: Config, iova: nat): Result<Translation>
    requires ValidConfig(config)
  {
    Walk(memory, config.(updateAd := false), iova, 1, false).result
  }

  predicate RangeAccepted(offset: nat, size: u64, page: nat)
    requires 0 < size
  {
    offset <= U64_MAX - (size - 1) && (offset + size) % U64 <= page
  }

  /** The leaf reached for an IOVA carries the D bit. */
  predicate LeafDirty(memory: Memory, config: Config, iova: nat)
    requires ValidConfig(config)
  {
    var leaf := FindLeaf(memory, config.x4, config.rootPpn * 0x1000, 0, iova);
    leaf.Ok? && D(leaf.value.pte)
  }

  /** In place and shifted down, the R and W bits are the same; an allowed write can also read. */
  lemma PermissionBits(pte: u64)
    ensures PermissionR(Permissions(pte)) == R(pte) && PermissionW(Permissions(pte)) == W(pte)
    ensures !Denied(pte, true) ==> !Denied(pte, false)
    ensures !Denied(pte, false) && W(pte) ==> !Denied(pte, true)
  {
    var bits := pte / 2 % 8;
    assert pte / 4 == pte / 2 / 2;
    DivModUnique(pte / 2, 8, pte / 2 / 8, bits);
    DivModUnique(pte / 2, 2, 4 * (pte / 2 / 8) + bits / 2, bits % 2);
    DivModUnique(pte / 4, 2, 2 * (pte / 2 / 8) + bits / 2 / 2, bits / 2 % 2);
  }

  /** What a read of one byte says about every other access at the same IOVA. */
  lemma WalkFromReadWalk(memory: Memory, config: Config, iova: nat, size: u64, write: bool)
    requires ValidConfig(config) && !config.updateAd && 0 < size
    requires ReadWalk(memory, config, iova).Ok?
    ensures var t := ReadWalk(memory, config, iova).value;
            && 0 < t.size && t.iovaBase == iova - iova % t.size
            && PermissionR(t.permissions)
            && (Walk(memory, config, iova, size, write).result == Ok(t) <==>
                RangeAccepted(iova % t.size, size, t.size) &&
                (write ==> PermissionW(t.permissions) && LeafDirty(memory, config, iova)))
            && (Walk(memory, config, iova, size, write).result.Ok? ==>
                Walk(memory, config, iova, size, write).result == Ok(t))
  {
    hide V, R, W, U, A, D, ReservedOrNapot, Permissions, PermissionR, PermissionW, Ppn, SetAd, FindLeaf;
    PermissionBits(FindLeaf(memory, config.x4, config.rootPpn * 0x1000, 0, iova).value.pte);
  }

  /** A successful walk is found again by a one-byte read anywhere in its page. */
  lemma ReadWalkLocal(memory: Memory, config: Config, iova: nat, size: u64, write: bool, x: nat)
    requires ValidConfig(config) && !config.updateAd && 0 < size
    requires Walk(memory, config, iova, size, write).result.Ok?
    requires var t := Walk(memory, config, iova, size, write).result.value; t.iovaBase <= x < t.iovaBase + t.size
    ensures ReadWalk(memory, config, x) == Walk(memory, config, iova, size, write).result
  {
    hide V, R, W, U, A, D, ReservedOrNapot, Permissions, PermissionR, PermissionW, Ppn, SetAd, FindLeaf;
    var root := config.rootPpn * 0x1000;
    var leaf := FindLeaf(memory, config.x4, root, 0, iova).value;
    var page := PageSize(leaf.level);
    PermissionBits(leaf.pte);
    DivModUnique(x, page, iova / page, x - (iova - iova % page));
    FindLeafLocal(memory, config.x4, root, 0, iova, x);
  }

  /** A page that holds an IOVA lies within the IOVA space. */
  lemma PageWithinSpace(x4: bool, level: nat, iova: nat)
    requires level < 3 && iova < IovaLimit(x4)
    ensures iova - iova % PageSize(level) + PageSize(level) <= IovaLimit(x4)
  {
    var page := PageSize(level);
    var pages := IovaLimit(x4) / page;
    assert page * pages == IovaLimit(x4) && iova == page * (iova / page) + iova % page;
    if pages <= iova / page {
      MulMonotone(page, pages, iova / page);
    } else {
      MulMonotone(page, iova / page + 1, pages);
    }
  }

  // ----- Runs -----

  /** The context, the memory its tables live in, and the IOVAs edited under since an invalidation covered them. */
  datatype System = System(context: Context, memory: Memory, stale: iset<nat>)

  datatype Op =
    | OpSetMode(mode: Mode)
    | OpSetRoot(rootPpn: nat, updateAd: bool, x4: bool)
    | OpTranslate(address: u64, size: u64, write: bool)
    | OpEdit(memory: Memory)
    | OpInvalidate(address: u64, size: u64)

  /** The IOVAs of the space whose page translates differently in two memories. */
  ghost function Edited(before: Memory, after: Memory, c: Context): iset<nat>
    requires ValidContext(c)
  {
    iset x: nat | x < IovaLimit(c.mode == Sv39x4) && ReadWalk(before, ConfigOf(c), x) != ReadWalk(after, ConfigOf(c), x)
  }

  /** The IOVAs that an accepted invalidation takes out of the cache. */
  ghost function Covered(c: Context, address: u64, size: u64): iset<nat> {
    iset x: nat | IsCovered(c, address, size, x)
  }

  ghost predicate IsCovered(c: Context, address: u64, size: u64, x: nat) {
    var iova := Canonical(address, c.mode == Sv39x4);
    && Invalidate(c, address, size).1.Ok?
    && (!Translating(c.mode) || size >= IovaLimit(c.mode == Sv39x4) ||
        (iova.Ok? && iova.value <= x < iova.value + size))
  }

  ghost function Step(s: System, op: Op): System
    requires ValidContext(s.context)
  {
    match op
    case OpSetMode(mode) =>
      var (context, r) := SetMode(s.context, mode);
      System(context, s.memory, if r.Ok? then iset{} else s.stale)
    case OpSetRoot(rootPpn, updateAd, x4) =>
      var (context, r) := SetRoot(s.context, rootPpn, updateAd, x4);
      System(context, s.memory, if r.Ok? then iset{} else s.stale)
    case OpTranslate(address, size, write) =>
      var o := Translate(s.context, s.memory, address, size, write);
      System(o.context, o.memory, s.stale)
    case OpEdit(memory) =>
      System(s.context, memory, s.stale + Edited(s.memory, memory, s.context))
    case OpInvalidate(address, size) =>
      var (context, r) := Invalidate(s.context, address, size);
      System(context, s.memory, s.stale - Covered(s.context, address, size))
  }

  ghost predicate EntryCoherent(s: System, e: Entry)
    requires ValidContext(s.context)
  {
    && e.valid && 0 < e.size && e.iovaBase % e.size == 0
    && e.iovaBase + e.size <= IovaLimit(s.context.mode == Sv39x4)
    && forall x: nat :: e.iovaBase <= x < e.iovaBase + e.size && x !in s.stale ==>
        ReadWalk(s.memory, ConfigOf(s.context), x) ==
        Ok(Translation(e.iovaBase, e.target, e.size, e.permissions))
  }

  /** The invariant of every run. With A/D update on, the cache is written but never read. */
  ghost predicate Coherent(s: System) {
    && ValidContext(s.context)
    && (s.context.cache.entries != [] ==> Translating(s.context.mode))
    && (!s.context.updateAd ==> forall e :: e in s.context.cache.entries ==> EntryCoherent(s, e))
  }

  lemma TranslateKeepsCoherent(s: System, address: u64, size: u64, write: bool)
    requires Coherent(s)
    ensures Coherent(Step(s, OpTranslate(address, size, write)))
  {
    hide ReadWalk, Walk, Lookup, Canonical, Skips;
    var c := s.context;
    var s' := Step(s, OpTranslate(address, size, write));
    var canonical := Canonical(address, c.mode == Sv39x4);
    if canonical.Ok? && !c.updateAd && 0 < size {
      WalkWithoutUpdateKeepsMemory(s.memory, ConfigOf(c), canonical.value, size, write);
    }
    if s'.context.cache != c.cache && !c.updateAd {
      var iova := canonical.value;
      var t := Walk(s.memory, ConfigOf(c), iova, size, write).result.value;
      InsertedCoherent(s, iova, size, write);
      forall e | e in s'.context.cache.entries
        ensures EntryCoherent(s', e)
      {
        assert e in c.cache.entries || e == EntryOf(t);
        assert EntryCoherent(s, e);
      }
    }
  }

  lemma WalkWithoutUpdateKeepsMemory(memory: Memory, config: Config, iova: nat, size: u64, write: bool)
    requires ValidConfig(config) && 0 < size && !config.updateAd
    ensures Walk(memory, config, iova, size, write).memory == memory
  {
  }

  lemma InsertedCoherent(s: System, iova: nat, size: u64, write: bool)
    requires Coherent(s) && !s.context.updateAd && 0 < size && iova < IovaLimit(s.context.mode == Sv39x4)
    requires Walk(s.memory, ConfigOf(s.context), iova, size, write).result.Ok?
    ensures EntryCoherent(s, EntryOf(Walk(s.memory, ConfigOf(s.context), iova, size, write).result.value))
  {
    hide V, R, W, U, A, D, ReservedOrNapot, Permissions, PermissionR, PermissionW, Ppn, SetAd, ReadWalk, FindLeaf;
    var config := ConfigOf(s.context);
    var leaf := FindLeaf(s.memory, config.x4, config.rootPpn * 0x1000, 0, iova).value;
    var t := Walk(s.memory, config, iova, size, write).result.value;
    PageWithinSpace(config.x4, leaf.level, iova);
    DivModUnique(t.iovaBase, t.size, iova / t.size, 0);
    forall x: nat | t.iovaBase <= x < t.iovaBase + t.size
      ensures ReadWalk(s.memory, config, x) == Ok(t)
    {
      ReadWalkLocal(s.memory, config, iova, size, write, x);
    }
  }

  lemma InvalidateKeepsCoherent(s: System, address: u64, size: u64)
    requires Coherent(s)
    ensures Coherent(Step(s, OpInvalidate(address, size)))
  {
    hide ReadWalk, Canonical, Disjoint, IovaLimit;
    var c, s' := s.context, Step(s, OpInvalidate(address, size));
    var iova := Canonical(address, c.mode == Sv39x4);
    if iova.Ok? {
      DisjointMembers(c.cache.entries, iova.value, size);
    }
    forall e | e in s'.context.cache.entries && !c.updateAd
      ensures EntryCoherent(s', e)
    {
      assert EntryCoherent(s, e);
      forall x: nat | e.iovaBase <= x < e.iovaBase + e.size && x !in s'.stale
        ensures x !in s.stale
      {
      }
    }
  }

  lemma StepKeepsCoherent(s: System, op: Op)
    requires Coherent(s)
    ensures Coherent(Step(s, op))
  {
    hide ReadWalk, Canonical;
    match op {
      case OpTranslate(address, size, write) => TranslateKeepsCoherent(s, address, size, write);
      case OpInvalidate(address, size) => InvalidateKeepsCoherent(s, address, size);
      case OpEdit(memory) =>
        var s' := Step(s, op);
        forall e | e in s'.context.cache.entries && !s.context.updateAd
          ensures EntryCoherent(s', e)
        {
          assert EntryCoherent(s, e);
        }
      case _ =>
    }
  }

  ghost function Run(s: System, ops: seq<Op>): System
    requires Coherent(s)
    ensures Coherent(Run(s, ops))
    decreases |ops|
  {
    if ops == [] then s
    else
      StepKeepsCoherent(s, ops[0]);
      Run(Step(s, ops[0]), ops[1..])
  }

  // ----- Agreement with the walk -----

  /** The entry that decides a lookup. */
  function Server(entries: seq<Entry>, iova: nat, size: u64, write: bool): (e: Option<Entry>)
    requires 0 < size
    ensures e.Some? ==> e.value in entries && !Skips(e.value, iova, size, write)
  {
    if entries == [] then None
    else if Skips(entries[0], iova, size, write) then Server(entries[1..], iova, size, write)
    else Some(entries[0])
  }

  lemma {:induction false} HitIsServed(entries: seq<Entry>, iova: nat, size: u64, write: bool)
    requires 0 < size && Lookup(entries, iova, size, write).Some?
    ensures var e := Server(entries, iova, size, write);
            e.Some? && Lookup(entries, iova, size, write) == Some(e.value.target + (iova - e.value.iovaBase))
  {
    if Skips(entries[0], iova, size, write) {
      HitIsServed(entries[1..], iova, size, write);
    }
  }

  /**
   The hit is right: the entry is that of the IOVA's own page, the access does not end at 2^64 unless the page is
   the first, and a writable leaf reached by a write carries D.
   */
  ghost predicate HitIsSound(s: System, e: Entry, iova: nat, size: u64, write: bool)
    requires ValidContext(s.context)
  {
    && iova < e.iovaBase + e.size
    && (iova + size == U64 ==> e.iovaBase == 0)
    && (write ==> LeafDirty(s.memory, ConfigOf(s.context), iova))
  }

  /**
   Exactly when a cache hit agrees with a fresh walk, for tables not edited under the IOVA or under the start of the
   entry. The bound test of the lookup wraps, so an access that ends at 2^64 can be served by the entry of any
   earlier page; and a hit tests W but not D.
   */
  lemma HitAgreesExactlyWhen(s: System, iova: nat, size: u64, write: bool)
    requires Coherent(s) && !s.context.updateAd && 0 < size && iova < IovaLimit(s.context.mode == Sv39x4)
    requires Lookup(s.context.cache.entries, iova, size, write).Some? && iova !in s.stale
    requires var e := Server(s.context.cache.entries, iova, size, write); e.Some? ==> e.value.iovaBase !in s.stale
    ensures Server(s.context.cache.entries, iova, size, write).Some?
    ensures var walk := Walk(s.memory, ConfigOf(s.context), iova, size, write).result;
            var v := Lookup(s.context.cache.entries, iova, size, write).value;
            (walk.Ok? && walk.value.target + (iova - walk.value.iovaBase) == v) <==>
            HitIsSound(s, Server(s.context.cache.entries, iova, size, write).value, iova, size, write)
  {
    hide PermissionR, PermissionW, ReadWalk, Walk, LeafDirty, Lookup, Server;
    HitIsServed(s.context.cache.entries, iova, size, write);
    var e := Server(s.context.cache.entries, iova, size, write).value;
    assert EntryCoherent(s, e);
    if iova < e.iovaBase + e.size {
      WalkFromReadWalk(s.memory, ConfigOf(s.context), iova, size, write);
      RangeOnHit(e, iova, size);
    } else {
      OtherPageNeverAgrees(s, e, iova, size, write);
    }
  }

  /** Served by the entry of another page, the access ends at 2^64 and a fresh walk refuses it. */
  lemma OtherPageNeverAgrees(s: System, e: Entry, iova: nat, size: u64, write: bool)
    requires ValidContext(s.context) && EntryCoherent(s, e) && !s.context.updateAd && 0 < size
    requires !Skips(e, iova, size, write) && e.iovaBase + e.size <= iova < IovaLimit(s.context.mode == Sv39x4)
    requires e.iovaBase !in s.stale
    ensures iova + size == U64 && Walk(s.memory, ConfigOf(s.context), iova, size, write).result.Err?
  {
    hide PermissionR, PermissionW, ReadWalk, LeafDirty, FindLeaf, Permissions, Ppn, V, R, W, U, A, D;
    var config := ConfigOf(s.context);
    var walk := Walk(s.memory, config, iova, size, write).result;
    if walk.Ok? {
      var t := walk.value;
      assert t.iovaBase == iova - iova % t.size && (iova % t.size + size) % U64 <= t.size && t.size <= 0x4000_0000;
      assert t.iovaBase == 0;
      hide Walk;
      ReadWalkLocal(s.memory, config, iova, size, write, e.iovaBase);
    }
  }

  /** The hit's bound test against the walk's, for an IOVA on the entry's page. */
  lemma RangeOnHit(e: Entry, iova: nat, size: u64)
    requires 0 < size && 0 < e.size && e.iovaBase % e.size == 0
    requires e.iovaBase + e.size < U64 && e.iovaBase <= iova < e.iovaBase + e.size
    requires iova <= U64_MAX - (size - 1) && (iova + size) % U64 <= e.iovaBase + e.size
    ensures iova % e.size == iova - e.iovaBase
    ensures RangeAccepted(iova % e.size, size, e.size) <==> (iova + size == U64 ==> e.iovaBase == 0)
  {
    DivModUnique(iova, e.size, e.iovaBase / e.size, iova - e.iovaBase);
  }

  /**
   In every reachable state, a translation at an IOVA with no unflushed edit answers what a fresh walk
   answers, errors included. Writes need the D bit on the leaf if it is writable; the access must not
   end exactly at 2^64.
   */
  lemma TranslateAgrees(s: System, address: u64, size: u64, write: bool)
    requires Coherent(s)
    requires var iova := Canonical(address, s.context.mode == Sv39x4);
             iova.Ok? ==> iova.value !in s.stale && iova.value + size != U64 &&
                          (write ==> WritableIsDirty(s.memory, ConfigOf(s.context), iova.value))
    ensures Translate(s.context, s.memory, address, size, write).result ==
            FreshTranslate(s.context, s.memory, address, size, write)
  {
    hide PermissionR, PermissionW, ReadWalk, Walk, Lookup, LeafDirty, WritableIsDirty;
    var c := s.context;
    var canonical := Canonical(address, c.mode == Sv39x4);
    if Translating(c.mode) && !c.updateAd && 0 < size && canonical.Ok? {
      var iova := canonical.value;
      if Lookup(c.cache.entries, iova, size, write).Some? {
        var e := LookupHit(c.cache.entries, iova, size, write);
        assert EntryCoherent(s, e);
        WalkFromReadWalk(s.memory, ConfigOf(c), iova, size, write);
        RangeOnHit(e, iova, size);
        if write {
          WritableMeansDirty(s.memory, ConfigOf(c), iova);
        }
      }
    }
  }

  /** The cache answers the access. */
  ghost predicate Hits(c: Context, address: u64, size: u64, write: bool) {
    var iova := Canonical(address, c.mode == Sv39x4);
    && 0 < size && Translating(c.mode) && c.rootValid && !c.updateAd && iova.Ok?
    && Lookup(c.cache.entries, iova.value, size, write).Some?
  }

  ghost predicate SoundIfHit(s: System, address: u64, size: u64, write: bool)
    requires ValidContext(s.context)
  {
    Hits(s.context, address, size, write) ==>
      var iova := Canonical(address, s.context.mode == Sv39x4).value;
      var e := Server(s.context.cache.entries, iova, size, write);
      e.Some? && HitIsSound(s, e.value, iova, size, write)
  }

  /** With no stale IOVA, a translation answers what a fresh walk answers exactly when a hit, if any, is sound. */
  lemma TranslateAgreesExactlyWhen(s: System, address: u64, size: u64, write: bool)
    requires Coherent(s) && s.stale == iset{}
    ensures Translate(s.context, s.memory, address, size, write).result ==
            FreshTranslate(s.context, s.memory, address, size, write) <==>
            SoundIfHit(s, address, size, write)
  {
    hide PermissionR, PermissionW, ReadWalk, Walk, Lookup, LeafDirty, Server, HitIsSound;
    if Hits(s.context, address, size, write) {
      HitAgreesExactlyWhen(s, Canonical(address, s.context.mode == Sv39x4).value, size, write);
    }
  }

  /** If the leaf reached for an IOVA is writable, it carries the D bit. */
  predicate WritableIsDirty(memory: Memory, config: Config, iova: nat)
    requires ValidConfig(config)
  {
    var leaf := FindLeaf(memory, config.x4, config.rootPpn * 0x1000, 0, iova);
    leaf.Ok? && W(leaf.value.pte) ==> D(leaf.value.pte)
  }

  lemma WritableMeansDirty(memory: Memory, config: Config, iova: nat)
    requires ValidConfig(config) && ReadWalk(memory, config, iova).Ok?
    requires PermissionW(ReadWalk(memory, config, iova).value.permissions)
    requires WritableIsDirty(memory, config, iova)
    ensures LeafDirty(memory, config, iova)
  {
    hide V, R, W, U, A, D, ReservedOrNapot, Permissions, PermissionR, PermissionW, Ppn, SetAd, FindLeaf;
    PermissionBits(FindLeaf(memory, config.x4, config.rootPpn * 0x1000, 0, iova).value.pte);
  }

  /** Every run that invalidates, right after each edit, a range holding every IOVA whose page changed. */
  ghost predicate EditsFlushed(s: System, ops: seq<Op>)
    requires Coherent(s)
    decreases |ops|
  {
    if ops == [] then true
    else if ops[0].OpEdit? then
      && |ops| >= 2 && ops[1].OpInvalidate?
      && Edited(s.memory, ops[0].memory, s.context) <= Covered(s.context, ops[1].address, ops[1].size)
      && (StepKeepsCoherent(s, ops[0]);
          StepKeepsCoherent(Step(s, ops[0]), ops[1]);
          EditsFlushed(Step(Step(s, ops[0]), ops[1]), ops[2..]))
    else
      (StepKeepsCoherent(s, ops[0]);
       EditsFlushed(Step(s, ops[0]), ops[1..]))
  }

  /** Such runs never leave a stale IOVA behind. */
  lemma {:induction false} FlushedRunsAreFresh(s: System, ops: seq<Op>)
    requires Coherent(s) && s.stale == iset{} && EditsFlushed(s, ops)
    ensures Run(s, ops).stale == iset{}
    decreases |ops|
  {
    hide ReadWalk, Edited, Covered;
    if ops != [] {
      StepKeepsCoherent(s, ops[0]);
      var s1 := Step(s, ops[0]);
      if ops[0].OpEdit? {
        StepKeepsCoherent(s1, ops[1]);
        assert ops[1..][0] == ops[1] && ops[1..][1..] == ops[2..];
        assert Step(s1, ops[1]).stale == iset{};
        FlushedRunsAreFresh(Step(s1, ops[1]), ops[2..]);
      } else {
        FlushedRunsAreFresh(s1, ops[1..]);
      }
    }
  }

  ghost function Initial(mode: Mode, memory: Memory): (s: System)
    ensures Coherent(s)
  {
    System(Context(mode, 0, false, false, EmptyCache()), memory, iset{})
  }

  /**
   From initialisation on, whatever the run, a context whose edits are flushed translates like the walk: for every
   access the cache does not answer, and for every access it does answer exactly when the hit is sound.
   */
  lemma FlushedRunTranslatesLikeWalk(mode: Mode, memory: Memory, ops: seq<Op>, address: u64, size: u64, write: bool)
    requires EditsFlushed(Initial(mode, memory), ops)
    ensures var s := Run(Initial(mode, memory), ops);
            Translate(s.context, s.memory, address, size, write).result ==
            FreshTranslate(s.context, s.memory, address, size, write) <==>
            SoundIfHit(s, address, size, write)
  {
    hide Translate, FreshTranslate, Canonical, EditsFlushed, SoundIfHit;
    FlushedRunsAreFresh(Initial(mode, memory), ops);
    TranslateAgreesExactlyWhen(Run(Initial(mode, memory), ops), address, size, write);
  }

  /**
   What the invalidations are for: after such a run every read is right unless it ends at 2^64, and so is every
   write if writable leaves carry D.
   */
  lemma FlushedRunIsRight(mode: Mode, memory: Memory, ops: seq<Op>, address: u64, size: u64, write: bool)
    requires EditsFlushed(Initial(mode, memory), ops)
    requires var s := Run(Initial(mode, memory), ops);
             var iova := Canonical(address, s.context.mode == Sv39x4);
             iova.Ok? ==> iova.value + size != U64 &&
                          (write ==> WritableIsDirty(s.memory, ConfigOf(s.context), iova.value))
    ensures var s := Run(Initial(mode, memory), ops);
            Translate(s.context, s.memory, address, size, write).result ==
            FreshTranslate(s.context, s.memory, address, size, write)
  {
    hide Translate, FreshTranslate, Canonical, EditsFlushed;
    FlushedRunsAreFresh(Initial(mode, memory), ops);
    TranslateAgrees(Run(Initial(mode, memory), ops), address, size, write);
  }
}
