/**
 Runs of the translation cache worked out: which invalidation is enough for an edit of the page tables, and accesses
 that the cache answers differently from a fresh walk.
 */
module CacheScenarios {
  import opened Base
  import opened PageWalk
  import opened TranslationCache

  // ----- Which words a walk depends on -----

  /** The addresses a descent reads. */
  function Visited(memory: Memory, x4: bool, table: u64, level: nat, iova: nat): (v: set<nat>)
    requires level < 3
    decreases 3 - level
  {
    var at := table + Index(x4, iova, level) * 8;
    {at} +
    if at < U64 && at in memory && V(memory[at]) && !ReservedOrNapot(memory[at]) && Permissions(memory[at]) == 0 && level < 2 &&
       Ppn(memory[at]) <= U64_MAX / 0x1000
    then Visited(memory, x4, Ppn(memory[at]) * 0x1000, level + 1, iova) else {}
  }

  /** The words at some addresses are the same. */
  ghost predicate SameWords(before: Memory, after: Memory, addresses: set<nat>) {
    forall a: u64 :: a in addresses ==> (a in before <==> a in after) && (a in before ==> before[a] == after[a])
  }

  lemma {:induction false} UnreadEdit(before: Memory, after: Memory, x4: bool, table: u64, level: nat, iova: nat)
    requires level < 3 && SameWords(before, after, Visited(before, x4, table, level, iova))
    ensures FindLeaf(after, x4, table, level, iova) == FindLeaf(before, x4, table, level, iova)
    decreases 3 - level
  {
    hide V, R, W, U, A, D, ReservedOrNapot, Permissions, Ppn, Index;
    var at := table + Index(x4, iova, level) * 8;
    if at < U64 && at in before {
      assert SameWords(before, after, {at}) && before[at] == after[at];
      if V(before[at]) && !ReservedOrNapot(before[at]) && Permissions(before[at]) == 0 && level < 2 {
        UnreadEdit(before, after, x4, Ppn(before[at]) * 0x1000, level + 1, iova);
      }
    }
  }

  lemma SameLeafSameRead(before: Memory, after: Memory, config: Config, x: nat)
    requires ValidConfig(config)
    requires FindLeaf(after, config.x4, config.rootPpn * 0x1000, 0, x) == FindLeaf(before, config.x4, config.rootPpn * 0x1000, 0, x)
    ensures ReadWalk(after, config, x) == ReadWalk(before, config, x)
  {
    hide V, R, W, U, A, D, ReservedOrNapot, Permissions, Ppn, FindLeaf, Place, SetAd, Denied, NeedsAd;
  }

  /** An edit is flushed by any invalidation that covers the IOVAs whose walks read an edited word. */
  lemma FlushedByRange(s: System, after: Memory, address: u64, size: u64, rest: seq<Op>)
    requires Coherent(s)
    requires forall x: nat :: x < IovaLimit(s.context.mode == Sv39x4) && !IsCovered(s.context, address, size, x) ==>
               SameWords(s.memory, after, Visited(s.memory, s.context.mode == Sv39x4, s.context.rootPpn * 0x1000, 0, x))
    requires var s1 := Step(s, OpEdit(after)); Coherent(s1) ==>
             var s2 := Step(s1, OpInvalidate(address, size)); Coherent(s2) ==> EditsFlushed(s2, rest)
    ensures EditsFlushed(s, [OpEdit(after), OpInvalidate(address, size)] + rest)
  {
    hide Visited, SameWords, FindLeaf, Step, IsCovered, ReadWalk;
    var ops := [OpEdit(after), OpInvalidate(address, size)] + rest;
    assert ops[2..] == rest;
    StepKeepsCoherent(s, ops[0]);
    StepKeepsCoherent(Step(s, ops[0]), ops[1]);
    var c := s.context;
    forall x | x in Edited(s.memory, after, c) ensures x in Covered(c, address, size) {
      if !IsCovered(c, address, size, x) {
        UnreadEdit(s.memory, after, c.mode == Sv39x4, c.rootPpn * 0x1000, 0, x);
        SameLeafSameRead(s.memory, after, ConfigOf(c), x);
      }
    }
  }

  /** The walk of an IOVA reads the word at an address. */
  ghost predicate ReadsWord(s: System, word: u64, x: nat)
    requires ValidContext(s.context)
  {
    word in Visited(s.memory, s.context.mode == Sv39x4, s.context.rootPpn * 0x1000, 0, x)
  }

  /**
   Changing one word, say a 4 KiB leaf, is flushed by invalidating the page it maps, when no walk outside that page
   reads the word.
   */
  lemma LeafEditFlushed(s: System, word: u64, pte: u64, address: u64, rest: seq<Op>)
    requires Coherent(s) && Translating(s.context.mode) && address % 0x1000 == 0
    requires Canonical(address, s.context.mode == Sv39x4).Ok?
    requires forall x: nat :: x < IovaLimit(s.context.mode == Sv39x4) && ReadsWord(s, word, x) ==>
               var page := Canonical(address, s.context.mode == Sv39x4).value; page <= x < page + 0x1000
    requires var s1 := Step(s, OpEdit(s.memory[word := pte])); Coherent(s1) ==>
             var s2 := Step(s1, OpInvalidate(address, 0x1000)); Coherent(s2) ==> EditsFlushed(s2, rest)
    ensures EditsFlushed(s, [OpEdit(s.memory[word := pte]), OpInvalidate(address, 0x1000)] + rest)
  {
    PageIsCovered(s.context, address);
    hide Visited, Step, Coherent, EditsFlushed, IsCovered, Canonical, Translating;
    forall x: nat | x < IovaLimit(s.context.mode == Sv39x4) && !IsCovered(s.context, address, 0x1000, x)
      ensures SameWords(s.memory, s.memory[word := pte],
                        Visited(s.memory, s.context.mode == Sv39x4, s.context.rootPpn * 0x1000, 0, x))
    {
      assert !ReadsWord(s, word, x);
    }
    FlushedByRange(s, s.memory[word := pte], address, 0x1000, rest);
  }

  /** An aligned canonical address names a whole page of the space. */
  lemma CanonicalPage(address: u64, x4: bool)
    requires address % 0x1000 == 0 && Canonical(address, x4).Ok?
    ensures Canonical(address, x4).value + 0x1000 <= IovaLimit(x4) && address + 0x1000 <= U64
  {
    var pages := address / 0x1000;
    if x4 {
      DivModUnique(address, 0x200_0000_0000, pages / 0x2000_0000, 0x1000 * (pages % 0x2000_0000));
    } else {
      DivModUnique(address, 0x80_0000_0000, pages / 0x800_0000, 0x1000 * (pages % 0x800_0000));
    }
  }

  lemma PageIsCovered(c: Context, address: u64)
    requires Translating(c.mode) && address % 0x1000 == 0 && Canonical(address, c.mode == Sv39x4).Ok?
    ensures var page := Canonical(address, c.mode == Sv39x4).value;
            forall x: nat :: page <= x < page + 0x1000 ==> IsCovered(c, address, 0x1000, x)
  {
    CanonicalPage(address, c.mode == Sv39x4);
    assert IovaLimit(c.mode == Sv39x4) > 0x1000;
    hide Canonical, IovaLimit, InvalidateRange;
  }

  // ----- One mapped page -----

  /** Tables at 0x1000, 0x2000 and 0x3000 that map one 4 KiB page, chosen by its slot in the last. */
  function OnePage(slot: nat, pte: u64): Memory
    requires slot < 512
  {
    map[0x1000 := 0x801, 0x2000 := 0xC01, 0x3000 + slot * 8 := pte]
  }

  const READABLE: nat := 0x53     // V, R, U, A
  const WRITABLE: nat := 0x57     // V, R, W, U, A; not D

  /** In the first 2 MiB only the last table matters. */
  lemma LastTable(slot: nat, pte: u64, x: nat)
    requires slot < 512 && x < 0x20_0000
    ensures var at := 0x3000 + x / 0x1000 * 8;
            && FindLeaf(OnePage(slot, pte), false, 0x1000, 0, x) == FindLeaf(OnePage(slot, pte), false, 0x3000, 2, x)
            && Index(false, x, 2) == x / 0x1000
            && Visited(OnePage(slot, pte), false, 0x1000, 0, x) == {0x1000, 0x2000, at}
  {
    var m := OnePage(slot, pte);
    assert Index(false, x, 0) == 0 && Index(false, x, 1) == 0;
    assert Index(false, x, 2) == x / 0x1000;
    assert V(0x801) && V(0xC01) && Permissions(0x801) == 0 && Permissions(0xC01) == 0;
    assert !ReservedOrNapot(0x801) && !ReservedOrNapot(0xC01) && Ppn(0x801) == 2 && Ppn(0xC01) == 3;
    hide V, ReservedOrNapot, Permissions, Ppn, Index;
    assert FindLeaf(m, false, 0x1000, 0, x) == FindLeaf(m, false, 0x2000, 1, x);
    assert FindLeaf(m, false, 0x2000, 1, x) == FindLeaf(m, false, 0x3000, 2, x);
    assert Visited(m, false, 0x3000, 2, x) == {0x3000 + x / 0x1000 * 8};
    assert Visited(m, false, 0x2000, 1, x) == {0x2000, 0x3000 + x / 0x1000 * 8};
  }

  /** The leaf of a page mapped to itself, for the first two pages. */
  function Identically(slot: nat, flags: nat): u64
    requires slot < 2 && flags in {READABLE, WRITABLE}
  {
    if slot == 0 then flags else if flags == READABLE then 0x453 else 0x457
  }

  function Rights(flags: nat): nat {
    if flags == READABLE then 2 else 6
  }

  ghost function Tables(slot: nat, flags: nat): Memory
    requires slot < 2 && flags in {READABLE, WRITABLE}
  {
    OnePage(slot, Identically(slot, flags))
  }

  /** A readable, accessed, clean user leaf of a page. */
  predicate HasFields(pte: u64, slot: nat, flags: nat) {
    && V(pte) && U(pte) && R(pte) && A(pte) && !D(pte) && (W(pte) <==> flags == WRITABLE) && !ReservedOrNapot(pte)
    && Ppn(pte) == slot && Permissions(pte) == Rights(flags)
  }

  lemma FieldsOfFirst()
    ensures HasFields(0x53, 0, READABLE) && HasFields(0x57, 0, WRITABLE)
  {
  }

  lemma FieldsOfSecond()
    ensures HasFields(0x453, 1, READABLE) && HasFields(0x457, 1, WRITABLE)
  {
  }

  lemma LeafFields(slot: nat, flags: nat)
    requires slot < 2 && flags in {READABLE, WRITABLE}
    ensures HasFields(Identically(slot, flags), slot, flags)
  {
    hide HasFields;
    FieldsOfFirst();
    FieldsOfSecond();
  }

  lemma LastLevel(slot: nat, pte: u64, page: nat, x: nat)
    requires slot < 2 && page < 512 && Index(false, x, 2) == page
    requires V(pte) && !ReservedOrNapot(pte) && Permissions(pte) != 0
    ensures FindLeaf(OnePage(slot, pte), false, 0x3000, 2, x) ==
            if page == slot then Ok(Leaf(0x3000 + slot * 8, pte, 2)) else Err(ENOENT)
  {
    hide V, R, W, U, A, D, ReservedOrNapot, Permissions, Ppn, Index;
  }

  /** The page has a leaf; the rest of the first 2 MiB has none. */
  lemma LeafOfPage(slot: nat, flags: nat, x: nat)
    requires slot < 2 && flags in {READABLE, WRITABLE} && x < 0x20_0000
    ensures FindLeaf(Tables(slot, flags), false, 0x1000, 0, x) ==
            if x / 0x1000 == slot then Ok(Leaf(0x3000 + slot * 8, Identically(slot, flags), 2)) else Err(ENOENT)
  {
    hide V, R, W, U, A, D, ReservedOrNapot, Permissions, Ppn, Identically, Index, Visited, FindLeaf, OnePage;
    var pte := Identically(slot, flags);
    LastTable(slot, pte, x);
    LeafFields(slot, flags);
    LastLevel(slot, pte, x / 0x1000, x);
  }

  /** The leaf is readable and marked accessed, but a write is denied or needs D. */
  lemma LeafRights(slot: nat, flags: nat)
    requires slot < 2 && flags in {READABLE, WRITABLE}
    ensures var pte := Identically(slot, flags);
            !Denied(pte, false) && !NeedsAd(pte, false) && NeedsAd(pte, true)
  {
    LeafFields(slot, flags);
    hide V, R, W, U, A, D, Permissions, Identically;
  }

  /** Placement on a 4 KiB leaf, with its constants worked out. */
  lemma SmallPage(leaf: Leaf, base: nat, offset: nat, size: u64)
    requires leaf.level == 2 && 0 < size && offset < 0x1000 && base % 0x1000 == 0
    ensures Place(leaf, base + offset, size) ==
            if Ppn(leaf.pte) > U64_MAX / 0x1000 then Err(EFAULT)
            else if offset > U64_MAX - (size - 1) || (offset + size) % U64 > 0x1000 then Err(ERANGE)
            else if Ppn(leaf.pte) * 0x1000 > U64_MAX - offset then Err(EFAULT)
            else Ok(Translation(base, Ppn(leaf.pte) * 0x1000, 0x1000, Permissions(leaf.pte)))
  {
    hide Ppn, Permissions;
    var ppn := Ppn(leaf.pte);
    assert ppn % 1 == 0;
    DivModUnique(base + offset, 0x1000, base / 0x1000, offset);
  }

  lemma LeafPlace(slot: nat, flags: nat, offset: nat, size: u64)
    requires slot < 2 && flags in {READABLE, WRITABLE} && offset < 0x1000 && 0 < size
    ensures var r := Place(Leaf(0x3000 + slot * 8, Identically(slot, flags), 2), slot * 0x1000 + offset, size);
            && (0x1000 < offset + size < U64 ==> r.Err?)
            && (size == 1 ==> r == Ok(Translation(slot * 0x1000, slot * 0x1000, 0x1000, Rights(flags))))
  {
    hide V, R, W, U, A, D, Permissions, Ppn, Identically, Place, ReservedOrNapot;
    LeafFields(slot, flags);
    SmallPage(Leaf(0x3000 + slot * 8, Identically(slot, flags), 2), slot * 0x1000, offset, size);
  }

  /** One byte of the page is readable, none is writable without D, and no access may leave the page. */
  lemma PageWalks(slot: nat, flags: nat, x: nat, size: u64, write: bool)
    requires slot < 2 && flags in {READABLE, WRITABLE} && x < 0x20_0000 && 0 < size
    ensures var walk := Walk(Tables(slot, flags), Config(1, false, false), x, size, write);
            && (x / 0x1000 != slot || write || 0x1000 < x % 0x1000 + size < U64 ==> walk.result.Err?)
            && (x / 0x1000 == slot && !write && size == 1 ==>
                  walk == WalkOutcome(Tables(slot, flags), Ok(Translation(slot * 0x1000, slot * 0x1000, 0x1000, Rights(flags)))))
  {
    hide Identically, FindLeaf, Tables, Denied, NeedsAd, Place, SetAd;
    LeafOfPage(slot, flags, x);
    LeafRights(slot, flags);
    if x / 0x1000 == slot {
      LeafPlace(slot, flags, x % 0x1000, size);
    }
  }

  /** The page is read once, so that its entry is cached. */
  ghost function Warm(slot: nat): seq<Op>
    requires slot < 2
  {
    [OpSetRoot(1, false, false), OpTranslate(slot * 0x1000, 1, false)]
  }

  ghost function Warmed(slot: nat, flags: nat): System
    requires slot < 2 && flags in {READABLE, WRITABLE}
  {
    var e := Entry(slot * 0x1000, slot * 0x1000, 0x1000, Rights(flags), true);
    System(Context(Sv39, 1, true, false, Cache([e], 0)), Tables(slot, flags), iset{})
  }

  lemma TwoSteps(s: System, a: Op, b: Op, rest: seq<Op>)
    requires Coherent(s) && !a.OpEdit? && !b.OpEdit?
    requires Coherent(Step(s, a)) ==> Coherent(Step(Step(s, a), b)) ==> EditsFlushed(Step(Step(s, a), b), rest)
    ensures Coherent(Step(s, a)) && Coherent(Step(Step(s, a), b))
    ensures EditsFlushed(s, [a, b] + rest) && Run(s, [a, b] + rest) == Run(Step(Step(s, a), b), rest)
  {
    hide Step, EntryCoherent;
    StepKeepsCoherent(s, a);
    StepKeepsCoherent(Step(s, a), b);
    assert ([a, b] + rest)[1..] == [b] + rest && ([b] + rest)[1..] == rest;
    assert EditsFlushed(Step(s, a), [b] + rest) && Run(Step(s, a), [b] + rest) == Run(Step(Step(s, a), b), rest);
  }

  lemma WarmedIsReached(slot: nat, flags: nat, rest: seq<Op>)
    requires slot < 2 && flags in {READABLE, WRITABLE}
    requires Coherent(Warmed(slot, flags)) ==> EditsFlushed(Warmed(slot, flags), rest)
    ensures Coherent(Warmed(slot, flags)) && EditsFlushed(Initial(Fault, Tables(slot, flags)), Warm(slot) + rest)
    ensures Run(Initial(Fault, Tables(slot, flags)), Warm(slot) + rest) == Run(Warmed(slot, flags), rest)
  {
    hide Walk, Tables, EntryCoherent, EditsFlushed, Run;
    PageWalks(slot, flags, slot * 0x1000, 1, false);
    var s0, ops := Initial(Fault, Tables(slot, flags)), Warm(slot);
    var c := Context(Sv39, 1, true, false, EmptyCache());
    assert Step(s0, ops[0]) == System(c, s0.memory, iset{});
    assert Canonical(slot * 0x1000, false) == Ok(slot * 0x1000);
    assert Translate(c, s0.memory, slot * 0x1000, 1, false) ==
           Outcome(Warmed(slot, flags).context, s0.memory, Ok(slot * 0x1000));
    TwoSteps(s0, ops[0], ops[1], rest);
  }

  // ----- Hits that a fresh walk does not confirm -----

  /** A run of the system, after which the cache answers an access that a fresh walk refuses. */
  ghost predicate Disagrees(slot: nat, flags: nat, address: u64, size: u64, write: bool)
    requires slot < 2 && flags in {READABLE, WRITABLE}
  {
    var start := Initial(Fault, Tables(slot, flags));
    && EditsFlushed(start, Warm(slot))
    && var s := Run(start, Warm(slot));
    && Translate(s.context, s.memory, address, size, write).result.Ok?
    && FreshTranslate(s.context, s.memory, address, size, write).Err?
  }

  lemma HitAndMiss(slot: nat, flags: nat, address: u64, size: u64, write: bool)
    requires slot < 2 && flags in {READABLE, WRITABLE} && address < 0x20_0000 && 0 < size
    requires Lookup(Warmed(slot, flags).context.cache.entries, address, size, write).Some?
    requires address / 0x1000 != slot || write || 0x1000 < address % 0x1000 + size < U64
    ensures Disagrees(slot, flags, address, size, write)
  {
    hide Walk, Tables, Lookup, EntryCoherent;
    WarmedIsReached(slot, flags, []);
    hide EditsFlushed, Run;
    assert Warm(slot) + [] == Warm(slot);
    assert Run(Warmed(slot, flags), []) == Warmed(slot, flags) by { NothingRun(Warmed(slot, flags)); }
    PageWalks(slot, flags, address, size, write);
    assert Canonical(address, false) == Ok(address);
  }

  lemma NothingRun(s: System)
    requires Coherent(s)
    ensures EditsFlushed(s, []) && Run(s, []) == s
  {
  }

  /** An IOVA that is not mapped at all is served by the entry of an earlier page. */
  lemma ServedByOtherPage()
    ensures Disagrees(0, READABLE, 0x5000, U64 - 0x5000, false)
  {
    assert PermissionR(2);
    HitAndMiss(0, READABLE, 0x5000, U64 - 0x5000, false);
  }

  /** On the entry's own page, the hit's bound test wraps where the walk's does not. */
  lemma WrapOnOwnPage()
    ensures Disagrees(1, READABLE, 0x1800, U64 - 0x1800, false)
  {
    assert PermissionR(2);
    HitAndMiss(1, READABLE, 0x1800, U64 - 0x1800, false);
  }

  /** A write is served through a writable leaf without D, which a fresh walk refuses. */
  lemma WriteWithoutDirty()
    ensures Disagrees(0, WRITABLE, 0, 1, true)
  {
    assert PermissionR(6) && PermissionW(6);
    HitAndMiss(0, WRITABLE, 0, 1, true);
  }

  // ----- A revoked page -----

  /** Only walks of the first page read the first word of the last table. */
  lemma OnlyFirstPage(pte: u64, x: nat)
    requires x < IovaLimit(false) && 0x3000 in Visited(OnePage(0, pte), false, 0x1000, 0, x)
    ensures x < 0x1000
  {
    if x >= 0x20_0000 {
      UpperPages(pte, x);
    } else {
      LastTable(0, pte, x);
    }
  }

  lemma UpperPages(pte: u64, x: nat)
    requires 0x20_0000 <= x < IovaLimit(false)
    ensures 0x3000 !in Visited(OnePage(0, pte), false, 0x1000, 0, x)
  {
    UpperIndices(x);
    assert V(0x801) && Permissions(0x801) == 0 && !ReservedOrNapot(0x801) && Ppn(0x801) == 2;
    hide V, ReservedOrNapot, Permissions, Ppn, Index;
    var m, i, j := OnePage(0, pte), Index(false, x, 0), Index(false, x, 1);
    if i == 0 {
      assert Visited(m, false, 0x2000, 1, x) == {0x2000 + j * 8};
    }
  }

  lemma UpperIndices(x: nat)
    requires 0x20_0000 <= x < IovaLimit(false)
    ensures Index(false, x, 0) < 512 && Index(false, x, 1) < 512 && (Index(false, x, 0) == 0 ==> 0 < Index(false, x, 1))
  {
    assert Index(false, x, 0) == x / 0x4000_0000;
    if x < 0x4000_0000 {
      assert Index(false, x, 1) == x / 0x20_0000;
    }
  }

  lemma RevokedIsFlushed()
    ensures var s := Warmed(0, WRITABLE);
            Coherent(s) && EditsFlushed(s, [OpEdit(Tables(0, READABLE)), OpInvalidate(0, 0x1000)])
  {
    var s, edit, flush := Warmed(0, WRITABLE), OpEdit(Tables(0, READABLE)), OpInvalidate(0, 0x1000);
    assert Coherent(s) by { WarmedIsReached(0, WRITABLE, []); }
    assert Tables(0, READABLE) == s.memory[0x3000 := 0x53];
    assert Canonical(0, false) == Ok(0);
    hide Coherent, EditsFlushed, Visited, Canonical, Step;
    forall x: nat | x < IovaLimit(false) && ReadsWord(s, 0x3000, x) ensures 0 <= x < 0 + 0x1000 {
      OnlyFirstPage(Identically(0, WRITABLE), x);
    }
    StepKeepsCoherent(s, edit);
    StepKeepsCoherent(Step(s, edit), flush);
    NothingRun(Step(Step(s, edit), flush));
    LeafEditFlushed(s, 0x3000, 0x53, 0, []);
    assert [edit, flush] + [] == [edit, flush];
  }

  lemma RevokedIsEdited()
    ensures 0 in Edited(Tables(0, WRITABLE), Tables(0, READABLE), Warmed(0, WRITABLE).context)
  {
    hide Walk, Tables;
    PageWalks(0, WRITABLE, 0, 1, false);
    PageWalks(0, READABLE, 0, 1, false);
  }

  lemma RevokedIsDropped()
    ensures var s := Warmed(0, WRITABLE);
            Invalidate(s.context, 0, 0x1000).0.cache.entries == []
  {
    assert Canonical(0, false) == Ok(0);
  }

  /**
   The write permission of a cached page is taken away and exactly that page is invalidated: a run whose edit changes
   a translation, is flushed by a range of one page, and leaves the next write to a fresh walk.
   */
  lemma RevokedPage()
    ensures var start := Initial(Fault, Tables(0, WRITABLE));
            var ops := Warm(0) + [OpEdit(Tables(0, READABLE)), OpInvalidate(0, 0x1000)];
            && EditsFlushed(start, ops)
            && 0 in Edited(Tables(0, WRITABLE), Tables(0, READABLE), Warmed(0, WRITABLE).context)
            && Run(start, ops).context.cache.entries == []
  {
    hide Tables, Coherent, EditsFlushed, Run, Edited, Covered, Invalidate;
    var s, edit, flush := Warmed(0, WRITABLE), OpEdit(Tables(0, READABLE)), OpInvalidate(0, 0x1000);
    RevokedIsFlushed();
    RevokedIsEdited();
    RevokedIsDropped();
    WarmedIsReached(0, WRITABLE, [edit, flush]);
    RunTwo(s, edit, flush);
  }

  lemma RunTwo(s: System, a: Op, b: Op)
    requires Coherent(s)
    ensures Coherent(Step(s, a)) && Coherent(Step(Step(s, a), b)) && Run(s, [a, b]) == Step(Step(s, a), b)
  {
    hide Step, EntryCoherent;
    StepKeepsCoherent(s, a);
    StepKeepsCoherent(Step(s, a), b);
    assert [a, b][1..] == [b] && [b][1..] == [];
    assert Run(Step(s, a), [b]) == Step(Step(s, a), b);
  }
}
