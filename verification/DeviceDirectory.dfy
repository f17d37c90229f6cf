/**
 The device directory of the RISC-V IOMMU Architecture Specification: from a requester ID through up to
 three directory levels to a device context, and from there to a translation mode.
 */
module DeviceDirectory {
  import opened Base
  import opened PageWalk
  import opened TranslationCache
  import Device = IommuContext

  const DDTP_MODES: nat := 16
  const PAGE: nat := 0x1000

  // ----- Fields -----

  /** Bits 10 to 49 of a directory pointer or entry, as a page address. */
  function PageOf(entry: u64): nat {
    entry / 1024 % 0x100_0000_0000 * PAGE
  }

  /** A valid entry has bit 0 and nothing but the page number besides. */
  predicate ValidEntry(entry: u64) {
    entry % 1024 == 1 && entry < 0x4_0000_0000_0000
  }

  function ContextSize(baseFormat: bool): nat {
    if baseFormat then 32 else 64
  }

  /** Two to the number of low requester-ID bits below a directory level. */
  function Split(baseFormat: bool, depth: nat): nat
    requires 1 <= depth <= 2
  {
    if baseFormat then if depth == 1 then 0x80 else 0x1_0000
    else if depth == 1 then 0x40 else 0x8000
  }

  predicate IdFits(baseFormat: bool, mode: nat, rid: u16) {
    && (mode == 2 ==> rid < if baseFormat then 0x80 else 0x40)
    && (mode == 3 && !baseFormat ==> rid < 0x8000)
  }

  // ----- The walk -----

  predicate IsPage(base: nat) {
    base <= 0xf_ffff_ffff_f000 && base % PAGE == 0
  }

  lemma PageOfIsPage(entry: u64)
    ensures IsPage(PageOf(entry))
  {
  }

  /** The offset of a requester's entry in a directory page. */
  function EntryOffset(baseFormat: bool, depth: nat, rid: u16): nat
    requires 1 <= depth <= 2
  {
    rid / Split(baseFormat, depth) * 8
  }

  /** The page the entry for a requester points to, in a directory page `depth` levels up. */
  function NextPage(memory: Memory, baseFormat: bool, base: nat, rid: u16, depth: nat): (r: Option<nat>)
    requires 1 <= depth <= 2 && IsPage(base)
    ensures r.Some? ==> IsPage(r.value)
  {
    var index := EntryOffset(baseFormat, depth, rid);
    if index > U64_MAX - base || index > 0xff8 then None
    else if base + index !in memory || !ValidEntry(memory[base + index]) then None
    else
      PageOfIsPage(memory[base + index]);
      Some(PageOf(memory[base + index]))
  }

  /** From a directory page down `depth` levels; the page of the device contexts. */
  function WalkDirectory(memory: Memory, baseFormat: bool, base: nat, rid: u16, depth: nat): (r: Option<nat>)
    requires depth <= 2 && IsPage(base)
    ensures r.Some? ==> IsPage(r.value)
    decreases depth
  {
    hide IsPage, NextPage;
    if depth == 0 then Some(base)
    else
      match NextPage(memory, baseFormat, base, rid, depth)
      case None => None
      case Some(page) => WalkDirectory(memory, baseFormat, page, rid, depth - 1)
  }

  /** The device context of a requester in its page. */
  function InPage(baseFormat: bool, base: nat, rid: u16): Option<nat>
    requires IsPage(base)
  {
    if rid > (U64_MAX - base) / ContextSize(baseFormat) then None
    else Some(base + rid * ContextSize(baseFormat) % PAGE)
  }

  function ContextFrom(memory: Memory, baseFormat: bool, base: nat, rid: u16, depth: nat): Option<nat>
    requires depth <= 2 && IsPage(base)
  {
    match WalkDirectory(memory, baseFormat, base, rid, depth)
    case None => None
    case Some(page) => InPage(baseFormat, page, rid)
  }

  /** The address of the device context of a requester. */
  function ContextAddress(memory: Memory, baseFormat: bool, ddtp: u64, rid: u16): Option<nat>
    requires 2 <= ddtp % DDTP_MODES <= 4
  {
    PageOfIsPage(ddtp);
    if !IdFits(baseFormat, ddtp % DDTP_MODES, rid) then None
    else ContextFrom(memory, baseFormat, PageOf(ddtp), rid, ddtp % DDTP_MODES - 2)
  }

  datatype Binding = Deny | Pass | First(rootPpn: nat)

  /** What a device context says; anything missing or malformed denies. */
  function ReadContext(memory: Memory, dc: nat): Binding {
    if dc + 24 >= U64 || dc !in memory || memory[dc] % 2 == 0 || dc + 24 !in memory then Deny
    else
      var fsc := memory[dc + 24];
      if fsc / 0x1000_0000_0000_0000 == 0 then Pass
      else if fsc / 0x1000_0000_0000_0000 == 8 then First(fsc % 0x1000_0000_0000)
      else Deny
  }

  function Resolve(memory: Memory, baseFormat: bool, ddtp: u64, rid: u16): Binding
    requires 2 <= ddtp % DDTP_MODES <= 4
  {
    match ContextAddress(memory, baseFormat, ddtp, rid)
    case None => Deny
    case Some(dc) => ReadContext(memory, dc)
  }

  /** Loads the context of one requester. */
  function Bind(c: Context, memory: Memory, baseFormat: bool, ddtp: u64, rid: u16): (Context, Result<()>) {
    var mode := ddtp % DDTP_MODES;
    if mode == 0 then (SetMode(c, Fault).0, Ok(()))
    else if mode == 1 then SetMode(c, Identity)
    else if mode > 4 then (SetMode(c, Fault).0, Err(EINVAL))
    else
      match Resolve(memory, baseFormat, ddtp, rid)
      case Deny => (SetMode(c, Fault).0, Err(EINVAL))
      case Pass => SetMode(c, Identity)
      case First(rootPpn) => SetRoot(c, rootPpn, false, false)
  }

  // ----- The loop -----

  /** The binding of one requester as the program computes it, on a live context. */
  method ApplyBinding(context: Device.IommuContext, memory: Memory, baseFormat: bool, ddtp: u64, rid: u16)
    returns (r: Result<()>)
    requires context.Valid()
    modifies context, context.slots
    ensures context.Valid() && (context.View(), r) == Bind(old(context.View()), memory, baseFormat, ddtp, rid)
  {
    hide Resolve;
    var mode := ddtp % DDTP_MODES;
    if mode == 0 {
      var _ := context.ChangeMode(Fault);
      return Ok(());
    }
    if mode == 1 {
      r := context.ChangeMode(Identity);
      return;
    }
    if mode > 4 {
      var _ := context.ChangeMode(Fault);
      return Err(EINVAL);
    }
    var binding := ResolveLoop(memory, baseFormat, ddtp, rid);
    match binding
    case Deny =>
      var _ := context.ChangeMode(Fault);
      r := Err(EINVAL);
    case Pass =>
      r := context.ChangeMode(Identity);
    case First(rootPpn) =>
      r := context.ChangeRoot(rootPpn, false, false);
  }

  /** The contexts are different objects and share no cache. */
  ghost predicate Separate(contexts: seq<Device.IommuContext>) {
    forall i, j :: 0 <= i < j < |contexts| ==> contexts[i] != contexts[j] && contexts[i].slots != contexts[j].slots
  }

  /** Binds all requesters in turn. Every context is bound, also after one that fails; the first error is reported. */
  method ApplyAll(contexts: seq<Device.IommuContext>, rids: seq<u16>, memory: Memory, baseFormat: bool, ddtp: u64)
    returns (r: Result<()>)
    requires |rids| == |contexts| && Separate(contexts) && forall c :: c in contexts ==> c.Valid()
    modifies contexts, set c | c in contexts :: c.slots
    ensures forall i :: 0 <= i < |contexts| ==>
              contexts[i].Valid() && contexts[i].View() == Bind(old(contexts[i].View()), memory, baseFormat, ddtp, rids[i]).0
    ensures r.Ok? <==> forall i :: 0 <= i < |contexts| ==> Binds(memory, baseFormat, ddtp, rids[i])
    ensures r.Err? ==> r == Err(EINVAL)
  {
    hide Bind, Binds, Device.IommuContext.Valid, Device.IommuContext.View;
    r := Ok(());
    var i := 0;
    while i < |contexts|
      invariant i <= |contexts|
      invariant forall j :: 0 <= j < |contexts| ==> contexts[j].Valid()
      invariant forall j :: 0 <= j < i ==>
                  contexts[j].View() == Bind(old(contexts[j].View()), memory, baseFormat, ddtp, rids[j]).0
      invariant forall j :: i <= j < |contexts| ==> contexts[j].View() == old(contexts[j].View())
      invariant r == Ok(()) || r == Err(EINVAL)
      invariant r.Ok? <==> forall j :: 0 <= j < i ==> Binds(memory, baseFormat, ddtp, rids[j])
    {
      BindsOrNot(contexts[i].View(), memory, baseFormat, ddtp, rids[i]);
      var current := ApplyBinding(contexts[i], memory, baseFormat, ddtp, rids[i]);
      if current.Err? && r.Ok? {
        r := current;
      }
      i := i + 1;
    }
  }

  /** Whether a requester's binding is without error; this does not depend on its context. */
  ghost predicate Binds(memory: Memory, baseFormat: bool, ddtp: u64, rid: u16) {
    var mode := ddtp % DDTP_MODES;
    mode <= 1 || (mode <= 4 && Resolve(memory, baseFormat, ddtp, rid) != Deny)
  }

  lemma BindsOrNot(c: Context, memory: Memory, baseFormat: bool, ddtp: u64, rid: u16)
    ensures Bind(c, memory, baseFormat, ddtp, rid).1 ==
            if Binds(memory, baseFormat, ddtp, rid) then Ok(()) else Err(EINVAL)
  {
    hide ContextAddress;
  }

  method ResolveLoop(memory: Memory, baseFormat: bool, ddtp: u64, rid: u16) returns (binding: Binding)
    requires 2 <= ddtp % DDTP_MODES <= 4
    ensures binding == Resolve(memory, baseFormat, ddtp, rid)
  {
    hide PageOf, IdFits, IsPage, NextPage, InPage, ReadContext;
    var depth: nat, base: nat := ddtp % DDTP_MODES - 2, PageOf(ddtp);
    PageOfIsPage(ddtp);
    if !IdFits(baseFormat, ddtp % DDTP_MODES, rid) {
      return Deny;
    }
    ghost var levels := depth;
    while depth > 0
      invariant depth <= 2 && IsPage(base)
      invariant WalkDirectory(memory, baseFormat, PageOf(ddtp), rid, levels) == WalkDirectory(memory, baseFormat, base, rid, depth)
    {
      var page := NextPage(memory, baseFormat, base, rid, depth);
      if page.None? {
        return Deny;
      }
      base, depth := page.value, depth - 1;
    }
    var dc := InPage(baseFormat, base, rid);
    if dc.None? {
      return Deny;
    }
    return ReadContext(memory, dc.value);
  }

  // ----- The walk follows the fields of the requester ID -----

  /** The index field of a level, 0 being the last. */
  function Field(baseFormat: bool, level: nat, rid: u16): nat
    requires level <= 2
  {
    if baseFormat then if level == 0 then rid % 0x80 else if level == 1 then rid / 0x80 % 0x200 else rid / 0x1_0000
    else if level == 0 then rid % 0x40 else if level == 1 then rid / 0x40 % 0x200 else rid / 0x8000
  }

  /** The device-directory index fields, topmost level first. */
  function Fields(baseFormat: bool, mode: nat, rid: u16): seq<nat>
    requires 2 <= mode <= 4
  {
    [Field(baseFormat, 2, rid), Field(baseFormat, 1, rid), Field(baseFormat, 0, rid)][4 - mode..]
  }

  /** One entry a level, the last field selecting the context. */
  function SlotByFields(memory: Memory, size: nat, base: nat, fields: seq<nat>): Option<nat>
    requires fields != []
    decreases |fields|
  {
    if |fields| == 1 then Some(base + fields[0] * size)
    else
      var at := base + fields[0] * 8;
      if at >= U64 || at !in memory || memory[at] % 0x400 != 1 || memory[at] / 0x400 >= 0x100_0000_0000 then None
      else SlotByFields(memory, size, memory[at] / 0x400 * 0x1000, fields[1..])
  }

  /** The requester IDs a directory of this depth can describe here. */
  predicate Reachable(baseFormat: bool, mode: nat, rid: u16) {
    if baseFormat then mode == 2 ==> rid < 0x80
    else if mode == 2 then rid < 0x40 else rid < 0x8000
  }

  /**
   The walk uses exactly the fields of the requester ID. Every ID beyond the directory is refused; in the extended
   format, which the device never announces, this includes for three levels the upper half of the IDs, whose middle
   index is not cut to its field.
   */
  lemma WalkFollowsFields(memory: Memory, baseFormat: bool, ddtp: u64, rid: u16)
    requires 2 <= ddtp % DDTP_MODES <= 4
    ensures var mode := ddtp % DDTP_MODES;
            ContextAddress(memory, baseFormat, ddtp, rid) ==
            if Reachable(baseFormat, mode, rid)
            then SlotByFields(memory, ContextSize(baseFormat), PageOf(ddtp), Fields(baseFormat, mode, rid))
            else None
  {
    hide PageOf, ContextFrom, SlotByFields, Fields, IsPage;
    var mode := ddtp % DDTP_MODES;
    PageOfIsPage(ddtp);
    if mode == 2 {
      LastLevel(memory, baseFormat, PageOf(ddtp), rid);
    } else if mode == 3 {
      MiddleLevel(memory, baseFormat, PageOf(ddtp), rid);
    } else {
      TopLevel(memory, baseFormat, PageOf(ddtp), rid);
    }
  }

  lemma LowField(baseFormat: bool, rid: u16)
    ensures rid * ContextSize(baseFormat) % PAGE == Field(baseFormat, 0, rid) * ContextSize(baseFormat)
  {
    if baseFormat {
      DivModUnique(rid * 32, PAGE, rid / 0x80, rid % 0x80 * 32);
    } else {
      DivModUnique(rid * 64, PAGE, rid / 0x40, rid % 0x40 * 64);
    }
  }

  lemma LastLevel(memory: Memory, baseFormat: bool, base: nat, rid: u16)
    requires IsPage(base)
    ensures ContextFrom(memory, baseFormat, base, rid, 0) ==
            SlotByFields(memory, ContextSize(baseFormat), base, Fields(baseFormat, 2, rid))
  {
    LowField(baseFormat, rid);
    hide Field;
    assert Fields(baseFormat, 2, rid) == [Field(baseFormat, 0, rid)];
  }

  lemma FieldIsIndex(baseFormat: bool, depth: nat, rid: u16)
    requires 1 <= depth <= 2
    ensures Field(baseFormat, depth, rid) < 0x200
    ensures !(depth == 1 && !baseFormat && rid >= 0x8000) ==> EntryOffset(baseFormat, depth, rid) == Field(baseFormat, depth, rid) * 8
    ensures depth == 1 && !baseFormat && rid >= 0x8000 ==> EntryOffset(baseFormat, depth, rid) > 0xff8
  {
    if depth == 1 && baseFormat {
      assert rid / 0x80 < 0x200;
    } else if depth == 1 && rid < 0x8000 {
      assert rid / 0x40 < 0x200;
    }
  }

  /** Above the last level, the entry read is the one the field names, unless the index leaves the page. */
  lemma LevelFollowsField(memory: Memory, baseFormat: bool, base: nat, rid: u16, depth: nat)
    requires IsPage(base) && 1 <= depth <= 2
    ensures var fields := Fields(baseFormat, depth + 2, rid);
            var at := base + fields[0] * 8;
            && at < U64
            && (!(depth == 1 && !baseFormat && rid >= 0x8000) ==>
                  NextPage(memory, baseFormat, base, rid, depth) ==
                  if at !in memory || !ValidEntry(memory[at]) then None else Some(PageOf(memory[at])))
            && (depth == 1 && !baseFormat && rid >= 0x8000 ==> NextPage(memory, baseFormat, base, rid, depth).None?)
  {
    hide PageOf, ValidEntry, EntryOffset, Field, Fields, IsPage;
    FieldIsIndex(baseFormat, depth, rid);
    FirstField(baseFormat, depth, rid);
    RoomInPage(base);
  }

  lemma FirstField(baseFormat: bool, depth: nat, rid: u16)
    requires 1 <= depth <= 2
    ensures |Fields(baseFormat, depth + 2, rid)| == depth + 1
    ensures Fields(baseFormat, depth + 2, rid)[0] == Field(baseFormat, depth, rid)
  {
  }

  lemma RoomInPage(base: nat)
    requires IsPage(base)
    ensures base + 0xff8 < U64
  {
  }

  lemma FieldsOneLevelDown(baseFormat: bool, mode: nat, rid: u16)
    requires 3 <= mode <= 4
    ensures Fields(baseFormat, mode, rid)[1..] == Fields(baseFormat, mode - 1, rid)
  {
  }

  lemma SlotStep(memory: Memory, size: nat, base: nat, fields: seq<nat>)
    requires |fields| > 1
    ensures var at := base + fields[0] * 8;
            SlotByFields(memory, size, base, fields) ==
            if at >= U64 || at !in memory || !ValidEntry(memory[at]) then None
            else SlotByFields(memory, size, PageOf(memory[at]), fields[1..])
  {
    var at := base + fields[0] * 8;
    if at < U64 && at in memory && memory[at] / 0x400 < 0x100_0000_0000 {
      EntryParts(memory[at]);
    }
  }

  lemma EntryParts(entry: u64)
    requires entry / 0x400 < 0x100_0000_0000
    ensures PageOf(entry) == entry / 0x400 * 0x1000 && (ValidEntry(entry) <==> entry % 0x400 == 1)
  {
  }

  lemma MiddleLevel(memory: Memory, baseFormat: bool, base: nat, rid: u16)
    requires IsPage(base)
    ensures ContextFrom(memory, baseFormat, base, rid, 1) ==
            if baseFormat || rid < 0x8000
            then SlotByFields(memory, ContextSize(baseFormat), base, Fields(baseFormat, 3, rid)) else None
  {
    LevelFollowsField(memory, baseFormat, base, rid, 1);
    FieldsOneLevelDown(baseFormat, 3, rid);
    assert |Fields(baseFormat, 3, rid)| == 2;
    SlotStep(memory, ContextSize(baseFormat), base, Fields(baseFormat, 3, rid));
    hide PageOf, ValidEntry, NextPage, IsPage, InPage, Fields, SlotByFields, ContextSize;
    var page := NextPage(memory, baseFormat, base, rid, 1);
    if page.Some? {
      LastLevel(memory, baseFormat, page.value, rid);
    }
  }

  lemma TopLevel(memory: Memory, baseFormat: bool, base: nat, rid: u16)
    requires IsPage(base)
    ensures ContextFrom(memory, baseFormat, base, rid, 2) ==
            if baseFormat || rid < 0x8000
            then SlotByFields(memory, ContextSize(baseFormat), base, Fields(baseFormat, 4, rid)) else None
  {
    LevelFollowsField(memory, baseFormat, base, rid, 2);
    FieldsOneLevelDown(baseFormat, 4, rid);
    assert |Fields(baseFormat, 4, rid)| == 3;
    SlotStep(memory, ContextSize(baseFormat), base, Fields(baseFormat, 4, rid));
    hide PageOf, ValidEntry, NextPage, IsPage, InPage, Fields, SlotByFields, ContextSize;
    var page := NextPage(memory, baseFormat, base, rid, 2);
    if page.Some? {
      MiddleLevel(memory, baseFormat, page.value, rid);
    }
  }

  // ----- Distinct requesters -----

  function LeafPage(memory: Memory, baseFormat: bool, ddtp: u64, rid: u16): Option<nat>
    requires 2 <= ddtp % DDTP_MODES <= 4
  {
    PageOfIsPage(ddtp);
    WalkDirectory(memory, baseFormat, PageOf(ddtp), rid, ddtp % DDTP_MODES - 2)
  }

  /**
   Two requesters have device contexts that do not overlap, provided no page of contexts is shared by
   requesters with different upper fields.
   */
  lemma ContextsApart(memory: Memory, baseFormat: bool, ddtp: u64, p: u16, q: u16)
    requires 2 <= ddtp % DDTP_MODES <= 4 && p != q
    requires ContextAddress(memory, baseFormat, ddtp, p).Some? && ContextAddress(memory, baseFormat, ddtp, q).Some?
    requires LeafPage(memory, baseFormat, ddtp, p) == LeafPage(memory, baseFormat, ddtp, q) ==>
               p / Split(baseFormat, 1) == q / Split(baseFormat, 1)
    ensures var a, b := ContextAddress(memory, baseFormat, ddtp, p).value, ContextAddress(memory, baseFormat, ddtp, q).value;
            a + ContextSize(baseFormat) <= b || b + ContextSize(baseFormat) <= a
  {
    hide WalkDirectory, IsPage, PageOf, IdFits;
    PageOfIsPage(ddtp);
    var pageP, pageQ := LeafPage(memory, baseFormat, ddtp, p).value, LeafPage(memory, baseFormat, ddtp, q).value;
    LowField(baseFormat, p);
    LowField(baseFormat, q);
    hide LeafPage, ContextAddress;
    if pageP == pageQ {
      SameUpper(baseFormat, p, q);
      OffsetsApart(ContextSize(baseFormat), Field(baseFormat, 0, p), Field(baseFormat, 0, q));
    } else {
      PagesApart(pageP, pageQ);
    }
  }

  lemma SameUpper(baseFormat: bool, p: u16, q: u16)
    requires p != q && p / Split(baseFormat, 1) == q / Split(baseFormat, 1)
    ensures Field(baseFormat, 0, p) != Field(baseFormat, 0, q)
  {
  }

  lemma OffsetsApart(size: nat, i: nat, j: nat)
    requires i != j
    ensures i * size + size <= j * size || j * size + size <= i * size
  {
    if i < j {
      MulMonotone(size, i + 1, j);
    } else {
      MulMonotone(size, j + 1, i);
    }
  }

  lemma PagesApart(p: nat, q: nat)
    requires IsPage(p) && IsPage(q) && p != q
    ensures p + PAGE <= q || q + PAGE <= p
  {
  }

  // ----- What a binding leaves behind -----

  predicate ContextSays(memory: Memory, dc: nat, mode: nat) {
    && dc + 24 < U64 && dc in memory && memory[dc] % 2 == 1 && dc + 24 in memory
    && memory[dc + 24] / 0x1000_0000_0000_0000 == mode
  }

  /**
   The context translates exactly when the fields of the requester ID lead to a valid first-stage context and
   passes accesses through exactly when they lead to a bare one. Otherwise it faults. The cache is always empty.
   */
  lemma BindExactly(c: Context, memory: Memory, baseFormat: bool, ddtp: u64, rid: u16)
    requires 2 <= ddtp % DDTP_MODES <= 4
    ensures var (c', r) := Bind(c, memory, baseFormat, ddtp, rid);
            var mode := ddtp % DDTP_MODES;
            var slot := if Reachable(baseFormat, mode, rid)
                        then SlotByFields(memory, if baseFormat then 32 else 64, ddtp / 0x400 % 0x100_0000_0000 * 0x1000,
                                          Fields(baseFormat, mode, rid))
                        else None;
            && c'.cache == EmptyCache()
            && (slot.Some? && ContextSays(memory, slot.value, 8) ==>
                  r.Ok? && c' == Context(Sv39, memory[slot.value + 24] % 0x1000_0000_0000, true, false, EmptyCache()))
            && (slot.Some? && ContextSays(memory, slot.value, 0) ==> r.Ok? && c' == c.(mode := Identity, cache := EmptyCache()))
            && (slot.None? || !(ContextSays(memory, slot.value, 8) || ContextSays(memory, slot.value, 0)) ==>
                  r == Err(EINVAL) && c' == c.(mode := Fault, cache := EmptyCache()))
  {
    hide ContextAddress, SlotByFields, Fields, Reachable;
    WalkFollowsFields(memory, baseFormat, ddtp, rid);
  }

  /**
   The modes without a directory: off makes the context fault, bare makes it pass accesses through, and a reserved
   mode makes it fault and is an error. From then on every access is answered so, whatever the memory holds.
   */
  lemma BindWithoutDirectory(c: Context, memory: Memory, baseFormat: bool, ddtp: u64, rid: u16)
    requires !(2 <= ddtp % 16 <= 4)
    ensures var (c', r) := Bind(c, memory, baseFormat, ddtp, rid);
            && c' == c.(mode := if ddtp % 16 == 1 then Identity else Fault, cache := EmptyCache())
            && r == (if ddtp % 16 <= 1 then Ok(()) else Err(EINVAL))
            && (ValidContext(c) ==>
                  && ValidContext(c')
                  && forall m, address: u64, size: u64, write :: 0 < size ==>
                       Translate(c', m, address, size, write) ==
                       Outcome(c', m, if ddtp % 16 == 1 then Ok(address) else Err(EACCES)))
  {
  }
}
