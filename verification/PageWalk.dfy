/**
 The three-level Sv39 / Sv39x4 page-table walk of the software IOMMU.
 */
module PageWalk {
  import opened Base

  /** Downstream RAM, as the aligned little-endian 64-bit words that page tables are read from. */
  type Memory = map<u64, u64>

  /** What a walk depends on besides memory: root page, root width, and whether A/D bits are written back. */
  datatype Config = Config(rootPpn: nat, x4: bool, updateAd: bool)

  datatype Translation = Translation(iovaBase: nat, target: nat, size: nat, permissions: nat)

  /** A page-table entry with a non-zero permission field, where it lies, and the level it was found on. */
  datatype Leaf = Leaf(address: u64, pte: u64, level: nat)

  datatype WalkOutcome = WalkOutcome(memory: Memory, result: Result<Translation>)

  // ----- Page-table entry fields -----

  predicate V(pte: u64) { pte % 2 == 1 }
  predicate R(pte: u64) { pte / 2 % 2 == 1 }
  predicate W(pte: u64) { pte / 4 % 2 == 1 }
  predicate U(pte: u64) { pte / 16 % 2 == 1 }
  predicate A(pte: u64) { pte / 64 % 2 == 1 }
  predicate D(pte: u64) { pte / 128 % 2 == 1 }

  /** The R, W and X bits, in place. */
  function Permissions(pte: u64): nat { pte / 2 % 8 * 2 }

  function Ppn(pte: u64): (ppn: nat)
    ensures ppn < 0x1000_0000_0000
  {
    pte / 0x400 % 0x1000_0000_0000
  }

  predicate ReservedOrNapot(pte: u64) {
    pte / 0x40_0000_0000_0000 % 128 != 0 || pte / 0x8000_0000_0000_0000 == 1
  }

  predicate PermissionR(permissions: nat) { permissions / 2 % 2 == 1 }
  predicate PermissionW(permissions: nat) { permissions / 4 % 2 == 1 }

  /** `pte | A`, and `| D` for a write. */
  function SetAd(pte: u64, write: bool): u64 {
    var accessed: u64 := if A(pte) then pte else assert pte + 64 < U64; pte + 64;
    if write && !D(accessed) then assert accessed + 128 < U64; accessed + 128 else accessed
  }

  /** Two entries that differ in nothing but the A and D bits (bits 6 and 7). */
  predicate SameExceptAd(p: u64, q: u64) {
    p % 64 == q % 64 && p / 256 == q / 256
  }

  /** Writing an entry as its A and D bits, the six bits below and the bits above. */
  lemma Split(pte: u64, low: nat, a: nat, d: nat, high: nat)
    requires pte == low + 64 * a + 128 * d + 256 * high
    requires low < 64 && a < 2 && d < 2
    ensures pte % 64 == low && pte / 256 == high
    ensures A(pte) == (a == 1) && D(pte) == (d == 1)
  {
    assert pte / 64 == a + 2 * d + 4 * high;
    assert pte / 128 == d + 2 * high;
  }

  lemma SetAdSetsOnlyAd(pte: u64, write: bool)
    ensures SameExceptAd(pte, SetAd(pte, write))
    ensures A(SetAd(pte, write)) && (write ==> D(SetAd(pte, write)))
    ensures A(pte) && (write ==> D(pte)) ==> SetAd(pte, write) == pte
    ensures D(pte) ==> D(SetAd(pte, write))
  {
    var low, a, d, high := pte % 64, pte / 64 % 2, pte / 128 % 2, pte / 256;
    assert pte / 64 / 2 == pte / 128 && pte / 128 / 2 == pte / 256;
    Split(pte, low, a, d, high);
    if a == 0 {
      Split(pte + 64, low, 1, d, high);
    }
    if write && d == 0 {
      Split(SetAd(pte, write), low, 1, 1, high);
    }
  }

  lemma SameExceptAdFields(p: u64, q: u64)
    requires SameExceptAd(p, q)
    ensures V(p) == V(q) && R(p) == R(q) && W(p) == W(q) && U(p) == U(q)
    ensures Permissions(p) == Permissions(q) && Ppn(p) == Ppn(q)
    ensures ReservedOrNapot(p) == ReservedOrNapot(q)
  {
    LowFields(p);
    LowFields(q);
    HighFields(p);
    HighFields(q);
  }

  /** The permission bits are a function of the low six bits. */
  lemma LowFields(p: u64)
    ensures V(p) == (p % 64 % 2 == 1) && R(p) == (p % 64 / 2 % 2 == 1)
    ensures W(p) == (p % 64 / 4 % 2 == 1) && U(p) == (p % 64 / 16 % 2 == 1)
    ensures Permissions(p) == p % 64 / 2 % 8 * 2
  {
    var k, r := p / 64, p % 64;
    LowBit(p, k, r, 2, 32);
    LowBit(p, k, r, 4, 16);
    LowBit(p, k, r, 16, 4);
    DivModUnique(p, 2, 32 * k + r / 2, r % 2);
    DivModUnique(32 * k + r / 2, 8, 4 * k + r / 2 / 8, r / 2 % 8);
  }

  /** A bit below bit 6 is a bit of the low six. */
  lemma LowBit(p: u64, k: nat, r: nat, weight: nat, rest: nat)
    requires p == 64 * k + r && r < 64 && (weight, rest) in {(2, 32), (4, 16), (16, 4)}
    ensures p / weight % 2 == r / weight % 2
  {
    DivModUnique(p, weight, rest * k + r / weight, r % weight);
    DivModUnique(rest * k + r / weight, 2, (rest / 2) * k + r / weight / 2, r / weight % 2);
  }

  /** The page number and the reserved bits are a function of the bits from 8 up. */
  lemma HighFields(p: u64)
    ensures p / 0x400 == p / 256 / 4
    ensures p / 0x40_0000_0000_0000 == p / 256 / 0x4000_0000_0000
    ensures p / 0x8000_0000_0000_0000 == p / 256 / 0x80_0000_0000_0000
  {
  }

  // ----- Addresses -----

  /** Bytes mapped by a leaf found on a level: 1 GiB, 2 MiB or 4 KiB. */
  function PageSize(level: nat): nat {
    if level == 0 then 0x4000_0000 else if level == 1 then 0x20_0000 else 0x1000
  }

  /** The size of the IOVA space: 2^39, or 2^41 with the wide root. */
  function IovaLimit(x4: bool): nat {
    if x4 then 0x200_0000_0000 else 0x80_0000_0000
  }

  /** An address whose upper bits are all zero or all one, cut to the IOVA width. */
  function Canonical(address: u64, x4: bool): (r: Result<nat>)
    ensures r.Ok? ==> r.value < IovaLimit(x4)
  {
    var half := IovaLimit(x4) / 2;
    var upper := address / half;
    if upper != 0 && upper != U64_MAX / half then Err(EFAULT) else Ok(address % IovaLimit(x4))
  }

  lemma SignExtension(address: u64, half: nat)
    requires half == 0x40_0000_0000 || half == 0x100_0000_0000
    ensures address / half == 0 <==> address < half
    ensures address / half == U64_MAX / half <==> U64 - half <= address
    ensures address < half ==> address % (2 * half) == address
    ensures U64 - half <= address ==> address % (2 * half) == address - (U64 - 2 * half)
  {
    if half == 0x40_0000_0000 {
      assert U64_MAX / 0x40_0000_0000 == 0x3ff_ffff;
    } else {
      assert U64_MAX / 0x100_0000_0000 == 0xff_ffff;
    }
  }

  /** Exactly the sign extensions are accepted, and each gives the IOVA it extends. */
  lemma CanonicalExact(address: u64, x4: bool, iova: nat)
    requires iova < IovaLimit(x4)
    ensures var limit := IovaLimit(x4);
            Canonical(address, x4) == Ok(iova) <==>
            address == if iova < limit / 2 then iova else U64 - limit + iova
  {
    SignExtension(address, IovaLimit(x4) / 2);
  }

  function Index(x4: bool, iova: nat, level: nat): nat {
    iova / PageSize(level) % (if level == 0 && x4 then 2048 else 512)
  }

  /** Addresses in one page select the same entry on that page's level and on every level above. */
  lemma SamePageSameIndex(x4: bool, x: nat, y: nat, level: nat, leafLevel: nat)
    requires level <= leafLevel < 3
    requires x / PageSize(leafLevel) == y / PageSize(leafLevel)
    ensures Index(x4, x, level) == Index(x4, y, level)
  {
    assert x / 0x20_0000 == x / 0x1000 / 512 && y / 0x20_0000 == y / 0x1000 / 512;
    assert x / 0x4000_0000 == x / 0x20_0000 / 512 && y / 0x4000_0000 == y / 0x20_0000 / 512;
  }

  // ----- The walk -----

  /** The descent through the tables, from `table` on `level` down to the first entry with permissions. */
  function FindLeaf(memory: Memory, x4: bool, table: u64, level: nat, iova: nat): (r: Result<Leaf>)
    requires level < 3
    ensures r.Ok? ==> level <= r.value.level < 3 && r.value.address in memory
    ensures r.Ok? ==> memory[r.value.address] == r.value.pte
    ensures r.Ok? ==> Permissions(r.value.pte) != 0 && V(r.value.pte) && !ReservedOrNapot(r.value.pte)
    decreases 3 - level
  {
    var offset := Index(x4, iova, level) * 8;
    if table > U64_MAX - offset then Err(EFAULT)
    else if table + offset !in memory then Err(ENOENT)
    else
      var pte := memory[table + offset];
      if !V(pte) || ReservedOrNapot(pte) then Err(EFAULT)
      else if Permissions(pte) != 0 then Ok(Leaf(table + offset, pte, level))
      else if level == 2 || Ppn(pte) > U64_MAX / 0x1000 then Err(EFAULT)
      else FindLeaf(memory, x4, Ppn(pte) * 0x1000, level + 1, iova)
  }

  /** W without R, no U, or the wanted permission missing. */
  predicate Denied(pte: u64, write: bool) {
    || Permissions(pte) == 4
    || Permissions(pte) == 12
    || !U(pte)
    || (if write then !W(pte) else !R(pte))
  }

  predicate NeedsAd(pte: u64, write: bool) {
    !A(pte) || (write && !D(pte))
  }

  /** The tests made on a leaf once permissions and A/D bits are settled. */
  function Place(leaf: Leaf, iova: nat, size: u64): (r: Result<Translation>)
    requires 0 < size
    ensures r.Ok? ==> r.value == Translation(iova - iova % PageSize(leaf.level), Ppn(leaf.pte) * 0x1000,
                                             PageSize(leaf.level), Permissions(leaf.pte))
  {
    var page := PageSize(leaf.level);
    var offset := iova % page;
    var ppn := Ppn(leaf.pte);
    if ppn > U64_MAX / 0x1000 then Err(EFAULT)
    else if ppn % (page / 0x1000) != 0 then Err(EFAULT)
    else if offset > U64_MAX - (size - 1) || (offset + size) % U64 > page then Err(ERANGE)
    else if ppn * 0x1000 > U64_MAX - offset then Err(EFAULT)
    else Ok(Translation(iova - offset, ppn * 0x1000, page, Permissions(leaf.pte)))
  }

  /** Permission check, A/D update and placement of an access on the leaf it reached. */
  function UseLeaf(memory: Memory, updateAd: bool, leaf: Leaf, iova: nat, size: u64, write: bool): WalkOutcome
    requires 0 < size
  {
    if Denied(leaf.pte, write) then WalkOutcome(memory, Err(EACCES))
    else if NeedsAd(leaf.pte, write) && !updateAd then WalkOutcome(memory, Err(EFAULT))
    else
      var memory' := if NeedsAd(leaf.pte, write) then memory[leaf.address := SetAd(leaf.pte, write)] else memory;
      WalkOutcome(memory', Place(leaf, iova, size))
  }

  ghost predicate ValidConfig(config: Config) {
    config.rootPpn <= U64_MAX / 0x1000
  }

  /** One complete walk for a canonical IOVA. */
  function Walk(memory: Memory, config: Config, iova: nat, size: u64, write: bool): WalkOutcome
    requires ValidConfig(config) && 0 < size
  {
    match FindLeaf(memory, config.x4, config.rootPpn * 0x1000, 0, iova)
    case Err(error) => WalkOutcome(memory, Err(error))
    case Ok(leaf) => UseLeaf(memory, config.updateAd, leaf, iova, size, write)
  }

  // ----- What a walk does to memory -----

  /** Two memories with the same words except that one entry, a leaf, may have A/D bits added. */
  ghost predicate OneLeafMarked(before: Memory, after: Memory, address: u64, write: bool) {
    && address in before
    && Permissions(before[address]) != 0
    && after == before[address := SetAd(before[address], write)]
  }

  /** The fields that steer the descent survive the marking of a leaf entry; a pointer entry is not touched at all. */
  lemma MarkedWord(before: Memory, after: Memory, address: u64, write: bool, a: u64)
    requires OneLeafMarked(before, after, address, write) && a in before
    ensures a in after && V(after[a]) == V(before[a]) && Permissions(after[a]) == Permissions(before[a])
    ensures ReservedOrNapot(after[a]) == ReservedOrNapot(before[a])
    ensures Permissions(before[a]) == 0 ==> after[a] == before[a]
  {
    hide V, R, W, U, A, D, ReservedOrNapot, Permissions, Ppn, SetAd, SameExceptAd;
    SetAdSetsOnlyAd(before[address], write);
    SameExceptAdFields(before[address], after[address]);
  }

  /** The descent takes the same path after a leaf entry was marked, even when the tables refer to themselves. */
  lemma {:induction false} MarkedPath(before: Memory, after: Memory, address: u64, write: bool,
                                      x4: bool, table: u64, level: nat, iova: nat)
    requires level < 3
    requires OneLeafMarked(before, after, address, write)
    ensures var r, r' := FindLeaf(before, x4, table, level, iova), FindLeaf(after, x4, table, level, iova);
            if r.Err? then r' == r
            else r'.Ok? && r'.value == r.value.(pte := after[r.value.address])
    decreases 3 - level
  {
    hide V, R, W, U, A, D, ReservedOrNapot, Permissions, Ppn, SetAd, SameExceptAd, Index;
    var offset := Index(x4, iova, level) * 8;
    if table <= U64_MAX - offset && table + offset in before {
      var pte := before[table + offset];
      MarkedWord(before, after, address, write, table + offset);
      if V(pte) && !ReservedOrNapot(pte) && Permissions(pte) == 0 && level < 2 {
        MarkedPath(before, after, address, write, x4, Ppn(pte) * 0x1000, level + 1, iova);
      }
    }
  }

  /**
   A walk writes at most one entry, the leaf it reached, and adds nothing but A/D bits to it;
   it writes nothing unless A/D updates are on. This holds of failing walks too.
   */
  lemma WalkWritesOneLeaf(memory: Memory, config: Config, iova: nat, size: u64, write: bool)
    requires ValidConfig(config) && 0 < size
    ensures var memory' := Walk(memory, config, iova, size, write).memory;
            var leaf := FindLeaf(memory, config.x4, config.rootPpn * 0x1000, 0, iova);
            || memory' == memory
            || (config.updateAd && leaf.Ok? && OneLeafMarked(memory, memory', leaf.value.address, write) &&
                SameExceptAd(memory[leaf.value.address], memory'[leaf.value.address]))
  {
    var leaf := FindLeaf(memory, config.x4, config.rootPpn * 0x1000, 0, iova);
    if leaf.Ok? {
      SetAdSetsOnlyAd(leaf.value.pte, write);
    }
  }

  /** Repeating a walk writes nothing more and gives the same answer, error or translation. */
  lemma WalkIdempotent(memory: Memory, config: Config, iova: nat, size: u64, write: bool)
    requires ValidConfig(config) && 0 < size
    ensures var once := Walk(memory, config, iova, size, write);
            Walk(once.memory, config, iova, size, write) == once
  {
    hide V, R, W, U, A, D, ReservedOrNapot, Permissions, Ppn, SetAd, SameExceptAd, FindLeaf;
    var once := Walk(memory, config, iova, size, write);
    var found := FindLeaf(memory, config.x4, config.rootPpn * 0x1000, 0, iova);
    if found.Ok? && once.memory != memory {
      var leaf := found.value;
      MarkedPath(memory, once.memory, leaf.address, write, config.x4, config.rootPpn * 0x1000, 0, iova);
      SetAdSetsOnlyAd(leaf.pte, write);
      SameExceptAdFields(leaf.pte, SetAd(leaf.pte, write));
      assert once.memory == memory[leaf.address := SetAd(leaf.pte, write)];
    }
  }

  // ----- Where a successful walk lands -----

  ghost predicate InOnePage(base: nat, size: nat, first: nat, length: nat) {
    0 < size && base % size == 0 && base <= first && first + length <= base + size
  }

  /**
   A successful walk maps a naturally aligned 4 KiB, 2 MiB or 1 GiB page holding the IOVA onto an
   equally aligned page, so the page offset is preserved. The whole access lies in both pages
   exactly when the page offset plus the size is not 2^64, where the bound test wraps to zero.
   */
  lemma WalkLandsInOnePage(memory: Memory, config: Config, iova: nat, size: u64, write: bool)
    requires ValidConfig(config) && 0 < size && iova < U64
    requires Walk(memory, config, iova, size, write).result.Ok?
    ensures var t := Walk(memory, config, iova, size, write).result.value;
            var address := t.target + (iova - t.iovaBase);
            && t.size in {0x1000, 0x20_0000, 0x4000_0000}
            && t.iovaBase <= iova < t.iovaBase + t.size
            && t.target % t.size == 0 && address < U64 && address % t.size == iova % t.size
            && (InOnePage(t.iovaBase, t.size, iova, size) && InOnePage(t.target, t.size, address, size)
                <==> iova % t.size + size != U64)
  {
    hide V, R, W, U, A, D, ReservedOrNapot, Permissions, Ppn, SetAd, FindLeaf;
    var leaf := FindLeaf(memory, config.x4, config.rootPpn * 0x1000, 0, iova).value;
    PlaceAligns(leaf.level, Ppn(leaf.pte), iova);
  }

  lemma PlaceAligns(level: nat, ppn: nat, iova: nat)
    requires ppn % (PageSize(level) / 0x1000) == 0
    ensures var page := PageSize(level);
            && (ppn * 0x1000) % page == 0 && (iova - iova % page) % page == 0
            && (ppn * 0x1000 + iova % page) % page == iova % page
  {
    var page, pages := PageSize(level), PageSize(level) / 0x1000;
    var k := ppn / pages;
    assert page == pages * 0x1000;
    assert ppn * 0x1000 == page * k;
    DivModUnique(ppn * 0x1000, page, k, 0);
    DivModUnique(ppn * 0x1000 + iova % page, page, k, iova % page);
    DivModUnique(iova - iova % page, page, iova / page, 0);
  }

  /**
   The wrap is real, for every mapped page: wherever one byte is accepted off the page start, an
   access whose page offset plus size is 2^64 is accepted too, with the same translation.
   */
  lemma WrappingAccessAccepted(memory: Memory, config: Config, iova: nat, write: bool)
    requires ValidConfig(config)
    requires Walk(memory, config, iova, 1, write).result.Ok?
    requires var t := Walk(memory, config, iova, 1, write).result.value; 0 < t.size && 0 < iova % t.size < U64
    ensures var t := Walk(memory, config, iova, 1, write).result.value;
            Walk(memory, config, iova, U64 - iova % t.size, write).result == Ok(t)
  {
    hide V, R, W, U, A, D, ReservedOrNapot, Permissions, Ppn, SetAd, FindLeaf;
  }

  /** A leaf serves every address of its page. */
  lemma {:induction false} FindLeafLocal(memory: Memory, x4: bool, table: u64, level: nat, x: nat, y: nat)
    requires level < 3
    requires FindLeaf(memory, x4, table, level, x).Ok?
    requires var page := PageSize(FindLeaf(memory, x4, table, level, x).value.level); x / page == y / page
    ensures FindLeaf(memory, x4, table, level, y) == FindLeaf(memory, x4, table, level, x)
    decreases 3 - level
  {
    hide V, R, W, U, ReservedOrNapot, Permissions, Ppn, PageSize, Index;
    var leaf := FindLeaf(memory, x4, table, level, x).value;
    SamePageSameIndex(x4, x, y, level, leaf.level);
    var offset := Index(x4, x, level) * 8;
    var pte := memory[table + offset];
    if Permissions(pte) == 0 {
      FindLeafLocal(memory, x4, Ppn(pte) * 0x1000, level + 1, x, y);
    }
  }
}
