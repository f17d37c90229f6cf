/**
 The page walk said without its algorithm: which words of memory make an access translate, on raw bits. The walk of
 `PageWalk` is proved to succeed for exactly these, with exactly their translation, and to fail with the right error.
 */
module WalkSpec {
  import opened Base
  import opened PageWalk

  // ----- Raw bits -----

  /** The index bits of an IOVA on a level: 30 and up, 21 to 29, 12 to 20. */
  function IndexBits(x4: bool, level: nat, iova: nat): nat {
    if level == 0 then iova / 0x4000_0000 % (if x4 then 2048 else 512)
    else if level == 1 then iova / 0x20_0000 % 512
    else iova / 0x1000 % 512
  }

  /** Bit 0 is set; bits 54 to 60 and bit 63 are clear. */
  predicate WellFormed(word: u64) {
    word % 2 == 1 && word / 0x40_0000_0000_0000 % 128 == 0 && word / 0x8000_0000_0000_0000 == 0
  }

  /** Bits 1 to 3 are clear. */
  predicate Points(word: u64) {
    word / 2 % 8 == 0
  }

  /** Bits 10 to 53, as an address. */
  function PageAddress(word: u64): nat {
    word / 0x400 % 0x1000_0000_0000 * 0x1000
  }

  /** R and U; for a write W as well. */
  predicate Grants(word: u64, write: bool) {
    word / 2 % 2 == 1 && word / 16 % 2 == 1 && (write ==> word / 4 % 2 == 1)
  }

  /** A; for a write D as well. */
  predicate Marked(word: u64, write: bool) {
    word / 64 % 2 == 1 && (write ==> word / 128 % 2 == 1)
  }

  /** The word with A set, and D for a write, and every other bit as it was. */
  predicate MarkedFrom(word: u64, word': u64, write: bool) {
    && word' % 64 == word % 64 && word' / 256 == word / 256
    && word' / 64 % 2 == 1 && word' / 128 % 2 == if write then 1 else word / 128 % 2
  }

  function SizeOn(level: nat): nat {
    if level == 0 then 0x4000_0000 else if level == 1 then 0x20_0000 else 0x1000
  }

  // ----- Paths -----

  /** The words lie one after the other on the way of an IOVA: pointers, and a word with permissions at the end. */
  ghost predicate IsPath(memory: Memory, x4: bool, table: nat, level: nat, iova: nat, words: seq<u64>)
    decreases |words|
  {
    && words != [] && level + |words| <= 3
    && var at := table + 8 * IndexBits(x4, level, iova);
    && at < U64 && at in memory && memory[at] == words[0] && WellFormed(words[0])
    && if |words| == 1 then !Points(words[0])
       else Points(words[0]) && IsPath(memory, x4, PageAddress(words[0]), level + 1, iova, words[1..])
  }

  /** Where the last word of a path lies. */
  function LastAt(x4: bool, table: nat, level: nat, iova: nat, words: seq<u64>): nat
    decreases |words|
  {
    if |words| <= 1 then table + 8 * IndexBits(x4, level, iova)
    else LastAt(x4, PageAddress(words[0]), level + 1, iova, words[1..])
  }

  lemma SameBits(word: u64)
    ensures WellFormed(word) <==> V(word) && !ReservedOrNapot(word)
    ensures Points(word) <==> Permissions(word) == 0
    ensures PageAddress(word) == Ppn(word) * 0x1000 && Ppn(word) * 0x1000 <= U64_MAX - 0x4000_0000
  {
  }

  /** One level of the descent, on raw bits. */
  lemma Level(memory: Memory, x4: bool, table: u64, level: nat, iova: nat)
    requires level < 3
    ensures var at := table + 8 * IndexBits(x4, level, iova);
            FindLeaf(memory, x4, table, level, iova) ==
            if at >= U64 then Err(EFAULT)
            else if at !in memory then Err(ENOENT)
            else if !WellFormed(memory[at]) then Err(EFAULT)
            else if !Points(memory[at]) then Ok(Leaf(at, memory[at], level))
            else if level == 2 then Err(EFAULT)
            else FindLeaf(memory, x4, PageAddress(memory[at]), level + 1, iova)
  {
    assert Index(x4, iova, level) == IndexBits(x4, level, iova);
    hide V, R, W, U, A, D, ReservedOrNapot, Permissions, Ppn, WellFormed, Points, PageAddress, Index, IndexBits;
    var at := table + 8 * IndexBits(x4, level, iova);
    if at < U64 && at in memory {
      SameBits(memory[at]);
    }
  }

  lemma {:induction false} PathIsFound(memory: Memory, x4: bool, table: u64, level: nat, iova: nat, words: seq<u64>)
    requires level < 3 && IsPath(memory, x4, table, level, iova, words)
    ensures LastAt(x4, table, level, iova, words) < U64
    ensures FindLeaf(memory, x4, table, level, iova) ==
            Ok(Leaf(LastAt(x4, table, level, iova, words), words[|words| - 1], level + |words| - 1))
    decreases |words|
  {
    hide FindLeaf, WellFormed, Points, PageAddress, IndexBits;
    Level(memory, x4, table, level, iova);
    if |words| > 1 {
      SameBits(words[0]);
      PathIsFound(memory, x4, PageAddress(words[0]), level + 1, iova, words[1..]);
    }
  }

  lemma {:induction false} FoundIsPath(memory: Memory, x4: bool, table: u64, level: nat, iova: nat) returns (words: seq<u64>)
    requires level < 3 && FindLeaf(memory, x4, table, level, iova).Ok?
    ensures IsPath(memory, x4, table, level, iova, words)
    decreases 3 - level
  {
    hide FindLeaf, WellFormed, Points, PageAddress, IndexBits;
    Level(memory, x4, table, level, iova);
    var at := table + 8 * IndexBits(x4, level, iova);
    if Points(memory[at]) {
      SameBits(memory[at]);
      var rest := FoundIsPath(memory, x4, PageAddress(memory[at]), level + 1, iova);
      words := [memory[at]] + rest;
      assert words[1..] == rest;
    } else {
      words := [memory[at]];
    }
  }

  // ----- What translates -----

  predicate Aligned(word: u64, page: nat)
    requires 0 < page
  {
    PageAddress(word) % page == 0
  }

  /** The access ends within the page, or exactly at 2^64 counted from the page's start, where the sum wraps. */
  predicate InRange(iova: nat, size: nat, page: nat)
    requires 0 < page
  {
    iova % page + size <= page || iova % page + size == U64
  }

  ghost predicate PathOf(memory: Memory, config: Config, iova: nat, words: seq<u64>) {
    IsPath(memory, config.x4, config.rootPpn * 0x1000, 0, iova, words)
  }

  /** The translation of the page that a leaf on a level maps. */
  function Landing(word: u64, level: nat, iova: nat): Translation {
    var page := SizeOn(level);
    Translation(iova - iova % page, PageAddress(word), page, word / 2 % 8 * 2)
  }

  /** The last word of a path allows the access, and its bits A and D are set or may be. */
  predicate Usable(config: Config, word: u64, write: bool) {
    Grants(word, write) && (config.updateAd || Marked(word, write))
  }

  ghost predicate Translates(memory: Memory, config: Config, iova: nat, size: u64, write: bool, words: seq<u64>, t: Translation) {
    && PathOf(memory, config, iova, words)
    && var leaf, page := words[|words| - 1], SizeOn(|words| - 1);
    && Usable(config, leaf, write) && Aligned(leaf, page) && InRange(iova, size, page)
    && t == Landing(leaf, |words| - 1, iova)
  }

  /** The answer for a leaf on a level, on raw bits. */
  function Answer(updateAd: bool, word: u64, level: nat, iova: nat, size: nat, write: bool): Result<Translation> {
    var page := SizeOn(level);
    if !Grants(word, write) then Err(EACCES)
    else if !updateAd && !Marked(word, write) then Err(EFAULT)
    else if !Aligned(word, page) then Err(EFAULT)
    else if !InRange(iova, size, page) then Err(ERANGE)
    else Ok(Landing(word, level, iova))
  }

  lemma LeafAnswer(memory: Memory, updateAd: bool, leaf: Leaf, iova: nat, size: u64, write: bool)
    requires 0 < size && leaf.level < 3 && !Points(leaf.pte)
    ensures UseLeaf(memory, updateAd, leaf, iova, size, write).result ==
            Answer(updateAd, leaf.pte, leaf.level, iova, size, write)
  {
    hide Denied, NeedsAd, Grants, Marked, SetAd, Place, Points, SizeOn, Aligned, InRange, Landing;
    SameGrants(leaf.pte, write);
    SameMarks(leaf.pte, write);
    PlaceAnswer(leaf, iova, size);
  }

  lemma SameMarks(word: u64, write: bool)
    ensures NeedsAd(word, write) <==> !Marked(word, write)
  {
  }

  lemma SameGrants(word: u64, write: bool)
    requires !Points(word)
    ensures Denied(word, write) <==> !Grants(word, write)
  {
    var bits := word / 2 % 8;
    DivModUnique(word / 2, 2, 4 * (word / 16) + bits / 2, bits % 2);
    DivModUnique(word / 4, 2, 2 * (word / 16) + bits / 4, bits / 2 % 2);
  }

  lemma PlaceAnswer(leaf: Leaf, iova: nat, size: u64)
    requires 0 < size && leaf.level < 3
    ensures var page := SizeOn(leaf.level);
            Place(leaf, iova, size) ==
            if !Aligned(leaf.pte, page) then Err(EFAULT)
            else if !InRange(iova, size, page) then Err(ERANGE)
            else Ok(Landing(leaf.pte, leaf.level, iova))
  {
    SameBits(leaf.pte);
    var page, offset := SizeOn(leaf.level), iova % SizeOn(leaf.level);
    assert page == PageSize(leaf.level);
    SameAlignment(Ppn(leaf.pte), leaf.level);
    WrappedRange(offset, size, page);
    hide Ppn, PageAddress, SizeOn, PageSize, WellFormed, Points, ReservedOrNapot, V;
    assert Permissions(leaf.pte) == leaf.pte / 2 % 8 * 2;
  }

  lemma SameAlignment(ppn: nat, level: nat)
    requires level < 3
    ensures ppn % (PageSize(level) / 0x1000) == 0 <==> ppn * 0x1000 % SizeOn(level) == 0
  {
    if level == 0 {
      DivModUnique(ppn * 0x1000, 0x4000_0000, ppn / 0x4_0000, ppn % 0x4_0000 * 0x1000);
    } else if level == 1 {
      DivModUnique(ppn * 0x1000, 0x20_0000, ppn / 0x200, ppn % 0x200 * 0x1000);
    } else {
      DivModUnique(ppn * 0x1000, 0x1000, ppn, 0);
      DivModUnique(ppn, 1, ppn, 0);
    }
  }

  lemma WrappedRange(offset: nat, size: u64, page: nat)
    requires 0 < size && offset < page <= 0x4000_0000
    ensures (offset > U64_MAX - (size - 1) || (offset + size) % U64 > page) <==> !(offset + size <= page || offset + size == U64)
  {
  }

  /** The walk in one piece: the error or the leaf of the descent, and then the answer for the leaf. */
  lemma WalkAnswer(memory: Memory, config: Config, iova: nat, size: u64, write: bool, words: seq<u64>)
    requires ValidConfig(config) && 0 < size && PathOf(memory, config, iova, words)
    ensures 1 <= |words| <= 3
    ensures Walk(memory, config, iova, size, write).result ==
            Answer(config.updateAd, words[|words| - 1], |words| - 1, iova, size, write)
  {
    var root := config.rootPpn * 0x1000;
    PathIsFound(memory, config.x4, root, 0, iova, words);
    PathEnds(memory, config.x4, root, 0, iova, words);
    hide FindLeaf, UseLeaf, IsPath, Answer, Points;
    LeafAnswer(memory, config.updateAd, FindLeaf(memory, config.x4, root, 0, iova).value, iova, size, write);
  }

  lemma {:induction false} PathEnds(memory: Memory, x4: bool, table: nat, level: nat, iova: nat, words: seq<u64>)
    requires IsPath(memory, x4, table, level, iova, words)
    ensures !Points(words[|words| - 1]) && |words| <= 3
    decreases |words|
  {
    hide WellFormed, Points, PageAddress, IndexBits;
    if |words| > 1 {
      PathEnds(memory, x4, PageAddress(words[0]), level + 1, iova, words[1..]);
    }
  }

  /** A walk succeeds with a translation exactly when a path of words says so. */
  lemma WalkExact(memory: Memory, config: Config, iova: nat, size: u64, write: bool, t: Translation)
    requires ValidConfig(config) && 0 < size
    ensures Walk(memory, config, iova, size, write).result == Ok(t) <==>
            exists words: seq<u64> :: Translates(memory, config, iova, size, write, words, t)
  {
    hide FindLeaf, UseLeaf, Grants, Marked, Aligned, InRange, Landing, SizeOn, IsPath;
    if Walk(memory, config, iova, size, write).result == Ok(t) {
      var words := FoundIsPath(memory, config.x4, config.rootPpn * 0x1000, 0, iova);
      WalkAnswer(memory, config, iova, size, write, words);
      assert Translates(memory, config, iova, size, write, words, t);
    }
    forall words: seq<u64> | Translates(memory, config, iova, size, write, words, t)
      ensures Walk(memory, config, iova, size, write).result == Ok(t)
    {
      WalkAnswer(memory, config, iova, size, write, words);
    }
  }

  /** A successful walk leaves the last word of its path with A set, and D for a write, and no other bit changed. */
  lemma WalkMarks(memory: Memory, config: Config, iova: nat, size: u64, write: bool, words: seq<u64>, t: Translation)
    requires ValidConfig(config) && 0 < size && Translates(memory, config, iova, size, write, words, t)
    ensures var at := LastAt(config.x4, config.rootPpn * 0x1000, 0, iova, words);
            var memory' := Walk(memory, config, iova, size, write).memory;
            && at < U64 && at in memory' && memory' == memory[at := memory'[at]]
            && MarkedFrom(words[|words| - 1], memory'[at], write)
            && (Marked(words[|words| - 1], write) ==> memory' == memory)
  {
    var root, leaf := config.rootPpn * 0x1000, words[|words| - 1];
    PathIsFound(memory, config.x4, root, 0, iova, words);
    PathEnds(memory, config.x4, root, 0, iova, words);
    hide FindLeaf, IsPath, Grants, Aligned, InRange, Landing, SizeOn, Points, Denied, SetAd, Marked, NeedsAd, Place;
    SameGrants(leaf, write);
    SameMarks(leaf, write);
    SetMarks(leaf, write);
    assert memory == memory[LastAt(config.x4, root, 0, iova, words) := leaf];
  }

  lemma SetMarks(word: u64, write: bool)
    ensures MarkedFrom(word, SetAd(word, write), write) && (Marked(word, write) ==> MarkedFrom(word, word, write))
  {
    var low, a, d, high := word % 64, word / 64 % 2, word / 128 % 2, word / 256;
    Fields(word);
    Split(word, low, a, d, high);
    Split(low + 64 + 128 * d + 256 * high, low, 1, d, high);
    var d' := if write then 1 else d;
    assert SetAd(word, write) == low + 64 + 128 * d' + 256 * high;
    hide SetAd, A, D;
    HasFields(SetAd(word, write), low, 1, d', high);
  }

  lemma Fields(word: u64)
    ensures word == word % 64 + 64 * (word / 64 % 2) + 128 * (word / 128 % 2) + 256 * (word / 256)
  {
    assert word / 128 == word / 64 / 2 && word / 256 == word / 64 / 2 / 2;
  }

  lemma HasFields(word: u64, low: nat, a: nat, d: nat, high: nat)
    requires word == low + 64 * a + 128 * d + 256 * high && low < 64 && a < 2 && d < 2
    ensures word % 64 == low && word / 256 == high && word / 64 % 2 == a && word / 128 % 2 == d
  {
    Split(word, low, a, d, high);
  }

  // ----- What fails, and how -----

  predicate Refuses(words: seq<u64>, write: bool) {
    words != [] && !Grants(words[|words| - 1], write)
  }

  /** EACCES exactly when the IOVA has a leaf that does not grant the access. */
  lemma WalkDenies(memory: Memory, config: Config, iova: nat, size: u64, write: bool)
    requires ValidConfig(config) && 0 < size
    ensures Walk(memory, config, iova, size, write).result == Err(EACCES) <==>
            exists words: seq<u64> :: PathOf(memory, config, iova, words) && Refuses(words, write)
  {
    hide UseLeaf, Grants, Marked, Aligned, InRange, Landing, SizeOn, IsPath;
    FailsWithoutPath(memory, config, iova, size, write);
    hide FindLeaf, Walk;
    if Walk(memory, config, iova, size, write).result == Err(EACCES) {
      var words := FoundIsPath(memory, config.x4, config.rootPpn * 0x1000, 0, iova);
      WalkAnswer(memory, config, iova, size, write, words);
      assert PathOf(memory, config, iova, words);
    }
    forall words: seq<u64> | PathOf(memory, config, iova, words) && Refuses(words, write)
      ensures Walk(memory, config, iova, size, write).result == Err(EACCES)
    {
      WalkAnswer(memory, config, iova, size, write, words);
    }
  }

  /** ERANGE exactly when the leaf would do but for the range. */
  lemma WalkOutOfRange(memory: Memory, config: Config, iova: nat, size: u64, write: bool)
    requires ValidConfig(config) && 0 < size
    ensures Walk(memory, config, iova, size, write).result == Err(ERANGE) <==>
            exists words: seq<u64> :: PathOf(memory, config, iova, words) && OutOfRange(config, iova, size, write, words)
  {
    hide UseLeaf, Grants, Marked, Aligned, InRange, Landing, SizeOn, IsPath;
    FailsWithoutPath(memory, config, iova, size, write);
    hide FindLeaf, Walk;
    if Walk(memory, config, iova, size, write).result == Err(ERANGE) {
      var words := FoundIsPath(memory, config.x4, config.rootPpn * 0x1000, 0, iova);
      WalkAnswer(memory, config, iova, size, write, words);
      assert PathOf(memory, config, iova, words);
    }
    forall words: seq<u64> | PathOf(memory, config, iova, words) && OutOfRange(config, iova, size, write, words)
      ensures Walk(memory, config, iova, size, write).result == Err(ERANGE)
    {
      WalkAnswer(memory, config, iova, size, write, words);
    }
  }

  ghost predicate OutOfRange(config: Config, iova: nat, size: u64, write: bool, words: seq<u64>) {
    && words != []
    && var leaf, page := words[|words| - 1], SizeOn(|words| - 1);
    && Usable(config, leaf, write) && Aligned(leaf, page) && !InRange(iova, size, page)
  }

  /** Pointers, and then an address that is not readable. */
  ghost predicate IsGap(memory: Memory, x4: bool, table: nat, level: nat, iova: nat, words: seq<u64>)
    decreases |words|
  {
    && level + |words| <= 2
    && var at := table + 8 * IndexBits(x4, level, iova);
    && at < U64
    && if words == [] then at !in memory
       else at in memory && memory[at] == words[0] && WellFormed(words[0]) && Points(words[0]) &&
            IsGap(memory, x4, PageAddress(words[0]), level + 1, iova, words[1..])
  }

  lemma {:induction false} GapIsMissed(memory: Memory, x4: bool, table: u64, level: nat, iova: nat, words: seq<u64>)
    requires level < 3 && IsGap(memory, x4, table, level, iova, words)
    ensures FindLeaf(memory, x4, table, level, iova) == Err(ENOENT)
    decreases |words|
  {
    hide FindLeaf, WellFormed, Points, PageAddress, IndexBits;
    Level(memory, x4, table, level, iova);
    if words != [] {
      SameBits(words[0]);
      GapIsMissed(memory, x4, PageAddress(words[0]), level + 1, iova, words[1..]);
    }
  }

  lemma {:induction false} MissedIsGap(memory: Memory, x4: bool, table: u64, level: nat, iova: nat) returns (words: seq<u64>)
    requires level < 3 && FindLeaf(memory, x4, table, level, iova) == Err(ENOENT)
    ensures IsGap(memory, x4, table, level, iova, words)
    decreases 3 - level
  {
    hide FindLeaf, WellFormed, Points, PageAddress, IndexBits;
    Level(memory, x4, table, level, iova);
    var at := table + 8 * IndexBits(x4, level, iova);
    words := [];
    if at in memory {
      SameBits(memory[at]);
      var rest := MissedIsGap(memory, x4, PageAddress(memory[at]), level + 1, iova);
      words := [memory[at]] + rest;
      assert words[1..] == rest;
    }
  }

  /** ENOENT exactly when the way of the IOVA leads to an address that is not readable. */
  lemma WalkMisses(memory: Memory, config: Config, iova: nat, size: u64, write: bool)
    requires ValidConfig(config) && 0 < size
    ensures Walk(memory, config, iova, size, write).result == Err(ENOENT) <==>
            exists words: seq<u64> :: IsGap(memory, config.x4, config.rootPpn * 0x1000, 0, iova, words)
  {
    hide UseLeaf, Grants, Marked, Aligned, InRange, Landing, SizeOn, IsPath, IsGap;
    hide FindLeaf;
    var root := config.rootPpn * 0x1000;
    if FindLeaf(memory, config.x4, root, 0, iova).Ok? {
      var words := FoundIsPath(memory, config.x4, root, 0, iova);
      WalkAnswer(memory, config, iova, size, write, words);
    } else if FindLeaf(memory, config.x4, root, 0, iova) == Err(ENOENT) {
      var words := MissedIsGap(memory, config.x4, root, 0, iova);
      assert IsGap(memory, config.x4, root, 0, iova, words);
    }
    forall words: seq<u64> | IsGap(memory, config.x4, root, 0, iova, words)
      ensures FindLeaf(memory, config.x4, root, 0, iova) == Err(ENOENT)
    {
      GapIsMissed(memory, config.x4, root, 0, iova, words);
    }
  }

  /** Every other failure is EFAULT. */
  lemma FailsWithoutPath(memory: Memory, config: Config, iova: nat, size: u64, write: bool)
    requires ValidConfig(config) && 0 < size
    ensures var r := Walk(memory, config, iova, size, write).result;
            && (r.Err? ==> r.error in {EACCES, EFAULT, ENOENT, ERANGE})
            && (r == Err(EACCES) || r == Err(ERANGE) ==>
                  FindLeaf(memory, config.x4, config.rootPpn * 0x1000, 0, iova).Ok?)
  {
    hide V, R, W, U, A, D, ReservedOrNapot, Permissions, Ppn, SetAd, Denied, NeedsAd, Index;
    FindErrors(memory, config.x4, config.rootPpn * 0x1000, 0, iova);
  }

  lemma {:induction false} FindErrors(memory: Memory, x4: bool, table: u64, level: nat, iova: nat)
    requires level < 3
    ensures var r := FindLeaf(memory, x4, table, level, iova); r.Err? ==> r.error in {EFAULT, ENOENT}
    decreases 3 - level
  {
    hide FindLeaf, WellFormed, Points, PageAddress, IndexBits;
    Level(memory, x4, table, level, iova);
    var at := table + 8 * IndexBits(x4, level, iova);
    if at < U64 && at in memory && Points(memory[at]) && level < 2 {
      SameBits(memory[at]);
      FindErrors(memory, x4, PageAddress(memory[at]), level + 1, iova);
    }
  }
}
