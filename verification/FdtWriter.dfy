/**
 The device tree builder as the program keeps it: two zeroed byte buffers of fixed capacity and a stack
 of flags, written in place. Each method acts as the function of `FdtBuilder` on `View()`.
 */
module FdtWriter {
  import opened Base
  import opened FdtFormat
  import opened FdtBuilder

  /** Between multiples of four, padded bytes fit exactly when they fit in whole words. */
  lemma PaddedFits(at: nat, capacity: nat, size: nat)
    requires at % 4 == 0 && at <= capacity
    ensures PaddedLength(size) <= capacity - at <==> at + size <= capacity - capacity % 4
  {
    var q, words := at / 4, capacity / 4;
    assert at == 4 * q && capacity == 4 * words + capacity % 4;
  }

  class FdtWriter {
    const structure: array<u8>
    const strings: array<u8>
    const childSeen: array<bool>
    var structureSize: nat
    var stringsSize: nat
    var depth: nat
    var rootSeen: bool
    var rootClosed: bool
    var finished: bool

    /** Sizes are within the buffers, and the structure buffer is still zero behind its used part. */
    ghost predicate Sized()
      reads this, structure, strings, childSeen
    {
      && structureSize <= structure.Length < U32 && stringsSize <= strings.Length < U32
      && childSeen.Length == structure.Length / 8 + 1 && depth <= childSeen.Length
      && structure != strings
      && forall i :: structureSize <= i < structure.Length ==> structure[i] == 0
    }

    ghost predicate Valid()
      reads this, structure, strings, childSeen
    {
      Sized() && Fits(View())
    }

    ghost function View(): Builder
      requires Sized()
      reads this, structure, strings, childSeen
    {
      Builder(structure[..structureSize], strings[..stringsSize], childSeen[..depth],
              rootSeen, rootClosed, finished, structure.Length, strings.Length)
    }

    constructor (structureCapacity: u32, stringsCapacity: u32)
      ensures Valid() && View() == Fresh(structureCapacity, stringsCapacity)
      ensures fresh(structure) && fresh(strings) && fresh(childSeen)
    {
      structure := new u8[structureCapacity](_ => 0);
      strings := new u8[stringsCapacity](_ => 0);
      childSeen := new bool[structureCapacity / 8 + 1](_ => false);
      structureSize, stringsSize, depth := 0, 0, 0;
      rootSeen, rootClosed, finished := false, false, false;
    }

    /** Copies bytes behind the used part. */
    method Append(bytes: Bytes)
      requires Sized() && structureSize + |bytes| <= structure.Length
      modifies this`structureSize, structure
      ensures Sized() && structureSize == old(structureSize) + |bytes|
      ensures structure[..structureSize] == old(structure[..structureSize]) + bytes
      ensures strings[..] == old(strings[..]) && childSeen[..] == old(childSeen[..])
    {
      forall i | 0 <= i < |bytes| {
        structure[structureSize + i] := bytes[i];
      }
      structureSize := structureSize + |bytes|;
    }

    /** Rounds the used part up to a word; the bytes taken in are zero. */
    method Align()
      requires Sized() && PaddedLength(structureSize) <= structure.Length
      modifies this`structureSize
      ensures Sized() && structureSize == PaddedLength(old(structureSize))
      ensures structure[..structureSize] == old(structure[..structureSize]) + Zeros(structureSize - old(structureSize))
    {
      structureSize := (structureSize + 3) / 4 * 4;
    }

    /** A token: its bytes, then zeros up to a word boundary. */
    method AppendPadded(bytes: Bytes)
      requires Sized() && structureSize % 4 == 0 && structureSize + PaddedLength(|bytes|) <= structure.Length
      modifies this`structureSize, structure
      ensures Sized() && structure[..structureSize] == old(structure[..structureSize]) + Pad(bytes)
      ensures strings[..] == old(strings[..]) && childSeen[..] == old(childSeen[..])
    {
      ghost var before := structure[..structureSize];
      assert PaddedLength(structureSize + |bytes|) == structureSize + PaddedLength(|bytes|);
      Append(bytes);
      Align();
      assert structure[..structureSize] == before + bytes + Zeros(PaddedLength(|bytes|) - |bytes|);
    }

    method Begin(name: Bytes) returns (r: Result<()>)
      requires Valid() && 0 !in name
      modifies this`structureSize, this`depth, this`rootSeen, structure, childSeen
      ensures Sized() && (View(), r) == ApplyBegin(old(View()), name)
      ensures Valid()
    {
      hide Encode;
      BeginFits(View(), name);
      if finished || rootClosed || (!rootSeen && name != []) || (rootSeen && name == []) || SLASH in name {
        return Err(EINVAL);
      }
      if depth >= childSeen.Length {
        return Err(EOVERFLOW);
      }
      if |name| + 1 > U64_MAX - 4 {
        return Err(EOVERFLOW);
      }
      r := Reserved(4 + |name| + 1);
      if r.Err? {
        return;
      }
      BeginBytes(name);
      AppendPadded(Be32(BEGIN_NODE) + name + [0]);
      if depth != 0 {
        childSeen[depth - 1] := true;
      }
      childSeen[depth] := false;
      depth := depth + 1;
      rootSeen := true;
      assert structure[..structureSize] == old(structure[..structureSize]) + Encode(Token.Begin(name));
      assert childSeen[..depth] == ApplyBegin(old(View()), name).0.childSeen;
    }

    /** Granted exactly when the bytes, padded to a multiple of four, end within the buffer. */
    method Reserved(size: nat) returns (r: Result<()>)
      requires Valid()
      ensures r == Reserve(View(), size)
      ensures r.Ok? <==> size <= U64_MAX - 3 && structureSize + size <= structure.Length - structure.Length % 4
      ensures r.Ok? ==> forall bytes: Bytes :: |bytes| == size ==> structureSize + |Pad(bytes)| <= structure.Length
      ensures r.Err? ==> r.error == if size > U64_MAX - 3 then EOVERFLOW else ENOSPC
    {
      assert structureSize % 4 == 0;
      PaddedFits(structureSize, structure.Length, size);
      hide Valid, PaddedLength;
      if size > U64_MAX - 3 {
        return Err(EOVERFLOW);
      }
      if PaddedLength(size) > structure.Length - structureSize {
        return Err(ENOSPC);
      }
      return Ok(());
    }

    method End() returns (r: Result<()>)
      requires Valid()
      modifies this`structureSize, this`depth, this`rootClosed, structure
      ensures Sized() && (View(), r) == ApplyEnd(old(View()))
      ensures Valid()
    {
      EndFits(View());
      if finished || depth == 0 {
        return Err(EINVAL);
      }
      r := Reserved(4);
      if r.Err? {
        return;
      }
      assert PaddedLength(4) == 4;
      Append(Be32(END_NODE));
      depth := depth - 1;
      if depth == 0 {
        rootClosed := true;
      }
      assert childSeen[..depth] == old(childSeen[..depth])[..depth];
      assert Encode(Close) == Be32(END_NODE);
    }

    /** Walks the strings block entry by entry. */
    method FindName(name: Bytes) returns (offset: Option<nat>)
      requires Valid()
      ensures offset == FindString(strings[..stringsSize], 0, name)
    {
      hide CStringAt, FindString;
      ghost var block := strings[..stringsSize];
      assert |block| == stringsSize && Terminated(block);
      var cursor := 0;
      while cursor < stringsSize
        invariant cursor <= stringsSize
        invariant FindString(block, 0, name) == FindString(block, cursor, name)
      {
        EntryTerminated(block, cursor);
        FindStep(block, cursor, name);
        var entry := CStringAt(strings[..stringsSize], cursor);
        if entry == name {
          return Some(cursor);
        }
        cursor := cursor + |entry| + 1;
      }
      NothingFound(block, name);
      return None;
    }

    method Property(name: Bytes, data: Bytes) returns (r: Result<()>)
      requires Valid() && 0 !in name
      modifies this`structureSize, this`stringsSize, structure, strings
      ensures Sized() && (View(), r) == ApplyProperty(old(View()), name, data)
      ensures Valid()
    {
      hide Encode, FindString, CStringAt;
      PropertyFits(View(), name, data);
      if name == [] || finished || depth == 0 || childSeen[depth - 1] {
        return Err(EINVAL);
      }
      if |data| >= U32 {
        return Err(EOVERFLOW);
      }
      r := Reserved(12 + |data|);
      if r.Err? {
        return;
      }
      var found := FindName(name);
      var offset: nat;
      if found.Some? {
        offset := found.value;
      } else {
        if |name| + 1 > strings.Length - stringsSize {
          return Err(ENOSPC);
        }
        offset := stringsSize;
        AppendName(name);
      }
      ValueBytes(offset, data);
      AppendPadded(Be32(PROPERTY) + Be32(|data|) + Be32(offset) + data);
    }

    method AppendName(name: Bytes)
      requires Sized() && |name| + 1 <= strings.Length - stringsSize
      modifies this`stringsSize, strings
      ensures Sized() && stringsSize == old(stringsSize) + |name| + 1
      ensures strings[..stringsSize] == old(strings[..stringsSize]) + name + [0]
      ensures structure[..] == old(structure[..]) && childSeen[..] == old(childSeen[..])
    {
      forall i | 0 <= i < |name| {
        strings[stringsSize + i] := name[i];
      }
      strings[stringsSize + |name|] := 0;
      stringsSize := stringsSize + |name| + 1;
    }

    /** A property of 32-bit cells, encoded one by one. */
    method Cells(name: Bytes, cells: seq<u32>) returns (r: Result<()>)
      requires Valid() && 0 !in name
      modifies this`structureSize, this`stringsSize, structure, strings
      ensures Sized() && Valid()
      ensures |cells| <= (U32 - 1) / 4 ==> (View(), r) == ApplyProperty(old(View()), name, Words(cells))
      ensures |cells| > (U32 - 1) / 4 ==> View() == old(View()) && r == Err(EOVERFLOW)
    {
      hide ApplyProperty;
      if |cells| > (U32 - 1) / 4 {
        return Err(EOVERFLOW);
      }
      var data: Bytes := [];
      var i := 0;
      while i < |cells|
        invariant i <= |cells| && data + Words(cells[i..]) == Words(cells)
      {
        assert cells[i..][1..] == cells[i + 1..];
        data := data + Be32(cells[i]);
        i := i + 1;
      }
      assert cells[i..] == [] && data == Words(cells);
      r := Property(name, data);
    }

    method Finished() returns (r: Result<array<u8>>)
      requires Valid()
      modifies this`structureSize, this`finished, structure
      ensures Sized() && View() == Finish(old(View())).0
      ensures r.Ok? == Finish(old(View())).1.Ok?
      ensures r.Ok? ==> fresh(r.value) && r.value[..] == Finish(old(View())).1.value
      ensures r.Err? ==> r.error == Finish(old(View())).1.error
    {
      if finished || !rootSeen || !rootClosed || depth != 0 {
        return Err(EINVAL);
      }
      var room := Reserved(4);
      if room.Err? {
        return Err(room.error);
      }
      assert PaddedLength(4) == 4;
      var stringsAt := HEADER_SIZE + RESERVE_MAP_SIZE + structureSize + 4;
      if stringsAt >= U32 || stringsSize > U32 - 1 - stringsAt {
        return Err(EOVERFLOW);
      }
      Append(Be32(END));
      var blob := Assembled(structure[..structureSize], strings[..stringsSize]);
      finished := true;
      return Ok(blob);
    }
  }

  lemma NothingFound(block: Bytes, name: Bytes)
    ensures FindString(block, |block|, name) == None
  {
  }

  lemma EntryTerminated(block: Bytes, at: nat)
    requires Terminated(block) && at < |block|
    ensures at + |CStringAt(block, at)| < |block|
  {
    CStringGrows(block, [], at);
  }

  lemma BeginBytes(name: Bytes)
    requires 0 !in name
    ensures Encode(Begin(name)) == Pad(Be32(BEGIN_NODE) + name + [0])
  {
  }

  lemma ValueBytes(offset: u32, data: Bytes)
    requires |data| < U32
    ensures Encode(Value(offset, data)) == Pad(Be32(PROPERTY) + Be32(|data|) + Be32(offset) + data)
  {
  }

  /** Overwrites part of a buffer. */
  method Copy(buffer: array<u8>, at: nat, bytes: Bytes)
    requires at + |bytes| <= buffer.Length
    modifies buffer
    ensures buffer[..at] == old(buffer[..at]) && buffer[at..at + |bytes|] == bytes
    ensures buffer[at + |bytes|..] == old(buffer[at + |bytes|..])
  {
    forall i | 0 <= i < |bytes| {
      buffer[at + i] := bytes[i];
    }
  }

  /** The n-th header word. */
  method StoreField(blob: array<u8>, n: nat, value: u32)
    requires 4 * n + 4 <= blob.Length
    modifies blob
    ensures blob[..4 * n + 4] == old(blob[..4 * n]) + Be32(value)
    ensures HEADER_SIZE <= blob.Length && n < 10 ==> blob[HEADER_SIZE..] == old(blob[HEADER_SIZE..])
  {
    hide Be32;
    ghost var tail := blob[4 * n + 4..];
    Copy(blob, 4 * n, Be32(value));
    if HEADER_SIZE <= blob.Length && n < 10 {
      assert blob[HEADER_SIZE..] == tail[HEADER_SIZE - 4 * n - 4..];
    }
    assert blob[..4 * n + 4] == blob[..4 * n] + blob[4 * n..4 * n + 4];
  }

  method Assembled(structure: Bytes, strings: Bytes) returns (blob: array<u8>)
    requires HEADER_SIZE + RESERVE_MAP_SIZE + |structure| + |strings| < U32
    ensures fresh(blob) && blob[..] == Blob(structure, strings)
  {
    hide Be32;
    var structureAt := HEADER_SIZE + RESERVE_MAP_SIZE;
    var stringsAt := structureAt + |structure|;
    var total := stringsAt + |strings|;
    blob := new u8[total](_ => 0);
    Copy(blob, structureAt, structure);
    ghost var first := blob[..];
    assert first[40..56] == Zeros(16) && first[56..stringsAt] == structure;
    Copy(blob, stringsAt, strings);
    ghost var second := blob[..];
    assert second[..stringsAt] == first[..stringsAt] && second[stringsAt..] == strings;
    Parts(first, second, stringsAt);
    assert blob[40..] == second[40..] == Zeros(16) + structure + strings;
    WriteHeader(blob, total, structureAt, stringsAt, |strings|, |structure|);
    assert blob[..] == blob[..40] + blob[40..];
  }

  lemma Parts(first: Bytes, second: Bytes, n: nat)
    requires 56 <= n <= |first| && n <= |second| && second[..n] == first[..n]
    ensures second[40..] == first[40..56] + first[56..n] + second[n..]
  {
    assert first[40..56] == first[..n][40..56] && first[56..n] == first[..n][56..n];
  }

  method WriteHeader(blob: array<u8>, total: u32, structureAt: u32, stringsAt: u32, stringsSize: u32, structureSize: u32)
    requires HEADER_SIZE <= blob.Length
    modifies blob
    ensures blob[..HEADER_SIZE] == Be32(MAGIC) + Be32(total) + Be32(structureAt) + Be32(stringsAt) + Be32(HEADER_SIZE) +
                                   Be32(VERSION) + Be32(LAST_COMPATIBLE_VERSION) + Be32(0) +
                                   Be32(stringsSize) + Be32(structureSize)
    ensures blob[HEADER_SIZE..] == old(blob[HEADER_SIZE..])
  {
    hide Be32;
    StoreField(blob, 0, MAGIC);
    StoreField(blob, 1, total);
    StoreField(blob, 2, structureAt);
    StoreField(blob, 3, stringsAt);
    StoreField(blob, 4, HEADER_SIZE);
    StoreField(blob, 5, VERSION);
    StoreField(blob, 6, LAST_COMPATIBLE_VERSION);
    StoreField(blob, 7, 0);
    StoreField(blob, 8, stringsSize);
    StoreField(blob, 9, structureSize);
  }
}
