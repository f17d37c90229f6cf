/**
 Scatter/gather block transfers between guest memory and a raw disk: what a request moves, whatever its
 segmentation, and why reading back what was written gives the same bytes.
 */
module BlockTransfer {
  import opened Base
  import opened GuestMemory
  import opened Virtqueue

  const SECTOR: nat := 512
  const MAX_SEGMENT: nat := 0x10_0000

  datatype Segment = Segment(address: nat, length: nat)

  /** The data descriptors of a request: all but the header and the status. */
  function Segments(links: seq<Link>): seq<Segment> {
    if |links| < 2 then [] else SegmentsBefore(links, |links| - 1)
  }

  function SegmentsOf(links: seq<Link>): (s: seq<Segment>)
    ensures |s| == |links|
    ensures forall i :: 0 <= i < |s| ==> s[i] == Segment(links[i].descriptor.address, links[i].descriptor.length)
  {
    if links == [] then []
    else [Segment(links[0].descriptor.address, links[0].descriptor.length)] + SegmentsOf(links[1..])
  }

  /** The data segments of the descriptors before the i-th, header excluded. */
  function SegmentsBefore(links: seq<Link>, i: nat): seq<Segment>
    requires 1 <= i <= |links|
  {
    SegmentsOf(links[1..i])
  }

  lemma SegmentsBeforeNext(links: seq<Link>, i: nat)
    requires 1 <= i < |links|
    ensures var d := links[i].descriptor;
            && SegmentsBefore(links, i + 1) == SegmentsBefore(links, i) + [Segment(d.address, d.length)]
            && Total(SegmentsBefore(links, i + 1)) == Total(SegmentsBefore(links, i)) + d.length
  {
    var one := [Segment(links[i].descriptor.address, links[i].descriptor.length)];
    assert links[1..i + 1] == links[1..i] + [links[i]];
    assert SegmentsBefore(links, i + 1) == SegmentsBefore(links, i) + one;
    TotalAppend(SegmentsBefore(links, i), one);
    assert Total(one) == one[0].length + Total([]);
  }

  lemma {:induction false} SegmentsBeforeBound(links: seq<Link>, i: nat, j: nat)
    requires 1 <= i <= j <= |links|
    ensures Total(SegmentsBefore(links, i)) <= Total(SegmentsBefore(links, j))
    decreases j
  {
    if i < j {
      SegmentsBeforeNext(links, j - 1);
      SegmentsBeforeBound(links, i, j - 1);
    }
  }

  function Total(segments: seq<Segment>): nat {
    if segments == [] then 0 else segments[0].length + Total(segments[1..])
  }

  lemma {:induction false} TotalAppend(a: seq<Segment>, b: seq<Segment>)
    ensures Total(a + b) == Total(a) + Total(b)
  {
    if a == [] {
      assert a + b == b;
    } else {
      assert (a + b)[1..] == a[1..] + b;
      TotalAppend(a[1..], b);
    }
  }

  // ----- Validation -----

  predicate LinkAccepted(link: Link, toGuest: bool) {
    0 < link.descriptor.length <= MAX_SEGMENT && Writable(link.descriptor) == toGuest
  }

  /** The byte offset of a transfer that lies within the capacity. */
  function DiskOffset(capacity: nat, sector: nat, bytes: nat): Option<nat> {
    if sector > U64_MAX / SECTOR || capacity > U64_MAX / SECTOR then None
    else if sector * SECTOR > U64_MAX - bytes || sector * SECTOR + bytes > capacity * SECTOR then None
    else Some(sector * SECTOR)
  }

  /** The overflow tests let through exactly the transfers that end within the capacity. */
  lemma DiskOffsetExact(capacity: nat, sector: nat, bytes: nat)
    requires capacity <= U64_MAX / SECTOR
    ensures DiskOffset(capacity, sector, bytes).Some? <==> sector * SECTOR + bytes <= capacity * SECTOR
  {
  }

  /** The offset of an accepted request; none if validation rejects it. */
  function Accepted(capacity: nat, links: seq<Link>, toGuest: bool, sector: nat): (r: Option<nat>)
    requires |links| >= 2
    ensures r.Some? ==> r.value + Total(Segments(links)) <= capacity * SECTOR
  {
    var total := Total(Segments(links));
    if exists i :: 1 <= i < |links| - 1 && !LinkAccepted(links[i], toGuest) then None
    else if total == 0 || total % SECTOR != 0 || total >= U32 then None
    else DiskOffset(capacity, sector, total)
  }

  /** Every data segment has bytes to move. */
  predicate NoneEmpty(links: seq<Link>) {
    forall i :: 1 <= i < |links| - 1 ==> links[i].descriptor.length > 0
  }

  /** Exactly which requests are accepted, on raw flags and numbers, and where on the disk they lie. */
  lemma AcceptedExact(capacity: nat, links: seq<Link>, toGuest: bool, sector: nat)
    requires |links| >= 2 && capacity <= U64_MAX / 512
    ensures var total := Total(Segments(links));
            && (Accepted(capacity, links, toGuest, sector).Some? <==>
                  && (forall i :: 1 <= i < |links| - 1 ==>
                        0 < links[i].descriptor.length <= 0x10_0000 &&
                        links[i].descriptor.flags / 2 % 2 == if toGuest then 1 else 0)
                  && 0 < total < U32 && total % 512 == 0 && sector * 512 + total <= capacity * 512)
            && (Accepted(capacity, links, toGuest, sector).Some? ==>
                  Accepted(capacity, links, toGuest, sector).value == sector * 512)
  {
    hide Total, Segments;
    DiskOffsetExact(capacity, sector, Total(Segments(links)));
    forall i | 1 <= i < |links| - 1
      ensures LinkAccepted(links[i], toGuest) <==>
              0 < links[i].descriptor.length <= 0x10_0000 && links[i].descriptor.flags / 2 % 2 == if toGuest then 1 else 0
    {
    }
  }

  // ----- What a transfer moves -----

  predicate AllMapped(m: Memory, segments: seq<Segment>) {
    forall s :: s in segments ==> Mapped(m, s.address, s.length)
  }

  /** The bytes of the segments, in order. */
  function Gather(m: Memory, segments: seq<Segment>): (b: seq<u8>)
    requires AllMapped(m, segments)
    ensures |b| == Total(segments)
  {
    if segments == [] then []
    else Load(m, segments[0].address, segments[0].length) + Gather(m, segments[1..])
  }

  /** Bytes laid out over the segments, in order. */
  function Scatter(m: Memory, segments: seq<Segment>, data: seq<u8>): (m': Memory)
    requires |data| == Total(segments)
    ensures m'.Keys == m.Keys
  {
    if segments == [] then m
    else
      var n := segments[0].length;
      Scatter(Store(m, segments[0].address, data[..n]), segments[1..], data[n..])
  }

  function Splice(disk: seq<u8>, offset: nat, data: seq<u8>): (d: seq<u8>)
    requires offset + |data| <= |disk|
    ensures |d| == |disk|
  {
    disk[..offset] + data + disk[offset + |data|..]
  }

  /** Equal outside a range. */
  ghost predicate SameOutside(a: seq<u8>, b: seq<u8>, offset: nat, length: nat) {
    |a| == |b| && forall i :: 0 <= i < |a| && !(offset <= i < offset + length) ==> a[i] == b[i]
  }

  lemma SpliceReadsBack(disk: seq<u8>, offset: nat, data: seq<u8>)
    requires offset + |data| <= |disk|
    ensures Splice(disk, offset, data)[offset..offset + |data|] == data
    ensures SameOutside(Splice(disk, offset, data), disk, offset, |data|)
  {
  }

  lemma SpliceMore(disk: seq<u8>, offset: nat, first: seq<u8>, second: seq<u8>)
    requires offset + |first| + |second| <= |disk|
    ensures Splice(Splice(disk, offset, first), offset + |first|, second) == Splice(disk, offset, first + second)
  {
    var a, b := Splice(Splice(disk, offset, first), offset + |first|, second), Splice(disk, offset, first + second);
    assert forall i :: 0 <= i < |disk| ==> a[i] == b[i];
  }

  lemma {:induction false} GatherAppend(m: Memory, a: seq<Segment>, b: seq<Segment>)
    requires AllMapped(m, a) && AllMapped(m, b)
    ensures AllMapped(m, a + b) && Gather(m, a + b) == Gather(m, a) + Gather(m, b)
  {
    hide Load;
    if a == [] {
      assert a + b == b;
    } else {
      assert (a + b)[1..] == a[1..] + b;
      GatherAppend(m, a[1..], b);
    }
  }

  lemma {:induction false} ScatterAppend(m: Memory, a: seq<Segment>, b: seq<Segment>, da: seq<u8>, db: seq<u8>)
    requires |da| == Total(a) && |db| == Total(b)
    ensures |da + db| == Total(a + b)
    ensures Scatter(m, a + b, da + db) == Scatter(Scatter(m, a, da), b, db)
  {
    TotalAppend(a, b);
    if a == [] {
      assert a + b == b && da + db == db;
    } else {
      var n := a[0].length;
      assert (a + b)[1..] == a[1..] + b && (da + db)[n..] == da[n..] + db && (da + db)[..n] == da[..n];
      ScatterAppend(Store(m, a[0].address, da[..n]), a[1..], b, da[n..], db);
    }
  }

  lemma ScatterOne(m: Memory, s: Segment, data: seq<u8>)
    requires |data| == s.length
    ensures Total([s]) == s.length && Scatter(m, [s], data) == Store(m, s.address, data)
  {
    hide Store;
    assert Total([s]) == s.length + Total([]);
    assert data[..s.length] == data && [s][1..] == [];
  }

  // ----- Round trip -----

  predicate Apart(s: Segment, t: Segment) {
    s.address + s.length <= t.address || t.address + t.length <= s.address
  }

  predicate PairwiseApart(segments: seq<Segment>) {
    forall i, j :: 0 <= i < j < |segments| ==> Apart(segments[i], segments[j])
  }

  /** Scattering leaves a range apart from all segments alone. */
  lemma {:induction false} ScatterElsewhere(m: Memory, segments: seq<Segment>, data: seq<u8>, other: Segment)
    requires |data| == Total(segments) && Mapped(m, other.address, other.length)
    requires forall s :: s in segments ==> Apart(s, other)
    ensures Mapped(Scatter(m, segments, data), other.address, other.length)
    ensures Load(Scatter(m, segments, data), other.address, other.length) == Load(m, other.address, other.length)
    decreases |segments|
  {
    hide Load, Store;
    if segments != [] {
      var n := segments[0].length;
      assert Apart(segments[0], other);
      LoadDisjoint(m, segments[0].address, data[..n], other.address, other.length);
      ScatterElsewhere(Store(m, segments[0].address, data[..n]), segments[1..], data[n..], other);
    }
  }

  /** Gathering what was scattered over disjoint segments gives the bytes back. */
  lemma {:induction false} GatherScattered(m: Memory, segments: seq<Segment>, data: seq<u8>)
    requires |data| == Total(segments) && AllMapped(m, segments) && PairwiseApart(segments)
    ensures AllMapped(Scatter(m, segments, data), segments)
    ensures Gather(Scatter(m, segments, data), segments) == data
    decreases |segments|
  {
    hide Load, Store;
    if segments != [] {
      var head, rest, n := segments[0], segments[1..], segments[0].length;
      var m1 := Store(m, head.address, data[..n]);
      assert Mapped(m, head.address, n);
      LoadStored(m, head.address, data[..n]);
      assert AllMapped(m1, rest) && PairwiseApart(rest);
      forall s | s in rest ensures Apart(s, head) {
        var i :| 0 <= i < |rest| && rest[i] == s;
        assert segments[i + 1] == s;
      }
      ScatterElsewhere(m1, rest, data[n..], head);
      GatherScattered(m1, rest, data[n..]);
      assert data == data[..n] + data[n..];
    }
  }

  /**
   Writing the bytes of any segments to the disk and reading the same range back into any other disjoint
   segments yields the same bytes, and no disk byte outside the range changes.
   */
  lemma WrittenIsReadBack(disk: seq<u8>, offset: nat, m: Memory, from: seq<Segment>, m': Memory, to: seq<Segment>)
    requires AllMapped(m, from) && AllMapped(m', to) && PairwiseApart(to)
    requires Total(from) == Total(to) && offset + Total(from) <= |disk|
    ensures var disk' := Splice(disk, offset, Gather(m, from));
            var after := Scatter(m', to, disk'[offset..offset + Total(to)]);
            && AllMapped(after, to) && Gather(after, to) == Gather(m, from)
            && SameOutside(disk', disk, offset, Total(from))
  {
    var disk' := Splice(disk, offset, Gather(m, from));
    SpliceReadsBack(disk, offset, Gather(m, from));
    GatherScattered(m', to, disk'[offset..offset + Total(to)]);
  }
}
