/** Extraction of the bootloader region from Intel HEX records (src/bootloader.rs:792-850). */
module HexRegion {
  import opened Bytes

  const IMAGE_START: nat := 0x000F_4000
  const IMAGE_SIZE: nat := 0x0000_A000
  const U32_MAX: nat := 0xFFFF_FFFF

  type U16 = x: int | 0 <= x < 0x1_0000

  /** The data of one record, whose length field is one byte. */
  type Payload = s: seq<byte> | |s| <= 255

  datatype Record =
    | Data(offset: U16, value: Payload)
    | ExtendedLinearAddress(upper: U16)
    | ExtendedSegmentAddress(segment: U16)
    | EndOfFile
    | StartAddress
    | Malformed

  datatype HexError =
    | MalformedRecord
    | AddressOverflow
    | RangeOverflow
    | Conflict(address: nat)
    | MissingEof
    | NoRegionData

  // ---- what the records mean ----

  /** Bytes at an absolute address. */
  datatype Placement = Placement(address: nat, value: seq<byte>)

  /** The address base in force behind these records. */
  function BaseAfter(records: seq<Record>): nat {
    if records == [] then 0 else
    match records[|records| - 1]
    case ExtendedLinearAddress(upper) => upper * 0x1_0000
    case ExtendedSegmentAddress(segment) => segment * 0x10
    case _ => BaseAfter(records[..|records| - 1])
  }

  /** The bytes the data records place, in file order. */
  function Placements(records: seq<Record>): seq<Placement> {
    if records == [] then [] else
    var init, last := records[..|records| - 1], records[|records| - 1];
    if last.Data? then Placements(init) + [Placement(BaseAfter(init) + last.offset, last.value)] else Placements(init)
  }

  /** p assigns a byte to place k of the region. */
  predicate Covers(p: Placement, k: int) {
    0 <= k < IMAGE_SIZE && p.address <= IMAGE_START + k < p.address + |p.value|
  }

  function ByteAt(p: Placement, k: int): byte
    requires Covers(p, k)
  {
    p.value[IMAGE_START + k - p.address]
  }

  /** No two placements disagree inside the region. */
  ghost predicate Consistent(ps: seq<Placement>) {
    forall p, q, k :: p in ps && q in ps && Covers(p, k) && Covers(q, k) ==> ByteAt(p, k) == ByteAt(q, k)
  }

  ghost predicate TouchesRegion(ps: seq<Placement>) {
    exists p, k :: p in ps && Covers(p, k)
  }

  /** The region holds what the placements assign, and erased bytes where they assign nothing. */
  ghost predicate Depicts(image: seq<byte>, ps: seq<Placement>) {
    && |image| == IMAGE_SIZE
    && (forall p, k :: p in ps && Covers(p, k) ==> image[k] == ByteAt(p, k))
    && (forall k :: 0 <= k < IMAGE_SIZE && (forall p :: p in ps ==> !Covers(p, k)) ==> image[k] == 0xFF)
  }

  ghost predicate InRange(ps: seq<Placement>) {
    forall p :: p in ps ==> p.address + |p.value| <= U32_MAX
  }

  /** The records before the first one that ends the file, or all of them. */
  function BeforeEof(records: seq<Record>): (r: seq<Record>)
    ensures r <= records
    ensures forall x :: x in r ==> !x.EndOfFile?
    ensures r == records || records[|r|].EndOfFile?
  {
    if records == [] || records[0].EndOfFile? then []
    else
      assert records == [records[0]] + records[1..];
      [records[0]] + BeforeEof(records[1..])
  }

  /** Well-formed records that stay within 32-bit addresses. */
  ghost predicate Clean(records: seq<Record>) {
    (forall x :: x in records ==> !x.Malformed?) && InRange(Placements(records))
  }

  // ---- the two buffers ----

  ghost predicate CoveredBy(ps: seq<Placement>, k: int) {
    exists p :: p in ps && Covers(p, k)
  }

  /** The image and its written marks after the placements ps. */
  ghost predicate Painted(image: seq<byte>, written: seq<bool>, ps: seq<Placement>) {
    && |image| == |written| == IMAGE_SIZE
    && (forall k :: 0 <= k < IMAGE_SIZE ==> (written[k] <==> CoveredBy(ps, k)))
    && (forall k :: 0 <= k < IMAGE_SIZE && !written[k] ==> image[k] == 0xFF)
    && (forall p, k :: p in ps && Covers(p, k) ==> image[k] == ByteAt(p, k))
  }

  /** The step from one pair of buffers to the next when p meets no conflict. */
  ghost predicate Stamped(image0: seq<byte>, written0: seq<bool>, image: seq<byte>, written: seq<bool>, p: Placement) {
    && |image0| == |written0| == |image| == |written| == IMAGE_SIZE
    && forall k :: 0 <= k < IMAGE_SIZE ==>
         if Covers(p, k) then written[k] && image[k] == ByteAt(p, k) && (written0[k] ==> image0[k] == ByteAt(p, k))
         else written[k] == written0[k] && image[k] == image0[k]
  }

  lemma PaintMore(image0: seq<byte>, written0: seq<bool>, image: seq<byte>, written: seq<bool>, ps: seq<Placement>,
                  p: Placement)
    requires Painted(image0, written0, ps) && Stamped(image0, written0, image, written, p)
    ensures Painted(image, written, ps + [p])
  {
    var all := ps + [p];
    forall k | 0 <= k < IMAGE_SIZE
      ensures written[k] <==> CoveredBy(all, k)
    {
      assert p in all;
      if CoveredBy(ps, k) {
        var q :| q in ps && Covers(q, k);
        assert q in all;
      }
    }
    forall q, k | q in all && Covers(q, k)
      ensures image[k] == ByteAt(q, k)
    {
      if q in ps {
        assert CoveredBy(ps, k);
        assert image0[k] == ByteAt(q, k);
      }
    }
  }

  lemma PaintedIsDepicted(image: seq<byte>, written: seq<bool>, ps: seq<Placement>)
    requires Painted(image, written, ps)
    ensures Depicts(image, ps) && Consistent(ps)
  {
    forall k | 0 <= k < IMAGE_SIZE && (forall p :: p in ps ==> !Covers(p, k))
      ensures image[k] == 0xFF
    {
      assert !CoveredBy(ps, k);
    }
  }

  /** Two placements disagree at this address. */
  ghost predicate Disputed(ps: seq<Placement>, address: int) {
    exists p, q :: p in ps && q in ps && Covers(p, address - IMAGE_START) && Covers(q, address - IMAGE_START) &&
                   ByteAt(p, address - IMAGE_START) != ByteAt(q, address - IMAGE_START)
  }

  lemma ConflictFound(image: seq<byte>, written: seq<bool>, ps: seq<Placement>, p: Placement, k: nat)
    requires Painted(image, written, ps) && Covers(p, k) && written[k] && image[k] != ByteAt(p, k)
    ensures Disputed(ps + [p], IMAGE_START + k)
  {
    assert CoveredBy(ps, k);
    var q :| q in ps && Covers(q, k);
    assert q in ps + [p] && p in ps + [p];
    assert Covers(q, IMAGE_START + k - IMAGE_START);
  }

  /** src/bootloader.rs:813-831: copies what a data record holds of the region, up to the first conflict. */
  method Stamp(image: array<byte>, written: array<bool>, p: Placement) returns (conflict: Option<nat>, inRegion: bool)
    requires image.Length == written.Length == IMAGE_SIZE
    modifies image, written
    ensures conflict.None? ==> Stamped(old(image[..]), old(written[..]), image[..], written[..], p)
    ensures conflict.Some? ==> IMAGE_START <= conflict.value && Covers(p, conflict.value - IMAGE_START)
    ensures conflict.Some? ==> old(written[..])[conflict.value - IMAGE_START]
    ensures conflict.Some? ==> old(image[..])[conflict.value - IMAGE_START] != ByteAt(p, conflict.value - IMAGE_START)
    ensures inRegion <==> exists k :: Covers(p, k)
  {
    var end := p.address + |p.value|;
    var copyStart := Max(p.address, IMAGE_START);
    var copyEnd := Min(end, IMAGE_START + IMAGE_SIZE);
    conflict := None;
    inRegion := copyStart < copyEnd;
    if inRegion {
      assert Covers(p, copyStart - IMAGE_START);
      var source := copyStart - p.address;
      var destination := copyStart - IMAGE_START;
      var length := copyEnd - copyStart;
      for index := 0 to length
        invariant forall k :: 0 <= k < destination || destination + index <= k < IMAGE_SIZE ==>
                    image[k] == old(image[k]) && written[k] == old(written[k])
        invariant forall k :: destination <= k < destination + index ==>
                    written[k] && image[k] == ByteAt(p, k) && (old(written[k]) ==> old(image[k]) == ByteAt(p, k))
      {
        var b := p.value[source + index];
        if written[destination + index] && image[destination + index] != b {
          return Some(copyStart + index), true;
        }
        image[destination + index] := b;
        written[destination + index] := true;
      }
    }
  }

  // ---- reading the records ----

  lemma {:induction false} PlacementsGrow(records: seq<Record>, i: nat)
    requires i <= |records|
    ensures Placements(records[..i]) <= Placements(records)
    decreases |records|
  {
    if i < |records| {
      PlacementsGrow(records[..|records| - 1], i);
      assert records[..|records| - 1][..i] == records[..i];
    } else {
      assert records[..i] == records;
    }
  }

  lemma DisputeStays(ps: seq<Placement>, qs: seq<Placement>, address: int)
    requires ps <= qs && Disputed(ps, address)
    ensures Disputed(qs, address) && !Consistent(qs)
  {
    var p, q :| p in ps && q in ps && Covers(p, address - IMAGE_START) && Covers(q, address - IMAGE_START) &&
                ByteAt(p, address - IMAGE_START) != ByteAt(q, address - IMAGE_START);
    assert p in qs && q in qs;
  }

  /** What each outcome says about the records up to the end-of-file record. The address of a data record
      never overflows by itself: no base exceeds 0xFFFF0000. */
  ghost predicate Explains(records: seq<Record>, r: Result<seq<byte>, HexError>) {
    var used := BeforeEof(records);
    var ps := Placements(used);
    match r
    case Ok(image) => used != records && Clean(used) && Consistent(ps) && TouchesRegion(ps) && Depicts(image, ps)
    case Err(Conflict(address)) => Disputed(ps, address)
    case Err(MissingEof) => used == records && Clean(used) && Consistent(ps)
    case Err(NoRegionData) => used != records && Clean(used) && Consistent(ps) && !TouchesRegion(ps)
    case Err(AddressOverflow) => false
    case Err(_) => !Clean(used)
  }

  /** Reading up to record i: the base, the buffers and the flags say what the records so far mean. */
  ghost predicate ReadUpTo(records: seq<Record>, i: nat, base: nat, image: seq<byte>, written: seq<bool>,
                           sawRegionData: bool) {
    && i <= |BeforeEof(records)|
    && base == BaseAfter(records[..i]) <= U32_MAX - 0xFFFF
    && Painted(image, written, Placements(records[..i]))
    && (sawRegionData <==> TouchesRegion(Placements(records[..i])))
    && Clean(records[..i])
  }

  lemma NothingRead(records: seq<Record>, image: seq<byte>, written: seq<bool>)
    requires |image| == |written| == IMAGE_SIZE
    requires forall k :: 0 <= k < IMAGE_SIZE ==> image[k] == 0xFF && !written[k]
    ensures ReadUpTo(records, 0, 0, image, written, false)
  {
    assert records[..0] == [];
  }

  /** Record i is the end-of-file record exactly when it is the first one behind the used records. */
  lemma AtRecord(records: seq<Record>, i: nat)
    requires i <= |BeforeEof(records)| && i < |records|
    ensures records[i].EndOfFile? <==> i == |BeforeEof(records)|
    ensures records[..i + 1][..i] == records[..i] && records[..i + 1][i] == records[i]
  {
    var used := BeforeEof(records);
    if i < |used| {
      assert used[i] in used;
    }
  }

  lemma UsedPrefix(records: seq<Record>, i: nat)
    requires i <= |BeforeEof(records)|
    ensures i <= |records| && Placements(records[..i]) <= Placements(BeforeEof(records))
    ensures forall x :: x in records[..i] ==> x in BeforeEof(records)
  {
    var used := BeforeEof(records);
    assert used[..i] == records[..i];
    PlacementsGrow(used, i);
  }

  /** A record without data moves the reading on. */
  lemma ReadOther(records: seq<Record>, i: nat, base: nat, image: seq<byte>, written: seq<bool>, saw: bool, base1: nat)
    requires i < |records| && ReadUpTo(records, i, base, image, written, saw)
    requires !records[i].Data? && !records[i].Malformed? && !records[i].EndOfFile?
    requires base1 == match records[i] {
                        case ExtendedLinearAddress(u) => u * 0x1_0000
                        case ExtendedSegmentAddress(g) => g * 0x10
                        case _ => base
                      }
    ensures ReadUpTo(records, i + 1, base1, image, written, saw)
  {
    hide Painted, TouchesRegion, InRange, BeforeEof;
    AtRecord(records, i);
    assert Placements(records[..i + 1]) == Placements(records[..i]);
    forall x | x in records[..i + 1] ensures !x.Malformed? {
      if x != records[i] { assert x in records[..i]; }
    }
  }

  /** A data record without conflict moves the reading on. */
  lemma ReadData(records: seq<Record>, i: nat, base: nat, image0: seq<byte>, written0: seq<bool>, saw: bool,
                 p: Placement, image: seq<byte>, written: seq<bool>, inRegion: bool)
    requires i < |records| && ReadUpTo(records, i, base, image0, written0, saw)
    requires records[i].Data? && p == Placement(base + records[i].offset, records[i].value)
    requires p.address + |p.value| <= U32_MAX
    requires Stamped(image0, written0, image, written, p) && (inRegion <==> exists k :: Covers(p, k))
    ensures ReadUpTo(records, i + 1, base, image, written, saw || inRegion)
  {
    AtRecord(records, i);
    var ps := Placements(records[..i]);
    assert Placements(records[..i + 1]) == ps + [p];
    assert BaseAfter(records[..i + 1]) == base;
    hide Painted, Stamped, BeforeEof, Covers, Placements, BaseAfter;
    PaintMore(image0, written0, image, written, ps, p);
    TouchesMore(ps, p);
    forall x | x in records[..i + 1] ensures !x.Malformed? {
      if x != records[i] { assert x in records[..i]; }
    }
    forall q | q in ps + [p] ensures q.address + |q.value| <= U32_MAX {
      if q != p { assert q in ps; }
    }
  }

  lemma TouchesMore(ps: seq<Placement>, p: Placement)
    ensures TouchesRegion(ps + [p]) <==> TouchesRegion(ps) || exists k :: Covers(p, k)
  {
    hide Covers;
    assert p in ps + [p];
    if TouchesRegion(ps) {
      var q, k :| q in ps && Covers(q, k);
      assert q in ps + [p];
    }
  }

  lemma MalformedRejected(records: seq<Record>, i: nat)
    requires i <= |BeforeEof(records)| && i < |records| && records[i].Malformed?
    ensures !Clean(BeforeEof(records))
  {
    AtRecord(records, i);
    UsedPrefix(records, i + 1);
    assert records[..i + 1][i] in records[..i + 1];
  }

  lemma LastPlacement(records: seq<Record>, p: Placement)
    requires records != [] && records[|records| - 1].Data?
    requires p == Placement(BaseAfter(records[..|records| - 1]) +
             records[|records| - 1].offset, records[|records| - 1].value)
    ensures Placements(records) == Placements(records[..|records| - 1]) + [p]
  {
  }

  lemma DataIsUsed(records: seq<Record>, i: nat, p: Placement)
    requires i <= |BeforeEof(records)| && i < |records| && records[i].Data?
    requires p == Placement(BaseAfter(records[..i]) + records[i].offset, records[i].value)
    ensures Placements(records[..i]) + [p] <= Placements(BeforeEof(records)) && p in Placements(BeforeEof(records))
  {
    hide BeforeEof, Placements, BaseAfter;
    AtRecord(records, i);
    UsedPrefix(records, i + 1);
    var ps, all := Placements(records[..i]), Placements(BeforeEof(records));
    LastPlacement(records[..i + 1], p);
    assert ps + [p] <= all;
    assert all[|ps|] == (ps + [p])[|ps|] == p;
  }

  /** A data record that overflows makes the used records unclean, one in conflict makes them disputed. */
  lemma DataRejected(records: seq<Record>, i: nat, base: nat, image: seq<byte>, written: seq<bool>, saw: bool,
                     p: Placement)
    requires i < |records| && ReadUpTo(records, i, base, image, written, saw) && records[i].Data?
    requires |image| == |written| == IMAGE_SIZE
    requires p == Placement(base + records[i].offset, records[i].value)
    ensures p.address + |p.value| > U32_MAX ==> !Clean(BeforeEof(records))
    ensures forall k :: Covers(p, k) && written[k] && image[k] != ByteAt(p, k) ==>
                    Disputed(Placements(BeforeEof(records)), IMAGE_START + k)
  {
    hide Painted, BeforeEof, TouchesRegion, Placements, BaseAfter, Disputed, Covers, ByteAt, Consistent;
    DataIsUsed(records, i, p);
    var all, ps := Placements(BeforeEof(records)), Placements(records[..i]);
    forall k | Covers(p, k) && (k >= 0 && k < IMAGE_SIZE ==> written[k] && image[k] != ByteAt(p, k))
      ensures Disputed(all, IMAGE_START + k)
    {
      ConflictUsed(image, written, ps, p, all, k);
    }
    CoversRegion(p);
  }

  lemma CoversRegion(p: Placement)
    ensures forall k :: Covers(p, k) ==> 0 <= k < IMAGE_SIZE
  {
  }

  lemma ConflictUsed(image: seq<byte>, written: seq<bool>, ps: seq<Placement>, p: Placement, all: seq<Placement>,
                     k: int)
    requires Painted(image, written, ps) && |image| == |written| == IMAGE_SIZE && Covers(p, k)
    requires k >= 0 && k < IMAGE_SIZE ==> written[k] && image[k] != ByteAt(p, k)
    requires ps + [p] <= all
    ensures Disputed(all, IMAGE_START + k)
  {
    hide Painted, Disputed, ByteAt;
    ConflictFound(image, written, ps, p, k);
    DisputeStays(ps + [p], all, IMAGE_START + k);
  }

  lemma AllRead(records: seq<Record>, i: nat, base: nat, image: seq<byte>, written: seq<bool>, saw: bool)
    requires ReadUpTo(records, i, base, image, written, saw) && (i == |records| || records[i].EndOfFile?)
    ensures Explains(records, if i == |records| then Err(MissingEof) else if !saw then Err(NoRegionData) else Ok(image))
  {
    var used := BeforeEof(records);
    if i < |records| {
      AtRecord(records, i);
    }
    assert records[..i] == used;
    PaintedIsDepicted(image, written, Placements(used));
  }

  /** src/bootloader.rs:794-850 */
  method ExtractRegion(records: seq<Record>) returns (r: Result<seq<byte>, HexError>)
    ensures Explains(records, r)
  {
    hide ReadUpTo, Stamped, Covers, Clean, Disputed, Placements, Painted, BeforeEof;
    var image := new byte[IMAGE_SIZE](_ => 0xFF);
    var written := new bool[IMAGE_SIZE](_ => false);
    var base := 0;
    var sawRegionData := false;
    NothingRead(records, image[..], written[..]);
    var i := 0;
    while i < |records| && !records[i].EndOfFile?
      invariant 0 <= i <= |records| && 0 <= base
      invariant ReadUpTo(records, i, base, image[..], written[..], sawRegionData)
    {
      BaseFits(records, i, base, image[..], written[..], sawRegionData);
      ghost var image0, written0 := image[..], written[..];
      match records[i] {
        case Data(offset, value) =>
          var address := base + offset;
          if address > U32_MAX {
            return Err(AddressOverflow);
          }
          var p := Placement(address, value);
          DataRejected(records, i, base, image0, written0, sawRegionData, p);
          if address + |value| > U32_MAX {
            return Err(RangeOverflow);
          }
          var conflict, inRegion := Stamp(image, written, p);
          if conflict.Some? {
            return Err(Conflict(conflict.value));
          }
          ReadData(records, i, base, image0, written0, sawRegionData, p, image[..], written[..], inRegion);
          sawRegionData := sawRegionData || inRegion;
        case ExtendedLinearAddress(upper) =>
          ReadOther(records, i, base, image0, written0, sawRegionData, upper * 0x1_0000);
          base := upper * 0x1_0000;
        case ExtendedSegmentAddress(segment) =>
          ReadOther(records, i, base, image0, written0, sawRegionData, segment * 0x10);
          base := segment * 0x10;
        case StartAddress =>
          ReadOther(records, i, base, image0, written0, sawRegionData, base);
        case Malformed =>
          MalformedRejected(records, i);
          return Err(MalformedRecord);
      }
      i := i + 1;
    }
    AllRead(records, i, base, image[..], written[..], sawRegionData);
    if i == |records| {
      r := Err(MissingEof);
    } else if !sawRegionData {
      r := Err(NoRegionData);
    } else {
      r := Ok(image[..]);
    }
  }

  lemma BaseFits(records: seq<Record>, i: nat, base: nat, image: seq<byte>, written: seq<bool>, saw: bool)
    requires i < |records| && ReadUpTo(records, i, base, image, written, saw)
    ensures base <= U32_MAX - 0xFFFF && i <= |BeforeEof(records)|
  {
  }

  /** Of well-formed records within 32-bit addresses, a conflict is reported exactly when two disagree inside the
      region, with or without an end-of-file record. */
  lemma ConflictExactly(records: seq<Record>, r: Result<seq<byte>, HexError>)
    requires Explains(records, r) && Clean(BeforeEof(records))
    ensures (r.Err? && r.error.Conflict?) <==> !Consistent(Placements(BeforeEof(records)))
  {
  }

  /** Acceptance and result depend only on which bytes are placed where, not on the order of the records. */
  lemma OrderIrrelevant(a: seq<Record>, b: seq<Record>, ra: Result<seq<byte>, HexError>, rb: Result<seq<byte>,
                        HexError>)
    requires Explains(a, ra) && Explains(b, rb)
    requires BeforeEof(a) != a && BeforeEof(b) != b && Clean(BeforeEof(a)) && Clean(BeforeEof(b))
    requires forall p :: p in Placements(BeforeEof(a)) <==> p in Placements(BeforeEof(b))
    ensures ra.Ok? <==> rb.Ok?
    ensures ra.Ok? ==> ra.value == rb.value
    ensures (ra.Err? && ra.error.Conflict?) <==> !Consistent(Placements(BeforeEof(a)))
  {
    var ps, qs := Placements(BeforeEof(a)), Placements(BeforeEof(b));
    assert Consistent(ps) <==> Consistent(qs);
    assert TouchesRegion(ps) <==> TouchesRegion(qs);
    if ra.Ok? && rb.Ok? {
      forall k | 0 <= k < IMAGE_SIZE ensures ra.value[k] == rb.value[k] {
        if p :| p in ps && Covers(p, k) {
        } else {
          assert forall q :: q in qs ==> !Covers(q, k);
        }
      }
    }
  }

  // ---- absolute addresses ----

  predicate MovesBase(x: Record) {
    x.ExtendedLinearAddress? || x.ExtendedSegmentAddress?
  }

  /** Records that do not move the base leave it alone. */
  lemma {:induction false} BaseStays(records: seq<Record>, more: seq<Record>)
    requires forall x :: x in more ==> !MovesBase(x)
    ensures BaseAfter(records + more) == BaseAfter(records)
    decreases |more|
  {
    if more == [] {
      assert records + more == records;
    } else {
      var init, last := more[..|more| - 1], more[|more| - 1];
      BaseStays(records, init);
      assert (records + more)[..|records + more| - 1] == records + init;
      assert last in more;
    }
  }

  /** Where a data record lands: its offset counts from 65536 times the last linear address or 16 times the last
      segment address, whichever came last, and from 0 before the first of them. */
  lemma LandsAt(front: seq<Record>, moves: Record, between: seq<Record>, offset: U16, value: Payload)
    requires forall x :: x in between ==> !MovesBase(x)
    ensures var data := [Data(offset, value)];
            && (moves.ExtendedLinearAddress? ==>
                  Placements(front + [moves] + between + data) ==
                  Placements(front + [moves] + between) + [Placement(moves.upper * 65536 + offset, value)])
            && (moves.ExtendedSegmentAddress? ==>
                  Placements(front + [moves] + between + data) ==
                  Placements(front + [moves] + between) + [Placement(moves.segment * 16 + offset, value)])
            && Placements(between + data) == Placements(between) + [Placement(offset, value)]
  {
    BaseBehind(front, moves, between);
    hide Placements, BaseAfter;
    DataLast(front + [moves] + between, offset, value);
    DataLast(between, offset, value);
  }

  lemma BaseBehind(front: seq<Record>, moves: Record, between: seq<Record>)
    requires forall x :: x in between ==> !MovesBase(x)
    ensures moves.ExtendedLinearAddress? ==> BaseAfter(front + [moves] + between) == moves.upper * 65536
    ensures moves.ExtendedSegmentAddress? ==> BaseAfter(front + [moves] + between) == moves.segment * 16
    ensures BaseAfter(between) == 0
  {
    BaseStays(front + [moves], between);
    BaseStays([], between);
    assert [] + between == between;
    assert (front + [moves])[|front|] == moves;
  }

  lemma DataLast(records: seq<Record>, offset: U16, value: Payload)
    ensures Placements(records + [Data(offset, value)]) ==
            Placements(records) + [Placement(BaseAfter(records) + offset, value)]
  {
    hide BaseAfter;
    assert (records + [Data(offset, value)])[..|records|] == records;
  }
}
