/** The two patch encoders (src/encode.rs:28-120) against the decoders of whole patches. */
module Encode {
  import opened Bytes
  import opened Varint
  import opened Crle
  import opened PatchFormat
  import opened Bsdiff

  const PATCH_TYPE_SEQUENTIAL: nat := 0
  const PATCH_TYPE_IN_PLACE: nat := 1
  const COMPRESSION_CRLE: nat := 2

  function HeaderByte(patchType: nat): byte
    requires patchType < 8
  {
    patchType * 16 + COMPRESSION_CRLE
  }

  // ---- the decoder of a whole sequential patch ----

  /** The rest of a body behind its data-format marker, which must be "none". */
  function SkipDataFormat(s: seq<byte>): (r: Option<seq<byte>>)
    ensures r.Some? ==> |r.value| < |s|
  {
    match DecodeSize(s)
    case Some((0, rest)) => Some(rest)
    case _ => None
  }

  /** The target a sequential patch rebuilds; None unless every byte of the patch is accounted for. */
  function DecodeSequential(base: seq<byte>, patch: seq<byte>): Option<seq<byte>> {
    if patch == [] || patch[0] != HeaderByte(PATCH_TYPE_SEQUENTIAL) then None else
    match DecodeSize(patch[1..])
    case None => None
    case Some((toSize, compressed)) =>
      if toSize < 0 then None else
      match Decompress(compressed)
      case None => None
      case Some(body) =>
        match SkipDataFormat(body)
        case None => None
        case Some(stream) =>
          match Rebuild(base, 0, toSize, stream)
          case None => None
          case Some((target, rest)) => if rest == [] then Some(target) else None
  }

  lemma SkipsDataFormat(rest: seq<byte>)
    ensures SkipDataFormat(EncodeSize(0) + rest) == Some(rest)
  {
    SizeRoundTrip(0, rest);
  }

  /** src/encode.rs:45-57 */
  method EncodeSequential(from: seq<byte>, to: seq<byte>) returns (patch: seq<byte>)
    ensures DecodeSequential(from, patch) == Some(to)
    ensures [0x02] + EncodeSize(|to|) <= patch
  {
    hide Compresses, Rebuilds, DecodeSize, EncodeSize, DecodeSequential;
    patch := [HeaderByte(PATCH_TYPE_SEQUENTIAL)];
    var size := PackSize(|to|);
    patch := patch + size;
    var body := PackSize(0);
    ghost var marker := body;
    if to != [] {
      body := AppendDiff(from, to, body);
    }
    ghost var stream := body[|marker|..];
    assert body == marker + stream;
    if to == [] {
      NothingToRebuild(from);
    }
    var compressed := CrleCompress(body);
    patch := patch + compressed;
    SequentialDecodes(from, to, patch, compressed, body, stream);
  }

  lemma NothingToRebuild(from: seq<byte>)
    ensures Rebuilds(from, [], [])
  {
    forall tail: seq<byte>
      ensures Rebuild(from, 0, 0, [] + tail) == Some(([], tail))
    {
      assert [] + tail == tail;
    }
  }

  lemma SequentialDecodes(from: seq<byte>, to: seq<byte>, patch: seq<byte>, compressed: seq<byte>, body: seq<byte>,
                          stream: seq<byte>)
    requires patch == [HeaderByte(PATCH_TYPE_SEQUENTIAL)] + EncodeSize(|to|) + compressed
    requires body == EncodeSize(0) + stream && Rebuilds(from, to, stream) && Compresses(compressed, body)
    ensures DecodeSequential(from, patch) == Some(to)
  {
    hide EncodeSize, DecodeSize, Rebuild, Decompress, Canonical, SkipDataFormat;
    assert patch[1..] == EncodeSize(|to|) + compressed;
    SizeRoundTrip(|to|, compressed);
    SkipsDataFormat(stream);
    assert stream + [] == stream;
  }

  // ---- the decoder of a whole in-place patch ----

  datatype InPlaceHeader = InPlaceHeader(memory: int, segment: int, shift: int, fromSize: int, toSize: int)

  function ReadInPlaceHeader(patch: seq<byte>): Option<(InPlaceHeader, seq<byte>)> {
    if patch == [] || patch[0] != HeaderByte(PATCH_TYPE_IN_PLACE) then None else
    match DecodeSize(patch[1..])
    case None => None
    case Some((memory, s1)) =>
      match DecodeSize(s1)
      case None => None
      case Some((segment, s2)) =>
        match DecodeSize(s2)
        case None => None
        case Some((shift, s3)) =>
          match DecodeSize(s3)
          case None => None
          case Some((fromSize, s4)) =>
            match DecodeSize(s4)
            case None => None
            case Some((toSize, s5)) => Some((InPlaceHeader(memory, segment, shift, fromSize, toSize), s5))
  }

  function HeaderBytes(h: InPlaceHeader): seq<byte> {
    [HeaderByte(PATCH_TYPE_IN_PLACE)] + EncodeSize(h.memory) + EncodeSize(h.segment) + EncodeSize(h.shift)
    + EncodeSize(h.fromSize) + EncodeSize(h.toSize)
  }

  lemma ReadsInPlaceHeader(h: InPlaceHeader, rest: seq<byte>)
    ensures ReadInPlaceHeader(HeaderBytes(h) + rest) == Some((h, rest))
  {
    hide EncodeSize, DecodeSize;
    var s4 := EncodeSize(h.toSize) + rest;
    var s3 := EncodeSize(h.fromSize) + s4;
    var s2 := EncodeSize(h.shift) + s3;
    var s1 := EncodeSize(h.segment) + s2;
    var s0 := EncodeSize(h.memory) + s1;
    SizeRoundTrip(h.memory, s1);
    SizeRoundTrip(h.segment, s2);
    SizeRoundTrip(h.shift, s3);
    SizeRoundTrip(h.fromSize, s4);
    SizeRoundTrip(h.toSize, rest);
    assert (HeaderBytes(h) + rest)[1..] == s0;
  }

  /** The memory after its lowest n bytes have been copied `shift` upwards. */
  function ShiftUp(mem: seq<byte>, shift: nat, n: nat): (r: seq<byte>)
    requires shift + n <= |mem|
    ensures |r| == |mem| && r[shift..shift + n] == mem[..n]
  {
    mem[..shift] + mem[..n] + mem[shift + n..]
  }

  /** The lowest address at which the segment written at `at` finds base bytes. */
  function BaseAddress(at: nat, seg: nat, shift: nat): nat {
    if at + seg >= shift then at + seg else shift
  }

  /** Rebuilds the segment at address `at`, in place; `end` is the address behind the shifted base. */
  function RebuildSegment(mem: seq<byte>, at: nat, seg: nat, shift: nat, end: nat, toSize: nat, s: seq<byte>)
    : (r: Option<(seq<byte>, seq<byte>)>)
    requires at < toSize
    ensures r.Some? ==> |r.value.0| == |mem| && |r.value.1| < |s|
  {
    match SkipDataFormat(s)
    case None => None
    case Some(stream) =>
      var lo := BaseAddress(at, seg, shift);
      var hi := if lo <= end then end else lo;
      RebuildInPlace(mem, lo, hi, lo, at, Min(seg, toSize - at), stream)
  }

  /** Rebuilds the segments from address `at` on. */
  function RebuildSegments(mem: seq<byte>, at: nat, seg: nat, shift: nat, end: nat, toSize: nat, s: seq<byte>)
    : (r: Option<(seq<byte>, seq<byte>)>)
    ensures r.Some? ==> |r.value.0| == |mem|
    decreases |s|
  {
    if at >= toSize then Some((mem, s)) else
    match RebuildSegment(mem, at, seg, shift, end, toSize, s)
    case None => None
    case Some((mem1, rest)) => RebuildSegments(mem1, at + seg, seg, shift, end, toSize, rest)
  }

  /** The memory an in-place patch leaves behind; None when it does not fit this memory, reads a base byte
      that is not there, or leaves part of the patch unread. */
  function DecodeInPlace(mem: seq<byte>, patch: seq<byte>): (r: Option<seq<byte>>)
    ensures r.Some? ==> |r.value| == |mem|
  {
    match ReadInPlaceHeader(patch)
    case None => None
    case Some((h, compressed)) =>
      if h.memory != |mem| || h.segment <= 0 || !(0 <= h.shift <= |mem|) || h.fromSize < 0 || h.toSize < 0 then None
      else if h.toSize == 0 then if compressed == [] then Some(mem) else None
      else
        var n := Min(h.fromSize, |mem| - h.shift);
        match Decompress(compressed)
        case None => None
        case Some(stream) =>
          match RebuildSegments(ShiftUp(mem, h.shift, n), 0, h.segment, h.shift, h.shift + n, h.toSize, stream)
          case None => None
          case Some((result, rest)) => if rest == [] then Some(result) else None
  }

  // ---- the encoder ----

  /** src/encode.rs:110-120 */
  function CalcShift(memory: nat, segment: nat, minimumShift: nat, fromSize: nat): nat
    requires segment > 0
  {
    var memorySegments := DivCeil(memory, segment);
    var fromSegments := DivCeil(fromSize, segment);
    var shiftSegments := if memorySegments >= fromSegments then memorySegments - fromSegments else 0;
    Max(shiftSegments * segment, minimumShift)
  }

  lemma ExactCeil(q: nat, d: nat)
    requires d > 0
    ensures DivCeil(q * d, d) == q
  {
    assert q * d + (d - 1) == d * q + (d - 1);
    var r := DivCeil(q * d, d);
    if r < q { MulMono(r + 1, q, d); }
    if r > q { MulMono(q + 1, r, d); }
  }

  /** The shift is at least two segments, and stays inside the memory exactly when the memory has two: without
      them the encoder's subtraction of the shift underflows. */
  lemma ShiftFits(segments: nat, segment: nat, fromSize: nat)
    requires segment > 0
    ensures 2 * segment <= CalcShift(segments * segment, segment, 2 * segment, fromSize)
    ensures CalcShift(segments * segment, segment, 2 * segment, fromSize) <= segments * segment <==> segments >= 2
  {
    ExactCeil(segments, segment);
    var f := DivCeil(fromSize, segment);
    if segments >= f {
      MulMono(segments - f, segments, segment);
    }
    if segments >= 2 {
      MulMono(2, segments, segment);
    } else {
      MulMono(segments + 1, 2, segment);
    }
  }

  /** Where the k-th segment starts. */
  function Offset(k: nat, seg: nat): nat { k * seg }

  lemma NextOffset(k: nat, seg: nat)
    ensures Offset(k + 1, seg) == Offset(k, seg) + seg && Offset(0, seg) == 0
  {
  }

  /** A whole number of segments leaves room for one more below the memory's end. */
  lemma RoomForSegment(segments: nat, segment: nat, k: nat)
    requires segment > 0 && Offset(k, segment) < Offset(segments, segment)
    ensures Offset(k, segment) + segment <= Offset(segments, segment)
  {
    if k >= segments {
      MulMono(segments, k, segment);
    } else {
      MulMono(k + 1, segments, segment);
    }
  }

  /** The parts of both images that the segment written at `at` is coded from. */
  function SegmentBase(fromData: seq<byte>, at: nat, seg: nat, shift: nat): seq<byte> {
    var offset := BaseAddress(at, seg, shift) - shift;
    if offset <= |fromData| then fromData[offset..] else []
  }

  function SegmentTarget(to: seq<byte>, at: nat, seg: nat): (t: seq<byte>)
    requires at <= |to|
    ensures |t| == Min(seg, |to| - at)
  {
    to[at..Min(at + seg, |to|)]
  }

  /** The coded segments, each behind its data-format marker. */
  function Joined(streams: seq<seq<byte>>): seq<byte> {
    if streams == [] then [] else EncodeSize(0) + streams[0] + Joined(streams[1..])
  }

  lemma {:induction false} JoinedAppend(streams: seq<seq<byte>>, stream: seq<byte>)
    ensures Joined(streams + [stream]) == Joined(streams) + EncodeSize(0) + stream
    decreases |streams|
  {
    hide EncodeSize;
    if streams == [] {
      assert streams + [stream] == [stream] && [stream][1..] == [];
      assert Joined([stream]) == EncodeSize(0) + stream + [];
    } else {
      assert (streams + [stream])[1..] == streams[1..] + [stream];
      JoinedAppend(streams[1..], stream);
    }
  }

  /** Every stream rebuilds its segment of the target; the first of them is written at `at`. */
  ghost predicate Coded(fromData: seq<byte>, to: seq<byte>, at: nat, seg: nat, shift: nat, streams: seq<seq<byte>>)
    decreases |streams|
  {
    if streams == [] then at >= |to|
    else
      && at < |to|
      && Rebuilds(SegmentBase(fromData, at, seg, shift), SegmentTarget(to, at, seg), streams[0])
      && Coded(fromData, to, at + seg, seg, shift, streams[1..])
  }

  /** The target as far as it is written, at the bottom of memory. */
  ghost predicate TargetBelow(mem: seq<byte>, to: seq<byte>, at: nat) {
    var done := Min(at, |to|);
    done <= |mem| && mem[..done] == to[..done]
  }

  /** Every base byte that the segment at `at` or a later one may read, still in place. */
  ghost predicate BaseAbove(mem: seq<byte>, fromData: seq<byte>, at: nat, seg: nat, shift: nat) {
    var lo, end := BaseAddress(at, seg, shift), shift + |fromData|;
    end <= |mem| && (lo <= end ==> mem[lo..end] == fromData[lo - shift..])
  }

  ghost predicate Underway(mem: seq<byte>, fromData: seq<byte>, to: seq<byte>, at: nat, seg: nat, shift: nat) {
    TargetBelow(mem, to, at) && BaseAbove(mem, fromData, at, seg, shift)
  }

  lemma TargetStaysBelow(mem: seq<byte>, to: seq<byte>, at: nat, seg: nat)
    requires TargetBelow(mem, to, at) && at < |to| && at + seg <= |mem|
    ensures TargetBelow(Stored(mem, at, SegmentTarget(to, at, seg)), to, at + seg)
  {
    var t := SegmentTarget(to, at, seg);
    TargetGrows(mem, to, at, t);
    assert Min(at + seg, |to|) == at + |t|;
  }

  lemma BaseStaysAbove(mem: seq<byte>, fromData: seq<byte>, t: seq<byte>, at: nat, seg: nat, shift: nat)
    requires BaseAbove(mem, fromData, at, seg, shift) && at + seg <= |mem| && |t| <= seg
    ensures BaseAbove(Stored(mem, at, t), fromData, at + seg, seg, shift)
  {
    hide Stored;
    var lo, next, end := BaseAddress(at, seg, shift), BaseAddress(at + seg, seg, shift), shift + |fromData|;
    if next <= end {
      StoredBelow(mem, at, t, next, end);
      BaseRemains(mem, fromData, lo, next, shift);
    }
  }

  /** Writing a segment leaves later segments' base bytes alone: all it writes lies below at + seg. */
  lemma SegmentWritten(mem: seq<byte>, fromData: seq<byte>, to: seq<byte>, at: nat, seg: nat, shift: nat)
    requires Underway(mem, fromData, to, at, seg, shift)
    requires at < |to| && at + seg <= |mem| && seg > 0
    ensures Underway(Stored(mem, at, SegmentTarget(to, at, seg)), fromData, to, at + seg, seg, shift)
  {
    hide TargetBelow, BaseAbove, Stored;
    TargetStaysBelow(mem, to, at, seg);
    BaseStaysAbove(mem, fromData, SegmentTarget(to, at, seg), at, seg, shift);
  }

  lemma TargetGrows(mem: seq<byte>, to: seq<byte>, at: nat, t: seq<byte>)
    requires at + |t| <= |to| && at + |t| <= |mem| && mem[..at] == to[..at] && t == to[at..at + |t|]
    ensures Stored(mem, at, t)[..at + |t|] == to[..at + |t|]
  {
    assert to[..at + |t|] == to[..at] + t;
    assert Stored(mem, at, t)[..at + |t|] == mem[..at] + t;
  }

  lemma BaseRemains(mem: seq<byte>, fromData: seq<byte>, lo: nat, next: nat, shift: nat)
    requires shift <= lo <= next <= shift + |fromData| <= |mem|
    requires mem[lo..shift + |fromData|] == fromData[lo - shift..]
    ensures mem[next..shift + |fromData|] == fromData[next - shift..]
  {
    assert mem[next..shift + |fromData|] == mem[lo..shift + |fromData|][next - lo..];
    assert fromData[next - shift..] == fromData[lo - shift..][next - lo..];
  }

  /** The decoder on one coded segment: it stores that segment of the target and goes on behind it. */
  lemma SegmentDecodes(mem: seq<byte>, fromData: seq<byte>, to: seq<byte>, at: nat, seg: nat, shift: nat,
                       stream: seq<byte>, rest: seq<byte>)
    requires seg > 0 && at < |to| && at + seg <= |mem| && shift <= |mem|
    requires Underway(mem, fromData, to, at, seg, shift)
    requires Rebuilds(SegmentBase(fromData, at, seg, shift), SegmentTarget(to, at, seg), stream)
    ensures RebuildSegment(mem, at, seg, shift, shift + |fromData|, |to|, EncodeSize(0) + (stream + rest)) ==
            Some((Stored(mem, at, SegmentTarget(to, at, seg)), rest))
  {
    hide Rebuilds, RebuildInPlace, SkipDataFormat, EncodeSize, Stored, SegmentBase, SegmentTarget, BaseAbove,
         TargetBelow;
    var lo, end := BaseAddress(at, seg, shift), shift + |fromData|;
    var hi := if lo <= end then end else lo;
    var t := SegmentTarget(to, at, seg);
    BaseRegion(mem, fromData, at, seg, shift);
    RegionRebuilds(mem, lo, hi, at, t, stream, rest);
    SkipsDataFormat(stream + rest);
  }

  lemma RegionRebuilds(mem: seq<byte>, lo: nat, hi: nat, at: nat, t: seq<byte>, stream: seq<byte>, rest: seq<byte>)
    requires at + |t| <= lo <= hi <= |mem| && Rebuilds(mem[lo..hi], t, stream)
    ensures RebuildInPlace(mem, lo, hi, lo, at, |t|, stream + rest) == Some((Stored(mem, at, t), rest))
  {
    hide Rebuild, RebuildInPlace, Stored;
    assert Rebuild(mem[lo..hi], 0, |t|, stream + rest) == Some((t, rest));
    InPlaceRefines(mem, lo, hi, 0, at, |t|, stream + rest);
  }

  lemma BaseRegion(mem: seq<byte>, fromData: seq<byte>, at: nat, seg: nat, shift: nat)
    requires BaseAbove(mem, fromData, at, seg, shift) && at + seg <= |mem| && shift <= |mem|
    ensures var lo, end := BaseAddress(at, seg, shift), shift + |fromData|;
            var hi := if lo <= end then end else lo;
            hi <= |mem| && mem[lo..hi] == SegmentBase(fromData, at, seg, shift)
  {
  }

  /** Decoding the segments in place yields the target, whatever else the memory held. */
  lemma {:induction false} SegmentsDecode(mem: seq<byte>, fromData: seq<byte>, to: seq<byte>, k: nat, at: nat, seg: nat,
                                          shift: nat, segments: nat, streams: seq<seq<byte>>, tail: seq<byte>)
    requires seg > 0 && at == Offset(k, seg) && |mem| == Offset(segments, seg) && |to| <= |mem| && shift <= |mem|
    requires Underway(mem, fromData, to, at, seg, shift) && Coded(fromData, to, at, seg, shift, streams)
    ensures var r := RebuildSegments(mem, at, seg, shift, shift + |fromData|, |to|, Joined(streams) + tail);
            r.Some? && r.value.1 == tail && r.value.0[..|to|] == to
    decreases |streams|
  {
    hide RebuildSegment, RebuildSegments, EncodeSize, Rebuilds, SegmentTarget, SegmentBase, Stored, Offset;
    if streams == [] {
      assert Joined(streams) + tail == tail;
      SegmentsDone(mem, at, seg, shift, shift + |fromData|, |to|, tail);
    } else {
      assert at < |to|;
      RoomForSegment(segments, seg, k);
      var rest := Joined(streams[1..]) + tail;
      JoinedFirst(streams, tail);
      hide Joined;
      SegmentDecodes(mem, fromData, to, at, seg, shift, streams[0], rest);
      SegmentWritten(mem, fromData, to, at, seg, shift);
      hide Underway;
      NextOffset(k, seg);
      var mem1 := Stored(mem, at, SegmentTarget(to, at, seg));
      FirstSegment(mem, at, seg, shift, shift + |fromData|, |to|, EncodeSize(0) + (streams[0] + rest), mem1, rest);
      SegmentsDecode(mem1, fromData, to, k + 1, at + seg, seg, shift, segments, streams[1..], tail);
    }
  }

  lemma JoinedFirst(streams: seq<seq<byte>>, tail: seq<byte>)
    requires streams != []
    ensures Joined(streams) + tail == EncodeSize(0) + (streams[0] + (Joined(streams[1..]) + tail))
  {
    hide EncodeSize;
  }

  lemma FirstSegment(mem: seq<byte>, at: nat, seg: nat, shift: nat, end: nat, toSize: nat, s: seq<byte>,
                     mem1: seq<byte>, rest: seq<byte>)
    requires at < toSize && RebuildSegment(mem, at, seg, shift, end, toSize, s) == Some((mem1, rest))
    ensures RebuildSegments(mem, at, seg, shift, end, toSize, s) ==
            RebuildSegments(mem1, at + seg, seg, shift, end, toSize, rest)
  {
    hide RebuildSegment;
  }

  lemma SegmentsDone(mem: seq<byte>, at: nat, seg: nat, shift: nat, end: nat, toSize: nat, s: seq<byte>)
    requires at >= toSize
    ensures RebuildSegments(mem, at, seg, shift, end, toSize, s) == Some((mem, s))
  {
  }

  /** stream codes the k-th segment. */
  ghost predicate SegmentCoded(fromData: seq<byte>, to: seq<byte>, k: nat, seg: nat, shift: nat, stream: seq<byte>) {
    && Offset(k, seg) < |to|
    && Rebuilds(SegmentBase(fromData, Offset(k, seg), seg, shift), SegmentTarget(to, Offset(k, seg), seg), stream)
  }

  lemma {:induction false} AllCoded(fromData: seq<byte>, to: seq<byte>, k: nat, seg: nat, shift: nat,
                                    streams: seq<seq<byte>>)
    requires k <= |streams| && Offset(|streams|, seg) >= |to|
    requires forall j :: 0 <= j < |streams| ==> SegmentCoded(fromData, to, j, seg, shift, streams[j])
    ensures Coded(fromData, to, Offset(k, seg), seg, shift, streams[k..])
    decreases |streams| - k
  {
    hide Rebuilds, Offset, SegmentBase, SegmentTarget;
    if k < |streams| {
      AllCoded(fromData, to, k + 1, seg, shift, streams);
      assert streams[k..][1..] == streams[k + 1..];
      assert SegmentCoded(fromData, to, k, seg, shift, streams[k]);
      NextOffset(k, seg);
    }
  }

  /** The memory starts with the base, or with as much of it as fits. */
  ghost predicate HoldsBase(mem: seq<byte>, from: seq<byte>) {
    from[..Min(|from|, |mem|)] <= mem
  }

  /** Right after the shift, all of the surviving base is in place. */
  lemma ShiftedBase(mem: seq<byte>, from: seq<byte>, to: seq<byte>, seg: nat, shift: nat, n: nat)
    requires HoldsBase(mem, from) && shift + n <= |mem| && n <= |from|
    ensures Underway(ShiftUp(mem, shift, n), from[..n], to, 0, seg, shift)
  {
    var mem1 := ShiftUp(mem, shift, n);
    var lo := BaseAddress(0, seg, shift);
    assert mem[..n] == from[..Min(|from|, |mem|)][..n] == from[..n];
    if lo <= shift + n {
      assert mem1[lo..shift + n] == mem1[shift..shift + n][lo - shift..];
    }
  }

  /** The patch leaves the target at the bottom of any memory of the given size that holds the base, whatever
      stands above the base. */
  ghost predicate PatchesInPlace(from: seq<byte>, to: seq<byte>, memory: nat, patch: seq<byte>) {
    forall mem: seq<byte> :: |mem| == memory && HoldsBase(mem, from) ==>
      DecodeInPlace(mem, patch).Some? && to <= DecodeInPlace(mem, patch).value
  }

  /** The decoder refuses the patch in every memory of the given size. */
  ghost predicate RefusedInPlace(memory: nat, patch: seq<byte>) {
    forall mem: seq<byte> :: |mem| == memory ==> DecodeInPlace(mem, patch).None?
  }

  lemma {:induction false} AddsFit(mem: seq<byte>, lo: nat, hi: nat, from: int, to: nat, diff: seq<byte>)
    requires diff != [] && AddInPlace(mem, lo, hi, from, to, diff).Some?
    ensures to + |diff| <= |mem|
    decreases |diff|
  {
    if |diff| > 1 {
      AddsFit(mem[to := WrapAdd(mem[from], diff[0])], lo, hi, from + 1, to + 1, diff[1..]);
    }
  }

  lemma {:induction false} StoresFit(mem: seq<byte>, to: nat, bytes: seq<byte>)
    requires bytes != [] && StoreInPlace(mem, to, bytes).Some?
    ensures to + |bytes| <= |mem|
    decreases |bytes|
  {
    if |bytes| > 1 {
      StoresFit(mem[to := bytes[0]], to + 1, bytes[1..]);
    }
  }

  /** A segment is decoded only where all of it fits the memory. */
  lemma {:induction false} SegmentFits(mem: seq<byte>, lo: nat, hi: nat, from: int, to: nat, need: nat, s: seq<byte>)
    requires need > 0 && RebuildInPlace(mem, lo, hi, from, to, need, s).Some?
    ensures to + need <= |mem|
    decreases |s|
  {
    hide ReadTriple, AddInPlace, StoreInPlace;
    var (t, rest) := ReadTriple(s).value;
    var mem1 := AddInPlace(mem, lo, hi, from, to, t.diff).value;
    var mem2 := StoreInPlace(mem1, to + |t.diff|, t.extra).value;
    var done := |t.diff| + |t.extra|;
    if done < need {
      SegmentFits(mem2, lo, hi, from + |t.diff| + t.seek, to + done, need - done, rest);
    } else if t.extra != [] {
      StoresFit(mem1, to + |t.diff|, t.extra);
    } else {
      AddsFit(mem, lo, hi, from, to, t.diff);
    }
  }

  lemma {:induction false} SegmentsFit(mem: seq<byte>, at: nat, seg: nat, shift: nat, end: nat, toSize: nat,
                                       s: seq<byte>)
    requires seg > 0 && at < toSize && RebuildSegments(mem, at, seg, shift, end, toSize, s).Some?
    ensures toSize <= |mem|
    decreases |s|
  {
    hide RebuildInPlace, SkipDataFormat;
    var lo := BaseAddress(at, seg, shift);
    SegmentFits(mem, lo, if lo <= end then end else lo, lo, at, Min(seg, toSize - at), SkipDataFormat(s).value);
    if at + seg < toSize {
      var (mem1, rest) := RebuildSegment(mem, at, seg, shift, end, toSize, s).value;
      SegmentsFit(mem1, at + seg, seg, shift, end, toSize, rest);
    }
  }

  /** The decoder accepts no patch whose target is longer than the memory. */
  lemma DecodedFits(mem: seq<byte>, patch: seq<byte>)
    requires DecodeInPlace(mem, patch).Some?
    ensures ReadInPlaceHeader(patch).Some? && ReadInPlaceHeader(patch).value.0.toSize <= |mem|
  {
    hide RebuildSegments, ReadInPlaceHeader, Decompress, ShiftUp;
    var (h, compressed) := ReadInPlaceHeader(patch).value;
    if h.toSize > 0 {
      var n := Min(h.fromSize, |mem| - h.shift);
      SegmentsFit(ShiftUp(mem, h.shift, n), 0, h.segment, h.shift, h.shift + n, h.toSize, Decompress(compressed).value);
    }
  }

  lemma TooLongIsRefused(h: InPlaceHeader, compressed: seq<byte>, memory: nat)
    requires h.toSize > memory
    ensures RefusedInPlace(memory, HeaderBytes(h) + compressed)
  {
    hide DecodeInPlace, HeaderBytes, ReadInPlaceHeader;
    ReadsInPlaceHeader(h, compressed);
    forall mem: seq<byte> | |mem| == memory
      ensures DecodeInPlace(mem, HeaderBytes(h) + compressed).None?
    {
      if DecodeInPlace(mem, HeaderBytes(h) + compressed).Some? {
        DecodedFits(mem, HeaderBytes(h) + compressed);
      }
    }
  }

  /** There is a memory that holds the base, so a target that is too long for it is not delivered. */
  lemma TargetMustFit(from: seq<byte>, to: seq<byte>, memory: nat, patch: seq<byte>)
    requires PatchesInPlace(from, to, memory, patch)
    ensures |to| <= memory
  {
    hide DecodeInPlace;
    var n := Min(|from|, memory);
    var mem := from[..n] + Fill(memory - n, 0xFF);
    assert |mem| == memory && HoldsBase(mem, from);
  }

  /** src/encode.rs:71-106. The first two conditions are the source's assertion; without the third its
      subtraction of the shift underflows (ShiftFits). */
  method EncodeInPlace(from: seq<byte>, to: seq<byte>, memory: nat, segment: nat) returns (patch: seq<byte>)
    requires segment > 0 && memory % segment == 0 && memory >= 2 * segment
    ensures if |to| <= memory then PatchesInPlace(from, to, memory, patch) else RefusedInPlace(memory, patch)
    ensures [0x12] + EncodeSize(memory) + EncodeSize(segment) +
            EncodeSize(CalcShift(memory, segment, 2 * segment, |from|)) + EncodeSize(|from|) + EncodeSize(|to|) <= patch
  {
    hide Rebuilds, Compresses, EncodeSize, SegmentBase, PatchesInPlace, RefusedInPlace, Joined, Diffs, Canonical;
    ghost var memorySegments := memory / segment;
    assert memory == memorySegments * segment;
    ShiftFits(memorySegments, segment, |from|);
    var shift := CalcShift(memory, segment, 2 * segment, |from|);
    var shiftedSize := memory - shift;
    var fromData := from[..Min(|from|, shiftedSize)];
    var count := DivCeil(|to|, segment);

    var segments: seq<byte> := [];
    ghost var streams: seq<seq<byte>> := [];
    JoinedNone();
    for s := 0 to count
      invariant |streams| == s && segments == Joined(streams)
      invariant forall j :: 0 <= j < s ==> SegmentCoded(fromData, to, j, segment, shift, streams[j])
    {
      var toOffset := s * segment;
      SegmentStarts(|to|, segment, count, s);
      var fromOffset := if toOffset + segment >= shift then toOffset + segment - shift else 0;
      var segFrom := if fromOffset <= |fromData| then fromData[fromOffset..] else [];
      var segTo := to[toOffset..Min(toOffset + segment, |to|)];
      ghost var before := segments;
      var marker := PackSize(0);
      segments := segments + marker;
      ghost var marked := segments;
      segments := AppendDiff(segFrom, segTo, segments);
      ghost var stream := segments[|marked|..];
      assert segments == before + EncodeSize(0) + stream;
      JoinedAppend(streams, stream);
      SegmentIsCoded(fromData, to, s, segment, shift, segFrom, segTo, stream);
      streams := streams + [stream];
    }

    patch := [HeaderByte(PATCH_TYPE_IN_PLACE)];
    var size := PackSize(memory);
    patch := patch + size;
    size := PackSize(segment);
    patch := patch + size;
    size := PackSize(shift);
    patch := patch + size;
    size := PackSize(|from|);
    patch := patch + size;
    size := PackSize(|to|);
    patch := patch + size;
    ghost var h := InPlaceHeader(memory, segment, shift, |from|, |to|);
    assert patch == HeaderBytes(h);
    if to == [] {
      EmptyTargetDecodes(from, to, h, patch);
      return;
    }
    var compressed := CrleCompress(segments);
    patch := patch + compressed;
    if |to| <= memory {
      InPlaceDecodes(from, to, h, memorySegments, streams, compressed, patch);
    } else {
      TooLongIsRefused(h, compressed, memory);
    }
  }

  lemma JoinedNone()
    ensures Joined([]) == []
  {
  }

  lemma SegmentStarts(n: nat, d: nat, count: nat, s: nat)
    requires d > 0 && count == DivCeil(n, d) && s < count
    ensures Offset(s, d) < n
  {
    MulMono(s + 1, count, d);
  }

  lemma SegmentIsCoded(fromData: seq<byte>, to: seq<byte>, k: nat, seg: nat, shift: nat, segFrom: seq<byte>,
                       segTo: seq<byte>, stream: seq<byte>)
    requires Offset(k, seg) < |to| && Rebuilds(segFrom, segTo, stream)
    requires var at := Offset(k, seg);
             var offset := if at + seg >= shift then at + seg - shift else 0;
             && segFrom == (if offset <= |fromData| then fromData[offset..] else [])
             && segTo == to[at..Min(at + seg, |to|)]
    ensures SegmentCoded(fromData, to, k, seg, shift, stream)
  {
    hide Rebuilds, Offset;
  }

  lemma EmptyTargetDecodes(from: seq<byte>, to: seq<byte>, h: InPlaceHeader, patch: seq<byte>)
    requires to == [] && patch == HeaderBytes(h) && h.fromSize == |from| && h.toSize == 0
    requires h.memory >= 0 && h.segment > 0 && 0 <= h.shift <= h.memory
    ensures PatchesInPlace(from, to, h.memory, patch)
  {
    hide HeaderBytes, Decompress;
    assert patch + [] == patch;
    ReadsInPlaceHeader(h, []);
  }

  lemma InPlaceDecodesIn(mem: seq<byte>, from: seq<byte>, to: seq<byte>, h: InPlaceHeader, memorySegments: nat,
                         streams: seq<seq<byte>>, compressed: seq<byte>)
    requires |mem| == h.memory && HoldsBase(mem, from)
    requires h.segment > 0 && h == InPlaceHeader(Offset(memorySegments, h.segment), h.segment, h.shift, |from|, |to|)
    requires 0 <= h.shift <= h.memory && 0 < |to| <= h.memory
    requires Coded(from[..Min(|from|, h.memory - h.shift)], to, 0, h.segment, h.shift, streams)
    requires Decompress(compressed) == Some(Joined(streams))
    ensures DecodeInPlace(mem, HeaderBytes(h) + compressed).Some?
    ensures DecodeInPlace(mem, HeaderBytes(h) + compressed).value[..|to|] == to
  {
    hide ReadInPlaceHeader, HeaderBytes, Decompress, Joined, Coded, Underway, ShiftUp, RebuildSegments;
    var n := Min(|from|, h.memory - h.shift);
    ReadsInPlaceHeader(h, compressed);
    ShiftedBase(mem, from, to, h.segment, h.shift, n);
    assert Joined(streams) + [] == Joined(streams);
    SegmentsDecode(ShiftUp(mem, h.shift, n), from[..n], to, 0, 0, h.segment, h.shift, memorySegments, streams, []);
  }

  lemma InPlaceDecodes(from: seq<byte>, to: seq<byte>, h: InPlaceHeader, memorySegments: nat, streams: seq<seq<byte>>,
                       compressed: seq<byte>, patch: seq<byte>)
    requires h.segment > 0 && h == InPlaceHeader(Offset(memorySegments, h.segment), h.segment, h.shift, |from|, |to|)
    requires 0 <= h.shift <= h.memory && 0 < |to| <= h.memory
    requires |streams| == DivCeil(|to|, h.segment)
    requires forall j :: 0 <= j < |streams| ==>
               SegmentCoded(from[..Min(|from|, h.memory - h.shift)], to, j, h.segment, h.shift, streams[j])
    requires Compresses(compressed, Joined(streams)) && patch == HeaderBytes(h) + compressed
    ensures PatchesInPlace(from, to, h.memory, patch)
  {
    AllCoded(from[..Min(|from|, h.memory - h.shift)], to, 0, h.segment, h.shift, streams);
    assert streams[0..] == streams;
    hide HeaderBytes, Canonical, Decompress, ParseSegments, Joined, SegmentCoded, Coded, DecodeInPlace;
    forall mem: seq<byte> | |mem| == h.memory && HoldsBase(mem, from)
      ensures DecodeInPlace(mem, patch).Some? && DecodeInPlace(mem, patch).value[..|to|] == to
    {
      InPlaceDecodesIn(mem, from, to, h, memorySegments, streams, compressed);
    }
  }
}
