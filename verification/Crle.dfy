/** Conditional run-length encoding (src/encode.rs:361-420) against its decompressor. */
module Crle {
  import opened Bytes
  import opened Varint

  const SCATTERED: byte := 0
  const REPEATED: byte := 1
  const MIN_REPEAT: nat := 6

  datatype Segment = Scattered(bytes: seq<byte>) | Repeated(count: nat, value: byte)

  // ---- the decompressor, which is the format's meaning ----

  /** Reads one segment off the front of a stream. */
  function ReadSegment(s: seq<byte>): (r: Option<(Segment, seq<byte>)>)
    ensures r.Some? ==> |r.value.1| < |s|
  {
    if s == [] then None else
    match DecodeLen(s[1..])
    case None => None
    case Some((n, rest)) =>
      if s[0] == SCATTERED then
        if n <= |rest| then Some((Scattered(rest[..n]), rest[n..])) else None
      else if s[0] == REPEATED then
        if rest != [] then Some((Repeated(n, rest[0]), rest[1..])) else None
      else None
  }

  /** Every segment of a stream, or None when some byte of it is no part of a segment. */
  function ParseSegments(s: seq<byte>): Option<seq<Segment>>
    decreases |s|
  {
    if s == [] then Some([]) else
    match ReadSegment(s)
    case None => None
    case Some((first, rest)) =>
      match ParseSegments(rest)
      case None => None
      case Some(more) => Some([first] + more)
  }

  function SegmentData(g: Segment): seq<byte> {
    match g
    case Scattered(bytes) => bytes
    case Repeated(n, b) => Fill(n, b)
  }

  function Expand(segments: seq<Segment>): seq<byte> {
    if segments == [] then [] else Expand(segments[..|segments| - 1]) + SegmentData(segments[|segments| - 1])
  }

  function Decompress(s: seq<byte>): Option<seq<byte>> {
    match ParseSegments(s)
    case None => None
    case Some(segments) => Some(Expand(segments))
  }

  // ---- the encoding of one segment ----

  function SegmentBytes(g: Segment): seq<byte> {
    match g
    case Scattered(bytes) => [SCATTERED] + EncodeLen(|bytes|) + bytes
    case Repeated(n, b) => [REPEATED] + EncodeLen(n) + [b]
  }

  function StreamOf(segments: seq<Segment>): seq<byte> {
    if segments == [] then [] else StreamOf(segments[..|segments| - 1]) + SegmentBytes(segments[|segments| - 1])
  }

  lemma ReadAfterLength(kind: byte, len: seq<byte>, n: nat, tail: seq<byte>)
    requires DecodeLen(len + tail) == Some((n, tail))
    ensures kind == SCATTERED && n <= |tail| ==>
              ReadSegment([kind] + (len + tail)) == Some((Scattered(tail[..n]), tail[n..]))
    ensures kind == REPEATED && tail != [] ==>
              ReadSegment([kind] + (len + tail)) == Some((Repeated(n, tail[0]), tail[1..]))
  {
    var s := [kind] + (len + tail);
    assert s[1..] == len + tail;
    assert s[0] == kind;
  }

  lemma ReadSegmentBytes(g: Segment, rest: seq<byte>)
    ensures ReadSegment(SegmentBytes(g) + rest) == Some((g, rest))
  {
    hide EncodeLen, DecodeLen, ReadSegment;
    match g {
      case Scattered(bytes) =>
        var len, tail := EncodeLen(|bytes|), bytes + rest;
        LenRoundTrip(|bytes|, tail);
        ReadAfterLength(SCATTERED, len, |bytes|, tail);
        assert SegmentBytes(g) + rest == [SCATTERED] + (len + tail);
        assert tail[..|bytes|] == bytes && tail[|bytes|..] == rest;
      case Repeated(n, b) =>
        var len, tail := EncodeLen(n), [b] + rest;
        LenRoundTrip(n, tail);
        ReadAfterLength(REPEATED, len, n, tail);
        assert SegmentBytes(g) + rest == [REPEATED] + (len + tail);
        assert tail[1..] == rest;
    }
  }

  function Prepend(g: seq<Segment>, parsed: Option<seq<Segment>>): Option<seq<Segment>> {
    match parsed
    case None => None
    case Some(more) => Some(g + more)
  }

  lemma ParseOne(g: Segment, rest: seq<byte>)
    ensures ParseSegments(SegmentBytes(g) + rest) == Prepend([g], ParseSegments(rest))
  {
    ReadSegmentBytes(g, rest);
  }

  lemma ParseStep(init: seq<Segment>, front: seq<byte>, last: Segment, rest: seq<byte>)
    requires ParseSegments(front + (SegmentBytes(last) + rest)) ==
             Prepend(init, ParseSegments(SegmentBytes(last) + rest))
    ensures ParseSegments((front + SegmentBytes(last)) + rest) == Prepend(init + [last], ParseSegments(rest))
  {
    ParseOne(last, rest);
    PrependTwice(init, [last], ParseSegments(rest));
    assert (front + SegmentBytes(last)) + rest == front + (SegmentBytes(last) + rest);
  }

  /** Parsing undoes serialising, whatever stream comes after. */
  lemma {:induction false} ParseStreamOf(segments: seq<Segment>, rest: seq<byte>)
    ensures ParseSegments(StreamOf(segments) + rest) == Prepend(segments, ParseSegments(rest))
    decreases |segments|
  {
    hide ParseSegments;
    if segments == [] {
      assert StreamOf(segments) + rest == rest;
      if ParseSegments(rest).Some? {
        assert segments + ParseSegments(rest).value == ParseSegments(rest).value;
      }
    } else {
      var init, last := segments[..|segments| - 1], segments[|segments| - 1];
      ParseStreamOf(init, SegmentBytes(last) + rest);
      ParseStep(init, StreamOf(init), last, rest);
      assert init + [last] == segments;
    }
  }

  lemma PrependTwice(a: seq<Segment>, b: seq<Segment>, parsed: Option<seq<Segment>>)
    ensures Prepend(a, Prepend(b, parsed)) == Prepend(a + b, parsed)
  {
    if parsed.Some? {
      assert a + (b + parsed.value) == a + b + parsed.value;
    }
  }

  // ---- what the compressor promises of its segmentation ----

  /** Six equal bytes stand at k. */
  ghost predicate RunAt(data: seq<byte>, k: int) {
    0 <= k && k + MIN_REPEAT <= |data| && forall j :: k <= j < k + MIN_REPEAT ==> data[j] == data[k]
  }

  /** data[lo..hi] is one run that nothing on either side extends. */
  ghost predicate MaximalRun(data: seq<byte>, lo: int, hi: int) {
    && 0 <= lo < hi <= |data|
    && (forall j :: lo <= j < hi ==> data[j] == data[lo])
    && (hi < |data| ==> data[hi] != data[lo])
    && (lo > 0 ==> data[lo - 1] != data[lo])
  }

  /** No scattered segment touches another, and none holds six equal bytes in a row; every repeated
      segment is a whole maximal run of at least six. `at` is where segments end inside data. */
  ghost predicate Canonical(segments: seq<Segment>, data: seq<byte>, at: int)
  {
    if segments == [] then at == 0 else
    var init, last := segments[..|segments| - 1], segments[|segments| - 1];
    var from := at - |SegmentData(last)|;
    && 0 <= from <= at <= |data|
    && Canonical(init, data, from)
    && match last {
         case Scattered(bytes) =>
           && (init != [] ==> init[|init| - 1].Repeated?)
           && (forall k :: from <= k < at ==> !RunAt(data, k))
         case Repeated(n, _) =>
           n >= MIN_REPEAT && MaximalRun(data, from, at)
       }
  }

  ghost predicate EndsScattered(segments: seq<Segment>) {
    segments != [] && segments[|segments| - 1].Scattered?
  }

  /** The segments written so far are the canonical segmentation of data[..at], and out is them in bytes. */
  ghost predicate Segmented(out: seq<byte>, segments: seq<Segment>, data: seq<byte>, at: nat)
  {
    && at <= |data|
    && out == StreamOf(segments)
    && Expand(segments) == data[..at]
    && Canonical(segments, data, at)
    && |out| <= at + at / 16384 + if EndsScattered(segments) then 3 else 0
  }

  /** g may follow the segments that cover data[..at]. */
  ghost predicate Follows(segments: seq<Segment>, g: Segment, data: seq<byte>, at: nat)
  {
    && at + |SegmentData(g)| <= |data|
    && data[at..at + |SegmentData(g)|] == SegmentData(g)
    && match g {
         case Scattered(bytes) =>
           !EndsScattered(segments) && forall k :: at <= k < at + |bytes| ==> !RunAt(data, k)
         case Repeated(n, _) => n >= MIN_REPEAT && MaximalRun(data, at, at + n)
       }
  }

  lemma SegmentIsShort(g: Segment)
    ensures g.Scattered? ==> |SegmentBytes(g)| <= |g.bytes| + |g.bytes| / 16384 + 3
    ensures g.Repeated? && g.count >= MIN_REPEAT ==> |SegmentBytes(g)| + 3 <= g.count + g.count / 16384
  {
    LenIsShort(if g.Scattered? then |g.bytes| else g.count);
  }

  lemma AddCanonical(segments: seq<Segment>, g: Segment, data: seq<byte>, at: nat)
    requires at <= |data| && Canonical(segments, data, at) && Follows(segments, g, data, at)
    ensures Canonical(segments + [g], data, at + |SegmentData(g)|)
  {
    hide RunAt, MaximalRun, Expand, StreamOf;
    assert (segments + [g])[..|segments|] == segments;
  }

  lemma AddData(segments: seq<Segment>, g: Segment, data: seq<byte>, at: nat)
    requires at + |SegmentData(g)| <= |data|
    requires Expand(segments) == data[..at] && SegmentData(g) == data[at..at + |SegmentData(g)|]
    ensures Expand(segments + [g]) == data[..at + |SegmentData(g)|]
    ensures StreamOf(segments + [g]) == StreamOf(segments) + SegmentBytes(g)
  {
    hide SegmentData, SegmentBytes;
    assert (segments + [g])[..|segments|] == segments;
    assert data[..at + |SegmentData(g)|] == data[..at] + data[at..at + |SegmentData(g)|];
  }

  lemma AddSegment(out: seq<byte>, segments: seq<Segment>, g: Segment, data: seq<byte>, at: nat)
    requires Segmented(out, segments, data, at) && Follows(segments, g, data, at)
    ensures Segmented(out + SegmentBytes(g), segments + [g], data, at + |SegmentData(g)|)
  {
    AddCanonical(segments, g, data, at);
    AddData(segments, g, data, at);
    hide RunAt, MaximalRun, Canonical, Expand, StreamOf, SegmentBytes;
    SegmentIsShort(g);
    FloorSum(at, |SegmentData(g)|);
  }

  lemma FloorSum(a: nat, b: nat)
    ensures a / 16384 + b / 16384 <= (a + b) / 16384
  {
  }

  /** src/encode.rs:405-420: the first place at or after start where six equal bytes begin, with the full
      length of that run. */
  method FirstRun(data: seq<byte>, start: nat) returns (run: Option<(nat, nat)>)
    requires start <= |data|
    ensures run.None? ==> forall k :: start <= k ==> !RunAt(data, k)
    ensures run.Some? ==> var (at, len) := run.value;
              && start <= at && len >= MIN_REPEAT && at + len <= |data|
              && RunAt(data, at)
              && (forall k :: start <= k < at ==> !RunAt(data, k))
              && (forall j :: at <= j < at + len ==> data[j] == data[at])
              && (at + len < |data| ==> data[at + len] != data[at])
              && (at > start ==> data[at - 1] != data[at])
  {
    var o := start;
    while o < |data|
      invariant start <= o <= |data|
      invariant start < o < |data| ==> data[o - 1] != data[o]
      invariant forall k :: start <= k < o ==> !RunAt(data, k)
    {
      var b := data[o];
      var l := 0;
      while o + l < |data| && data[o + l] == b
        invariant o + l <= |data|
        invariant forall j :: o <= j < o + l ==> data[j] == b
        decreases |data| - l
      {
        l := l + 1;
      }
      if l >= MIN_REPEAT {
        return Some((o, l));
      }
      forall k | o <= k < o + l
        ensures !RunAt(data, k)
      {
        if o + l < |data| && k + MIN_REPEAT <= |data| {
          assert data[o + l] != data[k];
        }
      }
      o := o + l;
    }
    run := None;
  }

  /** What a compressed stream is held to: it parses, its segments expand to the data, they are the
      canonical segmentation, and the stream is hardly longer than the data. */
  ghost predicate Compresses(out: seq<byte>, data: seq<byte>) {
    && ParseSegments(out).Some?
    && Decompress(out) == Some(data)
    && Canonical(ParseSegments(out).value, data, |data|)
    && |out| <= |data| + 3 + |data| / 16384
  }

  /** src/encode.rs:387-389 */
  method EmitRepeated(out0: seq<byte>, len: nat, b: byte) returns (out: seq<byte>)
    ensures out == out0 + SegmentBytes(Repeated(len, b))
  {
    out := out0 + [REPEATED];
    var size := CrlePackSize(len);
    out := out + size;
    out := out + [b];
    assert out == out0 + SegmentBytes(Repeated(len, b));
  }

  /** src/encode.rs:397-401 */
  method EmitScattered(out0: seq<byte>, bytes: seq<byte>) returns (out: seq<byte>)
    ensures out == out0 + SegmentBytes(Scattered(bytes))
  {
    out := out0 + [SCATTERED];
    var size := CrlePackSize(|bytes|);
    out := out + size;
    out := out + bytes;
    assert out == out0 + SegmentBytes(Scattered(bytes));
  }

  lemma ParsesBack(segments: seq<Segment>)
    ensures ParseSegments(StreamOf(segments)) == Some(segments)
  {
    ParseStreamOf(segments, []);
    assert ParseSegments([]) == Some([]);
    hide ParseSegments, StreamOf;
    assert StreamOf(segments) + [] == StreamOf(segments);
    assert segments + [] == segments;
  }

  lemma GapFollows(segments: seq<Segment>, data: seq<byte>, at: nat, end: nat)
    requires at <= end <= |data| && !EndsScattered(segments) && forall k :: at <= k < end ==> !RunAt(data, k)
    ensures Follows(segments, Scattered(data[at..end]), data, at)
    ensures |SegmentData(Scattered(data[at..end]))| == end - at
  {
    hide RunAt;
  }

  lemma RunFollows(segments: seq<Segment>, data: seq<byte>, at: nat, len: nat)
    requires at + len <= |data| && len >= MIN_REPEAT && MaximalRun(data, at, at + len)
    ensures Follows(segments, Repeated(len, data[at]), data, at)
    ensures |SegmentData(Repeated(len, data[at]))| == len
  {
    assert data[at..at + len] == Fill(len, data[at]);
  }

  /** src/encode.rs:367-395 */
  method CrleCompress(data: seq<byte>) returns (out: seq<byte>)
    ensures Compresses(out, data)
  {
    hide Compresses, Segmented, EncodeLen, SegmentBytes, SegmentData, Follows, RunAt;
    out := [];
    if data == [] {
      out := out + [SCATTERED];
      var size := CrlePackSize(0);
      out := out + size;
      EmptyStream(out, size);
      return;
    }
    ghost var segments: seq<Segment> := [];
    Unstarted(data);
    var n := |data|;
    var i := 0;
    while i < n
      invariant 0 <= i <= n
      invariant 0 < i < n ==> data[i - 1] != data[i]
      invariant i < n && EndsScattered(segments) ==> RunAt(data, i)
      invariant Segmented(out, segments, data, i)
    {
      ghost var g: Segment;
      ghost var before, at := out, i;
      var run := FirstRun(data, i);
      match run {
        case None =>
          out := EmitScattered(out, data[i..]);
          g := Scattered(data[i..]);
          assert data[i..] == data[i..n];
          GapFollows(segments, data, i, n);
          i := n;
        case Some((start, len)) =>
          if start > i {
            out := EmitScattered(out, data[i..start]);
            g := Scattered(data[i..start]);
            GapFollows(segments, data, i, start);
            i := start;
          } else {
            out := EmitRepeated(out, len, data[i]);
            g := Repeated(len, data[i]);
            RunFollows(segments, data, i, len);
            i := i + len;
          }
      }
      assert out == before + SegmentBytes(g);
      AddSegment(before, segments, g, data, at);
      segments := segments + [g];
    }
    Finished(out, segments, data);
  }

  lemma EmptyStream(out: seq<byte>, size: seq<byte>)
    requires size == EncodeLen(0) && out == [SCATTERED] + size
    ensures Compresses(out, [])
  {
    var g := Scattered([]);
    Unstarted([]);
    AddSegment([], [], g, [], 0);
    assert [] + SegmentBytes(g) == out && [] + [g] == [g];
    Finished(out, [g], []);
  }

  lemma Unstarted(data: seq<byte>)
    ensures Segmented([], [], data, 0)
  {
  }

  lemma Finished(out: seq<byte>, segments: seq<Segment>, data: seq<byte>)
    requires Segmented(out, segments, data, |data|)
    ensures Compresses(out, data)
  {
    ParsesBack(segments);
    hide ParseSegments;
    assert data[..|data|] == data;
  }
}
