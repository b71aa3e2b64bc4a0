/** The patch format, given by its decoders: what a control stream rebuilds out of a base, in a fresh buffer
    (src/encode.rs:15-23) and destructively inside the memory that holds the base (src/encode.rs:59-70).
    Both decoders are as strict as can be: a read outside the base, a write outside the memory, a count
    that overshoots the target or a malformed size makes them return None. */
module PatchFormat {
  import opened Bytes
  import opened Varint

  /** One control triple: bytes to add to the base, bytes to copy, and the move of the base cursor. */
  datatype Triple = Triple(diff: seq<byte>, extra: seq<byte>, seek: int)

  /** A byte string behind its signed size. */
  function ReadBlock(s: seq<byte>): (r: Option<(seq<byte>, seq<byte>)>)
    ensures r.Some? ==> |r.value.1| < |s|
  {
    match DecodeSize(s)
    case None => None
    case Some((n, rest)) => if 0 <= n <= |rest| then Some((rest[..n], rest[n..])) else None
  }

  function ReadTriple(s: seq<byte>): (r: Option<(Triple, seq<byte>)>)
    ensures r.Some? ==> |r.value.1| < |s|
  {
    match ReadBlock(s)
    case None => None
    case Some((diff, s1)) =>
      match ReadBlock(s1)
      case None => None
      case Some((extra, s2)) =>
        match DecodeSize(s2)
        case None => None
        case Some((seek, rest)) => Some((Triple(diff, extra, seek), rest))
  }

  function BlockBytes(b: seq<byte>): seq<byte> {
    EncodeSize(|b|) + b
  }

  function TripleBytes(t: Triple): seq<byte> {
    BlockBytes(t.diff) + BlockBytes(t.extra) + EncodeSize(t.seek)
  }

  lemma ReadBlockBytes(b: seq<byte>, rest: seq<byte>)
    ensures ReadBlock(BlockBytes(b) + rest) == Some((b, rest))
  {
    hide EncodeSize, DecodeSize;
    SizeRoundTrip(|b|, b + rest);
    assert BlockBytes(b) + rest == EncodeSize(|b|) + (b + rest);
    assert (b + rest)[..|b|] == b && (b + rest)[|b|..] == rest;
  }

  lemma ReadTripleBytes(t: Triple, rest: seq<byte>)
    ensures ReadTriple(TripleBytes(t) + rest) == Some((t, rest))
  {
    hide EncodeSize, DecodeSize, BlockBytes, ReadBlock;
    var s2 := EncodeSize(t.seek) + rest;
    var s1 := BlockBytes(t.extra) + s2;
    SizeRoundTrip(t.seek, rest);
    ReadBlockBytes(t.extra, s2);
    ReadBlockBytes(t.diff, s1);
    assert TripleBytes(t) + rest == BlockBytes(t.diff) + s1;
  }

  /** Byte-wise sum modulo 256. */
  function AddBytes(a: seq<byte>, d: seq<byte>): (s: seq<byte>)
    requires |a| == |d|
    ensures |s| == |a|
  {
    seq(|a|, i requires 0 <= i < |a| => WrapAdd(a[i], d[i]))
  }

  // ---- decoding into a fresh buffer ----

  /** One triple may be applied with the base cursor here and this many target bytes missing. */
  predicate Applicable(base: seq<byte>, cursor: int, need: nat, t: Triple) {
    && 0 <= cursor && cursor + |t.diff| <= |base|
    && |t.diff| + |t.extra| <= need
  }

  function TripleOutput(base: seq<byte>, cursor: int, need: nat, t: Triple): (out: seq<byte>)
    requires Applicable(base, cursor, need, t)
    ensures |out| == |t.diff| + |t.extra|
  {
    AddBytes(base[cursor..cursor + |t.diff|], t.diff) + t.extra
  }

  function Prepend(front: seq<byte>, r: Option<(seq<byte>, seq<byte>)>): Option<(seq<byte>, seq<byte>)> {
    match r
    case None => None
    case Some((out, rest)) => Some((front + out, rest))
  }

  /** Rebuilds `need` bytes and returns them with the unread part of the stream. */
  function Rebuild(base: seq<byte>, cursor: int, need: nat, s: seq<byte>): (r: Option<(seq<byte>, seq<byte>)>)
    ensures r.Some? ==> |r.value.0| == need
    decreases |s|
  {
    if need == 0 then Some(([], s)) else
    match ReadTriple(s)
    case None => None
    case Some((t, rest)) =>
      if !Applicable(base, cursor, need, t) then None
      else Prepend(TripleOutput(base, cursor, need, t),
                   Rebuild(base, cursor + |t.diff| + t.seek, need - |t.diff| - |t.extra|, rest))
  }

  /** stream rebuilds target out of base and stops exactly at its own end. */
  ghost predicate Rebuilds(base: seq<byte>, target: seq<byte>, stream: seq<byte>) {
    forall tail :: Rebuild(base, 0, |target|, stream + tail) == Some((target, tail))
  }

  // ---- decoding in place ----

  /** Adds diff to the base bytes at `from`, one byte at a time, storing at `to` in the same memory. */
  function AddInPlace(mem: seq<byte>, lo: nat, hi: nat, from: int, to: nat, diff: seq<byte>): (r: Option<seq<byte>>)
    ensures r.Some? ==> |r.value| == |mem|
    decreases |diff|
  {
    if diff == [] then Some(mem)
    else if !(lo <= from < hi <= |mem|) || to >= |mem| then None
    else AddInPlace(mem[to := WrapAdd(mem[from], diff[0])], lo, hi, from + 1, to + 1, diff[1..])
  }

  /** Stores bytes at `to`, one byte at a time. */
  function StoreInPlace(mem: seq<byte>, to: nat, bytes: seq<byte>): (r: Option<seq<byte>>)
    ensures r.Some? ==> |r.value| == |mem|
    decreases |bytes|
  {
    if bytes == [] then Some(mem)
    else if to >= |mem| then None
    else StoreInPlace(mem[to := bytes[0]], to + 1, bytes[1..])
  }

  /** The destructive decoder of one segment: base bytes are read at addresses lo..hi only. */
  function RebuildInPlace(mem: seq<byte>, lo: nat, hi: nat, from: int, to: nat, need: nat, s: seq<byte>)
    : (r: Option<(seq<byte>, seq<byte>)>)
    ensures r.Some? ==> |r.value.0| == |mem| && |r.value.1| <= |s|
    decreases |s|
  {
    if need == 0 then Some((mem, s)) else
    match ReadTriple(s)
    case None => None
    case Some((t, rest)) =>
      if |t.diff| + |t.extra| > need then None else
      match AddInPlace(mem, lo, hi, from, to, t.diff)
      case None => None
      case Some(mem1) =>
        match StoreInPlace(mem1, to + |t.diff|, t.extra)
        case None => None
        case Some(mem2) =>
          RebuildInPlace(mem2, lo, hi, from + |t.diff| + t.seek, to + |t.diff| + |t.extra|,
                         need - |t.diff| - |t.extra|, rest)
  }

  /** mem with bytes stored at `to`. */
  function Stored(mem: seq<byte>, to: nat, bytes: seq<byte>): (r: seq<byte>)
    requires to + |bytes| <= |mem|
    ensures |r| == |mem|
  {
    mem[..to] + bytes + mem[to + |bytes|..]
  }

  lemma {:induction false} StoreInPlaceStores(mem: seq<byte>, to: nat, bytes: seq<byte>)
    requires to + |bytes| <= |mem|
    ensures StoreInPlace(mem, to, bytes) == Some(Stored(mem, to, bytes))
    decreases |bytes|
  {
    if bytes == [] {
      assert Stored(mem, to, bytes) == mem;
    } else {
      var mem1 := mem[to := bytes[0]];
      StoreInPlaceStores(mem1, to + 1, bytes[1..]);
      assert Stored(mem1, to + 1, bytes[1..]) == Stored(mem, to, bytes);
    }
  }

  /** As long as the writes stay below the base region, the byte-by-byte loop reads the bytes that were
      there at the start. */
  lemma {:induction false} AddInPlaceAdds(mem: seq<byte>, lo: nat, hi: nat, from: int, to: nat, diff: seq<byte>)
    requires to + |diff| <= lo <= from && from + |diff| <= hi <= |mem|
    ensures AddInPlace(mem, lo, hi, from, to, diff) == Some(Stored(mem, to, AddBytes(mem[from..from + |diff|], diff)))
    decreases |diff|
  {
    if diff == [] {
      assert Stored(mem, to, AddBytes(mem[from..from + |diff|], diff)) == mem;
    } else {
      var mem1 := mem[to := WrapAdd(mem[from], diff[0])];
      AddInPlaceAdds(mem1, lo, hi, from + 1, to + 1, diff[1..]);
      AddFirst(mem, mem1, from, to, diff);
    }
  }

  lemma AddFirst(mem: seq<byte>, mem1: seq<byte>, from: nat, to: nat, diff: seq<byte>)
    requires diff != [] && to + |diff| <= from && from + |diff| <= |mem|
    requires mem1 == mem[to := WrapAdd(mem[from], diff[0])]
    ensures Stored(mem1, to + 1, AddBytes(mem1[from + 1..from + |diff|], diff[1..])) ==
            Stored(mem, to, AddBytes(mem[from..from + |diff|], diff))
  {
    hide WrapAdd;
    var sum, sum1 := AddBytes(mem[from..from + |diff|], diff), AddBytes(mem1[from + 1..from + |diff|], diff[1..]);
    assert sum == [WrapAdd(mem[from], diff[0])] + sum1;
  }

  lemma StoredTwice(mem: seq<byte>, to: nat, a: seq<byte>, b: seq<byte>)
    requires to + |a| + |b| <= |mem|
    ensures Stored(Stored(mem, to, a), to + |a|, b) == Stored(mem, to, a + b)
  {
  }

  lemma StoredBelow(mem: seq<byte>, to: nat, bytes: seq<byte>, lo: nat, hi: nat)
    requires to + |bytes| <= lo <= hi <= |mem|
    ensures Stored(mem, to, bytes)[lo..hi] == mem[lo..hi]
  {
  }

  /** Applying one triple in place, when everything it writes lies below the base region. */
  lemma TripleInPlace(mem: seq<byte>, lo: nat, hi: nat, cursor: int, to: nat, need: nat, t: Triple)
    requires lo <= hi <= |mem| && to + need <= lo
    requires Applicable(mem[lo..hi], cursor, need, t)
    ensures var out := TripleOutput(mem[lo..hi], cursor, need, t);
            AddInPlace(mem, lo, hi, lo + cursor, to, t.diff).Some? &&
            StoreInPlace(AddInPlace(mem, lo, hi, lo + cursor, to, t.diff).value, to + |t.diff|, t.extra)
            == Some(Stored(mem, to, out))
  {
    hide AddInPlace, StoreInPlace, AddBytes, Stored;
    var n := |t.diff|;
    SliceOfSlice(mem, lo, hi, cursor, cursor + n);
    var sum := AddBytes(mem[lo + cursor..lo + cursor + n], t.diff);
    AddInPlaceAdds(mem, lo, hi, lo + cursor, to, t.diff);
    StoreInPlaceStores(Stored(mem, to, sum), to + n, t.extra);
    StoredTwice(mem, to, sum, t.extra);
  }

  /** The destructive decoder agrees with the fresh-buffer decoder whenever its writes stay below the
      base region it reads. */
  lemma {:induction false} InPlaceRefines(mem: seq<byte>, lo: nat, hi: nat, cursor: int, to: nat, need: nat,
                                          s: seq<byte>)
    requires lo <= hi <= |mem| && to + need <= lo
    requires Rebuild(mem[lo..hi], cursor, need, s).Some?
    ensures var (out, rest) := Rebuild(mem[lo..hi], cursor, need, s).value;
            RebuildInPlace(mem, lo, hi, lo + cursor, to, need, s) == Some((Stored(mem, to, out), rest))
    decreases |s|
  {
    hide ReadTriple, AddInPlace, StoreInPlace, TripleOutput;
    if need == 0 {
      assert Stored(mem, to, []) == mem;
    } else {
      var (t, rest) := ReadTriple(s).value;
      var base := mem[lo..hi];
      var out := TripleOutput(base, cursor, need, t);
      var mem2 := Stored(mem, to, out);
      TripleInPlace(mem, lo, hi, cursor, to, need, t);
      StoredBelow(mem, to, out, lo, hi);
      hide Stored, Applicable;
      var next := cursor + |t.diff| + t.seek;
      InPlaceRefines(mem2, lo, hi, next, to + |out|, need - |out|, rest);
      StoredTwice(mem, to, out, Rebuild(base, next, need - |out|, rest).value.0);
    }
  }
}
