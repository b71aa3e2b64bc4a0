/** The seeder core: answering requests from a folder of containers, and capturing a container the node is
    fetching (src/serve.rs:144-358). The capture directory is a map from names to contents. */
module Seeder {
  import opened Bytes
  import opened Library
  import opened Format
  import opened Verify

  const OP_COUNT: byte := 1
  const OP_DESCRIBE: byte := 2
  const OP_READ: byte := 3
  const OP_STAT: byte := 4
  const OP_BEGIN: byte := 5
  const OP_WRITE: byte := 6
  const OP_SREAD: byte := 7
  const OP_FIN: byte := 8
  const OP_DEFLATE_BLOCK: byte := 9
  const STATUS_OK: byte := 0
  const STATUS_ERR: byte := 1

  /** Bytes after the opcode, `None` for an unknown opcode: src/format.rs:132-142. */
  function RequestHeaderLen(op: byte): Option<nat> {
    if op == OP_COUNT then Some(0)
    else if op == OP_DESCRIBE then Some(1)
    else if op == OP_READ || op == OP_DEFLATE_BLOCK then Some(7)
    else if op == OP_STAT || op == OP_FIN then Some(4)
    else if op == OP_BEGIN then Some(8)
    else if op == OP_SREAD || op == OP_WRITE then Some(10)
    else None
  }

  type Mid = Hash4

  datatype Name = Part(mid: Mid) | Done(mid: Mid)

  type Files = map<Name, seq<byte>>

  datatype Reply = Reply(status: byte, payload: seq<byte>)

  /** `u16::from_le_bytes`. */
  function RdU16(s: seq<byte>, off: nat): (n: nat)
    requires off + 2 <= |s|
    ensures n < 0x1_0000
  {
    Digits(s[off], s[off + 1], 0, 0)
  }

  // ---- storage requests ----

  datatype Storage =
    | Stat(mid: Mid)
    | Begin(mid: Mid, total: U32)
    | Write(mid: Mid, off: U32, data: Option<seq<byte>>)
    | SRead(mid: Mid, off: U32, len: nat)
    | Fin(mid: Mid)

  /** How the arguments of a storage request are read: src/serve.rs:245, 256-284. */
  function DecodeStorage(op: byte, args: seq<byte>): Storage
    requires op in {OP_STAT, OP_BEGIN, OP_WRITE, OP_SREAD, OP_FIN}
    requires |args| >= RequestHeaderLen(op).value
  {
    var mid: Mid := args[..4];
    if op == OP_STAT then Stat(mid)
    else if op == OP_BEGIN then Begin(mid, RdU32(args, 4))
    else if op == OP_WRITE then
      var len := RdU16(args, 8);
      Write(mid, RdU32(args, 4), if 10 + len <= |args| then Some(args[10..10 + len]) else None)
    else if op == OP_SREAD then SRead(mid, RdU32(args, 4), RdU16(args, 8))
    else Fin(mid)
  }

  /** A payload staged into fresh captures, with its number of blocks. */
  datatype WarmStart = WarmStart(payload: seq<byte>, blockCount: U32)

  /** Byte i of a fresh part: from the warm-start payload where that lies, and erased elsewhere. */
  predicate FreshByte(seed: Option<WarmStart>, i: nat, b: byte) {
    b == if seed.Some? && 0 <= i - (HEADER_LEN + MFL + seed.value.blockCount * 4) < |seed.value.payload|
         then seed.value.payload[i - (HEADER_LEN + MFL + seed.value.blockCount * 4)]
         else 0xFF
  }

  /** src/serve.rs:291-301 */
  function FreshPart(seed: Option<WarmStart>, total: U32): (buf: seq<byte>)
    ensures |buf| == total
    ensures forall i :: 0 <= i < total ==> FreshByte(seed, i, buf[i])
  {
    var blank := Fill(total, 0xFF);
    match seed
    case None => blank
    case Some(w) =>
      var off := HEADER_LEN + MFL + w.blockCount * 4;
      if off < total then
        var n := Min(|w.payload|, total - off);
        blank[..off] + w.payload[..n] + blank[off + n..]
      else blank
  }

  /** Writing into an existing file: past its end the gap reads as zeros; no bytes change nothing. */
  function WriteAt(f: seq<byte>, off: nat, data: seq<byte>): seq<byte> {
    if data == [] then f
    else if off > |f| then f + Fill(off - |f|, 0) + data
    else if off + |data| > |f| then f[..off] + data
    else f[..off] + data + f[off + |data|..]
  }

  /** Enough of a container to be published: it starts with MAGIC and declares its own exact length. */
  predicate Publishable(f: seq<byte>) {
    |f| >= 8 && f[..4] == MAGIC && RdU32(f, 4) == |f|
  }

  /** src/serve.rs:240-287 once the request is decoded. */
  function Store(files: Files, seed: Option<WarmStart>, q: Storage): (Files, Reply) {
    match q
    case Stat(mid) =>
      var (present, size) :=
        if Done(mid) in files then (1, |files[Done(mid)]|)
        else if Part(mid) in files then (1, |files[Part(mid)]|)
        else (0, 0);
      (files, Reply(STATUS_OK, [present] + Le32(size % U32_LIMIT)))
    case Begin(mid, total) =>
      (files[Part(mid) := FreshPart(seed, total)], Reply(STATUS_OK, []))
    case Write(mid, off, data) =>
      if data.Some? && Part(mid) in files then
        (files[Part(mid) := WriteAt(files[Part(mid)], off, data.value)], Reply(STATUS_OK, []))
      else (files, Reply(STATUS_ERR, []))
    case SRead(mid, off, len) =>
      var name := if Part(mid) in files then Part(mid) else Done(mid);
      if name in files && len == 0 then (files, Reply(STATUS_OK, []))
      else if name in files && off + len <= |files[name]| then (files, Reply(STATUS_OK, files[name][off..off + len]))
      else (files, Reply(STATUS_ERR, []))
    case Fin(mid) =>
      if Part(mid) in files && Publishable(files[Part(mid)]) then
        ((files - {Part(mid)})[Done(mid) := files[Part(mid)]], Reply(STATUS_OK, []))
      else (files, Reply(STATUS_ERR, []))
  }

  // ---- runs of the store ----

  /** The directory after a run of requests. */
  function AfterRun(files: Files, seed: Option<WarmStart>, run: seq<Storage>): Files {
    if run == [] then files else Store(AfterRun(files, seed, run[..|run| - 1]), seed, run[|run| - 1]).0
  }

  ghost predicate AllPublishable(files: Files) {
    forall mid: Mid :: Done(mid) in files ==> Publishable(files[Done(mid)])
  }

  /** Over every run, whatever has been published starts with MAGIC and declares its own exact length. */
  lemma {:induction false} PublishedStaysPublishable(files: Files, seed: Option<WarmStart>, run: seq<Storage>)
    requires AllPublishable(files)
    ensures AllPublishable(AfterRun(files, seed, run))
    decreases |run|
  {
    hide Publishable, FreshPart, WriteAt;
    if run != [] {
      PublishedStaysPublishable(files, seed, run[..|run| - 1]);
    }
  }

  /** What a request is told depends on the files of its own capture only. */
  lemma RepliesAreLocal(a: Files, b: Files, seed: Option<WarmStart>, q: Storage)
    requires forall name: Name :: name.mid == q.mid ==> (name in a <==> name in b) && (name in a ==> a[name] == b[name])
    ensures Store(a, seed, q).1 == Store(b, seed, q).1
  {
    hide FreshPart, WriteAt, Publishable;
  }

  // ---- what the requests are told ----

  /** STAT tells whether there is a published file or a part of one, and how long it is; published files first. */
  lemma StatReplies(files: Files, seed: Option<WarmStart>, mid: Mid)
    ensures var (after, reply) := Store(files, seed, Stat(mid));
            var known := Done(mid) in files || Part(mid) in files;
            var size := if Done(mid) in files then |files[Done(mid)]|
                        else if Part(mid) in files then |files[Part(mid)]| else 0;
            && after == files && reply.status == STATUS_OK && |reply.payload| == 5
            && (reply.payload[0] == 1 <==> known) && (reply.payload[0] == 0 <==> !known)
            && (size < 0x1_0000_0000 ==> RdU32(reply.payload, 1) == size)
  {
    hide Le32, RdU32;
    var size := if Done(mid) in files then |files[Done(mid)]| else if Part(mid) in files then |files[Part(mid)]| else 0;
    var payload := Store(files, seed, Stat(mid)).1.payload;
    assert payload[1..5] == Le32(size % U32_LIMIT);
    ReadWritten(size % U32_LIMIT, payload, 1);
  }

  /** SREAD brings a stretch of the part, or of the published file when there is no part; it fails past the end and
      when there is neither. */
  lemma SReadReplies(files: Files, seed: Option<WarmStart>, mid: Mid, off: U32, len: nat)
    ensures var (after, reply) := Store(files, seed, SRead(mid, off, len));
            && after == files
            && (Part(mid) in files && off + len <= |files[Part(mid)]| ==>
                  reply == Reply(STATUS_OK, files[Part(mid)][off..off + len]))
            && (Part(mid) !in files && Done(mid) in files && off + len <= |files[Done(mid)]| ==>
                  reply == Reply(STATUS_OK, files[Done(mid)][off..off + len]))
            && (Part(mid) in files && len > 0 && off + len > |files[Part(mid)]| ==> reply == Reply(STATUS_ERR, []))
            && (Part(mid) !in files && Done(mid) in files && len > 0 && off + len > |files[Done(mid)]| ==>
                  reply == Reply(STATUS_ERR, []))
            && (Part(mid) !in files && Done(mid) !in files ==> reply == Reply(STATUS_ERR, []))
            && (len == 0 && (Part(mid) in files || Done(mid) in files) ==> reply == Reply(STATUS_OK, []))
  {
  }

  /** WRITE needs a part, and data as long as it says; then it succeeds, and otherwise it changes nothing. */
  lemma WriteReplies(files: Files, seed: Option<WarmStart>, mid: Mid, off: U32, data: Option<seq<byte>>)
    ensures var (after, reply) := Store(files, seed, Write(mid, off, data));
            && reply.payload == []
            && (reply.status == STATUS_OK <==> Part(mid) in files && data.Some?)
            && (reply.status == STATUS_ERR <==> !(Part(mid) in files && data.Some?))
            && (reply.status == STATUS_ERR ==> after == files)
  {
    hide WriteAt;
  }

  /** What a write makes of a file: the data where it belongs, the old bytes around it, zeros in a gap. */
  lemma WrittenAt(f: seq<byte>, off: nat, data: seq<byte>, i: nat)
    ensures data == [] ==> WriteAt(f, off, data) == f
    ensures data != [] ==>
              && |WriteAt(f, off, data)| == Max(|f|, off + |data|)
              && (i < |WriteAt(f, off, data)| ==>
                    WriteAt(f, off, data)[i] ==
                    if off <= i < off + |data| then data[i - off] else if i < |f| then f[i] else 0)
  {
  }

  /** FIN publishes exactly parts that start with the container's magic and declare their own length, and
      otherwise fails and changes nothing. */
  lemma FinReplies(files: Files, seed: Option<WarmStart>, mid: Mid)
    ensures var (after, reply) := Store(files, seed, Fin(mid));
            var complete := && Part(mid) in files && |files[Part(mid)]| >= 8 && files[Part(mid)][..4] == Ascii("mOTA")
                            && RdU32(files[Part(mid)], 4) == |files[Part(mid)]|;
            && reply.payload == []
            && (reply.status == STATUS_OK <==> complete) && (reply.status == STATUS_ERR <==> !complete)
            && (!complete ==> after == files)
            && (complete ==> Part(mid) !in after && Done(mid) in after && after[Done(mid)] == files[Part(mid)])
  {
    MarkersAre();
    hide RdU32;
  }

  /** What was written can be read back, past the old end as well. */
  lemma ReadsBack(files: Files, seed: Option<WarmStart>, mid: Mid, off: U32, data: seq<byte>)
    requires Part(mid) in files
    ensures var (after, reply) := Store(files, seed, Write(mid, off, Some(data)));
            reply.status == STATUS_OK && Store(after, seed, SRead(mid, off, |data|)).1 == Reply(STATUS_OK, data)
  {
    hide FreshPart, Publishable;
    var f := files[Part(mid)];
    if data != [] {
      assert WriteAt(f, off, data)[off..off + |data|] == data;
    }
  }

  /** Requests about other captures leave the files of this one alone. */
  lemma {:induction false} MidsAreIndependent(files: Files, seed: Option<WarmStart>, run: seq<Storage>, mid: Mid)
    requires forall q :: q in run ==> q.mid != mid
    ensures forall name: Name :: name.mid == mid ==>
              (name in AfterRun(files, seed, run) <==> name in files) &&
              (name in files ==> AfterRun(files, seed, run)[name] == files[name])
    decreases |run|
  {
    hide Publishable, FreshPart, WriteAt;
    if run != [] {
      MidsAreIndependent(files, seed, run[..|run| - 1], mid);
    }
  }

  /** A request that may come between the start and the end of the capture of container c under mid: anything
      about other captures, reading, and writing a slice of c where it belongs. */
  ghost predicate Contributes(c: seq<byte>, mid: Mid, q: Storage) {
    q.mid != mid || q.Stat? || q.SRead? ||
    (q.Write? && (q.data.None? || (q.off + |q.data.value| <= |c| && q.data.value == c[q.off..q.off + |q.data.value|])))
  }

  /** Some write of the run brings the byte at i. */
  ghost predicate Brought(run: seq<Storage>, mid: Mid, i: int) {
    exists q :: q in run && Brings(q, mid, i)
  }

  lemma SliceWritten(f: seq<byte>, c: seq<byte>, off: nat, n: nat)
    requires |f| == |c| && off + n <= |c|
    ensures var g := WriteAt(f, off, c[off..off + n]);
            |g| == |c| && forall i :: 0 <= i < |c| ==> g[i] == if off <= i < off + n then c[i] else f[i]
  {
  }

  /** The write q brings the byte at i of capture mid. */
  predicate Brings(q: Storage, mid: Mid, i: int) {
    q.mid == mid && q.Write? && q.data.Some? && q.off <= i < q.off + |q.data.value|
  }

  lemma ContributionKeepsPart(files: Files, seed: Option<WarmStart>, q: Storage, mid: Mid, c: seq<byte>)
    requires Part(mid) in files && |files[Part(mid)]| == |c| && Contributes(c, mid, q)
    ensures var after := Store(files, seed, q).0;
            && Part(mid) in after && |after[Part(mid)]| == |c|
            && forall i :: 0 <= i < |c| ==>
                 after[Part(mid)][i] == if Brings(q, mid, i) then c[i] else files[Part(mid)][i]
  {
    hide WriteAt, FreshPart, Publishable;
    if q.mid == mid && q.Write? && q.data.Some? {
      SliceWritten(files[Part(mid)], c, q.off, |q.data.value|);
    }
  }

  lemma {:induction false} CaptureProgress(files: Files, seed: Option<WarmStart>, run: seq<Storage>, mid: Mid,
                                           c: seq<byte>)
    requires Part(mid) in files && |files[Part(mid)]| == |c|
    requires forall q :: q in run ==> Contributes(c, mid, q)
    ensures var after := AfterRun(files, seed, run);
            && Part(mid) in after && |after[Part(mid)]| == |c|
            && forall i :: 0 <= i < |c| && Brought(run, mid, i) ==> after[Part(mid)][i] == c[i]
    decreases |run|
  {
    hide Store, Brought, Brings, Contributes;
    if run == [] {
      NothingBrought(mid);
    } else {
      var init, q := run[..|run| - 1], run[|run| - 1];
      CaptureProgress(files, seed, init, mid, c);
      assert run == init + [q] && q in run && Contributes(c, mid, q);
      ContributionKeepsPart(AfterRun(files, seed, init), seed, q, mid, c);
      forall i | 0 <= i < |c| && Brought(run, mid, i)
        ensures Brought(init, mid, i) || Brings(q, mid, i)
      {
        BroughtLast(init, q, mid, i);
      }
    }
  }

  lemma NothingBrought(mid: Mid)
    ensures forall i :: !Brought([], mid, i)
  {
  }

  lemma BroughtLast(init: seq<Storage>, q: Storage, mid: Mid, i: int)
    requires Brought(init + [q], mid, i)
    ensures Brought(init, mid, i) || Brings(q, mid, i)
  {
    var p :| p in init + [q] && Brings(p, mid, i);
  }

  /** BEGIN, then the slices of one container in any order, with repeats and among requests about other
      captures, then FIN: exactly that container is published, whatever the warm start put into the part. */
  lemma CaptureCompletes(files: Files, seed: Option<WarmStart>, run: seq<Storage>, mid: Mid, c: seq<byte>)
    requires Publishable(c) && |c| < U32_LIMIT
    requires forall q :: q in run ==> Contributes(c, mid, q)
    requires forall i :: 0 <= i < |c| ==> Brought(run, mid, i)
    ensures var begun := Store(files, seed, Begin(mid, |c|)).0;
            var (after, reply) := Store(AfterRun(begun, seed, run), seed, Fin(mid));
            reply.status == STATUS_OK && Done(mid) in after && after[Done(mid)] == c && Part(mid) !in after
  {
    hide Publishable, FreshPart, Brought;
    var begun := Store(files, seed, Begin(mid, |c|)).0;
    CaptureProgress(begun, seed, run, mid, c);
    var f := AfterRun(begun, seed, run)[Part(mid)];
    assert forall i :: 0 <= i < |c| ==> f[i] == c[i];
    assert f == c;
  }

  // ---- the request handler ----

  datatype Served = Served(bytes: seq<byte>, manifest: Manifest)

  /** What the handler works from. The DEFLATE answers come from a foreign compressor. */
  datatype Config = Config(
    folder: seq<Served>,
    storing: bool,
    seed: Option<WarmStart>,
    deflateBlock: seq<byte> -> Reply
  )

  /** src/serve.rs:322-338 */
  function Describe(s: Served): (w: seq<byte>)
    ensures |w| == 38
  {
    var m := s.manifest;
    m.merkleRoot + (Le32(m.targetId) + (Le32(m.fwVersion) + ([m.codecId] + ([m.flags] + (Le32(|s.bytes| % U32_LIMIT)
    + (Le32(m.LeavesOff() % U32_LIMIT) + (Le32(m.blockCount % U32_LIMIT) + (Le32(m.PayloadOff() % U32_LIMIT)
    + (Le32(m.payloadSize) + ([m.blockSizeLog2] + [1, 0, 0]))))))))))
  }

  /** The reply to a request and the directory it leaves: src/serve.rs:173-197. */
  function Answer(config: Config, files: Files, op: byte, args: seq<byte>): (Files, Option<Reply>)
    requires RequestHeaderLen(op).Some? ==> |args| >= RequestHeaderLen(op).value
  {
    if op == OP_COUNT then (files, Some(Reply(STATUS_OK, [Min(|config.folder|, 255)])))
    else if op == OP_DESCRIBE then
      (files, Some(if args[0] < |config.folder| then Reply(STATUS_OK, Describe(config.folder[args[0]]))
                   else Reply(STATUS_ERR, [])))
    else if op == OP_READ then
      var off, len := RdU32(args, 1), RdU16(args, 5);
      (files, Some(if args[0] < |config.folder| && off + len <= |config.folder[args[0]].bytes|
                   then Reply(STATUS_OK, config.folder[args[0]].bytes[off..off + len]) else Reply(STATUS_ERR, [])))
    else if op == OP_DEFLATE_BLOCK then (files, Some(config.deflateBlock(args)))
    else if op in {OP_STAT, OP_BEGIN, OP_WRITE, OP_SREAD, OP_FIN} then
      if !config.storing then (files, Some(Reply(STATUS_ERR, [])))
      else
        var (after, reply) := Store(files, config.seed, DecodeStorage(op, args));
        (after, Some(reply))
    else (files, None)
  }

  // ---- what a node makes of the answers ----

  /** `to_le_bytes` of a u16. */
  function Le16(n: nat): seq<byte>
    requires n < 0x1_0000
  {
    [n % 0x100, n / 0x100]
  }

  /** The arguments of a READ request. */
  function ReadArgs(index: byte, off: U32, len: nat): (args: seq<byte>)
    requires len < 0x1_0000
    ensures |args| == 7
  {
    [index] + (Le32(off) + Le16(len))
  }

  /** A READ request is answered with the bytes it asks for, if the folder has them, and with an error if not. */
  lemma ReadReplies(config: Config, files: Files, index: byte, off: U32, len: nat)
    requires len < 0x1_0000
    ensures Answer(config, files, OP_READ, ReadArgs(index, off, len)) ==
            (files, Some(if index < |config.folder| && off + len <= |config.folder[index].bytes|
                         then Reply(STATUS_OK, config.folder[index].bytes[off..off + len])
                         else Reply(STATUS_ERR, [])))
  {
    hide Le32, RdU32, Describe;
    var args := ReadArgs(index, off, len);
    assert args[1..5] == Le32(off);
    ReadWritten(off, args, 1);
    assert args[5..7] == Le16(len);
    assert args[5] == Le16(len)[0] && args[6] == Le16(len)[1];
  }

  function Sum(lens: seq<nat>): nat {
    if lens == [] then 0 else lens[0] + Sum(lens[1..])
  }

  /** What a node puts together from READ requests over consecutive stretches; None when one fails. */
  function Fetch(config: Config, files: Files, index: byte, off: nat, lens: seq<nat>): Option<seq<byte>>
    requires off + Sum(lens) < U32_LIMIT && forall k :: 0 <= k < |lens| ==> lens[k] < 0x1_0000
    decreases |lens|
  {
    if lens == [] then Some([])
    else
      match Answer(config, files, OP_READ, ReadArgs(index, off, lens[0])).1
      case Some(Reply(status, payload)) =>
        if status != STATUS_OK then None
        else
          (match Fetch(config, files, index, off + lens[0], lens[1..])
           case None => None
           case Some(more) => Some(payload + more))
      case None => None
  }

  /** The replies join to the stretch of the container they cover, however it is cut. */
  lemma {:induction false} FetchJoins(config: Config, files: Files, index: byte, off: nat, lens: seq<nat>)
    requires forall k :: 0 <= k < |lens| ==> lens[k] < 0x1_0000
    requires index < |config.folder| && |config.folder[index].bytes| < U32_LIMIT
    requires off + Sum(lens) <= |config.folder[index].bytes|
    ensures Fetch(config, files, index, off, lens) == Some(config.folder[index].bytes[off..off + Sum(lens)])
    decreases |lens|
  {
    hide Answer, ReadArgs, Describe;
    var bytes := config.folder[index].bytes;
    if lens == [] {
      assert bytes[off..off] == [];
    } else {
      ReadReplies(config, files, index, off, lens[0]);
      FetchJoins(config, files, index, off + lens[0], lens[1..]);
      var mid, end := off + lens[0], off + Sum(lens);
      assert bytes[off..mid] + bytes[mid..end] == bytes[off..end];
    }
  }

  /** Where leaves and payload lie in a served container. */
  lemma ServedGeometry(lib: Library, s: Served)
    requires Parse(lib, s.bytes) == Ok(s.manifest)
    ensures var m, n := s.manifest, |s.bytes|;
            && n < U32_LIMIT
            && m.LeavesOff() + m.blockCount * 4 == m.PayloadOff() && m.PayloadOff() + m.payloadSize <= n
            && StoredLeaves(lib, s.bytes) == s.bytes[m.LeavesOff()..m.PayloadOff()]
            && PayloadOf(lib, s.bytes) == s.bytes[m.PayloadOff()..m.PayloadOff() + m.payloadSize]
  {
    ParsedFacts(lib, s.bytes);
    ParsedGeometry(lib, s.bytes);
    hide Parse, ReadManifest;
  }

  /** The 38 bytes that describe a container: its root, target, version, codec and flags, its length, where its
      leaves and its payload lie, its block size, and that compressed blocks are to be had. */
  lemma DescribeNames(s: Served)
    requires |s.bytes| < U32_LIMIT && s.manifest.PayloadOff() < U32_LIMIT
    ensures var w, m := Describe(s), s.manifest;
            && w[..4] == m.merkleRoot && RdU32(w, 4) == m.targetId && RdU32(w, 8) == m.fwVersion
            && w[12] == m.codecId && w[13] == m.flags && w[34] == m.blockSizeLog2 && w[35..] == [1, 0, 0]
            && RdU32(w, 14) == |s.bytes|
            && RdU32(w, 18) == m.LeavesOff() && RdU32(w, 22) == m.blockCount
            && RdU32(w, 26) == m.PayloadOff() && RdU32(w, 30) == m.payloadSize
  {
    hide Le32, RdU32;
    var w, m := Describe(s), s.manifest;
    var r8 := [m.blockSizeLog2] + [1, 0, 0];
    var r7 := Le32(m.payloadSize) + r8;
    var r6 := Le32(m.PayloadOff() % U32_LIMIT) + r7;
    var r5 := Le32(m.blockCount % U32_LIMIT) + r6;
    var r4 := Le32(m.LeavesOff() % U32_LIMIT) + r5;
    var r3 := Le32(|s.bytes| % U32_LIMIT) + r4;
    var r2 := [m.flags] + r3;
    var r1 := [m.codecId] + r2;
    var r0 := Le32(m.fwVersion) + r1;
    assert w == m.merkleRoot + (Le32(m.targetId) + r0);
    hide Describe;
    DescribedHead(w, m, r0, r1, r2, r3);
    DescribedTail(w, |s.bytes|, m.LeavesOff(), m.blockCount, m.PayloadOff(), m.payloadSize, m.blockSizeLog2);
  }

  lemma DescribedHead(w: seq<byte>, m: Manifest, r0: seq<byte>, r1: seq<byte>, r2: seq<byte>, r3: seq<byte>)
    requires w == m.merkleRoot + (Le32(m.targetId) + r0) && r0 == Le32(m.fwVersion) + r1
    requires r1 == [m.codecId] + r2 && r2 == [m.flags] + r3
    ensures |w| == 14 + |r3| && w[..4] == m.merkleRoot && RdU32(w, 4) == m.targetId && RdU32(w, 8) == m.fwVersion
    ensures w[12] == m.codecId && w[13] == m.flags && w[14..] == r3
  {
    hide Le32, RdU32;
    assert w[0..] == w;
    Peel(w, 0, m.merkleRoot, Le32(m.targetId) + r0);
    PeelWord(w, 4, m.targetId, r0);
    PeelWord(w, 8, m.fwVersion, r1);
    PeelByte(w, 12, m.codecId, r2);
    PeelByte(w, 13, m.flags, r3);
  }

  lemma DescribedTail(w: seq<byte>, a: U32, b: U32, c: U32, d: U32, e: U32, log2: byte)
    requires |w| >= 14
    requires w[14..] == Le32(a) + (Le32(b) + (Le32(c) + (Le32(d) + (Le32(e) + ([log2] + [1, 0, 0])))))
    ensures |w| == 38 && RdU32(w, 14) == a && RdU32(w, 18) == b && RdU32(w, 22) == c && RdU32(w, 26) == d
    ensures RdU32(w, 30) == e && w[34] == log2 && w[35..] == [1, 0, 0]
  {
    hide Le32, RdU32;
    var r8 := [log2] + [1, 0, 0];
    var r7 := Le32(e) + r8;
    var r6 := Le32(d) + r7;
    var r5 := Le32(c) + r6;
    var r4 := Le32(b) + r5;
    PeelWord(w, 14, a, r4);
    PeelWord(w, 18, b, r5);
    PeelWord(w, 22, c, r6);
    PeelWord(w, 26, d, r7);
    PeelWord(w, 30, e, r8);
    PeelByte(w, 34, log2, [1, 0, 0]);
  }

  /** A DESCRIBE request is answered with the description of the container, if the folder has it. */
  lemma DescribeReplies(config: Config, files: Files, index: byte)
    ensures Answer(config, files, OP_DESCRIBE, [index]) ==
            (files, Some(if index < |config.folder| then Reply(STATUS_OK, Describe(config.folder[index]))
                         else Reply(STATUS_ERR, [])))
  {
    hide Describe;
  }

  /** Reading where the description says, in requests of any lengths, brings the leaves and the payload. */
  lemma NodeFetchesPayload(lib: Library, config: Config, files: Files, index: byte, leafLens: seq<nat>, lens: seq<nat>)
    requires index < |config.folder|
    requires Parse(lib, config.folder[index].bytes) == Ok(config.folder[index].manifest)
    requires forall k :: 0 <= k < |leafLens| ==> leafLens[k] < 0x1_0000
    requires forall k :: 0 <= k < |lens| ==> lens[k] < 0x1_0000
    ensures var s, w := config.folder[index], Describe(config.folder[index]);
            && Answer(config, files, OP_DESCRIBE, [index]).1 == Some(Reply(STATUS_OK, w))
            && (Sum(leafLens) == RdU32(w, 22) * 4 ==>
                  && RdU32(w, 18) + Sum(leafLens) < U32_LIMIT
                  && Fetch(config, files, index, RdU32(w, 18), leafLens) == Some(StoredLeaves(lib, s.bytes)))
            && (Sum(lens) == RdU32(w, 30) ==>
                  && RdU32(w, 26) + Sum(lens) < U32_LIMIT
                  && Fetch(config, files, index, RdU32(w, 26), lens) == Some(PayloadOf(lib, s.bytes)))
  {
    hide Parse, RdU32, Fetch, Describe, Answer, StoredLeaves, PayloadOf;
    var s := config.folder[index];
    ServedGeometry(lib, s);
    DescribeNames(s);
    DescribeReplies(config, files, index);
    var m := s.manifest;
    if Sum(leafLens) == m.blockCount * 4 {
      FetchJoins(config, files, index, m.LeavesOff(), leafLens);
    }
    if Sum(lens) == m.payloadSize {
      FetchJoins(config, files, index, m.PayloadOff(), lens);
    }
  }

  /** Every index below the count is described; when the count is not cut off at 255, no other is. */
  lemma CountIsIndexable(config: Config, files: Files, index: byte)
    ensures var n := Answer(config, files, OP_COUNT, []).1.value.payload;
            var d := Answer(config, files, OP_DESCRIBE, [index]).1;
            && |n| == 1 && d.Some?
            && (index < n[0] ==> d.value.status == STATUS_OK)
            && (|config.folder| <= 255 ==> (d.value.status == STATUS_OK <==> index < n[0]))
  {
    hide Describe;
  }

  class SeederCore {
    const config: Config
    var files: Files

    constructor (config: Config, files: Files)
      ensures this.config == config && this.files == files
    {
      this.config := config;
      this.files := files;
    }

    /** src/serve.rs:173-197 */
    method Handle(op: byte, args: seq<byte>) returns (r: Option<Reply>)
      requires RequestHeaderLen(op).Some? ==> |args| >= RequestHeaderLen(op).value
      modifies this`files
      ensures (files, r) == Answer(config, old(files), op, args)
      ensures r.Some? <==> RequestHeaderLen(op).Some?
      ensures op !in {OP_BEGIN, OP_WRITE, OP_FIN} ==> files == old(files)
    {
      hide FreshPart, WriteAt, Publishable, Describe;
      if op == OP_COUNT {
        r := Some(Reply(STATUS_OK, [Min(|config.folder|, 255)]));
      } else if op == OP_DESCRIBE {
        if args[0] < |config.folder| {
          r := Some(Reply(STATUS_OK, Describe(config.folder[args[0]])));
        } else {
          r := Some(Reply(STATUS_ERR, []));
        }
      } else if op == OP_READ {
        var off, len := RdU32(args, 1), RdU16(args, 5);
        if args[0] < |config.folder| && off + len <= |config.folder[args[0]].bytes| {
          r := Some(Reply(STATUS_OK, config.folder[args[0]].bytes[off..off + len]));
        } else {
          r := Some(Reply(STATUS_ERR, []));
        }
      } else if op == OP_DEFLATE_BLOCK {
        r := Some(config.deflateBlock(args));
      } else if op in {OP_STAT, OP_BEGIN, OP_WRITE, OP_SREAD, OP_FIN} {
        var reply := HandleStorage(op, args);
        r := Some(reply);
      } else {
        r := None;
      }
    }

    /** src/serve.rs:240-287 */
    method HandleStorage(op: byte, args: seq<byte>) returns (reply: Reply)
      requires op in {OP_STAT, OP_BEGIN, OP_WRITE, OP_SREAD, OP_FIN} && |args| >= RequestHeaderLen(op).value
      modifies this`files
      ensures if config.storing then (files, reply) == Store(old(files), config.seed, DecodeStorage(op, args))
              else files == old(files) && reply == Reply(STATUS_ERR, [])
    {
      if !config.storing {
        return Reply(STATUS_ERR, []);
      }
      var mid: Mid := args[..4];
      var part, done := Part(mid), Done(mid);
      if op == OP_STAT {
        var present, total := 0, 0;
        if done in files {
          present, total := 1, |files[done]|;
        } else if part in files {
          present, total := 1, |files[part]|;
        }
        reply := Reply(STATUS_OK, [present] + Le32(total % U32_LIMIT));
      } else if op == OP_BEGIN {
        BeginPart(mid, RdU32(args, 4));
        reply := Reply(STATUS_OK, []);
      } else if op == OP_WRITE {
        var off, len := RdU32(args, 4), RdU16(args, 8);
        if 10 + len <= |args| && part in files {
          files := files[part := WriteAt(files[part], off, args[10..10 + len])];
          reply := Reply(STATUS_OK, []);
        } else {
          reply := Reply(STATUS_ERR, []);
        }
      } else if op == OP_SREAD {
        var off, len := RdU32(args, 4), RdU16(args, 8);
        var src := if part in files then part else done;
        if src in files && (len == 0 || off + len <= |files[src]|) {
          reply := Reply(STATUS_OK, if len == 0 then [] else files[src][off..off + len]);
        } else {
          reply := Reply(STATUS_ERR, []);
        }
      } else {
        var published := Publish(mid);
        reply := Reply(if published then STATUS_OK else STATUS_ERR, []);
      }
    }

    /** src/serve.rs:291-301 */
    method BeginPart(mid: Mid, total: U32)
      modifies this`files
      ensures files == old(files)[Part(mid) := FreshPart(config.seed, total)]
      ensures |files[Part(mid)]| == total
      ensures forall i :: 0 <= i < total ==> FreshByte(config.seed, i, files[Part(mid)][i])
    {
      var buf := Fill(total, 0xFF);
      if config.seed.Some? {
        var off := HEADER_LEN + MFL + config.seed.value.blockCount * 4;
        if off < |buf| {
          var n := Min(|config.seed.value.payload|, |buf| - off);
          buf := buf[..off] + config.seed.value.payload[..n] + buf[off + n..];
        }
      }
      files := files[Part(mid) := buf];
    }

    /** src/serve.rs:304-317 */
    method Publish(mid: Mid) returns (published: bool)
      modifies this`files
      ensures published <==> Part(mid) in old(files) && Publishable(old(files)[Part(mid)])
      ensures files == if published then (old(files) - {Part(mid)})[Done(mid) := old(files)[Part(mid)]] else old(files)
    {
      if Part(mid) !in files || |files[Part(mid)]| < 8 {
        return false;
      }
      var f := files[Part(mid)];
      var head := f[..8];
      if head[..4] != MAGIC || RdU32(head, 4) != |f| {
        return false;
      }
      files := (files - {Part(mid)})[Done(mid) := f];
      published := true;
    }
  }
}
