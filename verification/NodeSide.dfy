/** The seeder seen from the node: the bytes it sends, and what it can make of the bytes that come back
    (src/format.rs:106-142, src/serve.rs:240-317, 488-496). */
module NodeSide {
  import opened Bytes
  import opened Library
  import opened Format
  import opened Verify
  import opened Seeder
  import opened Stream
  import opened Checksum

  // ---- reading a response ----

  /** Opcode and reply in a response: magic, opcode, status, payload and a checksum that makes it all even. */
  ghost function ReadResponse(frame: seq<byte>): Option<(byte, Reply)> {
    if |frame| >= 5 && frame[..2] == Ascii("ms") && Even(frame)
    then Some((frame[2], Reply(frame[3], frame[4..|frame| - 1])))
    else None
  }

  lemma ResponseIsEven(head: seq<byte>)
    ensures Even(head + [XorAll(head, 0)])
  {
    hide HasBit, Having, XorAll;
    var sum := XorAll(head, 0);
    forall k | 0 <= k < 8
      ensures Having(head + [sum], k) % 2 == 0
    {
      HavingBoth(head, [sum], k);
      HavingOne(sum, k);
      ChecksumIsParity(head, 0, k);
      NoBits(k);
    }
  }

  lemma NoBits(k: nat)
    requires k < 8
    ensures !HasBit(0, k)
  {
  }

  /** The node reads back what the seeder frames. */
  lemma ReadsResponse(op: byte, reply: Reply)
    ensures ReadResponse(ResponseFrame(op, reply)) == Some((op, reply))
  {
    hide XorAll, Even;
    var head := [0x6D, 0x73, op, reply.status] + reply.payload;
    ResponseIsEven(head);
    var frame := ResponseFrame(op, reply);
    assert frame == head + [XorAll(head, 0)];
    assert frame[..2] == Ascii("ms");
    assert frame[4..|frame| - 1] == reply.payload;
  }

  /** The files that the first k frames leave. */
  function FilesBefore(config: Config, files: Files, frames: seq<Token>, k: nat): Files
    requires k <= |frames| && AllWellShaped(frames)
  {
    if k == 0 then files
    else
      var t := frames[k - 1];
      assert WellShaped(t);
      var before := FilesBefore(config, files, frames, k - 1);
      if t.Frame? then Answer(config, before, t.op, t.args).0 else before
  }

  /** What the seeder answers to frame k. */
  function ReplyTo(config: Config, files: Files, frames: seq<Token>, k: nat): Option<Reply>
    requires k < |frames| && AllWellShaped(frames) && frames[k].Frame?
  {
    assert WellShaped(frames[k]);
    Answer(config, FilesBefore(config, files, frames, k), frames[k].op, frames[k].args).1
  }

  lemma {:induction false} FilesBehind(config: Config, files: Files, frames: seq<Token>, k: nat)
    requires 0 < k <= |frames| && AllWellShaped(frames) && frames[0].Frame?
    ensures WellShaped(frames[0]) && AllWellShaped(frames[1..])
    ensures FilesBefore(config, files, frames, k) ==
            FilesBefore(config, Answer(config, files, frames[0].op, frames[0].args).0, frames[1..], k - 1)
  {
    hide Answer;
    assert WellShaped(frames[0]);
    if k > 1 {
      FilesBehind(config, files, frames, k - 1);
      assert frames[1..][k - 2] == frames[k - 1];
    } else {
      assert FilesBefore(config, files, frames, 0) == files;
    }
  }

  /** Every response that answers frames in order reads as the opcode of its frame and the seeder's reply to it. */
  lemma {:induction false} ResponsesRead(config: Config, files: Files, frames: seq<Token>, responses: seq<seq<byte>>,
                                         k: nat)
    requires AnsweredInOrder(config, files, frames, responses) && AllWellShaped(frames) && k < |frames|
    ensures |responses| == |frames| && frames[k].Frame? && ReplyTo(config, files, frames, k).Some?
    ensures ReadResponse(responses[k]) == Some((frames[k].op, ReplyTo(config, files, frames, k).value))
    decreases k
  {
    hide Answer, ReadResponse, ResponseFrame;
    AnsweredOneByOne(config, files, frames, responses);
    var (after, reply) := Answer(config, files, frames[0].op, frames[0].args);
    if k == 0 {
      ReadsResponse(frames[0].op, reply.value);
    } else {
      FilesBehind(config, files, frames, k);
      ResponsesRead(config, after, frames[1..], responses[1..], k - 1);
    }
  }

  // ---- sending requests ----

  /** A request: opcode and arguments. */
  type Sent = (byte, seq<byte>)

  ghost predicate AllFormed(requests: seq<Sent>) {
    forall r :: r in requests ==> WellFormed(r.0, r.1)
  }

  /** The requests one after the other, as bytes. */
  function WireOf(requests: seq<Sent>): seq<byte> {
    if requests == [] then [] else RequestBytes(requests[0].0, requests[0].1) + WireOf(requests[1..])
  }

  function FramesFor(requests: seq<Sent>): (t: seq<Token>)
    ensures |t| == |requests|
    ensures forall k :: 0 <= k < |requests| ==> t[k] == Frame(requests[k].0, requests[k].1)
  {
    seq(|requests|, k requires 0 <= k < |requests| => Frame(requests[k].0, requests[k].1))
  }

  /** The host takes the bytes of well-formed requests for exactly these frames. */
  lemma {:induction false} WireTokens(requests: seq<Sent>)
    requires AllFormed(requests)
    ensures Tokens(Events(WireOf(requests))) == FramesFor(requests)
    decreases |requests|
  {
    hide Tokens, RequestBytes, WellFormed;
    if requests == [] {
      NothingSent();
    } else {
      var first, more := requests[0], WireOf(requests[1..]);
      assert first in requests;
      WireTokens(requests[1..]);
      FrameTokens(first.0, first.1, Events(more));
      assert Events(WireOf(requests)) == Events(RequestBytes(first.0, first.1)) + Events(more);
      assert FramesFor(requests) == [Frame(first.0, first.1)] + FramesFor(requests[1..]);
    }
  }

  lemma NothingSent()
    ensures Tokens(Events([])) == [] && FramesFor([]) == []
  {
    assert Events([]) == [];
  }

  // ---- storage requests as bytes ----

  /** What a node can ask of the store: lengths fit their fields. */
  predicate Askable(q: Storage) {
    && (q.Write? ==> q.data.Some? && |q.data.value| <= 512)
    && (q.SRead? ==> q.len < 0x1_0000)
  }

  /** Four bytes, lowest first. */
  function Four(v: U32): (s: seq<byte>)
    ensures |s| == 4
  {
    [v % 256, v / 256 % 256, v / 65536 % 256, v / 16777216]
  }

  function Two(n: nat): (s: seq<byte>)
    requires n < 0x1_0000
    ensures |s| == 2
  {
    [n % 256, n / 256]
  }

  function OpOf(q: Storage): byte {
    match q
    case Stat(_) => 4
    case Begin(_, _) => 5
    case Write(_, _, _) => 6
    case SRead(_, _, _) => 7
    case Fin(_) => 8
  }

  /** The arguments in their byte layout. */
  function ArgsOf(q: Storage): seq<byte>
    requires Askable(q)
  {
    match q
    case Stat(mid) => mid
    case Begin(mid, total) => mid + Four(total)
    case Write(mid, off, data) => mid + Four(off) + Two(|data.value|) + data.value
    case SRead(mid, off, len) => mid + Four(off) + Two(len)
    case Fin(mid) => mid
  }

  lemma FourRead(v: U32, s: seq<byte>, off: nat)
    requires off + 4 <= |s| && s[off..off + 4] == Four(v)
    ensures RdU32(s, off) == v
  {
    assert Four(v) == Le32(v);
    ReadWritten(v, s, off);
  }

  lemma TwoRead(n: nat, s: seq<byte>, off: nat)
    requires n < 0x1_0000 && off + 2 <= |s| && s[off..off + 2] == Two(n)
    ensures RdU16(s, off) == n
  {
    var d := s[off..off + 2];
    assert d[0] == s[off] && d[1] == s[off + 1];
  }

  /** A storage request as a node sends it is well formed, and the host decodes it to what was asked. */
  lemma DecodesBack(q: Storage)
    requires Askable(q)
    ensures WellFormed(OpOf(q), ArgsOf(q)) && DecodeStorage(OpOf(q), ArgsOf(q)) == q
  {
    hide RdU32, RdU16, Four, Two;
    var s := ArgsOf(q);
    match q {
      case Stat(mid) =>
        assert s[..4] == mid;
      case Fin(mid) =>
        assert s[..4] == mid;
      case Begin(mid, total) =>
        assert s[..4] == mid && s[4..8] == Four(total);
        FourRead(total, s, 4);
      case SRead(mid, off, len) =>
        assert s[..4] == mid && s[4..8] == Four(off) && s[8..10] == Two(len);
        FourRead(off, s, 4);
        TwoRead(len, s, 8);
      case Write(mid, off, data) =>
        assert s[..4] == mid && s[4..8] == Four(off) && s[8..10] == Two(|data.value|) && s[10..] == data.value;
        FourRead(off, s, 4);
        TwoRead(|data.value|, s, 8);
        assert s[10..10 + |data.value|] == data.value;
    }
  }

  /** COUNT, DESCRIBE and READ requests as a node sends them are well formed, too. */
  lemma FolderRequestsFormed(index: byte, off: U32, len: nat, block: seq<byte>)
    requires len < 0x1_0000 && |block| == 7
    ensures WellFormed(1, []) && WellFormed(2, [index]) && WellFormed(3, [index] + Four(off) + Two(len))
    ensures WellFormed(9, block)
    ensures ReadArgs(index, off, len) == [index] + Four(off) + Two(len)
  {
    assert Four(off) == Le32(off) && Two(len) == Le16(len);
  }

  function Asked(run: seq<Storage>): (requests: seq<Sent>)
    requires forall q :: q in run ==> Askable(q)
    ensures |requests| == |run|
    ensures forall k :: 0 <= k < |run| ==> requests[k] == (OpOf(run[k]), ArgsOf(run[k]))
  {
    seq(|run|, k requires 0 <= k < |run| => assert run[k] in run; (OpOf(run[k]), ArgsOf(run[k])))
  }

  lemma AskedFormed(run: seq<Storage>)
    requires forall q :: q in run ==> Askable(q)
    ensures AllFormed(Asked(run))
  {
    hide WellFormed, ArgsOf, OpOf;
    forall r | r in Asked(run)
      ensures WellFormed(r.0, r.1)
    {
      var k :| 0 <= k < |run| && Asked(run)[k] == r;
      assert run[k] in run;
      DecodesBack(run[k]);
    }
  }

  lemma AnswersStorage(config: Config, files: Files, q: Storage)
    requires Askable(q) && config.storing
    ensures WellFormed(OpOf(q), ArgsOf(q))
    ensures Answer(config, files, OpOf(q), ArgsOf(q)) ==
            (Store(files, config.seed, q).0, Some(Store(files, config.seed, q).1))
  {
    hide Store, WellFormed, DecodeStorage, Describe, ArgsOf;
    DecodesBack(q);
    OpIsStorage(q);
    HeaderHolds(q);
  }

  lemma OpIsStorage(q: Storage)
    ensures OpOf(q) in {OP_STAT, OP_BEGIN, OP_WRITE, OP_SREAD, OP_FIN}
  {
  }

  lemma HeaderHolds(q: Storage)
    requires Askable(q) && WellFormed(OpOf(q), ArgsOf(q))
    ensures RequestHeaderLen(OpOf(q)).Some? && |ArgsOf(q)| >= RequestHeaderLen(OpOf(q)).value
  {
  }

  lemma StoreOnWire(config: Config, w: World, q: Storage)
    requires config.storing && Askable(q)
    ensures var after := Play(config, w, [Frame(OpOf(q), ArgsOf(q))]);
            && after.files == Store(w.files, config.seed, q).0
            && |after.wire| == |w.wire| + 1 && after.wire[..|w.wire|] == w.wire
            && ReadResponse(after.wire[|w.wire|]) == Some((OpOf(q), Store(w.files, config.seed, q).1))
  {
    hide Play, Store, Answer, ReadResponse, ResponseFrame, OpOf, ArgsOf;
    PlayOne(config, w, Frame(OpOf(q), ArgsOf(q)));
    AnswersStorage(config, w.files, q);
    ReadsResponse(OpOf(q), Store(w.files, config.seed, q).1);
    HeaderHolds(q);
  }

  /** Storage requests on the wire do to the directory what the run of the store does, and the response to each reads
      as the store's reply. */
  lemma {:induction false} StoresOnWire(config: Config, w: World, run: seq<Storage>, k: nat)
    requires config.storing && (forall q :: q in run ==> Askable(q)) && k < |run|
    ensures var after := Play(config, w, FramesFor(Asked(run)));
            && after.files == AfterRun(w.files, config.seed, run)
            && |after.wire| == |w.wire| + |run| && w.wire <= after.wire
            && ReadResponse(after.wire[|w.wire| + k]) ==
               Some((OpOf(run[k]), Store(AfterRun(w.files, config.seed, run[..k]), config.seed, run[k]).1))
    decreases |run|
  {
    hide Play, Store, Answer, ReadResponse, ResponseFrame, OpOf, ArgsOf;
    var n := |run| - 1;
    var init, q := run[..n], run[n];
    assert q in run;
    var frames := FramesFor(Asked(init));
    assert FramesFor(Asked(run)) == frames + [Frame(OpOf(q), ArgsOf(q))];
    PlayBoth(config, w, frames, [Frame(OpOf(q), ArgsOf(q))]);
    StoreOnWire(config, Play(config, w, frames), q);
    hide Apply;
    if n == 0 {
      NothingPlayed(config, w);
      assert run[..0] == [];
    } else {
      StoresOnWire(config, w, init, if k < n then k else 0);
      if k < n {
        assert init[..k] == run[..k] && init[k] == run[k];
      }
    }
  }

  lemma NothingPlayed(config: Config, w: World)
    ensures FramesFor(Asked([])) == [] && Play(config, w, []) == w
  {
  }

  lemma {:induction false} AfterFirst(files: Files, seed: Option<WarmStart>, q: Storage, run: seq<Storage>)
    ensures AfterRun(files, seed, [q] + run) == AfterRun(Store(files, seed, q).0, seed, run)
    decreases |run|
  {
    hide Store;
    if run == [] {
      assert [q] + run == [q] && [q][..0] == [];
    } else {
      var init := run[..|run| - 1];
      AfterFirst(files, seed, q, init);
      assert ([q] + run)[..|run|] == [q] + init;
    }
  }

  /** The whole capture in bytes: BEGIN, the slices of a container in any order with repeats, among other storage
      requests, and FIN. The host then holds exactly that container as published, and says so. */
  lemma CaptureOnWire(config: Config, files: Files, run: seq<Storage>, mid: Mid, c: seq<byte>)
    requires config.storing && Publishable(c) && |c| < U32_LIMIT
    requires forall q :: q in run ==> Askable(q) && Contributes(c, mid, q)
    requires forall i :: 0 <= i < |c| ==> Brought(run, mid, i)
    ensures var whole := [Begin(mid, |c|)] + run + [Fin(mid)];
            && (forall q :: q in whole ==> Askable(q))
            && var after := Play(config, World(files, [], [], []), Tokens(Events(WireOf(Asked(whole)))));
               && Done(mid) in after.files && after.files[Done(mid)] == c && Part(mid) !in after.files
               && |after.wire| == |whole|
               && ReadResponse(after.wire[|run| + 1]) == Some((8, Reply(STATUS_OK, [])))
  {
    hide Play, Store, Tokens, ReadResponse, WireOf, Publishable, Contributes, Brought, AfterRun;
    var whole := [Begin(mid, |c|)] + run + [Fin(mid)];
    forall q | q in whole ensures Askable(q) {
      assert q in [Begin(mid, |c|)] || q in run || q in [Fin(mid)];
    }
    AskedFormed(whole);
    WireTokens(Asked(whole));
    var w := World(files, [], [], []);
    StoresOnWire(config, w, whole, |run| + 1);
    var begun := Store(files, config.seed, Begin(mid, |c|)).0;
    assert whole[..|run| + 1] == [Begin(mid, |c|)] + run;
    AfterFirst(files, config.seed, Begin(mid, |c|), run);
    AfterLast(files, config.seed, [Begin(mid, |c|)] + run, Fin(mid));
    CaptureCompletes(files, config.seed, run, mid, c);
    FinSaysNothing(AfterRun(begun, config.seed, run), config.seed, mid);
    assert OpOf(Fin(mid)) == 8;
  }

  lemma AfterLast(files: Files, seed: Option<WarmStart>, run: seq<Storage>, q: Storage)
    ensures AfterRun(files, seed, run + [q]) == Store(AfterRun(files, seed, run), seed, q).0
  {
    hide Store;
    assert (run + [q])[..|run|] == run;
  }

  lemma FinSaysNothing(files: Files, seed: Option<WarmStart>, mid: Mid)
    ensures Store(files, seed, Fin(mid)).1.payload == []
  {
  }

  // ---- reading a container over the wire ----

  /** READ requests over consecutive stretches. */
  function Reads(index: byte, off: nat, lens: seq<nat>): seq<Sent>
    requires off + Sum(lens) < U32_LIMIT && forall k :: 0 <= k < |lens| ==> lens[k] < 0x1_0000
    decreases |lens|
  {
    if lens == [] then []
    else [(OP_READ, ReadArgs(index, off, lens[0]))] + Reads(index, off + lens[0], lens[1..])
  }

  /** The payloads of successful READ responses, joined; None when one is anything else. */
  ghost function JoinPayloads(responses: seq<seq<byte>>): Option<seq<byte>> {
    if responses == [] then Some([])
    else
      match ReadResponse(responses[0])
      case None => None
      case Some((op, reply)) =>
        if op != OP_READ || reply.status != STATUS_OK then None
        else
          (match JoinPayloads(responses[1..])
           case None => None
           case Some(more) => Some(reply.payload + more))
  }

  /** What comes back over the wire for READ requests joins to what the seeder answers. */
  lemma {:induction false} FetchOnWire(config: Config, w: World, index: byte, off: nat, lens: seq<nat>)
    requires off + Sum(lens) < U32_LIMIT && forall k :: 0 <= k < |lens| ==> lens[k] < 0x1_0000
    ensures AllFormed(Reads(index, off, lens))
    ensures var after := Play(config, w, FramesFor(Reads(index, off, lens)));
            && after.files == w.files && w.wire <= after.wire
            && JoinPayloads(after.wire[|w.wire|..]) == Fetch(config, w.files, index, off, lens)
    decreases |lens|
  {
    hide Play, Answer, ReadArgs, ReadResponse, ResponseFrame, WellFormed;
    if lens == [] {
      NothingRead(config, w);
      assert w.wire[|w.wire|..] == [];
    } else {
      var args, rest := ReadArgs(index, off, lens[0]), Reads(index, off + lens[0], lens[1..]);
      FolderRequestsFormed(index, off, lens[0], [0, 0, 0, 0, 0, 0, 0]);
      ReadReplies(config, w.files, index, off, lens[0]);
      var reply := Answer(config, w.files, OP_READ, args).1.value;
      var w1 := w.(line := [], wire := w.wire + [ResponseFrame(OP_READ, reply)], heard := w.heard + [FrameSeen]);
      PlayRead(config, w, args, FramesFor(rest));
      assert FramesFor(Reads(index, off, lens)) == [Frame(OP_READ, args)] + FramesFor(rest);
      FetchOnWire(config, w1, index, off + lens[0], lens[1..]);
      ReadsResponse(OP_READ, reply);
      var came := Play(config, w1, FramesFor(rest)).wire;
      assert came[|w.wire|] == w1.wire[|w.wire|] == ResponseFrame(OP_READ, reply);
      assert came[|w.wire|..][1..] == came[|w1.wire|..];
      assert came[|w.wire|..][0] == ResponseFrame(OP_READ, reply);
    }
  }

  lemma NothingRead(config: Config, w: World)
    ensures FramesFor([]) == [] && Play(config, w, []) == w
  {
  }

  lemma PlayRead(config: Config, w: World, args: seq<byte>, more: seq<Token>)
    requires |args| == 7
    requires Answer(config, w.files, OP_READ, args).1.Some? && Answer(config, w.files, OP_READ, args).0 == w.files
    ensures Play(config, w, [Frame(OP_READ, args)] + more) ==
            Play(config, w.(line := [],
                            wire := w.wire + [ResponseFrame(OP_READ, Answer(config, w.files, OP_READ, args).1.value)],
                            heard := w.heard + [FrameSeen]), more)
  {
    hide Play, Answer, ResponseFrame;
    PlayFirst(config, w, Frame(OP_READ, args), more);
  }

  /** Over the wire, a DESCRIBE request brings the description of a served container, and READ requests of any
      lengths over the payload it names bring exactly that payload. */
  lemma NodeFetchesOnWire(lib: Library, config: Config, files: Files, index: byte, lens: seq<nat>)
    requires index < |config.folder|
    requires Parse(lib, config.folder[index].bytes) == Ok(config.folder[index].manifest)
    requires forall k :: 0 <= k < |lens| ==> lens[k] < 0x1_0000
    ensures var w0, d := World(files, [], [], []), Describe(config.folder[index]);
            var told := Play(config, w0, Tokens(Events(WireOf([(2, [index])])))).wire;
            && |told| == 1 && ReadResponse(told[0]) == Some((2, Reply(STATUS_OK, d)))
            && (Sum(lens) == RdU32(d, 30) ==>
                  && RdU32(d, 26) + Sum(lens) < U32_LIMIT
                  && JoinPayloads(Play(config, w0, Tokens(Events(WireOf(Reads(index, RdU32(d, 26), lens))))).wire) ==
                     Some(PayloadOf(lib, config.folder[index].bytes)))
  {
    hide Play, Tokens, WireOf, Parse, RdU32, Describe, PayloadOf, StoredLeaves, Fetch, ReadResponse, Reads,
         JoinPayloads, ResponseFrame, Answer;
    var w0, d := World(files, [], [], []), Describe(config.folder[index]);
    DescribeReplies(config, files, index);
    FolderRequestsFormed(index, 0, 0, [0, 0, 0, 0, 0, 0, 0]);
    WireTokens([(2, [index])]);
    assert FramesFor([(2, [index])]) == [Frame(2, [index])];
    DescribeOnWire(config, w0, index);
    ReadsResponse(2, Reply(STATUS_OK, d));
    NodeFetchesPayload(lib, config, files, index, [], lens);
    if Sum(lens) == RdU32(d, 30) {
      var off := RdU32(d, 26);
      FetchOnWire(config, w0, index, off, lens);
      WireTokens(Reads(index, off, lens));
      var came := Play(config, w0, FramesFor(Reads(index, off, lens))).wire;
      assert came[0..] == came;
    }
  }

  lemma DescribeOnWire(config: Config, w: World, index: byte)
    requires index < |config.folder|
    ensures Play(config, w, [Frame(2, [index])]).wire ==
            w.wire + [ResponseFrame(2, Reply(STATUS_OK, Describe(config.folder[index])))]
  {
    hide Play, Describe, ResponseFrame;
    PlayOne(config, w, Frame(2, [index]));
  }
}
