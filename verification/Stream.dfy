/** Console text and binary seeder frames on one wire (src/serve.rs:394-588). The link's input is a sequence
    of read events; a read past its end finds the link closed. */
module Stream {
  import opened Bytes
  import opened Format
  import opened Seeder

  const M: byte := 0x4D
  const S: byte := 0x53
  const WRITE_MAX: nat := 512

  datatype Event = Got(b: byte) | Timeout | Closed

  // ---- one request ----

  datatype Request = Valid(op: byte, args: seq<byte>) | MalformedKnown | Unknown(op: byte)

  /** n bytes off the front of the events, or None when a read brings no byte; that read is consumed. */
  function TakeBytes(ev: seq<Event>, n: nat): (r: (Option<seq<byte>>, seq<Event>))
    ensures |r.1| <= |ev| && (n > 0 && ev != [] ==> |r.1| < |ev|)
    ensures r.0.Some? ==> |r.0.value| == n && |ev| == |r.1| + n
    decreases n
  {
    if n == 0 then (Some([]), ev)
    else if ev == [] then (None, [])
    else if !ev[0].Got? then (None, ev[1..])
    else
      var (more, rest) := TakeBytes(ev[1..], n - 1);
      if more.None? then (None, rest) else (Some([ev[0].b] + more.value), rest)
  }

  function Xor8(x: byte, y: byte): byte { ((x as bv8) ^ (y as bv8)) as byte }

  /** src/serve.rs:440-442 */
  function XorAll(bytes: seq<byte>, seed: byte): byte {
    if bytes == [] then seed else XorAll(bytes[1..], Xor8(seed, bytes[0]))
  }

  lemma TakeNothing(ev: seq<Event>)
    ensures TakeBytes(ev, 0) == (Some([]), ev)
  {
  }

  /** The checksum byte: src/serve.rs:478-485. */
  function ChecksumAt(op: byte, args: seq<byte>, ev: seq<Event>): (Request, seq<Event>) {
    var (sum, rest) := TakeBytes(ev, 1);
    (if sum.Some? && sum.value[0] == XorAll(args, op) then Valid(op, args) else MalformedKnown, rest)
  }

  /** The data of a write and the checksum: src/serve.rs:466-485. */
  function DataAt(op: byte, header: seq<byte>, ev: seq<Event>): (Request, seq<Event>)
    requires op == OP_WRITE ==> |header| >= 10
  {
    var dataLen := if op == OP_WRITE then RdU16(header, 8) else 0;
    if dataLen > WRITE_MAX then (MalformedKnown, ev) else
    var (data, rest) := TakeBytes(ev, dataLen);
    if data.None? then (MalformedKnown, rest) else ChecksumAt(op, header + data.value, rest)
  }

  /** src/serve.rs:451-486, on what follows the magic. */
  function RequestAt(ev: seq<Event>): (r: (Request, seq<Event>))
    ensures |r.1| <= |ev| && (ev != [] ==> |r.1| < |ev|)
    ensures r.0.Unknown? ==> RequestHeaderLen(r.0.op).None? && ev == [Got(r.0.op)] + r.1
    ensures r.0.Valid? ==> RequestHeaderLen(r.0.op).Some? && |r.0.args| >= RequestHeaderLen(r.0.op).value
    ensures ev == [] ==> r.0.MalformedKnown?
  {
    if ev == [] then (MalformedKnown, [])
    else if !ev[0].Got? then (MalformedKnown, ev[1..])
    else
      var op := ev[0].b;
      match RequestHeaderLen(op)
      case None => (Unknown(op), ev[1..])
      case Some(n) =>
        var (header, rest) := TakeBytes(ev[1..], n);
        if header.None? then (MalformedKnown, rest) else DataAt(op, header.value, rest)
  }

  // ---- the tokeniser: what the wire says, read from left to right ----

  datatype Token = Text(b: byte) | Frame(op: byte, args: seq<byte>) | Damaged

  /** A frame starts exactly where M, S and a known opcode stand; any other byte is text. Timeouts between
      bytes of text, or between M and S, say nothing. */
  function Tokens(ev: seq<Event>): seq<Token>
    decreases |ev|, 1
  {
    if ev == [] || ev[0].Closed? then []
    else if ev[0].Timeout? then Tokens(ev[1..])
    else if ev[0].b != M then [Text(ev[0].b)] + Tokens(ev[1..])
    else AfterM(ev[1..])
  }

  /** The tokens from an M on whose next event is the first of ev. */
  function AfterM(ev: seq<Event>): seq<Token>
    decreases |ev|, 2
  {
    if ev == [] || ev[0].Closed? then []
    else if ev[0].Timeout? then AfterM(ev[1..])
    else if ev[0].b != S then [Text(M)] + Tokens(ev)
    else
      var (request, rest) := RequestAt(ev[1..]);
      match request
      case Valid(op, args) => [Frame(op, args)] + Tokens(rest)
      case MalformedKnown => [Damaged] + Tokens(rest)
      case Unknown(op) => [Text(M), Text(S)] + Tokens(ev[1..])
  }

  /** An M has come in, and what comes next decides whether it is text. */
  predicate Waits(ev: seq<Event>)
    decreases |ev|, 1
  {
    if ev == [] || ev[0].Closed? then false
    else if ev[0].Timeout? || ev[0].b != M then Waits(ev[1..])
    else WaitsAfterM(ev[1..])
  }

  predicate WaitsAfterM(ev: seq<Event>)
    decreases |ev|, 2
  {
    if ev == [] then true
    else if ev[0].Closed? then false
    else if ev[0].Timeout? then WaitsAfterM(ev[1..])
    else if ev[0].b != S then Waits(ev)
    else
      var (request, rest) := RequestAt(ev[1..]);
      Waits(if request.Unknown? then ev[1..] else rest)
  }

  // ---- what the host makes of the tokens ----

  /** Length in bytes of a line held as UTF-8, one character for each byte received. */
  function Utf8Len(line: seq<byte>): nat {
    if line == [] then 0 else Utf8Len(line[..|line| - 1]) + if line[|line| - 1] < 0x80 then 1 else 2
  }

  /** `trim_end_matches(['\r', '\n'])`. */
  function TrimEnd(line: seq<byte>): seq<byte> {
    if line != [] && line[|line| - 1] in {0x0A, 0x0D} then TrimEnd(line[..|line| - 1]) else line
  }

  /** src/serve.rs:569-577: the line after one byte of text, and what is handed out. */
  function PushByte(line: seq<byte>, b: byte): (seq<byte>, Option<seq<byte>>) {
    var longer := line + [b];
    if b != 0x0A && Utf8Len(longer) <= 512 then (longer, None)
    else if TrimEnd(longer) == [] then ([], None)
    else ([], Some(TrimEnd(longer)))
  }

  /** src/serve.rs:488-496 */
  function ResponseFrame(op: byte, reply: Reply): seq<byte> {
    var frame := [0x6D, 0x73, op, reply.status] + reply.payload;
    frame + [XorAll(frame, 0)]
  }

  datatype Heard = Line(text: seq<byte>) | FrameSeen

  /** Everything a run has an effect on. */
  datatype World = World(files: Files, line: seq<byte>, wire: seq<seq<byte>>, heard: seq<Heard>)

  function Apply(config: Config, w: World, t: Token): World {
    match t
    case Text(b) =>
      var (line, out) := PushByte(w.line, b);
      w.(line := line, heard := if out.Some? then w.heard + [Line(out.value)] else w.heard)
    case Frame(op, args) =>
      if RequestHeaderLen(op).None? || |args| < RequestHeaderLen(op).value then w else
      var (files, reply) := Answer(config, w.files, op, args);
      World(files, [], if reply.Some? then w.wire + [ResponseFrame(op, reply.value)] else w.wire, w.heard + [FrameSeen])
    case Damaged => w.(line := [], heard := w.heard + [FrameSeen])
  }

  function Play(config: Config, w: World, tokens: seq<Token>): World
    decreases |tokens|
  {
    if tokens == [] then w else Play(config, Apply(config, w, tokens[0]), tokens[1..])
  }

  lemma PlayFirst(config: Config, w: World, t: Token, more: seq<Token>)
    ensures Play(config, w, [t] + more) == Play(config, Apply(config, w, t), more)
  {
    assert ([t] + more)[1..] == more;
  }

  // ---- the link ----

  class Link {
    var input: seq<Event>
    var output: seq<seq<byte>>
    /** For every chunk of output, how much of the input was still unread when it was written. */
    ghost var unread: seq<nat>

    constructor (input: seq<Event>)
      ensures this.input == input && output == [] && unread == []
    {
      this.input := input;
      output, unread := [], [];
    }

    /** src/serve.rs:418-426 */
    method ReadByte() returns (e: Event)
      modifies this`input
      ensures old(input) == [] ==> e == Closed && input == []
      ensures old(input) != [] ==> e == old(input)[0] && input == old(input)[1..]
    {
      if input == [] {
        e := Closed;
      } else {
        e := input[0];
        input := input[1..];
      }
    }

    method WriteAll(bytes: seq<byte>)
      modifies this`output, this`unread
      ensures output == old(output) + [bytes] && unread == old(unread) + [|input|]
    {
      output := output + [bytes];
      unread := unread + [|input|];
    }

    /** src/serve.rs:429-438 */
    method ReadFrameBytes(n: nat) returns (r: Option<seq<byte>>)
      modifies this`input
      ensures (r, input) == TakeBytes(old(input), n)
    {
      var buf: seq<byte> := [];
      ghost var start := input;
      AfterTaken([], TakeBytes(start, n));
      while |buf| < n
        invariant |buf| <= n
        invariant TakeBytes(start, n) == Taken(buf, TakeBytes(input, n - |buf|))
        decreases n - |buf|
      {
        ghost var before := input;
        TakeOne(buf, before, n - |buf|);
        var e := ReadByte();
        if !e.Got? {
          return None;
        }
        buf := buf + [e.b];
      }
      TakeNothing(input);
      r := Some(buf);
      assert buf + [] == buf;
    }

    /** src/serve.rs:451-486 */
    method ReadRequest() returns (r: Request)
      modifies this`input
      ensures (r, input) == RequestAt(old(input))
    {
      hide TakeBytes, DataAt;
      TakeFirst(input);
      var first := ReadFrameBytes(1);
      if first.None? {
        return MalformedKnown;
      }
      var op := first.value[0];
      var hdr := RequestHeaderLen(op);
      if hdr.None? {
        return Unknown(op);
      }
      var args: seq<byte> := [];
      if hdr.value > 0 {
        var header := ReadFrameBytes(hdr.value);
        if header.None? {
          return MalformedKnown;
        }
        args := header.value;
      } else {
        TakeNothing(input);
      }
      r := ReadData(op, args);
    }

    method ReadData(op: byte, header: seq<byte>) returns (r: Request)
      requires op == OP_WRITE ==> |header| >= 10
      modifies this`input
      ensures (r, input) == DataAt(op, header, old(input))
    {
      hide TakeBytes, XorAll;
      var args := header;
      TakeNothing(input);
      assert header + [] == header;
      if op == OP_WRITE {
        var dataLen := RdU16(args, 8);
        if dataLen > WRITE_MAX {
          return MalformedKnown;
        }
        if dataLen > 0 {
          var data := ReadFrameBytes(dataLen);
          if data.None? {
            return MalformedKnown;
          }
          args := args + data.value;
        }
      }
      var sum := ReadFrameBytes(1);
      if sum.None? {
        return MalformedKnown;
      }
      if sum.value[0] == XorAll(args, op) {
        r := Valid(op, args);
      } else {
        r := MalformedKnown;
      }
    }
  }

  function Taken(buf: seq<byte>, r: (Option<seq<byte>>, seq<Event>)): (Option<seq<byte>>, seq<Event>) {
    (if r.0.None? then None else Some(buf + r.0.value), r.1)
  }

  lemma AfterTaken(buf: seq<byte>, r: (Option<seq<byte>>, seq<Event>))
    ensures Taken([], r) == r
  {
    if r.0.Some? {
      assert [] + r.0.value == r.0.value;
    }
  }

  lemma TakeOne(buf: seq<byte>, ev: seq<Event>, n: nat)
    requires n > 0
    ensures Taken(buf, TakeBytes(ev, n)) ==
            if ev == [] then (None, []) else if !ev[0].Got? then (None, ev[1..])
            else Taken(buf + [ev[0].b], TakeBytes(ev[1..], n - 1))
  {
    if ev != [] && ev[0].Got? {
      var more := TakeBytes(ev[1..], n - 1).0;
      if more.Some? {
        assert buf + ([ev[0].b] + more.value) == buf + [ev[0].b] + more.value;
      }
    }
  }

  lemma TakeFirst(ev: seq<Event>)
    ensures TakeBytes(ev, 1) ==
            if ev == [] then (None, []) else if !ev[0].Got? then (None, ev[1..]) else (Some([ev[0].b]), ev[1..])
  {
    if ev != [] {
      TakeNothing(ev[1..]);
      if ev[0].Got? {
        assert [ev[0].b] + [] == [ev[0].b];
      }
    }
  }

  // ---- the stream state ----

  datatype PumpEvent = Activity | TimedOut | LinkClosed | SeederFrame | DeviceLine(text: seq<byte>)

  /** The input still to be interpreted: an M held back, a byte put aside, and what the link will bring. */
  function Pending(pendingM: bool, deferred: Option<byte>, input: seq<Event>): seq<Event> {
    (if pendingM then [Got(M)] else []) + (if deferred.Some? then [Got(deferred.value)] else []) + input
  }

  /** Playing the tokens of ev in w comes to the same as playing those of ev1 in w1. */
  ghost predicate SameOutcome(config: Config, w: World, ev: seq<Event>, w1: World, ev1: seq<Event>) {
    Play(config, w, Tokens(ev)) == Play(config, w1, Tokens(ev1))
  }

  /** The lines a run of text bytes hands out: src/serve.rs:579-587. */
  function PushBytes(line: seq<byte>, bytes: seq<byte>): (seq<byte>, seq<Heard>) {
    if bytes == [] then (line, [])
    else
      var (line1, heard) := PushBytes(line, bytes[..|bytes| - 1]);
      var (line2, out) := PushByte(line1, bytes[|bytes| - 1]);
      (line2, if out.Some? then heard + [Line(out.value)] else heard)
  }

  /** Pushing the two magic bytes never hands out two lines, so keeping only the first loses nothing. */
  lemma MagicPushes(line: seq<byte>)
    ensures var (line1, out1) := PushByte(line, M);
            var (line2, out2) := PushByte(line1, S);
            && PushBytes(line, [M, S]).0 == line2
            && PushBytes(line, [M, S]).1 ==
               (if out1.Some? then [Line(out1.value)] else []) + (if out2.Some? then [Line(out2.value)] else [])
            && !(out1.Some? && out2.Some?)
  {
    hide TrimEnd;
    assert [M, S][..1] == [M] && [M][..0] == [];
    assert PushBytes(line, []) == (line, []);
    assert [] + [S] == [S] && Utf8Len([]) == 0 && [S][..0] == [];
    assert Utf8Len([S]) == 1;
  }

  // ---- one step of the pump ----

  /** What the host is at between steps: the stream state, the capture directory and the unread input. */
  datatype Host = Host(pendingM: bool, deferred: Option<byte>, line: seq<byte>, files: Files, input: seq<Event>)

  /** A step: where it leads, what it reports, the response it writes and the tokens it takes up. */
  datatype Step = Step(host: Host, e: PumpEvent, response: Option<seq<byte>>, tokens: seq<Token>)

  /** src/serve.rs:558-567 */
  function Unframed(h: Host, b: byte, before: seq<Token>): Step {
    if b == M then Step(h.(pendingM := true), Activity, None, before)
    else
      var (line, out) := PushByte(h.line, b);
      Step(h.(line := line), if out.Some? then DeviceLine(out.value) else Activity, None, before + [Text(b)])
  }

  /** src/serve.rs:515-556: the byte behind a pending M. */
  function BehindM(config: Config, h: Host, b: byte): Step {
    if b == S then
      var (request, rest) := RequestAt(h.input);
      var h1 := h.(input := rest);
      match request
      case Valid(op, args) =>
        var (files, reply) := Answer(config, h.files, op, args);
        Step(h1.(line := [], files := files), SeederFrame,
             if reply.Some? then Some(ResponseFrame(op, reply.value)) else None, [Frame(op, args)])
      case MalformedKnown => Step(h1.(line := []), SeederFrame, None, [Damaged])
      case Unknown(op) =>
        var (line, heard) := PushBytes(h.line, [M, S]);
        var h2 := h1.(line := line);
        if heard != [] && heard[0].Line? then
          Step(h2.(deferred := Some(op)), DeviceLine(heard[0].text), None, [Text(M), Text(S)])
        else Unframed(h2, op, [Text(M), Text(S)])
    else
      var (line, out) := PushByte(h.line, M);
      var h1 := h.(line := line);
      if out.Some? then Step(h1.(deferred := Some(b)), DeviceLine(out.value), None, [Text(M)])
      else Unframed(h1, b, [Text(M)])
  }

  function TakeUp(config: Config, h: Host, b: byte): Step {
    if h.pendingM then BehindM(config, h.(pendingM := false), b) else Unframed(h, b, [])
  }

  /** src/serve.rs:501-556 */
  function PumpStep(config: Config, h: Host): Step {
    if h.deferred.Some? then TakeUp(config, h.(deferred := None), h.deferred.value)
    else if h.input == [] then Step(h, LinkClosed, None, [])
    else
      var h1 := h.(input := h.input[1..]);
      match h.input[0]
      case Got(b) => TakeUp(config, h1, b)
      case Timeout => Step(h1, TimedOut, None, [])
      case Closed => Step(h1, LinkClosed, None, [])
  }

  function PendingOf(h: Host): seq<Event> {
    Pending(h.pendingM, h.deferred, h.input)
  }

  /** What every step uses up. */
  function Left(h: Host): nat {
    2 * (|h.input| + if h.deferred.Some? then 1 else 0) + if h.pendingM then 1 else 0
  }

  function Chunk(response: Option<seq<byte>>): seq<seq<byte>> {
    if response.Some? then [response.value] else []
  }

  /** What is heard during a step, seen from its result. */
  function HeardIn(e: PumpEvent): seq<Heard> {
    match e
    case DeviceLine(text) => [Line(text)]
    case SeederFrame => [FrameSeen]
    case _ => []
  }

  /** A step has written its response, if any, when it had read all it reads. */
  ghost predicate Wrote(s: Step, output0: seq<seq<byte>>, unread0: seq<nat>, output: seq<seq<byte>>, unread: seq<nat>) {
    && output == output0 + Chunk(s.response)
    && unread == unread0 + if s.response.Some? then [|s.host.input|] else []
  }

  // ---- a step takes up the next tokens ----

  lemma BehindText(b: byte, rest: seq<Event>)
    requires b != M
    ensures Tokens([Got(b)] + rest) == [Text(b)] + Tokens(rest) && Waits([Got(b)] + rest) == Waits(rest)
  {
    assert ([Got(b)] + rest)[1..] == rest;
  }

  lemma TokensBehindM(rest: seq<Event>)
    ensures Tokens([Got(M)] + rest) == AfterM(rest) && Waits([Got(M)] + rest) == WaitsAfterM(rest)
  {
    hide AfterM, WaitsAfterM;
    assert ([Got(M)] + rest)[1..] == rest;
  }

  lemma BehindTimeout(held: seq<Event>, rest: seq<Event>)
    requires held == [] || held == [Got(M)]
    ensures Tokens(held + ([Timeout] + rest)) == Tokens(held + rest)
    ensures Waits(held + ([Timeout] + rest)) == Waits(held + rest)
  {
    assert ([Timeout] + rest)[1..] == rest;
    assert [] + rest == rest && [] + ([Timeout] + rest) == [Timeout] + rest;
    TokensBehindM([Timeout] + rest);
    TokensBehindM(rest);
  }

  lemma BehindLoneM(b: byte, rest: seq<Event>)
    requires b != S
    ensures Tokens([Got(M)] + ([Got(b)] + rest)) == [Text(M)] + Tokens([Got(b)] + rest)
    ensures Waits([Got(M)] + ([Got(b)] + rest)) == Waits([Got(b)] + rest)
  {
    TokensBehindM([Got(b)] + rest);
    hide Tokens, Waits;
  }

  /** The two magic bytes, and what the request behind them turns out to be. */
  lemma MagicOutcome(rest: seq<Event>)
    ensures var ev := [Got(M)] + ([Got(S)] + rest);
            var (request, after) := RequestAt(rest);
            match request {
              case Valid(op, args) => Tokens(ev) == [Frame(op, args)] + Tokens(after) && Waits(ev) == Waits(after)
              case MalformedKnown => Tokens(ev) == [Damaged] + Tokens(after) && Waits(ev) == Waits(after)
              case Unknown(op) =>
                && rest == [Got(op)] + after
                && Tokens(ev) == [Text(M), Text(S)] + Tokens(rest) && Waits(ev) == Waits(rest)
            }
  {
    hide RequestAt, Tokens, Waits;
    TokensBehindM([Got(S)] + rest);
    assert ([Got(S)] + rest)[1..] == rest;
    if RequestAt(rest).0.Unknown? {
      UnknownIsFirst(rest);
    }
  }

  lemma UnknownIsFirst(ev: seq<Event>)
    requires RequestAt(ev).0.Unknown?
    ensures ev == [Got(RequestAt(ev).0.op)] + RequestAt(ev).1
  {
  }

  /** Accepting an unframed byte: an M is held back, any other byte is text. */
  lemma UnframedTokens(h: Host, b: byte, before: seq<Token>)
    requires !h.pendingM && h.deferred.None?
    ensures var s := Unframed(h, b, before);
            && before + Tokens([Got(b)] + h.input) == s.tokens + Tokens(PendingOf(s.host))
            && Waits([Got(b)] + h.input) == Waits(PendingOf(s.host))
            && s.host.input == h.input && s.host.deferred.None? && !s.e.LinkClosed?
  {
    hide Tokens, Waits, PushByte;
    if b == M {
      assert PendingOf(h.(pendingM := true)) == [Got(M)] + h.input;
    } else {
      BehindText(b, h.input);
      assert PendingOf(h.(line := PushByte(h.line, b).0)) == h.input;
      assert before + ([Text(b)] + Tokens(h.input)) == before + [Text(b)] + Tokens(h.input);
    }
  }

  lemma BehindMTokens(config: Config, h: Host, b: byte)
    requires !h.pendingM && h.deferred.None?
    ensures var s := BehindM(config, h, b);
            && Tokens([Got(M)] + ([Got(b)] + h.input)) == s.tokens + Tokens(PendingOf(s.host))
            && Waits([Got(M)] + ([Got(b)] + h.input)) == Waits(PendingOf(s.host))
            && Left(s.host) <= 2 * |h.input| + 2 && !s.e.LinkClosed?
  {
    hide Tokens, Waits, PushByte, PushBytes, RequestAt, Answer, ResponseFrame;
    if b == S {
      MagicOutcome(h.input);
      var (request, rest) := RequestAt(h.input);
      var h1 := h.(input := rest);
      RequestShrinks(h.input);
      match request {
        case Valid(op, args) =>
          PendingNothing(rest);
        case MalformedKnown =>
          PendingNothing(rest);
        case Unknown(op) =>
          var h2 := h1.(line := PushBytes(h.line, [M, S]).0);
          PendingOne(op, rest);
          UnframedTokens(h2, op, [Text(M), Text(S)]);
      }
    } else {
      BehindLoneM(b, h.input);
      PendingOne(b, h.input);
      UnframedTokens(h.(line := PushByte(h.line, M).0), b, [Text(M)]);
    }
  }

  lemma TakeUpTokens(config: Config, h: Host, b: byte)
    requires h.deferred.None?
    ensures var s := TakeUp(config, h, b);
            var ev := if h.pendingM then [Got(M)] + ([Got(b)] + h.input) else [Got(b)] + h.input;
            && Tokens(ev) == s.tokens + Tokens(PendingOf(s.host)) && Waits(ev) == Waits(PendingOf(s.host))
            && Left(s.host) < 2 * |h.input| + 2 + (if h.pendingM then 1 else 0) && !s.e.LinkClosed?
  {
    hide Tokens, Waits, BehindM;
    if h.pendingM {
      BehindMTokens(config, h.(pendingM := false), b);
    } else {
      UnframedTokens(h, b, []);
      assert [] + Tokens([Got(b)] + h.input) == Tokens([Got(b)] + h.input);
    }
  }

  /** A step takes up the next tokens of the input, and uses input up; a step that finds the link closed finds
      no token left. */
  lemma StepTokens(config: Config, h: Host)
    ensures var s := PumpStep(config, h);
            if s.e == LinkClosed then
              && Tokens(PendingOf(h)) == [] && s.tokens == [] && s.response.None?
              && s.host == h.(input := s.host.input) && |s.host.input| <= |h.input|
            else
              && Tokens(PendingOf(h)) == s.tokens + Tokens(PendingOf(s.host))
              && Waits(PendingOf(h)) == Waits(PendingOf(s.host))
              && Left(s.host) < Left(h)
  {
    hide Tokens, Waits, TakeUp;
    var m: seq<Event> := if h.pendingM then [Got(M)] else [];
    if h.deferred.Some? {
      TakeUpTokens(config, h.(deferred := None), h.deferred.value);
      PendingByte(h.pendingM, h.deferred.value, h.input, h.input, h.deferred);
    } else if h.input == [] || h.input[0].Closed? {
      PendingClosed(h.pendingM, h.input);
    } else {
      var rest := h.input[1..];
      assert h.input == [h.input[0]] + rest;
      if h.input[0].Timeout? {
        assert PendingOf(h) == m + ([Timeout] + rest) && PendingOf(h.(input := rest)) == m + rest;
        BehindTimeout(m, rest);
        assert [] + Tokens(m + rest) == Tokens(m + rest);
      } else {
        TakeUpTokens(config, h.(input := rest), h.input[0].b);
        PendingByte(h.pendingM, h.input[0].b, h.input, rest, None);
      }
    }
  }

  lemma PendingClosed(held: bool, input: seq<Event>)
    requires input == [] || input[0].Closed?
    ensures Tokens(Pending(held, None, input)) == []
  {
    assert Pending(held, None, input) == (if held then [Got(M)] else []) + input;
    assert [] + input == input;
    TokensBehindM(input);
  }

  /** The byte a step takes up is the first one behind a pending M. */
  lemma PendingByte(held: bool, b: byte, input: seq<Event>, rest: seq<Event>, aside: Option<byte>)
    requires if aside.Some? then b == aside.value && rest == input else input == [Got(b)] + rest
    ensures Pending(held, aside, input) == if held then [Got(M)] + ([Got(b)] + rest) else [Got(b)] + rest
  {
  }

  lemma PendingNothing(input: seq<Event>)
    ensures Pending(false, None, input) == input
  {
  }

  lemma PendingOne(b: byte, input: seq<Event>)
    ensures Pending(false, Some(b), input) == [Got(b)] + input
  {
  }

  lemma RequestShrinks(ev: seq<Event>)
    ensures |RequestAt(ev).1| <= |ev|
    ensures RequestAt(ev).0.Valid? ==>
              && RequestHeaderLen(RequestAt(ev).0.op).Some?
              && |RequestAt(ev).0.args| >= RequestHeaderLen(RequestAt(ev).0.op).value
    ensures RequestAt(ev).0.Unknown? ==> |RequestAt(ev).1| + 1 == |ev|
  {
  }

  // ---- a step does what its tokens say ----

  /** The host's part of the world, with what has been written and heard so far. */
  function WorldOf(h: Host, wire: seq<seq<byte>>, heard: seq<Heard>): World {
    World(h.files, h.line, wire, heard)
  }

  lemma PlayOne(config: Config, w: World, t: Token)
    ensures Play(config, w, [t]) == Apply(config, w, t)
  {
    assert [t][1..] == [];
  }

  /** Playing two runs of tokens one after the other. */
  lemma {:induction false} PlayBoth(config: Config, w: World, a: seq<Token>, b: seq<Token>)
    ensures Play(config, w, a + b) == Play(config, Play(config, w, a), b)
    decreases |a|
  {
    hide Apply;
    if a == [] {
      assert a + b == b;
    } else {
      assert (a + b)[1..] == a[1..] + b;
      PlayBoth(config, Apply(config, w, a[0]), a[1..], b);
    }
  }

  lemma UnframedApplies(config: Config, w: World, h: Host, b: byte, before: seq<Token>, wire: seq<seq<byte>>,
                        heard: seq<Heard>)
    requires Play(config, w, before) == WorldOf(h, wire, heard)
    ensures var s := Unframed(h, b, before);
            && s.response.None?
            && Play(config, w, s.tokens) == WorldOf(s.host, wire, heard + HeardIn(s.e))
  {
    hide PushByte, Play;
    if b == M {
      assert heard + [] == heard;
    } else {
      PlayBoth(config, w, before, [Text(b)]);
      PlayOne(config, WorldOf(h, wire, heard), Text(b));
      assert heard + [] == heard;
    }
  }

  /** Pushing the magic as literal text is playing its two bytes. */
  lemma MagicApplied(config: Config, w: World)
    ensures var (line, heard) := PushBytes(w.line, [M, S]);
            && Play(config, w, [Text(M), Text(S)]) == World(w.files, line, w.wire, w.heard + heard)
            && (heard == [] || (|heard| == 1 && heard[0].Line?))
  {
    MagicPushes(w.line);
    hide PushByte, PushBytes;
    PlayFirst(config, w, Text(M), [Text(S)]);
    assert [Text(M)] + [Text(S)] == [Text(M), Text(S)];
    PlayOne(config, Apply(config, w, Text(M)), Text(S));
  }

  lemma BehindMApplies(config: Config, h: Host, b: byte, wire: seq<seq<byte>>, heard: seq<Heard>)
    ensures var s := BehindM(config, h, b);
            Play(config, WorldOf(h, wire, heard), s.tokens) ==
              WorldOf(s.host, wire + Chunk(s.response), heard + HeardIn(s.e))
  {
    hide Play, PushByte, PushBytes, RequestAt, Answer, ResponseFrame;
    var w := WorldOf(h, wire, heard);
    assert wire + [] == wire && heard + [] == heard;
    if b == S {
      var (request, rest) := RequestAt(h.input);
      RequestShrinks(h.input);
      match request {
        case Valid(op, args) =>
          PlayOne(config, w, Frame(op, args));
        case MalformedKnown =>
          PlayOne(config, w, Damaged);
        case Unknown(op) =>
          MagicApplied(config, w);
          var h2 := h.(input := rest, line := PushBytes(h.line, [M, S]).0);
          if PushBytes(h.line, [M, S]).1 == [] {
            UnframedApplies(config, w, h2, op, [Text(M), Text(S)], wire, heard);
          }
      }
    } else {
      PlayOne(config, w, Text(M));
      var (line, out) := PushByte(h.line, M);
      if out.None? {
        UnframedApplies(config, w, h.(line := line), b, [Text(M)], wire, heard);
      }
    }
  }

  /** A step does to files, line, wire and lines heard what its tokens say, and nothing else. */
  lemma StepApplies(config: Config, h: Host, wire: seq<seq<byte>>, heard: seq<Heard>)
    ensures var s := PumpStep(config, h);
            Play(config, WorldOf(h, wire, heard), s.tokens) ==
              WorldOf(s.host, wire + Chunk(s.response), heard + HeardIn(s.e))
  {
    hide BehindM, Apply;
    assert wire + [] == wire && heard + [] == heard;
    if h.deferred.Some? || (h.input != [] && h.input[0].Got?) {
      var h1 := if h.deferred.Some? then h.(deferred := None) else h.(input := h.input[1..]);
      var b := if h.deferred.Some? then h.deferred.value else h.input[0].b;
      if h.pendingM {
        BehindMApplies(config, h1.(pendingM := false), b, wire, heard);
      } else {
        UnframedApplies(config, WorldOf(h, wire, heard), h1, b, [], wire, heard);
      }
    }
  }

  /** One step changes nothing in what the input comes to. */
  lemma StepKeepsOutcome(config: Config, h: Host, wire: seq<seq<byte>>, heard: seq<Heard>)
    requires PumpStep(config, h).e != LinkClosed
    ensures var s := PumpStep(config, h);
            SameOutcome(config, WorldOf(h, wire, heard), PendingOf(h),
                        WorldOf(s.host, wire + Chunk(s.response), heard + HeardIn(s.e)), PendingOf(s.host))
  {
    hide PumpStep, Play, Tokens;
    var s := PumpStep(config, h);
    StepTokens(config, h);
    StepApplies(config, h, wire, heard);
    PlayBoth(config, WorldOf(h, wire, heard), s.tokens, Tokens(PendingOf(s.host)));
  }

  class StreamState {
    var pendingM: bool
    var deferred: Option<byte>
    var line: seq<byte>
    ghost var heard: seq<Heard>

    constructor ()
      ensures !pendingM && deferred == None && line == [] && heard == []
    {
      pendingM, deferred, line, heard := false, None, [], [];
    }

    ghost function HostNow(link: Link, core: SeederCore): Host
      reads this, link, core
    {
      Host(pendingM, deferred, line, core.files, link.input)
    }

    ghost function WorldNow(link: Link, core: SeederCore): World
      reads this, link, core
    {
      World(core.files, line, link.output, heard)
    }

    ghost function PendingNow(link: Link): seq<Event>
      reads this, link
    {
      Pending(pendingM, deferred, link.input)
    }

    /** What every step of the pump uses up. */
    ghost function Remaining(link: Link): nat
      reads this, link
    {
      2 * (|link.input| + if deferred.Some? then 1 else 0) + if pendingM then 1 else 0
    }

    /** src/serve.rs:569-577 */
    method PushText(b: byte) returns (out: Option<seq<byte>>)
      modifies this`line
      ensures (line, out) == PushByte(old(line), b)
    {
      line := line + [b];
      if b != 0x0A && Utf8Len(line) <= 512 {
        return None;
      }
      var trimmed := TrimEnd(line);
      line := [];
      if trimmed == [] {
        return None;
      }
      out := Some(trimmed);
    }

    /** src/serve.rs:579-587 */
    method PushLiteral(bytes: seq<byte>) returns (emitted: Option<seq<byte>>)
      modifies this`line
      ensures line == PushBytes(old(line), bytes).0
      ensures var lines := PushBytes(old(line), bytes).1;
              if lines == [] then emitted.None? else emitted.Some? && lines[0] == Line(emitted.value)
    {
      hide PushByte;
      emitted := None;
      for i := 0 to |bytes|
        invariant line == PushBytes(old(line), bytes[..i]).0
        invariant var lines := PushBytes(old(line), bytes[..i]).1;
                  if lines == [] then emitted.None? else emitted.Some? && lines[0] == Line(emitted.value)
      {
        assert bytes[..i + 1][..i] == bytes[..i];
        var out := PushText(bytes[i]);
        if out.Some? && emitted.None? {
          emitted := out;
        }
      }
      assert bytes[..|bytes|] == bytes;
    }

    /** src/serve.rs:558-567 */
    method AcceptUnframed(b: byte) returns (e: PumpEvent)
      modifies this`pendingM, this`line
      ensures b == M ==> pendingM && line == old(line) && e == Activity
      ensures b != M ==> pendingM == old(pendingM)
      ensures b != M ==> var (line1, out) := PushByte(old(line), b);
                         line == line1 && e == if out.Some? then DeviceLine(out.value) else Activity
    {
      if b == M {
        pendingM := true;
        e := Activity;
      } else {
        var out := PushText(b);
        if out.Some? {
          e := DeviceLine(out.value);
        } else {
          e := Activity;
        }
      }
    }

    /** src/serve.rs:515-556: the byte behind a pending M. */
    method AfterPendingM(b: byte, link: Link, core: SeederCore) returns (e: PumpEvent)
      requires !pendingM && deferred.None?
      modifies this`pendingM, this`deferred, this`line, link, core`files
      ensures var s := BehindM(core.config, old(HostNow(link, core)), b);
              && HostNow(link, core) == s.host && e == s.e
              && Wrote(s, old(link.output), old(link.unread), link.output, link.unread)
    {
      hide PushByte, PushBytes, RequestAt, ResponseFrame, Answer;
      if b == S {
        RequestShrinks(link.input);
        var request := link.ReadRequest();
        match request {
          case Valid(op, args) =>
            line := [];
            var reply := core.Handle(op, args);
            if reply.Some? {
              link.WriteAll(ResponseFrame(op, reply.value));
            }
            return SeederFrame;
          case MalformedKnown =>
            line := [];
            return SeederFrame;
          case Unknown(op) =>
            var out := PushLiteral([M, S]);
            if out.Some? {
              deferred := Some(op);
              return DeviceLine(out.value);
            }
            e := AcceptUnframed(op);
            return;
        }
      }
      var out := PushText(M);
      if out.Some? {
        deferred := Some(b);
        return DeviceLine(out.value);
      }
      e := AcceptUnframed(b);
    }

    /** src/serve.rs:501-556. The step is the specified one. So it changes nothing in what the input comes to:
        what has been done, followed by playing the tokens of what is still pending, is the same before and after. */
    method Pump(link: Link, core: SeederCore) returns (e: PumpEvent)
      modifies this, link, core`files
      ensures var s := PumpStep(core.config, old(HostNow(link, core)));
              && HostNow(link, core) == s.host && e == s.e
              && Wrote(s, old(link.output), old(link.unread), link.output, link.unread)
      ensures heard == old(heard) + HeardIn(e)
      ensures e != LinkClosed ==>
                && SameOutcome(core.config, old(WorldNow(link, core)), old(PendingNow(link)),
                               WorldNow(link, core), PendingNow(link))
                && Remaining(link) < old(Remaining(link))
      ensures e == LinkClosed ==>
                WorldNow(link, core) == old(WorldNow(link, core)) && Tokens(old(PendingNow(link))) == []
    {
      hide Tokens, Play, PushByte, SameOutcome, BehindM;
      ghost var h0, wire0, heard0 := HostNow(link, core), link.output, heard;
      StepTokens(core.config, h0);
      if PumpStep(core.config, h0).e != LinkClosed {
        StepKeepsOutcome(core.config, h0, wire0, heard0);
      }
      e := PumpOnce(link, core);
      heard := heard + HeardIn(e);
      assert wire0 + [] == wire0 && heard0 + [] == heard0;
    }

    method PumpOnce(link: Link, core: SeederCore) returns (e: PumpEvent)
      modifies this`pendingM, this`deferred, this`line, link, core`files
      ensures var s := PumpStep(core.config, old(HostNow(link, core)));
              && HostNow(link, core) == s.host && e == s.e
              && Wrote(s, old(link.output), old(link.unread), link.output, link.unread)
    {
      hide PushByte, BehindM;
      var b: byte;
      if deferred.Some? {
        b := deferred.value;
        deferred := None;
      } else {
        var r := link.ReadByte();
        match r {
          case Timeout =>
            return TimedOut;
          case Closed =>
            return LinkClosed;
          case Got(x) =>
            b := x;
        }
      }
      if pendingM {
        pendingM := false;
        e := AfterPendingM(b, link, core);
        return;
      }
      e := AcceptUnframed(b);
    }
  }

  lemma SameChain(config: Config, w: World, ev: seq<Event>, w1: World, ev1: seq<Event>, w2: World, ev2: seq<Event>)
    requires SameOutcome(config, w, ev, w1, ev1) && SameOutcome(config, w1, ev1, w2, ev2)
    ensures SameOutcome(config, w, ev, w2, ev2)
  {
  }

  // ---- every request is answered once, in order ----

  /** A frame token carries all the arguments its opcode calls for. */
  predicate WellShaped(t: Token) {
    t.Frame? ==> RequestHeaderLen(t.op).Some? && |t.args| >= RequestHeaderLen(t.op).value
  }

  ghost predicate AllWellShaped(tokens: seq<Token>) {
    forall t :: t in tokens ==> WellShaped(t)
  }

  /** The tokeniser yields well-shaped frames only. */
  lemma {:induction false} TokensWellShaped(ev: seq<Event>)
    ensures AllWellShaped(Tokens(ev))
    decreases |ev|, 1
  {
    if ev != [] && !ev[0].Closed? {
      if ev[0].Got? && ev[0].b == M {
        AfterMWellShaped(ev[1..]);
      } else {
        TokensWellShaped(ev[1..]);
      }
    }
  }

  lemma {:induction false} AfterMWellShaped(ev: seq<Event>)
    ensures AllWellShaped(AfterM(ev))
    decreases |ev|, 2
  {
    hide RequestAt, RequestHeaderLen;
    if ev == [] || ev[0].Closed? {
    } else if ev[0].Timeout? {
      AfterMWellShaped(ev[1..]);
    } else if ev[0].b != S {
      TokensWellShaped(ev);
    } else {
      RequestShrinks(ev[1..]);
      TokensWellShaped(RequestAt(ev[1..]).1);
      TokensWellShaped(ev[1..]);
    }
  }

  /** The requests among the tokens. */
  function FramesOf(tokens: seq<Token>): seq<Token> {
    if tokens == [] then []
    else (if tokens[0].Frame? then [tokens[0]] else []) + FramesOf(tokens[1..])
  }

  /** There is one response for each frame, in their order; each is what the seeder answers from the files that
      the frames before it have left. */
  ghost predicate AnsweredInOrder(config: Config, files: Files, frames: seq<Token>, responses: seq<seq<byte>>)
    decreases |frames|
  {
    if frames == [] then responses == []
    else
      && responses != [] && frames[0].Frame?
      && (RequestHeaderLen(frames[0].op).Some? && |frames[0].args| >= RequestHeaderLen(frames[0].op).value)
      && var (after, reply) := Answer(config, files, frames[0].op, frames[0].args);
         && reply.Some? && responses[0] == ResponseFrame(frames[0].op, reply.value)
         && AnsweredInOrder(config, after, frames[1..], responses[1..])
  }

  /** As many responses as frames, each with the magic and the opcode of its own frame. */
  lemma {:induction false} AnsweredOneByOne(config: Config, files: Files, frames: seq<Token>, responses: seq<seq<byte>>)
    requires AnsweredInOrder(config, files, frames, responses)
    ensures |responses| == |frames|
    ensures forall k :: 0 <= k < |frames| ==> frames[k].Frame? && [0x6D, 0x73, frames[k].op] <= responses[k]
    decreases |frames|
  {
    hide Answer;
    if frames != [] {
      var (after, reply) := Answer(config, files, frames[0].op, frames[0].args);
      AnsweredOneByOne(config, after, frames[1..], responses[1..]);
    }
  }

  lemma KnownIsAnswered(config: Config, files: Files, op: byte, args: seq<byte>)
    requires RequestHeaderLen(op).Some? && |args| >= RequestHeaderLen(op).value
    ensures Answer(config, files, op, args).1.Some?
  {
    hide Store, DecodeStorage, Describe;
  }

  /** Playing tokens writes exactly the responses to their frames. */
  lemma {:induction false} PlayAnswers(config: Config, w: World, tokens: seq<Token>)
    requires AllWellShaped(tokens)
    ensures w.wire <= Play(config, w, tokens).wire
    ensures AnsweredInOrder(config, w.files, FramesOf(tokens), Play(config, w, tokens).wire[|w.wire|..])
    decreases |tokens|
  {
    hide Answer, PushByte, ResponseFrame;
    if tokens != [] {
      var t, w1 := tokens[0], Apply(config, w, tokens[0]);
      assert WellShaped(t);
      PlayAnswers(config, w1, tokens[1..]);
      var end := Play(config, w1, tokens[1..]).wire;
      if t.Frame? {
        KnownIsAnswered(config, w.files, t.op, t.args);
        assert end[|w.wire|..][1..] == end[|w1.wire|..];
        assert ([t] + FramesOf(tokens[1..]))[1..] == FramesOf(tokens[1..]);
      } else {
        assert [] + FramesOf(tokens[1..]) == FramesOf(tokens[1..]);
      }
    }
  }

  // ---- every byte of text is accounted for ----

  /** What leaves the line buffer: a line cut off, before trimming, or the unfinished text that a frame drops. */
  datatype Piece = LineCut(raw: seq<byte>) | Dropped(raw: seq<byte>)

  /** An ASCII character takes one byte in the line buffer, and any other byte received takes two. */
  lemma {:induction false} Utf8LenAdds(a: seq<byte>, b: seq<byte>)
    ensures Utf8Len(a + b) == Utf8Len(a) + Utf8Len(b)
    decreases |b|
  {
    if b == [] {
      assert a + b == a;
    } else {
      Utf8LenAdds(a, b[..|b| - 1]);
      assert (a + b)[..|a + b| - 1] == a + b[..|b| - 1];
    }
  }

  lemma Utf8LenOfOne(b: byte)
    ensures Utf8Len([b]) == if b < 128 then 1 else 2
  {
    assert [b][..0] == [] && Utf8Len([]) == 0;
  }

  predicate EndsLine(longer: seq<byte>) {
    longer != [] && (longer[|longer| - 1] == 0x0A || Utf8Len(longer) > 512)
  }

  /** The pieces in their order, and what is left in the buffer. */
  function Ledger(line: seq<byte>, tokens: seq<Token>): (seq<byte>, seq<Piece>)
    decreases |tokens|
  {
    if tokens == [] then (line, []) else
    match tokens[0]
    case Text(b) =>
      if EndsLine(line + [b]) then
        var (left, more) := Ledger([], tokens[1..]);
        (left, [LineCut(line + [b])] + more)
      else Ledger(line + [b], tokens[1..])
    case _ =>
      var (left, more) := Ledger([], tokens[1..]);
      (left, [Dropped(line)] + more)
  }

  function RawText(pieces: seq<Piece>): seq<byte> {
    if pieces == [] then [] else pieces[0].raw + RawText(pieces[1..])
  }

  /** The text bytes among the tokens. */
  function TextOf(tokens: seq<Token>): seq<byte> {
    if tokens == [] then [] else (if tokens[0].Text? then [tokens[0].b] else []) + TextOf(tokens[1..])
  }

  /** What one piece adds to what is heard. */
  function HeardFrom(p: Piece): seq<Heard> {
    match p
    case LineCut(raw) => if TrimEnd(raw) == [] then [] else [Line(TrimEnd(raw))]
    case Dropped(_) => [FrameSeen]
  }

  /** What is heard of the pieces: cut lines without their line ends, unless nothing remains, and the frames. */
  function HeardOf(pieces: seq<Piece>): seq<Heard> {
    if pieces == [] then [] else HeardFrom(pieces[0]) + HeardOf(pieces[1..])
  }

  /** Text that no line end and no overflow has ended yet. */
  ghost predicate Unfinished(line: seq<byte>) {
    Utf8Len(line) <= 512 && 0x0A !in line
  }

  /** A cut line ends where it must: it is unfinished without its last byte, and finished with it. What a frame
      drops is unfinished. */
  ghost predicate FairPiece(p: Piece) {
    match p
    case LineCut(raw) =>
      && raw != [] && (raw[|raw| - 1] == 0x0A || Utf8Len(raw) > 512)
      && Unfinished(raw[..|raw| - 1])
    case Dropped(raw) => Unfinished(raw)
  }

  lemma PushByteIs(line: seq<byte>, b: byte)
    ensures PushByte(line, b) ==
            if !EndsLine(line + [b]) then (line + [b], None)
            else ([], if TrimEnd(line + [b]) == [] then None else Some(TrimEnd(line + [b])))
  {
    hide TrimEnd, Utf8Len;
  }

  /** All text is in the pieces and the buffer, complete and in order. */
  lemma {:induction false} TextIsInPieces(line: seq<byte>, tokens: seq<Token>)
    ensures var (left, pieces) := Ledger(line, tokens); RawText(pieces) + left == line + TextOf(tokens)
    decreases |tokens|
  {
    hide EndsLine, RawText;
    if tokens == [] {
      NoText(line);
    } else {
      var t, text := tokens[0], TextOf(tokens[1..]);
      var longer := if t.Text? then line + [t.b] else line;
      TextFirst(line, tokens);
      LedgerFirst(line, tokens);
      hide TextOf, Ledger;
      if t.Text? && !EndsLine(longer) {
        TextIsInPieces(longer, tokens[1..]);
      } else {
        TextIsInPieces([], tokens[1..]);
        var (left, pieces) := Ledger([], tokens[1..]);
        PiecesFirst(if t.Text? then LineCut(longer) else Dropped(longer), pieces);
        InFront(longer, RawText(pieces), left, text);
      }
    }
  }

  lemma InFront(longer: seq<byte>, raw: seq<byte>, left: seq<byte>, text: seq<byte>)
    requires raw + left == [] + text
    ensures longer + raw + left == longer + text
  {
    assert longer + raw + left == longer + (raw + left);
    assert [] + text == text;
  }

  lemma LedgerFirst(line: seq<byte>, tokens: seq<Token>)
    requires tokens != []
    ensures var t := tokens[0];
            var longer := if t.Text? then line + [t.b] else line;
            Ledger(line, tokens) ==
            if t.Text? && !EndsLine(longer) then Ledger(longer, tokens[1..])
            else
              var (left, more) := Ledger([], tokens[1..]);
              (left, [if t.Text? then LineCut(longer) else Dropped(longer)] + more)
  {
    hide EndsLine;
  }

  lemma NoText(line: seq<byte>)
    ensures RawText([]) + line == line + TextOf([])
  {
    assert [] + line == line + [];
  }

  lemma TextFirst(line: seq<byte>, tokens: seq<Token>)
    requires tokens != []
    ensures line + TextOf(tokens) ==
            (if tokens[0].Text? then line + [tokens[0].b] else line) + TextOf(tokens[1..])
  {
  }

  lemma TokenCuts(config: Config, w: World, t: Token)
    requires WellShaped(t)
    ensures var w1 := Apply(config, w, t);
            if t.Text? && !EndsLine(w.line + [t.b]) then w1.line == w.line + [t.b] && w1.heard == w.heard
            else
              && w1.line == []
              && w1.heard == w.heard + HeardFrom(if t.Text? then LineCut(w.line + [t.b]) else Dropped(w.line))
  {
    hide Answer, PushByte, ResponseFrame, TrimEnd, EndsLine;
    if t.Text? {
      PushByteIs(w.line, t.b);
      assert w.heard + [] == w.heard;
    }
  }

  /** What is handed out are the cut lines, trimmed, between the frames. */
  lemma {:induction false} PiecesAreHeard(config: Config, w: World, tokens: seq<Token>)
    requires AllWellShaped(tokens)
    ensures var (left, pieces) := Ledger(w.line, tokens);
            && Play(config, w, tokens).line == left
            && Play(config, w, tokens).heard == w.heard + HeardOf(pieces)
    decreases |tokens|
  {
    hide Apply, EndsLine, WellShaped, HeardFrom;
    if tokens == [] {
      assert w.heard + [] == w.heard;
    } else {
      var t, w1 := tokens[0], Apply(config, w, tokens[0]);
      TokenCuts(config, w, t);
      PiecesAreHeard(config, w1, tokens[1..]);
      var (left, pieces) := Ledger(w1.line, tokens[1..]);
      if !t.Text? || EndsLine(w.line + [t.b]) {
        var p := if t.Text? then LineCut(w.line + [t.b]) else Dropped(w.line);
        PiecesFirst(p, pieces);
        assert w.heard + HeardFrom(p) + HeardOf(pieces) == w.heard + (HeardFrom(p) + HeardOf(pieces));
      }
    }
  }

  lemma PiecesFirst(p: Piece, pieces: seq<Piece>)
    ensures RawText([p] + pieces) == p.raw + RawText(pieces)
    ensures HeardOf([p] + pieces) == HeardFrom(p) + HeardOf(pieces)
  {
    hide TrimEnd;
    assert ([p] + pieces)[1..] == pieces;
  }

  /** Lines are cut as early as they must be and no earlier, and a frame drops nothing but unfinished text. */
  lemma {:induction false} PiecesAreFair(line: seq<byte>, tokens: seq<Token>)
    requires Unfinished(line)
    ensures Unfinished(Ledger(line, tokens).0)
    ensures forall p :: p in Ledger(line, tokens).1 ==> FairPiece(p)
    decreases |tokens|
  {
    if tokens != [] {
      var t := tokens[0];
      assert Utf8Len([]) == 0;
      if t.Text? && !EndsLine(line + [t.b]) {
        PiecesAreFair(line + [t.b], tokens[1..]);
      } else {
        if t.Text? {
          assert (line + [t.b])[..|line|] == line;
        }
        PiecesAreFair([], tokens[1..]);
      }
    }
  }

  /** Playing a stretch of text pushes its bytes. */
  lemma {:induction false} PlayTexts(config: Config, w: World, bytes: seq<byte>)
    ensures var (line, heard) := PushBytes(w.line, bytes);
            Play(config, w, Texts(bytes)) == w.(line := line, heard := w.heard + heard)
    decreases |bytes|
  {
    hide PushByte;
    if bytes == [] {
      assert w.heard + [] == w.heard;
    } else {
      var init, b := bytes[..|bytes| - 1], bytes[|bytes| - 1];
      PlayTexts(config, w, init);
      assert Texts(bytes) == Texts(init) + [Text(b)];
      PlayBoth(config, w, Texts(init), [Text(b)]);
      PlayOne(config, Play(config, w, Texts(init)), Text(b));
    }
  }

  /** Text is neither lost nor duplicated: all of it is, in order, in the pieces and the buffer, and what is
      handed out are the cut lines, trimmed, between the frames. */
  lemma TextIsConserved(config: Config, w: World, tokens: seq<Token>)
    requires AllWellShaped(tokens)
    ensures var (left, pieces) := Ledger(w.line, tokens);
            && RawText(pieces) + left == w.line + TextOf(tokens)
            && Play(config, w, tokens).line == left
            && Play(config, w, tokens).heard == w.heard + HeardOf(pieces)
  {
    TextIsInPieces(w.line, tokens);
    PiecesAreHeard(config, w, tokens);
  }

  /** Trimming takes away nothing but trailing CR and LF. */
  lemma {:induction false} TrimTakesLineEnds(line: seq<byte>)
    ensures TrimEnd(line) <= line
    ensures forall i :: |TrimEnd(line)| <= i < |line| ==> line[i] in {0x0A, 0x0D}
    ensures TrimEnd(line) != [] ==> TrimEnd(line)[|TrimEnd(line)| - 1] !in {0x0A, 0x0D}
    decreases |line|
  {
    if line != [] && line[|line| - 1] in {0x0A, 0x0D} {
      TrimTakesLineEnds(line[..|line| - 1]);
    }
  }

  // ---- whole runs ----

  function LinesOf(heard: seq<Heard>): seq<seq<byte>> {
    if heard == [] then []
    else
      var last := heard[|heard| - 1];
      LinesOf(heard[..|heard| - 1]) + if last.Line? then [last.text] else []
  }

  lemma LinesGrow(heard: seq<Heard>, h: Heard)
    ensures LinesOf(heard + [h]) == LinesOf(heard) + if h.Line? then [h.text] else []
  {
    assert (heard + [h])[..|heard|] == heard;
  }

  /** src/serve.rs:731-748; stop(i) is the stop flag as read before step i. When the link closes, everything
      done is exactly what the tokeniser says the whole input comes to: one response for each frame, in order, and
      every byte of text in a line handed out, in what a frame drops or in the buffer. When the loop is stopped
      earlier, the rest of the input is still to be played. */
  method ServeLoop(link: Link, core: SeederCore, stop: nat -> bool) returns (lines: seq<seq<byte>>, closed: bool,
                   stream: StreamState)
    modifies link, core`files
    ensures fresh(stream)
    ensures !closed ==> SameOutcome(core.config, World(old(core.files), [], old(link.output), []), old(link.input),
                                    stream.WorldNow(link, core), stream.PendingNow(link))
    ensures closed ==> stream.WorldNow(link, core) ==
                       Play(core.config, World(old(core.files), [], old(link.output), []), Tokens(old(link.input)))
    ensures closed ==>
              && old(link.output) <= link.output
              && AnsweredInOrder(core.config, old(core.files), FramesOf(Tokens(old(link.input))),
                                 link.output[|old(link.output)|..])
    ensures closed ==>
              var (left, pieces) := Ledger([], Tokens(old(link.input)));
              && RawText(pieces) + left == TextOf(Tokens(old(link.input)))
              && stream.line == left && stream.heard == HeardOf(pieces)
    ensures lines == LinesOf(stream.heard)
  {
    hide Tokens, AfterM, Play, SameOutcome, PumpStep, AnsweredInOrder, Ledger;
    stream := new StreamState();
    lines := [];
    closed := false;
    ghost var w0, ev0 := stream.WorldNow(link, core), link.input;
    PendingNothing(link.input);
    SameSelf(core.config, w0, ev0);
    var i: nat := 0;
    while !stop(i) && !closed
      invariant fresh(stream)
      invariant !closed ==> SameOutcome(core.config, w0, ev0, stream.WorldNow(link, core), stream.PendingNow(link))
      invariant closed ==> stream.WorldNow(link, core) == Play(core.config, w0, Tokens(ev0))
      invariant lines == LinesOf(stream.heard)
      decreases !closed, stream.Remaining(link)
    {
      ghost var w1, ev1, heard1 := stream.WorldNow(link, core), stream.PendingNow(link), stream.heard;
      var e := stream.Pump(link, core);
      match e {
        case LinkClosed =>
          closed := true;
          Ended(core.config, w0, ev0, w1, ev1);
        case DeviceLine(text) =>
          LinesGrow(heard1, Line(text));
          lines := lines + [text];
        case SeederFrame =>
          LinesGrow(heard1, FrameSeen);
        case Activity =>
        case TimedOut =>
      }
      assert heard1 + [] == heard1;
      if !closed {
        SameChain(core.config, w0, ev0, w1, ev1, stream.WorldNow(link, core), stream.PendingNow(link));
      }
      i := i + 1;
    }
    TokensWellShaped(ev0);
    PlayAnswers(core.config, w0, Tokens(ev0));
    TextIsConserved(core.config, w0, Tokens(ev0));
    assert [] + TextOf(Tokens(ev0)) == TextOf(Tokens(ev0));
    assert forall pieces :: [] + HeardOf(pieces) == HeardOf(pieces);
  }

  lemma SameSelf(config: Config, w: World, ev: seq<Event>)
    ensures SameOutcome(config, w, ev, w, ev)
  {
  }

  lemma Ended(config: Config, w0: World, ev0: seq<Event>, w: World, ev: seq<Event>)
    requires SameOutcome(config, w0, ev0, w, ev) && Tokens(ev) == []
    ensures w == Play(config, w0, Tokens(ev0))
  {
  }

  // ---- what the tokeniser recognises ----

  function Events(bytes: seq<byte>): (ev: seq<Event>)
    ensures |ev| == |bytes|
    ensures forall i :: 0 <= i < |bytes| ==> ev[i] == Got(bytes[i])
  {
    seq(|bytes|, i requires 0 <= i < |bytes| => Got(bytes[i]))
  }

  /** A request as the node sends it. */
  function RequestBytes(op: byte, args: seq<byte>): seq<byte> {
    [M, S] + ([op] + args + [XorAll(args, op)])
  }

  /** The arguments have the length the opcode, and for a write its own length field, call for. */
  predicate WellFormed(op: byte, args: seq<byte>) {
    && RequestHeaderLen(op).Some?
    && var n := RequestHeaderLen(op).value;
       |args| >= n && |args| == n + (if op == OP_WRITE then RdU16(args, 8) else 0) <= n + WRITE_MAX
  }

  lemma {:induction false} TakeThem(bytes: seq<byte>, rest: seq<Event>)
    ensures TakeBytes(Events(bytes) + rest, |bytes|) == (Some(bytes), rest)
    decreases |bytes|
  {
    if bytes == [] {
      assert Events(bytes) + rest == rest;
    } else {
      var ev := Events(bytes) + rest;
      assert ev[1..] == Events(bytes[1..]) + rest;
      TakeThem(bytes[1..], rest);
      assert [bytes[0]] + bytes[1..] == bytes;
    }
  }

  lemma DataRecognised(op: byte, header: seq<byte>, data: seq<byte>, sum: byte, rest: seq<Event>)
    requires op == OP_WRITE ==> |header| == 10
    requires |data| == (if op == OP_WRITE then RdU16(header, 8) else 0) <= WRITE_MAX
    ensures DataAt(op, header, Events(data) + (Events([sum]) + rest)) ==
            (if sum == XorAll(header + data, op) then Valid(op, header + data) else MalformedKnown, rest)
  {
    hide TakeBytes, XorAll;
    TakeThem(data, Events([sum]) + rest);
    TakeThem([sum], rest);
  }

  /** Every request of the right length is taken up whole, whatever comes after it; it is valid exactly when
      its checksum is right. */
  lemma RequestRecognised(op: byte, args: seq<byte>, sum: byte, rest: seq<Event>)
    requires WellFormed(op, args)
    ensures RequestAt(Events([op] + args + [sum]) + rest) ==
            (if sum == XorAll(args, op) then Valid(op, args) else MalformedKnown, rest)
  {
    hide TakeBytes, XorAll, DataAt;
    var n := RequestHeaderLen(op).value;
    var header, data := args[..n], args[n..];
    assert header + data == args;
    var tail := Events(data) + (Events([sum]) + rest);
    var ev := Events([op] + args + [sum]) + rest;
    assert ev == [Got(op)] + (Events(header) + tail);
    assert ev[1..] == Events(header) + tail;
    TakeThem(header, tail);
    if op == OP_WRITE {
      assert header[8] == args[8] && header[9] == args[9];
    }
    DataRecognised(op, header, data, sum, rest);
  }

  /** M, S and a known opcode stand at i. */
  predicate FrameStarts(bytes: seq<byte>, i: int) {
    0 <= i && i + 2 < |bytes| && bytes[i] == M && bytes[i + 1] == S && RequestHeaderLen(bytes[i + 2]).Some?
  }

  function Texts(bytes: seq<byte>): (t: seq<Token>)
    ensures |t| == |bytes|
    ensures forall i :: 0 <= i < |bytes| ==> t[i] == Text(bytes[i])
  {
    seq(|bytes|, i requires 0 <= i < |bytes| => Text(bytes[i]))
  }

  /** Text in which no frame starts is text byte for byte, and a request right behind it is one frame, even
      when the text ends in part of the magic. */
  lemma {:induction false} TextThenFrame(text: seq<byte>, op: byte, args: seq<byte>, rest: seq<Event>)
    requires WellFormed(op, args) && forall i :: !FrameStarts(text, i)
    ensures Tokens(Events(text) + (Events(RequestBytes(op, args)) + rest)) ==
            Texts(text) + ([Frame(op, args)] + Tokens(rest))
    decreases |text|
  {
    hide RequestAt;
    var frame := Events(RequestBytes(op, args)) + rest;
    var ev := Events(text) + frame;
    if text == [] {
      assert ev == frame;
      FrameTokens(op, args, rest);
      assert Texts(text) + ([Frame(op, args)] + Tokens(rest)) == [Frame(op, args)] + Tokens(rest);
    } else {
      var one := text[1..];
      assert ev == [Got(text[0])] + (Events(one) + frame);
      assert forall i :: FrameStarts(one, i) ==> FrameStarts(text, i + 1);
      TextThenFrame(one, op, args, rest);
      assert Texts(text) == [Text(text[0])] + Texts(one);
      if text[0] == M {
        TokensBehindM(Events(one) + frame);
        NotMagicYet(text, op, args, rest);
      } else {
        assert ev[1..] == Events(one) + frame;
      }
    }
  }

  lemma FrameTokens(op: byte, args: seq<byte>, rest: seq<Event>)
    requires WellFormed(op, args)
    ensures Tokens(Events(RequestBytes(op, args)) + rest) == [Frame(op, args)] + Tokens(rest)
  {
    hide RequestAt;
    var ev := Events(RequestBytes(op, args)) + rest;
    assert ev == [Got(M)] + ([Got(S)] + (Events(RequestBytes(op, args)[2..]) + rest));
    TokensBehindM([Got(S)] + (Events(RequestBytes(op, args)[2..]) + rest));
    assert ([Got(S)] + (Events(RequestBytes(op, args)[2..]) + rest))[1..] == Events(RequestBytes(op, args)[2..]) + rest;
    assert RequestBytes(op, args)[2..] == [op] + args + [XorAll(args, op)];
    RequestRecognised(op, args, XorAll(args, op), rest);
  }

  /** An M in the text is text: either no S follows, or no known opcode follows the S. */
  lemma NotMagicYet(text: seq<byte>, op: byte, args: seq<byte>, rest: seq<Event>)
    requires text != [] && text[0] == M && !FrameStarts(text, 0)
    ensures var more := Events(text[1..]) + (Events(RequestBytes(op, args)) + rest);
            AfterM(more) == [Text(M)] + Tokens(more)
  {
    var frame := Events(RequestBytes(op, args)) + rest;
    var more := Events(text[1..]) + frame;
    assert more != [] && more[0].Got? && frame[0] == Got(M);
    if |text| > 1 && text[1] == S {
      assert more[0] == Got(S) && |more| >= 2;
      assert more[1] == if |text| > 2 then Got(text[2]) else Got(M);
      assert RequestHeaderLen(more[1].b).None?;
      assert RequestAt(more[1..]) == (Unknown(more[1].b), more[1..][1..]);
      assert [Text(M), Text(S)] + Tokens(more[1..]) == [Text(M)] + ([Text(S)] + Tokens(more[1..]));
    } else {
      assert more[0] != Got(S);
    }
  }

  /** A timeout within text changes nothing, not even between M and S; only behind a whole magic it would. */
  lemma {:induction false} TimeoutHarmless(text: seq<byte>, rest: seq<Event>)
    requires forall i :: !FrameStarts(text, i)
    requires |text| >= 2 ==> !(text[|text| - 2] == M && text[|text| - 1] == S)
    ensures Tokens(Events(text) + ([Timeout] + rest)) == Tokens(Events(text) + rest)
    decreases |text|
  {
    hide RequestAt;
    var late, prompt := Events(text) + ([Timeout] + rest), Events(text) + rest;
    if text == [] {
      assert late == [Timeout] + rest && late[1..] == rest && prompt == rest;
    } else {
      var one := text[1..];
      assert late == [Got(text[0])] + (Events(one) + ([Timeout] + rest)) &&
             prompt == [Got(text[0])] + (Events(one) + rest);
      assert forall i :: FrameStarts(one, i) ==> FrameStarts(text, i + 1);
      TimeoutHarmless(one, rest);
      if text[0] != M {
        assert late[1..] == Events(one) + ([Timeout] + rest) && prompt[1..] == Events(one) + rest;
      } else {
        TokensBehindM(Events(one) + ([Timeout] + rest));
        TokensBehindM(Events(one) + rest);
        if one == [] {
          assert Events(one) + ([Timeout] + rest) == [Timeout] + rest && Events(one) + rest == rest;
          assert ([Timeout] + rest)[1..] == rest;
        } else {
          LoneInText(text, [Timeout] + rest);
          LoneInText(text, rest);
        }
      }
    }
  }

  /** An M in front of more text is text by itself. */
  lemma LoneInText(text: seq<byte>, rest: seq<Event>)
    requires |text| >= 2 && text[0] == M && !FrameStarts(text, 0)
    requires |text| == 2 ==> text[1] != S
    ensures AfterM(Events(text[1..]) + rest) == [Text(M)] + Tokens(Events(text[1..]) + rest)
  {
    var more := Events(text[1..]) + rest;
    assert more[0] == Got(text[1]);
    if text[1] == S {
      assert more[1] == Got(text[2]);
      assert RequestAt(more[1..]) == (Unknown(text[2]), more[1..][1..]);
      assert [Text(M), Text(S)] + Tokens(more[1..]) == [Text(M)] + ([Text(S)] + Tokens(more[1..]));
    }
  }
}
