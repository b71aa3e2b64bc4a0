/** Runs of the pump (src/serve.rs:501-556), step by step: what has been read, taken up, answered and heard. */
module PumpRun {
  import opened Bytes
  import opened Seeder
  import opened Stream

  /** The host after n steps. */
  function HostAfter(config: Config, h: Host, n: nat): Host {
    if n == 0 then h else PumpStep(config, HostAfter(config, h, n - 1)).host
  }

  /** Step number k. */
  function StepAt(config: Config, h: Host, k: nat): Step {
    PumpStep(config, HostAfter(config, h, k))
  }

  /** What a host starts from. */
  function Fresh(files: Files, input: seq<Event>): Host {
    Host(false, None, [], files, input)
  }

  function TokensIn(config: Config, h: Host, n: nat): seq<Token> {
    if n == 0 then [] else TokensIn(config, h, n - 1) + StepAt(config, h, n - 1).tokens
  }

  function ResponsesIn(config: Config, h: Host, n: nat): seq<seq<byte>> {
    if n == 0 then [] else ResponsesIn(config, h, n - 1) + Chunk(StepAt(config, h, n - 1).response)
  }

  function HeardBy(config: Config, h: Host, n: nat): seq<Heard> {
    if n == 0 then [] else HeardBy(config, h, n - 1) + HeardIn(StepAt(config, h, n - 1).e)
  }

  /** None of the first n steps finds the link closed. */
  ghost predicate Open(config: Config, h: Host, n: nat) {
    forall k: nat :: k < n ==> StepAt(config, h, k).e != LinkClosed
  }

  /** None of the first n steps meets a seeder frame, damaged ones included. */
  ghost predicate NoFrame(config: Config, h: Host, n: nat) {
    forall k: nat :: k < n ==> StepAt(config, h, k).e != SeederFrame
  }

  // ---- a run takes up the tokens of the input, in order, and does what they say ----

  lemma {:induction false} RunTokens(config: Config, h: Host, n: nat)
    requires Open(config, h, n)
    ensures Tokens(PendingOf(h)) == TokensIn(config, h, n) + Tokens(PendingOf(HostAfter(config, h, n)))
    ensures Waits(PendingOf(h)) == Waits(PendingOf(HostAfter(config, h, n)))
  {
    hide Tokens, Waits, PumpStep;
    if n == 0 {
      assert [] + Tokens(PendingOf(h)) == Tokens(PendingOf(h));
    } else {
      RunTokens(config, h, n - 1);
      StepTokens(config, HostAfter(config, h, n - 1));
      assert StepAt(config, h, n - 1).e != LinkClosed;
      var rest := Tokens(PendingOf(HostAfter(config, h, n)));
      assert TokensIn(config, h, n - 1) + (StepAt(config, h, n - 1).tokens + rest) == TokensIn(config, h, n) + rest;
    }
  }

  lemma {:induction false} RunApplies(config: Config, h: Host, n: nat, wire: seq<seq<byte>>, heard: seq<Heard>)
    ensures Play(config, WorldOf(h, wire, heard), TokensIn(config, h, n)) ==
            WorldOf(HostAfter(config, h, n), wire + ResponsesIn(config, h, n), heard + HeardBy(config, h, n))
  {
    hide Play, PumpStep, Chunk, HeardIn;
    if n == 0 {
      assert wire + [] == wire && heard + [] == heard;
      PlayNothing(config, WorldOf(h, wire, heard));
    } else {
      RunApplies(config, h, n - 1, wire, heard);
      var h1, s := HostAfter(config, h, n - 1), StepAt(config, h, n - 1);
      var wire1, heard1 := wire + ResponsesIn(config, h, n - 1), heard + HeardBy(config, h, n - 1);
      StepApplies(config, h1, wire1, heard1);
      PlayBoth(config, WorldOf(h, wire, heard), TokensIn(config, h, n - 1), s.tokens);
      assert wire1 + Chunk(s.response) == wire + ResponsesIn(config, h, n);
      assert heard1 + HeardIn(s.e) == heard + HeardBy(config, h, n);
    }
  }

  lemma PlayNothing(config: Config, w: World)
    ensures Play(config, w, []) == w
  {
  }

  // ---- what is read does not depend on what is not ----

  /** The bytes taken are a front part of the events. */
  lemma {:induction false} TakeSuffix(ev: seq<Event>, n: nat)
    ensures var r := TakeBytes(ev, n).1; |r| <= |ev| && r == ev[|ev| - |r|..]
    decreases n
  {
    if n > 0 && ev != [] && ev[0].Got? {
      TakeSuffix(ev[1..], n - 1);
    }
  }

  lemma TakeShortens(c: seq<Event>, r: seq<Event>, n: nat)
    requires r != [] && n > 0 && TakeBytes(c + r, n).1 == r
    ensures c != []
  {
    assert c == [] ==> c + r == r;
  }

  lemma {:induction false} TakeLocal(c: seq<Event>, r: seq<Event>, n: nat, y: seq<Event>)
    requires r != [] && TakeBytes(c + r, n).1 == r
    ensures TakeBytes(c + y, n) == (TakeBytes(c + r, n).0, y)
    decreases n
  {
    if n == 0 {
      assert |c + r| == |r|;
      assert c + y == y;
    } else {
      TakeShortens(c, r, n);
      assert (c + r)[1..] == c[1..] + r && (c + y)[1..] == c[1..] + y;
      if c[0].Got? {
        TakeLocal(c[1..], r, n - 1, y);
      } else {
        assert |c[1..] + r| == |r|;
        assert c[1..] + y == y;
      }
    }
  }

  /** Taking bytes off c + r leaves a back part of c in front of r. */
  lemma TakeFront(c: seq<Event>, r: seq<Event>, n: nat, y: seq<Event>) returns (c1: seq<Event>)
    requires r != [] && |TakeBytes(c + r, n).1| >= |r|
    ensures TakeBytes(c + r, n).1 == c1 + r && TakeBytes(c + y, n) == (TakeBytes(c + r, n).0, c1 + y)
  {
    hide TakeBytes;
    var rest := TakeBytes(c + r, n).1;
    TakeSuffix(c + r, n);
    var k := |c + r| - |rest|;
    c1 := c[k..];
    assert rest == c1 + r;
    assert c[..k] + rest == c + r && c[..k] + (c1 + y) == c + y;
    TakeLocal(c[..k], rest, n, c1 + y);
  }

  lemma ChecksumLocal(op: byte, args: seq<byte>, c: seq<Event>, r: seq<Event>, y: seq<Event>)
    requires r != [] && ChecksumAt(op, args, c + r).1 == r
    ensures ChecksumAt(op, args, c + y) == (ChecksumAt(op, args, c + r).0, y)
  {
    hide TakeBytes;
    TakeLocal(c, r, 1, y);
  }

  lemma DataLocal(op: byte, header: seq<byte>, c: seq<Event>, r: seq<Event>, y: seq<Event>)
    requires r != [] && (op == OP_WRITE ==> |header| >= 10) && DataAt(op, header, c + r).1 == r
    ensures DataAt(op, header, c + y) == (DataAt(op, header, c + r).0, y)
  {
    hide TakeBytes, ChecksumAt;
    var n := if op == OP_WRITE then RdU16(header, 8) else 0;
    if n > WRITE_MAX {
      assert |c + r| == |r|;
      assert c + y == y;
    } else {
      var (data, rest) := TakeBytes(c + r, n);
      if data.Some? {
        ChecksumShrinks(op, header + data.value, rest);
      }
      var c1 := TakeFront(c, r, n, y);
      if data.None? {
        assert |c1 + r| == |r|;
        assert c1 + y == y;
      } else {
        ChecksumLocal(op, header + data.value, c1, r, y);
      }
    }
  }

  lemma ChecksumShrinks(op: byte, args: seq<byte>, ev: seq<Event>)
    ensures |ChecksumAt(op, args, ev).1| <= |ev|
  {
  }

  lemma DataShrinks(op: byte, header: seq<byte>, ev: seq<Event>)
    requires op == OP_WRITE ==> |header| >= 10
    ensures |DataAt(op, header, ev).1| <= |ev|
  {
  }

  /** A request that ends before the input does is read the same whatever comes after it. */
  lemma RequestLocal(c: seq<Event>, r: seq<Event>, y: seq<Event>)
    requires r != [] && RequestAt(c + r).1 == r
    ensures RequestAt(c + y) == (RequestAt(c + r).0, y)
  {
    hide TakeBytes, DataAt;
    assert c == [] ==> c + r == r;
    assert (c + r)[1..] == c[1..] + r && (c + y)[1..] == c[1..] + y;
    if !c[0].Got? || RequestHeaderLen(c[0].b).None? {
      assert |c[1..] + r| == |r|;
      assert c[1..] + y == y;
    } else {
      var n := RequestHeaderLen(c[0].b).value;
      var (header, rest) := TakeBytes(c[1..] + r, n);
      if header.Some? {
        DataShrinks(c[0].b, header.value, rest);
      }
      var c1 := TakeFront(c[1..], r, n, y);
      if header.None? {
        assert |c1 + r| == |r|;
        assert c1 + y == y;
      } else {
        DataLocal(c[0].b, header.value, c1, r, y);
      }
    }
  }

  lemma DataSuffix(op: byte, header: seq<byte>, ev: seq<Event>)
    requires op == OP_WRITE ==> |header| >= 10
    ensures var r := DataAt(op, header, ev).1; |r| <= |ev| && r == ev[|ev| - |r|..]
  {
    hide TakeBytes, XorAll;
    var len := if op == OP_WRITE then RdU16(header, 8) else 0;
    TakeSuffix(ev, len);
    TakeSuffix(TakeBytes(ev, len).1, 1);
  }

  lemma RequestSuffix(ev: seq<Event>)
    ensures var r := RequestAt(ev).1; |r| <= |ev| && r == ev[|ev| - |r|..]
  {
    hide TakeBytes, DataAt;
    if ev != [] && ev[0].Got? && RequestHeaderLen(ev[0].b).Some? {
      var n := RequestHeaderLen(ev[0].b).value;
      TakeSuffix(ev[1..], n);
      var (header, rest) := TakeBytes(ev[1..], n);
      if header.Some? {
        DataSuffix(ev[0].b, header.value, rest);
      }
    }
  }

  lemma TakeUpSuffix(config: Config, h: Host, b: byte)
    ensures var r := TakeUp(config, h, b).host.input; |r| <= |h.input| && r == h.input[|h.input| - |r|..]
  {
    hide RequestAt, PushByte, PushBytes, Answer, ResponseFrame;
    RequestSuffix(h.input);
  }

  /** A step leaves a back part of the input. */
  lemma StepSuffix(config: Config, h: Host)
    ensures var r := PumpStep(config, h).host.input; |r| <= |h.input| && r == h.input[|h.input| - |r|..]
  {
    hide TakeUp;
    if h.deferred.Some? {
      TakeUpSuffix(config, h.(deferred := None), h.deferred.value);
    } else if h.input != [] && h.input[0].Got? {
      TakeUpSuffix(config, h.(input := h.input[1..]), h.input[0].b);
    }
  }

  /** What is behind the part read by a step makes no difference to it, unless the step found the end. */
  lemma StepLocal(config: Config, h: Host, c: seq<Event>, y: seq<Event>)
    requires h.input == c + PumpStep(config, h).host.input && (PumpStep(config, h).host.input == [] ==> y == [])
    ensures PumpStep(config, h.(input := c + y)) == PumpStep(config, h).(host := PumpStep(config, h).host.(input := y))
  {
    var s, r := PumpStep(config, h), PumpStep(config, h).host.input;
    if r == [] {
      assert c + y == c && c == h.input;
      assert h.(input := c + y) == h && s.host.(input := y) == s.host;
    } else {
      TailLocal(config, h, c, r, y);
    }
  }

  /** A step with no byte put aside reads something. */
  lemma ReadsOn(config: Config, h: Host, c: seq<Event>, r: seq<Event>)
    requires r != [] && h.deferred.None? && h.input == c + r && PumpStep(config, h).host.input == r
    ensures c != []
  {
    hide TakeUp;
    if h.input[0].Got? {
      TakeUpSuffix(config, h.(input := h.input[1..]), h.input[0].b);
    }
    assert c == [] ==> h.input == r;
  }

  lemma TailLocal(config: Config, h: Host, c: seq<Event>, r: seq<Event>, y: seq<Event>)
    requires r != [] && h.input == c + r && PumpStep(config, h).host.input == r
    ensures PumpStep(config, h.(input := c + y)) == PumpStep(config, h).(host := PumpStep(config, h).host.(input := y))
  {
    hide TakeUp;
    if h.deferred.Some? {
      TakeUpLocal(config, h.(deferred := None), h.deferred.value, c, r, y);
    } else {
      ReadsOn(config, h, c, r);
      assert (c + r)[1..] == c[1..] + r && (c + y)[1..] == c[1..] + y;
      if c[0].Got? {
        TakeUpLocal(config, h.(input := c[1..] + r), c[0].b, c[1..], r, y);
      } else {
        assert |c[1..] + r| == |r|;
        assert c[1..] + y == y;
      }
    }
  }

  lemma TakeUpLocal(config: Config, h: Host, b: byte, c: seq<Event>, r: seq<Event>, y: seq<Event>)
    requires r != [] && h.input == c + r && TakeUp(config, h, b).host.input == r
    ensures TakeUp(config, h.(input := c + y), b) ==
            TakeUp(config, h, b).(host := TakeUp(config, h, b).host.(input := y))
  {
    hide RequestAt, PushByte, PushBytes, Answer, ResponseFrame;
    if h.pendingM && b == S {
      RequestLocal(c, r, y);
    } else {
      assert |c + r| == |r|;
      assert c + y == y;
    }
  }

  // ---- what a host has seen ----

  /** The front part of `all` that leaves `rest`. */
  function FrontOf(all: seq<Event>, rest: seq<Event>): seq<Event> {
    if |rest| <= |all| then all[..|all| - |rest|] else []
  }

  /** The events read in the first n steps. */
  function Seen(config: Config, h: Host, n: nat): seq<Event> {
    FrontOf(h.input, HostAfter(config, h, n).input)
  }

  /** The part of what is unread after k steps that the first n steps read. */
  function Ahead(config: Config, h: Host, n: nat, k: nat): seq<Event> {
    FrontOf(HostAfter(config, h, k).input, HostAfter(config, h, n).input)
  }

  lemma {:induction false} RunSuffix(config: Config, h: Host, n: nat, k: nat)
    requires k <= n
    ensures Ahead(config, h, n, k) + HostAfter(config, h, n).input == HostAfter(config, h, k).input
    decreases n - k
  {
    hide PumpStep;
    if k < n {
      RunSuffix(config, h, n, k + 1);
      AheadMore(config, h, n, k);
    }
  }

  lemma AheadMore(config: Config, h: Host, n: nat, k: nat)
    requires k < n && Ahead(config, h, n, k + 1) + HostAfter(config, h, n).input == HostAfter(config, h, k + 1).input
    ensures Ahead(config, h, n, k) + HostAfter(config, h, n).input == HostAfter(config, h, k).input
    ensures var (from, next) := (HostAfter(config, h, k).input, HostAfter(config, h, k + 1).input);
            && FrontOf(from, next) + next == from
            && FrontOf(from, next) + Ahead(config, h, n, k + 1) == Ahead(config, h, n, k)
  {
    hide PumpStep;
    StepSuffix(config, HostAfter(config, h, k));
    FrontsJoin(HostAfter(config, h, k).input, HostAfter(config, h, k + 1).input, HostAfter(config, h, n).input);
  }

  lemma FrontsJoin(a: seq<Event>, b: seq<Event>, c: seq<Event>)
    requires |b| <= |a| && b == a[|a| - |b|..] && FrontOf(b, c) + c == b
    ensures FrontOf(a, b) + b == a && FrontOf(a, c) + c == a && FrontOf(a, b) + FrontOf(b, c) == FrontOf(a, c)
  {
    var x, y := FrontOf(a, b), FrontOf(b, c);
    assert x + b == a;
    assert x + (y + c) == (x + y) + c;
    FrontOfSum(x + y, c);
  }

  lemma FrontOfSum(x: seq<Event>, c: seq<Event>)
    ensures FrontOf(x + c, c) == x
  {
  }

  lemma SeenIsAhead(config: Config, h: Host, n: nat)
    ensures Seen(config, h, n) == Ahead(config, h, n, 0) && HostAfter(config, h, 0) == h
  {
  }

  /** The first n steps are the same when the link brings only what they read. */
  lemma {:induction false} RunLocal(config: Config, h: Host, n: nat, k: nat)
    requires k <= n
    ensures HostAfter(config, h.(input := Seen(config, h, n)), k) ==
            HostAfter(config, h, k).(input := Ahead(config, h, n, k))
    ensures forall j :: 0 <= j < k ==>
              && StepAt(config, h.(input := Seen(config, h, n)), j).e == StepAt(config, h, j).e
              && StepAt(config, h.(input := Seen(config, h, n)), j).tokens == StepAt(config, h, j).tokens
  {
    hide PumpStep, Ahead, FrontOf;
    if k > 0 {
      RunLocal(config, h, n, k - 1);
      RunLocalStep(config, h, n, k - 1);
    } else {
      SeenIsAhead(config, h, n);
    }
  }

  lemma RunLocalStep(config: Config, h: Host, n: nat, k: nat)
    requires k < n
    ensures var from := HostAfter(config, h, k);
            PumpStep(config, from.(input := Ahead(config, h, n, k))) ==
            StepAt(config, h, k).(host := HostAfter(config, h, k + 1).(input := Ahead(config, h, n, k + 1)))
  {
    hide PumpStep, FrontOf;
    RunSuffix(config, h, n, k + 1);
    AheadMore(config, h, n, k);
    var from, next := HostAfter(config, h, k), HostAfter(config, h, k + 1).input;
    StepLocal(config, from, FrontOf(from.input, next), Ahead(config, h, n, k + 1));
  }

  lemma {:induction false} SameTokensIn(config: Config, h: Host, g: Host, n: nat)
    requires forall j :: 0 <= j < n ==> StepAt(config, g, j).tokens == StepAt(config, h, j).tokens
    ensures TokensIn(config, g, n) == TokensIn(config, h, n)
  {
    hide StepAt;
    if n > 0 {
      SameTokensIn(config, h, g, n - 1);
    }
  }

  /** The tokens of what has been read are those taken up, and the text of a byte put aside that is no M. */
  lemma SeenTokens(config: Config, files: Files, input: seq<Event>, n: nat)
    requires Open(config, Fresh(files, input), n)
    ensures var h := Fresh(files, input);
            var (end, seen) := (HostAfter(config, h, n), Seen(config, h, n));
            && Tokens(seen) == TokensIn(config, h, n) + Tokens(Pending(end.pendingM, end.deferred, []))
            && Waits(seen) == Waits(Pending(end.pendingM, end.deferred, []))
  {
    hide Tokens, Waits, StepAt, HostAfter, PumpStep;
    var h := Fresh(files, input);
    var g := h.(input := Seen(config, h, n));
    RunLocal(config, h, n, n);
    assert Open(config, g, n) by {
      forall k: nat | k < n ensures StepAt(config, g, k).e != LinkClosed {
        assert StepAt(config, h, k).e != LinkClosed;
      }
    }
    RunTokens(config, g, n);
    SameTokensIn(config, h, g, n);
    assert Ahead(config, h, n, n) == [];
    PendingNothing(g.input);
  }

  /** After a step a byte is put aside only while no M is held back, and only when the step has handed out a
      line that overflowed the buffer at an M or S taken for text. */
  lemma PutAside(config: Config, h: Host)
    ensures var s := PumpStep(config, h);
            s.host.deferred.Some? && !s.e.LinkClosed? ==>
              !s.host.pendingM && s.e.DeviceLine? && Utf8Len(s.e.text) > 512
  {
    hide RequestAt, Answer, ResponseFrame, PushByte, PushBytes, Utf8Len;
    if PushByte(h.line, M).1.Some? {
      Overflows(h.line, M);
    }
    MagicOverflows(h.line);
  }

  lemma NotTrimmed(line: seq<byte>, b: byte)
    requires b !in {0x0A, 0x0D}
    ensures TrimEnd(line + [b]) == line + [b]
  {
  }

  lemma Overflows(line: seq<byte>, b: byte)
    requires b !in {0x0A, 0x0D} && PushByte(line, b).1.Some?
    ensures Utf8Len(PushByte(line, b).1.value) > 512
  {
    hide TrimEnd, Utf8Len;
    NotTrimmed(line, b);
  }

  lemma MagicOverflows(line: seq<byte>)
    ensures forall k :: 0 <= k < |PushBytes(line, [M, S]).1| ==>
              PushBytes(line, [M, S]).1[k].Line? && Utf8Len(PushBytes(line, [M, S]).1[k].text) > 512
  {
    MagicPushes(line);
    hide PushByte, PushBytes, Utf8Len;
    if PushByte(line, M).1.Some? {
      Overflows(line, M);
    }
    if PushByte(PushByte(line, M).0, S).1.Some? {
      Overflows(PushByte(line, M).0, S);
    }
  }

  /** Exactly when an M has come in that nothing has followed yet, the host holds one back or has put one
      aside. */
  lemma WaitsExactly(config: Config, files: Files, input: seq<Event>, n: nat)
    requires Open(config, Fresh(files, input), n)
    ensures var h := Fresh(files, input);
            var end := HostAfter(config, h, n);
            Waits(Seen(config, h, n)) <==> end.pendingM || end.deferred == Some(M)
  {
    hide Tokens, Waits, PumpStep;
    var h := Fresh(files, input);
    var end := HostAfter(config, h, n);
    SeenTokens(config, files, input, n);
    if n > 0 {
      assert StepAt(config, h, n - 1).e != LinkClosed;
      PutAside(config, HostAfter(config, h, n - 1));
    }
    PendingWaits(end.pendingM, end.deferred);
  }

  lemma PendingWaits(pendingM: bool, deferred: Option<byte>)
    requires deferred.None? || !pendingM
    ensures Waits(Pending(pendingM, deferred, [])) <==> pendingM || deferred == Some(M)
    ensures OnlyText(Tokens(Pending(pendingM, deferred, [])))
  {
    var ev := Pending(pendingM, deferred, []);
    if pendingM {
      assert ev == [Got(M)] && ev[1..] == [];
    } else if deferred.Some? {
      assert ev == [Got(deferred.value)] && ev[1..] == [];
    } else {
      assert ev == [];
    }
  }

  predicate OnlyText(tokens: seq<Token>) {
    forall t :: t in tokens ==> t.Text?
  }

  /** A step meets a frame exactly when it takes up a token that is no text. */
  lemma StepMeetsFrame(config: Config, h: Host)
    ensures PumpStep(config, h).e == SeederFrame <==> !OnlyText(PumpStep(config, h).tokens)
  {
    hide RequestAt, Answer, ResponseFrame, PushByte, PushBytes;
    var s := PumpStep(config, h);
    if s.e == SeederFrame {
      assert s.tokens[0] in s.tokens;
    }
  }

  lemma {:induction false} RunMeetsFrame(config: Config, h: Host, n: nat)
    ensures NoFrame(config, h, n) <==> OnlyText(TokensIn(config, h, n))
  {
    hide PumpStep;
    if n > 0 {
      RunMeetsFrame(config, h, n - 1);
      StepMeetsFrame(config, HostAfter(config, h, n - 1));
      var a, b := TokensIn(config, h, n - 1), StepAt(config, h, n - 1).tokens;
      assert OnlyText(a + b) <==> OnlyText(a) && OnlyText(b) by {
        assert forall t :: t in a + b <==> t in a || t in b;
      }
      assert NoFrame(config, h, n) <==> NoFrame(config, h, n - 1) && StepAt(config, h, n - 1).e != SeederFrame;
    }
  }

  /** No step has met a frame exactly when all that has been read is text. */
  lemma NoFrameSeen(config: Config, files: Files, input: seq<Event>, n: nat)
    requires Open(config, Fresh(files, input), n)
    ensures var h := Fresh(files, input); NoFrame(config, h, n) <==> OnlyText(Tokens(Seen(config, h, n)))
  {
    hide Tokens, Waits, PumpStep;
    var h := Fresh(files, input);
    var end := HostAfter(config, h, n);
    SeenTokens(config, files, input, n);
    RunMeetsFrame(config, h, n);
    if n > 0 {
      assert StepAt(config, h, n - 1).e != LinkClosed;
      PutAside(config, HostAfter(config, h, n - 1));
    }
    PendingWaits(end.pendingM, end.deferred);
    var a, b := TokensIn(config, h, n), Tokens(Pending(end.pendingM, end.deferred, []));
    assert forall t :: t in a + b <==> t in a || t in b;
  }

  // ---- what a waiting M is ----

  /** While an M waits, the rest of a request that began with it completes the frame. */
  lemma {:induction false} WaitingMOpensFrame(ev: seq<Event>, op: byte, args: seq<byte>, rest: seq<Event>)
    requires Waits(ev) && WellFormed(op, args)
    ensures var more := Events(RequestBytes(op, args)[1..]) + rest;
            Tokens(ev + more) == Tokens(ev) + ([Frame(op, args)] + Tokens(rest))
    decreases |ev|, 1
  {
    hide RequestAt;
    var more := Events(RequestBytes(op, args)[1..]) + rest;
    assert (ev + more)[1..] == ev[1..] + more && (ev + more)[0] == ev[0];
    if ev[0].Timeout? {
      WaitingMOpensFrame(ev[1..], op, args, rest);
    } else if ev[0].b != M {
      WaitingMOpensFrame(ev[1..], op, args, rest);
      var t, u := Tokens(ev[1..]), [Frame(op, args)] + Tokens(rest);
      assert [Text(ev[0].b)] + (t + u) == [Text(ev[0].b)] + t + u;
    } else {
      BehindMOpensFrame(ev[1..], op, args, rest);
    }
  }

  lemma {:induction false} BehindMOpensFrame(ev: seq<Event>, op: byte, args: seq<byte>, rest: seq<Event>)
    requires WaitsAfterM(ev) && WellFormed(op, args)
    ensures var more := Events(RequestBytes(op, args)[1..]) + rest;
            AfterM(ev + more) == AfterM(ev) + ([Frame(op, args)] + Tokens(rest))
    decreases |ev|, 2
  {
    hide RequestAt, RequestHeaderLen, WellFormed, Tokens, Waits;
    var more := Events(RequestBytes(op, args)[1..]) + rest;
    var u := [Frame(op, args)] + Tokens(rest);
    if ev == [] {
      assert ev + more == more;
      FrameTokens(op, args, rest);
      assert Events(RequestBytes(op, args)) + rest == [Got(M)] + more;
      TokensBehindM(more);
      assert [] + u == u;
    } else {
      assert (ev + more)[1..] == ev[1..] + more && (ev + more)[0] == ev[0];
      if ev[0].Timeout? {
        BehindMOpensFrame(ev[1..], op, args, rest);
      } else if ev[0].b != S {
        WaitingMOpensFrame(ev, op, args, rest);
        assert [Text(M)] + (Tokens(ev) + u) == [Text(M)] + Tokens(ev) + u;
      } else {
        var (request, after) := RequestAt(ev[1..]);
        RequestShrinks(ev[1..]);
        WaitingMOpensFrame(if request.Unknown? then ev[1..] else after, op, args, rest);
        BehindMagicMore(ev[1..], more, u);
        assert [Got(S)] + ev[1..] == ev && [Got(S)] + (ev[1..] + more) == ev + more;
      }
    }
  }

  /** What more input adds to the tokens behind a request adds to the tokens from the magic on. */
  lemma BehindMagicMore(ev: seq<Event>, more: seq<Event>, u: seq<Token>)
    requires var next := if RequestAt(ev).0.Unknown? then ev else RequestAt(ev).1;
             Waits(next) && Tokens(next + more) == Tokens(next) + u
    ensures AfterM([Got(S)] + (ev + more)) == AfterM([Got(S)] + ev) + u
  {
    hide RequestAt, Waits, Tokens;
    RequestAndMore(ev, more);
    assert ([Got(S)] + (ev + more))[1..] == ev + more && ([Got(S)] + ev)[1..] == ev;
    var (request, after) := RequestAt(ev);
    var t := Tokens(if request.Unknown? then ev else after);
    match request {
      case Valid(o, a) => assert [Frame(o, a)] + (t + u) == [Frame(o, a)] + t + u;
      case MalformedKnown => assert [Damaged] + (t + u) == [Damaged] + t + u;
      case Unknown(_) => assert [Text(M), Text(S)] + (t + u) == [Text(M), Text(S)] + t + u;
    }
  }

  /** A request behind which an M waits is read the same when more comes in. */
  lemma RequestAndMore(ev: seq<Event>, more: seq<Event>)
    requires Waits(if RequestAt(ev).0.Unknown? then ev else RequestAt(ev).1)
    ensures RequestAt(ev + more) == (RequestAt(ev).0, RequestAt(ev).1 + more)
  {
    var (request, after) := RequestAt(ev);
    if request.Unknown? {
      UnknownIsFirst(ev);
      assert (ev + more)[1..] == after + more;
    } else {
      assert after != [];
      RequestSuffix(ev);
      var c := ev[..|ev| - |after|];
      assert ev == c + after && ev + more == c + (after + more);
      RequestLocal(c, after, after + more);
    }
  }
}
