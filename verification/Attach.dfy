/** The attach handshake (src/serve.rs:590-727): `ota folder on` is sent, and sent again while nothing but
    silence and text comes back, until the node acknowledges. */
module Attach {
  import opened Bytes
  import opened Seeder
  import opened Stream
  import opened PumpRun

  /** `ota folder on\r\n` */
  const FOLDER_ON: seq<byte> :=
    [0x6F, 0x74, 0x61, 0x20, 0x66, 0x6F, 0x6C, 0x64, 0x65, 0x72, 0x20, 0x6F, 0x6E, 0x0D, 0x0A]

  /** `OK folder attached`, `OK folder refreshed` */
  const ATTACHED: seq<byte> :=
    [0x4F, 0x4B, 0x20, 0x66, 0x6F, 0x6C, 0x64, 0x65, 0x72, 0x20, 0x61, 0x74, 0x74, 0x61, 0x63, 0x68, 0x65, 0x64]
  const REFRESHED: seq<byte> :=
    [0x4F, 0x4B, 0x20, 0x66, 0x6F, 0x6C, 0x64, 0x65, 0x72, 0x20, 0x72, 0x65, 0x66, 0x72, 0x65, 0x73, 0x68, 0x65, 0x64]

  /** `-> ` and `ERR` */
  const PROMPT: seq<byte> := [0x2D, 0x3E, 0x20]
  const ERR: seq<byte> := [0x45, 0x52, 0x52]

  // ---- replies ----

  /** The whitespace among the characters a received byte can become. */
  predicate IsSpace(b: byte) {
    0x09 <= b <= 0x0D || b == 0x20 || b == 0x85 || b == 0xA0
  }

  function TrimStart(line: seq<byte>): seq<byte> {
    if line != [] && IsSpace(line[0]) then TrimStart(line[1..]) else line
  }

  /** src/serve.rs:719-722 */
  function NormalizeReply(line: seq<byte>): seq<byte> {
    var t := TrimStart(line);
    if PROMPT <= t then t[|PROMPT|..] else t
  }

  /** src/serve.rs:724-727: the prefix stands alone or is followed by a space or a colon. */
  predicate HasReplyPrefix(line: seq<byte>, prefix: seq<byte>) {
    prefix <= line && (|line| == |prefix| || line[|prefix|] in {0x20, 0x3A})
  }

  predicate IsAttachOk(reply: seq<byte>) {
    HasReplyPrefix(reply, ATTACHED) || HasReplyPrefix(reply, REFRESHED)
  }

  predicate IsRejection(reply: seq<byte>) {
    HasReplyPrefix(reply, ERR)
  }

  // ---- the handshake ----

  datatype Policy = Policy(retryAfter: nat, timeout: nat, maxAttempts: nat)

  datatype Outcome = Attached | Interrupted | TimedOutWaiting(attempts: nat) | Closed | Rejected(reply: seq<byte>)

  /** The clock and the stop flag as read in each round: before the step, and after it. */
  datatype Round = Round(stop: bool, now: nat, later: nat)

  /** A line the handshake ends on. */
  predicate Decisive(text: seq<byte>) {
    IsAttachOk(NormalizeReply(text)) || IsRejection(NormalizeReply(text))
  }

  predicate GoesOn(e: PumpEvent) {
    e != LinkClosed && (e.DeviceLine? ==> !Decisive(e.text))
  }

  /** A run is given by its steps, those of the pump on the link's input, and by the rounds that end with a retry. */
  function Retries(sends: seq<bool>): nat {
    if sends == [] then 0 else Retries(sends[..|sends| - 1]) + if sends[|sends| - 1] then 1 else 0
  }

  /** When the last command was sent. */
  function LastSent(started: nat, rounds: nat -> Round, sends: seq<bool>): nat {
    if sends == [] then started
    else if sends[|sends| - 1] then rounds(|sends| - 1).later
    else LastSent(started, rounds, sends[..|sends| - 1])
  }

  /** A retry is due after the step of round k: no frame so far, no M held back, attempts left, and time. */
  ghost predicate Due(config: Config, h: Host, policy: Policy, started: nat, rounds: nat -> Round, sends: seq<bool>,
                      k: nat)
    requires k <= |sends|
  {
    && NoFrame(config, h, k + 1)
    && !HostAfter(config, h, k + 1).pendingM
    && 1 + Retries(sends[..k]) < policy.maxAttempts
    && rounds(k).later >= LastSent(started, rounds, sends[..k]) + policy.retryAfter
  }

  /** The rounds so far were entered in time, and exactly those end with a retry that go on and have one due. */
  ghost predicate Paced(config: Config, h: Host, policy: Policy, started: nat, rounds: nat -> Round, sends: seq<bool>) {
    forall k: nat :: k < |sends| ==>
      && !rounds(k).stop && rounds(k).now < started + policy.timeout
      && (sends[k] <==> GoesOn(StepAt(config, h, k).e) && Due(config, h, policy, started, rounds, sends, k))
  }

  ghost predicate AllGoOn(config: Config, h: Host, n: nat) {
    forall k: nat :: k < n ==> GoesOn(StepAt(config, h, k).e)
  }

  /** A finished run: it goes on up to its last step, and ends for the reason it reports. */
  ghost predicate Ran(config: Config, h: Host, policy: Policy, started: nat, rounds: nat -> Round, sends: seq<bool>,
                      outcome: Outcome)
  {
    var n := |sends|;
    && Paced(config, h, policy, started, rounds, sends)
    && match outcome
       case Interrupted => AllGoOn(config, h, n) && rounds(n).stop
       case TimedOutWaiting(attempts) =>
         && AllGoOn(config, h, n) && !rounds(n).stop && rounds(n).now >= started + policy.timeout
         && attempts == 1 + Retries(sends)
       case Closed => n > 0 && AllGoOn(config, h, n - 1) && StepAt(config, h, n - 1).e == LinkClosed
       case Attached =>
         && n > 0 && AllGoOn(config, h, n - 1)
         && var e := StepAt(config, h, n - 1).e;
            e.DeviceLine? && IsAttachOk(NormalizeReply(e.text))
       case Rejected(reply) =>
         && n > 0 && AllGoOn(config, h, n - 1)
         && var e := StepAt(config, h, n - 1).e;
            e.DeviceLine? && reply == NormalizeReply(e.text) && IsRejection(reply) && !IsAttachOk(reply)
  }

  /** What is written, and how much of the input is unread then. */
  datatype Output = Output(bytes: seq<byte>, unread: nat)

  function Respond(s: Step): seq<Output> {
    if s.response.Some? then [Output(s.response.value, |s.host.input|)] else []
  }

  function Retry(h: Host, send: bool): seq<Output> {
    if send then [Output(FOLDER_ON, |h.input|)] else []
  }

  /** What a run writes: the command, then in each round the response of its step and a retry where there is one. */
  function Written(config: Config, h: Host, sends: seq<bool>): seq<Output> {
    if sends == [] then [Output(FOLDER_ON, |h.input|)]
    else
      var k := |sends| - 1;
      Written(config, h, sends[..k]) + Respond(StepAt(config, h, k)) + Retry(HostAfter(config, h, k + 1), sends[k])
  }

  function BytesOf(w: seq<Output>): (b: seq<seq<byte>>)
    ensures |b| == |w|
  {
    seq(|w|, i requires 0 <= i < |w| => w[i].bytes)
  }

  function UnreadOf(w: seq<Output>): (u: seq<nat>)
    ensures |u| == |w|
  {
    seq(|w|, i requires 0 <= i < |w| => w[i].unread)
  }

  /** The lines handed out in the first n steps. */
  function LinesIn(config: Config, h: Host, n: nat): seq<seq<byte>> {
    if n == 0 then []
    else
      var e := StepAt(config, h, n - 1).e;
      LinesIn(config, h, n - 1) + if e.DeviceLine? then [e.text] else []
  }

  /** Copies of the command among the chunks written. */
  function Copies(output: seq<seq<byte>>): nat {
    if output == [] then 0 else Copies(output[..|output| - 1]) + if output[|output| - 1] == FOLDER_ON then 1 else 0
  }

  // ---- the contract determines the run ----

  lemma PacedAt(config: Config, h: Host, policy: Policy, started: nat, rounds: nat -> Round, sends: seq<bool>, k: nat)
    requires Paced(config, h, policy, started, rounds, sends) && k < |sends|
    ensures !rounds(k).stop && rounds(k).now < started + policy.timeout
    ensures sends[k] <==> GoesOn(StepAt(config, h, k).e) && Due(config, h, policy, started, rounds, sends, k)
  {
    hide GoesOn, Due, StepAt;
  }

  lemma {:induction false} SamePrefix(config: Config, h: Host, policy: Policy, started: nat, rounds: nat -> Round,
                                      a: seq<bool>, b: seq<bool>, k: nat)
    requires Paced(config, h, policy, started, rounds, a) && Paced(config, h, policy, started, rounds, b)
    requires k <= |a| && k <= |b|
    ensures a[..k] == b[..k]
  {
    hide Paced;
    if k > 0 {
      SamePrefix(config, h, policy, started, rounds, a, b, k - 1);
      DueBefore(config, h, policy, started, rounds, a, b, k - 1);
      hide GoesOn, Due, StepAt;
      PacedAt(config, h, policy, started, rounds, a, k - 1);
      PacedAt(config, h, policy, started, rounds, b, k - 1);
      OneMore(a, b, k);
    }
  }

  lemma OneMore(a: seq<bool>, b: seq<bool>, k: nat)
    requires 0 < k <= |a| && k <= |b| && a[..k - 1] == b[..k - 1] && a[k - 1] == b[k - 1]
    ensures a[..k] == b[..k]
  {
    assert a[..k] == a[..k - 1] + [a[k - 1]] && b[..k] == b[..k - 1] + [b[k - 1]];
  }

  lemma DueBefore(config: Config, h: Host, policy: Policy, started: nat, rounds: nat -> Round, a: seq<bool>,
                  b: seq<bool>, k: nat)
    requires k <= |a| && k <= |b| && a[..k] == b[..k]
    ensures Due(config, h, policy, started, rounds, a, k) == Due(config, h, policy, started, rounds, b, k)
  {
  }

  lemma NotShorter(config: Config, h: Host, policy: Policy, started: nat, rounds: nat -> Round, a: seq<bool>,
                   oa: Outcome, b: seq<bool>, ob: Outcome)
    requires Ran(config, h, policy, started, rounds, a, oa) && Ran(config, h, policy, started, rounds, b, ob)
    ensures |a| >= |b|
  {
    hide Due, HostAfter, PumpStep, IsAttachOk, IsRejection, NormalizeReply;
  }

  /** There is only one run on an input, under a policy, with a clock and a stop flag. */
  lemma RunIsDetermined(config: Config, h: Host, policy: Policy, started: nat, rounds: nat -> Round, a: seq<bool>,
                        oa: Outcome, b: seq<bool>, ob: Outcome)
    requires Ran(config, h, policy, started, rounds, a, oa) && Ran(config, h, policy, started, rounds, b, ob)
    ensures a == b && oa == ob
  {
    hide Due, HostAfter, PumpStep, IsAttachOk, IsRejection, NormalizeReply;
    NotShorter(config, h, policy, started, rounds, a, oa, b, ob);
    NotShorter(config, h, policy, started, rounds, b, ob, a, oa);
    SamePrefix(config, h, policy, started, rounds, a, b, |a|);
    assert a[..|a|] == a && b[..|a|] == b;
    if |a| > 0 {
      assert AllGoOn(config, h, |a|) ==> GoesOn(StepAt(config, h, |a| - 1).e);
    }
  }

  // ---- safety of every run ----

  lemma {:induction false} LastSentBounds(policy: Policy, started: nat, rounds: nat -> Round, sends: seq<bool>, i: nat)
    requires forall k: nat :: k < |sends| && sends[k] ==>
               rounds(k).later >= LastSent(started, rounds, sends[..k]) + policy.retryAfter
    ensures LastSent(started, rounds, sends) >= started
    ensures i < |sends| && sends[i] ==> LastSent(started, rounds, sends) >= rounds(i).later
    decreases |sends|
  {
    if sends != [] {
      var n := |sends| - 1;
      forall k: nat | k < n && sends[..n][k]
        ensures rounds(k).later >= LastSent(started, rounds, sends[..n][..k]) + policy.retryAfter
      {
        assert sends[..n][..k] == sends[..k];
      }
      LastSentBounds(policy, started, rounds, sends[..n], i);
    }
  }

  /** Two commands are at least `retryAfter` apart. */
  lemma CommandsAreSpaced(config: Config, h: Host, policy: Policy, started: nat, rounds: nat -> Round, sends: seq<bool>,
                          i: nat, k: nat)
    requires Paced(config, h, policy, started, rounds, sends) && k < |sends| && sends[k]
    ensures started + policy.retryAfter <= rounds(k).later
    ensures i < k && sends[i] ==> rounds(i).later + policy.retryAfter <= rounds(k).later
  {
    hide GoesOn, HostAfter, NoFrame;
    assert Due(config, h, policy, started, rounds, sends, k);
    forall j: nat | j < k && sends[..k][j]
      ensures rounds(j).later >= LastSent(started, rounds, sends[..k][..j]) + policy.retryAfter
    {
      assert Due(config, h, policy, started, rounds, sends, j);
      assert sends[..k][..j] == sends[..j];
    }
    LastSentBounds(policy, started, rounds, sends[..k], i);
  }

  /** No more commands than the policy allows. */
  lemma {:induction false} RetriesBounded(config: Config, h: Host, policy: Policy, started: nat, rounds: nat -> Round,
                                          sends: seq<bool>, n: nat)
    requires Paced(config, h, policy, started, rounds, sends) && n <= |sends|
    ensures 1 + Retries(sends[..n]) <= Max(1, policy.maxAttempts)
  {
    hide GoesOn, HostAfter, NoFrame, Paced, LastSent, StepAt;
    if n > 0 {
      RetriesBounded(config, h, policy, started, rounds, sends, n - 1);
      assert sends[..n][..n - 1] == sends[..n - 1];
      PacedAt(config, h, policy, started, rounds, sends, n - 1);
    }
  }

  /** A command that goes out when the events `seen` have come in is safe: they are text only, no frame and no
      part of one behind its opcode, and no M of theirs waits for its next byte. */
  ghost predicate Safe(seen: seq<Event>) {
    OnlyText(Tokens(seen)) && !Waits(seen)
  }

  /** The line buffer has just overflowed, at an M or S taken for text, with an M right behind it. */
  ghost predicate OverflowsAtM(s: Step) {
    s.host.deferred == Some(M) && s.e.DeviceLine? && Utf8Len(s.e.text) > 512
  }

  /** Whatever has come in when a retry goes out is text. The retry falls between an M and its next byte
      exactly when the step before it has overflowed the line buffer and put an M aside, which is an M the
      source's guard does not look at. */
  lemma RetryIsSafe(config: Config, files: Files, input: seq<Event>, policy: Policy, started: nat, rounds: nat -> Round,
                    sends: seq<bool>, k: nat)
    requires Paced(config, Fresh(files, input), policy, started, rounds, sends) && k < |sends| && sends[k]
    requires AllGoOn(config, Fresh(files, input), k)
    ensures var h := Fresh(files, input);
            && OnlyText(Tokens(Seen(config, h, k + 1)))
            && (Safe(Seen(config, h, k + 1)) <==> !OverflowsAtM(StepAt(config, h, k)))
  {
    hide Tokens, Waits, PumpStep, OnlyText, Decisive, Utf8Len;
    var h := Fresh(files, input);
    assert Due(config, h, policy, started, rounds, sends, k) && GoesOn(StepAt(config, h, k).e);
    assert Open(config, h, k + 1) by {
      forall j: nat | j < k + 1 ensures StepAt(config, h, j).e != LinkClosed {
        assert j < k ==> GoesOn(StepAt(config, h, j).e);
      }
    }
    NoFrameSeen(config, files, input, k + 1);
    WaitsExactly(config, files, input, k + 1);
    PutAside(config, HostAfter(config, h, k));
  }

  /** A chunk that is the command went out at the start, or as the retry of some round. */
  ghost predicate FromRound(config: Config, h: Host, sends: seq<bool>, c: Output) {
    c.bytes == FOLDER_ON ==>
      c.unread == |h.input| ||
      exists k: nat :: k < |sends| && sends[k] && c.unread == |HostAfter(config, h, k + 1).input|
  }

  lemma ResponseIsNoCommand(op: byte, reply: Reply)
    ensures ResponseFrame(op, reply) != FOLDER_ON
  {
    assert ResponseFrame(op, reply)[0] == 0x6D;
  }

  lemma StepIsNoCommand(config: Config, h: Host)
    ensures PumpStep(config, h).response != Some(FOLDER_ON)
  {
    hide BehindM;
    if h.deferred.Some? {
      NoCommandBehindM(config, h.(deferred := None, pendingM := false), h.deferred.value);
    } else if h.input != [] && h.input[0].Got? {
      NoCommandBehindM(config, h.(input := h.input[1..], pendingM := false), h.input[0].b);
    }
  }

  lemma NoCommandBehindM(config: Config, h: Host, b: byte)
    ensures BehindM(config, h, b).response != Some(FOLDER_ON)
  {
    hide RequestAt, Answer, PushByte, PushBytes, ResponseFrame;
    RequestShrinks(h.input);
    var request := RequestAt(h.input).0;
    if b == S && request.Valid? {
      var reply := Answer(config, h.files, request.op, request.args).1;
      if reply.Some? {
        ResponseIsNoCommand(request.op, reply.value);
      }
    }
  }

  lemma {:induction false} CommandsAreFromRounds(config: Config, h: Host, sends: seq<bool>, c: Output)
    requires c in Written(config, h, sends)
    ensures FromRound(config, h, sends, c)
    decreases |sends|
  {
    hide PumpStep, HostAfter;
    if sends != [] {
      var k := |sends| - 1;
      StepIsNoCommand(config, HostAfter(config, h, k));
      if c in Written(config, h, sends[..k]) {
        CommandsAreFromRounds(config, h, sends[..k], c);
        if c.bytes == FOLDER_ON && c.unread != |h.input| {
          var j: nat :| j < |sends[..k]| && sends[..k][j] && c.unread == |HostAfter(config, h, j + 1).input|;
          assert sends[j];
        }
      } else if c in Retry(HostAfter(config, h, k + 1), sends[k]) {
        assert sends[k] && c.unread == |HostAfter(config, h, k + 1).input|;
      }
    }
  }

  /** A command on the wire follows text only. The first one is safe; a retry is, unless the step before it has
      overflowed the line buffer at an M. */
  ghost predicate CommandOnWire(config: Config, h: Host, sends: seq<bool>, c: Output) {
    c.bytes == FOLDER_ON ==>
      && c.unread <= |h.input|
      && var seen := h.input[..|h.input| - c.unread];
         && OnlyText(Tokens(seen))
         && ((c.unread == |h.input| && Safe(seen)) ||
             exists k: nat :: k < |sends| && RetryOnWire(config, h, sends, c, seen, k))
  }

  ghost predicate RetryOnWire(config: Config, h: Host, sends: seq<bool>, c: Output, seen: seq<Event>, k: nat)
    requires k < |sends|
  {
    && sends[k] && c.unread == |HostAfter(config, h, k + 1).input|
    && (Safe(seen) <==> !OverflowsAtM(StepAt(config, h, k)))
  }

  lemma CommandsAreSafe(config: Config, files: Files, input: seq<Event>, policy: Policy, started: nat,
                        rounds: nat -> Round, sends: seq<bool>, outcome: Outcome, c: Output)
    requires Ran(config, Fresh(files, input), policy, started, rounds, sends, outcome)
    requires c in Written(config, Fresh(files, input), sends)
    ensures CommandOnWire(config, Fresh(files, input), sends, c)
  {
    hide Tokens, Waits, PumpStep, HostAfter, OnlyText, Due, Decisive, OverflowsAtM, Written;
    var h := Fresh(files, input);
    CommandsAreFromRounds(config, h, sends, c);
    if c.bytes == FOLDER_ON {
      if c.unread == |h.input| {
        assert h.input[..0] == [];
        NothingIsText();
      } else {
        var k: nat :| k < |sends| && sends[k] && c.unread == |HostAfter(config, h, k + 1).input|;
        SeenIs(config, h, k + 1);
        RetryIsSafe(config, files, input, policy, started, rounds, sends, k);
        assert RetryOnWire(config, h, sends, c, Seen(config, h, k + 1), k);
      }
    }
  }

  /** As long as the node's lines fit the line buffer, no command falls between an M and its next byte. */
  lemma ShortLinesAreSafe(config: Config, files: Files, input: seq<Event>, policy: Policy, started: nat,
                          rounds: nat -> Round, sends: seq<bool>, outcome: Outcome, c: Output)
    requires Ran(config, Fresh(files, input), policy, started, rounds, sends, outcome)
    requires forall text :: text in LinesIn(config, Fresh(files, input), |sends|) ==> Utf8Len(text) <= 512
    requires c in Written(config, Fresh(files, input), sends) && c.bytes == FOLDER_ON
    ensures c.unread <= |input| && Safe(input[..|input| - c.unread])
  {
    hide Ran, Written, PumpStep, HostAfter, Safe, Utf8Len, OnlyText;
    var h := Fresh(files, input);
    CommandsAreSafe(config, files, input, policy, started, rounds, sends, outcome, c);
    var seen := input[..|input| - c.unread];
    if !Safe(seen) {
      var k: nat :| k < |sends| && RetryOnWire(config, h, sends, c, seen, k);
      LineIsIn(config, h, |sends|, k);
    }
  }

  lemma {:induction false} LineIsIn(config: Config, h: Host, n: nat, k: nat)
    requires k < n && StepAt(config, h, k).e.DeviceLine?
    ensures StepAt(config, h, k).e.text in LinesIn(config, h, n)
  {
    hide PumpStep, HostAfter;
    if k < n - 1 {
      LineIsIn(config, h, n - 1, k);
    }
  }

  lemma NothingIsText()
    ensures OnlyText(Tokens([])) && !Waits([])
  {
  }

  lemma SeenIs(config: Config, h: Host, n: nat)
    ensures var r := HostAfter(config, h, n).input; |r| <= |h.input| && Seen(config, h, n) == h.input[..|h.input| - |r|]
  {
    RunSuffix(config, h, n, 0);
    SeenIsAhead(config, h, n);
  }

  // ---- a command inside a frame ----

  /** 512 letters, one M of text, and a COUNT request. */
  function SplitInput(): seq<Event> {
    Events(Fill(512, 0x41)) + [Got(M), Got(M), Got(S), Got(OP_COUNT), Got(OP_COUNT)]
  }

  /** A clock that strikes in round 513, and a stop flag that is raised after it. */
  function Clock(): nat -> Round {
    i => Round(i == 514, 0, if i < 513 then 0 else 1)
  }

  function OneRetry(n: nat): (sends: seq<bool>)
    ensures |sends| == n + 1
  {
    seq(n, _ => false) + [true]
  }

  lemma {:induction false} LettersCount(n: nat)
    ensures Utf8Len(Fill(n, 0x41)) == n
  {
    if n > 0 {
      LettersCount(n - 1);
      assert Fill(n, 0x41)[..n - 1] == Fill(n - 1, 0x41);
    } else {
      assert Fill(0, 0x41) == [];
    }
  }

  ghost predicate Letters(input: seq<Event>, n: nat) {
    n <= |input| && forall i :: 0 <= i < n ==> input[i] == Got(0x41)
  }

  /** Reading the letters fills the line buffer and reports nothing. */
  lemma {:induction false} LettersRead(config: Config, files: Files, input: seq<Event>, n: nat)
    requires n <= 512 && Letters(input, n)
    ensures var h := Fresh(files, input);
            && HostAfter(config, h, n) == Host(false, None, Fill(n, 0x41), files, input[n..])
            && forall k: nat :: k < n ==> StepAt(config, h, k).e == Activity
  {
    hide PumpStep, Utf8Len;
    var h := Fresh(files, input);
    if n == 0 {
      assert Fill(0, 0x41) == [] && input[0..] == input;
    } else {
      LettersRead(config, files, input, n - 1);
      LettersCount(n);
      assert Fill(n - 1, 0x41) + [0x41] == Fill(n, 0x41);
      LetterStep(config, files, Fill(n - 1, 0x41), input[n - 1..]);
      NextHost(config, h, n - 1);
    }
  }

  lemma NextHost(config: Config, h: Host, n: nat)
    ensures HostAfter(config, h, n + 1) == StepAt(config, h, n).host
  {
  }

  lemma LetterStep(config: Config, files: Files, line: seq<byte>, input: seq<Event>)
    requires input != [] && input[0] == Got(0x41) && Utf8Len(line + [0x41]) <= 512
    ensures PumpStep(config, Host(false, None, line, files, input)) ==
            Step(Host(false, None, line + [0x41], files, input[1..]), Activity, None, [Text(0x41)])
  {
    hide TrimEnd, Utf8Len;
  }

  /** The first M is held back; the second overflows the buffer with the first and is put aside. */
  lemma MsRead(config: Config, files: Files)
    ensures var h := Fresh(files, SplitInput());
            && StepAt(config, h, 512).e == Activity
            && StepAt(config, h, 513).e == DeviceLine(Fill(512, 0x41) + [M])
            && HostAfter(config, h, 514) == Host(false, Some(M), [], files, SplitInput()[514..])
  {
    var h, input := Fresh(files, SplitInput()), SplitInput();
    LettersRead(config, files, input, 512);
    LettersCount(512);
    NextHost(config, h, 512);
    NextHost(config, h, 513);
    var line := Fill(512, 0x41);
    assert input[512] == Got(M) && input[513] == Got(M);
    assert input[512..][1..] == input[513..] && input[513..][1..] == input[514..];
    assert (line + [M])[..512] == line;
    assert Utf8Len(line + [M]) == 513;
    NotTrimmed(line, M);
    hide HostAfter, SplitInput, TrimEnd, Utf8Len;
    assert PumpStep(config, Host(false, None, line, files, input[512..])) ==
           Step(Host(true, None, line, files, input[513..]), Activity, None, []);
  }

  lemma {:induction false} NoRetryYet(n: nat, k: nat)
    requires k <= n
    ensures OneRetry(n)[..k] == seq(k, _ => false)
    ensures Retries(seq(k, _ => false)) == 0 && LastSent(0, Clock(), seq(k, _ => false)) == 0
  {
    if k > 0 {
      NoRetryYet(n, k - 1);
      assert seq(k, _ => false)[..k - 1] == seq(k - 1, _ => false);
    }
  }

  /** The guard of the retry does not look at the byte put aside, so a command can be sent between an M and its
      next byte: here inside the COUNT request that the M begins. By RunIsDetermined there is no other run. */
  lemma CommandInsideFrame(config: Config, files: Files)
    ensures var h := Fresh(files, SplitInput());
            var seen := Seen(config, h, 514);
            && Ran(config, h, Policy(1, 10, 2), 0, Clock(), OneRetry(513), Interrupted)
            && !Safe(seen)
            && Tokens(SplitInput()) == Tokens(seen) + [Frame(OP_COUNT, [])]
  {
    hide PumpStep, HostAfter, Tokens, Waits, Fill, NormalizeReply;
    var h, policy, sends := Fresh(files, SplitInput()), Policy(1, 10, 2), OneRetry(513);
    StepsGoOn(config, files);
    MsRead(config, files);
    forall k: nat | k < 514
      ensures sends[k] <==> GoesOn(StepAt(config, h, k).e) && Due(config, h, policy, 0, Clock(), sends, k)
    {
      NoRetryYet(513, k);
      if k == 513 {
        assert NoFrame(config, h, 514);
      }
    }
    assert AllGoOn(config, h, 514) && Open(config, h, 514);
    WaitsExactly(config, files, SplitInput(), 514);
    WaitingMOpensFrame(Seen(config, h, 514), OP_COUNT, [], []);
    SplitSeen(config, files);
    NoTokens();
    var t := Tokens(Seen(config, h, 514));
    assert t + ([Frame(OP_COUNT, [])] + []) == t + [Frame(OP_COUNT, [])];
  }

  lemma StepsGoOn(config: Config, files: Files)
    ensures forall k: nat :: k < 514 ==>
              var e := StepAt(config, Fresh(files, SplitInput()), k).e; GoesOn(e) && e != SeederFrame
  {
    hide PumpStep, HostAfter;
    LettersRead(config, files, SplitInput(), 512);
    MsRead(config, files);
    var text := Fill(512, 0x41) + [M];
    assert text[0] == 0x41;
    assert TrimStart(text) == text;
    assert !Decisive(text);
  }

  lemma SplitSeen(config: Config, files: Files)
    ensures WellFormed(OP_COUNT, [])
    ensures Seen(config, Fresh(files, SplitInput()), 514) + (Events(RequestBytes(OP_COUNT, [])[1..]) + []) ==
            SplitInput()
  {
    hide HostAfter;
    MsRead(config, files);
    var input := SplitInput();
    SeenIs(config, Fresh(files, input), 514);
    assert XorAll([], OP_COUNT) == OP_COUNT;
    assert RequestBytes(OP_COUNT, [])[1..] == [S, OP_COUNT, OP_COUNT];
    assert Events([S, OP_COUNT, OP_COUNT]) == [Got(S), Got(OP_COUNT), Got(OP_COUNT)];
    assert input[514..] == [Got(S), Got(OP_COUNT), Got(OP_COUNT)] + [];
  }

  lemma NoTokens()
    ensures Tokens([]) == []
  {
  }

  // ---- the outcome is what the wire says ----

  ghost predicate NoDecision(heard: seq<Heard>) {
    forall x :: x in heard && x.Line? ==> !Decisive(x.text)
  }

  /** Success rests on an accepted line and rejection on an error line, the first such line that the tokens
      come to; otherwise there was none. When the link has closed, all tokens have been played. */
  ghost predicate Settled(config: Config, files: Files, input: seq<Event>, tokens: seq<Token>, outcome: Outcome) {
    var heard := Play(config, World(files, [], [], []), tokens).heard;
    && tokens <= Tokens(input)
    && match outcome
       case Attached =>
         && heard != [] && heard[|heard| - 1].Line? && IsAttachOk(NormalizeReply(heard[|heard| - 1].text))
         && NoDecision(heard[..|heard| - 1])
       case Rejected(reply) =>
         && heard != [] && heard[|heard| - 1].Line? && reply == NormalizeReply(heard[|heard| - 1].text)
         && IsRejection(reply) && !IsAttachOk(reply) && NoDecision(heard[..|heard| - 1])
       case Closed => tokens == Tokens(input) && NoDecision(heard)
       case _ => NoDecision(heard)
  }

  lemma {:induction false} GoingOnDecidesNothing(config: Config, h: Host, n: nat)
    requires AllGoOn(config, h, n)
    ensures NoDecision(HeardBy(config, h, n)) && Open(config, h, n)
  {
    hide PumpStep, Decisive;
    if n > 0 {
      GoingOnDecidesNothing(config, h, n - 1);
      assert GoesOn(StepAt(config, h, n - 1).e);
    }
  }

  /** The tokens taken up are a front part of those on the wire, and all of them once the link has closed. */
  lemma TokensTaken(config: Config, files: Files, input: seq<Event>, n: nat)
    requires n > 0 ==> Open(config, Fresh(files, input), n - 1)
    ensures var h := Fresh(files, input);
            && TokensIn(config, h, n) <= Tokens(input)
            && (n > 0 && StepAt(config, h, n - 1).e == LinkClosed ==> TokensIn(config, h, n) == Tokens(input))
  {
    hide PumpStep, HostAfter, Tokens;
    var h := Fresh(files, input);
    PendingNothing(input);
    if n == 0 {
      assert TokensIn(config, h, 0) == [];
    } else if StepAt(config, h, n - 1).e == LinkClosed {
      RunTokens(config, h, n - 1);
      StepTokens(config, HostAfter(config, h, n - 1));
      assert TokensIn(config, h, n - 1) + [] == TokensIn(config, h, n - 1);
    } else {
      assert Open(config, h, n);
      RunTokens(config, h, n);
    }
  }

  lemma HeardIs(config: Config, files: Files, input: seq<Event>, n: nat)
    ensures var h := Fresh(files, input);
            && Play(config, World(files, [], [], []), TokensIn(config, h, n)).heard == HeardBy(config, h, n)
            && (n > 0 ==> HeardBy(config, h, n) == HeardBy(config, h, n - 1) + HeardIn(StepAt(config, h, n - 1).e))
  {
    hide PumpStep, Play;
    var h := Fresh(files, input);
    RunApplies(config, h, n, [], []);
    assert [] + HeardBy(config, h, n) == HeardBy(config, h, n);
  }

  lemma OutcomeIsSettled(config: Config, files: Files, input: seq<Event>, policy: Policy, started: nat,
                         rounds: nat -> Round, sends: seq<bool>, outcome: Outcome)
    requires Ran(config, Fresh(files, input), policy, started, rounds, sends, outcome)
    ensures Settled(config, files, input, TokensIn(config, Fresh(files, input), |sends|), outcome)
  {
    hide PumpStep, HostAfter, Tokens, Play, Paced, IsAttachOk, IsRejection, NormalizeReply, NoDecision, AllGoOn,
         StepAt, TokensIn, HeardBy, Open;
    var h, n := Fresh(files, input), |sends|;
    if outcome.Closed? || outcome.Attached? || outcome.Rejected? {
      GoingOnDecidesNothing(config, h, n - 1);
      TokensTaken(config, files, input, n);
      HeardIs(config, files, input, n);
      var before, last := HeardBy(config, h, n - 1), HeardIn(StepAt(config, h, n - 1).e);
      assert (before + last)[..|before|] == before;
      assert before + [] == before;
    } else {
      GoingOnDecidesNothing(config, h, n);
      if n > 0 { OpenBefore(config, h, n); }
      TokensTaken(config, files, input, n);
      HeardIs(config, files, input, n);
    }
  }

  lemma OpenBefore(config: Config, h: Host, n: nat)
    requires n > 0 && Open(config, h, n)
    ensures Open(config, h, n - 1)
  {
  }

  // ---- which lines are replies ----

  /** A reply line in literal terms: white space, at most one prompt, the text, and nothing or a tail that begins
      with a space or a colon. */
  predicate ReplyLine(line: seq<byte>, space: seq<byte>, prompt: seq<byte>, text: seq<byte>, tail: seq<byte>) {
    && line == space + prompt + text + tail
    && (forall i :: 0 <= i < |space| ==> space[i] in {9, 10, 11, 12, 13, 0x20, 0x85, 0xA0})
    && prompt in {[], Ascii("-> ")}
    && (tail == [] || tail[0] in {Ascii(" ")[0], Ascii(":")[0]})
  }

  /** The texts that end the handshake. */
  predicate SaysAttached(text: seq<byte>) {
    text == Ascii("OK folder attached") || text == Ascii("OK folder refreshed")
  }

  predicate SaysError(text: seq<byte>) { text == Ascii("ERR") }

  lemma {:induction false} TrimStartTakes(line: seq<byte>)
    ensures var n := |line| - |TrimStart(line)|;
            && 0 <= n && line[n..] == TrimStart(line)
            && (forall i :: 0 <= i < n ==> line[i] in {9, 10, 11, 12, 13, 0x20, 0x85, 0xA0})
  {
    if line != [] && IsSpace(line[0]) {
      TrimStartTakes(line[1..]);
    }
  }

  lemma {:induction false} TrimStartLeaves(space: seq<byte>, rest: seq<byte>)
    requires forall i :: 0 <= i < |space| ==> space[i] in {9, 10, 11, 12, 13, 0x20, 0x85, 0xA0}
    requires rest != [] && 0x21 <= rest[0] <= 0x7E
    ensures TrimStart(space + rest) == rest
  {
    if space == [] {
      assert space + rest == rest;
    } else {
      TrimStartLeaves(space[1..], rest);
      assert (space + rest)[1..] == space[1..] + rest;
    }
  }

  lemma TextsAre()
    ensures ATTACHED == Ascii("OK folder attached") && REFRESHED == Ascii("OK folder refreshed")
    ensures PROMPT == Ascii("-> ") && ERR == Ascii("ERR")
    ensures FOLDER_ON[..13] == Ascii("ota folder on") && FOLDER_ON[13..] == [13, 10]
  {
  }

  /** Normalising takes the white space and the prompt off, and nothing of a text that begins with a letter. */
  lemma NormalizedIs(line: seq<byte>, space: seq<byte>, prompt: seq<byte>, text: seq<byte>, tail: seq<byte>)
    requires ReplyLine(line, space, prompt, text, tail) && text != [] && 0x41 <= text[0] <= 0x5A
    ensures NormalizeReply(line) == text + tail
  {
    hide TrimStart;
    TextsAre();
    var rest := prompt + text + tail;
    assert line == space + rest;
    TrimStartLeaves(space, rest);
    if prompt == [] {
      assert rest == text + tail && rest[0] == text[0];
    } else {
      assert rest[..3] == prompt && rest[3..] == text + tail;
    }
  }

  lemma NormalizedTakes(line: seq<byte>) returns (space: seq<byte>, prompt: seq<byte>)
    ensures line == space + prompt + NormalizeReply(line) && prompt in {[], PROMPT}
    ensures forall i :: 0 <= i < |space| ==> space[i] in {9, 10, 11, 12, 13, 0x20, 0x85, 0xA0}
  {
    hide TrimStart;
    TrimStartTakes(line);
    var t := TrimStart(line);
    space := line[..|line| - |t|];
    prompt := if PROMPT <= t then PROMPT else [];
    PartsJoin(line, |space|, prompt, NormalizeReply(line));
  }

  lemma PartsJoin(line: seq<byte>, n: nat, prompt: seq<byte>, rest: seq<byte>)
    requires n <= |line| && prompt <= line[n..] && rest == line[n..][|prompt|..]
    ensures line == line[..n] + prompt + rest
  {
    var t := line[n..];
    assert t == t[..|prompt|] + t[|prompt|..];
    assert line == line[..n] + t;
    assert line[..n] + prompt + rest == line[..n] + (prompt + rest);
  }

  lemma PrefixedIs(line: seq<byte>, text: seq<byte>) returns (space: seq<byte>, prompt: seq<byte>, tail: seq<byte>)
    requires HasReplyPrefix(NormalizeReply(line), text)
    ensures ReplyLine(line, space, prompt, text, tail)
  {
    hide NormalizeReply;
    PromptIs();
    space, prompt := NormalizedTakes(line);
    var reply := NormalizeReply(line);
    tail := reply[|text|..];
    assert reply == text + tail;
    assert line == space + prompt + text + tail;
  }

  lemma PromptIs()
    ensures PROMPT == Ascii("-> ") && Ascii(" ")[0] == 0x20 && Ascii(":")[0] == 0x3A
  {
  }

  lemma PrefixedExactly(line: seq<byte>, text: seq<byte>)
    requires text != [] && 0x41 <= text[0] <= 0x5A
    ensures HasReplyPrefix(NormalizeReply(line), text) <==>
            exists space, prompt, tail :: ReplyLine(line, space, prompt, text, tail)
  {
    hide NormalizeReply, ReplyLine;
    if HasReplyPrefix(NormalizeReply(line), text) {
      var space, prompt, tail := PrefixedIs(line, text);
    }
    if space, prompt, tail :| ReplyLine(line, space, prompt, text, tail) {
      NormalizedIs(line, space, prompt, text, tail);
      TailFollows(line, space, prompt, text, tail);
    }
  }

  lemma TailFollows(line: seq<byte>, space: seq<byte>, prompt: seq<byte>, text: seq<byte>, tail: seq<byte>)
    requires ReplyLine(line, space, prompt, text, tail)
    ensures HasReplyPrefix(text + tail, text)
  {
  }

  /** The lines that say the folder is attached, in literal terms, and no other lines. */
  lemma AcceptedExactly(line: seq<byte>)
    ensures IsAttachOk(NormalizeReply(line)) <==>
            exists space, prompt, text, tail ::
              ReplyLine(line, space, prompt, text, tail) && SaysAttached(text)
  {
    hide NormalizeReply, ReplyLine, HasReplyPrefix;
    TextsAre();
    PrefixedExactly(line, ATTACHED);
    PrefixedExactly(line, REFRESHED);
  }

  /** The lines that say the node refuses, and no other lines. */
  lemma RejectedExactly(line: seq<byte>)
    ensures IsRejection(NormalizeReply(line)) <==>
            exists space, prompt, text, tail :: ReplyLine(line, space, prompt, text, tail) && SaysError(text)
  {
    hide NormalizeReply, ReplyLine, HasReplyPrefix;
    TextsAre();
    PrefixedExactly(line, ERR);
  }

  // ---- a reply on the wire decides ----

  lemma {:induction false} Utf8Grows(line: seq<byte>, n: nat)
    requires n <= |line|
    ensures Utf8Len(line[..n]) <= Utf8Len(line)
    decreases |line|
  {
    if n < |line| {
      var front := line[..|line| - 1];
      Utf8Grows(front, n);
      assert front[..n] == line[..n];
    } else {
      assert line[..n] == line;
    }
  }

  /** Text that fits the line buffer and in which neither a line ends nor a frame begins. */
  ghost predicate PlainLine(line: seq<byte>) {
    && Utf8Len(line) <= 512 && 0x0A !in line
    && (forall i :: 0 <= i < |line| - 1 && line[i] == M ==> line[i + 1] != S)
  }

  /** How much of the first k bytes of a line is in the buffer: an M waits for its next byte. */
  function Buffered(line: seq<byte>, k: nat): (n: nat)
    requires k <= |line|
    ensures n <= k
  {
    if k > 0 && line[k - 1] == M then k - 1 else k
  }

  /** The first k bytes of a line fill the buffer and report nothing. */
  lemma {:induction false} LineGoesIn(config: Config, files: Files, line: seq<byte>, input: seq<Event>, k: nat)
    requires PlainLine(line) && k <= |line| <= |input|
    requires forall i :: 0 <= i < |line| ==> input[i] == Got(line[i])
    ensures var h, n := Fresh(files, input), Buffered(line, k);
            && HostAfter(config, h, k) == Host(n < k, None, line[..n], files, input[k..])
            && forall j: nat :: j < k ==> StepAt(config, h, j).e == Activity
  {
    hide PumpStep, PlainLine;
    var h := Fresh(files, input);
    if k == 0 {
      assert line[..0] == [] && input[0..] == input;
    } else {
      LineGoesIn(config, files, line, input, k - 1);
      ByteGoesIn(config, files, line, input, k - 1);
      NextHost(config, h, k - 1);
    }
  }

  lemma Fits(line: seq<byte>, n: nat)
    requires PlainLine(line) && n < |line|
    ensures line[..n] + [line[n]] == line[..n + 1]
    ensures PushByte(line[..n], line[n]) == (line[..n + 1], None)
  {
    hide TrimEnd, Utf8Len;
    Utf8Grows(line, n + 1);
    assert line[..n] + [line[n]] == line[..n + 1];
  }

  lemma ByteGoesIn(config: Config, files: Files, line: seq<byte>, input: seq<Event>, k: nat)
    requires PlainLine(line) && k < |line| <= |input| && input[k] == Got(line[k])
    ensures var n, m := Buffered(line, k), Buffered(line, k + 1);
            var s := PumpStep(config, Host(n < k, None, line[..n], files, input[k..]));
            s.e == Activity && s.host == Host(m < k + 1, None, line[..m], files, input[k + 1..])
  {
    var n := Buffered(line, k);
    Fits(line, n);
    Fits(line, k);
    assert input[k..][1..] == input[k + 1..];
    hide PushByte, PlainLine;
    if n < k {
      assert line[k - 1] == M;
      assert line[k] != S by { NoMagic(line, k - 1); }
    }
  }

  lemma NoMagic(line: seq<byte>, i: nat)
    requires PlainLine(line) && i + 1 < |line| && line[i] == M
    ensures line[i + 1] != S
  {
  }

  /** The line feed behind a line hands it out, trimmed. */
  lemma LineComesOut(config: Config, files: Files, line: seq<byte>, input: seq<Event>)
    requires PlainLine(line) && |line| < |input| && input[|line|] == Got(0x0A)
    requires TrimEnd(line + [0x0A]) != []
    ensures var n := Buffered(line, |line|);
            PumpStep(config, Host(n < |line|, None, line[..n], files, input[|line|..])).e ==
            DeviceLine(TrimEnd(line + [0x0A]))
  {
    var n := Buffered(line, |line|);
    assert line[..|line|] == line && (n < |line| ==> line[n] == M && n + 1 == |line|);
    hide *;
    var h := Host(n < |line|, None, line[..n], files, input[|line| + 1..]);
    LineFeedCuts(line);
    if n < |line| {
      Fits(line, n);
    }
    LineFeedTaken(config, h, line);
    ByteTaken(config, h.(input := input[|line|..]), 0x0A, h.input);
  }

  lemma ByteTaken(config: Config, h: Host, b: byte, rest: seq<Event>)
    requires h.deferred.None? && h.input != [] && h.input[0] == Got(b) && h.input[1..] == rest
    ensures PumpStep(config, h) == TakeUp(config, h.(input := rest), b)
  {
    hide TakeUp;
  }

  lemma LineFeedTaken(config: Config, h: Host, line: seq<byte>)
    requires if h.pendingM then PushByte(h.line, M) == (line, None) else h.line == line
    requires PushByte(line, 0x0A) == ([], Some(TrimEnd(line + [0x0A])))
    ensures TakeUp(config, h, 0x0A).e == DeviceLine(TrimEnd(line + [0x0A]))
  {
    hide PushByte, TrimEnd;
  }

  lemma LineFeedCuts(line: seq<byte>)
    requires TrimEnd(line + [0x0A]) != []
    ensures PushByte(line, 0x0A) == ([], Some(TrimEnd(line + [0x0A])))
  {
    hide TrimEnd, Utf8Len;
  }

  lemma {:induction false} EndsTrimmed(reply: seq<byte>, ends: seq<byte>)
    requires forall i :: 0 <= i < |ends| ==> ends[i] in {0x0A, 0x0D}
    requires reply != [] && reply[|reply| - 1] !in {0x0A, 0x0D}
    ensures TrimEnd(reply + ends) == reply
  {
    if ends == [] {
      assert reply + ends == reply;
    } else {
      EndsTrimmed(reply, ends[..|ends| - 1]);
      assert (reply + ends)[..|reply + ends| - 1] == reply + ends[..|ends| - 1];
    }
  }

  /** The input begins with this reply on a line of its own: CRs may stand before the line feed, and the line is
      plain. */
  ghost predicate Begins(input: seq<Event>, reply: seq<byte>, crs: nat) {
    var line := reply + Fill(crs, 0x0D);
    && reply != [] && reply[|reply| - 1] != 0x0D && PlainLine(line)
    && |line| < |input| && (forall i :: 0 <= i < |line| ==> input[i] == Got(line[i])) && input[|line|] == Got(0x0A)
  }

  lemma ReplyRead(config: Config, files: Files, input: seq<Event>, reply: seq<byte>, crs: nat)
    requires Begins(input, reply, crs)
    ensures var h := Fresh(files, input);
            && StepAt(config, h, |reply| + crs).e == DeviceLine(reply)
            && forall j: nat :: j < |reply| + crs ==> StepAt(config, h, j).e == Activity
  {
    hide PumpStep, HostAfter, TrimEnd;
    var line := reply + Fill(crs, 0x0D);
    assert reply[|reply| - 1] != 0x0A by {
      assert line[|reply| - 1] == reply[|reply| - 1];
    }
    EndsTrimmed(reply, Fill(crs, 0x0D) + [0x0A]);
    assert line + [0x0A] == reply + (Fill(crs, 0x0D) + [0x0A]);
    LineGoesIn(config, files, line, input, |line|);
    LineComesOut(config, files, line, input);
  }

  /** There is time for the rounds up to and including round n. */
  ghost predicate InTime(policy: Policy, started: nat, rounds: nat -> Round, n: nat) {
    forall k: nat :: k <= n ==> !rounds(k).stop && rounds(k).now < started + policy.timeout
  }

  /** Any run on an input that begins with a reply ends on that reply, if there is time: attached on the two
      accepted texts, whatever stands around them, and rejected on `ERR`. */
  lemma ReplyDecides(config: Config, files: Files, input: seq<Event>, policy: Policy, started: nat,
                     rounds: nat -> Round, sends: seq<bool>, outcome: Outcome, reply: seq<byte>, crs: nat,
                     space: seq<byte>, prompt: seq<byte>, text: seq<byte>, tail: seq<byte>)
    requires Ran(config, Fresh(files, input), policy, started, rounds, sends, outcome)
    requires Begins(input, reply, crs) && InTime(policy, started, rounds, |reply| + crs)
    requires ReplyLine(reply, space, prompt, text, tail)
    requires SaysAttached(text) || SaysError(text)
    ensures |sends| == |reply| + crs + 1
    ensures outcome == if SaysError(text) then Rejected(text + tail) else Attached
  {
    hide PumpStep, HostAfter, Begins, ReplyLine, NormalizeReply, Due, Retries;
    ReplyRead(config, files, input, reply, crs);
    NormalizedIs(reply, space, prompt, text, tail);
    TextsAre();
    TailFollows(reply, space, prompt, text, tail);
    OkIsNoError(text + tail);
    var h, n := Fresh(files, input), |reply| + crs;
    assert Decisive(reply) && !GoesOn(StepAt(config, h, n).e);
    DecidedAt(config, h, policy, started, rounds, sends, outcome, n);
  }

  lemma OkIsNoError(reply: seq<byte>)
    ensures !(IsAttachOk(reply) && IsRejection(reply))
  {
  }

  /** A run with time left ends with its first decisive line. */
  lemma DecidedAt(config: Config, h: Host, policy: Policy, started: nat, rounds: nat -> Round, sends: seq<bool>,
                  outcome: Outcome, n: nat)
    requires Ran(config, h, policy, started, rounds, sends, outcome) && InTime(policy, started, rounds, n)
    requires forall j: nat :: j < n ==> StepAt(config, h, j).e == Activity
    requires var e := StepAt(config, h, n).e; e.DeviceLine? && Decisive(e.text)
    ensures |sends| == n + 1
    ensures var reply := NormalizeReply(StepAt(config, h, n).e.text);
            outcome == if IsAttachOk(reply) then Attached else Rejected(reply)
  {
    hide PumpStep, HostAfter, Due, Retries, NormalizeReply, IsAttachOk, IsRejection, Paced;
    assert !GoesOn(StepAt(config, h, n).e);
  }

  // ---- the method ----

  lemma WrittenMore(config: Config, h: Host, sends: seq<bool>, send: bool)
    ensures var k, w := |sends|, Written(config, h, sends);
            && Written(config, h, sends + [send]) ==
               w + Respond(StepAt(config, h, k)) + Retry(HostAfter(config, h, k + 1), send)
            && Retries(sends + [send]) == Retries(sends) + (if send then 1 else 0)
            && (sends + [send])[..k] == sends
  {
    assert (sends + [send])[..|sends|] == sends;
  }

  lemma OutputMore(w: seq<Output>, more: seq<Output>)
    ensures BytesOf(w + more) == BytesOf(w) + BytesOf(more) && UnreadOf(w + more) == UnreadOf(w) + UnreadOf(more)
  {
  }

  /** What goes out and how much is unread, in a round. */
  lemma RoundWrites(config: Config, h: Host, sends: seq<bool>, send: bool)
    ensures var k, w := |sends|, Written(config, h, sends);
            var s, more := StepAt(config, h, k), Written(config, h, sends + [send]);
            && BytesOf(more) == BytesOf(w) + Chunk(s.response) + (if send then [FOLDER_ON] else [])
            && UnreadOf(more) == UnreadOf(w) + (if s.response.Some? then [|s.host.input|] else []) +
                                 (if send then [|s.host.input|] else [])
  {
    hide PumpStep;
    WrittenMore(config, h, sends, send);
    var w, s := Written(config, h, sends), StepAt(config, h, |sends|);
    OutputMore(w + Respond(s), Retry(s.host, send));
    OutputMore(w, Respond(s));
    assert BytesOf(Respond(s)) == Chunk(s.response) && BytesOf(Retry(s.host, send)) == if send then [FOLDER_ON] else [];
    assert UnreadOf(Respond(s)) == if s.response.Some? then [|s.host.input|] else [];
    assert UnreadOf(Retry(s.host, send)) == if send then [|s.host.input|] else [];
  }

  lemma PacedMore(config: Config, h: Host, policy: Policy, started: nat, rounds: nat -> Round, sends: seq<bool>,
                  send: bool)
    requires Paced(config, h, policy, started, rounds, sends)
    requires var k := |sends|;
             && !rounds(k).stop && rounds(k).now < started + policy.timeout
             && (send <==> GoesOn(StepAt(config, h, k).e) && Due(config, h, policy, started, rounds, sends, k))
    ensures Paced(config, h, policy, started, rounds, sends + [send])
  {
    hide GoesOn, Due, HostAfter, PumpStep;
    var more := sends + [send];
    forall k: nat | k < |more|
      ensures !rounds(k).stop && rounds(k).now < started + policy.timeout
      ensures more[k] <==> GoesOn(StepAt(config, h, k).e) && Due(config, h, policy, started, rounds, more, k)
    {
      assert more[..k] == sends[..k];
      DueBefore(config, h, policy, started, rounds, more, sends, k);
    }
  }

  lemma {:induction false} CopiesWritten(config: Config, h: Host, output: seq<seq<byte>>, sends: seq<bool>)
    ensures Copies(output + BytesOf(Written(config, h, sends))) == Copies(output) + 1 + Retries(sends)
    decreases |sends|
  {
    hide PumpStep, HostAfter, StepAt, Written, BytesOf, Copies;
    if sends == [] {
      FirstWritten(config, h);
      CopiesAppend(output, FOLDER_ON);
    } else {
      var k := |sends| - 1;
      CopiesWritten(config, h, output, sends[..k]);
      CopiesInRound(config, h, output, sends[..k], sends[k]);
      assert sends[..k] + [sends[k]] == sends;
    }
  }

  lemma CopiesInRound(config: Config, h: Host, output: seq<seq<byte>>, sends: seq<bool>, send: bool)
    ensures Copies(output + BytesOf(Written(config, h, sends + [send]))) ==
            Copies(output + BytesOf(Written(config, h, sends))) + if send then 1 else 0
  {
    hide PumpStep, HostAfter, Written, BytesOf, Copies;
    var w, s := BytesOf(Written(config, h, sends)), StepAt(config, h, |sends|);
    RoundWrites(config, h, sends, send);
    StepIsNoCommand(config, HostAfter(config, h, |sends|));
    var o1 := output + w;
    var o2 := if s.response.Some? then o1 + [s.response.value] else o1;
    if s.response.Some? {
      CopiesAppend(o1, s.response.value);
    }
    CopiesAppend(o2, FOLDER_ON);
    assert output + BytesOf(Written(config, h, sends + [send])) == if send then o2 + [FOLDER_ON] else o2;
  }

  lemma FirstWritten(config: Config, h: Host)
    ensures BytesOf(Written(config, h, [])) == [FOLDER_ON] && UnreadOf(Written(config, h, [])) == [|h.input|]
  {
  }

  lemma CopiesAppend(output: seq<seq<byte>>, chunk: seq<byte>)
    ensures Copies(output + [chunk]) == Copies(output) + if chunk == FOLDER_ON then 1 else 0
  {
    assert (output + [chunk])[..|output|] == output;
  }

  lemma NoFrameMore(config: Config, h: Host, n: nat)
    ensures NoFrame(config, h, n + 1) <==> NoFrame(config, h, n) && StepAt(config, h, n).e != SeederFrame
    ensures AllGoOn(config, h, n + 1) <==> AllGoOn(config, h, n) && GoesOn(StepAt(config, h, n).e)
  {
    hide PumpStep, GoesOn;
  }

  /** src/serve.rs:631-694, after the settling pause. rounds(i) is what the i-th round reads of the clock and
      the stop flag; `sends` tells the rounds that end with a retry. */
  method AttachSerialFolder(link: Link, core: SeederCore, policy: Policy, stopped: bool, started: nat,
                            rounds: nat -> Round)
    returns (outcome: Outcome, lines: seq<seq<byte>>, ghost sends: seq<bool>)
    modifies link, core`files
    ensures stopped ==>
              && outcome == Interrupted && lines == [] && core.files == old(core.files)
              && link.input == old(link.input) && link.output == old(link.output)
    ensures !stopped ==>
              var h := Fresh(old(core.files), old(link.input));
              && Ran(core.config, h, policy, started, rounds, sends, outcome)
              && core.files == HostAfter(core.config, h, |sends|).files
              && link.input == HostAfter(core.config, h, |sends|).input
              && lines == LinesIn(core.config, h, |sends|)
              && link.output == old(link.output) + BytesOf(Written(core.config, h, sends))
              && link.unread == old(link.unread) + UnreadOf(Written(core.config, h, sends))
    ensures !stopped ==>
              var h := Fresh(old(core.files), old(link.input));
              && Copies(link.output) == Copies(old(link.output)) + 1 + Retries(sends)
              && 1 + Retries(sends) <= Max(1, policy.maxAttempts)
              && (forall c :: c in Written(core.config, h, sends) ==> CommandOnWire(core.config, h, sends, c))
              && Settled(core.config, old(core.files), old(link.input), TokensIn(core.config, h, |sends|), outcome)
  {
    sends := [];
    if stopped {
      return Interrupted, [], [];
    }
    ghost var h, output0 := Fresh(core.files, link.input), link.output;
    outcome, lines, sends := Handshake(link, core, policy, started, rounds);
    CopiesWritten(core.config, h, output0, sends);
    RetriesBounded(core.config, h, policy, started, rounds, sends, |sends|);
    assert sends[..|sends|] == sends;
    OutcomeIsSettled(core.config, h.files, h.input, policy, started, rounds, sends, outcome);
    forall c | c in Written(core.config, h, sends)
      ensures CommandOnWire(core.config, h, sends, c)
    {
      CommandsAreSafe(core.config, h.files, h.input, policy, started, rounds, sends, outcome, c);
    }
  }

  /** A handshake under way: the fields say what the rounds so far say. */
  ghost predicate Underway(config: Config, h: Host, policy: Policy, started: nat, rounds: nat -> Round,
                           sends: seq<bool>, attempts: nat, retryAt: nat, seen: bool, lines: seq<seq<byte>>)
  {
    && Paced(config, h, policy, started, rounds, sends) && AllGoOn(config, h, |sends|)
    && attempts == 1 + Retries(sends) && retryAt == LastSent(started, rounds, sends) + policy.retryAfter
    && (seen <==> !NoFrame(config, h, |sends|))
    && lines == LinesIn(config, h, |sends|)
  }

  /** The output of a run so far, behind what was there before. */
  ghost predicate Recorded(config: Config, h: Host, sends: seq<bool>, output0: seq<seq<byte>>, unread0: seq<nat>,
                           output: seq<seq<byte>>, unread: seq<nat>)
  {
    && output == output0 + BytesOf(Written(config, h, sends))
    && unread == unread0 + UnreadOf(Written(config, h, sends))
  }

  lemma NothingYet(config: Config, h: Host, policy: Policy, started: nat, rounds: nat -> Round, output0: seq<seq<byte>>,
                   unread0: seq<nat>)
    ensures Underway(config, h, policy, started, rounds, [], 1, started + policy.retryAfter, false, [])
    ensures Recorded(config, h, [], output0, unread0, output0 + [FOLDER_ON], unread0 + [|h.input|])
  {
    FirstWritten(config, h);
  }

  /** A round that goes on keeps the handshake under way. */
  lemma RoundTaken(config: Config, h: Host, policy: Policy, started: nat, rounds: nat -> Round, sends: seq<bool>,
                   attempts: nat, retryAt: nat, seen: bool, lines: seq<seq<byte>>, send: bool)
    requires Underway(config, h, policy, started, rounds, sends, attempts, retryAt, seen, lines)
    requires !rounds(|sends|).stop && rounds(|sends|).now < started + policy.timeout
    requires var s := StepAt(config, h, |sends|);
             && GoesOn(s.e)
             && (send <==> !seen && s.e != SeederFrame && !s.host.pendingM && attempts < policy.maxAttempts &&
                           rounds(|sends|).later >= retryAt)
    ensures var s := StepAt(config, h, |sends|);
            Underway(config, h, policy, started, rounds, sends + [send],
                     if send then attempts + 1 else attempts,
                     if send then rounds(|sends|).later + policy.retryAfter else retryAt,
                     seen || s.e == SeederFrame,
                     if s.e.DeviceLine? then lines + [s.e.text] else lines)
  {
    hide PumpStep, GoesOn, NoFrame, AllGoOn, Paced;
    NoFrameMore(config, h, |sends|);
    assert sends[..|sends|] == sends;
    assert (sends + [send])[..|sends|] == sends;
    PacedMore(config, h, policy, started, rounds, sends, send);
    assert lines + [] == lines;
  }

  /** A round that decides, or finds the link closed, sends nothing. */
  lemma RoundEnds(config: Config, h: Host, policy: Policy, started: nat, rounds: nat -> Round, sends: seq<bool>)
    requires Paced(config, h, policy, started, rounds, sends) && AllGoOn(config, h, |sends|)
    requires !rounds(|sends|).stop && rounds(|sends|).now < started + policy.timeout
    requires !GoesOn(StepAt(config, h, |sends|).e)
    ensures Paced(config, h, policy, started, rounds, sends + [false]) && AllGoOn(config, h, |sends + [false]| - 1)
    ensures LinesIn(config, h, |sends| + 1) ==
            LinesIn(config, h, |sends|) +
            (if StepAt(config, h, |sends|).e.DeviceLine? then [StepAt(config, h, |sends|).e.text] else [])
  {
    hide PumpStep, GoesOn, AllGoOn, Paced;
    PacedMore(config, h, policy, started, rounds, sends, false);
  }

  lemma RoundRecorded(config: Config, h: Host, sends: seq<bool>, send: bool, output0: seq<seq<byte>>, unread0: seq<nat>,
                      output: seq<seq<byte>>, unread: seq<nat>, output1: seq<seq<byte>>, unread1: seq<nat>)
    requires Recorded(config, h, sends, output0, unread0, output, unread)
    requires Wrote(StepAt(config, h, |sends|), output, unread, output1, unread1)
    ensures var left := |StepAt(config, h, |sends|).host.input|;
            Recorded(config, h, sends + [send], output0, unread0,
                     output1 + (if send then [FOLDER_ON] else []), unread1 + if send then [left] else [])
  {
    hide PumpStep, BytesOf, UnreadOf, Written;
    RoundWrites(config, h, sends, send);
  }

  /** src/serve.rs:643-694 */
  method Handshake(link: Link, core: SeederCore, policy: Policy, started: nat, rounds: nat -> Round)
    returns (outcome: Outcome, lines: seq<seq<byte>>, ghost sends: seq<bool>)
    modifies link, core`files
    ensures var h := Fresh(old(core.files), old(link.input));
            && Ran(core.config, h, policy, started, rounds, sends, outcome)
            && core.files == HostAfter(core.config, h, |sends|).files
            && link.input == HostAfter(core.config, h, |sends|).input
            && lines == LinesIn(core.config, h, |sends|)
            && Recorded(core.config, h, sends, old(link.output), old(link.unread), link.output, link.unread)
  {
    hide PumpStep, Tokens, SameOutcome, NoFrame, AllGoOn, Paced, Recorded, Retries, LastSent, NormalizeReply,
         IsAttachOk, IsRejection, Wrote, Play;
    ghost var h, output0, unread0 := Fresh(core.files, link.input), link.output, link.unread;
    lines := [];
    sends := [];
    link.WriteAll(FOLDER_ON);
    var attempts: nat := 1;
    var retryAt: nat := started + policy.retryAfter;
    var deadline := started + policy.timeout;
    var protocolSeen := false;
    var stream := new StreamState();
    NothingYet(core.config, h, policy, started, rounds, output0, unread0);
    var i: nat := 0;
    while true
      invariant fresh(stream) && i == |sends|
      invariant stream.HostNow(link, core) == HostAfter(core.config, h, i)
      invariant Underway(core.config, h, policy, started, rounds, sends, attempts, retryAt, protocolSeen, lines)
      invariant Recorded(core.config, h, sends, output0, unread0, link.output, link.unread)
      decreases stream.Remaining(link)
    {
      var round := rounds(i);
      if round.stop {
        return Interrupted, lines, sends;
      }
      if round.now >= deadline {
        return TimedOutWaiting(attempts), lines, sends;
      }
      ghost var output, unread, attempts0, retryAt0, seen0, lines0 :=
        link.output, link.unread, attempts, retryAt, protocolSeen, lines;
      var e := stream.Pump(link, core);
      ghost var send := false;
      RoundRecorded(core.config, h, sends, false, output0, unread0, output, unread, link.output, link.unread);
      RoundRecorded(core.config, h, sends, true, output0, unread0, output, unread, link.output, link.unread);
      NothingAdded(link.output, link.unread);
      match e {
        case LinkClosed =>
          RoundEnds(core.config, h, policy, started, rounds, sends);
          sends := sends + [false];
          return Outcome.Closed, lines, sends;
        case SeederFrame =>
          protocolSeen := true;
        case DeviceLine(text) =>
          lines := lines + [text];
          var reply := NormalizeReply(text);
          if IsAttachOk(reply) {
            RoundEnds(core.config, h, policy, started, rounds, sends);
            sends := sends + [false];
            return Attached, lines, sends;
          }
          if IsRejection(reply) {
            RoundEnds(core.config, h, policy, started, rounds, sends);
            sends := sends + [false];
            return Rejected(reply), lines, sends;
          }
        case Activity =>
        case TimedOut =>
      }
      if !protocolSeen && !stream.pendingM && attempts < policy.maxAttempts && round.later >= retryAt {
        link.WriteAll(FOLDER_ON);
        attempts := attempts + 1;
        retryAt := round.later + policy.retryAfter;
        send := true;
      }
      RoundTaken(core.config, h, policy, started, rounds, sends, attempts0, retryAt0, seen0, lines0, send);
      sends := sends + [send];
      i := i + 1;
    }
  }

  lemma NothingAdded(output: seq<seq<byte>>, unread: seq<nat>)
    ensures output + [] == output && unread + [] == unread
  {
  }
}
