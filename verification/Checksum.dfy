/** What the one-byte checksum of requests and responses is (src/serve.rs:440-442), bit by bit. */
module Checksum {
  import opened Bytes
  import opened Merkle
  import opened Seeder
  import opened Stream

  function Weight(k: nat): nat
    requires k < 8
  {
    if k == 0 then 1 else if k == 1 then 2 else if k == 2 then 4 else if k == 3 then 8
    else if k == 4 then 16 else if k == 5 then 32 else if k == 6 then 64 else 128
  }

  /** Bit k of a byte is set. */
  predicate HasBit(b: byte, k: nat)
    requires k < 8
  {
    b / Weight(k) % 2 == 1
  }

  function One(bit: bool): nat { if bit then 1 else 0 }

  /** How many of the bytes have bit k set. */
  function Having(bytes: seq<byte>, k: nat): nat
    requires k < 8
  {
    if bytes == [] then 0 else One(HasBit(bytes[0], k)) + Having(bytes[1..], k)
  }

  /** Every bit is set in an even number of the bytes. */
  ghost predicate Even(bytes: seq<byte>) {
    forall k :: 0 <= k < 8 ==> Having(bytes, k) % 2 == 0
  }

  // ---- bits and bytes ----

  function Mask(k: nat): bv8
    requires k < 8
  {
    if k == 0 then 1 else if k == 1 then 2 else if k == 2 then 4 else if k == 3 then 8
    else if k == 4 then 16 else if k == 5 then 32 else if k == 6 then 64 else 128
  }

  predicate VectorBit(v: bv8, k: nat)
    requires k < 8
  {
    v & Mask(k) != 0
  }

  lemma BitIs(b: byte, k: nat)
    requires k < 8
    ensures HasBit(b, k) <==> VectorBit(b as bv8, k)
  {
  }

  lemma VectorXor(v: bv8, w: bv8, k: nat)
    requires k < 8
    ensures VectorBit(v ^ w, k) <==> (VectorBit(v, k) != VectorBit(w, k))
  {
    MaskOne(k);
    MaskXor(v, w, Mask(k));
    hide Mask;
  }

  lemma MaskOne(k: nat)
    requires k < 8
    ensures Mask(k) != 0 && Mask(k) & (Mask(k) - 1) == 0
  {
  }

  lemma MaskXor(v: bv8, w: bv8, m: bv8)
    requires m != 0 && m & (m - 1) == 0
    ensures (v ^ w) & m != 0 <==> ((v & m != 0) != (w & m != 0))
  {
  }

  /** Exclusive or of two bytes sets the bits that one of them has. */
  lemma XorBit(x: byte, y: byte, k: nat)
    requires k < 8
    ensures HasBit(Xor8(x, y), k) <==> (HasBit(x, k) != HasBit(y, k))
  {
    BitIs(Xor8(x, y), k);
    BitIs(x, k);
    BitIs(y, k);
    VectorXor(x as bv8, y as bv8, k);
    assert Xor8(x, y) as bv8 == (x as bv8) ^ (y as bv8);
    hide HasBit, VectorBit;
  }

  /** A byte is the sum of its bits. */
  lemma ByteOfBits(b: byte)
    ensures b == One(HasBit(b, 0)) + 2 * One(HasBit(b, 1)) + 4 * One(HasBit(b, 2)) + 8 * One(HasBit(b, 3))
                 + 16 * One(HasBit(b, 4)) + 32 * One(HasBit(b, 5)) + 64 * One(HasBit(b, 6)) + 128 * One(HasBit(b, 7))
  {
    BitOf(b, 0);
    BitOf(b, 1);
    BitOf(b, 2);
    BitOf(b, 3);
    BitOf(b, 4);
    BitOf(b, 5);
    BitOf(b, 6);
    BitOf(b, 7);
    hide HasBit, One;
    EightDigits(b);
  }

  lemma BitOf(b: byte, k: nat)
    requires k < 8
    ensures One(HasBit(b, k)) == b / Weight(k) % 2
  {
  }

  lemma EightDigits(b: byte)
    ensures b == b / 1 % 2 + 2 * (b / 2 % 2) + 4 * (b / 4 % 2) + 8 * (b / 8 % 2) + 16 * (b / 16 % 2) + 32 * (b / 32 % 2)
                 + 64 * (b / 64 % 2) + 128 * (b / 128 % 2)
  {
    EightHalves(b);
    HalvesAre(b);
  }

  lemma HalvesAre(n: nat)
    ensures n / 2 / 2 == n / 4 && n / 4 / 2 == n / 8 && n / 8 / 2 == n / 16 && n / 16 / 2 == n / 32
    ensures n / 32 / 2 == n / 64 && n / 64 / 2 == n / 128
  {
    HalfOf(n, 2);
    HalfOf(n, 4);
    HalfOf(n, 8);
    HalfOf(n, 16);
    HalfOf(n, 32);
    HalfOf(n, 64);
  }

  lemma HalfOf(n: nat, d: nat)
    requires d > 0
    ensures n / d / 2 == n / (2 * d)
  {
    var q, r := n / d, n % d;
    var h, s := q / 2, q % 2;
    assert n == d * q + r && q == 2 * h + s;
    assert n == (2 * d) * h + (d * s + r);
    assert d * s + r < 2 * d;
    DivideUnique(n, 2 * d, h, d * s + r);
  }

  lemma EightHalves(b: byte)
    ensures b == b % 2 + 2 * (b / 2 % 2) + 4 * (b / 2 / 2 % 2) + 8 * (b / 2 / 2 / 2 % 2) + 16 * (b / 2 / 2 / 2 / 2 % 2)
                 + 32 * (b / 2 / 2 / 2 / 2 / 2 % 2) + 64 * (b / 2 / 2 / 2 / 2 / 2 / 2 % 2)
                 + 128 * (b / 2 / 2 / 2 / 2 / 2 / 2 / 2 % 2)
  {
  }

  lemma BitsDetermine(a: byte, b: byte)
    requires forall k :: 0 <= k < 8 ==> (HasBit(a, k) <==> HasBit(b, k))
    ensures a == b
  {
    ByteOfBits(a);
    ByteOfBits(b);
    hide HasBit;
    assert forall k :: 0 <= k < 8 ==> One(HasBit(a, k)) == One(HasBit(b, k));
  }

  // ---- the checksum ----

  /** Bit k of the checksum is the parity of the bytes that have it, the seed included. */
  lemma {:induction false} ChecksumIsParity(bytes: seq<byte>, seed: byte, k: nat)
    requires k < 8
    ensures HasBit(XorAll(bytes, seed), k) <==> (Having(bytes, k) + One(HasBit(seed, k))) % 2 == 1
    decreases |bytes|
  {
    hide HasBit, Xor8;
    if bytes != [] {
      XorBit(seed, bytes[0], k);
      ChecksumIsParity(bytes[1..], Xor8(seed, bytes[0]), k);
    }
  }

  lemma {:induction false} HavingBoth(a: seq<byte>, b: seq<byte>, k: nat)
    requires k < 8
    ensures Having(a + b, k) == Having(a, k) + Having(b, k)
    decreases |a|
  {
    hide HasBit;
    if a == [] {
      assert a + b == b;
    } else {
      assert (a + b)[1..] == a[1..] + b;
      HavingBoth(a[1..], b, k);
    }
  }

  lemma HavingOne(b: byte, k: nat)
    requires k < 8
    ensures Having([b], k) == One(HasBit(b, k))
  {
    hide HasBit;
    assert [b][1..] == [];
  }

  lemma HavingFrame(op: byte, args: seq<byte>, sum: byte, k: nat)
    requires k < 8
    ensures Having([op] + args + [sum], k) == One(HasBit(op, k)) + Having(args, k) + One(HasBit(sum, k))
  {
    hide HasBit, Having;
    HavingBoth([op] + args, [sum], k);
    HavingBoth([op], args, k);
    HavingOne(op, k);
    HavingOne(sum, k);
  }

  /** A checksum is right exactly when it makes the whole even in every bit. */
  lemma RightExactly(op: byte, args: seq<byte>, sum: byte)
    ensures sum == XorAll(args, op) <==> Even([op] + args + [sum])
  {
    hide HasBit, Having, XorAll;
    var right := XorAll(args, op);
    forall k | 0 <= k < 8
      ensures Having([op] + args + [sum], k) % 2 == 0 <==> (HasBit(sum, k) <==> HasBit(right, k))
    {
      HavingFrame(op, args, sum, k);
      ChecksumIsParity(args, op, k);
    }
    if Even([op] + args + [sum]) {
      BitsDetermine(sum, right);
    }
  }

  // ---- requests ----

  /** A request of the right length is valid exactly when every bit is set an even number of times between the
      magic and the end of it. */
  lemma ValidExactly(op: byte, args: seq<byte>, sum: byte, rest: seq<Event>)
    requires WellFormed(op, args)
    ensures RequestAt(Events([op] + args + [sum]) + rest) ==
            (if Even([op] + args + [sum]) then Valid(op, args) else MalformedKnown, rest)
  {
    hide RequestAt, XorAll, Having;
    RequestRecognised(op, args, sum, rest);
    RightExactly(op, args, sum);
  }

  /** What a node sends as a request sums up even behind the magic. */
  lemma RequestIsEven(op: byte, args: seq<byte>)
    ensures |RequestBytes(op, args)| == |args| + 4 && RequestBytes(op, args)[..2] == Ascii("MS")
    ensures RequestBytes(op, args)[2..] == [op] + args + [XorAll(args, op)] && Even(RequestBytes(op, args)[2..])
  {
    hide XorAll, Having;
    RightExactly(op, args, XorAll(args, op));
    assert RequestBytes(op, args)[2..] == [op] + args + [XorAll(args, op)];
    assert RequestBytes(op, args)[..2] == [M, S];
  }

  lemma {:induction false} OneByteFlips(bytes: seq<byte>, i: nat, b: byte, k: nat)
    requires i < |bytes| && k < 8
    ensures Having(bytes[i := b], k) + One(HasBit(bytes[i], k)) == Having(bytes, k) + One(HasBit(b, k))
  {
    hide HasBit, Having;
    var front, back := bytes[..i], bytes[i + 1..];
    assert bytes == [] + front + [bytes[i]] + back && bytes[i := b] == [] + front + [b] + back;
    HavingBoth(front + [bytes[i]], back, k);
    HavingBoth(front, [bytes[i]], k);
    HavingBoth(front + [b], back, k);
    HavingBoth(front, [b], k);
    HavingOne(b, k);
    HavingOne(bytes[i], k);
    assert [] + front == front;
  }

  /** One changed byte makes an even whole odd somewhere. */
  lemma OneByteDamages(bytes: seq<byte>, i: nat, b: byte)
    requires Even(bytes) && i < |bytes| && b != bytes[i]
    ensures !Even(bytes[i := b])
  {
    hide HasBit, Having;
    if forall k :: 0 <= k < 8 ==> (HasBit(b, k) <==> HasBit(bytes[i], k)) {
      BitsDetermine(b, bytes[i]);
    } else {
      var k :| 0 <= k < 8 && !(HasBit(b, k) <==> HasBit(bytes[i], k));
      OneByteFlips(bytes, i, b, k);
      assert Having(bytes, k) % 2 == 0;
      assert Having(bytes[i := b], k) % 2 == 1;
    }
  }

  /** Any one changed byte of a request - opcode, argument or checksum - makes it invalid, as long as its length
      still suits its opcode. */
  lemma DamageIsNoticed(op: byte, args: seq<byte>, i: nat, b: byte, op1: byte, args1: seq<byte>, sum1: byte,
                        rest: seq<Event>)
    requires var sent := RequestBytes(op, args)[2..];
             i < |sent| && b != sent[i] && sent[i := b] == [op1] + args1 + [sum1]
    requires WellFormed(op1, args1)
    ensures RequestAt(Events([op1] + args1 + [sum1]) + rest) == (MalformedKnown, rest)
  {
    hide RequestAt, XorAll, Having, Even, RequestBytes;
    RequestIsEven(op, args);
    OneByteDamages(RequestBytes(op, args)[2..], i, b);
    ValidExactly(op1, args1, sum1, rest);
  }

  // ---- requests cut short ----

  lemma {:induction false} TakeCut(bytes: seq<byte>, n: nat, rest: seq<Event>)
    requires |bytes| < n
    ensures TakeBytes(Events(bytes) + ([Timeout] + rest), n) == (None, rest)
    decreases |bytes|
  {
    var ev := Events(bytes) + ([Timeout] + rest);
    if bytes == [] {
      assert ev == [Timeout] + rest && ev[1..] == rest;
    } else {
      assert ev[1..] == Events(bytes[1..]) + ([Timeout] + rest);
      TakeCut(bytes[1..], n - 1, rest);
    }
  }

  /** A WRITE that announces more than 512 bytes is given up at once: its data is not read. */
  lemma OversizedWrite(header: seq<byte>, rest: seq<Event>)
    requires |header| == 10 && RdU16(header, 8) > 512
    ensures RequestAt([Got(OP_WRITE)] + (Events(header) + rest)) == (MalformedKnown, rest)
  {
    hide TakeBytes;
    TakeThem(header, rest);
    assert ([Got(OP_WRITE)] + (Events(header) + rest))[1..] == Events(header) + rest;
  }

  /** A request that a timeout cuts short anywhere is malformed, and reading goes on behind the timeout. */
  lemma CutShort(op: byte, args: seq<byte>, sum: byte, p: nat, rest: seq<Event>)
    requires WellFormed(op, args) && p < |args| + 2
    ensures RequestAt(Events(([op] + args + [sum])[..p]) + ([Timeout] + rest)) == (MalformedKnown, rest)
  {
    var sent, late := [op] + args + [sum], [Timeout] + rest;
    if p == 0 {
      assert Events(sent[..0]) + late == late && late[1..] == rest;
    } else {
      hide RequestAt;
      var came := (args + [sum])[..p - 1];
      assert sent[..p] == [op] + came;
      assert Events(sent[..p]) + late == [Got(op)] + (Events(came) + late);
      CutBehindOp(op, args, sum, came, rest);
    }
  }

  lemma CutBehindOp(op: byte, args: seq<byte>, sum: byte, came: seq<byte>, rest: seq<Event>)
    requires WellFormed(op, args) && |came| <= |args| && came == (args + [sum])[..|came|]
    ensures RequestAt([Got(op)] + (Events(came) + ([Timeout] + rest))) == (MalformedKnown, rest)
  {
    hide RequestAt, DataAt;
    var n, late := RequestHeaderLen(op).value, [Timeout] + rest;
    if |came| < n {
      ShortHeader(op, came, rest);
    } else {
      var header, more := args[..n], came[n..];
      assert came == header + more && more == (args[n..] + [sum])[..|more|];
      assert Events(came) + late == Events(header) + (Events(more) + late);
      HeaderRead(op, header, Events(more) + late);
      HeaderSaysLength(op, args);
      DataCut(op, header, args[n..], sum, more, rest);
    }
  }

  lemma ShortHeader(op: byte, came: seq<byte>, rest: seq<Event>)
    requires RequestHeaderLen(op).Some? && |came| < RequestHeaderLen(op).value
    ensures RequestAt([Got(op)] + (Events(came) + ([Timeout] + rest))) == (MalformedKnown, rest)
  {
    hide TakeBytes, RequestHeaderLen;
    var late := [Timeout] + rest;
    assert ([Got(op)] + (Events(came) + late))[1..] == Events(came) + late;
    TakeCut(came, RequestHeaderLen(op).value, rest);
  }

  lemma HeaderRead(op: byte, header: seq<byte>, tail: seq<Event>)
    requires RequestHeaderLen(op).Some? && |header| == RequestHeaderLen(op).value
    ensures op == OP_WRITE ==> |header| >= 10
    ensures RequestAt([Got(op)] + (Events(header) + tail)) == DataAt(op, header, tail)
  {
    hide TakeBytes, DataAt;
    assert ([Got(op)] + (Events(header) + tail))[1..] == Events(header) + tail;
    TakeThem(header, tail);
  }

  lemma HeaderSaysLength(op: byte, args: seq<byte>)
    requires WellFormed(op, args)
    ensures var n := RequestHeaderLen(op).value;
            && (op == OP_WRITE ==> n == 10)
            && |args[n..]| == (if op == OP_WRITE then RdU16(args[..n], 8) else 0) <= WRITE_MAX
  {
  }

  lemma DataCut(op: byte, header: seq<byte>, data: seq<byte>, sum: byte, more: seq<byte>, rest: seq<Event>)
    requires op == OP_WRITE ==> |header| == 10
    requires |data| == (if op == OP_WRITE then RdU16(header, 8) else 0) <= WRITE_MAX
    requires |more| <= |data| && more == (data + [sum])[..|more|]
    ensures DataAt(op, header, Events(more) + ([Timeout] + rest)) == (MalformedKnown, rest)
  {
    hide TakeBytes, XorAll;
    var late := [Timeout] + rest;
    if |more| < |data| {
      TakeCut(more, |data|, rest);
    } else {
      TakeThem(more, late);
      TakeCut([], 1, rest);
      assert Events([]) + late == late;
    }
  }
}
