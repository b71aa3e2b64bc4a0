/** The bootloader image checksum (src/bootloader.rs:925-935). */
module Crc {

  /** One bit of the loop: the polynomial is masked in by the wrapped negation of the low bit. */
  function Step(c: bv32): bv32 {
    (c >> 1) ^ (0xEDB8_8320 & (0 - (c & 1)))
  }

  function Steps(c: bv32, n: nat): bv32 {
    if n == 0 then c else Step(Steps(c, n - 1))
  }

  function Bits8(c: bv32): bv32 {
    Step(Step(Step(Step(Step(Step(Step(Step(c))))))))
  }

  function Xor(a: bv32, b: bv32): bv32 { a ^ b }

  function Word(b: bv8): bv32 { b as bv32 }

  function ByteStep(c: bv32, b: bv8): bv32 {
    Bits8(Xor(c, Word(b)))
  }

  /** The register after s, when it held c before. */
  function Run(c: bv32, s: seq<bv8>): bv32 {
    if s == [] then c else ByteStep(Run(c, s[..|s| - 1]), s[|s| - 1])
  }

  /** s with the bytes at lo..hi read as zero. */
  function Zeroed(s: seq<bv8>, lo: nat, hi: nat): (z: seq<bv8>)
    ensures |z| == |s|
    ensures forall i :: 0 <= i < |s| ==> z[i] == if lo <= i < hi then 0 else s[i]
  {
    seq(|s|, i requires 0 <= i < |s| => if lo <= i < hi then 0 else s[i])
  }

  function Complement(c: bv32): bv32 { !c }

  function Checksum(s: seq<bv8>): bv32 {
    Complement(Run(0xFFFF_FFFF, s))
  }

  /** src/bootloader.rs:925-935 */
  method Crc32WithZeroed(bytes: seq<bv8>, lo: nat, hi: nat) returns (crc: bv32)
    ensures crc == Checksum(Zeroed(bytes, lo, hi))
  {
    hide Step, Bits8, Xor, Word, ByteStep;
    ghost var z := Zeroed(bytes, lo, hi);
    crc := 0xFFFF_FFFF;
    for i := 0 to |bytes|
      invariant crc == Run(0xFFFF_FFFF, z[..i])
    {
      var b := if lo <= i < hi then 0 else bytes[i];
      crc := UpdateByte(crc, b);
      assert z[..i + 1][..i] == z[..i];
    }
    assert z[..|bytes|] == z;
    crc := !crc;
  }

  /** The body of the byte loop. */
  method UpdateByte(crc0: bv32, b: bv8) returns (crc: bv32)
    ensures crc == ByteStep(crc0, b)
  {
    crc := crc0 ^ (b as bv32);
    ghost var start := Xor(crc0, Word(b));
    assert crc == start;
    hide Step, Xor, Word;
    for n := 0 to 8
      invariant crc == Steps(start, n)
    {
      crc := OneStep(crc);
    }
    EightSteps(start);
  }

  method OneStep(crc0: bv32) returns (crc: bv32)
    ensures crc == Step(crc0)
  {
    crc := (crc0 >> 1) ^ (0xEDB8_8320 & (0 - (crc0 & 1)));
  }

  lemma EightSteps(c: bv32)
    ensures Steps(c, 8) == Bits8(c)
  {
    hide Step;
    assert Steps(c, 1) == Step(c);
    assert Steps(c, 3) == Step(Step(Step(c)));
    assert Steps(c, 5) == Step(Step(Steps(c, 3)));
    assert Steps(c, 7) == Step(Step(Steps(c, 5)));
  }

  // ---- the step is linear and loses nothing ----

  lemma StepCases(c: bv32)
    ensures c & 1 == 0 ==> Step(c) == c >> 1
    ensures c & 1 != 0 ==> Step(c) == (c >> 1) ^ 0xEDB8_8320
  {
    assert c & 1 == 0 || c & 1 == 1;
  }

  lemma StepLinear(a: bv32, b: bv32)
    ensures Step(Xor(a, b)) == Xor(Step(a), Step(b))
  {
    hide Step;
    StepCases(a);
    StepCases(b);
    StepCases(a ^ b);
    assert (a ^ b) >> 1 == (a >> 1) ^ (b >> 1);
  }

  lemma StepInjective(a: bv32, b: bv32)
    requires Step(a) == Step(b)
    ensures a == b
  {
  }

  lemma Bits8Linear(a: bv32, b: bv32)
    ensures Bits8(Xor(a, b)) == Xor(Bits8(a), Bits8(b))
  {
    hide Step, Xor;
    var a1, b1 := Step(a), Step(b);
    var a2, b2 := Step(a1), Step(b1);
    var a3, b3 := Step(a2), Step(b2);
    var a4, b4 := Step(a3), Step(b3);
    var a5, b5 := Step(a4), Step(b4);
    var a6, b6 := Step(a5), Step(b5);
    var a7, b7 := Step(a6), Step(b6);
    StepLinear(a, b);
    StepLinear(a1, b1);
    StepLinear(a2, b2);
    StepLinear(a3, b3);
    StepLinear(a4, b4);
    StepLinear(a5, b5);
    StepLinear(a6, b6);
    StepLinear(a7, b7);
  }

  lemma Bits8Injective(a: bv32, b: bv32)
    requires Bits8(a) == Bits8(b)
    ensures a == b
  {
    hide Step;
    var a1, b1 := Step(a), Step(b);
    var a2, b2 := Step(a1), Step(b1);
    var a3, b3 := Step(a2), Step(b2);
    var a4, b4 := Step(a3), Step(b3);
    var a5, b5 := Step(a4), Step(b4);
    var a6, b6 := Step(a5), Step(b5);
    var a7, b7 := Step(a6), Step(b6);
    StepInjective(a7, b7);
    StepInjective(a6, b6);
    StepInjective(a5, b5);
    StepInjective(a4, b4);
    StepInjective(a3, b3);
    StepInjective(a2, b2);
    StepInjective(a1, b1);
    StepInjective(a, b);
  }

  lemma StepLowers(hi: bv32, lo: bv32)
    requires hi == lo << 1 && lo & 0x8000_0000 == 0
    ensures Step(hi) == lo
  {
    assert hi & 1 == 0;
    StepCases(hi);
  }

  /** Twice a 31-bit value steps down to that value, and stays clear where the mask moves to. */
  lemma Lower(y: bv32, mask: bv32) returns (up: bv32)
    requires y & mask == 0 && mask & 0x8000_0000 != 0
    ensures up == y << 1 && Step(up) == y && up & (mask << 1) == 0
  {
    hide Step;
    up := y << 1;
    TopBitClear(y, mask);
    StepLowers(up, y);
    MaskMoves(y, mask);
  }

  lemma TopBitClear(y: bv32, mask: bv32)
    requires y & mask == 0 && mask & 0x8000_0000 != 0
    ensures y & 0x8000_0000 == 0
  {
  }

  lemma MaskMoves(y: bv32, mask: bv32)
    requires y & mask == 0
    ensures (y << 1) & (mask << 1) == 0
  {
  }

  lemma ShiftTwice(y: bv32)
    ensures ((((((((y << 1) << 1) << 1) << 1) << 1) << 1) << 1) << 1) == y << 8
  {
  }

  /** Eight steps bring a value raised by one byte down again. */
  lemma Bits8Lowers(y: bv32)
    requires y & 0xFF00_0000 == 0
    ensures Bits8(y << 8) == y
  {
    hide Step;
    var y1 := Lower(y, 0xFF00_0000);
    var y2 := Lower(y1, 0xFE00_0000);
    var y3 := Lower(y2, 0xFC00_0000);
    var y4 := Lower(y3, 0xF800_0000);
    var y5 := Lower(y4, 0xF000_0000);
    var y6 := Lower(y5, 0xE000_0000);
    var y7 := Lower(y6, 0xC000_0000);
    var y8 := Lower(y7, 0x8000_0000);
    ShiftTwice(y);
  }

  // ---- four bytes act as one word ----

  /** Four bytes, the first lowest, xor-ed into c. */
  function Mixed(c: bv32, b0: bv8, b1: bv8, b2: bv8, b3: bv8): bv32 {
    Xor(Xor(Xor(Xor(c, Word(b0)), Word(b1) << 8), Word(b2) << 16), Word(b3) << 24)
  }

  lemma WordFacts(b: bv8)
    ensures Word(b) & 0xFF00_0000 == 0 && (Word(b) << 8) & 0xFF00_0000 == 0 && (Word(b) << 16) & 0xFF00_0000 == 0
    ensures (Word(b) << 8) << 8 == Word(b) << 16 && (Word(b) << 16) << 8 == Word(b) << 24
  {
  }

  /** A raised byte comes down by eight bits with every eight steps. */
  lemma RaisedByte(b: bv8)
    ensures Bits8(Word(b) << 8) == Word(b)
    ensures Bits8(Word(b) << 16) == Word(b) << 8
    ensures Bits8(Word(b) << 24) == Word(b) << 16
  {
    WordFacts(b);
    Bits8Lowers(Word(b));
    Bits8Lowers(Word(b) << 8);
    Bits8Lowers(Word(b) << 16);
  }

  lemma FourBytes(c: bv32, b0: bv8, b1: bv8, b2: bv8, b3: bv8)
    ensures ByteStep(ByteStep(ByteStep(ByteStep(c, b0), b1), b2), b3) ==
            Bits8(Bits8(Bits8(Bits8(Mixed(c, b0, b1, b2, b3)))))
  {
    RaisedByte(b1);
    RaisedByte(b2);
    RaisedByte(b3);
    LowerThree(Xor(c, Word(b0)), Word(b1) << 8, Word(b2) << 16, Word(b3) << 24,
               Word(b1), Word(b2) << 8, Word(b3) << 16, Word(b2), Word(b3) << 8, Word(b3));
  }

  /** The same with the raised bytes as plain values: pure linearity. */
  lemma LowerThree(m: bv32, p1: bv32, p2: bv32, p3: bv32, q1: bv32, q2: bv32, q3: bv32, r2: bv32, r3: bv32, t3: bv32)
    requires Bits8(p1) == q1 && Bits8(p2) == q2 && Bits8(p3) == q3
    requires Bits8(q2) == r2 && Bits8(q3) == r3 && Bits8(r3) == t3
    ensures Bits8(Xor(Bits8(Xor(Bits8(Xor(Bits8(m), q1)), r2)), t3)) ==
            Bits8(Bits8(Bits8(Bits8(Xor(Xor(Xor(m, p1), p2), p3)))))
  {
    hide Step, Xor, Bits8;
    var m1 := Xor(m, p1);
    var m2 := Xor(m1, p2);
    Bits8Linear(m, p1);
    Bits8Linear(m1, p2);
    Bits8Linear(m2, p3);
    Bits8Linear(Bits8(m1), q2);
    Bits8Linear(Bits8(m2), q3);
    Bits8Linear(Bits8(Bits8(m2)), r3);
  }

  /** Four bytes packed into one word, the first lowest. */
  function Pack(b0: bv8, b1: bv8, b2: bv8, b3: bv8): bv32 {
    Xor(Xor(Xor(Word(b0), Word(b1) << 8), Word(b2) << 16), Word(b3) << 24)
  }

  lemma XorMoves(a: bv32, b: bv32, c: bv32)
    ensures Xor(Xor(a, b), c) == Xor(Xor(a, c), b) && Xor(a, b) == Xor(b, a)
  {
  }

  lemma MixedIsPacked(c: bv32, b0: bv8, b1: bv8, b2: bv8, b3: bv8)
    ensures Mixed(c, b0, b1, b2, b3) == Xor(Pack(b0, b1, b2, b3), c)
  {
    hide Xor, Word;
    var w0, w1, w2, w3 := Word(b0), Word(b1) << 8, Word(b2) << 16, Word(b3) << 24;
    XorMoves(c, w0, w0);
    XorMoves(w0, c, w1);
    XorMoves(Xor(w0, w1), c, w2);
    XorMoves(Xor(Xor(w0, w1), w2), c, w3);
  }

  lemma PackUnpacks(b0: bv8, b1: bv8, b2: bv8, b3: bv8)
    ensures Pack(b0, b1, b2, b3) & 0xFF == Word(b0)
    ensures (Pack(b0, b1, b2, b3) >> 8) & 0xFF == Word(b1)
    ensures (Pack(b0, b1, b2, b3) >> 16) & 0xFF == Word(b2)
    ensures Pack(b0, b1, b2, b3) >> 24 == Word(b3)
  {
  }

  lemma WordInjective(b: bv8, d: bv8)
    requires Word(b) == Word(d)
    ensures b == d
  {
  }

  lemma MixedInjective(c: bv32, b0: bv8, b1: bv8, b2: bv8, b3: bv8, d0: bv8, d1: bv8, d2: bv8, d3: bv8)
    requires Mixed(c, b0, b1, b2, b3) == Mixed(c, d0, d1, d2, d3)
    ensures b0 == d0 && b1 == d1 && b2 == d2 && b3 == d3
  {
    hide Mixed, Pack, Xor, Word;
    MixedIsPacked(c, b0, b1, b2, b3);
    MixedIsPacked(c, d0, d1, d2, d3);
    XorCancels(Pack(b0, b1, b2, b3), Pack(d0, d1, d2, d3), c);
    PackUnpacks(b0, b1, b2, b3);
    PackUnpacks(d0, d1, d2, d3);
    WordInjective(b0, d0);
    WordInjective(b1, d1);
    WordInjective(b2, d2);
    WordInjective(b3, d3);
  }

  lemma {:induction false} RunAppend(c: bv32, a: seq<bv8>, b: seq<bv8>)
    ensures Run(c, a + b) == Run(Run(c, a), b)
    decreases |b|
  {
    hide ByteStep;
    if b == [] {
      assert a + b == a;
    } else {
      var n := |b| - 1;
      assert (a + b)[..|a + b| - 1] == a + b[..n];
      RunAppend(c, a, b[..n]);
    }
  }

  lemma {:induction false} RunInjective(c: bv32, d: bv32, s: seq<bv8>)
    requires Run(c, s) == Run(d, s)
    ensures c == d
    decreases |s|
  {
    hide Step, Bits8, Xor, Word;
    if s != [] {
      var n := |s| - 1;
      var x, y := Run(c, s[..n]), Run(d, s[..n]);
      Bits8Injective(Xor(x, Word(s[n])), Xor(y, Word(s[n])));
      XorCancels(x, y, Word(s[n]));
      RunInjective(c, d, s[..n]);
    }
  }

  lemma XorCancels(a: bv32, b: bv32, w: bv32)
    requires Xor(a, w) == Xor(b, w)
    ensures a == b
  {
  }

  lemma FourBytesDiffer(c: bv32, s: seq<bv8>, t: seq<bv8>)
    requires |s| == |t| == 4 && s != t
    ensures Run(c, s) != Run(c, t)
  {
    if Run(c, s) == Run(c, t) {
      RunOfFour(c, s);
      RunOfFour(c, t);
      FourBytes(c, s[0], s[1], s[2], s[3]);
      FourBytes(c, t[0], t[1], t[2], t[3]);
      var x, y := Mixed(c, s[0], s[1], s[2], s[3]), Mixed(c, t[0], t[1], t[2], t[3]);
      hide Mixed, Bits8, ByteStep, Run;
      Bits8Injective(Bits8(Bits8(Bits8(x))), Bits8(Bits8(Bits8(y))));
      Bits8Injective(Bits8(Bits8(x)), Bits8(Bits8(y)));
      Bits8Injective(Bits8(x), Bits8(y));
      Bits8Injective(x, y);
      MixedInjective(c, s[0], s[1], s[2], s[3], t[0], t[1], t[2], t[3]);
    }
  }

  lemma RunOfFour(c: bv32, s: seq<bv8>)
    requires |s| == 4
    ensures Run(c, s) == ByteStep(ByteStep(ByteStep(ByteStep(c, s[0]), s[1]), s[2]), s[3])
  {
    hide ByteStep;
    assert Run(c, s[..1]) == ByteStep(c, s[0]) by { assert s[..1][..0] == []; }
    assert Run(c, s[..2]) == ByteStep(Run(c, s[..1]), s[1]) by { assert s[..2][..1] == s[..1]; }
    assert Run(c, s[..3]) == ByteStep(Run(c, s[..2]), s[2]) by { assert s[..3][..2] == s[..2]; }
  }

  // ---- burst detection ----

  /** Outside p..p+4 the two byte strings are the same. */
  ghost predicate DifferWithin(s: seq<bv8>, t: seq<bv8>, p: nat) {
    |s| == |t| && forall i :: 0 <= i < |s| && !(p <= i < p + 4) ==> s[i] == t[i]
  }

  lemma BurstChangesRegister(c: bv32, s: seq<bv8>, t: seq<bv8>, p: nat)
    requires DifferWithin(s, t, p) && p + 4 <= |s| && s != t
    ensures Run(c, s) != Run(c, t)
  {
    hide ByteStep, Run;
    var head, s4, t4, tail := s[..p], s[p..p + 4], t[p..p + 4], s[p + 4..];
    assert t[..p] == head && t[p + 4..] == tail;
    assert s == head + s4 + tail && t == head + t4 + tail;
    RunAppend(c, head + s4, tail);
    RunAppend(c, head + t4, tail);
    RunAppend(c, head, s4);
    RunAppend(c, head, t4);
    FourBytesDiffer(Run(c, head), s4, t4);
    if Run(c, s) == Run(c, t) {
      RunInjective(Run(c, head + s4), Run(c, head + t4), tail);
    }
  }

  /** Two byte strings that differ only within four consecutive positions have the same checksum exactly when
      they agree everywhere outside the zeroed field. */
  lemma BurstDetected(s: seq<bv8>, t: seq<bv8>, p: nat, lo: nat, hi: nat)
    requires DifferWithin(s, t, p)
    ensures Checksum(Zeroed(s, lo, hi)) == Checksum(Zeroed(t, lo, hi)) <==>
            forall i :: 0 <= i < |s| && !(lo <= i < hi) ==> s[i] == t[i]
  {
    hide ByteStep, Run;
    var a, b := Zeroed(s, lo, hi), Zeroed(t, lo, hi);
    if a != b {
      if |a| < 4 {
        var pad := seq(4 - |a|, _ => 0 as bv8);
        assert (a + pad)[..|a|] == a && (b + pad)[..|b|] == b;
        BurstChangesRegister(0xFFFF_FFFF, a + pad, b + pad, 0);
        RunAppend(0xFFFF_FFFF, a, pad);
        RunAppend(0xFFFF_FFFF, b, pad);
      } else {
        var start := if p + 4 <= |a| then p else |a| - 4;
        BurstChangesRegister(0xFFFF_FFFF, a, b, start);
      }
      ComplementCancels(Run(0xFFFF_FFFF, a), Run(0xFFFF_FFFF, b));
    }
  }

  lemma ComplementCancels(a: bv32, b: bv32)
    requires a != b
    ensures Complement(a) != Complement(b)
  {
    hide Complement, Xor;
    ComplementIsXor(a);
    ComplementIsXor(b);
    if Complement(a) == Complement(b) {
      XorCancels(a, b, 0xFFFF_FFFF);
    }
  }

  // ---- section 8 of RFC 1952 ----

  /** `make_crc_table`: one entry, by eight conditional steps. */
  function TableStep(c: bv32): bv32 {
    if c & 1 != 0 then 0xEDB8_8320 ^ (c >> 1) else c >> 1
  }

  function TableEntry(n: bv32): bv32 {
    TableStep(TableStep(TableStep(TableStep(TableStep(TableStep(TableStep(TableStep(n))))))))
  }

  function TableByteStep(r: bv32, b: bv8): bv32 {
    Xor(TableEntry((r ^ (b as bv32)) & 0xFF), r >> 8)
  }

  /** `update_crc`: the register after s, by table lookups. */
  function TableRun(c: bv32, s: seq<bv8>): bv32 {
    if s == [] then c else TableByteStep(TableRun(c, s[..|s| - 1]), s[|s| - 1])
  }

  lemma TableStepIsStep(c: bv32)
    ensures TableStep(c) == Step(c)
  {
    hide Step;
    StepCases(c);
    XorSwaps(0xEDB8_8320, c >> 1);
  }

  lemma XorSwaps(a: bv32, b: bv32)
    ensures a ^ b == b ^ a
  {
  }

  lemma TableEntryIsBits8(n: bv32)
    ensures TableEntry(n) == Bits8(n)
  {
    hide Step, TableStep;
    var n1 := Step(n);
    var n2 := Step(n1);
    var n3 := Step(n2);
    var n4 := Step(n3);
    var n5 := Step(n4);
    var n6 := Step(n5);
    var n7 := Step(n6);
    TableStepIsStep(n);
    TableStepIsStep(n1);
    TableStepIsStep(n2);
    TableStepIsStep(n3);
    TableStepIsStep(n4);
    TableStepIsStep(n5);
    TableStepIsStep(n6);
    TableStepIsStep(n7);
  }

  lemma SplitLowByte(c: bv32, b: bv8)
    ensures Xor(c, Word(b)) == Xor((c ^ (b as bv32)) & 0xFF, (c >> 8) << 8)
    ensures (c >> 8) & 0xFF00_0000 == 0
  {
  }

  lemma TableByte(c: bv32, b: bv8)
    ensures ByteStep(c, b) == TableByteStep(c, b)
  {
    hide Xor, Word, Bits8, TableEntry;
    var low := (c ^ (b as bv32)) & 0xFF;
    var high := c >> 8;
    SplitLowByte(c, b);
    Bits8Linear(low, high << 8);
    Bits8Lowers(high);
    TableEntryIsBits8(low);
  }

  /** The bitwise loop computes the CRC that RFC 1952 defines by table. */
  lemma {:induction false} RegisterIsTableDriven(c: bv32, s: seq<bv8>)
    ensures Run(c, s) == TableRun(c, s)
    decreases |s|
  {
    hide ByteStep, TableByteStep;
    if s != [] {
      RegisterIsTableDriven(c, s[..|s| - 1]);
      TableByte(TableRun(c, s[..|s| - 1]), s[|s| - 1]);
    }
  }

  /** `crc`: the register starts and ends complemented. */
  lemma ChecksumIsRfc1952(s: seq<bv8>)
    ensures Checksum(s) == Xor(TableRun(0xFFFF_FFFF, s), 0xFFFF_FFFF)
  {
    hide Run, TableRun, Complement, Xor;
    RegisterIsTableDriven(0xFFFF_FFFF, s);
    ComplementIsXor(TableRun(0xFFFF_FFFF, s));
  }

  lemma ComplementIsXor(c: bv32)
    ensures Complement(c) == Xor(c, 0xFFFF_FFFF)
  {
  }
}
