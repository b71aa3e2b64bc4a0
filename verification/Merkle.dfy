/** The payload's Merkle mountain range (src/merkle.rs): a binary-counter fold bagged right to left, against
    the recursive tree of section 2.1 of RFC 6962 without its prefix bytes. */
module Merkle {
  import opened Bytes
  import opened Library

  function Leaf(lib: Library, block: seq<byte>): Hash4 {
    lib.Mh(4, block)
  }

  function Combine(lib: Library, left: Hash4, right: Hash4): Hash4 {
    lib.Mh(4, left + right)
  }

  /** The one place where hashes are combined, and how often that has happened. */
  class Combiner {
    const lib: Library
    ghost var calls: nat

    constructor (lib: Library)
      ensures this.lib == lib && calls == 0
    {
      this.lib := lib;
      calls := 0;
    }

    /** src/merkle.rs:18-23 */
    method Join(left: Hash4, right: Hash4) returns (h: Hash4)
      modifies this
      ensures h == Combine(lib, left, right) && calls == old(calls) + 1
    {
      var buf := Fill(8, 0);
      buf := left + buf[4..];
      buf := buf[..4] + right;
      assert buf == left + right;
      h := lib.Mh(4, buf);
      calls := calls + 1;
    }
  }

  function Pow2(k: nat): (p: nat)
    ensures p >= 1
  {
    if k == 0 then 1 else 2 * Pow2(k - 1)
  }

  /** The exponent of the largest power of two below n. */
  function SplitLevel(n: nat): (k: nat)
    requires n >= 2
    ensures Pow2(k) < n <= 2 * Pow2(k)
  {
    if n == 2 then 0 else 1 + SplitLevel((n + 1) / 2)
  }

  /** The tree: all leaves left of the largest power of two below n hang on the left. */
  function Tree(lib: Library, leaves: seq<Hash4>): Hash4
    requires leaves != []
    decreases |leaves|
  {
    if |leaves| == 1 then leaves[0] else
    var k := Pow2(SplitLevel(|leaves|));
    Combine(lib, Tree(lib, leaves[..k]), Tree(lib, leaves[k..]))
  }

  lemma {:induction false} SplitLevelUnique(n: nat, k: nat)
    requires n >= 2 && Pow2(k) < n <= 2 * Pow2(k)
    ensures SplitLevel(n) == k
  {
    if k > 0 {
      SplitLevelUnique((n + 1) / 2, k - 1);
    }
  }

  /** There are leaves for m blocks of 2^k. */
  predicate UnitsFit(leaves: seq<Hash4>, k: nat, m: nat) {
    m * Pow2(k) <= |leaves|
  }

  /** The leaves of the u-th block of 2^k leaves. */
  function Unit(leaves: seq<Hash4>, k: nat, u: nat): (s: seq<Hash4>)
    requires UnitsFit(leaves, k, u + 1)
    ensures |s| == Pow2(k)
  {
    assert u * Pow2(k) + Pow2(k) == (u + 1) * Pow2(k);
    leaves[u * Pow2(k)..u * Pow2(k) + Pow2(k)]
  }

  lemma TreeOfHalves(lib: Library, s: seq<Hash4>, p: nat, k: nat)
    requires p == Pow2(k) && p < |s| <= 2 * p
    ensures Tree(lib, s) == Combine(lib, Tree(lib, s[..p]), Tree(lib, s[p..]))
  {
    SplitLevelUnique(|s|, k);
  }

  /** Two neighbouring blocks, the first at an even place, make one block of the next level. */
  lemma UnitsPair(lib: Library, leaves: seq<Hash4>, k: nat, u: nat)
    requires UnitsFit(leaves, k, 2 * u + 2)
    ensures UnitsFit(leaves, k, 2 * u + 1) && UnitsFit(leaves, k + 1, u + 1)
    ensures Combine(lib, Tree(lib, Unit(leaves, k, 2 * u)), Tree(lib, Unit(leaves, k, 2 * u + 1))) ==
            Tree(lib, Unit(leaves, k + 1, u))
  {
    hide Tree, Combine;
    var p := Pow2(k);
    var a := u * Pow2(k + 1);
    BlockStarts(u, p);
    assert Pow2(k + 1) == 2 * p;
    var whole := leaves[a..a + 2 * p];
    assert Unit(leaves, k + 1, u) == whole;
    assert Unit(leaves, k, 2 * u) == leaves[a..a + p] == whole[..p];
    assert Unit(leaves, k, 2 * u + 1) == leaves[a + p..a + 2 * p] == whole[p..];
    TreeOfHalves(lib, whole, p, k);
  }

  lemma BlockStarts(u: nat, p: nat)
    ensures 2 * u * p == u * (2 * p) && (2 * u + 1) * p == u * (2 * p) + p && (2 * u + 2) * p == u * (2 * p) + 2 * p
    ensures (u + 1) * (2 * p) == u * (2 * p) + 2 * p
  {
  }

  type Peaks = seq<Option<Hash4>>

  /** The binary counter read from level k up: m blocks of 2^k leaves are folded in. A peak stands exactly
      where the counter has a one and is the root of the last, unpaired block of its level. */
  ghost predicate Counter(lib: Library, peaks: Peaks, k: nat, leaves: seq<Hash4>, m: nat)
    decreases |peaks| - k
  {
    if k >= |peaks| then m == 0
    else
      && (peaks[k].Some? <==> m % 2 == 1)
      && (peaks[k].Some? ==> UnitsFit(leaves, k, m) && peaks[k].value == Tree(lib, Unit(leaves, k, m - 1)))
      && Counter(lib, peaks, k + 1, leaves, m / 2)
  }

  lemma {:induction false} CounterFrame(lib: Library, peaks: Peaks, other: Peaks, k: nat, leaves: seq<Hash4>, m: nat)
    requires k <= |peaks| == |other| && peaks[k..] == other[k..] && Counter(lib, peaks, k, leaves, m)
    ensures Counter(lib, other, k, leaves, m)
    decreases |peaks| - k
  {
    hide Tree, Pow2;
    if k < |peaks| {
      assert peaks[k] == peaks[k..][0] == other[k..][0] == other[k];
      assert peaks[k + 1..] == peaks[k..][1..] && other[k + 1..] == other[k..][1..];
      CounterFrame(lib, peaks, other, k + 1, leaves, m / 2);
    }
  }

  /** Empty levels below level k are zeros of the count. */
  lemma {:induction false} ZerosBelow(lib: Library, peaks: Peaks, k: nat, leaves: seq<Hash4>, m: nat)
    requires k <= |peaks| && Counter(lib, peaks, k, leaves, m) && forall j :: 0 <= j < k ==> peaks[j].None?
    ensures Counter(lib, peaks, 0, leaves, m * Pow2(k))
  {
    hide Tree;
    if k > 0 {
      assert m * Pow2(k) == 2 * m * Pow2(k - 1);
      assert Counter(lib, peaks, k - 1, leaves, 2 * m);
      ZerosBelow(lib, peaks, k - 1, leaves, 2 * m);
    }
  }

  function Ones(peaks: Peaks): nat {
    if peaks == [] then 0 else (if peaks[0].Some? then 1 else 0) + Ones(peaks[1..])
  }

  lemma {:induction false} OnesUpdate(peaks: Peaks, k: nat, peak: Option<Hash4>)
    requires k < |peaks|
    ensures Ones(peaks[k := peak]) ==
            Ones(peaks) + (if peak.Some? then 1 else 0) - if peaks[k].Some? then 1 else 0
  {
    if k == 0 {
      assert peaks[0 := peak][1..] == peaks[1..];
    } else {
      assert peaks[k := peak][1..] == peaks[1..][k - 1 := peak];
      OnesUpdate(peaks[1..], k - 1, peak);
    }
  }

  lemma {:induction false} OnesAppend(peaks: Peaks, peak: Hash4)
    ensures Ones(peaks + [Some(peak)]) == Ones(peaks) + 1
  {
    if peaks != [] {
      assert (peaks + [Some(peak)])[1..] == peaks[1..] + [Some(peak)];
      OnesAppend(peaks[1..], peak);
    } else {
      assert (peaks + [Some(peak)])[1..] == [];
    }
  }

  /** Carrying out of a level with a peak moves the block in hand one level up. */
  lemma Carry(lib: Library, peaks: Peaks, leaves: seq<Hash4>, level: nat, m: nat)
    requires level < |peaks| && peaks[level].Some? && Counter(lib, peaks, level, leaves, m)
    requires UnitsFit(leaves, level, m + 1)
    ensures UnitsFit(leaves, level + 1, m / 2 + 1)
    ensures Counter(lib, peaks[level := None], level + 1, leaves, m / 2)
    ensures (m / 2 + 1) * Pow2(level + 1) == (m + 1) * Pow2(level)
    ensures Combine(lib, peaks[level].value, Tree(lib, Unit(leaves, level, m))) ==
            Tree(lib, Unit(leaves, level + 1, m / 2))
  {
    hide Tree, Combine;
    var u := m / 2;
    assert m == 2 * u + 1;
    UnitsPair(lib, leaves, level, u);
    BlockStarts(u, Pow2(level));
    CounterFrame(lib, peaks, peaks[level := None], level + 1, leaves, u);
  }

  /** The block in hand becomes the peak of the first free level. */
  lemma Settle(lib: Library, peaks: Peaks, other: Peaks, leaves: seq<Hash4>, level: nat, m: nat, cur: Hash4)
    requires level <= |peaks| && (level < |peaks| ==> peaks[level].None?) && Counter(lib, peaks, level, leaves, m)
    requires forall j :: 0 <= j < level ==> peaks[j].None?
    requires UnitsFit(leaves, level, m + 1) && cur == Tree(lib, Unit(leaves, level, m))
    requires other == if level == |peaks| then peaks + [Some(cur)] else peaks[level := Some(cur)]
    ensures Counter(lib, other, 0, leaves, (m + 1) * Pow2(level))
    ensures Ones(other) == Ones(peaks) + 1
  {
    hide Tree, Pow2, Unit;
    if level == |peaks| {
      OnesAppend(peaks, cur);
      assert Counter(lib, other, level + 1, leaves, 0);
      assert m == 0;
    } else {
      OnesUpdate(peaks, level, Some(cur));
      CounterFrame(lib, peaks, other, level + 1, leaves, m / 2);
      assert m % 2 == 0 && (m + 1) / 2 == m / 2;
    }
    PeakSet(lib, other, leaves, level, m, cur);
    ZerosBelow(lib, other, level, leaves, m + 1);
  }

  lemma PeakSet(lib: Library, peaks: Peaks, leaves: seq<Hash4>, level: nat, m: nat, cur: Hash4)
    requires level < |peaks| && m % 2 == 0 && Counter(lib, peaks, level + 1, leaves, m / 2)
    requires UnitsFit(leaves, level, m + 1) && cur == Tree(lib, Unit(leaves, level, m)) && peaks[level] == Some(cur)
    ensures Counter(lib, peaks, level, leaves, m + 1)
  {
    hide Tree, Pow2, Unit, DivCeil;
    assert (m + 1) / 2 == m / 2 && (m + 1) % 2 == 1;
  }

  /** src/merkle.rs:38-51: folds leaf number i into the peaks of the i leaves before it. */
  method Push(combiner: Combiner, peaks0: Peaks, ghost leaves: seq<Hash4>, ghost i: nat, leaf: Hash4)
    returns (peaks: Peaks)
    requires i < |leaves| && leaves[i] == leaf && Counter(combiner.lib, peaks0, 0, leaves, i)
    modifies combiner
    ensures Counter(combiner.lib, peaks, 0, leaves, i + 1)
    ensures combiner.calls + Ones(peaks) == old(combiner.calls) + Ones(peaks0) + 1
  {
    hide Tree, Combine, Counter, Pow2, UnitsFit;
    ghost var lib := combiner.lib;
    peaks := peaks0;
    var cur, level := leaf, 0;
    ghost var m: nat := i;
    SingleLeaf(lib, leaves, i);
    while level < |peaks| && peaks[level].Some?
      invariant level <= |peaks| && Counter(lib, peaks, level, leaves, m)
      invariant forall j :: 0 <= j < level ==> peaks[j].None?
      invariant (m + 1) * Pow2(level) == i + 1 && UnitsFit(leaves, level, m + 1) &&
                cur == Tree(lib, Unit(leaves, level, m))
      invariant combiner.calls + Ones(peaks) == old(combiner.calls) + Ones(peaks0)
    {
      Carry(lib, peaks, leaves, level, m);
      OnesUpdate(peaks, level, None);
      cur := combiner.Join(peaks[level].value, cur);
      peaks := peaks[level := None];
      level := level + 1;
      m := m / 2;
    }
    ghost var before := peaks;
    if level == |peaks| {
      peaks := peaks + [Some(cur)];
    } else {
      peaks := peaks[level := Some(cur)];
    }
    Settle(lib, before, peaks, leaves, level, m, cur);
  }

  lemma SingleLeaf(lib: Library, leaves: seq<Hash4>, i: nat)
    requires i < |leaves|
    ensures Pow2(0) == 1 && UnitsFit(leaves, 0, i + 1) && Tree(lib, Unit(leaves, 0, i)) == leaves[i]
  {
  }

  /** What bagging has gathered below level k: nothing, or the tree of the leaves behind the first m blocks. */
  ghost predicate Bagged(lib: Library, leaves: seq<Hash4>, k: nat, m: nat, acc: Option<Hash4>) {
    && m * Pow2(k) <= |leaves| < m * Pow2(k) + Pow2(k)
    && match acc {
         case None => m * Pow2(k) == |leaves|
         case Some(h) => m * Pow2(k) < |leaves| && h == Tree(lib, leaves[m * Pow2(k)..])
       }
  }

  lemma BagNothing(lib: Library, leaves: seq<Hash4>, k: nat, m: nat, acc: Option<Hash4>)
    requires Bagged(lib, leaves, k, m, acc) && m % 2 == 0
    ensures Bagged(lib, leaves, k + 1, m / 2, acc)
  {
    hide Tree;
    BlockStarts(m / 2, Pow2(k));
  }

  lemma BagPeak(lib: Library, leaves: seq<Hash4>, k: nat, u: nat, acc: Option<Hash4>, peak: Hash4)
    requires Bagged(lib, leaves, k, 2 * u + 1, acc) && UnitsFit(leaves, k, 2 * u + 1)
    requires peak == Tree(lib, Unit(leaves, k, 2 * u))
    ensures Bagged(lib, leaves, k + 1, u, Some(if acc.None? then peak else Combine(lib, peak, acc.value)))
  {
    hide Tree, Combine;
    var p := Pow2(k);
    BlockStarts(u, p);
    assert Pow2(k + 1) == 2 * p;
    var a := u * (2 * p);
    var s := leaves[a..];
    assert Unit(leaves, k, 2 * u) == leaves[a..a + p] == s[..p];
    if acc.None? {
      assert s == s[..p];
    } else {
      assert leaves[a + p..] == s[p..];
      TreeOfHalves(lib, s, p, k);
    }
  }

  lemma OnesFrom(peaks: Peaks, k: nat)
    requires k < |peaks|
    ensures Ones(peaks[k..]) == (if peaks[k].Some? then 1 else 0) + Ones(peaks[k + 1..])
  {
    assert peaks[k..][1..] == peaks[k + 1..];
  }

  /** src/merkle.rs:54-59: bags the peaks right to left. */
  method Bag(combiner: Combiner, peaks: Peaks, ghost leaves: seq<Hash4>) returns (root: Hash4)
    requires leaves != [] && Counter(combiner.lib, peaks, 0, leaves, |leaves|)
    modifies combiner
    ensures root == Tree(combiner.lib, leaves)
    ensures combiner.calls + 1 == old(combiner.calls) + Ones(peaks)
  {
    hide Tree, Combine, Bagged, Ones, Pow2;
    ghost var lib := combiner.lib;
    var acc: Option<Hash4> := None;
    ghost var m: nat := |leaves|;
    var k := 0;
    NothingBagged(lib, leaves);
    while k < |peaks|
      invariant k <= |peaks| && Counter(lib, peaks, k, leaves, m) && Bagged(lib, leaves, k, m, acc)
      invariant combiner.calls + (if acc.Some? then 1 else 0) + Ones(peaks[k..]) == old(combiner.calls) + Ones(peaks)
    {
      OnesFrom(peaks, k);
      if peaks[k].Some? {
        BagPeak(lib, leaves, k, m / 2, acc, peaks[k].value);
        if acc.None? {
          acc := peaks[k];
        } else {
          var joined := combiner.Join(peaks[k].value, acc.value);
          acc := Some(joined);
        }
      } else {
        BagNothing(lib, leaves, k, m, acc);
      }
      k := k + 1;
      m := m / 2;
    }
    AllBagged(lib, leaves, k, acc);
    assert peaks[k..] == [];
    assert Ones([]) == 0 by { NoOnes(); }
    root := acc.value;
  }

  lemma NoOnes()
    ensures Ones([]) == 0
  {
  }

  lemma NothingBagged(lib: Library, leaves: seq<Hash4>)
    ensures Bagged(lib, leaves, 0, |leaves|, None)
    ensures forall peaks: Peaks :: peaks[0..] == peaks
  {
  }

  lemma AllBagged(lib: Library, leaves: seq<Hash4>, k: nat, acc: Option<Hash4>)
    requires leaves != [] && Bagged(lib, leaves, k, 0, acc)
    ensures acc == Some(Tree(lib, leaves))
  {
    assert leaves[0..] == leaves;
  }

  /** src/merkle.rs:31-62. Hashes are combined exactly once less than there are leaves. */
  method Root(combiner: Combiner, leaves: seq<Hash4>) returns (root: Hash4)
    modifies combiner
    ensures root == if leaves == [] then Fill(4, 0) else Tree(combiner.lib, leaves)
    ensures combiner.calls == old(combiner.calls) + if leaves == [] then 0 else |leaves| - 1
  {
    hide Counter;
    if |leaves| == 0 {
      return Fill(4, 0);
    }
    if |leaves| == 1 {
      return leaves[0];
    }
    var peaks: Peaks := [];
    NoOnes();
    NoPeaks(combiner.lib, leaves);
    for i := 0 to |leaves|
      invariant Counter(combiner.lib, peaks, 0, leaves, i)
      invariant combiner.calls + Ones(peaks) == old(combiner.calls) + i
    {
      peaks := Push(combiner, peaks, leaves, i, leaves[i]);
    }
    root := Bag(combiner, peaks, leaves);
  }

  lemma NoPeaks(lib: Library, leaves: seq<Hash4>)
    ensures Counter(lib, [], 0, leaves, 0)
  {
  }

  /** After i leaves the peak of level k is there exactly when bit k of i is set, and it is the root of its
      own slice of 2^k leaves. */
  lemma {:induction false} PeaksAreBits(lib: Library, peaks: Peaks, leaves: seq<Hash4>, from: nat, m: nat, k: nat)
    requires from <= k < |peaks| && Counter(lib, peaks, from, leaves, m)
    ensures var c := m / Pow2(k - from);
            && (peaks[k].Some? <==> c % 2 == 1)
            && (peaks[k].Some? ==> UnitsFit(leaves, k, c) && peaks[k].value == Tree(lib, Unit(leaves, k, c - 1)))
    decreases k - from
  {
    hide Tree;
    if from < k {
      PeaksAreBits(lib, peaks, leaves, from + 1, m / 2, k);
      HalfThenDivide(m, Pow2(k - from - 1));
    }
  }

  lemma HalfThenDivide(m: nat, p: nat)
    requires p >= 1
    ensures m / 2 / p == m / (2 * p)
  {
    var q := m / 2 / p;
    var r := m / 2 - q * p;
    assert 0 <= r < p;
    assert m == q * (2 * p) + 2 * r + m % 2;
    DivideUnique(m, 2 * p, q, 2 * r + m % 2);
  }

  lemma DivideUnique(n: nat, d: nat, q: nat, r: nat)
    requires d > 0 && r < d && n == q * d + r
    ensures n / d == q
  {
    var k := n / d;
    if k < q { MulMono(k + 1, q, d); }
    if k > q { MulMono(q + 1, k, d); }
  }

  // ---- leaves ----

  /** `payload.chunks(blockSize).map(leaf)`: src/merkle.rs:26-28. */
  function LeafHashes(lib: Library, payload: seq<byte>, blockSize: nat): (leaves: seq<Hash4>)
    requires blockSize > 0
    decreases |payload|
  {
    if payload == [] then []
    else if |payload| <= blockSize then [Leaf(lib, payload)]
    else [Leaf(lib, payload[..blockSize])] + LeafHashes(lib, payload[blockSize..], blockSize)
  }

  /** There is one leaf for each started block. */
  lemma {:induction false} LeavesAreBlocks(lib: Library, payload: seq<byte>, blockSize: nat)
    requires blockSize > 0
    ensures |LeafHashes(lib, payload, blockSize)| == DivCeil(|payload|, blockSize)
    decreases |payload|
  {
    if |payload| > blockSize {
      LeavesAreBlocks(lib, payload[blockSize..], blockSize);
      var q := DivCeil(|payload| - blockSize, blockSize);
      assert (q + 1) * blockSize == q * blockSize + blockSize;
      DivideUnique(|payload| + blockSize - 1, blockSize, q + 1, |payload| + blockSize - 1 - (q + 1) * blockSize);
    } else if payload != [] {
      DivideUnique(|payload| + blockSize - 1, blockSize, 1, |payload| - 1);
    } else {
      DivideUnique(blockSize - 1, blockSize, 0, blockSize - 1);
    }
  }

  /** Leaf j is the hash of block j, the last of which may be short. */
  lemma {:induction false} LeafOfBlock(lib: Library, payload: seq<byte>, blockSize: nat, j: nat)
    requires blockSize > 0 && j * blockSize < |payload|
    ensures j < |LeafHashes(lib, payload, blockSize)|
    ensures LeafHashes(lib, payload, blockSize)[j] ==
            Leaf(lib, payload[j * blockSize..Min((j + 1) * blockSize, |payload|)])
    decreases j
  {
    hide Leaf, DivCeil;
    if j == 0 {
      if |payload| <= blockSize {
        assert payload[..|payload|] == payload;
      }
    } else {
      MulMono(1, j, blockSize);
      BlockBefore(j, blockSize);
      var rest := payload[blockSize..];
      LeafOfBlock(lib, rest, blockSize, j - 1);
      SliceOfDrop(payload, blockSize, (j - 1) * blockSize, Min(j * blockSize, |rest|));
    }
  }

  lemma BlockBefore(j: nat, d: nat)
    requires j > 0
    ensures (j - 1) * d == j * d - d && (j + 1) * d == j * d + d
  {
  }

  // ---- small trees, written out ----

  lemma LeafIsHash(lib: Library, block: seq<byte>)
    ensures Leaf(lib, block) == lib.sha256(block)[..4]
  {
  }

  /** The root of two leaves is the hash of left before right; a third leaf joins on the right. */
  lemma SmallTrees(lib: Library, a: Hash4, b: Hash4, c: Hash4)
    ensures Tree(lib, [a]) == a
    ensures Tree(lib, [a, b]) == lib.sha256(a + b)[..4]
    ensures Tree(lib, [a, b, c]) == lib.sha256(lib.sha256(a + b)[..4] + c)[..4]
  {
    assert Pow2(0) == 1 && Pow2(1) == 2;
    TreeOfHalves(lib, [a, b], 1, 0);
    assert [a, b][..1] == [a] && [a, b][1..] == [b];
    TreeOfHalves(lib, [a, b, c], 2, 1);
    assert [a, b, c][..2] == [a, b] && [a, b, c][2..] == [c];
  }

  /** The tree of more leaves joins the trees on both sides of the largest power of two below their number. */
  lemma TreesJoin(lib: Library, leaves: seq<Hash4>, k: nat)
    requires Pow2(k) < |leaves| <= 2 * Pow2(k)
    ensures Tree(lib, leaves) ==
            lib.sha256(Tree(lib, leaves[..Pow2(k)]) + Tree(lib, leaves[Pow2(k)..]))[..4]
  {
    TreeOfHalves(lib, leaves, Pow2(k), k);
    hide Tree;
  }
}
