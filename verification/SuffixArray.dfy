/** The prefix-doubling suffix array (src/encode.rs:283-324). */
module SuffixArray {
  import opened Bytes

  // ---- lexicographic order ----

  /** a comes strictly before b in the dictionary. */
  ghost predicate LexLess(a: seq<byte>, b: seq<byte>) {
    exists k :: 0 <= k <= |a| && k <= |b| && a[..k] == b[..k] &&
                (k == |a| < |b| || (k < |a| && k < |b| && a[k] < b[k]))
  }

  function Sign(x: int): int { if x < 0 then -1 else if x > 0 then 1 else 0 }

  /** Compares the suffixes at i and j by their first h bytes; a suffix that ends first is smaller. */
  function Compare(s: seq<byte>, i: nat, j: nat, h: nat): (c: int)
    ensures -1 <= c <= 1
    decreases h
  {
    if h == 0 || (i >= |s| && j >= |s|) then 0
    else if i >= |s| then -1
    else if j >= |s| then 1
    else if s[i] != s[j] then (if s[i] < s[j] then -1 else 1)
    else Compare(s, i + 1, j + 1, h - 1)
  }

  /** Comparing h + g bytes is comparing h bytes and, on a tie, the g bytes behind them. */
  lemma {:induction false} CompareSplit(s: seq<byte>, i: nat, j: nat, h: nat, g: nat)
    ensures Compare(s, i, j, h + g) ==
            if Compare(s, i, j, h) != 0 then Compare(s, i, j, h) else Compare(s, i + h, j + h, g)
    decreases h
  {
    if h > 0 && i < |s| && j < |s| && s[i] == s[j] {
      CompareSplit(s, i + 1, j + 1, h - 1, g);
    }
  }

  /** With enough bytes, two different suffixes always differ. */
  lemma {:induction false} CompareTotal(s: seq<byte>, i: nat, j: nat, h: nat)
    requires i <= |s| && j <= |s| && h + Max(i, j) > |s| && Compare(s, i, j, h) == 0
    ensures i == j
    decreases h
  {
    if i < |s| && j < |s| {
      CompareTotal(s, i + 1, j + 1, h - 1);
    }
  }

  /** A negative comparison is the dictionary order of the two suffixes. */
  lemma {:induction false} CompareIsLex(s: seq<byte>, i: nat, j: nat, h: nat)
    requires i <= |s| && j <= |s| && Compare(s, i, j, h) < 0
    ensures LexLess(s[i..], s[j..])
    decreases h
  {
    hide LexLess;
    var a, b := s[i..], s[j..];
    if i == |s| || s[i] != s[j] {
      LexAtOnce(a, b);
    } else {
      CompareIsLex(s, i + 1, j + 1, h - 1);
      assert a == [s[i]] + s[i + 1..] && b == [s[i]] + s[j + 1..];
      LexBehind(s[i], s[i + 1..], s[j + 1..]);
    }
  }

  lemma LexAtOnce(a: seq<byte>, b: seq<byte>)
    requires b != [] && (a != [] ==> a[0] < b[0])
    ensures LexLess(a, b)
  {
    assert a[..0] == b[..0];
  }

  /** The same byte in front keeps dictionary order. */
  lemma LexBehind(c: byte, a: seq<byte>, b: seq<byte>)
    requires LexLess(a, b)
    ensures LexLess([c] + a, [c] + b)
  {
    var k :| 0 <= k <= |a| && k <= |b| && a[..k] == b[..k] &&
             (k == |a| < |b| || (k < |a| && k < |b| && a[k] < b[k]));
    assert ([c] + a)[..k + 1] == [c] + a[..k] && ([c] + b)[..k + 1] == [c] + b[..k];
  }

  // ---- permutations of positions ----

  ghost predicate Distinct(a: seq<nat>) {
    forall x, y :: 0 <= x < y < |a| ==> a[x] != a[y]
  }

  /** a lists every position 0..n exactly once. */
  ghost predicate Positions(a: seq<nat>, n: nat) {
    && |a| == n
    && Distinct(a)
    && (forall x :: 0 <= x < n ==> a[x] < n)
    && (forall p :: 0 <= p < n ==> p in a)
  }

  // ---- the library sort ----

  /** A position with its two-level sort key. */
  datatype Keyed = Keyed(position: nat, high: int, low: int)

  predicate KeyLess(a: Keyed, b: Keyed) {
    a.high < b.high || (a.high == b.high && a.low < b.low)
  }

  ghost predicate SortedByKey(a: seq<Keyed>) {
    forall x, y :: 0 <= x < y < |a| ==> !KeyLess(a[y], a[x])
  }

  function Insert(a: seq<Keyed>, k: Keyed): (r: seq<Keyed>)
    ensures multiset(r) == multiset(a) + multiset{k}
  {
    if a == [] then [k]
    else
      var init, last := a[..|a| - 1], a[|a| - 1];
      assert a == init + [last];
      if KeyLess(k, last) then Insert(init, k) + [last] else a + [k]
  }

  /** `sort_by_key`: stable, by the key. */
  function SortByKey(a: seq<Keyed>): (r: seq<Keyed>)
    ensures multiset(r) == multiset(a)
  {
    if a == [] then []
    else
      var init, last := a[..|a| - 1], a[|a| - 1];
      assert a == init + [last];
      Insert(SortByKey(init), last)
  }

  lemma {:induction false} InsertSorts(a: seq<Keyed>, k: Keyed)
    requires SortedByKey(a)
    ensures SortedByKey(Insert(a, k))
    decreases |a|
  {
    if a != [] {
      var init, last := a[..|a| - 1], a[|a| - 1];
      if KeyLess(k, last) {
        InsertSorts(init, k);
        var r := Insert(init, k);
        forall x | 0 <= x < |r| ensures !KeyLess(last, r[x]) {
          assert r[x] in multiset(r);
          assert r[x] == k || r[x] in multiset(init);
          if r[x] != k { assert r[x] in init; }
        }
      }
    }
  }

  lemma {:induction false} SortByKeySorts(a: seq<Keyed>)
    ensures SortedByKey(SortByKey(a))
    decreases |a|
  {
    if a != [] {
      SortByKeySorts(a[..|a| - 1]);
      InsertSorts(SortByKey(a[..|a| - 1]), a[|a| - 1]);
    }
  }

  // ---- ranks ----

  lemma {:induction false} CompareSwap(s: seq<byte>, i: nat, j: nat, h: nat)
    ensures Compare(s, j, i, h) == -Compare(s, i, j, h)
    decreases h
  {
    if h > 0 && i < |s| && j < |s| {
      CompareSwap(s, i + 1, j + 1, h - 1);
    }
  }

  /** The ranks order all suffixes by their first h bytes. */
  ghost predicate Ranked(s: seq<byte>, rank: seq<int>, h: nat) {
    && |rank| == |s|
    && (forall i :: 0 <= i < |s| ==> rank[i] >= 0)
    && (forall i, j :: 0 <= i < |s| && 0 <= j < |s| ==> Sign(rank[i] - rank[j]) == Compare(s, i, j, h))
  }

  /** The sa lists suffixes in the order of their first h bytes. */
  ghost predicate OrderedBy(s: seq<byte>, sa: seq<nat>, h: nat) {
    forall x, y :: 0 <= x < y < |sa| ==> Compare(s, sa[x], sa[y], h) <= 0
  }

  /** The two-level key of position i in the round that doubles k. */
  function KeyOf(rank: seq<int>, i: nat, k: nat): Keyed
    requires i < |rank|
  {
    Keyed(i, rank[i], if i + k < |rank| then rank[i + k] else -1)
  }

  /** Keys made of two ranks order suffixes by twice as many bytes. */
  lemma KeyOrder(s: seq<byte>, rank: seq<int>, i: nat, j: nat, k: nat)
    requires Ranked(s, rank, k) && k >= 1 && i < |s| && j < |s|
    ensures KeyLess(KeyOf(rank, i, k), KeyOf(rank, j, k)) <==> Compare(s, i, j, 2 * k) < 0
    ensures (KeyOf(rank, i, k).high == KeyOf(rank, j, k).high && KeyOf(rank, i, k).low == KeyOf(rank, j, k).low)
            <==> Compare(s, i, j, 2 * k) == 0
  {
    CompareSplit(s, i, j, k, k);
    assert Sign(rank[i] - rank[j]) == Compare(s, i, j, k);
    if i + k < |s| && j + k < |s| {
      assert Sign(rank[i + k] - rank[j + k]) == Compare(s, i + k, j + k, k);
    }
  }

  function Keys(rank: seq<int>, sa: seq<nat>, k: nat): (keys: seq<Keyed>)
    requires forall x :: 0 <= x < |sa| ==> sa[x] < |rank|
    ensures |keys| == |sa|
    ensures forall x :: 0 <= x < |sa| ==> keys[x] == KeyOf(rank, sa[x], k)
  {
    seq(|sa|, x requires 0 <= x < |sa| => KeyOf(rank, sa[x], k))
  }

  function PositionsOf(keys: seq<Keyed>): (sa: seq<nat>)
    ensures |sa| == |keys|
    ensures forall x :: 0 <= x < |keys| ==> sa[x] == keys[x].position
  {
    seq(|keys|, x requires 0 <= x < |keys| => keys[x].position)
  }

  /** A rearrangement of a list without repeats has no repeats. */
  lemma {:induction false} RearrangedDistinct(a: seq<Keyed>, b: seq<Keyed>)
    requires multiset(a) == multiset(b)
    requires forall x, y :: 0 <= x < y < |a| ==> a[x] != a[y]
    ensures forall x, y :: 0 <= x < y < |b| ==> b[x] != b[y]
  {
    forall x, y | 0 <= x < y < |b|
      ensures b[x] != b[y]
    {
      if b[x] == b[y] {
        assert b == b[..x] + [b[x]] + b[x + 1..y] + [b[y]] + b[y + 1..];
        assert multiset(b)[b[x]] >= 2;
        OccursOnce(a, b[x]);
      }
    }
  }

  lemma {:induction false} OccursOnce(a: seq<Keyed>, k: Keyed)
    requires forall x, y :: 0 <= x < y < |a| ==> a[x] != a[y]
    ensures multiset(a)[k] <= 1
    decreases |a|
  {
    if a != [] {
      var init, last := a[..|a| - 1], a[|a| - 1];
      assert a == init + [last];
      OccursOnce(init, k);
    }
  }

  /** `sa.sort_by_key` of one round (src/encode.rs:307). */
  function Resort(rank: seq<int>, sa: seq<nat>, k: nat): seq<nat>
    requires forall x :: 0 <= x < |sa| ==> sa[x] < |rank|
  {
    PositionsOf(SortByKey(Keys(rank, sa, k)))
  }

  /** Sorting only rearranges: every sorted key is the key of its position, and no position is lost. */
  lemma SortedKeys(rank: seq<int>, sa: seq<nat>, k: nat)
    requires Positions(sa, |rank|)
    ensures var sorted := SortByKey(Keys(rank, sa, k));
            && |sorted| == |sa|
            && (forall x :: 0 <= x < |sa| ==>
                  sorted[x].position < |rank| && sorted[x] == KeyOf(rank, sorted[x].position, k))
            && (forall p :: 0 <= p < |rank| ==> KeyOf(rank, p, k) in sorted)
            && (forall x, y :: 0 <= x < y < |sorted| ==> sorted[x] != sorted[y])
  {
    var keys := Keys(rank, sa, k);
    assert forall x :: 0 <= x < |sa| ==> keys[x].position == sa[x];
    hide SortByKey, KeyOf;
    var sorted := SortByKey(keys);
    RearrangedDistinct(keys, sorted);
    assert |sorted| == |keys| by {
      assert |multiset(sorted)| == |multiset(keys)|;
    }
    forall x | 0 <= x < |sorted|
      ensures sorted[x].position < |rank| && sorted[x] == KeyOf(rank, sorted[x].position, k)
    {
      assert sorted[x] in multiset(keys);
      assert sorted[x] in keys;
    }
    forall p | 0 <= p < |rank|
      ensures KeyOf(rank, p, k) in sorted
    {
      assert p in sa;
      var y :| 0 <= y < |sa| && sa[y] == p;
      assert keys[y] in multiset(sorted);
    }
  }

  /** Sorting by the doubled key keeps the positions and orders them by 2k bytes. */
  lemma SortedRound(s: seq<byte>, rank: seq<int>, sa: seq<nat>, k: nat)
    requires Ranked(s, rank, k) && k >= 1 && Positions(sa, |s|)
    ensures var next := Resort(rank, sa, k); Positions(next, |s|) && OrderedBy(s, next, 2 * k)
  {
    hide SortByKey, Compare;
    var sorted := SortByKey(Keys(rank, sa, k));
    var next := Resort(rank, sa, k);
    SortedKeys(rank, sa, k);
    SortByKeySorts(Keys(rank, sa, k));
    forall p | 0 <= p < |s|
      ensures p in next
    {
      assert KeyOf(rank, p, k) in sorted;
      var x :| 0 <= x < |sorted| && sorted[x] == KeyOf(rank, p, k);
      assert next[x] == p;
    }
    forall x, y | 0 <= x < y < |next|
      ensures Compare(s, next[x], next[y], 2 * k) <= 0
    {
      assert !KeyLess(sorted[y], sorted[x]);
      KeyOrder(s, rank, next[y], next[x], k);
      CompareSwap(s, next[x], next[y], 2 * k);
    }
  }

  /** The new ranks count how often the key changes along the sorted positions. */
  ghost predicate Counted(s: seq<byte>, sa: seq<nat>, tmp: seq<int>, h: nat, w: nat)
    requires Positions(sa, |s|) && |tmp| == |s| && w <= |s|
  {
    && (forall x :: 0 <= x < w ==> 0 <= tmp[sa[x]] <= x)
    && (forall x, y :: 0 <= x < y < w ==>
          && 0 <= tmp[sa[y]] - tmp[sa[x]] <= y - x
          && (tmp[sa[y]] == tmp[sa[x]] <==> Compare(s, sa[x], sa[y], h) == 0))
  }

  /** Equal at h bytes is transitive along the order. */
  lemma {:induction false} CompareChain(s: seq<byte>, i: nat, j: nat, l: nat, h: nat)
    requires Compare(s, i, j, h) <= 0 && Compare(s, j, l, h) <= 0
    ensures Compare(s, i, l, h) <= 0
    ensures Compare(s, i, l, h) == 0 <==> Compare(s, i, j, h) == 0 && Compare(s, j, l, h) == 0
    decreases h
  {
    if h > 0 && i < |s| && j < |s| && l < |s| && s[i] == s[j] == s[l] {
      CompareChain(s, i + 1, j + 1, l + 1, h - 1);
    }
  }

  lemma CountedRanks(s: seq<byte>, sa: seq<nat>, tmp: seq<int>, h: nat)
    requires Positions(sa, |s|) && OrderedBy(s, sa, h) && |tmp| == |s| && Counted(s, sa, tmp, h, |s|)
    ensures Ranked(s, tmp, h)
  {
    forall i, j | 0 <= i < |s| && 0 <= j < |s|
      ensures tmp[i] >= 0 && Sign(tmp[i] - tmp[j]) == Compare(s, i, j, h)
    {
      assert i in sa && j in sa;
      var x :| 0 <= x < |sa| && sa[x] == i;
      var y :| 0 <= y < |sa| && sa[y] == j;
      CompareSwap(s, i, j, h);
      if x == y {
        CompareSwap(s, i, i, h);
      }
    }
  }

  ghost predicate StrictlyOrdered(s: seq<byte>, sa: seq<nat>, h: nat) {
    forall x, y :: 0 <= x < y < |sa| ==> Compare(s, sa[x], sa[y], h) < 0
  }

  /** src/encode.rs:309-313: one round of renumbering. */
  method Renumber(ghost s: seq<byte>, rank: seq<int>, sa: seq<nat>, k: nat, tmp0: seq<int>) returns (tmp: seq<int>)
    requires Ranked(s, rank, k) && k >= 1 && |s| > 0 && |tmp0| == |s|
    requires Positions(sa, |s|) && OrderedBy(s, sa, 2 * k)
    ensures Ranked(s, tmp, 2 * k)
    ensures tmp[sa[|s| - 1]] == |s| - 1 ==> StrictlyOrdered(s, sa, 2 * k)
  {
    hide Compare;
    var n := |sa|;
    tmp := tmp0[sa[0] := 0];
    for w := 1 to n
      invariant |tmp| == n && Counted(s, sa, tmp, 2 * k, w)
    {
      var prev, cur := KeyOf(rank, sa[w - 1], k), KeyOf(rank, sa[w], k);
      ghost var was := tmp;
      tmp := tmp[sa[w] := tmp[sa[w - 1]] + if cur.high != prev.high || cur.low != prev.low then 1 else 0];
      KeyOrder(s, rank, sa[w - 1], sa[w], k);
      CountNext(s, sa, was, tmp, 2 * k, w);
    }
    CountedRanks(s, sa, tmp, 2 * k);
  }

  lemma CountNext(s: seq<byte>, sa: seq<nat>, was: seq<int>, tmp: seq<int>, h: nat, w: nat)
    requires Positions(sa, |s|) && OrderedBy(s, sa, h) && |was| == |s| && 1 <= w < |s|
    requires Counted(s, sa, was, h, w)
    requires tmp == was[sa[w] := was[sa[w - 1]] + if Compare(s, sa[w - 1], sa[w], h) == 0 then 0 else 1]
    ensures Counted(s, sa, tmp, h, w + 1)
  {
    hide Compare;
    forall x | 0 <= x < w
      ensures tmp[sa[x]] == was[sa[x]]
      ensures 0 <= tmp[sa[w]] - tmp[sa[x]] <= w - x
      ensures tmp[sa[w]] == tmp[sa[x]] <==> Compare(s, sa[x], sa[w], h) == 0
    {
      if x < w - 1 {
        CompareChain(s, sa[x], sa[w - 1], sa[w], h);
      }
    }
  }

  // ---- the construction ----

  ghost predicate SuffixesAscend(s: seq<byte>, sa: seq<nat>) {
    && (forall x :: 0 <= x < |sa| ==> sa[x] <= |s|)
    && (forall x, y :: 0 <= x < y < |sa| ==> LexLess(s[sa[x]..], s[sa[y]..]))
  }

  lemma StrictIsLex(s: seq<byte>, sa: seq<nat>, h: nat)
    requires Positions(sa, |s|) && StrictlyOrdered(s, sa, h)
    ensures SuffixesAscend(s, sa)
  {
    forall x, y | 0 <= x < y < |sa|
      ensures LexLess(s[sa[x]..], s[sa[y]..])
    {
      CompareIsLex(s, sa[x], sa[y], h);
    }
  }

  lemma LongEnough(s: seq<byte>, sa: seq<nat>, h: nat)
    requires Positions(sa, |s|) && OrderedBy(s, sa, h) && h >= |s|
    ensures StrictlyOrdered(s, sa, h)
  {
    forall x, y | 0 <= x < y < |sa|
      ensures Compare(s, sa[x], sa[y], h) < 0
    {
      if Compare(s, sa[x], sa[y], h) == 0 {
        CompareTotal(s, sa[x], sa[y], h);
      }
    }
  }

  /** src/encode.rs:294-324: the positions of s in dictionary order of their suffixes. */
  method SuffixArray(s: seq<byte>) returns (sa: seq<nat>)
    ensures Positions(sa, |s|) && SuffixesAscend(s, sa)
  {
    hide Compare, LexLess, Resort, StrictlyOrdered, OrderedBy;
    var n := |s|;
    if n == 0 {
      return [];
    }
    sa := seq(n, i => i);
    AllPositions(sa);
    var rank: seq<int> := s;
    var tmp: seq<int> := seq(n, _ => 0);
    BytesAreRanks(s);
    var k := 1;
    while true
      invariant 1 <= k && (k < n || k == 1)
      invariant Positions(sa, n) && |tmp| == n && Ranked(s, rank, k)
      decreases 2 * n - k
    {
      SortedRound(s, rank, sa, k);
      sa := Resort(rank, sa, k);
      tmp := Renumber(s, rank, sa, k, tmp);
      rank := tmp;
      if rank[sa[n - 1]] == n - 1 {
        StrictIsLex(s, sa, 2 * k);
        break;
      }
      k := k * 2;
      if k >= n {
        LongEnough(s, sa, k);
        StrictIsLex(s, sa, k);
        break;
      }
    }
  }

  lemma AllPositions(sa: seq<nat>)
    requires forall p :: 0 <= p < |sa| ==> sa[p] == p
    ensures Positions(sa, |sa|)
  {
    forall p | 0 <= p < |sa| ensures p in sa {
      assert sa[p] == p;
    }
  }

  lemma BytesAreRanks(s: seq<byte>)
    ensures Ranked(s, s, 1)
  {
    forall i, j | 0 <= i < |s| && 0 <= j < |s|
      ensures var x: int, y: int := s[i], s[j]; Sign(x - y) == Compare(s, i, j, 1)
    {
      assert Compare(s, i + 1, j + 1, 0) == 0;
    }
  }

  /** src/encode.rs:285-291: the empty suffix sorts first. */
  method SuffixArrayWithSentinel(s: seq<byte>) returns (sa: seq<nat>)
    ensures |sa| == |s| + 1 && sa[0] == |s|
    ensures Distinct(sa) && (forall p :: 0 <= p <= |s| ==> p in sa)
    ensures SuffixesAscend(s, sa)
  {
    var plain := SuffixArray(s);
    sa := [|s|] + plain;
    forall x, y | 0 <= x < y < |sa|
      ensures sa[x] != sa[y] && LexLess(s[sa[x]..], s[sa[y]..])
    {
      if x == 0 {
        assert s[|s|..] == [] && s[sa[y]..][..0] == [];
      } else {
        assert sa[x] == plain[x - 1] && sa[y] == plain[y - 1];
      }
    }
    forall p | 0 <= p <= |s|
      ensures p in sa
    {
      if p < |s| { assert p in plain; }
    }
  }
}
