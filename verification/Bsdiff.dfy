/** The bsdiff encoder (src/encode.rs:122-281): binary search over the suffix array, the scan for the next
    worthwhile match, forward and backward extension, and the emission of control triples. */
module Bsdiff {
  import opened Bytes
  import opened Varint
  import opened SuffixArray
  import opened PatchFormat

  // ---- matching ----

  /** Length of the common prefix of a and b. */
  function CommonPrefix(a: seq<byte>, b: seq<byte>): (n: nat)
    ensures n <= |a| && n <= |b| && a[..n] == b[..n]
    ensures n < |a| && n < |b| ==> a[n] != b[n]
  {
    if a != [] && b != [] && a[0] == b[0] then
      var n := 1 + CommonPrefix(a[1..], b[1..]);
      assert a == [a[0]] + a[1..] && b == [b[0]] + b[1..];
      n
    else 0
  }

  /** src/encode.rs:249-256 */
  method MatchLen(a: seq<byte>, b: seq<byte>) returns (i: nat)
    ensures i == CommonPrefix(a, b)
  {
    i := 0;
    var n := if |a| <= |b| then |a| else |b|;
    while i < n && a[i] == b[i]
      invariant i <= n && a[..i] == b[..i]
    {
      i := i + 1;
    }
    assert a[..CommonPrefix(a, b)] == b[..CommonPrefix(a, b)];
  }

  /** `<` on byte slices. */
  predicate BytesLess(a: seq<byte>, b: seq<byte>) {
    if a == [] then b != []
    else b != [] && (a[0] < b[0] || (a[0] == b[0] && BytesLess(a[1..], b[1..])))
  }

  /** Where the search turns when it compares with the suffix at x. */
  predicate GoesRight(from: seq<byte>, at: nat, wanted: seq<byte>)
    requires at <= |from|
  {
    var n := Min(|from| - at, |wanted|);
    BytesLess(from[at..at + n], wanted[..n])
  }

  predicate SearchRange(sa: seq<nat>, from: seq<byte>, st: nat, en: nat) {
    st <= en < |sa| && forall x :: 0 <= x < |sa| ==> sa[x] <= |from|
  }

  /** Some suffix listed in sa[st..=en] begins with the byte c. */
  ghost predicate BeginsIn(sa: seq<nat>, from: seq<byte>, st: nat, en: nat, c: byte)
    requires SearchRange(sa, from, st, en)
  {
    exists x :: st <= x <= en && sa[x] < |from| && from[sa[x]] == c
  }

  /** src/encode.rs:261-281: a length and a position in the base. The match is genuine, cannot be extended
      at that position, and is not empty when any suffix in range begins with the wanted byte. */
  function Search(sa: seq<nat>, from: seq<byte>, wanted: seq<byte>, st: nat, en: nat): (r: (nat, nat))
    requires SearchRange(sa, from, st, en)
    ensures r.1 <= |from| && r.0 == CommonPrefix(from[r.1..], wanted)
    decreases en - st
  {
    if en - st < 2 then
      var x := CommonPrefix(from[sa[st]..], wanted);
      var y := CommonPrefix(from[sa[en]..], wanted);
      if x > y then (x, sa[st]) else (y, sa[en])
    else
      var x := st + (en - st) / 2;
      if GoesRight(from, sa[x], wanted) then Search(sa, from, wanted, x, en)
      else Search(sa, from, wanted, st, x)
  }

  /** src/encode.rs:261-281 */
  method FindMatch(sa: seq<nat>, from: seq<byte>, wanted: seq<byte>, st: nat, en: nat) returns (len: nat, pos: nat)
    requires SearchRange(sa, from, st, en)
    ensures (len, pos) == Search(sa, from, wanted, st, en)
    decreases en - st
  {
    hide CommonPrefix;
    if en - st < 2 {
      var x := MatchLen(from[sa[st]..], wanted);
      var y := MatchLen(from[sa[en]..], wanted);
      if x > y {
        return x, sa[st];
      }
      return y, sa[en];
    }
    var x := st + (en - st) / 2;
    if GoesRight(from, sa[x], wanted) {
      len, pos := FindMatch(sa, from, wanted, x, en);
    } else {
      len, pos := FindMatch(sa, from, wanted, st, x);
    }
  }

  lemma FirstBytesAscend(sa: seq<nat>, from: seq<byte>, x: nat, y: nat)
    requires SuffixesAscend(from, sa) && x < y < |sa| && sa[x] < |from|
    ensures sa[y] < |from| && from[sa[x]] <= from[sa[y]]
  {
    var a, b := from[sa[x]..], from[sa[y]..];
    assert LexLess(a, b);
    var k :| 0 <= k <= |a| && k <= |b| && a[..k] == b[..k] &&
             (k == |a| < |b| || (k < |a| && k < |b| && a[k] < b[k]));
    if k > 0 {
      assert a[0] == a[..k][0] == b[..k][0] == b[0];
    }
  }

  /** The half the search turns to still holds a suffix with the wanted first byte. */
  lemma TurnKeepsFirstByte(sa: seq<nat>, from: seq<byte>, wanted: seq<byte>, x: nat, w: nat)
    requires SuffixesAscend(from, sa) && x < |sa| && w < |sa| && wanted != []
    requires sa[x] < |from| && sa[w] < |from| && from[sa[w]] == wanted[0]
    ensures from[sa[x]] == wanted[0] || (if GoesRight(from, sa[x], wanted) then w > x else w < x)
  {
    if w < x {
      FirstBytesAscend(sa, from, w, x);
    } else if x < w {
      FirstBytesAscend(sa, from, x, w);
    }
    var n := Min(|from| - sa[x], |wanted|);
    assert from[sa[x]..sa[x] + n][0] == from[sa[x]] && wanted[..n][0] == wanted[0];
  }

  /** The search over a sorted suffix array never misses a first byte that is there. */
  lemma {:induction false} SearchFindsFirstByte(sa: seq<nat>, from: seq<byte>, wanted: seq<byte>, st: nat, en: nat)
    requires SearchRange(sa, from, st, en) && SuffixesAscend(from, sa)
    requires sa[0] == |from| && (forall x :: 0 < x < |sa| ==> sa[x] < |from|)
    requires wanted != [] && BeginsIn(sa, from, st, en, wanted[0])
    ensures Search(sa, from, wanted, st, en).0 >= 1
    decreases en - st
  {
    hide SuffixesAscend, GoesRight, CommonPrefix;
    var w :| st <= w <= en && sa[w] < |from| && from[sa[w]] == wanted[0];
    if en - st < 2 {
      assert from[sa[w]..][0] == wanted[0];
    } else {
      var x := st + (en - st) / 2;
      TurnKeepsFirstByte(sa, from, wanted, x, w);
      if GoesRight(from, sa[x], wanted) {
        assert BeginsIn(sa, from, x, en, wanted[0]);
        SearchFindsFirstByte(sa, from, wanted, x, en);
      } else {
        assert BeginsIn(sa, from, st, x, wanted[0]);
        SearchFindsFirstByte(sa, from, wanted, st, x);
      }
    }
  }

  // ---- agreement between the two images at a fixed offset ----

  predicate Hit(from: seq<byte>, to: seq<byte>, offset: int, k: int) {
    0 <= k < |to| && 0 <= k + offset < |from| && from[k + offset] == to[k]
  }

  /** How many target positions in lo..hi agree with the base `offset` further on. */
  function Hits(from: seq<byte>, to: seq<byte>, offset: int, lo: int, hi: int): nat
    decreases hi - lo
  {
    if hi <= lo then 0
    else Hits(from, to, offset, lo, hi - 1) + if Hit(from, to, offset, hi - 1) then 1 else 0
  }

  lemma {:induction false} HitsSplit(from: seq<byte>, to: seq<byte>, offset: int, lo: int, mid: int, hi: int)
    requires lo <= mid <= hi
    ensures Hits(from, to, offset, lo, hi) == Hits(from, to, offset, lo, mid) + Hits(from, to, offset, mid, hi)
    decreases hi - mid
  {
    if mid < hi {
      HitsSplit(from, to, offset, lo, mid, hi - 1);
    }
  }

  lemma HitsFirst(from: seq<byte>, to: seq<byte>, offset: int, lo: int, hi: int)
    requires lo < hi
    ensures Hits(from, to, offset, lo, hi) ==
            Hits(from, to, offset, lo + 1, hi) + if Hit(from, to, offset, lo) then 1 else 0
  {
    HitsSplit(from, to, offset, lo, lo + 1, hi);
  }

  // ---- scanning for the next match ----

  /** What the sentinel suffix array offers the scan. */
  ghost predicate Indexed(sa: seq<nat>, from: seq<byte>) {
    && |sa| == |from| + 1 && sa[0] == |from|
    && (forall x :: 0 <= x < |sa| ==> sa[x] <= |from|)
    && (forall x :: 0 < x < |sa| ==> sa[x] < |from|)
    && (forall p :: 0 <= p <= |from| ==> p in sa)
    && SuffixesAscend(from, sa)
  }

  /** The match found for the target from k on. */
  function MatchAt(sa: seq<nat>, from: seq<byte>, to: seq<byte>, k: nat): (r: (nat, nat))
    requires |sa| == |from| + 1 && (forall x :: 0 <= x < |sa| ==> sa[x] <= |from|) && k <= |to|
    ensures r.1 <= |from| && r.0 == CommonPrefix(from[r.1..], to[k..])
    ensures k + r.0 <= |to| && r.1 + r.0 <= |from|
  {
    Search(sa, from, to[k..], 0, |from|)
  }

  lemma MatchIs(sa: seq<nat>, from: seq<byte>, to: seq<byte>, k: nat)
    requires |sa| == |from| + 1 && (forall x :: 0 <= x < |sa| ==> sa[x] <= |from|) && k <= |to|
    ensures MatchAt(sa, from, to, k) == Search(sa, from, to[k..], 0, |from|)
    ensures k + MatchAt(sa, from, to, k).0 <= |to|
  {
  }

  /** A position whose byte occurs at some base position has a non-empty match. */
  lemma MatchNotMissed(sa: seq<nat>, from: seq<byte>, to: seq<byte>, offset: int, k: nat)
    requires Indexed(sa, from) && k < |to| && Hit(from, to, offset, k)
    ensures MatchAt(sa, from, to, k).0 >= 1
  {
    var p := k + offset;
    assert p in sa;
    var x :| 0 <= x < |sa| && sa[x] == p;
    assert to[k..][0] == to[k];
    assert BeginsIn(sa, from, 0, |from|, to[k]);
    SearchFindsFirstByte(sa, from, to[k..], 0, |from|);
  }

  /** How far the matches found at start..=k reach. */
  function Reach(sa: seq<nat>, from: seq<byte>, to: seq<byte>, start: nat, k: nat): (r: nat)
    requires |sa| == |from| + 1 && (forall x :: 0 <= x < |sa| ==> sa[x] <= |from|)
    requires start <= k < |to|
    ensures k + MatchAt(sa, from, to, k).0 <= r <= |to| && start <= r
    decreases k - start
  {
    var here := k + MatchAt(sa, from, to, k).0;
    if k == start then here else Max(here, Reach(sa, from, to, start, k - 1))
  }

  /** The match at k is worth breaking off for: it agrees entirely with the alignment in use, or it beats
      that alignment, over everything matched so far, by more than eight bytes. */
  predicate Worthwhile(sa: seq<nat>, from: seq<byte>, to: seq<byte>, offset: int, start: nat, k: nat)
    requires |sa| == |from| + 1 && (forall x :: 0 <= x < |sa| ==> sa[x] <= |from|)
    requires start <= k < |to|
  {
    var len := MatchAt(sa, from, to, k).0;
    var score := Hits(from, to, offset, k, Reach(sa, from, to, start, k));
    (len == score && len != 0) || len > score + 8
  }

  /** scan is the first position from start on with a worthwhile match; |to| when there is none. */
  ghost predicate FirstWorthwhile(sa: seq<nat>, from: seq<byte>, to: seq<byte>, offset: int, start: nat, scan: nat)
    requires |sa| == |from| + 1 && (forall x :: 0 <= x < |sa| ==> sa[x] <= |from|)
  {
    && start <= scan <= |to|
    && (forall k :: start <= k < scan ==> !Worthwhile(sa, from, to, offset, start, k))
    && (scan < |to| ==> Worthwhile(sa, from, to, offset, start, scan))
  }

  /** src/encode.rs:147-152: counts the hits up to the end of the match at scan. */
  method ScoreMatch(from: seq<byte>, to: seq<byte>, offset: int, scan: nat, len: nat, scsc0: nat, oldscore0: int)
    returns (scsc: nat, oldscore: int)
    requires scan + len <= |to| && scsc0 <= |to| && scsc0 + 1 >= scan && scsc0 + offset >= 0
    requires scsc0 < scan ==> !Hit(from, to, offset, scsc0)
    requires oldscore0 == Hits(from, to, offset, scan, scsc0)
    ensures scsc == Max(scsc0, scan + len)
    ensures oldscore == Hits(from, to, offset, scan, scsc)
  {
    scsc, oldscore := scsc0, oldscore0;
    while scsc < scan + len
      invariant scsc0 <= scsc <= Max(scsc0, scan + len)
      invariant scsc < scan ==> scsc == scsc0
      invariant oldscore == Hits(from, to, offset, scan, scsc)
    {
      if scsc + offset < |from| && from[scsc + offset] == to[scsc] {
        oldscore := oldscore + 1;
      }
      scsc := scsc + 1;
    }
  }

  /** src/encode.rs:156-158: scan moves on, and takes its own hit out of the score. */
  method LeaveBehind(from: seq<byte>, to: seq<byte>, offset: int, scan: nat, scsc: nat,
                     oldscore0: int) returns (oldscore: int)
    requires scan < |to| && scan + offset >= 0 && scan <= scsc && (scsc == scan ==> !Hit(from, to, offset, scan))
    requires oldscore0 == Hits(from, to, offset, scan, scsc)
    ensures oldscore == Hits(from, to, offset, scan + 1, scsc)
  {
    oldscore := oldscore0;
    if scsc > scan {
      HitsFirst(from, to, offset, scan, scsc);
    }
    if scan + offset < |from| && from[scan + offset] == to[scan] {
      oldscore := oldscore - 1;
    }
  }

  lemma NoHits(from: seq<byte>, to: seq<byte>, offset: int, lo: int)
    ensures Hits(from, to, offset, lo, lo) == 0 && Hits(from, to, offset, lo, lo - 1) == 0
  {
  }

  lemma WorthwhileIs(sa: seq<nat>, from: seq<byte>, to: seq<byte>, offset: int, start: nat, k: nat)
    requires |sa| == |from| + 1 && (forall x :: 0 <= x < |sa| ==> sa[x] <= |from|) && start <= k < |to|
    ensures var len, score := MatchAt(sa, from, to, k).0, Hits(from, to, offset, k, Reach(sa, from, to, start, k));
            Worthwhile(sa, from, to, offset, start, k) <==> (len == score && len != 0) || len > score + 8
  {
  }

  lemma ReachIs(sa: seq<nat>, from: seq<byte>, to: seq<byte>, start: nat, k: nat)
    requires |sa| == |from| + 1 && (forall x :: 0 <= x < |sa| ==> sa[x] <= |from|) && start <= k < |to|
    ensures Reach(sa, from, to, start, k) ==
            Max(if start < k then Reach(sa, from, to, start, k - 1) else start, k + MatchAt(sa, from, to, k).0)
  {
  }

  /** src/encode.rs:140-160: from start on, the first position with a worthwhile match, with that match and
      the score of the alignment in use; |to| when there is none. */
  method ScanForMatch(sa: seq<nat>, from: seq<byte>, to: seq<byte>, lastoffset: int, start: nat, len0: nat, pos0: nat)
    returns (scan: nat, len: nat, pos: nat, oldscore: int)
    requires |sa| == |from| + 1 && (forall x :: 0 <= x < |sa| ==> sa[x] <= |from|) && Indexed(sa, from)
    requires start <= |to| && start + lastoffset >= 0 && pos0 <= |from|
    ensures start <= scan <= |to| && pos <= |from|
    ensures FirstWorthwhile(sa, from, to, lastoffset, start, scan)
    ensures scan < |to| ==> (len, pos) == MatchAt(sa, from, to, scan)
    ensures scan < |to| ==> oldscore == Hits(from, to, lastoffset, scan, Reach(sa, from, to, start, scan))
    ensures start < |to| == scan ==> (len, pos) == MatchAt(sa, from, to, scan - 1)
    ensures start == |to| ==> len == len0 && pos == pos0
    ensures oldscore >= 0
  {
    hide Search, SuffixesAscend, CommonPrefix, MatchAt, Indexed, Hits, Worthwhile, Hit, Reach;
    NoHits(from, to, lastoffset, start);
    oldscore := 0;
    scan, len, pos := start, len0, pos0;
    var scsc := scan;
    while scan < |to|
      invariant start <= scan <= |to| && pos <= |from|
      invariant scsc == if start < scan then Reach(sa, from, to, start, scan - 1) else start
      invariant start == scan ==> len == len0 && pos == pos0
      invariant start < scan ==> (len, pos) == MatchAt(sa, from, to, scan - 1)
      invariant scsc + 1 >= scan && (scsc < scan ==> !Hit(from, to, lastoffset, scsc))
      invariant oldscore == Hits(from, to, lastoffset, scan, scsc)
      invariant forall k :: start <= k < scan ==> !Worthwhile(sa, from, to, lastoffset, start, k)
    {
      len, pos := FindMatch(sa, from, to[scan..], 0, |from|);
      MatchIs(sa, from, to, scan);
      scsc, oldscore := ScoreMatch(from, to, lastoffset, scan, len, scsc, oldscore);
      ReachIs(sa, from, to, start, scan);
      WorthwhileIs(sa, from, to, lastoffset, start, scan);
      if (len == oldscore && len != 0) || len > oldscore + 8 {
        break;
      }
      if Hit(from, to, lastoffset, scan) {
        MatchNotMissed(sa, from, to, lastoffset, scan);
      }
      oldscore := LeaveBehind(from, to, lastoffset, scan, scsc, oldscore);
      scan := scan + 1;
    }
  }

  // ---- extending the matches ----

  /** Twice the hits less the length: what a diff span of n bytes is worth that starts at lastscan against
      lastpos, or that ends at scan against pos. */
  function ForwardWorth(from: seq<byte>, to: seq<byte>, lastscan: int, lastpos: int, n: int): int {
    2 * Hits(from, to, lastpos - lastscan, lastscan, lastscan + n) - n
  }

  function BackwardWorth(from: seq<byte>, to: seq<byte>, scan: int, pos: int, n: int): int {
    2 * Hits(from, to, pos - scan, scan - n, scan) - n
  }

  /** Choosing `best` is at least as good as choosing n, and better when n comes first. */
  predicate Beats(bestWorth: int, best: int, worth: int, n: int) {
    worth <= bestWorth && (n < best ==> worth < bestWorth)
  }

  /** lenf is the shortest forward span of greatest worth. */
  ghost predicate BestForward(from: seq<byte>, to: seq<byte>, lastscan: nat, lastpos: nat, scan: nat, lenf: nat) {
    && lastscan + lenf <= scan && lastpos + lenf <= |from|
    && forall n :: 0 <= n <= Min(scan - lastscan, |from| - lastpos) ==>
         Beats(ForwardWorth(from, to, lastscan, lastpos, lenf), lenf, ForwardWorth(from, to, lastscan, lastpos, n), n)
  }

  /** lenb is the shortest backward span of greatest worth. */
  ghost predicate BestBackward(from: seq<byte>, to: seq<byte>, lastscan: nat, scan: nat, pos: nat, lenb: nat) {
    && lenb <= scan - lastscan && lenb <= pos
    && forall n :: 0 <= n <= Min(scan - lastscan, pos) ==>
         Beats(BackwardWorth(from, to, scan, pos, lenb), lenb, BackwardWorth(from, to, scan, pos, n), n)
  }

  /** src/encode.rs:163-179 */
  method ForwardExtend(from: seq<byte>, to: seq<byte>, lastscan: nat, lastpos: nat, scan: nat) returns (lenf: nat)
    requires lastscan <= scan <= |to| && lastpos <= |from|
    ensures BestForward(from, to, lastscan, lastpos, scan, lenf)
  {
    var s, sf := 0, 0;
    lenf := 0;
    var i := 0;
    while lastscan + i < scan && lastpos + i < |from|
      invariant lastscan + i <= scan && lastpos + i <= |from| && lenf <= i
      invariant s == Hits(from, to, lastpos - lastscan, lastscan, lastscan + i)
      invariant sf == Hits(from, to, lastpos - lastscan, lastscan, lastscan + lenf)
      invariant forall n :: 0 <= n <= i ==>
                  Beats(sf * 2 - lenf, lenf, ForwardWorth(from, to, lastscan, lastpos, n), n)
    {
      if from[lastpos + i] == to[lastscan + i] {
        s := s + 1;
      }
      i := i + 1;
      if s * 2 - i > sf * 2 - lenf {
        sf, lenf := s, i;
      }
    }
  }

  /** src/encode.rs:180-196 */
  method BackwardExtend(from: seq<byte>, to: seq<byte>, lastscan: nat, scan: nat, pos: nat) returns (lenb: nat)
    requires lastscan <= scan <= |to| && pos <= |from|
    ensures BestBackward(from, to, lastscan, scan, pos, lenb)
  {
    var s, sb := 0, 0;
    lenb := 0;
    var i := 1;
    while scan >= lastscan + i && pos >= i
      invariant 1 <= i && i - 1 <= scan - lastscan && i - 1 <= pos && lenb < i
      invariant s == Hits(from, to, pos - scan, scan - (i - 1), scan)
      invariant sb == Hits(from, to, pos - scan, scan - lenb, scan)
      invariant forall n :: 0 <= n < i ==>
                  Beats(sb * 2 - lenb, lenb, BackwardWorth(from, to, scan, pos, n), n)
    {
      HitsFirst(from, to, pos - scan, scan - i, scan);
      if from[pos - i] == to[scan - i] {
        s := s + 1;
      }
      if s * 2 - i > sb * 2 - lenb {
        sb, lenb := s, i;
      }
      i := i + 1;
    }
  }

  /** How much better the forward alignment does than the backward one on k bytes at lo. */
  function Advantage(from: seq<byte>, to: seq<byte>, forwardOffset: int, backwardOffset: int, lo: int, k: int): int {
    Hits(from, to, forwardOffset, lo, lo + k) - Hits(from, to, backwardOffset, lo, lo + k)
  }

  /** lens is where two spans overlapping from lo on should part: the first split point that leaves the forward
      span the greatest advantage. */
  ghost predicate BestSplit(from: seq<byte>, to: seq<byte>, forwardOffset: int, backwardOffset: int, lo: int,
                            overlap: nat, lens: nat) {
    && lens <= overlap
    && forall k :: 0 <= k <= overlap ==>
         Beats(Advantage(from, to, forwardOffset, backwardOffset, lo, lens), lens,
               Advantage(from, to, forwardOffset, backwardOffset, lo, k), k)
  }

  /** src/encode.rs:197-218; lo is scan - lenb. */
  method SplitOverlap(from: seq<byte>, to: seq<byte>, forwardOffset: int, backwardOffset: int, lo: nat, overlap: nat)
    returns (lens: nat)
    requires lo + overlap <= |to|
    requires 0 <= lo + forwardOffset && lo + forwardOffset + overlap <= |from|
    requires 0 <= lo + backwardOffset && lo + backwardOffset + overlap <= |from|
    ensures BestSplit(from, to, forwardOffset, backwardOffset, lo, overlap, lens)
  {
    var s, ss := 0, 0;
    lens := 0;
    var i := 0;
    while i < overlap
      invariant 0 <= i <= overlap && lens <= i
      invariant s == Advantage(from, to, forwardOffset, backwardOffset, lo, i)
      invariant ss == Advantage(from, to, forwardOffset, backwardOffset, lo, lens)
      invariant forall k :: 0 <= k <= i ==>
                  Beats(ss, lens, Advantage(from, to, forwardOffset, backwardOffset, lo, k), k)
    {
      if to[lo + i] == from[lo + forwardOffset + i] {
        s := s + 1;
      }
      if to[lo + i] == from[lo + backwardOffset + i] {
        s := s - 1;
      }
      if s > ss {
        ss, lens := s, i + 1;
      }
      i := i + 1;
    }
  }

  /** The spans are the best ones where these do not overlap, and otherwise the best ones parted at the best
      split point. */
  ghost predicate BestSpans(from: seq<byte>, to: seq<byte>, lastscan: nat, lastpos: nat, scan: nat, pos: nat, lenf: nat,
                            lenb: nat) {
    exists f: nat, b: nat, lens: nat ::
      && Parted(from, to, lastscan, lastpos, scan, pos, f, b, lens)
      && lenf == KeptForward(lastscan, scan, f, b, lens) && lenb == b - lens
  }

  /** f and b are best before parting; lens bytes of their overlap, if any, go to the forward span. */
  ghost predicate Parted(from: seq<byte>, to: seq<byte>, lastscan: nat, lastpos: nat, scan: nat, pos: nat, f: nat,
                         b: nat, lens: nat) {
    && lastscan <= scan && lastpos <= |from|
    && BestForward(from, to, lastscan, lastpos, scan, f)
    && (if scan < |to| then BestBackward(from, to, lastscan, scan, pos, b) else b == 0)
    && var overlap := lastscan + f - (scan - b);
       if overlap > 0 then BestSplit(from, to, lastpos - lastscan, pos - scan, scan - b, overlap, lens) else lens == 0
  }

  function KeptForward(lastscan: nat, scan: nat, f: nat, b: nat, lens: nat): int {
    if lastscan + f > scan - b then scan - b + lens - lastscan else f
  }

  /** src/encode.rs:163-221: the spans kept of both alignments, which lie inside both images and do not
      overlap. */
  method ChooseSpans(from: seq<byte>, to: seq<byte>, lastscan: nat, lastpos: nat, scan: nat, pos: nat)
    returns (lenf: nat, lenb: nat)
    requires lastscan <= scan <= |to| && lastpos <= |from| && pos <= |from|
    ensures lenb <= pos && lastscan + lenf <= scan - lenb && lastpos + lenf <= |from|
    ensures scan == |to| ==> lenb == 0
    ensures BestSpans(from, to, lastscan, lastpos, scan, pos, lenf, lenb)
  {
    lenf := ForwardExtend(from, to, lastscan, lastpos, scan);
    lenb := 0;
    if scan < |to| {
      lenb := BackwardExtend(from, to, lastscan, scan, pos);
    }
    if lastscan + lenf > scan - lenb {
      var overlap := (lastscan + lenf) - (scan - lenb);
      var lens := SplitOverlap(from, to, lastpos - lastscan, pos - scan, scan - lenb, overlap);
      assert Parted(from, to, lastscan, lastpos, scan, pos, lenf, lenb, lens);
      lenf := lenf + lens - overlap;
      lenb := lenb - lens;
    } else {
      assert Parted(from, to, lastscan, lastpos, scan, pos, lenf, lenb, 0);
    }
  }

  // ---- emitting triples ----

  /** What the decoder makes of body, whatever follows it: the first `done` target bytes, with the base
      cursor left at `cursor`. */
  ghost predicate Rebuilt(from: seq<byte>, to: seq<byte>, body: seq<byte>, done: nat, cursor: nat) {
    && done <= |to|
    && forall tail :: Rebuild(from, 0, |to|, body + tail) ==
                      Prepend(to[..done], Rebuild(from, cursor, |to| - done, tail))
  }

  /** The triple that takes the decoder from lastscan and lastpos to newscan and newpos. */
  ghost predicate Bridges(from: seq<byte>, to: seq<byte>, lastscan: nat, lastpos: nat, newscan: nat, newpos: nat,
                          t: Triple) {
    && lastscan + |t.diff| + |t.extra| == newscan <= |to|
    && lastpos + |t.diff| <= |from|
    && AddBytes(from[lastpos..lastpos + |t.diff|], t.diff) == to[lastscan..lastscan + |t.diff|]
    && t.extra == to[lastscan + |t.diff|..newscan]
    && lastpos + |t.diff| + t.seek == newpos
  }

  lemma RebuildTriple(from: seq<byte>, to: seq<byte>, lastscan: nat, lastpos: nat, newscan: nat, newpos: nat, t: Triple,
                      tail: seq<byte>)
    requires Bridges(from, to, lastscan, lastpos, newscan, newpos, t) && lastscan < |to|
    ensures Rebuild(from, lastpos, |to| - lastscan, TripleBytes(t) + tail) ==
            Prepend(to[lastscan..newscan], Rebuild(from, newpos, |to| - newscan, tail))
  {
    hide ReadTriple, TripleBytes, AddBytes;
    ReadTripleBytes(t, tail);
    assert to[lastscan..newscan] == to[lastscan..lastscan + |t.diff|] + to[lastscan + |t.diff|..newscan];
  }

  lemma PrependTwice(to: seq<byte>, a: nat, b: nat, r: Option<(seq<byte>, seq<byte>)>)
    requires a <= b <= |to|
    ensures Prepend(to[..a], Prepend(to[a..b], r)) == Prepend(to[..b], r)
  {
    if r.Some? {
      assert to[..a] + (to[a..b] + r.value.0) == to[..b] + r.value.0;
    }
  }

  lemma RebuiltMore(from: seq<byte>, to: seq<byte>, body: seq<byte>, more: seq<byte>, a: nat, cursor: nat, b: nat,
                    next: nat)
    requires Rebuilt(from, to, body, a, cursor) && a <= b <= |to|
    requires forall tail :: Rebuild(from, cursor, |to| - a, more + tail) ==
                            Prepend(to[a..b], Rebuild(from, next, |to| - b, tail))
    ensures Rebuilt(from, to, body + more, b, next)
  {
    hide Rebuild, Prepend;
    forall tail
      ensures Rebuild(from, 0, |to|, body + more + tail) == Prepend(to[..b], Rebuild(from, next, |to| - b, tail))
    {
      assert body + more + tail == body + (more + tail);
      PrependTwice(to, a, b, Rebuild(from, next, |to| - b, tail));
    }
  }

  /** One emitted triple keeps the whole-stream invariant. */
  lemma RebuiltStep(from: seq<byte>, to: seq<byte>, body: seq<byte>, lastscan: nat, lastpos: nat, newscan: nat,
                    newpos: nat, t: Triple)
    requires Rebuilt(from, to, body, lastscan, lastpos) && lastscan < |to|
    requires Bridges(from, to, lastscan, lastpos, newscan, newpos, t)
    ensures Rebuilt(from, to, body + TripleBytes(t), newscan, newpos)
  {
    assert lastscan <= newscan <= |to|;
    hide Rebuild, TripleBytes, Bridges, Rebuilt, Prepend;
    forall tail
      ensures Rebuild(from, lastpos, |to| - lastscan, TripleBytes(t) + tail) ==
              Prepend(to[lastscan..newscan], Rebuild(from, newpos, |to| - newscan, tail))
    {
      RebuildTriple(from, to, lastscan, lastpos, newscan, newpos, t, tail);
    }
    RebuiltMore(from, to, body, TripleBytes(t), lastscan, lastpos, newscan, newpos);
  }

  /** What one emitted triple is: its diff part covers lenf bytes, and it takes the decoder to newscan and newpos. */
  ghost predicate Emitted(from: seq<byte>, to: seq<byte>, body0: seq<byte>, lastscan: nat, lastpos: nat, lenf: nat,
                          newscan: nat, newpos: nat, body: seq<byte>, t: Triple)
  {
    body == body0 + TripleBytes(t) && |t.diff| == lenf && Bridges(from, to, lastscan, lastpos, newscan, newpos, t)
  }

  /** Adding the differences to the base bytes gives the target bytes. */
  lemma DiffAdds(from: seq<byte>, to: seq<byte>, lastscan: nat, lastpos: nat, diff: seq<byte>)
    requires lastscan + |diff| <= |to| && lastpos + |diff| <= |from|
    requires forall j :: 0 <= j < |diff| ==> diff[j] == WrapSub(to[lastscan + j], from[lastpos + j])
    ensures AddBytes(from[lastpos..lastpos + |diff|], diff) == to[lastscan..lastscan + |diff|]
  {
  }

  /** src/encode.rs:223-239: one control triple, appended. */
  method EmitTriple(from: seq<byte>, to: seq<byte>, body0: seq<byte>, lastscan: nat, lastpos: nat, lenf: nat,
                    newscan: nat, newpos: nat)
    returns (body: seq<byte>)
    requires lastscan + lenf <= newscan <= |to| && lastpos + lenf <= |from|
    ensures exists t :: Emitted(from, to, body0, lastscan, lastpos, lenf, newscan, newpos, body, t)
  {
    hide WrapSub, AddBytes, EncodeSize;
    var diff: seq<byte> := [];
    for i := 0 to lenf
      invariant |diff| == i
      invariant forall j :: 0 <= j < i ==> diff[j] == WrapSub(to[lastscan + j], from[lastpos + j])
    {
      diff := diff + [WrapSub(to[lastscan + i], from[lastpos + i])];
    }
    var extra := to[lastscan + lenf..newscan];
    var seek := newpos - (lastpos + lenf);
    ghost var t := Triple(diff, extra, seek);
    var size := PackSize(lenf);
    body := body0 + size;
    body := body + diff;
    size := PackSize(|extra|);
    body := body + size;
    body := body + extra;
    size := PackSize(seek);
    body := body + size;
    assert body == body0 + TripleBytes(t);
    DiffAdds(from, to, lastscan, lastpos, diff);
    assert Emitted(from, to, body0, lastscan, lastpos, lenf, newscan, newpos, body, t);
  }

  // ---- the main loop ----

  lemma IndexedBySentinel(sa: seq<nat>, from: seq<byte>)
    requires |sa| == |from| + 1 && sa[0] == |from| && Distinct(sa) && SuffixesAscend(from, sa)
    requires forall p :: 0 <= p <= |from| ==> p in sa
    ensures Indexed(sa, from)
  {
    forall x | 0 < x < |sa| ensures sa[x] < |from| {
      assert sa[0] != sa[x];
    }
  }

  lemma NothingRebuilt(from: seq<byte>, to: seq<byte>)
    ensures Rebuilt(from, to, [], 0, 0)
  {
    forall tail: seq<byte>
      ensures Rebuild(from, 0, |to|, [] + tail) == Prepend(to[..0], Rebuild(from, 0, |to| - 0, tail))
    {
      assert [] + tail == tail;
      var r := Rebuild(from, 0, |to|, tail);
      if r.Some? {
        assert to[..0] + r.value.0 == r.value.0;
      }
    }
  }

  lemma AllRebuilt(from: seq<byte>, to: seq<byte>, stream: seq<byte>, cursor: nat)
    requires Rebuilt(from, to, stream, |to|, cursor)
    ensures Rebuilds(from, to, stream)
  {
    assert to[..|to|] + [] == to;
  }

  /** A worthwhile match is not empty, and stays inside both images. */
  lemma WorthwhileMatch(sa: seq<nat>, from: seq<byte>, to: seq<byte>, offset: int, start: nat, k: nat)
    requires |sa| == |from| + 1 && (forall x :: 0 <= x < |sa| ==> sa[x] <= |from|) && start <= k < |to|
    requires FirstWorthwhile(sa, from, to, offset, start, k)
    ensures var (len, pos) := MatchAt(sa, from, to, k); len >= 1 && k + len <= |to| && pos + len <= |from|
  {
  }

  // ---- what a whole run is ----

  /** The variables of the main loop between rounds. */
  datatype Cursor = Cursor(scan: nat, len: nat, pos: nat, lastscan: nat, lastpos: nat, lastoffset: int)

  /** The round from c has scanned on to d: to the first worthwhile match, or through the rest of the target. */
  ghost predicate ScannedTo(sa: seq<nat>, from: seq<byte>, to: seq<byte>, c: Cursor, d: Cursor)
    requires |sa| == |from| + 1 && (forall x :: 0 <= x < |sa| ==> sa[x] <= |from|)
  {
    var start := c.scan + c.len;
    && start <= d.scan <= |to|
    && FirstWorthwhile(sa, from, to, c.lastoffset, start, d.scan)
    && (if d.scan < |to| then (d.len, d.pos) == MatchAt(sa, from, to, d.scan)
        else if start < |to| then (d.len, d.pos) == MatchAt(sa, from, to, |to| - 1)
        else d.len == c.len && d.pos == c.pos)
  }

  /** The match at d is no continuation of the alignment in use, or the target is at its end. */
  ghost predicate Emits(sa: seq<nat>, from: seq<byte>, to: seq<byte>, c: Cursor, d: Cursor)
    requires |sa| == |from| + 1 && (forall x :: 0 <= x < |sa| ==> sa[x] <= |from|)
    requires c.scan + c.len <= d.scan <= |to|
  {
    d.scan == |to| || d.len != Hits(from, to, c.lastoffset, d.scan, Reach(sa, from, to, c.scan + c.len, d.scan))
  }

  /** t takes up the best spans around the gap between the last match and the one at d. */
  ghost predicate EmitsTriple(from: seq<byte>, to: seq<byte>, c: Cursor, d: Cursor, t: Triple, lenb: nat) {
    && BestSpans(from, to, c.lastscan, c.lastpos, d.scan, d.pos, |t.diff|, lenb)
    && lenb <= d.scan && lenb <= d.pos
    && Bridges(from, to, c.lastscan, c.lastpos, d.scan - lenb, d.pos - lenb, t)
    && d.lastscan == d.scan - lenb && d.lastpos == d.pos - lenb && d.lastoffset == d.pos - d.scan
  }

  /** One round of the main loop, with what it emits. */
  ghost predicate Round(sa: seq<nat>, from: seq<byte>, to: seq<byte>, c: Cursor, d: Cursor, t: Option<Triple>)
    requires |sa| == |from| + 1 && (forall x :: 0 <= x < |sa| ==> sa[x] <= |from|)
  {
    && c.scan < |to| && ScannedTo(sa, from, to, c, d)
    && if Emits(sa, from, to, c, d) then t.Some? && exists lenb: nat :: EmitsTriple(from, to, c, d, t.value, lenb)
       else t.None? && d.lastscan == c.lastscan && d.lastpos == c.lastpos && d.lastoffset == c.lastoffset
  }

  /** Rounds from the start, each from where the one before has led. */
  ghost predicate Rounds(sa: seq<nat>, from: seq<byte>, to: seq<byte>, cursors: seq<Cursor>,
                         emitted: seq<Option<Triple>>)
    requires |sa| == |from| + 1 && (forall x :: 0 <= x < |sa| ==> sa[x] <= |from|)
  {
    && |cursors| == |emitted| + 1 && cursors[0] == Cursor(0, 0, 0, 0, 0, 0)
    && forall k :: 0 <= k < |emitted| ==> Round(sa, from, to, cursors[k], cursors[k + 1], emitted[k])
  }

  function StreamOf(emitted: seq<Option<Triple>>): seq<byte> {
    if emitted == [] then []
    else
      var last := emitted[|emitted| - 1];
      StreamOf(emitted[..|emitted| - 1]) + if last.Some? then TripleBytes(last.value) else []
  }

  /** sa is the suffix array of `from` with the empty suffix in front. */
  ghost predicate SentinelArray(sa: seq<nat>, from: seq<byte>) {
    && |sa| == |from| + 1 && sa[0] == |from| && (forall x :: 0 <= x < |sa| ==> sa[x] <= |from|)
    && Distinct(sa) && SuffixesAscend(from, sa)
  }

  /** The stream is what bsdiff's rounds emit: where to break off is the first worthwhile match, and every triple
      takes up the best spans. */
  ghost predicate Diffs(from: seq<byte>, to: seq<byte>, stream: seq<byte>) {
    exists sa: seq<nat>, cursors: seq<Cursor>, emitted: seq<Option<Triple>> ::
      IsDiff(sa, from, to, cursors, emitted) && stream == StreamOf(emitted)
  }

  ghost predicate IsDiff(sa: seq<nat>, from: seq<byte>, to: seq<byte>, cursors: seq<Cursor>,
                         emitted: seq<Option<Triple>>) {
    SentinelArray(sa, from) && Rounds(sa, from, to, cursors, emitted) && cursors[|cursors| - 1].scan == |to|
  }

  lemma NoRounds(sa: seq<nat>, from: seq<byte>, to: seq<byte>)
    requires |sa| == |from| + 1 && (forall x :: 0 <= x < |sa| ==> sa[x] <= |from|)
    ensures Rounds(sa, from, to, [Cursor(0, 0, 0, 0, 0, 0)], []) && StreamOf([]) == []
  {
  }

  /** What the parts of a round promise makes it a round. */
  lemma RoundIs(sa: seq<nat>, from: seq<byte>, to: seq<byte>, c: Cursor, d: Cursor, oldscore: int, t: Option<Triple>,
                lenb: nat)
    requires |sa| == |from| + 1 && (forall x :: 0 <= x < |sa| ==> sa[x] <= |from|)
    requires c.scan < |to| && FirstWorthwhile(sa, from, to, c.lastoffset, c.scan + c.len, d.scan)
    requires c.scan + c.len <= d.scan <= |to|
    requires d.scan < |to| ==> (d.len, d.pos) == MatchAt(sa, from, to, d.scan)
    requires c.scan + c.len < |to| == d.scan ==> (d.len, d.pos) == MatchAt(sa, from, to, d.scan - 1)
    requires c.scan + c.len == |to| ==> d.len == c.len && d.pos == c.pos
    requires d.scan < |to| ==>
               oldscore == Hits(from, to, c.lastoffset, d.scan, Reach(sa, from, to, c.scan + c.len, d.scan))
    requires if d.len != oldscore || d.scan == |to| then t.Some? && EmitsTriple(from, to, c, d, t.value, lenb)
             else t.None? && d.lastscan == c.lastscan && d.lastpos == c.lastpos && d.lastoffset == c.lastoffset
    ensures Round(sa, from, to, c, d, t)
  {
    hide *;
    ScannedIs(sa, from, to, c, d);
    EmitsIs(sa, from, to, c, d, oldscore);
    RoundHolds(sa, from, to, c, d, t, lenb);
  }

  lemma EmitsIs(sa: seq<nat>, from: seq<byte>, to: seq<byte>, c: Cursor, d: Cursor, oldscore: int)
    requires |sa| == |from| + 1 && (forall x :: 0 <= x < |sa| ==> sa[x] <= |from|)
    requires c.scan + c.len <= d.scan <= |to|
    requires d.scan < |to| ==>
               oldscore == Hits(from, to, c.lastoffset, d.scan, Reach(sa, from, to, c.scan + c.len, d.scan))
    ensures Emits(sa, from, to, c, d) <==> d.len != oldscore || d.scan == |to|
  {
    hide Hits, Reach;
  }

  lemma RoundHolds(sa: seq<nat>, from: seq<byte>, to: seq<byte>, c: Cursor, d: Cursor, t: Option<Triple>, lenb: nat)
    requires |sa| == |from| + 1 && (forall x :: 0 <= x < |sa| ==> sa[x] <= |from|)
    requires c.scan < |to| && c.scan + c.len <= d.scan <= |to| && ScannedTo(sa, from, to, c, d)
    requires if Emits(sa, from, to, c, d) then t.Some? && EmitsTriple(from, to, c, d, t.value, lenb)
             else t.None? && d.lastscan == c.lastscan && d.lastpos == c.lastpos && d.lastoffset == c.lastoffset
    ensures Round(sa, from, to, c, d, t)
  {
    hide ScannedTo, Emits, EmitsTriple;
  }

  lemma ScannedIs(sa: seq<nat>, from: seq<byte>, to: seq<byte>, c: Cursor, d: Cursor)
    requires |sa| == |from| + 1 && (forall x :: 0 <= x < |sa| ==> sa[x] <= |from|)
    requires c.scan + c.len <= d.scan <= |to|
    requires FirstWorthwhile(sa, from, to, c.lastoffset, c.scan + c.len, d.scan)
    requires d.scan < |to| ==> (d.len, d.pos) == MatchAt(sa, from, to, d.scan)
    requires c.scan + c.len < |to| == d.scan ==> (d.len, d.pos) == MatchAt(sa, from, to, d.scan - 1)
    requires c.scan + c.len == |to| ==> d.len == c.len && d.pos == c.pos
    ensures ScannedTo(sa, from, to, c, d)
  {
    hide FirstWorthwhile, MatchAt;
  }

  lemma DiffFound(sa: seq<nat>, from: seq<byte>, to: seq<byte>, cursors: seq<Cursor>, emitted: seq<Option<Triple>>,
                  stream: seq<byte>)
    requires |sa| == |from| + 1 && sa[0] == |from| && (forall x :: 0 <= x < |sa| ==> sa[x] <= |from|)
    requires Distinct(sa) && SuffixesAscend(from, sa)
    requires Rounds(sa, from, to, cursors, emitted) && |cursors| > 0 && cursors[|cursors| - 1].scan == |to|
    requires stream == StreamOf(emitted)
    ensures Diffs(from, to, stream)
  {
    hide Rounds, SuffixesAscend, StreamOf, Distinct;
    assert IsDiff(sa, from, to, cursors, emitted);
  }

  lemma RoundsMore(sa: seq<nat>, from: seq<byte>, to: seq<byte>, cursors: seq<Cursor>, emitted: seq<Option<Triple>>,
                   d: Cursor, t: Option<Triple>)
    requires |sa| == |from| + 1 && (forall x :: 0 <= x < |sa| ==> sa[x] <= |from|)
    requires Rounds(sa, from, to, cursors, emitted) && Round(sa, from, to, cursors[|cursors| - 1], d, t)
    ensures Rounds(sa, from, to, cursors + [d], emitted + [t])
    ensures StreamOf(emitted + [t]) == StreamOf(emitted) + if t.Some? then TripleBytes(t.value) else []
  {
    hide Round, TripleBytes;
    assert (emitted + [t])[..|emitted|] == emitted;
  }

  /** src/encode.rs:125-246: appends to body0 a stream that rebuilds `to` out of `from`. */
  method AppendDiff(from: seq<byte>, to: seq<byte>, body0: seq<byte>) returns (body: seq<byte>)
    ensures body0 <= body
    ensures Rebuilds(from, to, body[|body0|..])
    ensures Diffs(from, to, body[|body0|..])
  {
    hide Rebuilds, Rebuilt, Indexed, Worthwhile, FirstWorthwhile, Bridges, TripleBytes, MatchAt, Hits, Reach, BestSpans,
         Round, Rounds, StreamOf, SuffixesAscend, Distinct, Diffs;
    var sa := SuffixArrayWithSentinel(from);
    IndexedBySentinel(sa, from);
    body := body0;
    ghost var stream: seq<byte> := [];
    var scan, len, pos := 0, 0, 0;
    var lastscan, lastpos, lastoffset := 0, 0, 0;
    NothingRebuilt(from, to);
    ghost var cursors, emitted: seq<Option<Triple>> := [Cursor(0, 0, 0, 0, 0, 0)], [];
    NoRounds(sa, from, to);
    while scan < |to|
      invariant scan <= |to| && 0 <= len && 0 <= pos <= |from| && (scan < |to| ==> scan + len <= |to|)
      invariant 0 <= lastscan <= scan && 0 <= lastpos <= |from| && scan + lastoffset >= 0
      invariant if scan < |to| then lastscan < |to| else lastscan == |to|
      invariant body == body0 + stream && Rebuilt(from, to, stream, lastscan, lastpos)
      invariant Rounds(sa, from, to, cursors, emitted) && stream == StreamOf(emitted)
      invariant |cursors| > 0 && cursors[|cursors| - 1] == Cursor(scan, len, pos, lastscan, lastpos, lastoffset)
      decreases if scan < |to| then 1 else 0, |to| - scan - len
    {
      var oldscore;
      ghost var reached := scan + len;
      ghost var c, emits, kept: nat := cursors[|cursors| - 1], None, 0;
      scan, len, pos, oldscore := ScanForMatch(sa, from, to, lastoffset, scan + len, len, pos);
      if scan < |to| {
        WorthwhileMatch(sa, from, to, lastoffset, reached, scan);
      }
      if len != oldscore || scan == |to| {
        var lenf, lenb := ChooseSpans(from, to, lastscan, lastpos, scan, pos);
        ghost var body1 := body;
        body := EmitTriple(from, to, body, lastscan, lastpos, lenf, scan - lenb, pos - lenb);
        ghost var t :| Emitted(from, to, body1, lastscan, lastpos, lenf, scan - lenb, pos - lenb, body, t);
        RebuiltStep(from, to, stream, lastscan, lastpos, scan - lenb, pos - lenb, t);
        stream := stream + TripleBytes(t);
        emits := Some(t);
        lastscan := scan - lenb;
        lastpos := pos - lenb;
        lastoffset := pos - scan;
        kept := lenb;
      }
      ghost var d := Cursor(scan, len, pos, lastscan, lastpos, lastoffset);
      RoundIs(sa, from, to, c, d, oldscore, emits, kept);
      RoundsMore(sa, from, to, cursors, emitted, d, emits);
      cursors, emitted := cursors + [d], emitted + [emits];
    }
    DiffFound(sa, from, to, cursors, emitted, stream);
    assert body[|body0|..] == stream;
    AllRebuilt(from, to, stream, lastpos);
  }
}
