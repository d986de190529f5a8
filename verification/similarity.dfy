/**
 The similarity test of the line deduplicator:
 `difflib.SequenceMatcher(None, a, b).ratio() >= threshold`.

 The ratio is 2*M/T, where T = |a| + |b| and M is the number of characters in
 the matching blocks found by the Ratcliff/Obershelp recursion: take the
 longest common block (the earliest in `a`, then the earliest in `b`, among the
 longest), then recurse on the parts to its left and to its right. The
 threshold is a fraction num/den, so the float comparison becomes
 `2*M*den >= num*T`; when both strings are empty the ratio is 1.
 */
module Similarity {
  import opened Strings

  /** The block a[i..i+k] == b[j..j+k]. */
  datatype Match = Match(i: nat, j: nat, k: nat)

  datatype Fraction = Fraction(num: int, den: int)

  type Threshold = f: Fraction | f.den > 0 witness Fraction(4, 5)

  /** The `similarity_threshold=0.8` default of the deduplicator. */
  const DefaultThreshold: Threshold := Fraction(4, 5)

  function CommonPrefixLen(a: string, b: string): (n: nat)
    ensures n <= |a| && n <= |b|
    decreases |a|
  {
    if |a| == 0 || |b| == 0 || a[0] != b[0] then 0
    else 1 + CommonPrefixLen(a[1..], b[1..])
  }

  /** The common prefix is shared, and the characters after it differ. */
  lemma {:induction false} CommonPrefixSpec(a: string, b: string)
    ensures var n := CommonPrefixLen(a, b);
            a[..n] == b[..n] && (n < |a| && n < |b| ==> a[n] != b[n])
    decreases |a|
  {
    if |a| > 0 && |b| > 0 && a[0] == b[0] {
      CommonPrefixSpec(a[1..], b[1..]);
      var n := CommonPrefixLen(a, b);
      assert a[..n] == [a[0]] + a[1..][..n - 1];
      assert b[..n] == [b[0]] + b[1..][..n - 1];
    }
  }

  /** Length of the longest common block starting at a[i] and b[j]. */
  function RunLen(a: string, b: string, i: nat, j: nat): nat
    requires i <= |a| && j <= |b|
  {
    CommonPrefixLen(a[i..], b[j..])
  }

  predicate InBounds(a: string, b: string, m: Match) {
    m.i + m.k <= |a| && m.j + m.k <= |b|
  }

  /** a[i..i+k] == b[j..j+k]. */
  predicate IsBlock(a: string, b: string, m: Match) {
    InBounds(a, b, m) && a[m.i..m.i + m.k] == b[m.j..m.j + m.k]
  }

  /** (i, j) comes no later than (i', j'): earlier in `a`, or as early in `a` and no later in `b`. */
  predicate Before(i: nat, j: nat, i': nat, j': nat) {
    i < i' || (i == i' && j <= j')
  }

  lemma RunLenBlock(a: string, b: string, i: nat, j: nat)
    requires i <= |a| && j <= |b|
    ensures IsBlock(a, b, Match(i, j, RunLen(a, b, i, j)))
  {
    var n := RunLen(a, b, i, j);
    CommonPrefixSpec(a[i..], b[j..]);
    assert a[i..i + n] == a[i..][..n];
    assert b[j..j + n] == b[j..][..n];
  }

  /** Scans row `i` from column `j`, keeping `best` unless a strictly longer block appears. */
  function RowBest(a: string, b: string, i: nat, j: nat, best: Match): (r: Match)
    requires i < |a| && j <= |b|
    requires InBounds(a, b, best)
    ensures InBounds(a, b, r)
    decreases |b| - j
  {
    if j == |b| then best
    else
      var n := RunLen(a, b, i, j);
      RowBest(a, b, i, j + 1, if n > best.k then Match(i, j, n) else best)
  }

  /**
   The row scan finds the longest run of row `i` from column `j` on, the
   leftmost of the longest, or keeps `best` when nothing beats it.
   */
  lemma {:induction false} RowBestSpec(a: string, b: string, i: nat, j: nat, best: Match)
    requires i < |a| && j <= |b|
    requires InBounds(a, b, best)
    ensures var r := RowBest(a, b, i, j, best);
            && r.k >= best.k
            && (forall j' :: j <= j' < |b| ==> RunLen(a, b, i, j') <= r.k)
            && (r == best || (r.i == i && j <= r.j < |b| && r.k > best.k && r.k == RunLen(a, b, i, r.j)))
            && (r != best ==> forall j' :: j <= j' < r.j ==> RunLen(a, b, i, j') < r.k)
    decreases |b| - j
  {
    if j < |b| {
      var n := RunLen(a, b, i, j);
      var next := if n > best.k then Match(i, j, n) else best;
      assert RowBest(a, b, i, j, best) == RowBest(a, b, i, j + 1, next);
      RowBestSpec(a, b, i, j + 1, next);
    }
  }

  /** Scans rows `i..` and returns the longest block, the first one met on ties. */
  function GridBest(a: string, b: string, i: nat, best: Match): (r: Match)
    requires i <= |a|
    requires InBounds(a, b, best)
    ensures InBounds(a, b, r)
    decreases |a| - i
  {
    if i == |a| then best
    else GridBest(a, b, i + 1, RowBest(a, b, i, 0, best))
  }

  /** No run starting in rows `i..` is longer than `r`. */
  predicate NoneLonger(a: string, b: string, i: nat, r: Match) {
    forall i', j' :: i <= i' < |a| && 0 <= j' < |b| ==> RunLen(a, b, i', j') <= r.k
  }

  /** Every run as long as `r` starting in rows `i..` starts no earlier than `r`. */
  predicate NoneEarlier(a: string, b: string, i: nat, r: Match) {
    forall i', j' :: i <= i' < |a| && 0 <= j' < |b| && RunLen(a, b, i', j') == r.k ==> Before(r.i, r.j, i', j')
  }

  /** The grid scan finds a longest block of rows `i..`, the first one in row-major order. */
  lemma {:induction false} GridBestSpec(a: string, b: string, i: nat, best: Match)
    requires i <= |a|
    requires InBounds(a, b, best)
    ensures GridBest(a, b, i, best).k >= best.k
    ensures NoneLonger(a, b, i, GridBest(a, b, i, best))
    ensures var r := GridBest(a, b, i, best);
            r != best ==> i <= r.i < |a| && r.j < |b| && r.k > best.k && r.k == RunLen(a, b, r.i, r.j)
    ensures var r := GridBest(a, b, i, best);
            r != best ==> NoneEarlier(a, b, i, r)
    decreases |a| - i
  {
    if i < |a| {
      var m := RowBest(a, b, i, 0, best);
      RowBestSpec(a, b, i, 0, best);
      GridBestSpec(a, b, i + 1, m);
      var r := GridBest(a, b, i + 1, m);
      assert r == GridBest(a, b, i, best);
      forall i', j' | i <= i' < |a| && 0 <= j' < |b|
        ensures RunLen(a, b, i', j') <= r.k
      {
        if i' == i {
          assert RunLen(a, b, i, j') <= m.k;
        }
      }
      if r != best {
        forall i', j' | i <= i' < |a| && 0 <= j' < |b| && RunLen(a, b, i', j') == r.k
          ensures Before(r.i, r.j, i', j')
        {
          if i' == i {
            assert RunLen(a, b, i, j') <= m.k;
            if r == m {
              assert !(j' < r.j);
            }
          }
        }
      }
    }
  }

  /**
   `find_longest_match` over the whole of both strings: a longest common block,
   the earliest in `a` among the longest and then the earliest in `b`.
   */
  function LongestMatch(a: string, b: string): (r: Match)
    ensures InBounds(a, b, r)
  {
    GridBest(a, b, 0, Match(0, 0, 0))
  }

  /** A common block, no common block is longer, and none as long starts earlier. */
  lemma LongestMatchSpec(a: string, b: string)
    ensures IsBlock(a, b, LongestMatch(a, b))
    ensures NoneLonger(a, b, 0, LongestMatch(a, b))
    ensures NoneEarlier(a, b, 0, LongestMatch(a, b))
  {
    GridBestSpec(a, b, 0, Match(0, 0, 0));
    var r := LongestMatch(a, b);
    if r != Match(0, 0, 0) {
      RunLenBlock(a, b, r.i, r.j);
    }
  }

  /** The number of characters in the matching blocks of `a` and `b`. */
  function Matches(a: string, b: string): (m: nat)
    ensures m <= |a| && m <= |b|
    decreases |a| + |b|
  {
    var mt := LongestMatch(a, b);
    if mt.k == 0 then 0
    else
      mt.k + Matches(a[..mt.i], b[..mt.j]) + Matches(a[mt.i + mt.k..], b[mt.j + mt.k..])
  }

  /** `SequenceMatcher(None, a, b).ratio() >= th`. */
  predicate Similar(a: string, b: string, th: Threshold) {
    if |a| + |b| == 0 then th.num <= th.den
    else 2 * Matches(a, b) * th.den >= th.num * (|a| + |b|)
  }

  /** A string matches the whole of any extension of itself. */
  lemma MatchesExtension(a: string, t: string)
    ensures Matches(a, a + t) == |a|
  {
    var b := a + t;
    var mt := LongestMatch(a, b);
    LongestMatchSpec(a, b);
    if |a| > 0 {
      assert a[0..] == a && b[0..] == b;
      CommonPrefixSpec(a, b);
      assert b[..|a|] == a;
      assert RunLen(a, b, 0, 0) == |a|;
      assert mt.k == |a|;
      assert Before(mt.i, mt.j, 0, 0);
      assert mt == Match(0, 0, |a|);
      assert Matches(a[..0], b[..0]) == 0;
      assert Matches(a[|a|..], b[|a|..]) == 0;
    }
  }

  lemma MatchesSelf(a: string)
    ensures Matches(a, a) == |a|
  {
    MatchesExtension(a, "");
    assert a + "" == a;
  }

  /** Identical lines are always similar when the threshold is at most 1. */
  lemma IdenticalSimilar(a: string, th: Threshold)
    requires th.num <= th.den
    ensures Similar(a, a, th)
  {
    if |a| > 0 {
      assert a + "" == a;
      ExtensionSimilar(a, "", th);
      RatioOneReached(|a|, th);
    }
  }

  lemma RatioOneReached(n: nat, th: Threshold)
    requires th.num <= th.den
    ensures 2 * n * th.den >= th.num * (2 * n + 0)
  {
    assert 2 * n * th.den - th.num * (2 * n) == 2 * n * (th.den - th.num);
  }

  /** The ratio of a line and an extension of it is 2|a| / (2|a| + |t|). */
  lemma ExtensionSimilar(a: string, t: string, th: Threshold)
    requires |a| + |t| > 0
    ensures Similar(a, a + t, th) <==> 2 * |a| * th.den >= th.num * (2 * |a| + |t|)
  {
    MatchesExtension(a, t);
  }

  /** A non-empty common block starts with a common character. */
  lemma BlockCommonChar(a: string, b: string, m: Match)
    requires IsBlock(a, b, m)
    ensures m.k > 0 ==> a[m.i] == b[m.j]
  {
    if m.k > 0 {
      assert a[m.i] == a[m.i..m.i + m.k][0];
      assert b[m.j] == b[m.j..m.j + m.k][0];
    }
  }

  /** Strings with no character in common have ratio 0. */
  lemma DisjointMatches(a: string, b: string)
    requires forall x, y :: 0 <= x < |a| && 0 <= y < |b| ==> a[x] != b[y]
    ensures Matches(a, b) == 0
  {
    LongestMatchSpec(a, b);
    BlockCommonChar(a, b, LongestMatch(a, b));
  }

  /** "the quick fox" followed by "the quick fox.": similar at 0.8 but not at 0.99. */
  lemma QuickFoxExample()
    ensures Similar("the quick fox", "the quick fox" + ".", DefaultThreshold)
    ensures !Similar("the quick fox", "the quick fox" + ".", Fraction(99, 100))
  {
    ExtensionSimilar("the quick fox", ".", DefaultThreshold);
    ExtensionSimilar("the quick fox", ".", Fraction(99, 100));
  }
}
