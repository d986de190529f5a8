/**
 The Python `str` built-ins and regular-expression character classes the
 transcript cleaners rely on, restricted to ASCII characters.

 - `IsSpace` is Python's `\s` (and `str.isspace`) on ASCII.
 - `IsWordChar` is `\w` on ASCII; `Lower` is the ASCII case folding used by IGNORECASE.
 - `SplitLines` is `str.splitlines()` with its ASCII line separators.
 */
module Strings {

  datatype Option<T> = None | Some(value: T)

  // ---------------------------------------------------------------------------
  // Character classes
  // ---------------------------------------------------------------------------

  /** Space, \t \n \v \f \r and the separators 0x1c..0x1f. */
  predicate IsSpace(c: char) {
    c == ' ' || (9 <= c as int <= 13) || (28 <= c as int <= 31)
  }

  /** The characters at which `str.splitlines` ends a line: \n \v \f \r and 0x1c..0x1e. */
  predicate IsLineBreak(c: char) {
    (10 <= c as int <= 13) || (28 <= c as int <= 30)
  }

  predicate IsDigit(c: char) {
    '0' <= c <= '9'
  }

  predicate IsLetter(c: char) {
    ('a' <= c <= 'z') || ('A' <= c <= 'Z')
  }

  predicate IsWordChar(c: char) {
    IsLetter(c) || IsDigit(c) || c == '_'
  }

  predicate IsBracket(c: char) {
    c == '[' || c == ']'
  }

  function Lower(c: char): (r: char)
    ensures IsWordChar(c) <==> IsWordChar(r)
    ensures !IsLetter(c) ==> r == c
  {
    if 'A' <= c <= 'Z' then (c as int + 32) as char else c
  }

  function LowerStr(s: string): (r: string)
    ensures |r| == |s|
    ensures forall k :: 0 <= k < |s| ==> r[k] == Lower(s[k])
  {
    seq(|s|, k requires 0 <= k < |s| => Lower(s[k]))
  }

  /** Equality under IGNORECASE. */
  predicate CaseFoldEq(a: string, b: string) {
    |a| == |b| && forall k :: 0 <= k < |a| ==> Lower(a[k]) == Lower(b[k])
  }

  /** A character that folds to the same letter as a word character is a word character. */
  lemma CaseFoldWordChar(c: char, d: char)
    requires Lower(c) == Lower(d)
    ensures IsWordChar(c) <==> IsWordChar(d)
  {
  }

  // ---------------------------------------------------------------------------
  // Whole-string predicates
  // ---------------------------------------------------------------------------

  /** Every whitespace character of `s` is a plain space. */
  predicate PlainSpaced(s: string) {
    forall k :: 0 <= k < |s| && IsSpace(s[k]) ==> s[k] == ' '
  }

  /** `s` neither starts nor ends with whitespace. */
  predicate Trimmed(s: string) {
    |s| == 0 || (!IsSpace(s[0]) && !IsSpace(s[|s| - 1]))
  }

  /** No two neighbouring characters of `s` are both whitespace. */
  predicate SingleSpaced(s: string) {
    forall k :: 0 < k < |s| && IsSpace(s[k - 1]) ==> !IsSpace(s[k])
  }

  predicate AllSpace(s: string) {
    forall k :: 0 <= k < |s| ==> IsSpace(s[k])
  }

  predicate NoLineBreak(s: string) {
    forall k :: 0 <= k < |s| ==> !IsLineBreak(s[k])
  }

  /** Every character of `s` satisfies `P`. */
  predicate All(s: string, P: char -> bool) {
    forall k :: 0 <= k < |s| ==> P(s[k])
  }

  /** What holds of every character of a suffix holds of every character of its parts. */
  lemma AllSlice(s: string, i: nat, j: nat, P: char -> bool)
    requires i <= j <= |s| && All(s[i..], P)
    ensures All(s[i..j], P) && All(s[j..], P)
  {
    forall k | 0 <= k < |s[j..]|
      ensures P(s[j..][k])
    {
      assert s[j..][k] == s[i..][k + j - i];
    }
    forall k | 0 <= k < j - i
      ensures P(s[i..j][k])
    {
      assert s[i..j][k] == s[i..][k];
    }
  }

  lemma AllConcatEq(x: string, a: string, b: string, P: char -> bool)
    requires x == a + b && All(a, P) && All(b, P)
    ensures All(x, P)
  {
    AllConcat(a, b, P);
  }

  lemma AllConcat(a: string, b: string, P: char -> bool)
    requires All(a, P) && All(b, P)
    ensures All(a + b, P)
  {
    forall k | 0 <= k < |a + b|
      ensures P((a + b)[k])
    {
      if k < |a| {
        assert (a + b)[k] == a[k];
      } else {
        assert (a + b)[k] == b[k - |a|];
      }
    }
  }

  /** Every line-break character is whitespace, so plain-spaced text is one line. */
  lemma PlainSpacedIsOneLine(s: string)
    requires PlainSpaced(s)
    ensures NoLineBreak(s)
  {
  }

  // ---------------------------------------------------------------------------
  // Runs and stripping
  // ---------------------------------------------------------------------------

  /** Length of the maximal run of characters satisfying `p` that starts at `i`. */
  function RunAt(s: string, i: nat, p: char -> bool): (n: nat)
    requires i <= |s|
    ensures i + n <= |s|
    ensures forall k :: i <= k < i + n ==> p(s[k])
    ensures i + n < |s| ==> !p(s[i + n])
    decreases |s| - i
  {
    if i < |s| && p(s[i]) then 1 + RunAt(s, i + 1, p) else 0
  }

  /** A run is determined by where it stops. */
  lemma {:induction false} RunAtExact(s: string, i: nat, n: nat, p: char -> bool)
    requires i + n <= |s|
    requires forall k :: i <= k < i + n ==> p(s[k])
    requires i + n == |s| || !p(s[i + n])
    ensures RunAt(s, i, p) == n
    decreases n
  {
    if n > 0 {
      RunAtExact(s, i + 1, n - 1, p);
    }
  }

  /** `lstrip` with a character class: drops the leading run of `drop` characters. */
  function TrimStart(s: string, drop: char -> bool): (r: string)
    ensures |r| <= |s| && r == s[|s| - |r|..]
    ensures forall k :: 0 <= k < |s| - |r| ==> drop(s[k])
    ensures |r| > 0 ==> !drop(r[0])
    decreases |s|
  {
    if |s| > 0 && drop(s[0]) then TrimStart(s[1..], drop) else s
  }

  /** `rstrip` with a character class: drops the trailing run of `drop` characters. */
  function TrimEnd(s: string, drop: char -> bool): (r: string)
    ensures |r| <= |s| && r == s[..|r|]
    ensures forall k :: |r| <= k < |s| ==> drop(s[k])
    ensures |r| > 0 ==> !drop(r[|r| - 1])
    decreases |s|
  {
    if |s| > 0 && drop(s[|s| - 1]) then TrimEnd(s[..|s| - 1], drop) else s
  }

  /** `str.lstrip()`. */
  function LStrip(s: string): (r: string)
    ensures |r| <= |s| && r == s[|s| - |r|..]
    ensures AllSpace(s[..|s| - |r|])
    ensures |r| > 0 ==> !IsSpace(r[0])
  {
    TrimStart(s, IsSpace)
  }

  /** `str.strip()`. */
  function Strip(s: string): (r: string)
    ensures |r| <= |s|
    ensures Trimmed(r)
    ensures PlainSpaced(s) ==> PlainSpaced(r)
    ensures AllSpace(s) <==> r == ""
  {
    var l := TrimStart(s, IsSpace);
    var r := TrimEnd(l, IsSpace);
    StripTrims(l, r);
    StripKeepsPlain(s, l, r);
    StripEmpty(s, l, r);
    r
  }

  /**
   `strip` removes exactly the whitespace at the two ends: the result is the
   slice of `s` between a whitespace-only prefix and a whitespace-only
   suffix, and (being trimmed) it keeps every other character.
   */
  lemma StripSlice(s: string)
    ensures var i := |s| - |LStrip(s)|;
            var r := Strip(s);
            && i + |r| <= |s|
            && r == s[i..i + |r|]
            && AllSpace(s[..i])
            && AllSpace(s[i + |r|..])
  {
    StripParts(s, LStrip(s), Strip(s));
  }

  lemma StripParts(s: string, l: string, r: string)
    requires l == LStrip(s) && r == TrimEnd(l, IsSpace)
    ensures var i := |s| - |l|;
            && i + |r| <= |s|
            && r == s[i..i + |r|]
            && AllSpace(s[..i])
            && AllSpace(s[i + |r|..])
  {
    TrimEndTail(l, r);
    SliceBetweenSpaces(s, l, r);
  }

  /** A suffix after whitespace, cut before whitespace, is a slice between two whitespace runs. */
  lemma SliceBetweenSpaces(s: string, l: string, r: string)
    requires |l| <= |s| && l == s[|s| - |l|..] && AllSpace(s[..|s| - |l|])
    requires |r| <= |l| && r == l[..|r|] && AllSpace(l[|r|..])
    ensures var i := |s| - |l|;
            && i + |r| <= |s|
            && r == s[i..i + |r|]
            && AllSpace(s[..i])
            && AllSpace(s[i + |r|..])
  {
    assert l[|r|..] == s[|s| - |l| + |r|..];
  }

  lemma TrimEndTail(l: string, r: string)
    requires r == TrimEnd(l, IsSpace)
    ensures AllSpace(l[|r|..])
  {
    forall k | 0 <= k < |l| - |r|
      ensures IsSpace(l[|r|..][k])
    {
      assert l[|r|..][k] == l[|r| + k];
    }
  }

  lemma StripTrims(l: string, r: string)
    requires |l| > 0 ==> !IsSpace(l[0])
    requires r == TrimEnd(l, IsSpace)
    ensures Trimmed(r)
  {
    if |r| > 0 {
      assert r[0] == l[0];
    }
  }

  lemma StripKeepsPlain(s: string, l: string, r: string)
    requires l == TrimStart(s, IsSpace) && r == TrimEnd(l, IsSpace)
    ensures PlainSpaced(s) ==> PlainSpaced(r)
  {
    if PlainSpaced(s) {
      PlainSpacedSlice(s, |s| - |l|, |s|);
      PlainSpacedSlice(l, 0, |r|);
    }
  }

  /** A slice of plain-spaced text is plain-spaced. */
  lemma PlainSpacedSlice(s: string, i: nat, j: nat)
    requires i <= j <= |s| && PlainSpaced(s)
    ensures PlainSpaced(s[i..j])
  {
    forall k | 0 <= k < j - i && IsSpace(s[i..j][k])
      ensures s[i..j][k] == ' '
    {
      assert s[i..j][k] == s[i + k];
    }
  }

  lemma StripEmpty(s: string, l: string, r: string)
    requires l == TrimStart(s, IsSpace) && r == TrimEnd(l, IsSpace)
    ensures AllSpace(s) <==> r == ""
  {
    if r == "" {
      assert AllSpace(s);
    }
  }

  /** `str.strip('[]')`. */
  function StripBrackets(s: string): (r: string)
    ensures |r| <= |s|
    ensures |r| > 0 ==> !IsBracket(r[0]) && !IsBracket(r[|r| - 1])
  {
    TrimEnd(TrimStart(s, IsBracket), IsBracket)
  }

  /** `r` is the slice of `s` at `i`, with only `P` characters before and after it. */
  predicate SliceBetweenRuns(s: string, i: int, r: string, P: char -> bool)
  {
    && 0 <= i && i + |r| <= |s|
    && r == s[i..i + |r|]
    && All(s[..i], P)
    && All(s[i + |r|..], P)
  }

  /**
   `strip('[]')` cuts off exactly the leading and the trailing brackets: the
   result is the slice of `s` between two runs of `[` and `]`.
   */
  lemma StripBracketsSlice(s: string)
    ensures SliceBetweenRuns(s, |s| - |TrimStart(s, IsBracket)|, StripBrackets(s), IsBracket)
  {
    BracketParts(s, TrimStart(s, IsBracket), StripBrackets(s));
  }

  lemma BracketParts(s: string, l: string, r: string)
    requires l == TrimStart(s, IsBracket) && r == TrimEnd(l, IsBracket)
    ensures SliceBetweenRuns(s, |s| - |l|, r, IsBracket)
  {
    TrimStartAll(s, l, IsBracket);
    TrimEndAll(l, r, IsBracket);
    SliceBetween(s, l, r, IsBracket);
  }

  lemma TrimStartAll(s: string, l: string, P: char -> bool)
    requires l == TrimStart(s, P)
    ensures |l| <= |s| && l == s[|s| - |l|..] && All(s[..|s| - |l|], P)
  {
    var p := s[..|s| - |l|];
    forall k | 0 <= k < |p|
      ensures P(p[k])
    {
      assert p[k] == s[k];
    }
  }

  lemma TrimEndAll(l: string, r: string, P: char -> bool)
    requires r == TrimEnd(l, P)
    ensures |r| <= |l| && r == l[..|r|] && All(l[|r|..], P)
  {
    SuffixAll(l, |r|, P);
  }

  lemma SuffixAll(s: string, n: nat, P: char -> bool)
    requires n <= |s| && forall k :: n <= k < |s| ==> P(s[k])
    ensures All(s[n..], P)
  {
    var q := s[n..];
    forall k | 0 <= k < |q|
      ensures P(q[k])
    {
      assert q[k] == s[n + k];
    }
  }

  /** A suffix after a run of `P` characters, cut before another such run, is a slice between the two runs. */
  lemma SliceBetween(s: string, l: string, r: string, P: char -> bool)
    requires |l| <= |s| && l == s[|s| - |l|..] && All(s[..|s| - |l|], P)
    requires |r| <= |l| && r == l[..|r|] && All(l[|r|..], P)
    ensures SliceBetweenRuns(s, |s| - |l|, r, P)
  {
    assert l[|r|..] == s[|s| - |l| + |r|..];
  }

  lemma StripTrimmed(s: string)
    requires Trimmed(s)
    ensures Strip(s) == s
  {
  }

  /** A leading space never survives `strip`. */
  lemma StripLeadingSpace(c: char, s: string)
    requires IsSpace(c)
    ensures Strip([c] + s) == Strip(s)
  {
    assert ([c] + s)[1..] == s;
  }

  /** `re.sub(r'\s+', ' ', s)`: every whitespace run becomes one space. */
  function CollapseSpace(s: string): (r: string)
    ensures PlainSpaced(r) && SingleSpaced(r)
    ensures |r| <= |s|
    ensures |r| == 0 <==> |s| == 0
    ensures |s| > 0 ==> (IsSpace(s[0]) <==> IsSpace(r[0]))
    decreases |s|
  {
    if |s| == 0 then ""
    else if IsSpace(s[0]) then
      var n := RunAt(s, 0, IsSpace);
      " " + CollapseSpace(s[n..])
    else
      [s[0]] + CollapseSpace(s[1..])
  }

  /** Collapsing introduces no character other than the space. */
  lemma {:induction false} CollapseSpaceNoNew(s: string, c: char)
    requires c != ' ' && c !in s
    ensures c !in CollapseSpace(s)
    decreases |s|
  {
    if |s| > 0 {
      if IsSpace(s[0]) {
        var n := RunAt(s, 0, IsSpace);
        CollapseSpaceNoNew(s[n..], c);
      } else {
        CollapseSpaceNoNew(s[1..], c);
      }
    }
  }

  /** Collapsing changes nothing in text that is already plain and single spaced. */
  lemma {:induction false} CollapseSpaceIdentity(s: string)
    requires PlainSpaced(s) && SingleSpaced(s)
    ensures CollapseSpace(s) == s
    decreases |s|
  {
    if |s| > 0 {
      var t := s[1..];
      assert PlainSpaced(t) && SingleSpaced(t) by {
        assert forall k :: 0 <= k < |t| ==> t[k] == s[k + 1];
      }
      CollapseSpaceIdentity(t);
      if IsSpace(s[0]) {
        CollapseSpaceLeadingSpace(s);
      } else {
        assert CollapseSpace(s) == [s[0]] + CollapseSpace(t);
      }
      assert s == [s[0]] + t;
    }
  }

  /** Text with no whitespace at all. */
  predicate NoSpace(s: string) {
    forall k :: 0 <= k < |s| ==> !IsSpace(s[k])
  }

  /**
   A whitespace run becomes exactly one space: the characters before it are
   kept as they are, and collapsing goes on after the run.
   */
  lemma {:induction false} CollapseSpaceRun(a: string, w: string, b: string)
    requires NoSpace(a)
    requires |w| > 0 && AllSpace(w)
    requires b == "" || !IsSpace(b[0])
    ensures CollapseSpace(a + w + b) == a + " " + CollapseSpace(b)
    decreases |a|
  {
    if a == "" {
      CollapseRunHead(w + b, w, b);
      assert a + w + b == w + b;
    } else {
      CollapseSpaceRun(a[1..], w, b);
      CollapseRunStep(a, w, b);
    }
  }

  lemma CollapseRunStep(a: string, w: string, b: string)
    requires |a| > 0 && !IsSpace(a[0])
    requires CollapseSpace(a[1..] + w + b) == a[1..] + " " + CollapseSpace(b)
    ensures CollapseSpace(a + w + b) == a + " " + CollapseSpace(b)
  {
    StringAssoc(a[1..], w, b);
    StringAssoc(a[1..], " ", CollapseSpace(b));
    CollapseCharStep(a, w + b, " " + CollapseSpace(b));
    StringAssoc(a, w, b);
    StringAssoc(a, " ", CollapseSpace(b));
  }

  /** A non-space first character is copied, and the rest collapses on its own. */
  lemma CollapseCharStep(a: string, r: string, u: string)
    requires |a| > 0 && !IsSpace(a[0])
    requires CollapseSpace(a[1..] + r) == a[1..] + u
    ensures CollapseSpace(a + r) == a + u
  {
    var s := a + r;
    assert s[0] == a[0] && s[1..] == a[1..] + r;
    StringAssoc([a[0]], a[1..], u);
    assert [a[0]] + a[1..] == a;
  }

  lemma CollapseRunHead(s: string, w: string, b: string)
    requires s == w + b && |w| > 0 && AllSpace(w)
    requires b == "" || !IsSpace(b[0])
    ensures CollapseSpace(s) == " " + CollapseSpace(b)
  {
    RunAtExact(s, 0, |w|, IsSpace);
    assert s[|w|..] == b;
  }

  /** Text without whitespace is left as it is. */
  lemma CollapseSpaceNoSpace(a: string)
    requires NoSpace(a)
    ensures CollapseSpace(a) == a
  {
    CollapseSpaceIdentity(a);
  }

  /** A lone leading space of plain single-spaced text collapses to itself. */
  lemma CollapseSpaceLeadingSpace(s: string)
    requires PlainSpaced(s) && SingleSpaced(s)
    requires |s| > 0 && IsSpace(s[0])
    ensures CollapseSpace(s) == " " + CollapseSpace(s[1..])
  {
    if |s| > 1 {
      assert !IsSpace(s[1]);
    }
    RunAtExact(s, 0, 1, IsSpace);
  }

  // ---------------------------------------------------------------------------
  // Searching
  // ---------------------------------------------------------------------------

  predicate OccursAt(s: string, pat: string, i: nat) {
    i + |pat| <= |s| && s[i..i + |pat|] == pat
  }

  /** Dropping the first character shifts every occurrence one place to the left. */
  lemma OccursAtTail(s: string, pat: string, p: nat)
    requires |s| > 0
    ensures OccursAt(s[1..], pat, p) <==> OccursAt(s, pat, p + 1)
  {
    if p + 1 + |pat| <= |s| {
      assert s[1..][p..p + |pat|] == s[p + 1..p + 1 + |pat|];
    }
  }

  /** The first occurrence of `pat` in `s` at or after `from`. */
  function Find(s: string, pat: string, from: nat): (r: Option<nat>)
    ensures r.Some? ==> from <= r.value && OccursAt(s, pat, r.value)
    ensures r.Some? ==> forall k :: from <= k < r.value ==> !OccursAt(s, pat, k)
    ensures r.None? ==> forall k :: from <= k ==> !OccursAt(s, pat, k)
    decreases |s| - from
  {
    if from + |pat| > |s| then None
    else if s[from..from + |pat|] == pat then Some(from)
    else Find(s, pat, from + 1)
  }

  /** Searching a suffix `s[p..]` finds the occurrences of `s` itself, shifted by `p`. */
  lemma {:induction false} FindShift(s: string, pat: string, p: nat, from: nat)
    requires p <= |s|
    ensures Find(s, pat, p + from).Some? ==> Find(s[p..], pat, from) == Some(Find(s, pat, p + from).value - p)
    ensures Find(s, pat, p + from).None? ==> Find(s[p..], pat, from).None?
    decreases |s| - from
  {
    var t := s[p..];
    if from + |pat| <= |t| {
      assert t[from..from + |pat|] == s[p + from..p + from + |pat|];
      if t[from..from + |pat|] != pat {
        FindShift(s, pat, p, from + 1);
      }
    }
  }

  lemma StringAssoc(x: string, y: string, z: string)
    ensures x + (y + z) == (x + y) + z
  {
  }

  lemma DropDrop(s: string, p: nat, k: nat)
    requires p + k <= |s|
    ensures s[p..][k..] == s[p + k..]
  {
  }

  /** `j` is the first occurrence of `pat` in `s` at or after `from`. */
  predicate FirstAt(s: string, pat: string, from: nat, j: nat) {
    from <= j && OccursAt(s, pat, j) && forall k :: from <= k < j ==> !OccursAt(s, pat, k)
  }

  /** `Find` returns exactly the first occurrence. */
  lemma FindFirstAt(s: string, pat: string, from: nat, j: nat)
    ensures Find(s, pat, from) == Some(j) <==> FirstAt(s, pat, from, j)
  {
  }

  /** The first occurrence in `s` from `p + from` is the first in `s[p..]` from `from`, shifted by `p`. */
  lemma FirstAtShift(s: string, pat: string, p: nat, from: nat, j: nat)
    requires p <= |s| && FirstAt(s, pat, p + from, j)
    ensures p <= j && j + |pat| <= |s| && FirstAt(s[p..], pat, from, j - p)
  {
    var t := s[p..];
    assert t[j - p..j - p + |pat|] == s[j..j + |pat|];
    forall k | from <= k < j - p
      ensures !OccursAt(t, pat, k)
    {
      assert !OccursAt(s, pat, p + k);
      if k + |pat| <= |t| {
        assert t[k..k + |pat|] == s[p + k..p + k + |pat|];
      }
    }
  }

  lemma OccursAtSuffix(s: string, pat: string, p: nat)
    requires OccursAt(s, pat, p)
    ensures StartsWith(s[p..], pat)
  {
    assert s[p..][..|pat|] == s[p..p + |pat|];
  }

  /** Python's `pat in s`. */
  predicate Contains(s: string, pat: string) {
    Find(s, pat, 0).Some?
  }

  lemma ContainsAt(s: string, pat: string, i: nat)
    requires OccursAt(s, pat, i)
    ensures Contains(s, pat)
  {
  }

  /** An occurrence in a prefix is an occurrence in the whole string. */
  lemma ContainsPrefix(s: string, t: string, pat: string)
    requires |t| <= |s| && t == s[..|t|] && Contains(t, pat)
    ensures Contains(s, pat)
  {
    var k := Find(t, pat, 0).value;
    assert OccursAt(t, pat, k);
    assert s[..|t|][k..k + |pat|] == s[k..k + |pat|];
    ContainsAt(s, pat, k);
  }

  /** An occurrence in a suffix is an occurrence in the whole string. */
  lemma ContainsSuffix(s: string, t: string, pat: string)
    requires |t| <= |s| && t == s[|s| - |t|..] && Contains(t, pat)
    ensures Contains(s, pat)
  {
    var k := Find(t, pat, 0).value;
    var d := |s| - |t|;
    assert s[d + k..d + k + |pat|] == t[k..k + |pat|];
    ContainsAt(s, pat, d + k);
  }

  /** Stripping only removes characters at the ends, so it creates no occurrence. */
  lemma ContainsStrip(s: string, pat: string)
    requires Contains(Strip(s), pat)
    ensures Contains(s, pat)
  {
    var l := TrimStart(s, IsSpace);
    ContainsPrefix(l, TrimEnd(l, IsSpace), pat);
    ContainsSuffix(s, l, pat);
  }

  /** An occurrence inside one piece is an occurrence in the joined string. */
  lemma {:induction false} ContainsJoin(xs: seq<string>, sep: string, k: nat, pat: string)
    requires k < |xs| && Contains(xs[k], pat)
    ensures Contains(Join(xs, sep), pat)
    decreases |xs|
  {
    if |xs| == 1 {
    } else {
      var rest := Join(xs[1..], sep);
      JoinCons(xs, sep);
      var j := xs[0] + sep + rest;
      if k == 0 {
        assert j[..|xs[0]|] == xs[0];
        ContainsPrefix(j, xs[0], pat);
      } else {
        ContainsJoin(xs[1..], sep, k - 1, pat);
        assert j[|j| - |rest|..] == rest;
        ContainsSuffix(j, rest, pat);
      }
    }
  }

  predicate StartsWith(s: string, pat: string) {
    OccursAt(s, pat, 0)
  }

  predicate EndsWith(s: string, pat: string) {
    |pat| <= |s| && s[|s| - |pat|..] == pat
  }

  /** Index of the first `c` in `s`, or `|s|` when there is none. */
  function IndexOf(s: string, c: char): (i: nat)
    ensures i <= |s|
    ensures i < |s| ==> s[i] == c
    ensures forall k :: 0 <= k < i ==> s[k] != c
    decreases |s|
  {
    if |s| == 0 then 0
    else if s[0] == c then 0
    else 1 + IndexOf(s[1..], c)
  }

  // ---------------------------------------------------------------------------
  // Joining and splitting
  // ---------------------------------------------------------------------------

  /** `sep.join(xs)`. */
  function Join(xs: seq<string>, sep: string): string
    decreases |xs|
  {
    if |xs| == 0 then ""
    else if |xs| == 1 then xs[0]
    else xs[0] + sep + Join(xs[1..], sep)
  }

  /** `s.split(c)` for a one-character separator: the pieces between the separators. */
  function Split(s: string, c: char): (r: seq<string>)
    ensures |r| > 0
    ensures forall k :: 0 <= k < |r| ==> c !in r[k]
    ensures Join(r, [c]) == s
    decreases |s|
  {
    var i := IndexOf(s, c);
    if i == |s| then
      [s]
    else
      var rest := Split(s[i + 1..], c);
      assert Join([s[..i]] + rest, [c]) == s[..i] + [c] + Join(rest, [c]) by {
        assert ([s[..i]] + rest)[1..] == rest;
      }
      assert s == s[..i] + [c] + s[i + 1..];
      [s[..i]] + rest
  }

  /** Round trip: pieces without `c` joined by `c` split back into the same pieces. */
  lemma {:induction false} SplitJoin(xs: seq<string>, c: char)
    requires |xs| > 0
    requires forall k :: 0 <= k < |xs| ==> c !in xs[k]
    ensures Split(Join(xs, [c]), c) == xs
    decreases |xs|
  {
    if |xs| == 1 {
      IndexOfAbsent(xs[0], c);
    } else {
      var rest := Join(xs[1..], [c]);
      JoinCons(xs, [c]);
      IndexOfBefore(xs[0], c, rest);
      SplitJoin(xs[1..], c);
      assert (xs[0] + [c] + rest)[|xs[0]| + 1..] == rest;
      assert (xs[0] + [c] + rest)[..|xs[0]|] == xs[0];
      assert xs == [xs[0]] + xs[1..];
    }
  }

  lemma IndexOfAbsent(s: string, c: char)
    requires c !in s
    ensures IndexOf(s, c) == |s|
  {
  }

  lemma IndexOfBefore(a: string, c: char, b: string)
    requires c !in a
    ensures IndexOf(a + [c] + b, c) == |a|
  {
    var s := a + [c] + b;
    var i := IndexOf(s, c);
    assert s[|a|] == c;
  }

  /** Index of the first line break in `s`, or `|s|`. */
  function BreakIndex(s: string): (i: nat)
    ensures i <= |s|
    ensures i < |s| ==> IsLineBreak(s[i])
    ensures NoLineBreak(s[..i])
    decreases |s|
  {
    if |s| == 0 then 0
    else if IsLineBreak(s[0]) then 0
    else
      var i := 1 + BreakIndex(s[1..]);
      assert s[..i] == [s[0]] + s[1..][..i - 1];
      i
  }

  /** `str.splitlines()`: the lines of `s` without their separators; "\r\n" is one separator. */
  function SplitLines(s: string): (r: seq<string>)
    ensures forall k :: 0 <= k < |r| ==> NoLineBreak(r[k])
    ensures |r| <= |s|
    decreases |s|
  {
    if |s| == 0 then []
    else
      var k := BreakIndex(s);
      if k == |s| then
        [s]
      else
        var w := if s[k] == '\r' && k + 1 < |s| && s[k + 1] == '\n' then 2 else 1;
        [s[..k]] + SplitLines(s[k + w..])
  }

  lemma BreakIndexOneLine(s: string)
    requires NoLineBreak(s)
    ensures BreakIndex(s) == |s|
  {
  }

  /** Text without line breaks is one line, or none when it is empty. */
  lemma SplitLinesOneLine(s: string)
    requires NoLineBreak(s)
    ensures SplitLines(s) == if s == "" then [] else [s]
  {
    BreakIndexOneLine(s);
  }

  /** Round trip: lines joined with "\n" split back into the same lines. */
  lemma {:induction false} SplitLinesJoin(xs: seq<string>)
    requires forall k :: 0 <= k < |xs| ==> NoLineBreak(xs[k])
    requires |xs| > 0 ==> xs[|xs| - 1] != ""
    ensures SplitLines(Join(xs, "\n")) == xs
    decreases |xs|
  {
    if |xs| == 1 {
      SplitLinesOneLine(xs[0]);
    } else if |xs| > 1 {
      var tail := xs[1..];
      SplitLinesJoin(tail);
      JoinCons(xs, "\n");
      SplitLinesCons(xs[0], Join(tail, "\n"));
      assert xs == [xs[0]] + tail;
    }
  }

  /** Joining two non-empty lists is joining each and putting the separator between them. */
  lemma {:induction false} JoinAppend(xs: seq<string>, ys: seq<string>, sep: string)
    requires |xs| > 0 && |ys| > 0
    ensures Join(xs + ys, sep) == Join(xs, sep) + sep + Join(ys, sep)
    decreases |xs|
  {
    if |xs| == 1 {
      assert xs + ys == [xs[0]] + ys;
      JoinCons([xs[0]] + ys, sep);
      assert ([xs[0]] + ys)[1..] == ys;
    } else {
      var zs := xs + ys;
      JoinCons(zs, sep);
      assert zs[1..] == xs[1..] + ys;
      JoinAppend(xs[1..], ys, sep);
      JoinCons(xs, sep);
    }
  }

  lemma JoinCons(xs: seq<string>, sep: string)
    requires |xs| > 1
    ensures Join(xs, sep) == xs[0] + sep + Join(xs[1..], sep)
  {
  }

  lemma SplitLinesCons(a: string, rest: string)
    requires NoLineBreak(a)
    ensures SplitLines(a + "\n" + rest) == [a] + SplitLines(rest)
  {
    var s := a + "\n" + rest;
    BreakIndexPrefix(a, "\n" + rest);
    assert s == a + ("\n" + rest);
    var k := BreakIndex(s);
    assert k == |a|;
    assert s[..k] == a;
    assert s[k] == '\n';
    assert s[k + 1..] == rest;
    assert SplitLines(s) == [s[..k]] + SplitLines(s[k + 1..]);
  }

  /**
   `splitlines` ends a line at `"\r\n"` or at any single line break; a `"\r"`
   counts alone only when no `"\n"` follows it.
   */
  lemma SplitLinesBreak(a: string, w: string, rest: string)
    requires NoLineBreak(a)
    requires w == "\r\n" || (|w| == 1 && IsLineBreak(w[0]))
    requires w == "\r" ==> rest == "" || rest[0] != '\n'
    ensures SplitLines(a + w + rest) == [a] + SplitLines(rest)
  {
    var s := a + w + rest;
    StringAssoc(a, w, rest);
    BreakIndexPrefix(a, w + rest);
    var k := |a|;
    assert s[..k] == a;
    assert s[k..] == w + rest;
    BreakWidth(s[k..], w, rest);
    assert s[k + |w|..] == rest;
  }

  lemma BreakWidth(t: string, w: string, rest: string)
    requires t == w + rest
    requires w == "\r\n" || (|w| == 1 && IsLineBreak(w[0]))
    requires w == "\r" ==> rest == "" || rest[0] != '\n'
    ensures |w| == (if t[0] == '\r' && 1 < |t| && t[1] == '\n' then 2 else 1)
  {
    if |w| == 1 && 1 < |t| {
      assert t[1] == rest[0];
    }
  }

  lemma BreakIndexPrefix(a: string, b: string)
    requires NoLineBreak(a)
    requires |b| > 0 && IsLineBreak(b[0])
    ensures BreakIndex(a + b) == |a|
    decreases |a|
  {
    if |a| > 0 {
      assert (a + b)[1..] == a[1..] + b;
      BreakIndexPrefix(a[1..], b);
    }
  }
}
