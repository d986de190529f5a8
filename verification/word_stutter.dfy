/**
 `remove_word_stuttering` of clean-transcript.py.

 The pattern `\b(\w+)\s+\1\b` (IGNORECASE) is matched by hand. At a position
 `p` it can only match when `p` starts a word: `\w+` takes the whole word,
 because a shorter group would leave a word character where `\s+` must start;
 `\s+` takes the whole whitespace run, because a shorter one would leave a
 space where the repeated word must start. So a match is fully determined by
 `p`, and it ends right after the repeated word, which must end a word. The
 replacement `\1` is the first word as written.
 */
module WordStutter {
  import opened Strings

  /** `\b` at `p`: exactly one of the characters around `p` is a word character. */
  predicate WordBoundary(s: string, p: nat) {
    (0 < p <= |s| && IsWordChar(s[p - 1])) != (p < |s| && IsWordChar(s[p]))
  }

  /** Length of the word starting at `p` (0 when none does). */
  function WordLen(s: string, p: nat): nat
    requires p <= |s|
  {
    RunAt(s, p, IsWordChar)
  }

  /** The end of one more `\s+\1` after position `e`, where `\1` is `s[p..p+m]`. */
  function NextRep(s: string, p: nat, m: nat, e: nat): (r: Option<nat>)
    requires p + m <= |s| && e <= |s|
    ensures r.Some? ==> e + m < r.value <= |s|
  {
    var w := RunAt(s, e, IsSpace);
    if w > 0 && e + w + m <= |s| && CaseFoldEq(s[e + w..e + w + m], s[p..p + m])
    then Some(e + w + m)
    else None
  }

  /** The end of the match of `\b(\w+)\s+\1\b` at `p`, if there is one. */
  function StutterEnd(s: string, p: nat): (e: Option<nat>)
    requires p <= |s|
    ensures e.Some? ==> WordLen(s, p) > 0 && p + 2 * WordLen(s, p) < e.value <= |s|
  {
    var m := WordLen(s, p);
    if m == 0 || !WordBoundary(s, p) then None
    else
      match NextRep(s, p, m, p + m)
      case Some(e) => if WordBoundary(s, e) then Some(e) else None
      case None => None
  }

  /**
   `\s+\1` at `e`: a whitespace run of length `w > 0`, then the group
   `s[p..p+m]` again, compared under IGNORECASE.
   */
  predicate RepAt(s: string, p: nat, m: nat, e: nat, w: nat) {
    && p + m <= |s| && e + w + m <= |s| && w > 0
    && (forall k :: e <= k < e + w ==> IsSpace(s[k]))
    && CaseFoldEq(s[e + w..e + w + m], s[p..p + m])
  }

  /**
   `\b(\w+)\s+\1\b` matches at `p` with the group `s[p..p+m]` and a
   whitespace run of length `w` between the word and its repetition; the
   match ends at `p + m + w + m`.
   */
  predicate StutterAt(s: string, p: nat, m: nat, w: nat) {
    && m > 0 && WordBoundary(s, p)
    && RepAt(s, p, m, p + m, w)
    && (forall k :: p <= k < p + m ==> IsWordChar(s[k]))
    && WordBoundary(s, p + m + w + m)
  }

  /** What `NextRep` finds is one more repetition, using the whole whitespace run. */
  lemma {:induction false} NextRepSound(s: string, p: nat, m: nat, e: nat, f: nat)
    requires p + m <= |s| && e <= |s| && NextRep(s, p, m, e) == Some(f)
    ensures RepAt(s, p, m, e, RunAt(s, e, IsSpace)) && f == e + RunAt(s, e, IsSpace) + m
  {
  }

  /** A repetition whose whitespace run is the whole run at `e` is what `NextRep` finds. */
  lemma {:induction false} NextRepFound(s: string, p: nat, m: nat, e: nat, w: nat)
    requires RepAt(s, p, m, e, w) && RunAt(s, e, IsSpace) == w
    ensures NextRep(s, p, m, e) == Some(e + w + m)
  {
  }

  /**
   Soundness: what `StutterEnd` finds is a match of the pattern, whose group
   is the whole word at `p` and whose `\s+` is the whole whitespace run after it.
   */
  lemma {:induction false} StutterEndSound(s: string, p: nat)
    requires p <= |s| && StutterEnd(s, p).Some?
    ensures var m := WordLen(s, p);
            var w := RunAt(s, p + m, IsSpace);
            StutterAt(s, p, m, w) && StutterEnd(s, p).value == p + m + w + m
  {
    StutterEndParts(s, p);
    StutterOfRep(s, p, StutterEnd(s, p).value);
  }

  lemma {:induction false} StutterEndParts(s: string, p: nat)
    requires p <= |s| && StutterEnd(s, p).Some?
    ensures WordLen(s, p) > 0 && WordBoundary(s, p) && WordBoundary(s, StutterEnd(s, p).value)
    ensures NextRep(s, p, WordLen(s, p), p + WordLen(s, p)) == Some(StutterEnd(s, p).value)
  {
  }

  /** A word at `p`, one repetition of it ending at `e`, and a word boundary at `e` make a match. */
  lemma {:induction false} StutterOfRep(s: string, p: nat, e: nat)
    requires p <= |s| && WordLen(s, p) > 0 && WordBoundary(s, p)
    requires NextRep(s, p, WordLen(s, p), p + WordLen(s, p)) == Some(e) && WordBoundary(s, e)
    ensures var m := WordLen(s, p);
            var w := RunAt(s, p + m, IsSpace);
            StutterAt(s, p, m, w) && e == p + m + w + m
  {
    NextRepSound(s, p, WordLen(s, p), p + WordLen(s, p), e);
    StutterOfParts(s, p, e);
  }

  /** A word at `p`, a repetition using the whole whitespace run, and a boundary at its end. */
  lemma {:induction false} StutterOfParts(s: string, p: nat, e: nat)
    requires p <= |s| && WordLen(s, p) > 0 && WordBoundary(s, p)
    requires RepAt(s, p, WordLen(s, p), p + WordLen(s, p), RunAt(s, p + WordLen(s, p), IsSpace))
    requires e == p + WordLen(s, p) + RunAt(s, p + WordLen(s, p), IsSpace) + WordLen(s, p)
    requires WordBoundary(s, e)
    ensures StutterAt(s, p, WordLen(s, p), RunAt(s, p + WordLen(s, p), IsSpace))
  {
    WordIsWordChars(s, p);
  }

  lemma {:induction false} WordIsWordChars(s: string, p: nat)
    requires p <= |s|
    ensures forall k :: p <= k < p + WordLen(s, p) ==> IsWordChar(s[k])
  {
  }

  /**
   Completeness: whatever group and whitespace run a match of the pattern at
   `p` uses, `StutterEnd` finds it; so the match at `p` is unique.
   */
  lemma {:induction false} StutterEndFound(s: string, p: nat, m: nat, w: nat)
    requires StutterAt(s, p, m, w)
    ensures StutterEnd(s, p) == Some(p + m + w + m)
  {
    FoundParts(s, p, m, w);
    StutterEndOf(s, p, p + m + w + m);
  }

  lemma {:induction false} FoundParts(s: string, p: nat, m: nat, w: nat)
    requires StutterAt(s, p, m, w)
    ensures p <= |s| && WordLen(s, p) == m && m > 0 && WordBoundary(s, p)
    ensures NextRep(s, p, m, p + m) == Some(p + m + w + m) && WordBoundary(s, p + m + w + m)
  {
    FoundWord(s, p, m, w);
    FoundSpace(s, p, m, w);
    NextRepFound(s, p, m, p + m, w);
  }

  lemma {:induction false} FoundWord(s: string, p: nat, m: nat, w: nat)
    requires StutterAt(s, p, m, w)
    ensures WordLen(s, p) == m
  {
    RunAtExact(s, p, m, IsWordChar);
  }

  lemma {:induction false} FoundSpace(s: string, p: nat, m: nat, w: nat)
    requires StutterAt(s, p, m, w)
    ensures RunAt(s, p + m, IsSpace) == w
  {
    var q := p + m + w;
    assert s[q..q + m][0] == s[q] && s[p..p + m][0] == s[p];
    CaseFoldWordChar(s[q], s[p]);
    RunAtExact(s, p + m, w, IsSpace);
  }

  lemma {:induction false} StutterEndOf(s: string, p: nat, e: nat)
    requires p <= |s| && WordLen(s, p) > 0 && WordBoundary(s, p)
    requires NextRep(s, p, WordLen(s, p), p + WordLen(s, p)) == Some(e) && WordBoundary(s, e)
    ensures StutterEnd(s, p) == Some(e)
  {
  }

  /** No stutter starts at or after `i`. */
  predicate StutterFree(s: string, i: nat) {
    forall p :: i <= p < |s| ==> StutterEnd(s, p).None?
  }

  // ---------------------------------------------------------------------------
  // One substitution pass
  // ---------------------------------------------------------------------------

  /** `stutter_pattern.sub(r'\1', ...)` applied to `s` from position `i` on. */
  function PassFrom(s: string, i: nat): (r: string)
    requires i <= |s|
    ensures |r| <= |s| - i
    decreases |s| - i
  {
    if i == |s| then ""
    else
      match StutterEnd(s, i)
      case Some(e) => s[i..i + WordLen(s, i)] + PassFrom(s, e)
      case None => [s[i]] + PassFrom(s, i + 1)
  }

  function Pass(s: string): (r: string)
    ensures |r| <= |s|
  {
    PassFrom(s, 0)
  }

  /** A pass leaves stutter-free text as it is, and strictly shortens any other text. */
  lemma {:induction false} PassFromSpec(s: string, i: nat)
    requires i <= |s|
    ensures StutterFree(s, i) ==> PassFrom(s, i) == s[i..]
    ensures !StutterFree(s, i) ==> |PassFrom(s, i)| < |s| - i
    decreases |s| - i
  {
    if i < |s| {
      StutterFreeStep(s, i);
      if StutterEnd(s, i).Some? {
        PassFromMatch(s, i);
      } else {
        PassFromSpec(s, i + 1);
        PassFromNoMatch(s, i);
      }
    }
  }

  lemma StutterFreeStep(s: string, i: nat)
    requires i < |s|
    ensures StutterFree(s, i) <==> StutterEnd(s, i).None? && StutterFree(s, i + 1)
  {
  }

  /** A stutter at `i` shortens what the pass produces from `i` on. */
  lemma PassFromMatch(s: string, i: nat)
    requires i < |s| && StutterEnd(s, i).Some?
    ensures |PassFrom(s, i)| < |s| - i
  {
    var m := WordLen(s, i);
    assert |PassFrom(s, i)| == m + |PassFrom(s, StutterEnd(s, i).value)|;
  }

  /** A stutter at `i` is replaced by its first word. */
  lemma PassFromMatchEq(s: string, i: nat)
    requires i < |s| && StutterEnd(s, i).Some?
    ensures PassFrom(s, i) == s[i..i + WordLen(s, i)] + PassFrom(s, StutterEnd(s, i).value)
  {
  }

  /** A pass invents no character: whatever holds of every input character holds of every output character. */
  lemma {:induction false} PassFromChars(s: string, i: nat, P: char -> bool)
    requires i <= |s| && All(s[i..], P)
    ensures All(PassFrom(s, i), P)
    decreases |s| - i
  {
    if i < |s| {
      if StutterEnd(s, i).Some? {
        var e := StutterEnd(s, i).value;
        AllSlice(s, i, e, P);
        PassFromChars(s, e, P);
        PassFromCharsMatch(s, i, P);
      } else {
        AllSlice(s, i, i + 1, P);
        PassFromChars(s, i + 1, P);
        PassFromCharsNoMatch(s, i, P);
      }
    }
  }

  lemma PassFromCharsMatch(s: string, i: nat, P: char -> bool)
    requires i < |s| && All(s[i..], P) && StutterEnd(s, i).Some?
    requires All(PassFrom(s, StutterEnd(s, i).value), P)
    ensures All(PassFrom(s, i), P)
  {
    WordChars(s, i, P);
    PassFromMatchEq(s, i);
    AllConcatEq(PassFrom(s, i), s[i..i + WordLen(s, i)], PassFrom(s, StutterEnd(s, i).value), P);
  }

  lemma WordChars(s: string, i: nat, P: char -> bool)
    requires i <= |s| && All(s[i..], P)
    ensures All(s[i..i + WordLen(s, i)], P)
  {
    AllSlice(s, i, i + WordLen(s, i), P);
  }

  lemma PassFromCharsNoMatch(s: string, i: nat, P: char -> bool)
    requires i < |s| && All(s[i..], P) && StutterEnd(s, i).None?
    requires All(PassFrom(s, i + 1), P)
    ensures All(PassFrom(s, i), P)
  {
    PassFromNoMatch(s, i);
    assert P(s[i]);
    AllConcat([s[i]], PassFrom(s, i + 1), P);
  }

  /** Without a stutter at `i` the character at `i` is copied. */
  lemma PassFromNoMatch(s: string, i: nat)
    requires i < |s| && StutterEnd(s, i).None?
    ensures PassFrom(s, i) == [s[i]] + PassFrom(s, i + 1)
    ensures s[i..] == [s[i]] + s[i + 1..]
  {
    SliceCons(s, i);
  }

  lemma SliceCons(s: string, i: nat)
    requires i < |s|
    ensures s[i..] == [s[i]] + s[i + 1..]
  {
  }

  /** A pass changes the text exactly when a stutter occurs in it, and then shortens it. */
  lemma PassIdentity(s: string)
    ensures Pass(s) == s <==> StutterFree(s, 0)
    ensures Pass(s) != s ==> |Pass(s)| < |s|
  {
    PassFromSpec(s, 0);
  }

  // ---------------------------------------------------------------------------
  // The fixed point
  // ---------------------------------------------------------------------------

  /** What the `while text != prev_text` loop computes: passes until one changes nothing. */
  function Collapse(s: string): (r: string)
    ensures |r| <= |s|
    ensures StutterFree(r, 0)
    decreases |s|
  {
    var t := Pass(s);
    PassIdentity(s);
    if t == s then s else Collapse(t)
  }

  /** The fixed point is reached at once exactly on stutter-free text. */
  lemma CollapseIdentity(s: string)
    ensures Collapse(s) == s <==> StutterFree(s, 0)
  {
    PassIdentity(s);
  }

  lemma CollapseIdempotent(s: string)
    ensures Collapse(Collapse(s)) == Collapse(s)
  {
    CollapseIdentity(Collapse(s));
  }

  /** Removing stutters invents no character. */
  lemma {:induction false} CollapseChars(s: string, P: char -> bool)
    requires All(s, P)
    ensures All(Collapse(s), P)
    decreases |s|
  {
    assert s[0..] == s;
    PassFromChars(s, 0, P);
    PassIdentity(s);
    if Pass(s) != s {
      CollapseChars(Pass(s), P);
    }
  }

  /** Every pass of the loop keeps the fixed point it is heading for. */
  lemma CollapsePass(s: string)
    ensures Collapse(Pass(s)) == Collapse(s)
  {
  }

  // ---------------------------------------------------------------------------
  // The triple pass: \b(\w+)(\s+\1){2,}\b
  // ---------------------------------------------------------------------------

  /** Ends of the repetitions `(\s+\1)` taken greedily after position `e`. */
  function RepEnds(s: string, p: nat, m: nat, e: nat): (r: seq<nat>)
    requires p + m <= |s| && e <= |s|
    ensures forall k :: 0 <= k < |r| ==> e < r[k] <= |s|
    decreases |s| - e
  {
    match NextRep(s, p, m, e)
    case None => []
    case Some(e') => [e'] + RepEnds(s, p, m, e')
  }

  /**
   The repetition count the engine settles on: the largest index `c >= 1` of
   `ends` (that is, `c + 1 >= 2` repetitions) followed by a word boundary,
   trying the greediest count first.
   */
  function LastBoundary(s: string, ends: seq<nat>): (c: Option<nat>)
    ensures c.Some? ==> 1 <= c.value < |ends| && WordBoundary(s, ends[c.value])
    ensures c.Some? ==> forall j :: c.value < j < |ends| ==> !WordBoundary(s, ends[j])
    ensures c.None? ==> forall j :: 1 <= j < |ends| ==> !WordBoundary(s, ends[j])
    decreases |ends|
  {
    if |ends| < 2 then None
    else if WordBoundary(s, ends[|ends| - 1]) then Some(|ends| - 1)
    else LastBoundary(s, ends[..|ends| - 1])
  }

  /** The end of the match of the triple pattern at `p`, if there is one. */
  function TripleEnd(s: string, p: nat): (e: Option<nat>)
    requires p <= |s|
    ensures e.Some? ==> WordLen(s, p) > 0 && p + WordLen(s, p) < e.value <= |s|
  {
    var m := WordLen(s, p);
    if m == 0 || !WordBoundary(s, p) then None
    else RepeatsEnd(s, p, m)
  }

  /** Where `(\s+\1){2,}\b` stops after the group `s[p..p+m]`, if anywhere. */
  function RepeatsEnd(s: string, p: nat, m: nat): (e: Option<nat>)
    requires p + m <= |s|
    ensures e.Some? ==> p + m < e.value <= |s|
  {
    var ends := RepEnds(s, p, m, p + m);
    match LastBoundary(s, ends)
    case None => None
    case Some(c) => Some(ends[c])
  }

  /** `triple_pattern.sub(r'\1', ...)` applied to `s` from position `i` on. */
  function TriplePassFrom(s: string, i: nat): (r: string)
    requires i <= |s|
    ensures |r| <= |s| - i
    decreases |s| - i
  {
    if i == |s| then ""
    else
      match TripleEnd(s, i)
      case Some(e) => s[i..i + WordLen(s, i)] + TriplePassFrom(s, e)
      case None => [s[i]] + TriplePassFrom(s, i + 1)
  }

  function TriplePass(s: string): (r: string)
    ensures |r| <= |s|
  {
    TriplePassFrom(s, 0)
  }

  /**
   Three or more repetitions start with two: the second repetition begins with
   whitespace, so the first one already ends a word.
   */
  lemma TripleIsStutter(s: string, p: nat)
    requires p <= |s|
    ensures TripleEnd(s, p).Some? ==> StutterEnd(s, p).Some?
  {
    if TripleEnd(s, p).Some? {
      TripleEndStart(s, p);
      TwoRepsStutter(s, p);
    }
  }

  /** A word followed by two repetitions of itself starts a stutter. */
  lemma TwoRepsStutter(s: string, p: nat)
    requires p <= |s| && WordLen(s, p) > 0 && WordBoundary(s, p)
    requires |RepEnds(s, p, WordLen(s, p), p + WordLen(s, p))| >= 2
    ensures StutterEnd(s, p).Some?
  {
    WordLastChar(s, p);
    SecondRep(s, p, WordLen(s, p), p + WordLen(s, p));
    StutterEndOfRep(s, p);
  }

  lemma WordLastChar(s: string, p: nat)
    requires p <= |s| && WordLen(s, p) > 0
    ensures p + WordLen(s, p) <= |s| && IsWordChar(s[p + WordLen(s, p) - 1])
  {
  }

  /** A first repetition that ends a word completes a stutter. */
  lemma StutterEndOfRep(s: string, p: nat)
    requires p <= |s| && WordLen(s, p) > 0 && WordBoundary(s, p)
    requires NextRep(s, p, WordLen(s, p), p + WordLen(s, p)).Some?
    requires WordBoundary(s, NextRep(s, p, WordLen(s, p), p + WordLen(s, p)).value)
    ensures StutterEnd(s, p).Some?
  {
  }

  /** A triple match starts at a word and is followed by at least two repetitions. */
  lemma TripleEndStart(s: string, p: nat)
    requires p <= |s| && TripleEnd(s, p).Some?
    ensures WordLen(s, p) > 0 && WordBoundary(s, p)
    ensures |RepEnds(s, p, WordLen(s, p), p + WordLen(s, p))| >= 2
  {
  }

  /** When two repetitions of a word follow, the first one ends the word it copies. */
  lemma SecondRep(s: string, p: nat, m: nat, e: nat)
    requires p + m <= |s| && e <= |s| && m > 0 && IsWordChar(s[p + m - 1])
    requires |RepEnds(s, p, m, e)| >= 2
    ensures NextRep(s, p, m, e).Some? && WordBoundary(s, NextRep(s, p, m, e).value)
  {
    var e1 := NextRep(s, p, m, e).value;
    assert RepEnds(s, p, m, e) == [e1] + RepEnds(s, p, m, e1);
    assert NextRep(s, p, m, e1).Some?;
    assert e1 < |s| && IsSpace(s[e1]);
    var q := e1 - m;
    assert CaseFoldEq(s[q..e1], s[p..p + m]);
    CaseFoldLast(s[q..e1], s[p..p + m]);
    assert s[q..e1][m - 1] == s[e1 - 1] && s[p..p + m][m - 1] == s[p + m - 1];
  }

  /** Strings equal under IGNORECASE agree on whether they end with a word character. */
  lemma CaseFoldLast(a: string, b: string)
    requires CaseFoldEq(a, b) && |a| > 0
    ensures IsWordChar(a[|a| - 1]) <==> IsWordChar(b[|b| - 1])
  {
    CaseFoldWordChar(a[|a| - 1], b[|b| - 1]);
  }

  // ---------------------------------------------------------------------------
  // What the triple pattern matches
  // ---------------------------------------------------------------------------

  /** The first end in `RepEnds` is one repetition after `e`. */
  lemma {:induction false} RepEndsHead(s: string, p: nat, m: nat, e: nat)
    requires p + m <= |s| && e <= |s| && |RepEnds(s, p, m, e)| > 0
    ensures var w := RunAt(s, e, IsSpace);
            RepAt(s, p, m, e, w) && RepEnds(s, p, m, e)[0] == e + w + m
  {
    NextRepSound(s, p, m, e, NextRep(s, p, m, e).value);
  }

  /** Each later end in `RepEnds` is one more repetition after the end before it. */
  lemma {:induction false} RepEndsStep(s: string, p: nat, m: nat, e: nat, k: nat)
    requires p + m <= |s| && e <= |s| && k + 1 < |RepEnds(s, p, m, e)|
    ensures var r := RepEnds(s, p, m, e);
            var w := RunAt(s, r[k], IsSpace);
            RepAt(s, p, m, r[k], w) && r[k + 1] == r[k] + w + m
  {
    var r := RepEnds(s, p, m, e);
    RepEndsNext(s, p, m, e, k);
    NextRepSound(s, p, m, r[k], r[k + 1]);
  }

  /** Consecutive ends in `RepEnds` are linked by `NextRep`. */
  lemma {:induction false} RepEndsNext(s: string, p: nat, m: nat, e: nat, k: nat)
    requires p + m <= |s| && e <= |s| && k + 1 < |RepEnds(s, p, m, e)|
    ensures RepEnds(s, p, m, e)[k] <= |s|
    ensures NextRep(s, p, m, RepEnds(s, p, m, e)[k]) == Some(RepEnds(s, p, m, e)[k + 1])
    decreases k
  {
    var f := NextRep(s, p, m, e).value;
    RepEndsCons(s, p, m, e, f);
    if k == 0 {
      RepEndsCons(s, p, m, f, NextRep(s, p, m, f).value);
    } else {
      RepEndsNext(s, p, m, f, k - 1);
    }
  }

  /** `RepEnds` stops only where no further repetition follows. */
  lemma {:induction false} RepEndsStop(s: string, p: nat, m: nat, e: nat)
    requires p + m <= |s| && e <= |s|
    ensures var r := RepEnds(s, p, m, e);
            var b := if |r| == 0 then e else r[|r| - 1];
            b <= |s| && NextRep(s, p, m, b).None?
    decreases |s| - e
  {
    match NextRep(s, p, m, e)
    case None =>
    case Some(f) =>
      RepEndsCons(s, p, m, e, f);
      RepEndsStop(s, p, m, f);
  }

  lemma RepEndsCons(s: string, p: nat, m: nat, e: nat, f: nat)
    requires p + m <= |s| && e <= |s| && NextRep(s, p, m, e) == Some(f)
    ensures f <= |s| && RepEnds(s, p, m, e) == [f] + RepEnds(s, p, m, f)
  {
  }

  /**
   Soundness of the triple pattern: a match ends at one of the greedy
   repetition ends from the second on, at a word boundary, and no later end
   is one; without a match no end from the second on is a word boundary.
   */
  lemma {:induction false} TripleEndChoice(s: string, p: nat)
    requires p <= |s| && WordLen(s, p) > 0 && WordBoundary(s, p)
    ensures var ends := RepEnds(s, p, WordLen(s, p), p + WordLen(s, p));
            match TripleEnd(s, p)
            case Some(e) =>
              exists c :: 1 <= c < |ends| && ends[c] == e && WordBoundary(s, e)
                && forall j :: c < j < |ends| ==> !WordBoundary(s, ends[j])
            case None => forall j :: 1 <= j < |ends| ==> !WordBoundary(s, ends[j])
  {
    var ends := RepEnds(s, p, WordLen(s, p), p + WordLen(s, p));
    match LastBoundary(s, ends)
    case None =>
    case Some(c) => assert ends[c] == TripleEnd(s, p).value;
  }

  /**
   Any repetition of a group that starts with a word character uses the whole
   whitespace run, so it is the one `NextRep` finds.
   */
  lemma {:induction false} RepFound(s: string, p: nat, m: nat, e: nat, w: nat)
    requires m > 0 && RepAt(s, p, m, e, w) && IsWordChar(s[p])
    ensures NextRep(s, p, m, e) == Some(e + w + m)
  {
    var q := e + w;
    assert s[q..q + m][0] == s[q] && s[p..p + m][0] == s[p];
    CaseFoldWordChar(s[q], s[p]);
    RunAtExact(s, e, w, IsSpace);
    NextRepFound(s, p, m, e, w);
  }

  /** `xs` are the ends of consecutive repetitions `(\s+\1)` after `e`. */
  predicate RepChain(s: string, p: nat, m: nat, e: nat, xs: seq<nat>)
    decreases |xs|
  {
    |xs| == 0 || (e + m < xs[0] && RepAt(s, p, m, e, xs[0] - e - m) && RepChain(s, p, m, xs[0], xs[1..]))
  }

  /** Every chain of repetitions is a prefix of the greedy one. */
  lemma {:induction false} RepChainPrefix(s: string, p: nat, m: nat, e: nat, xs: seq<nat>)
    requires p + m <= |s| && e <= |s| && m > 0 && IsWordChar(s[p]) && RepChain(s, p, m, e, xs)
    ensures |xs| <= |RepEnds(s, p, m, e)|
    ensures forall k :: 0 <= k < |xs| ==> xs[k] == RepEnds(s, p, m, e)[k]
    decreases |xs|
  {
    if |xs| > 0 {
      RepFound(s, p, m, e, xs[0] - e - m);
      RepEndsCons(s, p, m, e, xs[0]);
      RepChainPrefix(s, p, m, xs[0], xs[1..]);
      forall k | 1 <= k < |xs| ensures xs[k] == RepEnds(s, p, m, e)[k] {
        assert xs[1..][k - 1] == xs[k];
      }
    }
  }

  /**
   Completeness of the triple pattern: whatever group, whitespace runs and
   count (two or more) a match at `p` uses, the group is the whole word at `p`,
   the chain is the start of the greedy one, and `TripleEnd` finds a match
   ending at that chain's end or at a later greedy end.
   */
  lemma {:induction false} TripleEndFound(s: string, p: nat, m: nat, xs: seq<nat>)
    requires p + m <= |s| && m > 0 && WordBoundary(s, p)
    requires forall k :: p <= k < p + m ==> IsWordChar(s[k])
    requires |xs| >= 2 && RepChain(s, p, m, p + m, xs) && WordBoundary(s, xs[|xs| - 1])
    ensures m == WordLen(s, p) && |xs| <= |RepEnds(s, p, m, p + m)|
    ensures TripleEnd(s, p).Some? && TripleEnd(s, p).value in RepEnds(s, p, m, p + m)[|xs| - 1..]
  {
    ChainLastEnd(s, p, m, p + m, xs);
    TripleEndAtLeast(s, p, m, |xs| - 1);
    GroupIsWord(s, p, m, xs);
    TripleEndIs(s, p, m);
  }

  lemma {:induction false} ChainLastEnd(s: string, p: nat, m: nat, e: nat, xs: seq<nat>)
    requires p + m <= |s| && e <= |s| && m > 0 && IsWordChar(s[p]) && RepChain(s, p, m, e, xs) && |xs| > 0
    ensures |xs| <= |RepEnds(s, p, m, e)| && RepEnds(s, p, m, e)[|xs| - 1] == xs[|xs| - 1]
  {
    RepChainPrefix(s, p, m, e, xs);
  }

  /** A later repetition that ends a word makes the repetitions match at or after it. */
  lemma {:induction false} TripleEndAtLeast(s: string, p: nat, m: nat, i: nat)
    requires p + m <= |s| && 1 <= i < |RepEnds(s, p, m, p + m)| && WordBoundary(s, RepEnds(s, p, m, p + m)[i])
    ensures RepeatsEnd(s, p, m).Some? && RepeatsEnd(s, p, m).value in RepEnds(s, p, m, p + m)[i..]
  {
    var ends := RepEnds(s, p, m, p + m);
    LastBoundaryAtLeast(s, ends, i);
    var c := LastBoundary(s, ends).value;
    assert ends[i..][c - i] == ends[c];
  }

  lemma {:induction false} LastBoundaryAtLeast(s: string, ends: seq<nat>, i: nat)
    requires 1 <= i < |ends| && WordBoundary(s, ends[i])
    ensures LastBoundary(s, ends).Some? && i <= LastBoundary(s, ends).value
  {
  }

  lemma {:induction false} TripleEndIs(s: string, p: nat, m: nat)
    requires p <= |s| && m == WordLen(s, p) && m > 0 && WordBoundary(s, p)
    ensures TripleEnd(s, p) == RepeatsEnd(s, p, m)
  {
  }

  /** The group of a chain is the whole word at `p`, since whitespace follows it. */
  lemma {:induction false} GroupIsWord(s: string, p: nat, m: nat, xs: seq<nat>)
    requires p + m <= |s| && m > 0
    requires forall k :: p <= k < p + m ==> IsWordChar(s[k])
    requires |xs| > 0 && RepChain(s, p, m, p + m, xs)
    ensures WordLen(s, p) == m
  {
    assert IsSpace(s[p + m]);
    RunAtExact(s, p, m, IsWordChar);
  }

  /** On stutter-free text the triple pass changes nothing. */
  lemma {:induction false} TriplePassFree(s: string, i: nat)
    requires i <= |s| && StutterFree(s, i)
    ensures TriplePassFrom(s, i) == s[i..]
    decreases |s| - i
  {
    if i < |s| {
      StutterFreeStep(s, i);
      TripleIsStutter(s, i);
      TriplePassFree(s, i + 1);
      TriplePassFromNoMatch(s, i);
    }
  }

  /** Without a triple match at `i` the character at `i` is copied. */
  lemma TriplePassFromNoMatch(s: string, i: nat)
    requires i < |s| && TripleEnd(s, i).None?
    ensures TriplePassFrom(s, i) == [s[i]] + TriplePassFrom(s, i + 1)
    ensures s[i..] == [s[i]] + s[i + 1..]
  {
    SliceCons(s, i);
  }

  // ---------------------------------------------------------------------------
  // remove_word_stuttering
  // ---------------------------------------------------------------------------

  /** What `remove_word_stuttering` returns, stated as a function. */
  function WordStuttersRemoved(s: string): (r: string)
    ensures |r| <= |s|
  {
    TriplePass(Collapse(s))
  }

  /**
   The triple pass is redundant: after the loop no stutter is left, so the
   result is the loop's fixed point; it is stutter-free and removing stutters
   again changes nothing.
   */
  lemma WordStuttersRemovedSpec(s: string)
    ensures WordStuttersRemoved(s) == Collapse(s)
    ensures StutterFree(WordStuttersRemoved(s), 0)
    ensures WordStuttersRemoved(WordStuttersRemoved(s)) == WordStuttersRemoved(s)
    ensures WordStuttersRemoved(s) == s <==> StutterFree(s, 0)
  {
    var c := Collapse(s);
    TriplePassFree(c, 0);
    CollapseIdempotent(s);
    CollapseIdentity(s);
  }

  /**
   `remove_word_stuttering(text)`: substitute until the text stops changing,
   then run the triple pass once.
   */
  method RemoveWordStuttering(text0: string) returns (r: string)
    ensures r == WordStuttersRemoved(text0)
    ensures StutterFree(r, 0)
    ensures |r| <= |text0|
    ensures StutterFree(text0, 0) ==> r == text0
  {
    var text := text0;
    var prev: Option<string> := None;
    while prev != Some(text)
      invariant Collapse(text) == Collapse(text0)
      invariant |text| <= |text0|
      invariant prev.Some? ==> text == Pass(prev.value)
      decreases |text| + (if prev == Some(text) then 0 else 1)
    {
      PassIdentity(text);
      CollapsePass(text);
      prev := Some(text);
      text := Pass(text);
    }
    PassIdentity(text);
    r := TriplePass(text);
    WordStuttersRemovedSpec(text0);
  }

  // ---------------------------------------------------------------------------
  // Example
  // ---------------------------------------------------------------------------

  /** A one-letter word, one space and the same letter in any case, standing alone, is a stutter. */
  lemma LetterStutter(s: string, p: nat)
    requires p + 3 <= |s| && IsWordChar(s[p]) && IsSpace(s[p + 1]) && Lower(s[p + 2]) == Lower(s[p])
    requires p == 0 || !IsWordChar(s[p - 1])
    requires p + 3 == |s| || !IsWordChar(s[p + 3])
    ensures StutterEnd(s, p) == Some(p + 3)
  {
    CaseFoldWordChar(s[p + 2], s[p]);
    assert CaseFoldEq(s[p + 2..p + 3], s[p..p + 1]);
    assert RepAt(s, p, 1, p + 1, 1);
    assert StutterAt(s, p, 1, 1);
    StutterEndFound(s, p, 1, 1);
  }

  /** A position not at the start of a word starts no stutter. */
  lemma NoWordStutter(s: string, p: nat)
    requires p < |s| && !IsWordChar(s[p])
    ensures StutterEnd(s, p) == None
  {
    RunAtExact(s, p, 0, IsWordChar);
  }

  /** A single letter is stutter free. */
  lemma LoneLetter()
    ensures Pass("a") == "a"
  {
    var s := "a";
    RunAtExact(s, 0, 1, IsWordChar);
    RunAtExact(s, 1, 0, IsSpace);
    PassFromNoMatch(s, 0);
  }

  /** One pass over "a a a a" removes two stutters and leaves "a a". */
  lemma PassFourA()
    ensures Pass("a a a a") == "a a"
  {
    var s := "a a a a";
    LetterStutter(s, 0);
    PassFourTail();
    RunAtExact(s, 0, 1, IsWordChar);
    PassFromMatchEq(s, 0);
    assert s[0..1] == "a";
    assert PassFrom(s, 0) == "a" + PassFrom(s, 3);
  }

  lemma PassFourTail()
    ensures PassFrom("a a a a", 3) == " a"
  {
    var s := "a a a a";
    LetterStutter(s, 4);
    NoWordStutter(s, 3);
    RunAtExact(s, 4, 1, IsWordChar);
    PassFromMatchEq(s, 4);
    PassFromNoMatch(s, 3);
    assert s[4..5] == "a";
    assert PassFrom(s, 4) == "a";
  }

  /** The second pass leaves "a". */
  lemma PassTwoA()
    ensures Pass("a a") == "a"
  {
    var s := "a a";
    LetterStutter(s, 0);
    PassFromMatchEq(s, 0);
    assert s[0..1] == "a";
  }

  /** "a a a a" becomes "a": the fixed point needs two passes and the triple pass then finds nothing. */
  lemma FourTimes()
    ensures WordStuttersRemoved("a a a a") == "a"
  {
    PassFourA();
    PassTwoA();
    LoneLetter();
    WordStuttersRemovedSpec("a a a a");
  }
}
