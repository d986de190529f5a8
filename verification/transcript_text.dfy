/**
 Text normalisation of clean-transcript.py: `clean_text` and `is_prefix`.

 `clean_text` is a chain of regular-expression substitutions; each one is
 written here as a leftmost, non-overlapping scan.
 */
module TranscriptText {
  import opened Strings
  import opened Timestamps

  // ---------------------------------------------------------------------------
  // <[^>]+>  ->  ''
  // ---------------------------------------------------------------------------

  /** Length of the `<[^>]+>` tag at the start of `s`, or 0 when no tag starts there. */
  function TagLen(s: string): (n: nat)
    ensures n == 0 || (3 <= n <= |s| && s[0] == '<' && s[n - 1] == '>' && '>' !in s[1..n - 1])
    ensures n == 0 && |s| > 0 && s[0] == '<' ==> '>' !in s[1..] || s[1] == '>'
  {
    if |s| > 0 && s[0] == '<' then
      var j := IndexOf(s[1..], '>');
      if 0 < j < |s| - 1 then
        assert s[1..j + 1] == s[1..][..j];
        j + 2
      else
        0
    else
      0
  }

  /** Completeness: a `<`, at least one character other than `>`, then `>` is the tag found at the start. */
  lemma TagFound(s: string, n: nat)
    requires 3 <= n <= |s| && s[0] == '<' && s[n - 1] == '>'
    requires forall k :: 1 <= k < n - 1 ==> s[k] != '>'
    ensures TagLen(s) == n
  {
    assert s[1..][n - 2] == '>';
  }

  /** `re.sub(r'<[^>]+>', '', s)`. */
  function RemoveTags(s: string): (r: string)
    ensures |r| <= |s|
    decreases |s|
  {
    if |s| == 0 then ""
    else if TagLen(s) > 0 then RemoveTags(s[TagLen(s)..])
    else [s[0]] + RemoveTags(s[1..])
  }

  lemma {:induction false} RemoveTagsNoTag(s: string)
    requires '<' !in s
    ensures RemoveTags(s) == s
    decreases |s|
  {
    if |s| > 0 {
      RemoveTagsNoTag(s[1..]);
      assert s == [s[0]] + s[1..];
    }
  }

  /** Text before the first `<` is copied, and removal goes on after it. */
  lemma {:induction false} RemoveTagsSkip(a: string, b: string)
    requires '<' !in a
    ensures RemoveTags(a + b) == a + RemoveTags(b)
    decreases |a|
  {
    if |a| > 0 {
      var s := a + b;
      assert s[0] == a[0] && s[1..] == a[1..] + b;
      RemoveTagsSkip(a[1..], b);
      assert a == [a[0]] + a[1..];
    } else {
      assert a + b == b;
    }
  }

  /** A tag is removed: the text before the first tag is kept, and removal resumes after the tag. */
  lemma RemoveTagsSplice(a: string, x: string, b: string)
    requires '<' !in a
    requires |x| > 0 && '>' !in x
    ensures RemoveTags(a + "<" + x + ">" + b) == a + RemoveTags(b)
  {
    var t := "<" + x + ">" + b;
    TagAt(x, b, t);
    assert a + "<" + x + ">" + b == a + t;
    RemoveTagsSkip(a, t);
  }

  /** A `<` that opens no tag (as in "1 < 2" or "<>") is kept, and removal goes on after it. */
  lemma RemoveTagsStray(a: string, b: string)
    requires '<' !in a && TagLen("<" + b) == 0
    ensures RemoveTags(a + "<" + b) == a + "<" + RemoveTags(b)
  {
    var t := "<" + b;
    StringAssoc(a, "<", b);
    RemoveTagsStrayHead(t, b);
    RemoveTagsSkip(a, t);
    StringAssoc(a, "<", RemoveTags(b));
  }

  lemma RemoveTagsStrayHead(t: string, b: string)
    requires t == "<" + b && TagLen(t) == 0
    ensures RemoveTags(t) == "<" + RemoveTags(b)
  {
    assert t[1..] == b;
  }

  /** The tag `<x>` in front of `b` is found and ends where `b` starts. */
  lemma TagAt(x: string, b: string, t: string)
    requires |x| > 0 && '>' !in x
    requires t == "<" + x + ">" + b
    ensures TagLen(t) == |x| + 2 && t[|x| + 2..] == b
  {
    forall k | 1 <= k < |x| + 1
      ensures t[k] != '>'
    {
      assert t[k] == x[k - 1];
    }
    TagFound(t, |x| + 2);
  }

  // ---------------------------------------------------------------------------
  // ^\w+:\s+(\[\d{2}:\d{2}:\d{2}\.\d{3} --> \d{2}:\d{2}:\d{2}\.\d{3}\])  ->  \1
  // ---------------------------------------------------------------------------

  /** `[HH:MM:SS.mmm --> HH:MM:SS.mmm]` starts at `s[i]` (31 characters). */
  predicate BracketedRangeAt(s: string, i: nat) {
    && i + 31 <= |s|
    && s[i] == '['
    && ClockMillisAt(s, i + 1)
    && s[i + 13..i + 18] == " --> "
    && ClockMillisAt(s, i + 18)
    && s[i + 30] == ']'
  }

  /**
   Length of a speaker label `word:` and the whitespace after it when a
   bracketed time range follows them at the very start of `s`; 0 otherwise.
   */
  function SpeakerPrefixLen(s: string): (n: nat)
    ensures n <= |s|
    ensures n > 0 ==> BracketedRangeAt(s, n) && IsWordChar(s[0]) && IsSpace(s[n - 1])
  {
    var w := RunAt(s, 0, IsWordChar);
    if w > 0 && w < |s| && s[w] == ':' then
      var m := RunAt(s, w + 1, IsSpace);
      if m > 0 && BracketedRangeAt(s, w + 1 + m) then w + 1 + m else 0
    else
      0
  }

  /**
   `s` starts with a speaker label of `w` word characters, a colon, and `m`
   whitespace characters, followed by a bracketed time range.
   */
  predicate SpeakerLabel(s: string, w: nat, m: nat) {
    && 0 < w && 0 < m && w + 1 + m <= |s|
    && (forall k :: 0 <= k < w ==> IsWordChar(s[k]))
    && s[w] == ':'
    && (forall k :: w + 1 <= k < w + 1 + m ==> IsSpace(s[k]))
    && BracketedRangeAt(s, w + 1 + m)
  }

  /**
   The regular expression has exactly one way to match: `\w+` must stop at
   the colon and `\s+` at the `[`. So a label of any shape is found, and it
   is removed in full.
   */
  lemma SpeakerPrefixFound(s: string, w: nat, m: nat)
    requires SpeakerLabel(s, w, m)
    ensures SpeakerPrefixLen(s) == w + 1 + m
  {
    RunAtExact(s, 0, w, IsWordChar);
    RunAtExact(s, w + 1, m, IsSpace);
  }

  /** Soundness: whatever is removed is such a label. */
  lemma SpeakerPrefixSound(s: string)
    requires SpeakerPrefixLen(s) > 0
    ensures var w := RunAt(s, 0, IsWordChar);
            SpeakerLabel(s, w, SpeakerPrefixLen(s) - 1 - w)
  {
  }

  /** The label depends only on the characters it covers and the time range after it. */
  lemma SpeakerLabelPrefix(s: string, t: string, w: nat, m: nat)
    requires SpeakerLabel(s, w, m)
    requires w + m + 32 <= |t| && t[..w + m + 32] == s[..w + m + 32]
    ensures SpeakerLabel(t, w, m)
  {
    forall k | 0 <= k < w + m + 32
      ensures t[k] == s[k]
    {
      assert t[k] == t[..w + m + 32][k];
    }
    assert t[w + 1 + m + 13..w + 1 + m + 18] == s[w + 1 + m + 13..w + 1 + m + 18];
  }

  // ---------------------------------------------------------------------------
  // &[a-zA-Z]+;  ->  ' '
  // ---------------------------------------------------------------------------

  /** Length of the `&[a-zA-Z]+;` entity at the start of `s`, or 0. */
  function EntityLen(s: string): (n: nat)
    ensures n == 0 || (3 <= n <= |s| && s[0] == '&' && s[n - 1] == ';')
    ensures forall k :: 1 <= k < n - 1 ==> IsLetter(s[k])
  {
    if |s| > 0 && s[0] == '&' then
      var n := RunAt(s, 1, IsLetter);
      if n > 0 && 1 + n < |s| && s[1 + n] == ';' then n + 2 else 0
    else
      0
  }

  /** Completeness: `&`, one or more ASCII letters and `;` is the entity found at the start. */
  lemma EntityFound(s: string, n: nat)
    requires 3 <= n <= |s| && s[0] == '&' && s[n - 1] == ';'
    requires forall k :: 1 <= k < n - 1 ==> IsLetter(s[k])
    ensures EntityLen(s) == n
  {
    RunAtExact(s, 1, n - 2, IsLetter);
  }

  /** `re.sub(r'&[a-zA-Z]+;', ' ', s)`. */
  function ReplaceEntities(s: string): (r: string)
    ensures PlainSpaced(s) ==> PlainSpaced(r)
    ensures |r| <= |s|
    decreases |s|
  {
    if |s| == 0 then ""
    else if EntityLen(s) > 0 then " " + ReplaceEntities(s[EntityLen(s)..])
    else [s[0]] + ReplaceEntities(s[1..])
  }

  lemma {:induction false} ReplaceEntitiesNoEntity(s: string)
    requires '&' !in s
    ensures ReplaceEntities(s) == s
    decreases |s|
  {
    if |s| > 0 {
      ReplaceEntitiesNoEntity(s[1..]);
      assert s == [s[0]] + s[1..];
    }
  }

  /** Text before the first `&` is copied, and replacement goes on after it. */
  lemma {:induction false} ReplaceEntitiesSkip(a: string, b: string)
    requires '&' !in a
    ensures ReplaceEntities(a + b) == a + ReplaceEntities(b)
    decreases |a|
  {
    if |a| > 0 {
      var s := a + b;
      assert s[0] == a[0] && s[1..] == a[1..] + b;
      ReplaceEntitiesSkip(a[1..], b);
      assert a == [a[0]] + a[1..];
    } else {
      assert a + b == b;
    }
  }

  /** An entity becomes one space: the text before it is kept, and replacement resumes after it. */
  lemma ReplaceEntitiesSplice(a: string, x: string, b: string)
    requires '&' !in a
    requires |x| > 0 && forall k :: 0 <= k < |x| ==> IsLetter(x[k])
    ensures ReplaceEntities(a + "&" + x + ";" + b) == a + " " + ReplaceEntities(b)
  {
    var t := "&" + x + ";" + b;
    EntityAt(x, b, t);
    assert a + "&" + x + ";" + b == a + t;
    ReplaceEntitiesSkip(a, t);
  }

  /** An `&` that opens no entity (as in "AT&T") is kept, and replacement goes on after it. */
  lemma ReplaceEntitiesStray(a: string, b: string)
    requires '&' !in a && EntityLen("&" + b) == 0
    ensures ReplaceEntities(a + "&" + b) == a + "&" + ReplaceEntities(b)
  {
    var t := "&" + b;
    StringAssoc(a, "&", b);
    ReplaceEntitiesStrayHead(t, b);
    ReplaceEntitiesSkip(a, t);
    StringAssoc(a, "&", ReplaceEntities(b));
  }

  lemma ReplaceEntitiesStrayHead(t: string, b: string)
    requires t == "&" + b && EntityLen(t) == 0
    ensures ReplaceEntities(t) == "&" + ReplaceEntities(b)
  {
    assert t[1..] == b;
  }

  lemma EntityAt(x: string, b: string, t: string)
    requires |x| > 0 && forall k :: 0 <= k < |x| ==> IsLetter(x[k])
    requires t == "&" + x + ";" + b
    ensures EntityLen(t) == |x| + 2 && t[|x| + 2..] == b
  {
    forall k | 1 <= k < |x| + 1
      ensures IsLetter(t[k])
    {
      assert t[k] == x[k - 1];
    }
    EntityFound(t, |x| + 2);
  }

  // ---------------------------------------------------------------------------
  // clean_text
  // ---------------------------------------------------------------------------

  /** The first two substitutions of `clean_text`: tags removed, then a speaker label in front of a time range. */
  function Unlabelled(text: string): string {
    var untagged := RemoveTags(text);
    untagged[SpeakerPrefixLen(untagged)..]
  }

  /**
   `clean_text`: drop tags, drop a speaker label in front of a bracketed time
   range, drop leading whitespace, collapse whitespace runs, turn entities into
   spaces, strip.
   */
  function CleanText(text: string): (r: string)
    ensures Trimmed(r)
    ensures PlainSpaced(r)
    ensures NoLineBreak(r)
    ensures |r| <= |text|
  {
    var collapsed := CollapseSpace(LStrip(Unlabelled(text)));
    var r := Strip(ReplaceEntities(collapsed));
    PlainSpacedIsOneLine(r);
    r
  }

  /**
   Nothing else changes: on text with no tag opener, no entity opener and no
   speaker label, `clean_text` only collapses whitespace runs and trims.
   */
  lemma CleanTextPlain(s: string)
    requires '<' !in s && '&' !in s
    requires SpeakerPrefixLen(s) == 0
    ensures CleanText(s) == Strip(CollapseSpace(s))
  {
    RemoveTagsNoTag(s);
    assert Unlabelled(s) == s;
    var l := LStrip(s);
    assert '&' !in l by {
      assert l == s[|s| - |l|..];
    }
    CollapseSpaceNoNew(l, '&');
    ReplaceEntitiesNoEntity(CollapseSpace(l));
    CollapseLStrip(s);
  }

  /**
   The words of plain text survive cleaning: two words with any whitespace run
   between them (a newline, a tab, several spaces) come out as the two words
   and one space.
   */
  lemma CleanTextWords(a: string, w: string, b: string)
    requires a != "" && NoSpace(a) && b != "" && NoSpace(b)
    requires |w| > 0 && AllSpace(w)
    requires '<' !in a + w + b && '&' !in a + w + b
    requires SpeakerPrefixLen(a + w + b) == 0
    ensures CleanText(a + w + b) == a + " " + b
  {
    CleanTextPlain(a + w + b);
    CollapseSpaceRun(a, w, b);
    CollapseSpaceNoSpace(b);
    WordsTrimmed(a, b);
  }

  lemma WordsTrimmed(a: string, b: string)
    requires a != "" && NoSpace(a) && b != "" && NoSpace(b)
    ensures Strip(a + " " + b) == a + " " + b
  {
    var s := a + " " + b;
    assert s[0] == a[0] && s[|s| - 1] == b[|b| - 1];
    StripTrimmed(s);
  }

  /** A tag before which no other `<` occurs is dropped without a trace: cleaning the text without it gives the same result. */
  lemma CleanTextDropsTag(a: string, x: string, b: string)
    requires '<' !in a
    requires |x| > 0 && '>' !in x
    ensures CleanText(a + "<" + x + ">" + b) == CleanText(a + b)
  {
    RemoveTagsSplice(a, x, b);
    RemoveTagsSkip(a, b);
  }

  /**
   A speaker label in front of a bracketed time range is dropped: cleaning
   the text gives what cleaning it from the `[` on gives.
   */
  lemma CleanTextDropsLabel(s: string, w: nat, m: nat)
    requires SpeakerLabel(s, w, m)
    ensures CleanText(s) == CleanText(s[w + 1 + m..])
  {
    LabelUntaggable(s, w, m);
    var n := w + 1 + m;
    var p := s[..n + 31];
    var t := s[n + 31..];
    SliceSplit(s, n, n + 31);
    UnlabelledDropsLabel(s, w, m, p, t, s[w + 1 + m..]);
    CleanTextCongruent(s, s[w + 1 + m..]);
  }

  /** A speaker label and the time range after it hold no `<`, so tag removal leaves them alone. */
  lemma LabelUntaggable(s: string, w: nat, m: nat)
    requires SpeakerLabel(s, w, m)
    ensures '<' !in s[..w + m + 32]
  {
    var n := w + 1 + m;
    RangeUntaggable(s, n);
    var p := s[..w + m + 32];
    forall k | 0 <= k < |p|
      ensures p[k] != '<'
    {
      assert p[k] == s[k];
    }
  }

  lemma RangeUntaggable(s: string, i: nat)
    requires BracketedRangeAt(s, i)
    ensures forall k :: i <= k < i + 31 ==> s[k] != '<'
  {
    ClockUntaggable(s, i + 1);
    ClockUntaggable(s, i + 18);
    forall k | i + 13 <= k < i + 18
      ensures s[k] != '<'
    {
      assert s[k] == s[i + 13..i + 18][k - i - 13];
    }
  }

  lemma ClockUntaggable(s: string, i: nat)
    requires ClockMillisAt(s, i)
    ensures forall k :: i <= k < i + 12 ==> s[k] != '<'
  {
  }

  lemma SliceSplit(s: string, i: nat, j: nat)
    requires i <= j <= |s|
    ensures s[i..] == s[..j][i..] + s[j..]
  {
  }

  lemma UnlabelledDropsLabel(s: string, w: nat, m: nat, p: string, t: string, v: string)
    requires SpeakerLabel(s, w, m)
    requires p == s[..w + m + 32] && t == s[w + m + 32..] && '<' !in p
    requires v == p[w + 1 + m..] + t
    ensures Unlabelled(s) == Unlabelled(v)
  {
    LabelUntagged(s, w, m, p, t);
    LabelBracket(s, w, m, p);
    AfterLabel(s, v, p, t, w + 1 + m);
  }

  /** The time range after a label opens with `[`, inside the label's prefix. */
  lemma LabelBracket(s: string, w: nat, m: nat, p: string)
    requires SpeakerLabel(s, w, m) && p == s[..w + m + 32]
    ensures w + 1 + m < |p| && p[w + 1 + m] == '['
  {
  }

  /** Once the label is found, what is left of the text is what is left of the text from the `[` on. */
  lemma AfterLabel(s: string, v: string, p: string, t: string, n: nat)
    requires n < |p| && '<' !in p && p[n] == '['
    requires v == p[n..] + t
    requires RemoveTags(s) == p + RemoveTags(t) && SpeakerPrefixLen(p + RemoveTags(t)) == n
    ensures Unlabelled(s) == Unlabelled(v)
  {
    NotInSuffix(p, n, '<');
    RangeUntagged(v, p[n..], t);
    UnlabelledEq(s, v, p, RemoveTags(t), n);
  }

  lemma UnlabelledEq(s: string, v: string, p: string, r: string, n: nat)
    requires n <= |p|
    requires RemoveTags(s) == p + r && SpeakerPrefixLen(p + r) == n
    requires RemoveTags(v) == p[n..] + r && SpeakerPrefixLen(p[n..] + r) == 0
    ensures Unlabelled(s) == Unlabelled(v)
  {
    UnlabelledIs(s, p + r, n);
    UnlabelledIs(v, p[n..] + r, 0);
    DropConcat(p, r, n);
  }

  lemma NotInSuffix(p: string, n: nat, c: char)
    requires n < |p| && c !in p
    ensures c !in p[n..] && p[n..][0] == p[n]
  {
    forall k | 0 <= k < |p[n..]|
      ensures p[n..][k] != c
    {
      assert p[n..][k] == p[n + k];
    }
  }

  lemma UnlabelledIs(text: string, u: string, k: nat)
    requires u == RemoveTags(text) && SpeakerPrefixLen(u) == k
    ensures Unlabelled(text) == u[k..]
  {
  }

  /** `clean_text` sees its input only through the first two substitutions. */
  lemma CleanTextCongruent(a: string, b: string)
    requires Unlabelled(a) == Unlabelled(b)
    ensures CleanText(a) == CleanText(b)
  {
  }

  lemma DropConcat(p: string, x: string, n: nat)
    requires n <= |p|
    ensures (p + x)[n..] == p[n..] + x
    ensures (p[n..] + x)[0..] == p[n..] + x
  {
  }

  /** Tag removal keeps a label and its time range, so the label is still found. */
  lemma LabelUntagged(s: string, w: nat, m: nat, p: string, t: string)
    requires SpeakerLabel(s, w, m)
    requires p == s[..w + m + 32] && t == s[w + m + 32..] && '<' !in p
    ensures |p| == w + m + 32
    ensures RemoveTags(s) == p + RemoveTags(t)
    ensures SpeakerPrefixLen(p + RemoveTags(t)) == w + 1 + m
  {
    assert s == p + t;
    RemoveTagsSkip(p, t);
    var u := RemoveTags(s);
    assert u[..w + m + 32] == s[..w + m + 32];
    SpeakerLabelPrefix(s, u, w, m);
    SpeakerPrefixFound(u, w, m);
  }

  /** Text that starts with `[` has no speaker label; tag removal keeps a `<`-free start. */
  lemma RangeUntagged(v: string, p: string, t: string)
    requires v == p + t && '<' !in p && |p| > 0 && p[0] == '['
    ensures RemoveTags(v) == p + RemoveTags(t)
    ensures SpeakerPrefixLen(p + RemoveTags(t)) == 0
  {
    RemoveTagsSkip(p, t);
    RunAtExact(RemoveTags(v), 0, 0, IsWordChar);
  }

  /** Collapsing after dropping leading whitespace strips to the same text. */
  lemma CollapseLStrip(s: string)
    ensures Strip(CollapseSpace(LStrip(s))) == Strip(CollapseSpace(s))
  {
    if |s| > 0 && IsSpace(s[0]) {
      var n := RunAt(s, 0, IsSpace);
      assert LStrip(s) == s[n..];
      assert CollapseSpace(s) == " " + CollapseSpace(s[n..]);
      StripLeadingSpace(' ', CollapseSpace(s[n..]));
    }
  }

  /** Text that is already clean comes back unchanged. */
  lemma CleanTextClean(s: string)
    requires '<' !in s && '&' !in s
    requires SpeakerPrefixLen(s) == 0
    requires Trimmed(s) && PlainSpaced(s) && SingleSpaced(s)
    ensures CleanText(s) == s
  {
    CleanTextPlain(s);
    CollapseSpaceIdentity(s);
    StripTrimmed(s);
  }

  // ---------------------------------------------------------------------------
  // is_prefix
  // ---------------------------------------------------------------------------

  /** `b.startswith(a)`, compared character by character. */
  predicate IsPrefix(a: string, b: string)
    decreases |a|
  {
    |a| == 0 || (|b| > 0 && a[0] == b[0] && IsPrefix(a[1..], b[1..]))
  }

  lemma {:induction false} IsPrefixIff(a: string, b: string)
    ensures IsPrefix(a, b) <==> |a| <= |b| && b[..|a|] == a
    decreases |a|
  {
    if |a| > 0 && |b| > 0 {
      IsPrefixIff(a[1..], b[1..]);
      if |a| <= |b| {
        assert b[..|a|] == [b[0]] + b[1..][..|a| - 1];
        assert a == [a[0]] + a[1..];
      }
    }
  }

  /** The empty string is a prefix of everything, and every string of itself. */
  lemma {:induction false} IsPrefixReflexive(a: string, b: string)
    ensures IsPrefix("", b)
    ensures IsPrefix(a, a)
  {
    IsPrefixIff(a, a);
  }

  lemma {:induction false} IsPrefixTransitive(a: string, b: string, c: string)
    requires IsPrefix(a, b) && IsPrefix(b, c)
    ensures IsPrefix(a, c)
  {
    IsPrefixIff(a, b);
    IsPrefixIff(b, c);
    IsPrefixIff(a, c);
    assert c[..|a|] == c[..|b|][..|a|];
  }
}
