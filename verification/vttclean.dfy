/**
 vttclean.py: a second, simpler caption cleaner. It scans the lines of a
 WebVTT file for cue timing lines `HH:MM:SS.mmm --> HH:MM:SS.mmm`, takes the
 non-blank lines after each one as the cue text, and emits `HH:MM:SS text`.
 */
module VttClean {
  import opened Strings
  import opened Timestamps
  import TranscriptText

  // ---------------------------------------------------------------------------
  // clean_text
  // ---------------------------------------------------------------------------

  /**
   `re.sub(r'<[^>]+>|\s+', ' ', s)`: every tag and every whitespace run
   becomes one space. The tag alternative is tried first at each position.
   */
  function Spaced(s: string): (r: string)
    ensures PlainSpaced(r)
    ensures |r| <= |s|
    decreases |s|
  {
    if |s| == 0 then ""
    else if TranscriptText.TagLen(s) > 0 then " " + Spaced(s[TranscriptText.TagLen(s)..])
    else if IsSpace(s[0]) then " " + Spaced(s[RunAt(s, 0, IsSpace)..])
    else [s[0]] + Spaced(s[1..])
  }

  /** Whitespace-only text becomes a single space, or stays empty. */
  lemma SpacedAllSpace(s: string)
    requires AllSpace(s)
    ensures Spaced(s) == if s == "" then "" else " "
  {
    if |s| > 0 {
      RunAtExact(s, 0, |s|, IsSpace);
      assert s[|s|..] == "";
    }
  }

  /** Text with no tag opener that is already plain and single spaced passes through. */
  lemma {:induction false} SpacedIdentity(s: string)
    requires '<' !in s
    requires PlainSpaced(s) && SingleSpaced(s)
    ensures Spaced(s) == s
    decreases |s|
  {
    if |s| > 0 {
      var t := s[1..];
      assert '<' !in t && PlainSpaced(t) && SingleSpaced(t) by {
        assert forall k :: 0 <= k < |t| ==> t[k] == s[k + 1];
      }
      SpacedIdentity(t);
      SpacedStep(s);
      assert s == [s[0]] + t;
    }
  }

  /** Without a tag opener, the pattern's tag alternative never fires and only whitespace runs are collapsed. */
  lemma {:induction false} SpacedNoTag(s: string)
    requires '<' !in s
    ensures Spaced(s) == CollapseSpace(s)
    decreases |s|
  {
    if |s| > 0 {
      assert s[0] != '<';
      assert TranscriptText.TagLen(s) == 0;
      var n := if IsSpace(s[0]) then RunAt(s, 0, IsSpace) else 1;
      if n < |s| {
        TranscriptText.NotInSuffix(s, n, '<');
      }
      SpacedNoTag(s[n..]);
    }
  }

  /** Outside a tag, a plain character or a lone space is copied. */
  lemma SpacedStep(s: string)
    requires |s| > 0 && s[0] != '<' && PlainSpaced(s) && SingleSpaced(s)
    ensures Spaced(s) == [s[0]] + Spaced(s[1..])
  {
    assert TranscriptText.TagLen(s) == 0;
    if IsSpace(s[0]) {
      if |s| > 1 {
        assert !IsSpace(s[1]);
      }
      RunAtExact(s, 0, 1, IsSpace);
    }
  }

  /** A tag becomes one space: text before the first `<` and text after the tag are spaced on their own. */
  lemma SpacedTag(a: string, x: string, b: string)
    requires '<' !in a
    requires |x| > 0 && '>' !in x
    ensures Spaced(a + "<" + x + ">" + b) == Spaced(a) + " " + Spaced(b)
  {
    var t := "<" + x + ">" + b;
    TranscriptText.TagAt(x, b, t);
    assert a + "<" + x + ">" + b == a + t;
    SpacedSkip(a, t);
  }

  /** A `<` that opens no tag is kept: the text on either side is spaced on its own. */
  lemma SpacedStray(a: string, b: string)
    requires '<' !in a && TranscriptText.TagLen("<" + b) == 0
    ensures Spaced(a + "<" + b) == Spaced(a) + "<" + Spaced(b)
  {
    var t := "<" + b;
    StringAssoc(a, "<", b);
    SpacedStrayHead(t, b);
    SpacedSkip(a, t);
  }

  lemma SpacedStrayHead(t: string, b: string)
    requires t == "<" + b && TranscriptText.TagLen(t) == 0
    ensures Spaced(t) == "<" + Spaced(b)
  {
    assert t[1..] == b;
  }

  /** Before a tag, text without `<` is spaced on its own: a whitespace run cannot reach past the `<`. */
  lemma {:induction false} SpacedSkip(a: string, t: string)
    requires '<' !in a
    requires |t| > 0 && t[0] == '<'
    ensures Spaced(a + t) == Spaced(a) + Spaced(t)
    decreases |a|
  {
    if |a| == 0 {
      assert a + t == t;
    } else {
      var s := a + t;
      var k := if IsSpace(a[0]) then RunAt(a, 0, IsSpace) else 1;
      var h := if IsSpace(a[0]) then " " else [a[0]];
      assert s[0] == a[0];
      if IsSpace(a[0]) {
        RunAtAppend(a, t, IsSpace);
        SpacedSpaceStep(a, k);
        SpacedSpaceStep(s, k);
      } else {
        SpacedCharStep(a);
        SpacedCharStep(s);
      }
      DropAppend(a, t, k);
      SpacedSkip(a[k..], t);
      StringAssoc(h, Spaced(a[k..]), Spaced(t));
    }
  }

  /** A whitespace run outside a tag becomes one space. */
  lemma SpacedSpaceStep(s: string, k: nat)
    requires |s| > 0 && s[0] != '<' && IsSpace(s[0]) && k == RunAt(s, 0, IsSpace)
    ensures Spaced(s) == " " + Spaced(s[k..])
  {
    assert TranscriptText.TagLen(s) == 0;
  }

  /** Any other character outside a tag is copied. */
  lemma SpacedCharStep(s: string)
    requires |s| > 0 && s[0] != '<' && !IsSpace(s[0])
    ensures Spaced(s) == [s[0]] + Spaced(s[1..])
  {
    assert TranscriptText.TagLen(s) == 0;
  }

  lemma DropAppend(a: string, t: string, k: nat)
    requires k <= |a|
    ensures (a + t)[k..] == a[k..] + t
  {
  }

  /** A run that stops at the end of `a` stops there in `a + t` when `t` does not continue it. */
  lemma RunAtAppend(a: string, t: string, p: char -> bool)
    requires |t| > 0 && !p(t[0])
    ensures RunAt(a + t, 0, p) == RunAt(a, 0, p)
  {
    var s := a + t;
    var n := RunAt(a, 0, p);
    forall k | 0 <= k < n
      ensures p(s[k])
    {
      assert s[k] == a[k];
    }
    if n < |a| {
      assert s[n] == a[n];
    } else {
      assert s[n] == t[0];
    }
    RunAtExact(s, 0, n, p);
  }

  /** `clean_text`: tags and whitespace runs become spaces, then the ends are stripped. */
  function CleanText(text: string): (r: string)
    ensures Trimmed(r) && PlainSpaced(r) && NoLineBreak(r)
    ensures |r| <= |text|
  {
    var r := Strip(Spaced(text));
    PlainSpacedIsOneLine(r);
    r
  }

  /** A tag in the cue text turns into a space between the cleaned pieces around it. */
  lemma CleanTextTag(a: string, x: string, b: string)
    requires '<' !in a
    requires |x| > 0 && '>' !in x
    ensures CleanText(a + "<" + x + ">" + b) == Strip(Spaced(a) + " " + Spaced(b))
  {
    SpacedTag(a, x, b);
  }

  /** Whitespace-only input cleans to the empty string. */
  lemma CleanTextBlank(text: string)
    requires AllSpace(text)
    ensures CleanText(text) == ""
  {
    SpacedAllSpace(text);
    assert AllSpace(Spaced(text));
  }

  /** Text that is already clean comes back unchanged. */
  lemma CleanTextClean(s: string)
    requires '<' !in s
    requires Trimmed(s) && PlainSpaced(s) && SingleSpaced(s)
    ensures CleanText(s) == s
  {
    SpacedIdentity(s);
    StripTrimmed(s);
  }

  // ---------------------------------------------------------------------------
  // process_vtt
  // ---------------------------------------------------------------------------

  /**
   `re.match(r'(\d{2}:\d{2}:\d{2})\.(\d{3}) --> (\d{2}:\d{2}:\d{2})\.(\d{3})', line)`:
   the cue timing at the very start of the line; anything may follow it.
   */
  predicate CueStart(line: string) {
    && ClockMillisAt(line, 0)
    && ClockMillisAt(line, 17)
    && line[12] == ' ' && line[13] == '-' && line[14] == '-' && line[15] == '>' && line[16] == ' '
  }

  /** A blank line: `line.strip()` is empty exactly when every character is whitespace. */
  predicate Blank(line: string) {
    AllSpace(line)
  }

  lemma BlankStrip(line: string)
    ensures Strip(line) == "" <==> Blank(line)
  {
  }

  /** The number of leading non-blank lines: the text of a cue. */
  function BodyLen(lines: seq<string>): (n: nat)
    ensures n <= |lines|
    decreases |lines|
  {
    if |lines| == 0 || Blank(lines[0]) then 0 else 1 + BodyLen(lines[1..])
  }

  /** The cue text is exactly the run of non-blank lines: it stops at the first blank line or at the end. */
  lemma {:induction false} BodyLenSpec(lines: seq<string>)
    ensures var n := BodyLen(lines);
            && (forall k :: 0 <= k < n ==> !Blank(lines[k]))
            && (n < |lines| ==> Blank(lines[n]))
    decreases |lines|
  {
    if |lines| > 0 && !Blank(lines[0]) {
      var t := lines[1..];
      BodyLenSpec(t);
      forall k | 0 < k < BodyLen(lines)
        ensures !Blank(lines[k])
      {
        assert lines[k] == t[k - 1];
      }
    }
  }

  /** A body ends where the scanner's inner loop stops. */
  lemma {:induction false} BodyLenExact(lines: seq<string>, n: nat)
    requires n <= |lines|
    requires forall k :: 0 <= k < n ==> !Blank(lines[k])
    requires n == |lines| || Blank(lines[n])
    ensures BodyLen(lines) == n
    decreases n
  {
    if n > 0 {
      var t := lines[1..];
      assert forall k :: 0 <= k < n - 1 ==> t[k] == lines[k + 1];
      BodyLenExact(t, n - 1);
    }
  }

  /** The text of a cue: its lines joined with spaces and cleaned. */
  function CueText(body: seq<string>): (r: string)
    ensures Trimmed(r) && PlainSpaced(r) && NoLineBreak(r)
  {
    CleanText(Join(body, " "))
  }

  /** The caption line of a cue with timing line `start` and caption text `text`, if the text is not empty. */
  function Caption(start: string, text: string): (r: seq<string>)
    requires |start| >= 8
    ensures |r| <= 1
  {
    if text == "" then [] else [start[..8] + " " + text]
  }

  /** A cue yields a caption line stamped with the whole seconds of its start time exactly when its text is not empty. */
  lemma CaptionSpec(start: string, text: string)
    requires CueStart(start) && Trimmed(text) && PlainSpaced(text)
    ensures var r := Caption(start, text);
            && (|r| == 1 <==> text != "")
            && (|r| == 1 ==> IsCaptionLine(r[0]) && r[0][..8] == start[..8] && r[0][9..] == text)
  {
    if text != "" {
      CaptionLineOf(start, text);
      var l := start[..8] + " " + text;
      assert l[..8] == start[..8];
      assert l[9..] == text;
    }
  }

  /**
   The caption lines `process_vtt` collects from `lines`: a cue timing line
   consumes the non-blank lines after it, and `text` turns those into the
   caption text; every other line is skipped.
   */
  function Cues(lines: seq<string>, text: seq<string> -> string): (r: seq<string>)
    decreases |lines|
  {
    if |lines| == 0 then []
    else if !CueStart(lines[0]) then Cues(lines[1..], text)
    else
      var n := BodyLen(lines[1..]);
      Caption(lines[0], text(lines[1..1 + n])) + Cues(lines[1 + n..], text)
  }

  /** A cue timing line first in `lines` yields its caption, and the scan resumes after its text. */
  lemma CuesCueStep(lines: seq<string>, text: seq<string> -> string, head: string, body: seq<string>, rest: seq<string>)
    requires |lines| > 0 && CueStart(lines[0]) && head == lines[0]
    requires body == lines[1..1 + BodyLen(lines[1..])] && rest == lines[1 + BodyLen(lines[1..])..]
    ensures Cues(lines, text) == Caption(head, text(body)) + Cues(rest, text)
  {
  }

  lemma CuesLineStep(lines: seq<string>, text: seq<string> -> string)
    requires |lines| > 0 && !CueStart(lines[0])
    ensures Cues(lines, text) == Cues(lines[1..], text)
  {
  }

  /** The number of cue timing lines in `lines`. */
  function CueCount(lines: seq<string>): (c: nat)
    ensures c <= |lines|
    decreases |lines|
  {
    if |lines| == 0 then 0 else (if CueStart(lines[0]) then 1 else 0) + CueCount(lines[1..])
  }

  lemma {:induction false} CueCountSuffix(lines: seq<string>, j: nat)
    requires j <= |lines|
    ensures CueCount(lines[j..]) <= CueCount(lines)
    decreases j
  {
    if j > 0 {
      assert lines[j..] == lines[1..][j - 1..];
      CueCountSuffix(lines[1..], j - 1);
    }
  }

  /** A caption text cleaner: its results are trimmed, with `' '` as the only whitespace. */
  ghost predicate Cleans(text: seq<string> -> string) {
    forall body :: Trimmed(text(body)) && PlainSpaced(text(body))
  }

  lemma CueTextCleans()
    ensures Cleans(CueText)
  {
  }

  /** There are no more caption lines than cue timing lines. */
  lemma {:induction false} CuesCount(lines: seq<string>, text: seq<string> -> string)
    ensures |Cues(lines, text)| <= CueCount(lines)
    decreases |lines|
  {
    if |lines| > 0 {
      if !CueStart(lines[0]) {
        CuesLineStep(lines, text);
        CuesCount(lines[1..], text);
      } else {
        var n := BodyLen(lines[1..]);
        var rest := lines[1 + n..];
        CuesCueStep(lines, text, lines[0], lines[1..1 + n], rest);
        CuesCount(rest, text);
        assert rest == lines[1..][n..];
        CueCountSuffix(lines[1..], n);
      }
    }
  }

  /** With a cleaner for the text, every emitted line is a caption line. */
  lemma {:induction false} CuesSpec(lines: seq<string>, text: seq<string> -> string)
    requires Cleans(text)
    ensures forall k :: 0 <= k < |Cues(lines, text)| ==> IsCaptionLine(Cues(lines, text)[k])
    decreases |lines|
  {
    if |lines| > 0 {
      if !CueStart(lines[0]) {
        CuesLineStep(lines, text);
        CuesSpec(lines[1..], text);
      } else {
        var n := BodyLen(lines[1..]);
        var rest := lines[1 + n..];
        var t := text(lines[1..1 + n]);
        CuesCueStep(lines, text, lines[0], lines[1..1 + n], rest);
        CaptionSpec(lines[0], t);
        CuesSpec(rest, text);
        CaptionsAppend(Caption(lines[0], t), Cues(rest, text));
      }
    }
  }

  lemma CaptionsAppend(a: seq<string>, b: seq<string>)
    requires forall k :: 0 <= k < |a| ==> IsCaptionLine(a[k])
    requires forall k :: 0 <= k < |b| ==> IsCaptionLine(b[k])
    ensures forall k :: 0 <= k < |a + b| ==> IsCaptionLine((a + b)[k])
  {
    forall k | 0 <= k < |a + b|
      ensures IsCaptionLine((a + b)[k])
    {
      if k < |a| {
        assert (a + b)[k] == a[k];
      } else {
        assert (a + b)[k] == b[k - |a|];
      }
    }
  }

  /** Lines before the first cue timing line (a header, notes, cue ids) contribute nothing. */
  lemma {:induction false} CuesSkip(a: seq<string>, b: seq<string>, text: seq<string> -> string)
    requires forall k :: 0 <= k < |a| ==> !CueStart(a[k])
    ensures Cues(a + b, text) == Cues(b, text)
    decreases |a|
  {
    if |a| > 0 {
      assert (a + b)[1..] == a[1..] + b;
      CuesLineStep(a + b, text);
      CuesSkip(a[1..], b, text);
    } else {
      assert a + b == b;
    }
  }

  /** A text without cue timing lines produces nothing. */
  lemma CuesNone(lines: seq<string>, text: seq<string> -> string)
    requires forall k :: 0 <= k < |lines| ==> !CueStart(lines[k])
    ensures Cues(lines, text) == []
  {
    CuesSkip(lines, [], text);
    assert lines + [] == lines;
  }

  /** A body that stops at a blank line of `a` is not changed by what follows `a`. */
  lemma {:induction false} BodyLenAppend(a: seq<string>, b: seq<string>)
    requires |a| > 0 && Blank(a[|a| - 1])
    ensures BodyLen(a + b) == BodyLen(a) < |a|
    decreases |a|
  {
    if !Blank(a[0]) {
      assert (a + b)[1..] == a[1..] + b;
      BodyLenAppend(a[1..], b);
    }
  }

  /**
   Cues are independent: a part of the file that ends with a blank line
   yields its captions before those of the rest, in order.
   */
  lemma {:induction false} CuesAppend(a: seq<string>, b: seq<string>, text: seq<string> -> string)
    requires |a| > 0 && Blank(a[|a| - 1])
    ensures Cues(a + b, text) == Cues(a, text) + Cues(b, text)
    decreases |a|
  {
    var s := a + b;
    assert s[1..] == a[1..] + b;
    if |a| == 1 {
      BlankNotCue(a[0]);
      CuesLineStep(a, text);
      CuesLineStep(s, text);
      assert a[1..] + b == b;
    } else if !CueStart(a[0]) {
      CuesLineStep(a, text);
      CuesLineStep(s, text);
      CuesAppend(a[1..], b, text);
    } else {
      var n := BodyLen(a[1..]);
      BodyLenAppend(a[1..], b);
      assert s[1..1 + n] == a[1..1 + n];
      assert s[1 + n..] == a[1 + n..] + b;
      CuesCueStep(a, text, a[0], a[1..1 + n], a[1 + n..]);
      CuesCueStep(s, text, a[0], a[1..1 + n], a[1 + n..] + b);
      var tail := a[1 + n..];
      assert tail[|tail| - 1] == a[|a| - 1];
      CuesAppend(tail, b, text);
      var c := Caption(a[0], text(a[1..1 + n]));
      SeqAssoc(c, Cues(tail, text), Cues(b, text));
    }
  }

  lemma SeqAssoc(x: seq<string>, y: seq<string>, z: seq<string>)
    ensures x + (y + z) == (x + y) + z
  {
  }

  /** A cue timing line starts with a digit, so it is never blank. */
  lemma BlankNotCue(line: string)
    requires Blank(line)
    ensures !CueStart(line)
  {
    if |line| >= 12 {
      assert IsSpace(line[0]);
    }
  }

  /** The inner loop of `process_vtt`: collects the lines from `from` up to the next blank line. */
  method CueBody(lines: seq<string>, from: nat) returns (body: seq<string>, end: nat)
    requires from <= |lines|
    ensures from <= end <= |lines|
    ensures body == lines[from..end]
    ensures forall k :: from <= k < end ==> !Blank(lines[k])
    ensures end == |lines| || Blank(lines[end])
  {
    end := from;
    body := [];
    while end < |lines| && !Blank(lines[end])
      invariant from <= end <= |lines|
      invariant body == lines[from..end]
      invariant forall k :: from <= k < end ==> !Blank(lines[k])
      decreases |lines| - end
    {
      body := body + [lines[end]];
      end := end + 1;
    }
  }

  /** `process_vtt`: the lines of the caption text, joined with newlines. */
  method ProcessVtt(content: string) returns (r: string)
    ensures r == Join(Cues(SplitLines(content), CueText), "\n")
    ensures SplitLines(r) == Cues(SplitLines(content), CueText)
  {
    var captions: seq<string> := [];
    var lines := SplitLines(content);
    var i := 0;
    assert lines[0..] == lines;
    while i < |lines|
      invariant 0 <= i <= |lines|
      invariant captions + Cues(lines[i..], CueText) == Cues(lines, CueText)
      decreases |lines| - i
    {
      var line := lines[i];
      if CueStart(line) {
        var start := i;
        var body;
        body, i := CueBody(lines, i + 1);
        var text := CueText(body);
        ghost var before := captions;
        if text != "" {
          captions := captions + [line[..8] + " " + text];
        }
        CueAdvance(lines, start, i, before, captions);
      } else {
        LineAdvance(lines, i, captions);
        i := i + 1;
      }
    }
    CuesDone(lines, captions);
    r := Join(captions, "\n");
    CuesRoundTrip(lines);
  }

  /** Appending the caption of the cue from `start` to `end` keeps the loop invariant of `ProcessVtt`. */
  lemma CueAdvance(lines: seq<string>, start: nat, end: nat, before: seq<string>, after: seq<string>)
    requires start < end <= |lines| && CueStart(lines[start])
    requires forall k :: start + 1 <= k < end ==> !Blank(lines[k])
    requires end == |lines| || Blank(lines[end])
    requires before + Cues(lines[start..], CueText) == Cues(lines, CueText)
    requires after == before + Caption(lines[start], CueText(lines[start + 1..end]))
    ensures after + Cues(lines[end..], CueText) == Cues(lines, CueText)
  {
    CueAt(lines, start, end);
    SeqAssoc(before, Caption(lines[start], CueText(lines[start + 1..end])), Cues(lines[end..], CueText));
  }

  /** Skipping a line that is not a cue timing line keeps the loop invariant of `ProcessVtt`. */
  lemma LineAdvance(lines: seq<string>, i: nat, captions: seq<string>)
    requires i < |lines| && !CueStart(lines[i])
    requires captions + Cues(lines[i..], CueText) == Cues(lines, CueText)
    ensures captions + Cues(lines[i + 1..], CueText) == Cues(lines, CueText)
  {
    CuesLineStep(lines[i..], CueText);
    assert lines[i..][1..] == lines[i + 1..];
  }

  lemma CuesDone(lines: seq<string>, captions: seq<string>)
    requires captions + Cues(lines[|lines|..], CueText) == Cues(lines, CueText)
    ensures captions == Cues(lines, CueText)
  {
    assert lines[|lines|..] == [];
  }

  /** The joined captions split back into the same captions. */
  lemma CuesRoundTrip(lines: seq<string>)
    ensures SplitLines(Join(Cues(lines, CueText), "\n")) == Cues(lines, CueText)
  {
    CueTextCleans();
    CuesSpec(lines, CueText);
    CaptionLinesRoundTrip(Cues(lines, CueText));
  }

  /** The cue opened at `start` and closed at `end` is the first step of `Cues` from `start`. */
  lemma CueAt(lines: seq<string>, start: nat, end: nat)
    requires start < end <= |lines| && CueStart(lines[start])
    requires forall k :: start + 1 <= k < end ==> !Blank(lines[k])
    requires end == |lines| || Blank(lines[end])
    ensures Cues(lines[start..], CueText) == Caption(lines[start], CueText(lines[start + 1..end])) + Cues(lines[end..], CueText)
  {
    var s := lines[start..];
    var n := end - start - 1;
    assert s[1..] == lines[start + 1..];
    assert forall k :: 0 <= k < n ==> s[1..][k] == lines[start + 1 + k];
    BodyLenExact(s[1..], n);
    assert s[1..1 + n] == lines[start + 1..end];
    assert s[1 + n..] == lines[end..];
    CuesCueStep(s, CueText, lines[start], lines[start + 1..end], lines[end..]);
  }
}
