/**
 Timestamp shapes shared by both cleaners, and the shape of the caption
 lines they emit.
 */
module Timestamps {
  import opened Strings

  /** `\d{2}:\d{2}:\d{2}` at `s[i..i+8]`: the whole-second clock a caption line starts with. */
  predicate ClockAt(s: string, i: nat) {
    && i + 8 <= |s|
    && IsDigit(s[i]) && IsDigit(s[i + 1]) && s[i + 2] == ':'
    && IsDigit(s[i + 3]) && IsDigit(s[i + 4]) && s[i + 5] == ':'
    && IsDigit(s[i + 6]) && IsDigit(s[i + 7])
  }

  /** `\d{2}:\d{2}:\d{2}\.\d{3}` at `s[i..i+12]`: a cue time with milliseconds. */
  predicate ClockMillisAt(s: string, i: nat) {
    && i + 12 <= |s|
    && ClockAt(s, i)
    && s[i + 8] == '.'
    && IsDigit(s[i + 9]) && IsDigit(s[i + 10]) && IsDigit(s[i + 11])
  }

  /**
   A line either cleaner emits: `HH:MM:SS`, one space, then non-empty text
   that is trimmed and whose only whitespace is the plain space.
   */
  predicate IsCaptionLine(l: string) {
    && |l| >= 10
    && ClockAt(l, 0)
    && l[8] == ' '
    && Trimmed(l[9..])
    && PlainSpaced(l[9..])
  }

  /** A cue time and its cleaned text make a caption line: the milliseconds are dropped. */
  lemma CaptionLineOf(stamp: string, text: string)
    requires ClockMillisAt(stamp, 0)
    requires text != "" && Trimmed(text) && PlainSpaced(text)
    ensures IsCaptionLine(stamp[..8] + " " + text)
  {
    var l := stamp[..8] + " " + text;
    assert l[..8] == stamp[..8];
    assert l[9..] == text;
  }

  lemma CaptionLineIsOneLine(l: string)
    requires IsCaptionLine(l)
    ensures NoLineBreak(l) && l != ""
  {
    forall k | 0 <= k < |l|
      ensures !IsLineBreak(l[k])
    {
      if k >= 9 {
        assert l[k] == l[9..][k - 9];
      }
    }
  }

  /** The output of either cleaner splits back into the caption lines it joined. */
  lemma CaptionLinesRoundTrip(xs: seq<string>)
    requires forall k :: 0 <= k < |xs| ==> IsCaptionLine(xs[k])
    ensures SplitLines(Join(xs, "\n")) == xs
  {
    forall k | 0 <= k < |xs|
      ensures NoLineBreak(xs[k]) && xs[k] != ""
    {
      CaptionLineIsOneLine(xs[k]);
    }
    SplitLinesJoin(xs);
  }
}
