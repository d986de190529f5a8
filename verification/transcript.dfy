/**
 `clean_transcript` of clean-transcript.py and the format test of its `main`.
 */
module Transcript {
  import opened Strings
  import opened Timestamps
  import opened Similarity
  import opened TranscriptText
  import opened TranscriptVtt
  import opened LineStutter
  import opened WordStutter

  /**
   The format test at the top of `main`: the file name ends in ".vtt" in any
   case, or the text starts with "WEBVTT", or it contains "[00:00:".
   */
  predicate IsVtt(filename: string, text: string) {
    EndsWith(LowerStr(filename), ".vtt") || StartsWith(text, "WEBVTT") || Contains(text, "[00:00:")
  }

  /** The file-name test ignores case: a name ending in ".vtt", ".VTT" or any other casing of it counts. */
  lemma IsVttExtension(name: string, ext: string, text: string)
    requires LowerStr(ext) == ".vtt"
    ensures IsVtt(name + ext, text)
  {
    LowerSuffix(name, ext);
  }

  /** The header test does not ignore case: a ".txt" file holding only a lower-case "webvtt" header is a plain transcript. */
  lemma IsVttLowerHeader()
    ensures !IsVtt("talk.txt", "webvtt")
  {
    PlainHeader("talk.txt", "webvtt");
  }

  /** Lower-casing a name lower-cases its suffix. */
  lemma LowerSuffix(name: string, ext: string)
    ensures EndsWith(LowerStr(name + ext), LowerStr(ext))
  {
    var l := LowerStr(name + ext);
    assert l[|name|..] == LowerStr(ext);
  }

  lemma PlainHeader(name: string, t: string)
    requires |name| >= 4 && name[|name| - 2] == 'x' && 0 < |t| < 7 && t[0] == 'w'
    ensures !IsVtt(name, t)
  {
    var l := LowerStr(name);
    assert l[|name| - 4..][2] == l[|name| - 2] == 'x';
    assert !OccursAt(t, "WEBVTT", 0) by {
      if |t| >= 6 {
        assert t[..6][0] == 'w';
      }
    }
  }

  predicate NotLineBreak(c: char) {
    !IsLineBreak(c)
  }

  lemma NoLineBreakAll(s: string)
    ensures NoLineBreak(s) <==> All(s, NotLineBreak)
  {
  }

  /**
   `clean_transcript(raw_text, is_vtt)`. Caption files go through `process_vtt`
   only. Other text is cleaned, then line and word stutters are removed; since
   cleaning leaves a single line, the line pass returns it unchanged.
   */
  method CleanTranscript(raw: string, isVtt: bool) returns (processed: string)
    ensures isVtt ==> processed == ProcessVtt(raw)
    ensures isVtt ==> forall k :: 0 <= k < |SplitLines(processed)| ==> IsCaptionLine(SplitLines(processed)[k])
    ensures !isVtt ==> processed == WordStuttersRemoved(CleanText(raw))
    ensures !isVtt ==> NoLineBreak(processed) && StutterFree(processed, 0)
  {
    if isVtt {
      processed := ProcessVtt(raw);
    } else {
      processed := CleanText(raw);
      var cleaned := processed;
      processed := RemoveLineStuttering(processed, DefaultThreshold);
      assert processed == cleaned;
      processed := RemoveWordStuttering(processed);
      WordStuttersRemovedSpec(cleaned);
      NoLineBreakAll(cleaned);
      CollapseChars(cleaned, NotLineBreak);
      NoLineBreakAll(processed);
    }
  }
}
