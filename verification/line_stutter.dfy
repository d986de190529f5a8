/**
 `remove_line_stuttering` of clean-transcript.py: a line is dropped when it is
 similar to the last line kept so far, unless it carries the speaker-turn marker.
 */
module LineStutter {
  import opened Strings
  import opened Similarity

  const SpeakerTurn := "[SPEAKER_TURN]"

  predicate HasTurn(line: string) {
    Contains(line, SpeakerTurn)
  }

  /**
   The similarity test of the source as a function value: the ratio of the two
   stripped lines reaches `th`. The deduplication is stated for any such test.
   */
  function SimilarAt(th: Threshold): (string, string) -> bool {
    (prev, line) => Similar(Strip(prev), Strip(line), th)
  }

  /** Whether `line` is kept when `prev` is the last line kept before it. */
  predicate Keeps(prev: string, line: string, similar: (string, string) -> bool) {
    HasTurn(line) || !similar(prev, line)
  }

  /** The lines kept, deciding each line in turn against the last line kept before it. */
  function Dedup(lines: seq<string>, similar: (string, string) -> bool): (r: seq<string>)
    ensures |r| <= |lines|
    decreases |lines|
  {
    if |lines| == 0 then []
    else
      var d := Dedup(lines[..|lines| - 1], similar);
      var line := lines[|lines| - 1];
      if |d| == 0 || Keeps(d[|d| - 1], line, similar) then d + [line] else d
  }

  /** One more line is appended exactly when it is kept against the last line kept. */
  lemma DedupSnoc(lines: seq<string>, line: string, similar: (string, string) -> bool)
    ensures var d := Dedup(lines, similar);
            Dedup(lines + [line], similar) == if |d| == 0 || Keeps(d[|d| - 1], line, similar) then d + [line] else d
  {
    var s := lines + [line];
    assert s[..|s| - 1] == lines;
    assert s[|s| - 1] == line;
    var d := Dedup(lines, similar);
    assert Dedup(s, similar) == if |d| == 0 || Keeps(d[|d| - 1], line, similar) then d + [line] else d;
  }

  /** `a` is `b` with some elements left out. */
  predicate IsSubsequence(a: seq<string>, b: seq<string>)
    decreases |b|
  {
    |a| == 0 ||
    (|b| > 0 &&
     ((a[|a| - 1] == b[|b| - 1] && IsSubsequence(a[..|a| - 1], b[..|b| - 1]))
      || IsSubsequence(a, b[..|b| - 1])))
  }

  /** The lines of `xs` that carry the speaker-turn marker, in order. */
  function TurnLines(xs: seq<string>): (r: seq<string>)
    ensures forall k :: 0 <= k < |r| ==> HasTurn(r[k])
    decreases |xs|
  {
    if |xs| == 0 then []
    else
      var last := xs[|xs| - 1];
      TurnLines(xs[..|xs| - 1]) + (if HasTurn(last) then [last] else [])
  }

  // ---------------------------------------------------------------------------
  // Properties of the deduplication
  // ---------------------------------------------------------------------------

  /** The first line is always kept. */
  lemma {:induction false} DedupFirst(lines: seq<string>, similar: (string, string) -> bool)
    requires |lines| > 0
    ensures |Dedup(lines, similar)| > 0 && Dedup(lines, similar)[0] == lines[0]
    decreases |lines|
  {
    var init := lines[..|lines| - 1];
    if |init| > 0 {
      DedupFirst(init, similar);
      assert init[0] == lines[0];
    }
  }

  /** Nothing is invented or reordered: the result is the input with lines left out. */
  lemma {:induction false} DedupSubsequence(lines: seq<string>, similar: (string, string) -> bool)
    ensures IsSubsequence(Dedup(lines, similar), lines)
    decreases |lines|
  {
    if |lines| > 0 {
      var init := lines[..|lines| - 1];
      var d := Dedup(init, similar);
      DedupSubsequence(init, similar);
      var r := Dedup(lines, similar);
      if r == d + [lines[|lines| - 1]] {
        assert r[..|r| - 1] == d;
      } else {
        assert r == d;
        SubsequenceOfPrefix(d, lines);
      }
    }
  }

  lemma SubsequenceOfPrefix(a: seq<string>, b: seq<string>)
    requires |b| > 0 && IsSubsequence(a, b[..|b| - 1])
    ensures IsSubsequence(a, b)
  {
  }

  /** Speaker turns survive: the marked lines of the result are exactly those of the input. */
  lemma {:induction false} DedupKeepsTurns(lines: seq<string>, similar: (string, string) -> bool)
    ensures TurnLines(Dedup(lines, similar)) == TurnLines(lines)
    decreases |lines|
  {
    if |lines| > 0 {
      var init := lines[..|lines| - 1];
      var line := lines[|lines| - 1];
      var d := Dedup(init, similar);
      DedupKeepsTurns(init, similar);
      if |d| == 0 || Keeps(d[|d| - 1], line, similar) {
        assert (d + [line])[..|d|] == d;
      }
    }
  }

  /** Every line of `xs` after the first is kept against the line just before it. */
  predicate Chained(xs: seq<string>, similar: (string, string) -> bool) {
    forall k :: 0 < k < |xs| ==> Keeps(xs[k - 1], xs[k], similar)
  }

  /** Each kept line is kept against the line kept just before it. */
  lemma {:induction false} DedupAdjacent(lines: seq<string>, similar: (string, string) -> bool)
    ensures Chained(Dedup(lines, similar), similar)
    decreases |lines|
  {
    if |lines| > 0 {
      var init := lines[..|lines| - 1];
      var line := lines[|lines| - 1];
      var d := Dedup(init, similar);
      DedupAdjacent(init, similar);
      if |d| == 0 || Keeps(d[|d| - 1], line, similar) {
        var r := d + [line];
        forall k | 0 < k < |r|
          ensures Keeps(r[k - 1], r[k], similar)
        {
          if k < |d| {
            assert r[k - 1] == d[k - 1] && r[k] == d[k];
          } else {
            assert r[k - 1] == d[|d| - 1] && r[k] == line;
          }
        }
      }
    }
  }

  /** The input comes back unchanged exactly when every line is kept against the one before it. */
  lemma {:induction false} DedupIdentity(lines: seq<string>, similar: (string, string) -> bool)
    ensures Dedup(lines, similar) == lines <==> Chained(lines, similar)
    decreases |lines|
  {
    if Chained(lines, similar) {
      if |lines| > 0 {
        var init := lines[..|lines| - 1];
        DedupIdentity(init, similar);
        assert Dedup(init, similar) == init;
        assert lines == init + [lines[|lines| - 1]];
      }
    } else {
      DedupAdjacent(lines, similar);
    }
  }

  /** Deduplicating twice removes nothing more. */
  lemma DedupIdempotent(lines: seq<string>, similar: (string, string) -> bool)
    ensures Dedup(Dedup(lines, similar), similar) == Dedup(lines, similar)
  {
    DedupAdjacent(lines, similar);
    DedupIdentity(Dedup(lines, similar), similar);
  }

  /**
   An incremental caption update, a line followed by the same line with a
   short tail, keeps only the first line when the ratio 2|a| / (2|a| + |t|)
   reaches the threshold.
   */
  lemma ExtensionDeduplicated(a: string, t: string, th: Threshold)
    requires |a| + |t| > 0
    requires Trimmed(a) && Trimmed(a + t) && !HasTurn(a + t)
    requires 2 * |a| * th.den >= th.num * (2 * |a| + |t|)
    ensures Dedup([a, a + t], SimilarAt(th)) == [a]
  {
    var similar := SimilarAt(th);
    assert similar(a, a + t) by {
      StripTrimmed(a);
      StripTrimmed(a + t);
      ExtensionSimilar(a, t, th);
    }
    assert !Keeps(a, a + t, similar);
    assert Dedup([a], similar) == [a] by {
      assert [a][..0] == [];
    }
    assert [a, a + t][..1] == [a];
  }

  // ---------------------------------------------------------------------------
  // remove_line_stuttering
  // ---------------------------------------------------------------------------

  /**
   The loop of `remove_line_stuttering`: each line is appended unless nothing
   is kept yet, it carries no speaker turn, and it is similar to the last line kept.
   */
  method DedupLines(lines: seq<string>, similar: (string, string) -> bool) returns (deduped: seq<string>)
    ensures deduped == Dedup(lines, similar)
  {
    deduped := [];
    for i := 0 to |lines|
      invariant deduped == Dedup(lines[..i], similar)
    {
      var line := lines[i];
      assert lines[..i + 1] == lines[..i] + [line];
      DedupSnoc(lines[..i], line, similar);
      if |deduped| == 0 {
        deduped := deduped + [line];
      } else {
        var prev := deduped[|deduped| - 1];
        if HasTurn(line) {
          deduped := deduped + [line];
        } else if similar(prev, line) {
        } else {
          deduped := deduped + [line];
        }
      }
    }
    assert lines[..|lines|] == lines;
  }

  /**
   `remove_line_stuttering(transcript, similarity_threshold)`: split into lines,
   keep the lines `Dedup` keeps, join them with "\n". A single line comes back as it is.
   */
  method RemoveLineStuttering(transcript: string, th: Threshold) returns (r: string)
    ensures r == Join(Dedup(SplitLines(transcript), SimilarAt(th)), "\n")
    ensures NoLineBreak(transcript) ==> r == transcript
  {
    var lines := SplitLines(transcript);
    var deduped := DedupLines(lines, SimilarAt(th));
    r := Join(deduped, "\n");
    if NoLineBreak(transcript) {
      SplitLinesOneLine(transcript);
      if transcript != "" {
        assert [transcript][..0] == [];
      }
    }
  }
}
