/**
 `process_vtt` of clean-transcript.py: strips the WEBVTT header and NOTE/STYLE
 spans, splits the rest into blank-line separated blocks, and renders each
 block whose first "-->" line starts with `HH:MM:SS.mmm` as `HH:MM:SS text`.
 */
module TranscriptVtt {
  import opened Strings
  import opened Timestamps
  import opened TranscriptText
  import opened Seqs

  const Arrow := "-->"
  const BlankLine := "\n\n"

  predicate IsNewline(c: char) {
    c == '\n'
  }

  // ---------------------------------------------------------------------------
  // Header, NOTE and STYLE removal
  // ---------------------------------------------------------------------------

  /**
   `re.sub(r'^WEBVTT.*?\n\n', '', content, flags=re.DOTALL | re.IGNORECASE)`:
   a header spelled in any case is dropped up to and including the first blank
   line, and only at the very start of the text.
   */
  function StripHeader(content: string): (r: string)
    ensures |r| <= |content| && r == content[|content| - |r|..]
    ensures r != content ==>
              && |content| >= 6 && LowerStr(content[..6]) == "webvtt"
              && var cut := |content| - |r|;
                 cut >= 8 && OccursAt(content, BlankLine, cut - 2)
                 && forall k :: 6 <= k < cut - 2 ==> !OccursAt(content, BlankLine, k)
    ensures |content| >= 6 && LowerStr(content[..6]) == "webvtt" && Find(content, BlankLine, 6).Some? ==>
              r == content[Find(content, BlankLine, 6).value + 2..]
  {
    if |content| >= 6 && LowerStr(content[..6]) == "webvtt" then
      match Find(content, BlankLine, 6)
      case Some(j) => content[j + 2..]
      case None => content
    else
      content
  }

  /**
   `re.sub(key + r'.*?\n\n', '', s, flags=re.DOTALL)`: every span that starts
   with `key`, anywhere in the text, is dropped up to and including the next
   blank line; a `key` with no blank line after it stays.
   */
  function RemoveSpans(s: string, key: string): (r: string)
    requires |key| > 0
    ensures |r| <= |s|
    decreases |s|
  {
    if |s| == 0 then ""
    else if StartsWith(s, key) && Find(s, BlankLine, |key|).Some? then
      RemoveSpans(s[Find(s, BlankLine, |key|).value + 2..], key)
    else
      [s[0]] + RemoveSpans(s[1..], key)
  }

  /** Text in which no span can start before `b` keeps that text and is cleaned from `b` on. */
  lemma {:induction false} RemoveSpansSkip(a: string, b: string, key: string)
    requires |key| > 0
    requires forall p :: 0 <= p < |a| ==> !OccursAt(a + b, key, p)
    ensures RemoveSpans(a + b, key) == a + RemoveSpans(b, key)
    decreases |a|
  {
    if |a| > 0 {
      var t := a[1..];
      NoKeyInTail(a, b, key);
      RemoveSpansSkip(t, b, key);
      RemoveSpansKeep(a + b, key);
      ConsAppend(a, b, RemoveSpans(b, key));
    } else {
      assert a + b == b;
    }
  }

  lemma NoKeyInTail(a: string, b: string, key: string)
    requires |a| > 0
    requires forall p :: 0 <= p < |a| ==> !OccursAt(a + b, key, p)
    ensures forall p :: 0 <= p < |a[1..]| ==> !OccursAt(a[1..] + b, key, p)
  {
    var s := a + b;
    assert s[1..] == a[1..] + b;
    forall p | 0 <= p < |a[1..]|
      ensures !OccursAt(a[1..] + b, key, p)
    {
      assert !OccursAt(s, key, p + 1);
      OccursAtTail(s, key, p);
    }
  }

  lemma ConsAppend(a: string, b: string, r: string)
    requires |a| > 0
    ensures (a + b)[0] == a[0] && (a + b)[1..] == a[1..] + b
    ensures [a[0]] + (a[1..] + r) == a + r
  {
  }

  /** A character where no span starts is kept. */
  lemma RemoveSpansKeep(s: string, key: string)
    requires |key| > 0 && |s| > 0
    requires !OccursAt(s, key, 0)
    ensures RemoveSpans(s, key) == [s[0]] + RemoveSpans(s[1..], key)
  {
    assert !StartsWith(s, key);
  }

  /**
   The first span is cut out: the text before the first `key` is kept, the
   span up to and including the next blank line after it is dropped, and
   removal resumes after that blank line.
   */
  lemma RemoveSpansFirst(s: string, key: string, p: nat, j: nat)
    requires |key| > 0
    requires FirstAt(s, key, 0, p) && FirstAt(s, BlankLine, p + |key|, j)
    ensures RemoveSpans(s, key) == s[..p] + RemoveSpans(s[j + 2..], key)
  {
    RemoveSpansBefore(s, key, p);
    SpanAt(s, key, p, j);
    DropDrop(s, p, j - p + 2);
    SpanDroppedAt(s[p..], key, j - p, s[j + 2..]);
  }

  /** A span at the start of `u`, closed at `j`, is dropped whole. */
  lemma SpanDroppedAt(u: string, key: string, j: nat, v: string)
    requires |key| > 0 && j + 2 <= |u| && u[j + 2..] == v
    requires StartsWith(u, key) && FirstAt(u, BlankLine, |key|, j)
    ensures RemoveSpans(u, key) == RemoveSpans(v, key)
  {
    FindFirstAt(u, BlankLine, |key|, j);
    RemoveSpansAt(u, key, j);
  }

  /** Everything before the first `key` is kept. */
  lemma RemoveSpansBefore(s: string, key: string, p: nat)
    requires |key| > 0 && FirstAt(s, key, 0, p)
    ensures RemoveSpans(s, key) == s[..p] + RemoveSpans(s[p..], key)
  {
    SliceSplitAt(s, p);
    RemoveSpansSkip(s[..p], s[p..], key);
  }

  /** Seen from the first `key`, the blank line after it is at the same place. */
  lemma SpanAt(s: string, key: string, p: nat, j: nat)
    requires |key| > 0
    requires FirstAt(s, key, 0, p) && FirstAt(s, BlankLine, p + |key|, j)
    ensures p <= j && j + 2 <= |s|
    ensures StartsWith(s[p..], key) && FirstAt(s[p..], BlankLine, |key|, j - p)
  {
    FirstAtShift(s, BlankLine, p, |key|, j);
    OccursAtSuffix(s, key, p);
  }

  /** A span at the very start is dropped up to and including its blank line. */
  lemma RemoveSpansAt(u: string, key: string, j: nat)
    requires |key| > 0 && StartsWith(u, key)
    requires Find(u, BlankLine, |key|) == Some(j)
    ensures RemoveSpans(u, key) == RemoveSpans(u[j + 2..], key)
  {
    assert |u| >= |key|;
    assert Find(u, BlankLine, |key|).Some?;
  }

  lemma SliceSplitAt(s: string, p: nat)
    requires p <= |s|
    ensures s == s[..p] + s[p..]
  {
  }

  /** A span with no blank line after it is not removed; nor is anything after it. */
  lemma RemoveSpansUnclosed(s: string, key: string, p: nat)
    requires |key| > 0
    requires FirstAt(s, key, 0, p) && Find(s, BlankLine, p).None?
    ensures RemoveSpans(s, key) == s
  {
    RemoveSpansBefore(s, key, p);
    FindShift(s, BlankLine, p, 0);
    RemoveSpansNoBlank(s[p..], key);
    SliceSplitAt(s, p);
  }

  /** Without a blank line no span can close, so the text is kept. */
  lemma {:induction false} RemoveSpansNoBlank(s: string, key: string)
    requires |key| > 0 && Find(s, BlankLine, 0).None?
    ensures RemoveSpans(s, key) == s
    decreases |s|
  {
    if |s| > 0 {
      if StartsWith(s, key) {
        assert Find(s, BlankLine, |key|).None?;
      }
      FindShift(s, BlankLine, 1, 0);
      RemoveSpansNoBlank(s[1..], key);
      assert s == [s[0]] + s[1..];
    }
  }

  /** Text without `key` passes through unchanged. */
  lemma RemoveSpansAbsent(s: string, key: string)
    requires |key| > 0
    requires !Contains(s, key)
    ensures RemoveSpans(s, key) == s
  {
    assert s + "" == s;
    RemoveSpansSkip(s, "", key);
  }

  // ---------------------------------------------------------------------------
  // Blocks
  // ---------------------------------------------------------------------------

  /** `re.split(r'\n\n+', s)`: the pieces between runs of two or more newlines. */
  function SplitBlocks(s: string): (r: seq<string>)
    ensures |r| > 0
    decreases |s|
  {
    match Find(s, BlankLine, 0)
    case None => [s]
    case Some(i) =>
      var e := i + RunAt(s, i, IsNewline);
      [s[..i]] + SplitBlocks(s[e..])
  }

  /** A block that can sit between two blank lines without changing the split. */
  predicate IsBlockText(b: string) {
    b != "" && b[0] != '\n' && b[|b| - 1] != '\n' && !Contains(b, BlankLine)
  }

  /** A piece that ends exactly where a run of newlines after it starts: no blank line inside, no newline at its end. */
  predicate UnbrokenBlock(a: string) {
    !Contains(a, BlankLine) && (a == "" || a[|a| - 1] != '\n')
  }

  lemma FindBlankLineAfter(a: string, rest: string)
    requires UnbrokenBlock(a)
    ensures Find(a + BlankLine + rest, BlankLine, 0) == Some(|a|)
  {
    var s := a + BlankLine + rest;
    assert OccursAt(s, BlankLine, |a|);
    forall k | 0 <= k < |a|
      ensures !OccursAt(s, BlankLine, k)
    {
      NoBlankLineInBlock(a, rest, k);
    }
    match Find(s, BlankLine, 0)
    case None =>
    case Some(i) =>
      assert i == |a|;
  }

  lemma NoBlankLineInBlock(a: string, rest: string, k: nat)
    requires UnbrokenBlock(a) && k < |a|
    ensures !OccursAt(a + BlankLine + rest, BlankLine, k)
  {
    var s := a + BlankLine + rest;
    if k + 2 <= |a| {
      assert s[k..k + 2] == a[k..k + 2];
      if a[k..k + 2] == BlankLine {
        ContainsAt(a, BlankLine, k);
      }
    } else {
      assert s[k] == a[|a| - 1] != '\n';
      assert s[k..k + 2][0] == s[k];
    }
  }

  /** Round trip: blocks joined by blank lines split back into the same blocks. */
  lemma {:induction false} SplitBlocksJoin(bs: seq<string>)
    requires |bs| > 0
    requires forall k :: 0 <= k < |bs| ==> IsBlockText(bs[k])
    ensures SplitBlocks(Join(bs, BlankLine)) == bs
    decreases |bs|
  {
    if |bs| == 1 {
      SplitBlocksLast(bs[0]);
    } else {
      var rest := Join(bs[1..], BlankLine);
      assert Join(bs, BlankLine) == bs[0] + BlankLine + rest;
      JoinStartsWith(bs[1..]);
      SplitBlocksCons(bs[0], rest);
      SplitBlocksJoin(bs[1..]);
      assert bs == [bs[0]] + bs[1..];
    }
  }

  /** A block followed by a blank line and more text splits off as the first block. */
  lemma SplitBlocksCons(a: string, rest: string)
    requires IsBlockText(a)
    requires |rest| > 0 && rest[0] != '\n'
    ensures SplitBlocks(a + BlankLine + rest) == [a] + SplitBlocks(rest)
  {
    var s := a + BlankLine + rest;
    var n := |a|;
    FindBlankLineAfter(a, rest);
    RunAtExact(s, n, 2, IsNewline);
    assert s[n + 2..] == rest;
    assert s[..n] == a;
  }

  /** Text without a blank line is one block: the last block of every split. */
  lemma SplitBlocksLast(a: string)
    requires !Contains(a, BlankLine)
    ensures SplitBlocks(a) == [a]
  {
    match Find(a, BlankLine, 0)
    case None =>
    case Some(i) =>
      ContainsAt(a, BlankLine, i);
  }

  /**
   `\n\n+` takes the whole newline run: a piece followed by two or more
   newlines splits off as the first block, and splitting goes on after the run.
   */
  lemma SplitBlocksRun(a: string, w: string, rest: string)
    requires UnbrokenBlock(a)
    requires |w| >= 2 && All(w, IsNewline)
    requires rest == "" || rest[0] != '\n'
    ensures SplitBlocks(a + w + rest) == [a] + SplitBlocks(rest)
  {
    var s := a + w + rest;
    var n := |a|;
    RunStartsBlankLine(a, w, rest, s);
    FindBlankLineAfter(a, w[2..] + rest);
    NewlineRunAt(a, w, rest, s);
    RunAtExact(s, n, |w|, IsNewline);
    assert s[n + |w|..] == rest;
    assert s[..n] == a;
  }

  lemma RunStartsBlankLine(a: string, w: string, rest: string, s: string)
    requires s == a + w + rest && |w| >= 2 && All(w, IsNewline)
    ensures s == a + BlankLine + (w[2..] + rest)
  {
    assert w == BlankLine + w[2..];
    StringAssoc(a, w, rest);
    StringAssoc(BlankLine, w[2..], rest);
    StringAssoc(a, BlankLine, w[2..] + rest);
  }

  lemma NewlineRunAt(a: string, w: string, rest: string, s: string)
    requires s == a + w + rest && All(w, IsNewline)
    requires rest == "" || rest[0] != '\n'
    ensures forall k :: |a| <= k < |a| + |w| ==> IsNewline(s[k])
    ensures |a| + |w| == |s| || !IsNewline(s[|a| + |w|])
  {
    forall k | |a| <= k < |a| + |w|
      ensures IsNewline(s[k])
    {
      assert s[k] == w[k - |a|];
    }
    if |a| + |w| < |s| {
      assert s[|a| + |w|] == rest[0];
    }
  }

  lemma JoinStartsWith(bs: seq<string>)
    requires |bs| > 0 && IsBlockText(bs[0])
    ensures var j := Join(bs, BlankLine); |j| > 0 && j[0] == bs[0][0]
  {
  }

  // ---------------------------------------------------------------------------
  // One block
  // ---------------------------------------------------------------------------

  /** Index of the first line that contains "-->". */
  function FirstArrowLine(lines: seq<string>): (r: Option<nat>)
    ensures r.Some? ==> r.value < |lines| && Contains(lines[r.value], Arrow)
    ensures r.Some? ==> forall k :: 0 <= k < r.value ==> !Contains(lines[k], Arrow)
    ensures r.None? ==> forall k :: 0 <= k < |lines| ==> !Contains(lines[k], Arrow)
  {
    if |lines| == 0 then None
    else if Contains(lines[0], Arrow) then Some(0)
    else
      match FirstArrowLine(lines[1..])
      case None => None
      case Some(i) => Some(i + 1)
  }

  /** `re.match(r'(\d{2}:\d{2}:\d{2})\.\d{3}\s*-->', line)`. */
  predicate StartTimeLine(line: string) {
    ClockMillisAt(line, 0) && StartsWith(line[12 + RunAt(line, 12, IsSpace)..], Arrow)
  }

  /**
   The caption line of one block, if any. Only the first "-->" line is looked
   at; its text is every later line of the block. (The source also skips a
   block whose bracket-stripped "-->" line is empty, which cannot happen.)
   */
  function BlockCaption(block: string): (r: Option<string>)
    ensures r.Some? ==> IsCaptionLine(r.value)
  {
    var lines := Split(Strip(block), '\n');
    match FirstArrowLine(lines)
    case None => None
    case Some(i) =>
      var stamp := StripBrackets(lines[i]);
      if !StartTimeLine(stamp) then None
      else
        var text := CleanText(Strip(Join(lines[i + 1..], " ")));
        if text == "" then None
        else
          CaptionLineOf(stamp, text);
          Some(stamp[..8] + " " + text)
  }

  /** A block without "-->" anywhere yields no caption. */
  lemma BlockCaptionNoArrow(block: string)
    requires !Contains(block, Arrow)
    ensures BlockCaption(block).None?
  {
    var lines := Split(Strip(block), '\n');
    match FirstArrowLine(lines)
    case None =>
    case Some(i) =>
      ContainsJoin(lines, "\n", i, Arrow);
      ContainsStrip(block, Arrow);
  }

  /**
   A block whose lines are `head`, then the first "-->" line `line`, then
   `body`: the stamp comes from `line` alone and the text from `body` alone.
   A malformed `line` drops the block even when a later line of `body` is a
   well-formed "-->" line.
   */
  lemma BlockCaptionOf(head: seq<string>, line: string, body: seq<string>, block: string)
    requires forall k :: 0 <= k < |head| ==> '\n' !in head[k] && !Contains(head[k], Arrow)
    requires '\n' !in line && Contains(line, Arrow)
    requires forall k :: 0 <= k < |body| ==> '\n' !in body[k]
    requires Strip(block) == Join(head + [line] + body, "\n")
    ensures var stamp := StripBrackets(line);
            var text := CleanText(Strip(Join(body, " ")));
            StartTimeLine(stamp) && text != "" ==> BlockCaption(block) == Some(stamp[..8] + " " + text)
    ensures !StartTimeLine(StripBrackets(line)) ==> BlockCaption(block).None?
    ensures CleanText(Strip(Join(body, " "))) == "" ==> BlockCaption(block).None?
  {
    BlockLines(head, line, body, block);
  }

  lemma BlockLines(head: seq<string>, line: string, body: seq<string>, block: string)
    requires forall k :: 0 <= k < |head| ==> '\n' !in head[k] && !Contains(head[k], Arrow)
    requires '\n' !in line && Contains(line, Arrow)
    requires forall k :: 0 <= k < |body| ==> '\n' !in body[k]
    requires Strip(block) == Join(head + [line] + body, "\n")
    ensures var lines := Split(Strip(block), '\n');
            && FirstArrowLine(lines) == Some(|head|)
            && lines[|head|] == line && lines[|head| + 1..] == body
  {
    ThreeParts(head, line, body, head + [line] + body);
    NoNewlineParts(head, line, body, head + [line] + body);
    SplitJoin(head + [line] + body, '\n');
    FirstArrowLineAt(head + [line] + body, |head|);
  }

  lemma NoNewlineParts(head: seq<string>, line: string, body: seq<string>, lines: seq<string>)
    requires forall k :: 0 <= k < |head| ==> '\n' !in head[k]
    requires '\n' !in line
    requires forall k :: 0 <= k < |body| ==> '\n' !in body[k]
    requires lines == head + [line] + body
    ensures forall k :: 0 <= k < |lines| ==> '\n' !in lines[k]
  {
    ThreeParts(head, line, body, lines);
  }

  lemma ThreeParts(head: seq<string>, line: string, body: seq<string>, lines: seq<string>)
    requires lines == head + [line] + body
    ensures |lines| == |head| + 1 + |body| && lines[|head|] == line && lines[|head| + 1..] == body
    ensures forall k :: 0 <= k < |head| ==> lines[k] == head[k]
    ensures forall k :: |head| < k < |lines| ==> lines[k] == body[k - |head| - 1]
  {
  }

  lemma FirstArrowLineAt(lines: seq<string>, i: nat)
    requires i < |lines| && Contains(lines[i], Arrow)
    requires forall k :: 0 <= k < i ==> !Contains(lines[k], Arrow)
    ensures FirstArrowLine(lines) == Some(i)
  {
  }

  /** The caption lines of a sequence of blocks, in block order. */
  function Captions(blocks: seq<string>): (r: seq<string>)
    ensures |r| <= |blocks|
    ensures forall k :: 0 <= k < |r| ==> IsCaptionLine(r[k])
  {
    FilterMapAll(blocks, BlockCaption, IsCaptionLine);
    FilterMap(blocks, BlockCaption)
  }

  /** Blocks are independent: the captions of two runs of blocks are the captions of each, in order. */
  lemma CaptionsConcat(a: seq<string>, b: seq<string>)
    ensures Captions(a + b) == Captions(a) + Captions(b)
  {
    FilterMapConcat(a, b, BlockCaption);
  }

  // ---------------------------------------------------------------------------
  // process_vtt
  // ---------------------------------------------------------------------------

  /** The text left once header, NOTE and STYLE spans are removed, stripped. */
  function Body(content: string): string {
    Strip(RemoveSpans(RemoveSpans(StripHeader(content), "NOTE"), "STYLE"))
  }

  /** The caption lines `process_vtt` produces. */
  function ProcessVttLines(content: string): (r: seq<string>)
    ensures forall k :: 0 <= k < |r| ==> IsCaptionLine(r[k])
    ensures |r| <= |SplitBlocks(Body(content))|
  {
    Captions(SplitBlocks(Body(content)))
  }

  /** `process_vtt`: the caption lines joined with newlines; splitting the result gives them back. */
  function ProcessVtt(content: string): (r: string)
    ensures SplitLines(r) == ProcessVttLines(content)
  {
    var lines := ProcessVttLines(content);
    CaptionLinesRoundTrip(lines);
    Join(lines, "\n")
  }


  /**
   A file written as a "WEBVTT" line, a blank line and caption blocks
   separated by blank lines yields, in order, the caption line of each block
   that has one; the header is dropped and the blocks are cut back exactly.
   */
  lemma ProcessVttOfBlocks(blocks: seq<string>)
    requires |blocks| > 0
    requires forall k :: 0 <= k < |blocks| ==> IsBlockText(blocks[k]) && Trimmed(blocks[k])
    requires !Contains(Join(blocks, BlankLine), "NOTE") && !Contains(Join(blocks, BlankLine), "STYLE")
    ensures ProcessVttLines("WEBVTT" + BlankLine + Join(blocks, BlankLine)) == Captions(blocks)
    ensures ProcessVtt("WEBVTT" + BlankLine + Join(blocks, BlankLine)) == Join(Captions(blocks), "\n")
  {
    BodyOfBlocks(blocks, Join(blocks, BlankLine));
    SplitBlocksJoin(blocks);
  }

  lemma BodyOfBlocks(blocks: seq<string>, text: string)
    requires |blocks| > 0
    requires forall k :: 0 <= k < |blocks| ==> IsBlockText(blocks[k]) && Trimmed(blocks[k])
    requires text == Join(blocks, BlankLine)
    requires !Contains(text, "NOTE") && !Contains(text, "STYLE")
    ensures Body("WEBVTT" + BlankLine + text) == text
  {
    HeaderStripped(text);
    RemoveSpansAbsent(text, "NOTE");
    RemoveSpansAbsent(text, "STYLE");
    JoinTrimmed(blocks);
    StripTrimmed(text);
  }

  /** A "WEBVTT" line followed at once by a blank line is the whole header. */
  lemma HeaderStripped(text: string)
    ensures StripHeader("WEBVTT" + BlankLine + text) == text
  {
    var content := "WEBVTT" + BlankLine + text;
    assert content[..6] == "WEBVTT";
    assert LowerStr("WEBVTT") == "webvtt";
    assert content[6..8] == BlankLine;
    FindFirstAt(content, BlankLine, 6, 6);
    assert content[8..] == text;
  }

  /** Trimmed blocks joined by blank lines give trimmed text. */
  lemma JoinTrimmed(bs: seq<string>)
    requires |bs| > 0
    requires forall k :: 0 <= k < |bs| ==> IsBlockText(bs[k]) && Trimmed(bs[k])
    ensures Trimmed(Join(bs, BlankLine))
  {
    JoinStartsWith(bs);
    JoinEndsWith(bs);
  }

  lemma {:induction false} JoinEndsWith(bs: seq<string>)
    requires |bs| > 0
    requires forall k :: 0 <= k < |bs| ==> IsBlockText(bs[k])
    ensures var j := Join(bs, BlankLine); var b := bs[|bs| - 1];
            |b| > 0 && |j| > 0 && j[|j| - 1] == b[|b| - 1]
    decreases |bs|
  {
    if |bs| > 1 {
      JoinCons(bs, BlankLine);
      JoinEndsWith(bs[1..]);
      assert bs[1..][|bs| - 2] == bs[|bs| - 1];
    }
  }
}
