/**
 * `split_lines` (segmenter.rb:389-411): the text is cut at carriage returns,
 * every non-empty line is analysed, and every segment is turned into
 * sentences: a segment of fewer than two characters or made only of a run of
 * three or more underscores is dropped; otherwise its ellipses are reinserted
 * and long whitespace runs collapsed, and it is cut once more after a
 * quotation that ends a sentence before a capital, or else has its line feeds
 * removed and is stripped. Empty sentences are dropped at the end.
 */
module Sentences {
  import opened Chars
  import opened Rewrite
  import opened Outcomes
  import opened Symbols
  import opened Split
  import opened Lines

  /** `s.split(sep)` keeping every piece; the empty ones are skipped by the caller. */
  function SplitOn(s: string, sep: char): (ps: seq<string>)
    ensures |ps| > 0
    ensures forall m :: 0 <= m < |ps| ==> sep !in ps[m]
    decreases |s|
  {
    FirstOfIsFirst(s, 0, sep);
    match FirstOf(s, 0, sep)
    case None => [s]
    case Some(j) => [s[..j]] + SplitOn(s[j + 1..], sep)
  }

  /** The pieces joined with `sep` between each two. */
  function JoinWith(ps: seq<string>, sep: char): string {
    if ps == [] then []
    else if |ps| == 1 then ps[0]
    else ps[0] + [sep] + JoinWith(ps[1..], sep)
  }

  /** Cutting at a separator and joining with it gives the text back. */
  lemma {:induction false} SplitOnJoins(s: string, sep: char)
    ensures JoinWith(SplitOn(s, sep), sep) == s
    decreases |s|
  {
    match FirstOf(s, 0, sep)
    case None =>
    case Some(j) =>
      var rest := SplitOn(s[j + 1..], sep);
      SplitOnJoins(s[j + 1..], sep);
      assert SplitOn(s, sep) == [s[..j]] + rest;
      assert s == s[..j] + [sep] + s[j + 1..];
  }

  /**
   * The loop of `split_lines` over the lines (segmenter.rb:391-395), up to a
   * prefix of them: empty lines are skipped, and an unknown profile constant
   * stops the run.
   */
  function LinesSegments(lines: seq<string>, language: string): (r: Result<seq<string>>)
    decreases |lines|
  {
    if lines == [] then Ok([])
    else match LinesSegments(lines[..|lines| - 1], language)
      case WrongConstantName(name) => WrongConstantName(name)
      case Ok(segs) =>
        var l := lines[|lines| - 1];
        if l == [] then Ok(segs)
        else match LineSegments(l, language)
          case WrongConstantName(name) => WrongConstantName(name)
          case Ok(more) => Ok(segs + more)
  }

  function IsUnderscore(c: char): bool {
    c == '_'
  }

  /** `[!?\.][\"\'\“]\s{1}[A-Z]` with its whitespace at `k`. */
  predicate QuoteBoundaryAt(l: string, k: nat) {
    2 <= k && k + 1 < |l| && l[k - 2] in {'!', '?', '.'} && l[k - 1] in {'"', '\'', '“'}
    && IsSpace(l[k]) && IsUpper(l[k + 1])
  }

  predicate HasQuoteBoundary(l: string) {
    exists k :: 0 <= k < |l| && QuoteBoundaryAt(l, k)
  }

  /**
   * `l.split(/(?<=[!?\.][\"\'\“])\s{1}(?=[A-Z])/)` from `i` on, the current
   * piece having started at `start`: the single whitespace at each boundary
   * is dropped and the text between boundaries kept.
   */
  function QuoteSplitFrom(l: string, start: nat, i: nat): (ps: seq<string>)
    requires start <= i <= |l|
    ensures |ps| > 0
    decreases |l| - i
  {
    if i == |l| then [l[start..]]
    else if QuoteBoundaryAt(l, i) then [l[start..i]] + QuoteSplitFrom(l, i + 1, i + 1)
    else QuoteSplitFrom(l, start, i + 1)
  }

  /**
   * When the whitespace at every boundary is a space, the quote split is undone
   * by joining its pieces with spaces.
   */
  lemma {:induction false} QuoteSplitJoins(l: string, start: nat, i: nat)
    requires start <= i <= |l|
    requires forall k :: i <= k < |l| && QuoteBoundaryAt(l, k) ==> l[k] == ' '
    ensures JoinWith(QuoteSplitFrom(l, start, i), ' ') == l[start..]
    decreases |l| - i
  {
    if i == |l| {
    } else if QuoteBoundaryAt(l, i) {
      var rest := QuoteSplitFrom(l, i + 1, i + 1);
      QuoteSplitJoins(l, i + 1, i + 1);
      assert QuoteSplitFrom(l, start, i) == [l[start..i]] + rest;
      assert l[start..] == l[start..i] + [l[i]] + l[i + 1..];
    } else {
      QuoteSplitJoins(l, start, i + 1);
    }
  }

  /** The sentences one segment turns into (segmenter.rb:397-409). */
  function SegmentSentences(seg: string): seq<string> {
    if ReplaceRuns(seg, IsUnderscore, 3, "") == [] || |seg| < 2 then []
    else
      var l := ReplaceRuns(ReinsertEllipsis(seg), IsSpace, 3, " ");
      if HasQuoteBoundary(l) then QuoteSplitFrom(l, 0, 0)
      else [Strip(ReplaceChar(l, '\n', ""))]
  }

  /**
   * A segment gives no sentence exactly when it is shorter than two
   * characters or is one run of three or more underscores; any other segment
   * gives at least one.
   */
  lemma SegmentDroppedIff(seg: string)
    ensures SegmentSentences(seg) == [] <==>
              |seg| < 2 || (|seg| >= 3 && forall k :: 0 <= k < |seg| ==> seg[k] == '_')
  {
    DeleteRunsEmpty(seg, 0, IsUnderscore, 3);
  }

  /** The body of the loop of `split_lines` over the segments, statement by statement. */
  method SentencesOfSegment(seg: string) returns (ss: seq<string>)
    ensures ss == SegmentSentences(seg)
  {
    if ReplaceRuns(seg, IsUnderscore, 3, "") == [] || |seg| < 2 {
      return [];
    }
    var line := ReinsertEllipsisInLine(seg);
    line := ReplaceRuns(line, IsSpace, 3, " ");
    if HasQuoteBoundary(line) {
      ss := QuoteSplitFrom(line, 0, 0);
    } else {
      ss := [Strip(ReplaceChar(line, '\n', ""))];
    }
  }

  /** The sentences of the first segments, in order. */
  function AllSentences(segs: seq<string>): seq<string>
    decreases |segs|
  {
    if segs == [] then [] else AllSentences(segs[..|segs| - 1]) + SegmentSentences(segs[|segs| - 1])
  }

  /** The loop of `split_lines` over the lines: `analyze_lines` on each non-empty one. */
  method SegmentsOfLines(lines: seq<string>, language: string) returns (r: Result<seq<string>>)
    ensures r == LinesSegments(lines, language)
  {
    var segments: seq<string> := [];
    for i := 0 to |lines|
      invariant LinesSegments(lines[..i], language) == Ok(segments)
    {
      LinesSegmentsStep(lines, i, language, segments);
      if lines[i] != [] {
        var next := AnalyzeLine(lines[i], language, segments);
        if next.WrongConstantName? {
          LinesStopAtError(lines, i + 1, language);
          assert lines[..|lines|] == lines;
          return WrongConstantName(next.name);
        }
        segments := next.value;
      }
    }
    assert lines[..|lines|] == lines;
    r := Ok(segments);
  }

  /** One more line: skipped when empty, otherwise its segments appended or its error returned. */
  lemma LinesSegmentsStep(lines: seq<string>, i: nat, language: string, segs: seq<string>)
    requires i < |lines| && LinesSegments(lines[..i], language) == Ok(segs)
    ensures lines[i] == [] ==> LinesSegments(lines[..i + 1], language) == Ok(segs)
    ensures lines[i] != [] && LineSegments(lines[i], language).WrongConstantName? ==>
              LinesSegments(lines[..i + 1], language) == LineSegments(lines[i], language)
    ensures lines[i] != [] && LineSegments(lines[i], language).Ok? ==>
              LinesSegments(lines[..i + 1], language) == Ok(segs + LineSegments(lines[i], language).value)
  {
    assert lines[..i + 1][..i] == lines[..i];
  }

  /** An error on one line is the error of every longer prefix of the lines. */
  lemma {:induction false} LinesStopAtError(lines: seq<string>, i: nat, language: string)
    requires 0 < i <= |lines| && LinesSegments(lines[..i], language).WrongConstantName?
    ensures LinesSegments(lines, language) == LinesSegments(lines[..i], language)
    decreases |lines| - i
  {
    if i < |lines| {
      assert lines[..i + 1][..i] == lines[..i];
      LinesStopAtError(lines, i + 1, language);
    } else {
      assert lines[..i] == lines;
    }
  }

  /** The loop of `split_lines` over the segments. */
  method SentencesOfSegments(segments: seq<string>) returns (sentenceArray: seq<string>)
    ensures sentenceArray == AllSentences(segments)
  {
    sentenceArray := [];
    for i := 0 to |segments|
      invariant sentenceArray == AllSentences(segments[..i])
    {
      assert segments[..i + 1][..i] == segments[..i];
      var ss := SentencesOfSegment(segments[i]);
      sentenceArray := sentenceArray + ss;
    }
    assert segments[..|segments|] == segments;
  }

  /** `reject(&:empty?)`: the non-empty sentences, in order. */
  function RejectEmpty(ss: seq<string>): (r: seq<string>)
    ensures forall m :: 0 <= m < |r| ==> r[m] != []
    ensures forall x :: x in r <==> x in ss && x != []
    ensures |r| <= |ss|
  {
    if ss == [] then []
    else if ss[0] == [] then RejectEmpty(ss[1..])
    else [ss[0]] + RejectEmpty(ss[1..])
  }

  /** Rejecting keeps the order: the sentences of a concatenation are the concatenation of the sentences. */
  lemma {:induction false} RejectEmptyAppend(a: seq<string>, b: seq<string>)
    ensures RejectEmpty(a + b) == RejectEmpty(a) + RejectEmpty(b)
    decreases |a|
  {
    if a != [] {
      assert (a + b)[1..] == a[1..] + b;
      RejectEmptyAppend(a[1..], b);
    } else {
      assert a + b == b;
    }
  }

  /** Rejecting keeps each non-empty sentence as many times as it occurs, and no empty one. */
  lemma {:induction false} RejectEmptyCounts(ss: seq<string>, x: string)
    ensures multiset(RejectEmpty(ss))[x] == if x == [] then 0 else multiset(ss)[x]
    decreases |ss|
  {
    if ss != [] {
      RejectEmptyCounts(ss[1..], x);
      assert ss == [ss[0]] + ss[1..];
    }
  }

  /** Where no sentence is empty, rejecting changes nothing. */
  lemma {:induction false} RejectEmptyKeepsNonEmpty(ss: seq<string>)
    requires forall m :: 0 <= m < |ss| ==> ss[m] != []
    ensures RejectEmpty(ss) == ss
    decreases |ss|
  {
    if ss != [] {
      RejectEmptyKeepsNonEmpty(ss[1..]);
      assert ss == [ss[0]] + ss[1..];
    }
  }

  /** `split_lines` on the text as the text-wide passes leave it. */
  function SplitLines(text: string, language: string): (r: Result<seq<string>>)
    ensures r.Ok? ==> forall m :: 0 <= m < |r.value| ==> r.value[m] != []
  {
    match LinesSegments(SplitOn(text, '\r'), language)
    case WrongConstantName(name) => WrongConstantName(name)
    case Ok(segs) => Ok(RejectEmpty(AllSentences(segs)))
  }

  /** Every sentence comes from some segment. */
  lemma {:induction false} SentenceHasSegment(segs: seq<string>, x: string)
    requires x in AllSentences(segs)
    ensures exists m :: 0 <= m < |segs| && x in SegmentSentences(segs[m])
    decreases |segs|
  {
    var last := |segs| - 1;
    if x in SegmentSentences(segs[last]) {
    } else {
      SentenceHasSegment(segs[..last], x);
      var m :| 0 <= m < last && x in SegmentSentences(segs[..last][m]);
      assert segs[..last][m] == segs[m];
    }
  }
}
