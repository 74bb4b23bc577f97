/**
 * `analyze_lines` (segmenter.rb:160-256): one line of the text, free of
 * carriage returns, becomes the segments it contributes. The line's line feeds,
 * ellipses and email periods are shielded; if no terminal mark of the
 * language's profile is left, the whole line is one segment; otherwise the
 * line gets a synthetic end mark when it lacks one, its spans and compound
 * marks are shielded, and it is split and each piece decoded.
 */
module Lines {
  import opened Chars
  import opened Rewrite
  import opened Outcomes
  import opened Profiles
  import opened Symbols
  import opened Ellipsis
  import opened LineShields
  import opened Spans
  import opened Split

  /** No character of `s` is in `bad`. */
  predicate Avoids(s: string, bad: set<char>) {
    forall k :: 0 <= k < |s| ==> s[k] !in bad
  }

  /** The sentinels that no step before the split writes: the ones `sub_symbols` decodes besides ∯ and ȹ. */
  const SplitSentinels: set<char> := {'♬', '♭', 'ᓰ', 'ᓱ', 'ᓳ', 'ᓴ', 'ᓷ', 'ᓸ', '☉', '☈', '☇', '☄', 'ȸ'}

  /** The line with its line feeds, ellipses and email periods shielded (segmenter.rb:161-165). */
  function Prepared(line: string): (r: string)
    ensures line != [] ==> r != []
  {
    ShieldEmails(ReplaceEllipsis(ShieldNewlines(line)))
  }

  /**
   * No line feed is left after the preparation, and it writes none of the
   * sentinels of `bad` when the line has none (`bad` must not contain what the
   * preparation writes).
   */
  lemma PreparedAvoids(line: string, bad: set<char>)
    requires bad !! {'ȹ', '♟', '♝', 'ƪ', '☏', '.', '∮'}
    requires Avoids(line, bad - {'\n'})
    ensures Avoids(Prepared(line), bad + {'\n'})
  {
    var l1 := ShieldNewlines(line);
    var p := (c: char) => c !in bad + {'\n'};
    assert forall k :: 0 <= k < |l1| ==> p(l1[k]);
    ReplaceEllipsisKeepsClass(l1, p);
    var l2 := ReplaceEllipsis(l1);
    var l3 := ShieldEmails(l2);
    forall k | 0 <= k < |l3| ensures l3[k] !in bad + {'\n'} {
      assert EmailShield(l2[k], l3[k]);
      assert p(l2[k]);
    }
  }

  /** On a line without sentinels whose only whitespace is spaces and line feeds, decoding undoes the preparation. */
  lemma PreparedDecodes(line: string)
    requires SentinelFree(line) && PlainSpaced(line)
    ensures Restore(Prepared(line)) == line
  {
    var l1 := ShieldNewlines(line);
    ShieldNewlinesKeepsRestore(line);
    RestoreSentinelFree(line);
    assert OnlySpaces(l1) by {
      forall k | 0 <= k < |l1| && IsSpace(l1[k]) ensures l1[k] == ' ' {
        assert l1[k] == line[k];
      }
    }
    ReplaceEllipsisKeepsDecoding(l1, Restored);
  }

  /** `clause_1`: one of the profile's marks occurs in the line. */
  predicate HasMark(line: string, punct: seq<char>) {
    exists k :: 0 <= k < |line| && line[k] in punct
  }

  /**
   * `line << 'ȸ' unless end_punc_check || ar || fa`: a line that does not end
   * in one of its marks gets the synthetic mark ȸ, except in Arabic and
   * Persian. Either way the line then ends in a mark of its profile or in ȸ
   * (Arabic and Persian aside), and decodes as before.
   */
  function WithEndMark(line: string, punct: seq<char>, language: string): (r: string)
    requires line != []
    ensures r == line || r == line + "ȸ"
    ensures r == line + "ȸ" <==> line[|line| - 1] !in punct && language != "ar" && language != "fa"
    ensures language != "ar" && language != "fa" ==> r[|r| - 1] in punct || r[|r| - 1] == 'ȸ'
    ensures Restore(r) == Restore(line)
  {
    RestoreAppend(line, "ȸ");
    assert Restore("ȸ") == Restored('ȸ') + Restore([]);
    if line[|line| - 1] in punct || language == "ar" || language == "fa" then line else line + "ȸ"
  }

  /**
   * The shields put on a line with a mark before it is split
   * (segmenter.rb:195-248): the spans, the compound marks, and then by
   * language the Arabic/Persian colons and commas or, in the default branch,
   * the emphasis marks. Decoding undoes them all.
   */
  function ShieldForSplit(line: string, language: string): (r: string)
    ensures Restore(r) == Restore(line)
  {
    var l1 := ShieldSpans(line, language);
    MarksShieldedKeepsRestore(line, l1);
    var l2 := ShieldCompounds(l1);
    if language == "ar" || language == "fa" then ShieldArabic(l2)
    else if SplitClass(language).Some? then l2
    else
      var l3 := ShieldEmphasis(l2);
      MarksShieldedKeepsRestore(l2, l3);
      l3
  }

  /** The line a split sees has no line feed, so `.` in the scans matches every character of it. */
  lemma SplitInputHasNoLineFeed(line: string, punct: seq<char>, language: string)
    requires line != []
    ensures Avoids(ShieldForSplit(WithEndMark(Prepared(line), punct, language), language), {'\n'})
  {
    PreparedAvoids(line, {});
    var l0 := WithEndMark(Prepared(line), punct, language);
    assert Avoids(l0, {'\n'});
    ShieldForSplitAvoidsLineFeed(l0, language);
  }

  lemma ShieldForSplitAvoidsLineFeed(l0: string, language: string)
    requires Avoids(l0, {'\n'})
    ensures Avoids(ShieldForSplit(l0, language), {'\n'})
  {
    var l1 := ShieldSpans(l0, language);
    MarksShieldedAvoidsLineFeed(l0, l1);
    var l2 := ShieldCompounds(l1);
    CompoundsAvoidLineFeed(l1);
    if language == "ar" || language == "fa" {
      ArabicAvoidsLineFeed(l2);
    } else if SplitClass(language).None? {
      MarksShieldedAvoidsLineFeed(l2, ShieldEmphasis(l2));
    }
  }

  lemma ArabicAvoidsLineFeed(l2: string)
    requires Avoids(l2, {'\n'})
    ensures Avoids(ShieldArabic(l2), {'\n'})
  {
    var l3 := ShieldArabic(l2);
    forall k | 0 <= k < |l3| ensures l3[k] != '\n' {
      assert ArabicShield(l2[k], l3[k]);
    }
  }

  lemma MarksShieldedAvoidsLineFeed(s: string, r: string)
    requires Avoids(s, {'\n'}) && MarksShielded(s, r)
    ensures Avoids(r, {'\n'})
  {
    forall k | 0 <= k < |r| ensures r[k] != '\n' {
      assert ShieldsMark(s[k], r[k]);
    }
  }

  lemma CompoundsAvoidLineFeed(l1: string)
    requires Avoids(l1, {'\n'})
    ensures Avoids(ShieldCompounds(l1), {'\n'})
  {
    var p := (c: char) => c != '\n';
    var c1 := ReplaceLiteral(l1, "?!", "☉");
    ReplaceLiteralKeepsClass(l1, "?!", "☉", p);
    var c2 := ReplaceLiteral(c1, "!?", "☈");
    ReplaceLiteralKeepsClass(c1, "!?", "☈", p);
    var c3 := ReplaceLiteral(c2, "??", "☇");
    ReplaceLiteralKeepsClass(c2, "??", "☇", p);
    ReplaceLiteralKeepsClass(c3, "!!", "☄", p);
  }

  /** What the branch without marks appends: line feeds and shielded periods given back (segmenter.rb:251-253). */
  function NoMarkText(prepared: string): string {
    ReplaceChar(ReplaceChar(prepared, 'ȹ', "\n"), '∯', ".")
  }

  /** The pieces decoded one by one with `sub_symbols`; joined, they are the joined pieces decoded. */
  function DecodeAll(pieces: seq<string>): (r: seq<string>)
    ensures |r| == |pieces| && forall m :: 0 <= m < |r| ==> r[m] == SubSymbols(pieces[m])
    ensures Concat(r) == SubSymbols(Concat(pieces))
  {
    SubSymbolsConcat(pieces);
    seq(|pieces|, m requires 0 <= m < |pieces| => SubSymbols(pieces[m]))
  }

  /**
   * The segments one non-empty line contributes, or the error raised when
   * the profile constant's name is malformed.
   */
  function LineSegments(line: string, language: string): (r: Result<seq<string>>)
    requires line != []
    ensures r.WrongConstantName? <==> Punctuation(language).None?
    ensures r.WrongConstantName? ==> r.name == ConstName(language)
  {
    var prepared := Prepared(line);
    match Punctuation(language)
    case None => WrongConstantName(ConstName(language))
    case Some(punct) =>
      if HasMark(prepared, punct) then
        Ok(DecodeAll(SplitPieces(ShieldForSplit(WithEndMark(prepared, punct, language), language), language)))
      else Ok([NoMarkText(prepared)])
  }

  /** One character of the no-mark branch decodes like `Restore` once the ellipses are reinserted. */
  lemma NoMarkCharDecodes(c: char)
    requires c !in SplitSentinels
    ensures ReinsertEllipsis(NoMarkText([c])) == Restored(c)
  {
    var h := if c == 'ȹ' then "\n" else [c];
    assert ReplaceChar([c], 'ȹ', "\n") == h + ReplaceChar([], 'ȹ', "\n");
    var h2 := ReplaceChar(h, '∯', ".");
    if c == 'ȹ' {
      assert h2 == "\n" + ReplaceChar([], '∯', ".");
    } else {
      assert h2 == (if c == '∯' then "." else [c]) + ReplaceChar([], '∯', ".");
    }
    assert |h2| == 1;
    assert ReinsertEllipsis(h2) == EllipsisText(h2[0]) + ReinsertEllipsis([]);
  }

  /** The no-mark branch decodes a line like `Restore` once the ellipses are reinserted. */
  lemma {:induction false} NoMarkDecodes(p: string)
    requires Avoids(p, SplitSentinels)
    ensures ReinsertEllipsis(NoMarkText(p)) == Restore(p)
  {
    if p != [] {
      NoMarkDecodes(p[1..]);
      NoMarkCharDecodes(p[0]);
      assert p == [p[0]] + p[1..];
      ReplaceCharAppend([p[0]], p[1..], 'ȹ', "\n");
      ReplaceCharAppend(ReplaceChar([p[0]], 'ȹ', "\n"), ReplaceChar(p[1..], 'ȹ', "\n"), '∯', ".");
      ExpandAppend(NoMarkText([p[0]]), NoMarkText(p[1..]), EllipsisText);
      assert Restore(p) == Restored(p[0]) + Restore(p[1..]);
    }
  }

  /**
   * A line without any mark of its profile is one segment, and once its
   * ellipses are reinserted it is the line itself (for a line without
   * sentinels whose only whitespace is spaces and line feeds).
   */
  lemma NoMarkLineRoundTrip(line: string, language: string)
    requires line != [] && SentinelFree(line) && PlainSpaced(line)
    requires Punctuation(language).Some? && !HasMark(Prepared(line), Punctuation(language).value)
    ensures LineSegments(line, language).Ok? && |LineSegments(line, language).value| == 1
    ensures ReinsertEllipsis(LineSegments(line, language).value[0]) == line
  {
    NoMarkSegmentDecodes(line);
    assert LineSegments(line, language) == Ok([NoMarkText(Prepared(line))]);
  }

  /** The segment of the no-mark branch, with its ellipses reinserted, is the line. */
  lemma NoMarkSegmentDecodes(line: string)
    requires SentinelFree(line) && PlainSpaced(line)
    ensures ReinsertEllipsis(NoMarkText(Prepared(line))) == line
  {
    assert Avoids(line, SplitSentinels - {'\n'});
    PreparedAvoids(line, SplitSentinels);
    NoMarkDecodes(Prepared(line));
    PreparedDecodes(line);
  }

  /**
   * In the eight languages that split after each of their marks, nothing of a
   * line is lost: the decoded segments joined together, with their ellipses
   * reinserted, are the line (for a line without sentinels whose only
   * whitespace is spaces and line feeds).
   */
  lemma ClassScanLineRoundTrip(line: string, language: string)
    requires line != [] && SentinelFree(line) && PlainSpaced(line)
    requires language in ["ar", "fa", "hi", "hy", "el", "my", "am", "ur"]
    ensures LineSegments(line, language).Ok?
    ensures ReinsertEllipsis(Concat(LineSegments(line, language).value)) == line
  {
    assert SplitClass(language).Some?;
    ListedCodeHasTable(language);
    var punct := Punctuation(language).value;
    var prepared := Prepared(line);
    PreparedDecodes(line);
    if HasMark(prepared, punct) {
      var shielded := ShieldForSplit(WithEndMark(prepared, punct, language), language);
      assert LineSegments(line, language) == Ok(DecodeAll(SplitPieces(shielded, language)));
      ClassSplitDecodes(shielded, language);
    } else {
      NoMarkLineRoundTrip(line, language);
      var seg := LineSegments(line, language).value[0];
      assert LineSegments(line, language).value == [seg];
      ConcatSingle(seg);
    }
  }

  lemma ListedCodeHasTable(language: string)
    requires language in ["ar", "fa", "hi", "hy", "el", "my", "am", "ur"]
    ensures Punctuation(language).Some?
  {
  }

  /** The decoded pieces of a mark-class split join back to the decoded line. */
  lemma ClassSplitDecodes(shielded: string, language: string)
    requires SplitClass(language).Some?
    ensures ReinsertEllipsis(Concat(DecodeAll(SplitPieces(shielded, language)))) == Restore(shielded)
  {
    var cls := SplitClass(language).value;
    var pieces := ClassScanFrom(shielded, 0, cls);
    assert SplitPieces(shielded, language) == pieces;
    ClassScanJoins(shielded, 0, cls);
    assert shielded[0..] == shielded;
    SubSymbolsConcat(pieces);
    assert DecodeAll(pieces) == seq(|pieces|, m requires 0 <= m < |pieces| => SubSymbols(pieces[m]));
    RestoreIsBothDecoders(shielded);
  }

  /** `clause_1` and `end_punc_check` as the loop over the profile computes them agree with their definitions. */
  lemma MarkChecks(line: string, punct: seq<char>)
    requires line != []
    ensures (exists j :: 0 <= j < |punct| && punct[j] in line) <==> HasMark(line, punct)
  {
    if HasMark(line, punct) {
      var k :| 0 <= k < |line| && line[k] in punct;
      var j :| 0 <= j < |punct| && punct[j] == line[k];
      assert punct[j] in line;
    }
  }

  /**
   * `analyze_lines` as the source runs it, appending the line's segments to
   * `segments`.
   */
  method AnalyzeLine(line: string, language: string, segments: seq<string>) returns (r: Result<seq<string>>)
    requires line != []
    ensures LineSegments(line, language).Ok? ==> r == Ok(segments + LineSegments(line, language).value)
    ensures LineSegments(line, language).WrongConstantName? ==> r == LineSegments(line, language)
  {
    var l := ShieldNewlines(line);
    l := ReplaceEllipsisInLine(l);
    l := ShieldEmails(l);
    var found := Punctuation(language);
    if found.None? {
      return WrongConstantName(ConstName(language));
    }
    var punct := found.value;
    assert l == Prepared(line);
    var clause1, endPunc := ScanMarks(l, punct);
    if clause1 {
      var out := SplitMarkedLine(l, punct, endPunc, language, segments);
      r := Ok(out);
    } else {
      l := ReplaceChar(l, 'ȹ', "\n");
      l := ReplaceChar(l, '∯', ".");
      r := Ok(segments + [l]);
    }
  }

  /** The loop of `analyze_lines` over the marks of the table: whether any occurs, and whether one ends the line. */
  method ScanMarks(l: string, punct: seq<char>) returns (clause1: bool, endPunc: bool)
    requires l != []
    ensures clause1 <==> HasMark(l, punct)
    ensures endPunc <==> l[|l| - 1] in punct
  {
    clause1, endPunc := false, false;
    for i := 0 to |punct|
      invariant clause1 <==> exists j :: 0 <= j < i && punct[j] in l
      invariant endPunc <==> exists j :: 0 <= j < i && punct[j] == l[|l| - 1]
    {
      if l[|l| - 1] == punct[i] {
        endPunc := true;
      }
      if punct[i] in l {
        clause1 := true;
      }
    }
    MarkChecks(l, punct);
  }

  /** The branch of `analyze_lines` for a line with a mark: shield, split, decode and append each piece. */
  method SplitMarkedLine(line: string, punct: seq<char>, endPunc: bool, language: string, segments: seq<string>)
    returns (out: seq<string>)
    requires line != [] && (endPunc <==> line[|line| - 1] in punct)
    ensures out == segments + DecodeAll(SplitPieces(ShieldForSplit(WithEndMark(line, punct, language), language), language))
  {
    var l := line;
    if !(endPunc || language == "ar" || language == "fa") {
      l := l + "ȸ";
    }
    assert l == WithEndMark(line, punct, language);
    l := ShieldMarkedLine(l, language);
    var pieces := SplitPieces(l, language);
    out := AppendDecoded(segments, pieces);
  }

  /** The shields of a line with a mark, one statement per step of the source. */
  method ShieldMarkedLine(line: string, language: string) returns (l: string)
    ensures l == ShieldForSplit(line, language)
  {
    l := ShieldSpansOnLine(line, language);
    l := ShieldCompounds(l);
    if language == "ar" || language == "fa" {
      l := ShieldArabic(l);
    } else if SplitClass(language).None? {
      l := ShieldEmphasis(l);
    }
  }

  /** `subline.each { |s_l| segments << sub_symbols(s_l) }`. */
  method AppendDecoded(segments: seq<string>, pieces: seq<string>) returns (out: seq<string>)
    ensures out == segments + DecodeAll(pieces)
  {
    out := segments;
    for i := 0 to |pieces|
      invariant out == segments + DecodeAll(pieces[..i])
    {
      assert DecodeAll(pieces[..i + 1]) == DecodeAll(pieces[..i]) + [SubSymbols(pieces[i])];
      SubSymbolsStepsIsTable(pieces[i]);
      out := out + [SubSymbolsSteps(pieces[i])];
    }
    assert pieces[..|pieces|] == pieces;
  }
}
