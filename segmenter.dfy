/**
 * The `Segmenter` object (segmenter.rb:8-60): it holds the working text and
 * the language, rewrites the text in place pass by pass, and then cuts it into
 * sentences. Each pass is a method that reassigns `text` and is proved equal to
 * the function that specifies it; the lemma at the end says what the passes
 * together may change.
 */
module Segmentation {
  import opened Chars
  import opened Outcomes
  import opened Disambiguation
  import Abbreviations
  import MultiPeriod
  import Boundary
  import Sentences
  import Lines

  /** The shield decision for each occurrence, in order. */
  function AbbrRules(language: string, occurrences: seq<(string, Option<char>)>,
                     prefixes: seq<string>, numberAbbrs: seq<string>): (rules: seq<Abbreviations.AbbrRule>)
    ensures |rules| == |occurrences|
  {
    seq(|occurrences|, m requires 0 <= m < |occurrences| =>
      Abbreviations.AbbrDecision(language, occurrences[m].0, occurrences[m].1, prefixes, numberAbbrs))
  }

  /**
   * `process_abbr` (segmenter.rb:62-119): the initials shields, then the
   * decision of every abbreviation occurrence applied in turn. Only periods
   * change, each to ∯.
   */
  function AbbrPass(text: string, language: string, occurrences: seq<(string, Option<char>)>,
                    prefixes: seq<string>, numberAbbrs: seq<string>): (r: string)
    ensures ShieldsPeriods(text, r)
  {
    var t := ShieldInitials(text, language);
    var r := Abbreviations.ApplyAbbrRules(t, AbbrRules(language, occurrences, prefixes, numberAbbrs));
    ShieldsPeriodsTransitive(text, t, r);
    r
  }

  /** Every pass of `segment` before `split_lines` (segmenter.rb:51-55), in order. */
  function TextPasses(text: string, language: string, occurrences: seq<(string, Option<char>)>,
                      prefixes: seq<string>, numberAbbrs: seq<string>): string
  {
    var t1 := AbbrPass(text, language, occurrences, prefixes, numberAbbrs);
    var t2 := Disambiguation.Numbers(t1, language);
    var t3 := MultiPeriod.MultiPeriodAbbr(t2);
    var t4 := Boundary.AbbrAsSentenceBoundary(t3);
    Disambiguation.GeoLocation(t4)
  }

  /** How a character of the text may differ after the text-wide passes. */
  predicate Disguised(a: char, b: char) {
    b == a || (a == '.' && b == '∯') || (IsSpace(a) && b == ' ')
  }

  predicate DisguisedText(text: string, r: string) {
    |r| == |text| && forall k :: 0 <= k < |text| ==> Disguised(text[k], r[k])
  }

  /** What one pass may do to a character: shield or unshield a period, or turn whitespace into a space. */
  predicate PassStep(b: char, c: char) {
    MultiPeriod.MovesShield(b, c) || Boundary.Unshields(b, c)
  }

  lemma DisguiseStep(text: string, s: string, r: string)
    requires SentinelFree(text) && DisguisedText(text, s)
    requires |r| == |s| && forall k :: 0 <= k < |s| ==> PassStep(s[k], r[k])
    ensures DisguisedText(text, r)
  {
    forall k | 0 <= k < |text| ensures Disguised(text[k], r[k]) {
      assert !IsSentinel(text[k]);
      assert Disguised(text[k], s[k]) && PassStep(s[k], r[k]);
    }
  }

  lemma PeriodStep(text: string, s: string, r: string)
    requires SentinelFree(text) && DisguisedText(text, s) && ShieldsPeriods(s, r)
    ensures DisguisedText(text, r)
  {
    forall k | 0 <= k < |s| ensures PassStep(s[k], r[k]) {
      assert PeriodShield(s[k], r[k]);
    }
    DisguiseStep(text, s, r);
  }

  /**
   * The text-wide passes keep the length of a text without sentinels, and
   * change a character only by shielding a period or by turning whitespace
   * into a space: no other character is touched, and no shield other than ∯
   * is written.
   */
  lemma TextPassesDisguiseOnly(text: string, language: string, occurrences: seq<(string, Option<char>)>,
                               prefixes: seq<string>, numberAbbrs: seq<string>)
    requires SentinelFree(text)
    ensures DisguisedText(text, TextPasses(text, language, occurrences, prefixes, numberAbbrs))
  {
    assert DisguisedText(text, text);
    var t1 := AbbrPass(text, language, occurrences, prefixes, numberAbbrs);
    PeriodStep(text, text, t1);
    var t2 := Disambiguation.Numbers(t1, language);
    PeriodStep(text, t1, t2);
    var t3 := MultiPeriod.MultiPeriodAbbr(t2);
    MultiPeriod.MultiPeriodAbbrMovesShields(t2);
    DisguiseStep(text, t2, t3);
    var t4 := Boundary.AbbrAsSentenceBoundary(t3);
    forall k | 0 <= k < |t3| ensures PassStep(t3[k], t4[k]) {
      assert Boundary.Unshields(t3[k], t4[k]);
    }
    DisguiseStep(text, t3, t4);
    PeriodStep(text, t4, Disambiguation.GeoLocation(t4));
  }

  /**
   * What `segment` returns for a text: nothing for a missing text, otherwise
   * the sentences of the text after the text-wide passes, each non-empty.
   */
  function SegmentText(text: Option<string>, language: string, occurrences: seq<(string, Option<char>)>,
                   prefixes: seq<string>, numberAbbrs: seq<string>): (r: Result<seq<string>>)
    ensures text.None? ==> r == Ok([])
    ensures r.Ok? ==> forall m :: 0 <= m < |r.value| ==> r.value[m] != []
  {
    match text
    case None => Ok([])
    case Some(t) => Sentences.SplitLines(TextPasses(t, language, occurrences, prefixes, numberAbbrs), language)
  }

  class Segmenter {
    /** The working text; meaningless when `textNil`. */
    var text: string
    /** Whether the segmenter was built without a text. */
    const textNil: bool
    const language: string

    /**
     * `initialize` (segmenter.rb:20-33) with cleaning switched off: the text is
     * kept as given, and the language defaults to English.
     */
    constructor(text: Option<string>, language: Option<string>)
      ensures textNil == text.None?
      ensures text.Some? ==> this.text == text.value
      ensures this.language == if language.Some? then language.value else "en"
    {
      this.textNil := text.None?;
      this.text := if text.Some? then text.value else [];
      this.language := if language.Some? then language.value else "en";
    }

    /**
     * `process_abbr`: the initials shields, then one shield decision per
     * occurrence. `occurrences` pairs each match of an abbreviation of the
     * lexicon in the text with the next word's first character.
     */
    method ProcessAbbr(occurrences: seq<(string, Option<char>)>, prefixes: seq<string>, numberAbbrs: seq<string>)
      modifies this
      ensures text == AbbrPass(old(text), language, occurrences, prefixes, numberAbbrs)
      ensures ShieldsPeriods(old(text), text)
    {
      var initials := ShieldInitials(text, language);
      text := initials;
      ghost var rules := AbbrRules(language, occurrences, prefixes, numberAbbrs);
      for i := 0 to |occurrences|
        invariant text == Abbreviations.ApplyAbbrRules(initials, rules[..i])
      {
        var (am, character) := occurrences[i];
        var rule := Abbreviations.AbbrDecision(language, am, character, prefixes, numberAbbrs);
        assert rules[..i + 1][..i] == rules[..i];
        text := Abbreviations.ApplyAbbrRule(text, rule);
      }
      assert rules[..|occurrences|] == rules;
    }

    /** `numbers` (segmenter.rb:277-297). */
    method Numbers()
      modifies this
      ensures text == Disambiguation.Numbers(old(text), language)
    {
      text := Disambiguation.Numbers(text, language);
    }

    /** `multi_period_abbr` (segmenter.rb:299-314): the scan, the loop over its matches, then the meridiem restore. */
    method MultiPeriodAbbr()
      modifies this
      ensures text == MultiPeriod.MultiPeriodAbbr(old(text))
    {
      var mpa := MultiPeriod.Scan(text);
      ghost var original := text;
      for i := 0 to |mpa|
        invariant text == MultiPeriod.ShieldAll(original, mpa[..i])
      {
        assert mpa[..i + 1][..i] == mpa[..i];
        text := MultiPeriod.ShieldOccurrences(text, mpa[i]);
      }
      assert mpa[..|mpa|] == mpa;
      text := MultiPeriod.RestoreMeridiem(text);
    }

    /** `abbr_as_sentence_boundary` (segmenter.rb:121-134): the loop over the words. */
    method AbbrAsSentenceBoundary()
      modifies this
      ensures text == Boundary.AbbrAsSentenceBoundary(old(text))
    {
      ghost var original := text;
      Boundary.AcronymFormsArePairs();
      for w := 0 to |Boundary.BoundaryWords|
        invariant text == Boundary.FixWords(original, Boundary.BoundaryWords, Boundary.AcronymForms, w)
      {
        FixAcronymsBefore(Boundary.BoundaryWords[w]);
      }
    }

    /** The nine gsubs of `abbr_as_sentence_boundary` for one word. */
    method FixAcronymsBefore(word: string)
      modifies this
      ensures text == Boundary.FixForms(old(text), Boundary.AcronymForms, word, |Boundary.AcronymForms|)
    {
      ghost var before := text;
      Boundary.AcronymFormsArePairs();
      for f := 0 to |Boundary.AcronymForms|
        invariant text == Boundary.FixForms(before, Boundary.AcronymForms, word, f)
      {
        var (form, rep) := Boundary.AcronymForms[f];
        text := Boundary.FixAcronym(text, form, rep, word);
      }
    }

    /** `geo_location` (segmenter.rb:136-139). */
    method GeoLocation()
      modifies this
      ensures text == Disambiguation.GeoLocation(old(text))
    {
      text := Disambiguation.GeoLocation(text);
    }

    /** `split_lines` (segmenter.rb:389-411): the loop over the lines, then the loop over the segments. */
    method SplitLines() returns (r: Result<seq<string>>)
      ensures r == Sentences.SplitLines(text, language)
    {
      var lines := Sentences.SplitOn(text, '\r');
      var found := Sentences.SegmentsOfLines(lines, language);
      if found.WrongConstantName? {
        return WrongConstantName(found.name);
      }
      var sentenceArray := Sentences.SentencesOfSegments(found.value);
      r := Ok(Sentences.RejectEmpty(sentenceArray));
    }

    /** `segment` (segmenter.rb:49-58), with the abbreviation occurrences of the text as a parameter. */
    method Segment(occurrences: seq<(string, Option<char>)>, prefixes: seq<string>, numberAbbrs: seq<string>)
      returns (r: Result<seq<string>>)
      modifies this
      ensures textNil ==> r == Ok([])
      ensures !textNil ==> r == SegmentText(Some(old(text)), language, occurrences, prefixes, numberAbbrs)
      ensures textNil ==> text == old(text)
      ensures !textNil ==> text == TextPasses(old(text), language, occurrences, prefixes, numberAbbrs)
    {
      if textNil {
        return Ok([]);
      }
      ProcessAbbr(occurrences, prefixes, numberAbbrs);
      Numbers();
      MultiPeriodAbbr();
      AbbrAsSentenceBoundary();
      GeoLocation();
      r := SplitLines();
    }
  }
}
