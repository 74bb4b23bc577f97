/**
 * The passes the segmenter runs over the whole text before it splits it into
 * lines: periods that do not end a sentence become ∯. Each pass is the Ruby
 * `gsub!` it models, with the regular expression written as a predicate on the
 * characters around the period. Ruby's `^` is "at the start of the string or
 * just after a line feed".
 */
module Disambiguation {
  import opened Chars
  import opened Rewrite

  /** `b` is `a` or, where `a` is a period, the shielded period. */
  predicate PeriodShield(a: char, b: char) {
    b == a || (a == '.' && b == '∯')
  }

  /** `r` is `s` with some periods shielded and nothing else changed. */
  predicate ShieldsPeriods(s: string, r: string) {
    |r| == |s| && forall k :: 0 <= k < |s| ==> PeriodShield(s[k], r[k])
  }

  lemma ShieldsPeriodsTransitive(a: string, b: string, c: string)
    requires ShieldsPeriods(a, b) && ShieldsPeriods(b, c)
    ensures ShieldsPeriods(a, c)
  {
  }

  /** `(?<=…)\.(?=…)` → `∯`. */
  function ShieldWhere(s: string, at: (string, nat) -> bool): (r: string)
    ensures ShieldsPeriods(s, r)
    ensures forall k :: 0 <= k < |s| ==> (r[k] != s[k] <==> s[k] == '.' && at(s, k))
  {
    ReplaceWhere(s, '.', '∯', at)
  }

  /** Ruby's `^` at position `k`. */
  predicate LineStart(t: string, k: nat) {
    k == 0 || (k <= |t| && t[k - 1] == '\n')
  }

  /** The lookbehind `(?<=a)` at position `k`. */
  predicate Follows(t: string, k: nat, a: string) {
    |a| <= k <= |t| && t[k - |a|..k] == a
  }

  /** `(?=\s)` after position `k`. */
  predicate SpaceAfter(t: string, k: nat) {
    k + 1 < |t| && IsSpace(t[k + 1])
  }

  // ---------------------------------------------------------------------------
  // process_abbr, the part before the lexicon (segmenter.rb:62-80)

  /** `\.(?='s\s)|\.(?='s$)|\.(?='s\z)`: the period of a possessive abbreviation such as `Jr.'s`. */
  predicate PossessiveAt(t: string, k: nat) {
    k + 2 < |t| && t[k + 1] == '\'' && t[k + 2] == 's' && (k + 3 == |t| || IsSpace(t[k + 3]))
  }

  /** `(?<=^[A-Z])\.(?=\s)`. */
  predicate UpperInitialAtLineStart(t: string, k: nat) {
    0 < k <= |t| && IsUpper(t[k - 1]) && LineStart(t, k - 1) && SpaceAfter(t, k)
  }

  /** `(?<=\s[A-Z])\.(?=\s)`. */
  predicate UpperInitialAfterSpace(t: string, k: nat) {
    1 < k <= |t| && IsSpace(t[k - 2]) && IsUpper(t[k - 1]) && SpaceAfter(t, k)
  }

  /** `(?<=\s[a-z])\.(?=\s)`. */
  predicate LowerInitialAfterSpace(t: string, k: nat) {
    1 < k <= |t| && IsSpace(t[k - 2]) && IsLower(t[k - 1]) && SpaceAfter(t, k)
  }

  /** `(?<=^[a-z])\.(?=\s)`. */
  predicate LowerInitialAtLineStart(t: string, k: nat) {
    0 < k <= |t| && IsLower(t[k - 1]) && LineStart(t, k - 1) && SpaceAfter(t, k)
  }

  /** Languages whose single lower-case letters are initials too. */
  predicate LowerCaseInitials(language: string) {
    language == "de" || language == "fr"
  }

  /**
   * The possessive and initial shields of `process_abbr`: a period is shielded
   * exactly when it is a possessive's or a single letter's, lower-case letters
   * counting only in German and French.
   */
  function ShieldInitials(text: string, language: string): (r: string)
    ensures ShieldsPeriods(text, r)
    ensures forall k :: 0 <= k < |text| ==>
              (r[k] != text[k] <==>
                 text[k] == '.' &&
                 (PossessiveAt(text, k) || UpperInitialAtLineStart(text, k) || UpperInitialAfterSpace(text, k)
                  || (LowerCaseInitials(language) &&
                      (LowerInitialAfterSpace(text, k) || LowerInitialAtLineStart(text, k)))))
  {
    var t1 := ShieldWhere(text, PossessiveAt);
    InitialsStable(text, t1);
    var t2 := ShieldWhere(t1, UpperInitialAtLineStart);
    ShieldAgain(text, t1, UpperInitialAtLineStart);
    InitialsStable(text, t2);
    var t3 := ShieldWhere(t2, UpperInitialAfterSpace);
    ShieldAgain(text, t2, UpperInitialAfterSpace);
    if LowerCaseInitials(language) then
      InitialsStable(text, t3);
      var t4 := ShieldWhere(t3, LowerInitialAfterSpace);
      ShieldAgain(text, t3, LowerInitialAfterSpace);
      InitialsStable(text, t4);
      var t5 := ShieldWhere(t4, LowerInitialAtLineStart);
      ShieldAgain(text, t4, LowerInitialAtLineStart);
      t5
    else t3
  }

  /** Shielding periods does not change where a possessive or an initial stands. */
  lemma InitialsStable(a: string, b: string)
    requires ShieldsPeriods(a, b)
    ensures forall k: nat ::
              PossessiveAt(a, k) == PossessiveAt(b, k)
              && UpperInitialAtLineStart(a, k) == UpperInitialAtLineStart(b, k)
              && UpperInitialAfterSpace(a, k) == UpperInitialAfterSpace(b, k)
              && LowerInitialAfterSpace(a, k) == LowerInitialAfterSpace(b, k)
              && LowerInitialAtLineStart(a, k) == LowerInitialAtLineStart(b, k)
  {
  }

  // ---------------------------------------------------------------------------
  // numbers (segmenter.rb:277-297)

  /** `(?<=\d)[.](?=\S)|[.](?=\d)`: a decimal point, or a period before a digit. */
  predicate DecimalPointAt(t: string, k: nat) {
    (0 < k <= |t| && IsDigit(t[k - 1]) && k + 1 < |t| && !IsSpace(t[k + 1]))
    || (k + 1 < |t| && IsDigit(t[k + 1]))
  }

  /** `(?=(\s\S)|\))`: what follows a list marker's period. */
  predicate MarkerFollows(t: string, k: nat) {
    (k + 2 < |t| && IsSpace(t[k + 1]) && !IsSpace(t[k + 2])) || (k + 1 < |t| && t[k + 1] == ')')
  }

  /** `(?<=\r\d)`. */
  predicate AfterReturnDigit(t: string, k: nat) {
    1 < k <= |t| && t[k - 2] == '\r' && IsDigit(t[k - 1])
  }

  /** `(?<=^\d)`. */
  predicate AfterLineStartDigit(t: string, k: nat) {
    0 < k <= |t| && IsDigit(t[k - 1]) && LineStart(t, k - 1)
  }

  /** `(?<=^\d\d)`. */
  predicate AfterLineStartTwoDigits(t: string, k: nat) {
    1 < k <= |t| && IsDigit(t[k - 2]) && IsDigit(t[k - 1]) && LineStart(t, k - 2)
  }

  /** A one- or two-digit list marker's period. */
  predicate ListMarkerAt(t: string, k: nat) {
    (AfterReturnDigit(t, k) || AfterLineStartDigit(t, k) || AfterLineStartTwoDigits(t, k)) && MarkerFollows(t, k)
  }

  /** `(?<=\s[0-9]|\s([1-9][0-9]))\.(?=\s)`. */
  predicate GermanOrdinalAfterSpace(t: string, k: nat) {
    ((1 < k <= |t| && IsSpace(t[k - 2]) && IsDigit(t[k - 1]))
     || (2 < k <= |t| && IsSpace(t[k - 3]) && '1' <= t[k - 2] <= '9' && IsDigit(t[k - 1])))
    && SpaceAfter(t, k)
  }

  /** `(?<=-[0-9]|-([1-9][0-9]))\.(?=\s)`. */
  predicate GermanOrdinalAfterDash(t: string, k: nat) {
    ((1 < k <= |t| && t[k - 2] == '-' && IsDigit(t[k - 1]))
     || (2 < k <= |t| && t[k - 3] == '-' && '1' <= t[k - 2] <= '9' && IsDigit(t[k - 1])))
    && SpaceAfter(t, k)
  }

  /**
   * `numbers`: only periods change, each to ∯, and a period is shielded
   * exactly when it is a decimal point, a period before a digit, a one- or
   * two-digit list marker's, or (in German) an ordinal number's.
   */
  function Numbers(text: string, language: string): (r: string)
    ensures ShieldsPeriods(text, r)
    ensures forall k :: 0 <= k < |text| ==>
              (r[k] != text[k] <==>
                 text[k] == '.' &&
                 (DecimalPointAt(text, k) || ListMarkerAt(text, k)
                  || (language == "de" &&
                      (GermanOrdinalAfterSpace(text, k) || GermanOrdinalAfterDash(text, k)))))
  {
    var t1 := ShieldWhere(text, DecimalPointAt);
    NumbersStable(text, t1);
    var t2 := ShieldWhere(t1, ReturnDigitMarkerAt);
    ShieldAgain(text, t1, ReturnDigitMarkerAt);
    NumbersStable(text, t2);
    var t3 := ShieldWhere(t2, LineStartDigitMarkerAt);
    ShieldAgain(text, t2, LineStartDigitMarkerAt);
    NumbersStable(text, t3);
    var t4 := ShieldWhere(t3, LineStartTwoDigitsMarkerAt);
    ShieldAgain(text, t3, LineStartTwoDigitsMarkerAt);
    if language == "de" then
      NumbersStable(text, t4);
      var t5 := ShieldWhere(t4, GermanOrdinalAfterSpace);
      ShieldAgain(text, t4, GermanOrdinalAfterSpace);
      NumbersStable(text, t5);
      var t6 := ShieldWhere(t5, GermanOrdinalAfterDash);
      ShieldAgain(text, t5, GermanOrdinalAfterDash);
      t6
    else t4
  }

  /** The list-marker lookarounds of `numbers`, one per gsub. */
  predicate ReturnDigitMarkerAt(t: string, k: nat) {
    AfterReturnDigit(t, k) && MarkerFollows(t, k)
  }

  predicate LineStartDigitMarkerAt(t: string, k: nat) {
    AfterLineStartDigit(t, k) && MarkerFollows(t, k)
  }

  predicate LineStartTwoDigitsMarkerAt(t: string, k: nat) {
    AfterLineStartTwoDigits(t, k) && MarkerFollows(t, k)
  }

  /**
   * One more shield pass whose lookaround does not see earlier shields: the
   * periods it shields are those of the original text where it matches.
   */
  lemma ShieldAgain(text: string, s: string, at: (string, nat) -> bool)
    requires ShieldsPeriods(text, s)
    requires forall k: nat :: at(text, k) == at(s, k)
    ensures ShieldsPeriods(text, ShieldWhere(s, at))
    ensures forall k :: 0 <= k < |text| ==>
              (ShieldWhere(s, at)[k] != text[k] <==> s[k] != text[k] || (text[k] == '.' && at(text, k)))
  {
    var r := ShieldWhere(s, at);
    forall k | 0 <= k < |text|
      ensures r[k] != text[k] <==> s[k] != text[k] || (text[k] == '.' && at(text, k))
    {
      assert PeriodShield(text[k], s[k]);
      assert at(text, k) == at(s, k);
    }
  }

  /** Shielding periods does not change where a number's period stands. */
  lemma NumbersStable(a: string, b: string)
    requires ShieldsPeriods(a, b)
    ensures forall k: nat ::
              DecimalPointAt(a, k) == DecimalPointAt(b, k)
              && MarkerFollows(a, k) == MarkerFollows(b, k)
              && AfterReturnDigit(a, k) == AfterReturnDigit(b, k)
              && AfterLineStartDigit(a, k) == AfterLineStartDigit(b, k)
              && AfterLineStartTwoDigits(a, k) == AfterLineStartTwoDigits(b, k)
              && GermanOrdinalAfterSpace(a, k) == GermanOrdinalAfterSpace(b, k)
              && GermanOrdinalAfterDash(a, k) == GermanOrdinalAfterDash(b, k)
  {
  }

  // ---------------------------------------------------------------------------
  // geo_location (segmenter.rb:136-139)

  /** `\s*\d+` from position `j`. */
  predicate SpacesThenDigit(t: string, j: nat) {
    j <= |t| && j + RunLength(t, j, IsSpace) < |t| && IsDigit(t[j + RunLength(t, j, IsSpace)])
  }

  /**
   * `(?<=[a-zA-z]°)\.(?=\s*\d+)`. The range `A-z` is kept as written: it also
   * admits the six characters between `Z` and `a`.
   */
  predicate GeoPeriodAt(t: string, k: nat) {
    1 < k <= |t| && 'A' <= t[k - 2] <= 'z' && t[k - 1] == '°' && SpacesThenDigit(t, k + 1)
  }

  /** `geo_location`: a period after a letter and a degree sign, before a number, is shielded. */
  function GeoLocation(text: string): (r: string)
    ensures ShieldsPeriods(text, r)
    ensures forall k :: 0 <= k < |text| ==> (r[k] != text[k] <==> text[k] == '.' && GeoPeriodAt(text, k))
  {
    ShieldWhere(text, GeoPeriodAt)
  }
}
