/**
 * The lexicon part of `process_abbr` (segmenter.rb:83-118): for each
 * occurrence of a known abbreviation, a decision on which of its periods to
 * shield, and the shield itself. The lexicon (plain, prefix and number
 * abbreviations) is a parameter; each occurrence is given as the matched text
 * `am` (the abbreviation with the whitespace or line start before it, in the
 * case it has in the text) and the character that starts the next word.
 */
module Abbreviations {
  import opened Chars
  import opened Rewrite
  import opened Outcomes
  import opened Disambiguation

  /** Which periods after an abbreviation occurrence are shielded. */
  datatype AbbrRule =
    | BeforeSpace(after: string)   // `(?<=after)\.(?=\s)`
    | Everywhere(after: string)    // `(?<=after)\.`
    | NumberUnit(after: string)    // `(?<=after)\.(?=\s\d)`, then `(?<=after)\.(?=\s+\()`
    | Russian(after: string)       // `(?<=\safter)\.`, `(?<=\Aafter)\.`, `(?<=^after)\.`
    | Plain(after: string)         // the lower-case-continuation lookahead, then `(?<=after)\.(?=,)`
    | Keep                         // the abbreviation may end the sentence

  /** The key under which the lexicon lists an occurrence: `am.downcase.strip`. */
  function Key(am: string): string {
    Strip(Downcase(am))
  }

  /** Languages whose abbreviation shield does not look at the next word. */
  predicate IgnoresNextWord(language: string) {
    language == "de" || language == "ar" || language == "fa"
  }

  /**
   * The shield decision for one occurrence (segmenter.rb:90-115). `next` is the
   * first character after the abbreviation and a space, `None` when the scan
   * found no such character for this occurrence.
   */
  function AbbrDecision(language: string, am: string, next: Option<char>,
                        prefixes: seq<string>, numberAbbrs: seq<string>): (rule: AbbrRule)
    ensures rule.Keep? <==>
              !IgnoresNextWord(language) && next.Some? && IsUpper(next.value) && Key(am) !in prefixes
    ensures language == "de" ==> rule == BeforeSpace(am)
    ensures language == "ar" || language == "fa" ==> rule == Everywhere(am)
    ensures !IgnoresNextWord(language) && Key(am) in prefixes ==> rule == BeforeSpace(Strip(am))
    ensures !IgnoresNextWord(language) && !rule.Keep? && Key(am) !in prefixes && Key(am) in numberAbbrs ==>
              rule == NumberUnit(Strip(am))
    ensures language == "ru" && !rule.Keep? && Key(am) !in prefixes && Key(am) !in numberAbbrs ==>
              rule == Russian(Strip(am))
    ensures !IgnoresNextWord(language) && language != "ru" && !rule.Keep? &&
            Key(am) !in prefixes && Key(am) !in numberAbbrs ==>
              rule == Plain(Strip(am))
  {
    if language == "de" then BeforeSpace(am)
    else if language == "ar" || language == "fa" then Everywhere(am)
    else
      var upper := next.Some? && IsUpper(next.value);
      if !upper || Key(am) in prefixes then
        if Key(am) in prefixes then BeforeSpace(Strip(am))
        else if Key(am) in numberAbbrs then NumberUnit(Strip(am))
        else if language == "ru" then Russian(Strip(am))
        else Plain(Strip(am))
      else Keep
  }

  /** `(?=\s\d)`. */
  predicate SpaceThenDigit(t: string, k: nat) {
    k + 2 < |t| && IsSpace(t[k + 1]) && IsDigit(t[k + 2])
  }

  /** `(?=\s+\()`. */
  predicate SpacesThenParen(t: string, k: nat) {
    k + 1 <= |t| && 0 < RunLength(t, k + 1, IsSpace) && k + 1 + RunLength(t, k + 1, IsSpace) < |t|
    && t[k + 1 + RunLength(t, k + 1, IsSpace)] == '('
  }

  /** `(?=((\.|:|\?)|(\s([a-z]|I\s|I'm|I'll|\d))))`: the text goes on in the same sentence. */
  predicate ContinuesAt(t: string, k: nat) {
    k + 1 < |t| &&
    (t[k + 1] == '.' || t[k + 1] == ':' || t[k + 1] == '?'
     || (IsSpace(t[k + 1]) && k + 2 < |t| &&
         (IsLower(t[k + 2]) || IsDigit(t[k + 2])
          || (t[k + 2] == 'I' &&
              ((k + 3 < |t| && IsSpace(t[k + 3]))
               || (k + 4 < |t| && t[k + 3] == '\'' && t[k + 4] == 'm')
               || (k + 5 < |t| && t[k + 3] == '\'' && t[k + 4] == 'l' && t[k + 5] == 'l'))))))
  }

  /** `(?=,)`. */
  predicate CommaAfter(t: string, k: nat) {
    k + 1 < |t| && t[k + 1] == ','
  }

  /** `(?<=\sa)`, `(?<=\Aa)` or `(?<=^a)`. */
  predicate RussianAt(t: string, k: nat, a: string) {
    LookbehindAt(t, k, a) && ((k - |a| > 0 && IsSpace(t[k - |a| - 1])) || LineStart(t, k - |a|))
  }

  /** The period at `k` is one the rule shields, judged on the text before the rule runs. */
  predicate ShieldedBy(rule: AbbrRule, t: string, k: nat) {
    match rule
    case BeforeSpace(a) => LookbehindAt(t, k, a) && SpaceAfter(t, k)
    case Everywhere(a) => LookbehindAt(t, k, a)
    case NumberUnit(a) => LookbehindAt(t, k, a) && (SpaceThenDigit(t, k) || SpacesThenParen(t, k))
    case Russian(a) => RussianAt(t, k, a)
    case Plain(a) => LookbehindAt(t, k, a) && (ContinuesAt(t, k) || CommaAfter(t, k))
    case Keep => false
  }

  /** An abbreviation holding no shielded period, as every lexicon word is. */
  predicate ShieldFree(a: string) {
    forall i :: 0 <= i < |a| ==> a[i] != '∯'
  }

  /** A regular expression character `p` matches `c`: a period matches anything but a line feed. */
  predicate Admits(p: char, c: char) {
    if p == '.' then c != '\n' else c == p
  }

  /**
   * `(?<=a)` at `k`, with `a` interpolated into the pattern unescaped: each
   * period of the abbreviation is a wildcard, so `(?<=e.g)` also holds after `exg`.
   */
  predicate LookbehindAt(t: string, k: nat, a: string) {
    |a| <= k <= |t| && forall i :: 0 <= i < |a| ==> Admits(a[i], t[k - |a| + i])
  }

  /**
   * The gsubs of one decision. Only periods change, each to ∯, and a period
   * changes exactly when the rule's pattern matches it in the text the rule
   * starts from: for a single-gsub rule always, and for the others whenever
   * the abbreviation holds no ∯, since an earlier gsub of the rule then
   * changes nothing a later one looks at.
   */
  function ApplyAbbrRule(text: string, rule: AbbrRule): (r: string)
    ensures ShieldsPeriods(text, r)
    ensures rule.Keep? ==> r == text
    ensures (rule.BeforeSpace? || rule.Everywhere? || (!rule.Keep? && ShieldFree(rule.after))) ==>
              forall k :: 0 <= k < |text| ==> (r[k] != text[k] <==> text[k] == '.' && ShieldedBy(rule, text, k))
  {
    match rule
    case BeforeSpace(a) => ShieldWhere(text, (t: string, k: nat) => LookbehindAt(t, k, a) && SpaceAfter(t, k))
    case Everywhere(a) => ShieldWhere(text, (t: string, k: nat) => LookbehindAt(t, k, a))
    case NumberUnit(a) => NumberUnitGsubs(text, a)
    case Russian(a) => RussianGsubs(text, a)
    case Plain(a) => PlainGsubs(text, a)
    case Keep => text
  }

  /** The two gsubs of a number abbreviation: before a space and a digit, then before spaces and `(`. */
  function NumberUnitGsubs(text: string, a: string): (r: string)
    ensures ShieldsPeriods(text, r)
    ensures ShieldFree(a) ==>
              forall k :: 0 <= k < |text| ==> (r[k] != text[k] <==> text[k] == '.' && ShieldedBy(NumberUnit(a), text, k))
  {
    var t1 := ShieldWhere(text, (t: string, k: nat) => LookbehindAt(t, k, a) && SpaceThenDigit(t, k));
    var t2 := ShieldWhere(t1, (t: string, k: nat) => LookbehindAt(t, k, a) && SpacesThenParen(t, k));
    if ShieldFree(a) then
      LookbehindStable(text, t1, a);
      LookaheadsStable(text, t1);
      t2
    else t2
  }

  /** The three Russian gsubs: after whitespace, at the start of the text, at a line start. */
  function RussianGsubs(text: string, a: string): (r: string)
    ensures ShieldsPeriods(text, r)
    ensures ShieldFree(a) ==>
              forall k :: 0 <= k < |text| ==> (r[k] != text[k] <==> text[k] == '.' && ShieldedBy(Russian(a), text, k))
  {
    var t1 := ShieldWhere(text, (t: string, k: nat) => LookbehindAt(t, k, a) && k - |a| > 0 && IsSpace(t[k - |a| - 1]));
    var t2 := ShieldWhere(t1, (t: string, k: nat) => LookbehindAt(t, k, a) && k - |a| == 0);
    var t3 := ShieldWhere(t2, (t: string, k: nat) => LookbehindAt(t, k, a) && LineStart(t, k - |a|));
    if ShieldFree(a) then
      LookbehindStable(text, t1, a);
      LookbehindStable(text, t2, a);
      LookaheadsStable(text, t1);
      LookaheadsStable(text, t2);
      t3
    else t3
  }

  /** The two gsubs of any other abbreviation: where the sentence goes on, then before a comma. */
  function PlainGsubs(text: string, a: string): (r: string)
    ensures ShieldsPeriods(text, r)
    ensures ShieldFree(a) ==>
              forall k :: 0 <= k < |text| ==> (r[k] != text[k] <==> text[k] == '.' && ShieldedBy(Plain(a), text, k))
  {
    var t1 := ShieldWhere(text, (t: string, k: nat) => LookbehindAt(t, k, a) && ContinuesAt(t, k));
    var t2 := ShieldWhere(t1, (t: string, k: nat) => LookbehindAt(t, k, a) && CommaAfter(t, k));
    if ShieldFree(a) then
      LookbehindStable(text, t1, a);
      LookaheadsStable(text, t1);
      t2
    else t2
  }

  /** A period of the abbreviation is a wildcard: the rule for `e.g` also shields the period after `exg`. */
  lemma AbbrPeriodIsWildcard()
    ensures ApplyAbbrRule("exg.", Everywhere("e.g")) == "exg∯"
  {
    var r := ApplyAbbrRule("exg.", Everywhere("e.g"));
    assert LookbehindAt("exg.", 3, "e.g");
    assert !LookbehindAt("exg.", 0, "e.g") && !LookbehindAt("exg.", 1, "e.g") && !LookbehindAt("exg.", 2, "e.g");
    assert r[0] == 'e' && r[1] == 'x' && r[2] == 'g' && r[3] == '∯';
  }

  /**
   * Shielding periods does not change where an abbreviation's lookbehind
   * holds: its wildcards match a period and ∯ alike, and its other characters
   * are neither.
   */
  lemma LookbehindStable(s: string, r: string, a: string)
    requires ShieldsPeriods(s, r) && ShieldFree(a)
    ensures forall k: nat :: LookbehindAt(s, k, a) == LookbehindAt(r, k, a)
  {
    forall k: nat | |a| <= k <= |s|
      ensures LookbehindAt(s, k, a) == LookbehindAt(r, k, a)
    {
      forall i | 0 <= i < |a| ensures Admits(a[i], s[k - |a| + i]) == Admits(a[i], r[k - |a| + i]) {
        assert PeriodShield(s[k - |a| + i], r[k - |a| + i]);
      }
    }
  }

  lemma {:induction false} RunLengthStable(s: string, r: string, j: nat)
    requires ShieldsPeriods(s, r) && j <= |s|
    ensures RunLength(s, j, IsSpace) == RunLength(r, j, IsSpace)
    decreases |s| - j
  {
    if j < |s| && IsSpace(s[j]) {
      RunLengthStable(s, r, j + 1);
    }
  }

  /** Shielding periods does not change what the lookaheads of the rules see. */
  lemma LookaheadsStable(s: string, r: string)
    requires ShieldsPeriods(s, r)
    ensures forall k: nat :: SpacesThenParen(s, k) == SpacesThenParen(r, k)
    ensures forall k: nat :: CommaAfter(s, k) == CommaAfter(r, k)
    ensures forall k: nat :: LineStart(s, k) == LineStart(r, k)
    ensures forall j :: 0 <= j < |s| ==> IsSpace(s[j]) == IsSpace(r[j])
  {
    forall k: nat | k + 1 <= |s| ensures SpacesThenParen(s, k) == SpacesThenParen(r, k) {
      RunLengthStable(s, r, k + 1);
    }
  }

  /**
   * Before an upper-case word a plain or number abbreviation is left as a
   * possible sentence end: the decision changes nothing.
   */
  lemma UpperNextWordKeepsPeriods(language: string, am: string, c: char, prefixes: seq<string>,
                                  numberAbbrs: seq<string>, text: string)
    requires !IgnoresNextWord(language) && IsUpper(c) && Key(am) !in prefixes
    ensures ApplyAbbrRule(text, AbbrDecision(language, am, Some(c), prefixes, numberAbbrs)) == text
  {
  }

  /**
   * A prefix abbreviation (such as a title) is shielded before a space whatever
   * word follows.
   */
  lemma PrefixShieldedBeforeSpace(language: string, am: string, next: Option<char>, prefixes: seq<string>,
                                  numberAbbrs: seq<string>, text: string, k: nat)
    requires !IgnoresNextWord(language) && Key(am) in prefixes
    requires k < |text| && text[k] == '.' && LookbehindAt(text, k, Strip(am)) && SpaceAfter(text, k)
    ensures ApplyAbbrRule(text, AbbrDecision(language, am, next, prefixes, numberAbbrs))[k] == '∯'
  {
  }

  /**
   * A number abbreviation (such as `no`) not followed by a capitalised word
   * shields its period exactly before a space and a digit, or before spaces
   * and an opening parenthesis.
   */
  lemma NumberAbbrShieldsBeforeNumber(language: string, am: string, next: Option<char>, prefixes: seq<string>,
                                      numberAbbrs: seq<string>, text: string, k: nat)
    requires !IgnoresNextWord(language) && !(next.Some? && IsUpper(next.value))
    requires Key(am) !in prefixes && Key(am) in numberAbbrs && ShieldFree(Strip(am)) && k < |text|
    ensures var r := ApplyAbbrRule(text, AbbrDecision(language, am, next, prefixes, numberAbbrs));
            r[k] != text[k] <==>
              text[k] == '.' && LookbehindAt(text, k, Strip(am)) && (SpaceThenDigit(text, k) || SpacesThenParen(text, k))
  {
  }

  /**
   * In Russian an abbreviation not followed by a capitalised word shields its
   * period exactly when the abbreviation starts the text or a line, or follows
   * whitespace, whatever comes after the period.
   */
  lemma RussianAbbrShieldsAfterWordStart(am: string, next: Option<char>, prefixes: seq<string>,
                                         numberAbbrs: seq<string>, text: string, k: nat)
    requires !(next.Some? && IsUpper(next.value))
    requires Key(am) !in prefixes && Key(am) !in numberAbbrs && ShieldFree(Strip(am)) && k < |text|
    ensures var r := ApplyAbbrRule(text, AbbrDecision("ru", am, next, prefixes, numberAbbrs));
            r[k] != text[k] <==> text[k] == '.' && RussianAt(text, k, Strip(am))
  {
  }

  /**
   * Any other abbreviation not followed by a capitalised word shields its
   * period exactly when the sentence evidently goes on (a period, colon or
   * question mark, or a lower-case word, a digit or `I` after a space) or a
   * comma follows.
   */
  lemma PlainAbbrShieldsWhenSentenceGoesOn(language: string, am: string, next: Option<char>, prefixes: seq<string>,
                                           numberAbbrs: seq<string>, text: string, k: nat)
    requires !IgnoresNextWord(language) && language != "ru" && !(next.Some? && IsUpper(next.value))
    requires Key(am) !in prefixes && Key(am) !in numberAbbrs && ShieldFree(Strip(am)) && k < |text|
    ensures var r := ApplyAbbrRule(text, AbbrDecision(language, am, next, prefixes, numberAbbrs));
            r[k] != text[k] <==>
              text[k] == '.' && LookbehindAt(text, k, Strip(am)) && (ContinuesAt(text, k) || CommaAfter(text, k))
  {
  }

  /** In German every occurrence shields its period before whitespace and no other. */
  lemma GermanShieldsOnlyBeforeSpace(am: string, next: Option<char>, prefixes: seq<string>,
                                     numberAbbrs: seq<string>, text: string, k: nat)
    requires k < |text|
    ensures var r := ApplyAbbrRule(text, AbbrDecision("de", am, next, prefixes, numberAbbrs));
            r[k] != text[k] <==> text[k] == '.' && LookbehindAt(text, k, am) && SpaceAfter(text, k)
  {
  }

  /**
   * `process_abbr`'s loop over the occurrences, as a specification: each
   * decision applied in turn to the text the previous ones left.
   */
  function ApplyAbbrRules(text: string, rules: seq<AbbrRule>): (r: string)
    ensures ShieldsPeriods(text, r)
    decreases |rules|
  {
    if rules == [] then text
    else
      var t := ApplyAbbrRules(text, rules[..|rules| - 1]);
      var r := ApplyAbbrRule(t, rules[|rules| - 1]);
      ShieldsPeriodsTransitive(text, t, r);
      r
  }
}
