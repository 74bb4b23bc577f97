/**
 * `multi_period_abbr` (segmenter.rb:299-314): every abbreviation written as
 * letters joined by periods (`U.S.A.`, `J.C.`) has its periods shielded
 * wherever it occurs, and a shielded `a.m.`/`p.m.` before a capitalised word
 * gets its final period back.
 */
module MultiPeriod {
  import opened Chars
  import opened Rewrite
  import opened Symbols
  import opened Disambiguation

  /** The number of `.letter` pairs from position `j` on (`(?:\.[a-z])+` with the `i` flag). */
  function PairCount(s: string, j: nat): (n: nat)
    requires j <= |s|
    ensures j + 2 * n <= |s|
    decreases |s| - j
  {
    if j + 1 < |s| && s[j] == '.' && IsLetter(s[j + 1]) then 1 + PairCount(s, j + 2) else 0
  }

  /** The pairs counted are periods each followed by a letter. */
  lemma {:induction false} PairCountShape(s: string, j: nat)
    requires j <= |s|
    ensures forall m :: j <= m < j + 2 * PairCount(s, j) ==> (if (m - j) % 2 == 0 then s[m] == '.' else IsLetter(s[m]))
    decreases |s| - j
  {
    if j + 1 < |s| && s[j] == '.' && IsLetter(s[j + 1]) {
      PairCountShape(s, j + 2);
      forall m | j + 2 <= m < j + 2 * PairCount(s, j)
        ensures (if (m - j) % 2 == 0 then s[m] == '.' else IsLetter(s[m]))
      {
        assert (m - j) % 2 == (m - (j + 2)) % 2;
      }
    }
  }

  /** Ruby's `\b` before a word character at `i` (ASCII word characters). */
  predicate WordStart(s: string, i: nat) {
    i == 0 || (i <= |s| && !IsWord(s[i - 1]))
  }

  /**
   * The length of the match of `\b[a-z](?:\.[a-z])+[.]` (case-insensitive) at
   * `i`, or 0. The greedy group gives back its last pair when no period
   * follows it, so `J.C.Penney`-like runs still match up to their last period.
   */
  function MatchLength(s: string, i: nat): (n: nat)
    requires i <= |s|
    ensures i + n <= |s|
  {
    if i < |s| && IsLetter(s[i]) && WordStart(s, i) then
      var pairs := PairCount(s, i + 1);
      if 1 <= pairs && i + 1 + 2 * pairs < |s| && s[i + 1 + 2 * pairs] == '.' then 2 * pairs + 2
      else if 2 <= pairs then 2 * pairs
      else 0
    else 0
  }

  /** Letters and periods alternating, beginning with a letter and ending with a period, at least two of each. */
  predicate DottedAbbreviation(r: string) {
    4 <= |r| && |r| % 2 == 0 && forall j :: 0 <= j < |r| ==> (if j % 2 == 0 then IsLetter(r[j]) else r[j] == '.')
  }

  /** The scan from `i` on: the matches in order, each resuming after the last. */
  function ScanFrom(s: string, i: nat): (rs: seq<string>)
    requires i <= |s|
    ensures forall j :: 0 <= j < |rs| ==> rs[j] != []
    decreases |s| - i
  {
    if i == |s| then []
    else
      var n := MatchLength(s, i);
      if 0 < n then [s[i..i + n]] + ScanFrom(s, i + n)
      else ScanFrom(s, i + 1)
  }

  /** Every match of the scan is a dotted abbreviation. */
  lemma {:induction false} ScanFromDotted(s: string, i: nat)
    requires i <= |s|
    ensures forall j :: 0 <= j < |ScanFrom(s, i)| ==> DottedAbbreviation(ScanFrom(s, i)[j])
    decreases |s| - i
  {
    if i < |s| {
      var n := MatchLength(s, i);
      if 0 < n {
        MatchIsDotted(s, i);
        ScanFromDotted(s, i + n);
        assert ScanFrom(s, i) == [s[i..i + n]] + ScanFrom(s, i + n);
      } else {
        ScanFromDotted(s, i + 1);
      }
    }
  }

  lemma MatchIsDotted(s: string, i: nat)
    requires i < |s| && 0 < MatchLength(s, i)
    ensures DottedAbbreviation(s[i..i + MatchLength(s, i)])
  {
    var n := MatchLength(s, i);
    var pairs := PairCount(s, i + 1);
    var r := s[i..i + n];
    PairCountShape(s, i + 1);
    forall j | 0 <= j < |r| ensures if j % 2 == 0 then IsLetter(r[j]) else r[j] == '.' {
      assert r[j] == s[i + j];
      if 0 < j < 1 + 2 * pairs {
        assert (i + j - (i + 1)) % 2 == (j - 1) % 2;
      }
    }
  }

  /** The scan finds nothing exactly when no match starts at or after `i`. */
  lemma {:induction false} ScanEmpty(s: string, i: nat)
    requires i <= |s|
    ensures ScanFrom(s, i) == [] <==> forall a :: i <= a < |s| ==> MatchLength(s, a) == 0
    decreases |s| - i
  {
    if i < |s| && MatchLength(s, i) == 0 {
      ScanEmpty(s, i + 1);
    }
  }

  /** The scan's first match is the one that starts first, and the scan resumes after it. */
  lemma {:induction false} ScanFirst(s: string, i: nat, a: nat)
    requires i <= a < |s| && 0 < MatchLength(s, a)
    requires forall b :: i <= b < a ==> MatchLength(s, b) == 0
    ensures ScanFrom(s, i) == [s[a..a + MatchLength(s, a)]] + ScanFrom(s, a + MatchLength(s, a))
    decreases a - i
  {
    if i < a {
      assert MatchLength(s, i) == 0;
      ScanFirst(s, i + 1, a);
    }
  }

  /** `@text.scan(/\b[a-z](?:\.[a-z])+[.]/i)`. */
  function Scan(s: string): seq<string> {
    ScanFrom(s, 0)
  }

  /** `r.gsub!('.', '∯')`. */
  function ShieldDots(r: string): (d: string)
    ensures |d| == |r|
    ensures forall k :: 0 <= k < |r| ==> PeriodShield(r[k], d[k]) && (r[k] == '.' ==> d[k] == '∯')
  {
    if r == [] then [] else [if r[0] == '.' then '∯' else r[0]] + ShieldDots(r[1..])
  }

  /** One step of the loop: every occurrence of `r` gets its periods shielded. */
  function ShieldOccurrences(text: string, r: string): (t: string)
    requires r != []
    ensures |t| == |text|
  {
    GsubSameLength(text, 0, |r|, Literal(r), Fixed(ShieldDots(r)));
    ReplaceLiteral(text, r, ShieldDots(r))
  }

  /** One step only shields periods. */
  lemma ShieldOccurrencesShieldsPeriods(text: string, r: string)
    requires r != []
    ensures ShieldsPeriods(text, ShieldOccurrences(text, r))
  {
    GsubRelates(text, 0, |r|, Literal(r), Fixed(ShieldDots(r)), PeriodShield);
  }

  /** A taken occurrence of `r` gets all its periods shielded and keeps its letters. */
  lemma ShieldOccurrencesAt(text: string, r: string, j: nat)
    requires r != [] && Taken(text, 0, |r|, Literal(r), j)
    ensures j + |r| <= |text| && |ShieldOccurrences(text, r)| == |text|
    ensures forall m :: 0 <= m < |r| ==> ShieldOccurrences(text, r)[j + m] == ShieldDots(r)[m]
  {
    GsubFixedAtTaken(text, |r|, Literal(r), ShieldDots(r), j);
  }

  /** A character that no taken occurrence of `r` covers is kept. */
  lemma ShieldOccurrencesOutside(text: string, r: string, k: nat)
    requires r != [] && k < |text|
    requires forall j: nat :: j <= k < j + |r| ==> !Taken(text, 0, |r|, Literal(r), j)
    ensures |ShieldOccurrences(text, r)| == |text| && ShieldOccurrences(text, r)[k] == text[k]
  {
    GsubFixedOutside(text, |r|, Literal(r), ShieldDots(r), k);
  }

  /** The loop over the scanned abbreviations, up to a prefix of them. */
  function ShieldAll(text: string, rs: seq<string>): (t: string)
    requires forall j :: 0 <= j < |rs| ==> rs[j] != []
    ensures |t| == |text|
    decreases |rs|
  {
    if rs == [] then text else ShieldOccurrences(ShieldAll(text, rs[..|rs| - 1]), rs[|rs| - 1])
  }

  /** The loop only shields periods. */
  lemma {:induction false} ShieldAllShieldsPeriods(text: string, rs: seq<string>)
    requires forall j :: 0 <= j < |rs| ==> rs[j] != []
    ensures ShieldsPeriods(text, ShieldAll(text, rs))
    decreases |rs|
  {
    if rs != [] {
      var before := ShieldAll(text, rs[..|rs| - 1]);
      ShieldAllShieldsPeriods(text, rs[..|rs| - 1]);
      ShieldOccurrencesShieldsPeriods(before, rs[|rs| - 1]);
      ShieldsPeriodsTransitive(text, before, ShieldAll(text, rs));
    }
  }

  /** An occurrence of a text of letters and periods in a text with some periods shielded was there before. */
  lemma OccursBeforeShielding(text: string, t: string, p: nat, w: string)
    requires ShieldsPeriods(text, t) && OccursAt(t, p, w)
    requires forall m :: 0 <= m < |w| ==> w[m] != '∯'
    ensures OccursAt(text, p, w)
  {
    forall m | 0 <= m < |w| ensures text[p + m] == w[m] {
      assert t[p + m] == t[p..p + |w|][m];
      assert PeriodShield(text[p + m], t[p + m]);
    }
    assert text[p..p + |w|] == w;
  }

  /** Later abbreviations only shield more periods. */
  lemma {:induction false} ShieldAllExtends(text: string, rs: seq<string>, n: nat)
    requires forall j :: 0 <= j < |rs| ==> rs[j] != []
    requires n <= |rs|
    ensures ShieldsPeriods(ShieldAll(text, rs[..n]), ShieldAll(text, rs))
    decreases |rs|
  {
    if n == |rs| {
      assert rs[..n] == rs;
      assert forall k :: 0 <= k < |text| ==> PeriodShield(ShieldAll(text, rs)[k], ShieldAll(text, rs)[k]);
    } else {
      var front := rs[..|rs| - 1];
      assert front[..n] == rs[..n];
      ShieldAllExtends(text, front, n);
      ShieldOccurrencesShieldsPeriods(ShieldAll(text, front), rs[|rs| - 1]);
      ShieldsPeriodsTransitive(ShieldAll(text, rs[..n]), ShieldAll(text, front), ShieldAll(text, rs));
    }
  }

  /** Abbreviations `x` and `y` occur in `text` at `p` and `q` and overlap. */
  predicate Overlap(text: string, p: nat, x: string, q: nat, y: string) {
    OccursAt(text, p, x) && OccursAt(text, q, y) && p < q + |y| && q < p + |x|
  }

  /**
   * The occurrence of abbreviation `i` at `j` is alone: none of the
   * abbreviations up to `i` occurs overlapping it, except itself. `b.c. a.b.c.`
   * is not: `b.c.` is scanned first and occurs inside `a.b.c.`.
   */
  predicate AloneAt(text: string, rs: seq<string>, i: nat, j: nat)
    requires i < |rs|
  {
    forall x, p :: 0 <= x <= i && 0 <= p < |text| && Overlap(text, p, rs[x], j, rs[i]) ==> p == j && rs[x] == rs[i]
  }

  /** Abbreviations before the first copy of abbreviation `i` leave its occurrence as it was. */
  lemma {:induction false} ShieldAllBefore(text: string, rs: seq<string>, i: nat, j: nat, n: nat)
    requires forall x :: 0 <= x < |rs| ==> rs[x] != [] && DottedAbbreviation(rs[x])
    requires i < |rs| && n <= i && OccursAt(text, j, rs[i]) && AloneAt(text, rs, i, j)
    requires forall x :: 0 <= x < n ==> rs[x] != rs[i]
    ensures OccursAt(ShieldAll(text, rs[..n]), j, rs[i])
  {
    if n > 0 {
      ShieldAllBefore(text, rs, i, j, n - 1);
      var before := ShieldAll(text, rs[..n - 1]);
      var r := rs[n - 1];
      assert rs[..n][..n - 1] == rs[..n - 1];
      assert ShieldAll(text, rs[..n]) == ShieldOccurrences(before, r);
      forall k | j <= k < j + |rs[i]| ensures ShieldOccurrences(before, r)[k] == before[k] {
        forall a: nat | a <= k < a + |r| ensures !Taken(before, 0, |r|, Literal(r), a) {
          if Taken(before, 0, |r|, Literal(r), a) {
            TakenIsMatch(before, 0, |r|, Literal(r), a);
            ShieldAllShieldsPeriods(text, rs[..n - 1]);
            OccursBeforeShielding(text, before, a, r);
            assert Overlap(text, a, rs[n - 1], j, rs[i]);
          }
        }
        ShieldOccurrencesOutside(before, r, k);
      }
      assert ShieldOccurrences(before, r)[j..j + |rs[i]|] == before[j..j + |rs[i]|];
    }
  }

  /** The index of the first copy of `w` in `rs`, or `|rs|`. */
  function FirstCopy(rs: seq<string>, w: string): (x: nat)
    ensures x <= |rs| && (x < |rs| ==> rs[x] == w)
    ensures forall y :: 0 <= y < x ==> rs[y] != w
  {
    if rs == [] then 0 else if rs[0] == w then 0 else 1 + FirstCopy(rs[1..], w)
  }

  /** No occurrence that starts before an alone occurrence and runs into it is taken. */
  lemma NotTakenAcross(text: string, rs: seq<string>, i: nat, j: nat, first: nat, a: nat)
    requires forall x :: 0 <= x < |rs| ==> rs[x] != [] && DottedAbbreviation(rs[x])
    requires i < |rs| && OccursAt(text, j, rs[i]) && AloneAt(text, rs, i, j)
    requires first <= i && rs[first] == rs[i]
    requires a < j < a + |rs[i]|
    ensures !Taken(ShieldAll(text, rs[..first]), 0, |rs[i]|, Literal(rs[i]), a)
  {
    var w := rs[i];
    var before := ShieldAll(text, rs[..first]);
    if Taken(before, 0, |w|, Literal(w), a) {
      TakenIsMatch(before, 0, |w|, Literal(w), a);
      ShieldAllShieldsPeriods(text, rs[..first]);
      OccursBeforeShielding(text, before, a, w);
      assert Overlap(text, a, rs[first], j, rs[i]);
    }
  }

  /** The gsub of the first copy of abbreviation `i` takes its occurrence that is alone. */
  lemma ShieldAllFirstCopy(text: string, rs: seq<string>, i: nat, j: nat, first: nat)
    requires forall x :: 0 <= x < |rs| ==> rs[x] != [] && DottedAbbreviation(rs[x])
    requires i < |rs| && OccursAt(text, j, rs[i]) && AloneAt(text, rs, i, j)
    requires first <= i && rs[first] == rs[i] && forall x :: 0 <= x < first ==> rs[x] != rs[i]
    ensures j + |rs[i]| <= |text|
    ensures forall m :: 0 <= m < |rs[i]| ==> ShieldAll(text, rs[..first + 1])[j + m] == ShieldDots(rs[i])[m]
  {
    var w := rs[i];
    ShieldAllBefore(text, rs, i, j, first);
    var before := ShieldAll(text, rs[..first]);
    forall a: nat | a < j < a + |w| ensures !Taken(before, 0, |w|, Literal(w), a) {
      NotTakenAcross(text, rs, i, j, first, a);
    }
    TakenIff(before, 0, |w|, Literal(w), j);
    ShieldOccurrencesAt(before, w, j);
    ShieldAllLast(text, rs, first);
  }

  /** The loop up to abbreviation `n` is the loop before it, then the gsub of `n`. */
  lemma ShieldAllLast(text: string, rs: seq<string>, n: nat)
    requires forall x :: 0 <= x < |rs| ==> rs[x] != []
    requires n < |rs|
    ensures ShieldAll(text, rs[..n + 1]) == ShieldOccurrences(ShieldAll(text, rs[..n]), rs[n])
  {
    assert rs[..n + 1][..n] == rs[..n];
  }

  /**
   * The loop over the scanned abbreviations shields every period of an
   * occurrence of abbreviation `i` that is alone.
   */
  lemma ShieldAllShieldsAlone(text: string, rs: seq<string>, i: nat, j: nat)
    requires forall x :: 0 <= x < |rs| ==> rs[x] != [] && DottedAbbreviation(rs[x])
    requires i < |rs| && OccursAt(text, j, rs[i]) && AloneAt(text, rs, i, j)
    ensures j + |rs[i]| <= |text|
    ensures forall m :: 0 <= m < |rs[i]| ==> ShieldAll(text, rs)[j + m] == ShieldDots(rs[i])[m]
  {
    var w := rs[i];
    var first := FirstCopy(rs, w);
    ShieldAllFirstCopy(text, rs, i, j, first);
    ShieldAllExtends(text, rs, first + 1);
    WindowStays(ShieldAll(text, rs[..first + 1]), ShieldAll(text, rs), ShieldDots(w), j);
  }

  /** A window holding no period is kept by any later shielding of periods. */
  lemma WindowStays(t: string, u: string, d: string, j: nat)
    requires ShieldsPeriods(t, u) && j + |d| <= |t|
    requires forall m :: 0 <= m < |d| ==> t[j + m] == d[m] && d[m] != '.'
    ensures forall m :: 0 <= m < |d| ==> u[j + m] == d[m]
  {
    forall m | 0 <= m < |d| ensures u[j + m] == d[m] {
      assert PeriodShield(t[j + m], u[j + m]);
    }
  }

  /** `(?<=form)∯(?=\s[A-Z])`: the shielded final period of `a.m.` or `p.m.` before a capitalised word. */
  predicate MeridiemAt(t: string, k: nat, form: string) {
    Follows(t, k, form) && k + 2 < |t| && IsSpace(t[k + 1]) && IsUpper(t[k + 2])
  }

  predicate AnyMeridiemAt(t: string, k: nat) {
    MeridiemAt(t, k, "a∯m") || MeridiemAt(t, k, "A∯M") || MeridiemAt(t, k, "p∯m") || MeridiemAt(t, k, "P∯M")
  }

  /** `b` is `a`, or `a` with a period shielded or unshielded. */
  predicate MovesShield(a: char, b: char) {
    b == a || (a == '.' && b == '∯') || (a == '∯' && b == '.')
  }

  predicate MovesShields(s: string, r: string) {
    |r| == |s| && forall k :: 0 <= k < |s| ==> MovesShield(s[k], r[k])
  }

  /**
   * The four restoring gsubs: exactly the shields that end a meridiem
   * abbreviation before a capitalised word become periods again.
   */
  function RestoreMeridiem(text: string): (r: string)
    ensures |r| == |text|
    ensures forall k :: 0 <= k < |text| ==>
              (r[k] != text[k] <==> text[k] == '∯' && AnyMeridiemAt(text, k))
    ensures forall k :: 0 <= k < |text| ==> r[k] != text[k] ==> r[k] == '.'
  {
    var t1 := ReplaceWhere(text, '∯', '.', (t: string, k: nat) => MeridiemAt(t, k, "a∯m"));
    MeridiemStable(text, t1);
    var t2 := ReplaceWhere(t1, '∯', '.', (t: string, k: nat) => MeridiemAt(t, k, "A∯M"));
    MeridiemStable(text, t2);
    var t3 := ReplaceWhere(t2, '∯', '.', (t: string, k: nat) => MeridiemAt(t, k, "p∯m"));
    MeridiemStable(text, t3);
    var t4 := ReplaceWhere(t3, '∯', '.', (t: string, k: nat) => MeridiemAt(t, k, "P∯M"));
    t4
  }

  /**
   * Unshielding the final period of a meridiem never changes a character
   * another meridiem pattern looks at: the letter before such a period is
   * never itself a shield, nor is the space after it.
   */
  lemma MeridiemStable(s: string, r: string)
    requires |r| == |s|
    requires forall k :: 0 <= k < |s| ==> r[k] == s[k] || (s[k] == '∯' && AnyMeridiemAt(s, k) && r[k] == '.')
    ensures forall k: nat, form :: form in ["a∯m", "A∯M", "p∯m", "P∯M"] ==> MeridiemAt(s, k, form) == MeridiemAt(r, k, form)
  {
    forall k: nat, form | form in ["a∯m", "A∯M", "p∯m", "P∯M"]
      ensures MeridiemAt(s, k, form) == MeridiemAt(r, k, form)
    {
      if 3 <= k && k + 2 < |s| {
        assert |form| == 3 && form[1] == '∯' && IsLetter(form[0]) && IsLetter(form[2]);
        if MeridiemAt(s, k, form) {
          assert s[k - 3] == form[0] && s[k - 2] == form[1] && s[k - 1] == form[2];
          assert !IsSpace(s[k - 1]);
          assert r[k - 2] == s[k - 2];
          assert r[k - 3..k] == [r[k - 3], r[k - 2], r[k - 1]];
        }
        if MeridiemAt(r, k, form) {
          assert r[k - 3] == form[0] && r[k - 2] == form[1] && r[k - 1] == form[2];
          assert s[k - 3..k] == [s[k - 3], s[k - 2], s[k - 1]];
        }
      }
    }
  }

  /** The whole pass on the text, as a specification of the loop that runs it. */
  function MultiPeriodAbbr(text: string): string {
    RestoreMeridiem(ShieldAll(text, Scan(text)))
  }

  /**
   * The pass only moves shields: length is kept, every character is the same
   * or a period traded for its shield or back, so the decoded text is the
   * same; and no shielded meridiem is left before a capitalised word.
   */
  lemma MultiPeriodAbbrMovesShields(text: string)
    ensures MovesShields(text, MultiPeriodAbbr(text))
    ensures Restore(MultiPeriodAbbr(text)) == Restore(text)
    ensures forall k :: 0 <= k < |text| ==> !(MultiPeriodAbbr(text)[k] == '∯' && AnyMeridiemAt(MultiPeriodAbbr(text), k))
  {
    var t := ShieldAll(text, Scan(text));
    var r := MultiPeriodAbbr(text);
    ScanFromDotted(text, 0);
    ShieldAllShieldsPeriods(text, Scan(text));
    assert MovesShields(text, r);
    MovesShieldsKeepsRestore(text, r);
    forall k | 0 <= k < |text| ensures !(r[k] == '∯' && AnyMeridiemAt(r, k)) {
      if r[k] == '∯' && AnyMeridiemAt(r, k) {
        assert r[k] == t[k] && t[k] == '∯';
        RestoreMeridiemStableAt(t, r, k);
        assert false;
      }
    }
  }

  /**
   * Every period of a scanned abbreviation whose occurrence is alone ends up
   * shielded, but for the final period of `a.m.`/`p.m.` before a capitalised
   * word, which is a period again.
   */
  lemma MultiPeriodAbbrShieldsAlone(text: string, i: nat, j: nat)
    requires i < |Scan(text)| && OccursAt(text, j, Scan(text)[i]) && AloneAt(text, Scan(text), i, j)
    ensures var t := ShieldAll(text, Scan(text));
            forall m :: 0 <= m < |Scan(text)[i]| && Scan(text)[i][m] == '.' ==>
              MultiPeriodAbbr(text)[j + m] == (if AnyMeridiemAt(t, j + m) then '.' else '∯')
  {
    var rs := Scan(text);
    var t := ShieldAll(text, rs);
    var r := RestoreMeridiem(t);
    ScanFromDotted(text, 0);
    ShieldAllShieldsAlone(text, rs, i, j);
    forall m | 0 <= m < |rs[i]| && rs[i][m] == '.'
      ensures r[j + m] == (if AnyMeridiemAt(t, j + m) then '.' else '∯')
    {
      assert t[j + m] == ShieldDots(rs[i])[m] == '∯';
    }
  }

  /** A character the restore leaves as a shield had no meridiem pattern around it before either. */
  lemma RestoreMeridiemStableAt(t: string, r: string, k: nat)
    requires r == RestoreMeridiem(t) && k < |t| && r[k] == t[k]
    ensures AnyMeridiemAt(r, k) ==> AnyMeridiemAt(t, k)
  {
    MeridiemStable(t, r);
  }

  lemma {:induction false} MovesShieldsKeepsRestore(s: string, r: string)
    requires MovesShields(s, r)
    ensures Restore(r) == Restore(s)
  {
    if s != [] {
      MovesShieldsKeepsRestore(s[1..], r[1..]);
      assert Restored(s[0]) == Restored(r[0]);
    }
  }
}
