/**
 * Quoted and bracketed spans (segmenter.rb:181-218) and `sub_punct`
 * (segmenter.rb:316-387): inside every span found on a line, the terminal
 * marks `. 。 ． ！ ! ? ？` are shielded so the split does not break a sentence
 * inside a quotation or a parenthesis.
 *
 * `sub_punct` escapes `( ) [ ] -` in the line and in each span before its
 * gsubs and unescapes the line afterwards. A span never ends in a backslash, so
 * the escaped span occurs in the escaped line exactly where the span occurs in
 * the line; the escaping is therefore left out and the gsubs act on the plain
 * texts.
 */
module Spans {
  import opened Chars
  import opened Rewrite
  import opened Outcomes
  import opened LineShields

  // ---------------------------------------------------------------------------
  // The span scanners

  /**
   * The body `(?>[^excl\\]+|\\{2}|\\.)*` followed by `close`, from position
   * `j`: the index of the closing delimiter, or None. A backslash escapes the
   * character after it (any but a line feed); a character of `excl` other than
   * the closing one ends the attempt.
   */
  function CloseAt(s: string, j: nat, close: char, excl: set<char>): (e: Option<nat>)
    requires j <= |s|
    ensures e.Some? ==> j <= e.value < |s| && s[e.value] == close
    decreases |s| - j
  {
    if j == |s| then None
    else if s[j] == close then Some(j)
    else if s[j] == '\\' then
      if j + 1 < |s| && s[j + 1] != '\n' then CloseAt(s, j + 2, close, excl) else None
    else if s[j] in excl then None
    else CloseAt(s, j + 1, close, excl)
  }

  /** A span: it opens with `open`, closes with `close`, and is longer than its opening. */
  predicate Delimited(a: string, open: string, close: char) {
    |open| < |a| && a[..|open|] == open && a[|a| - 1] == close
  }

  /** `s.scan(/open(?>[^excl\\]+|\\{2}|\\.)*close/)` from position `i`. */
  function ScanDelimitedFrom(s: string, i: nat, open: string, close: char, excl: set<char>): (spans: seq<string>)
    requires i <= |s| && open != []
    ensures forall m :: 0 <= m < |spans| ==> Delimited(spans[m], open, close)
    decreases |s| - i
  {
    if i == |s| then []
    else if i + |open| <= |s| && s[i..i + |open|] == open && CloseAt(s, i + |open|, close, excl).Some? then
      var e := CloseAt(s, i + |open|, close, excl).value;
      assert s[i..e + 1][..|open|] == s[i..i + |open|];
      [s[i..e + 1]] + ScanDelimitedFrom(s, e + 1, open, close, excl)
    else ScanDelimitedFrom(s, i + 1, open, close, excl)
  }

  function ScanDelimited(s: string, open: string, close: char, excl: set<char>): (spans: seq<string>)
    requires open != []
    ensures forall m :: 0 <= m < |spans| ==> Delimited(spans[m], open, close)
  {
    ScanDelimitedFrom(s, 0, open, close, excl)
  }

  /** The first `'` at or after `j` that no ASCII letter follows. */
  function FirstLoneQuote(s: string, j: nat): (q: Option<nat>)
    requires j <= |s|
    ensures q.Some? ==> j <= q.value < |s| && s[q.value] == '\'' && LoneQuoteAt(s, q.value)
    ensures forall k :: j <= k < |s| && (q.None? || k < q.value) ==> !LoneQuoteAt(s, k)
    decreases |s| - j
  {
    if j == |s| then None
    else if LoneQuoteAt(s, j) then Some(j)
    else FirstLoneQuote(s, j + 1)
  }

  /** A `'` that no ASCII letter follows. */
  predicate LoneQuoteAt(s: string, k: nat)
    requires k < |s|
  {
    s[k] == '\'' && !(k + 1 < |s| && IsLetter(s[k + 1]))
  }

  /** The last `'` at or after `j`. */
  function LastQuote(s: string, j: nat): (q: Option<nat>)
    requires j <= |s|
    ensures q.Some? ==> j <= q.value < |s| && s[q.value] == '\''
    ensures forall k :: j <= k < |s| && (q.None? || q.value < k) ==> s[k] != '\''
    decreases |s| - j
  {
    if j == |s| then None
    else if LastQuote(s, j + 1).Some? then LastQuote(s, j + 1)
    else if s[j] == '\'' then Some(j)
    else None
  }

  /**
   * The closing quote of `(?:[^']|'[a-zA-Z])*'` from `j`: the greedy body stops
   * at the first quote no letter follows; when there is none it runs to the
   * end and backtracks to the last quote.
   */
  function SingleQuoteEnd(s: string, j: nat): (q: Option<nat>)
    requires j <= |s|
    ensures q.Some? ==> j <= q.value < |s| && s[q.value] == '\''
  {
    if FirstLoneQuote(s, j).Some? then FirstLoneQuote(s, j) else LastQuote(s, j)
  }

  /** `s.scan(/(?<=\s)'(?:[^']|'[a-zA-Z])*'/)` from position `i`. */
  function ScanSingleQuotedFrom(s: string, i: nat): (spans: seq<string>)
    requires i <= |s|
    ensures forall m :: 0 <= m < |spans| ==> Delimited(spans[m], "'", '\'')
    decreases |s| - i
  {
    if i == |s| then []
    else if s[i] == '\'' && 0 < i && IsSpace(s[i - 1]) && SingleQuoteEnd(s, i + 1).Some? then
      var e := SingleQuoteEnd(s, i + 1).value;
      [s[i..e + 1]] + ScanSingleQuotedFrom(s, e + 1)
    else ScanSingleQuotedFrom(s, i + 1)
  }

  /** A span of `s.scan(/open(?>[^excl\\]+|\\{2}|\\.)*close/)` opens at `a`. */
  predicate SpanAt(s: string, a: nat, open: string, close: char, excl: set<char>)
    requires a <= |s|
  {
    a + |open| <= |s| && s[a..a + |open|] == open && CloseAt(s, a + |open|, close, excl).Some?
  }

  /** The scan finds nothing exactly when no span opens at or after `i`. */
  lemma {:induction false} ScanDelimitedEmpty(s: string, i: nat, open: string, close: char, excl: set<char>)
    requires i <= |s| && open != []
    ensures ScanDelimitedFrom(s, i, open, close, excl) == [] <==>
              forall a :: i <= a < |s| ==> !SpanAt(s, a, open, close, excl)
    decreases |s| - i
  {
    if i < |s| && !SpanAt(s, i, open, close, excl) {
      ScanDelimitedEmpty(s, i + 1, open, close, excl);
    }
  }

  /**
   * The scan's first span is the one that opens first, and it ends at its
   * closing delimiter; the scan resumes after it.
   */
  lemma {:induction false} ScanDelimitedFirst(s: string, i: nat, open: string, close: char, excl: set<char>, a: nat)
    requires i <= a < |s| && open != []
    requires SpanAt(s, a, open, close, excl)
    requires forall b :: i <= b < a ==> !SpanAt(s, b, open, close, excl)
    ensures var e := CloseAt(s, a + |open|, close, excl).value;
            ScanDelimitedFrom(s, i, open, close, excl) == [s[a..e + 1]] + ScanDelimitedFrom(s, e + 1, open, close, excl)
    decreases a - i
  {
    if i < a {
      assert !SpanAt(s, i, open, close, excl);
      ScanDelimitedFirst(s, i + 1, open, close, excl, a);
    }
  }

  /** A span of `s.scan(/(?<=\s)'(?:[^']|'[a-zA-Z])*'/)` opens at `a`. */
  predicate SingleQuotedAt(s: string, a: nat)
    requires a < |s|
  {
    s[a] == '\'' && 0 < a && IsSpace(s[a - 1]) && SingleQuoteEnd(s, a + 1).Some?
  }

  /** The single-quote scan finds nothing exactly when no span opens at or after `i`. */
  lemma {:induction false} ScanSingleQuotedEmpty(s: string, i: nat)
    requires i <= |s|
    ensures ScanSingleQuotedFrom(s, i) == [] <==> forall a :: i <= a < |s| ==> !SingleQuotedAt(s, a)
    decreases |s| - i
  {
    if i < |s| && !SingleQuotedAt(s, i) {
      ScanSingleQuotedEmpty(s, i + 1);
    }
  }

  /** The single-quote scan's first span is the one that opens first; the scan resumes after it. */
  lemma {:induction false} ScanSingleQuotedFirst(s: string, i: nat, a: nat)
    requires i <= a < |s| && SingleQuotedAt(s, a)
    requires forall b :: i <= b < a ==> !SingleQuotedAt(s, b)
    ensures var e := SingleQuoteEnd(s, a + 1).value;
            ScanSingleQuotedFrom(s, i) == [s[a..e + 1]] + ScanSingleQuotedFrom(s, e + 1)
    decreases a - i
  {
    if i < a {
      assert !SingleQuotedAt(s, i);
      ScanSingleQuotedFirst(s, i + 1, a);
    }
  }

  /** The number of non-overlapping occurrences of `w` from position `i` on, found left to right. */
  function CountFrom(s: string, i: nat, w: string): nat
    requires i <= |s| && w != []
    decreases |s| - i
  {
    if i == |s| then 0
    else if i + |w| <= |s| && s[i..i + |w|] == w then 1 + CountFrom(s, i + |w|, w)
    else CountFrom(s, i + 1, w)
  }

  /** Some occurrence is counted exactly when `w` occurs at or after `i`. */
  lemma {:induction false} CountFromPositive(s: string, i: nat, w: string)
    requires i <= |s| && w != []
    ensures CountFrom(s, i, w) > 0 <==> exists a :: i <= a < |s| && OccursAt(s, a, w)
    decreases |s| - i
  {
    if i < |s| && !OccursAt(s, i, w) {
      CountFromPositive(s, i + 1, w);
      if exists a :: i <= a < |s| && OccursAt(s, a, w) {
        var a :| i <= a < |s| && OccursAt(s, a, w);
        assert a != i;
      }
    } else if i < |s| {
      assert OccursAt(s, i, w);
    }
  }

  /** The first occurrence is counted, and the count resumes after it. */
  lemma {:induction false} CountFromFirst(s: string, i: nat, w: string, a: nat)
    requires i <= a && w != [] && OccursAt(s, a, w)
    requires forall b :: i <= b < a ==> !OccursAt(s, b, w)
    ensures CountFrom(s, i, w) == 1 + CountFrom(s, a + |w|, w)
    decreases a - i
  {
    if i < a {
      assert !OccursAt(s, i, w);
      CountFromFirst(s, i + 1, w, a);
    }
  }

  /** `s.scan(/#{Regexp.escape(w)}/)`: `w` once for each occurrence. */
  function ScanLiteral(s: string, w: string): (spans: seq<string>)
    requires w != []
    ensures |spans| == CountFrom(s, 0, w)
    ensures forall m :: 0 <= m < |spans| ==> spans[m] == w
    ensures spans != [] <==> exists a :: 0 <= a < |s| && OccursAt(s, a, w)
  {
    CountFromPositive(s, 0, w);
    seq(CountFrom(s, 0, w), _ => w)
  }

  /** The words whose exclamation marks (and click letters) are part of the word. */
  const ExclamationWords: seq<string> :=
    ["!Xũ", "!Kung", "ǃʼOǃKung", "!Xuun", "!Kung-Ekoka", "ǃHu", "ǃKhung",
     "ǃKu", "ǃung", "ǃXo", "ǃXû", "ǃXung", "ǃXũ", "!Xun",
     "Yahoo!", "Y!J", "Yum!"]

  // ---------------------------------------------------------------------------
  // sub_punct

  /** `a.gsub(c, t)` for one character `t`. */
  function ShieldIn(a: string, c: char, t: char): (r: string)
    ensures |r| == |a|
    ensures forall k :: 0 <= k < |a| ==> r[k] == (if a[k] == c then t else a[k])
  {
    seq(|a|, k requires 0 <= k < |a| => if a[k] == c then t else a[k])
  }

  /** Replacing every occurrence of `x` by a shielded form of it shields marks in the text. */
  lemma ReplaceShielded(content: string, x: string, y: string)
    requires x != [] && MarksShielded(x, y)
    ensures MarksShielded(content, ReplaceLiteral(content, x, y))
  {
    forall j | 0 <= j && j + |x| <= |content| && Literal(x)(content, j)
      ensures |Fixed(y)(content, j)| == |x| && forall m :: 0 <= m < |x| ==> ShieldsMark(content[j + m], Fixed(y)(content, j)[m])
    {
      assert content[j..j + |x|] == x;
      forall m | 0 <= m < |x| ensures ShieldsMark(content[j + m], y[m]) {
        assert content[j + m] == content[j..j + |x|][m];
      }
    }
    GsubRelates(content, 0, |x|, Literal(x), Fixed(y), ShieldsMark);
  }

  /** One step of the chain: shield mark `c` as `t` inside `sub` when the span has a `c`. */
  function ChainStep(content: string, a: string, sub: string, c: char, t: char): (r: (string, string))
    requires sub != [] && ShieldsMark(c, t)
    ensures |r.1| == |sub| && MarksShielded(sub, r.1)
    ensures MarksShielded(content, r.0)
  {
    var next := if c in a then ShieldIn(sub, c, t) else sub;
    assert MarksShielded(sub, next);
    ReplaceShielded(content, sub, next);
    (ReplaceLiteral(content, sub, next), next)
  }

  /** The marks of `sub_punct`'s chain, each with its sentinel, in the order of the gsubs. */
  const ChainMarks: seq<(char, char)> :=
    [('.', '∯'), ('。', 'ᓰ'), ('．', 'ᓱ'), ('！', 'ᓳ'), ('!', 'ᓴ'), ('?', 'ᓷ'), ('？', 'ᓸ')]

  /** Every step of the chain shields a mark as a different character. */
  lemma ChainMarksShield()
    ensures forall i :: 0 <= i < |ChainMarks| ==> ShieldsMark(ChainMarks[i].0, ChainMarks[i].1)
    ensures forall i :: 0 <= i < |ChainMarks| ==> ChainMarks[i].0 != ChainMarks[i].1
  {
  }

  /**
   * The first `n` gsubs of `sub_punct` for one span `a` (segmenter.rb:331-378):
   * the content, and the form of the span that the next gsub looks for. The
   * first replaces every occurrence of `a` with its periods shielded, the
   * next every occurrence of that result with its `。` shielded, and so on
   * through `． ！ ! ? ？`.
   */
  function Chain(content: string, a: string, n: nat): (r: (string, string))
    requires a != [] && n <= |ChainMarks|
    ensures |r.1| == |a| && MarksShielded(a, r.1) && MarksShielded(content, r.0)
  {
    if n == 0 then
      assert MarksShielded(a, a) && MarksShielded(content, content);
      (content, a)
    else
      var (c, sub) := Chain(content, a, n - 1);
      ChainMarksShield();
      var r := ChainStep(c, a, sub, ChainMarks[n - 1].0, ChainMarks[n - 1].1);
      MarksShieldedTransitive(content, c, r.0);
      MarksShieldedTransitive(a, sub, r.1);
      r
  }

  /** The seven gsubs of `sub_punct` for one span: only marks change, each to its own sentinel. */
  function SubPunctSpan(content: string, a: string): (r: string)
    requires a != []
    ensures MarksShielded(content, r)
  {
    Chain(content, a, |ChainMarks|).0
  }

  /** The sentinel `sub_punct` puts for a terminal mark; any other character stays. */
  function MarkShield(c: char): (d: char)
    ensures ShieldsMark(c, d)
  {
    if c == '.' then '∯' else if c == '。' then 'ᓰ' else if c == '．' then 'ᓱ'
    else if c == '！' then 'ᓳ' else if c == '!' then 'ᓴ' else if c == '?' then 'ᓷ'
    else if c == '？' then 'ᓸ' else c
  }

  /** Shielding a mark does not change what it shields to. */
  lemma ShieldsMarkAlike(u: char, v: char)
    requires ShieldsMark(u, v)
    ensures MarkShield(u) == MarkShield(v)
  {
  }

  /** `x` stands in `t` at `j`. */
  predicate HoldsAt(t: string, j: nat, x: string) {
    j + |x| <= |t| && forall m :: 0 <= m < |x| ==> t[j + m] == x[m]
  }

  /** The window of `t` at `i` is `a` once every mark on either side is shielded. */
  predicate AlikeAt(t: string, i: nat, a: string) {
    i + |a| <= |t| && forall m :: 0 <= m < |a| ==> MarkShield(t[i + m]) == MarkShield(a[m])
  }

  /** No window alike `a` overlaps the one at `j`, other than that one. */
  predicate IsolatedAt(t: string, j: nat, a: string) {
    forall i: nat :: i != j && i < j + |a| && j < i + |a| ==> !AlikeAt(t, i, a)
  }

  /**
   * A literal gsub of a shielded form `x` of `a`, on a text that is `content`
   * with some marks shielded, rewrites the window at `j` that holds `x` when
   * no other window of `content` alike `a` overlaps it.
   */
  lemma ReplaceIsolated(content: string, c: string, a: string, x: string, y: string, j: nat)
    requires a != [] && MarksShielded(content, c) && MarksShielded(a, x) && |y| == |x|
    requires IsolatedAt(content, j, a) && HoldsAt(c, j, x)
    ensures |ReplaceLiteral(c, x, y)| == |c| && HoldsAt(ReplaceLiteral(c, x, y), j, y)
  {
    var len := |x|;
    forall i: nat | i < j < i + len ensures !Taken(c, 0, len, Literal(x), i) {
      if Taken(c, 0, len, Literal(x), i) {
        TakenIsMatch(c, 0, len, Literal(x), i);
        forall m | 0 <= m < |a| ensures MarkShield(content[i + m]) == MarkShield(a[m]) {
          assert c[i + m] == c[i..i + len][m] == x[m];
          ShieldsMarkAlike(content[i + m], c[i + m]);
          ShieldsMarkAlike(a[m], x[m]);
        }
        assert AlikeAt(content, i, a);
      }
    }
    assert c[j..j + len] == x;
    TakenIff(c, 0, len, Literal(x), j);
    GsubFixedAtTaken(c, len, Literal(x), y, j);
  }

  /** One step of the chain on an isolated occurrence: its window takes the step's new form. */
  lemma ChainStepIsolated(content: string, c: string, a: string, sub: string, ch: char, t: char, j: nat)
    requires a != [] && sub != [] && ShieldsMark(ch, t) && ch != t
    requires MarksShielded(content, c) && MarksShielded(a, sub)
    requires IsolatedAt(content, j, a) && HoldsAt(c, j, sub)
    ensures var r := ChainStep(c, a, sub, ch, t);
            MarksShielded(content, r.0) && MarksShielded(a, r.1) && HoldsAt(r.0, j, r.1)
            && forall m :: 0 <= m < |sub| ==> r.1[m] == (if sub[m] == ch then t else sub[m])
  {
    var r := ChainStep(c, a, sub, ch, t);
    MarksShieldedTransitive(content, c, r.0);
    MarksShieldedTransitive(a, sub, r.1);
    ReplaceIsolated(content, c, a, sub, r.1, j);
    assert forall m :: 0 <= m < |sub| ==> ShieldsMark(a[m], sub[m]);
  }

  /** `c` after the first `n` steps of the chain: shielded if one of them names it. */
  function ShieldUpTo(c: char, n: nat): char
    requires n <= |ChainMarks|
  {
    if n == 0 then c
    else if ShieldUpTo(c, n - 1) == ChainMarks[n - 1].0 then ChainMarks[n - 1].1
    else ShieldUpTo(c, n - 1)
  }

  /** After the whole chain, every mark is shielded. */
  lemma ShieldUpToAll(c: char)
    ensures ShieldUpTo(c, |ChainMarks|) == MarkShield(c)
  {
    var d1 := if c == '.' then '∯' else c;
    assert ShieldUpTo(c, 1) == d1;
    var d2 := if c == '。' then 'ᓰ' else d1;
    assert ShieldUpTo(c, 2) == d2;
    var d3 := if c == '．' then 'ᓱ' else d2;
    assert ShieldUpTo(c, 3) == d3;
    var d4 := if c == '！' then 'ᓳ' else d3;
    assert ShieldUpTo(c, 4) == d4;
    var d5 := if c == '!' then 'ᓴ' else d4;
    assert ShieldUpTo(c, 5) == d5;
    var d6 := if c == '?' then 'ᓷ' else d5;
    assert ShieldUpTo(c, 6) == d6;
  }

  /** The chain on an isolated occurrence: after `n` steps its window holds the span with the first `n` marks shielded. */
  lemma {:induction false} ChainIsolated(content: string, a: string, j: nat, n: nat)
    requires a != [] && n <= |ChainMarks| && OccursAt(content, j, a) && IsolatedAt(content, j, a)
    ensures HoldsAt(Chain(content, a, n).0, j, Chain(content, a, n).1)
    ensures forall m :: 0 <= m < |a| ==> Chain(content, a, n).1[m] == ShieldUpTo(a[m], n)
  {
    if n == 0 {
      forall m | 0 <= m < |a| ensures content[j + m] == a[m] {
        assert content[j + m] == content[j..j + |a|][m];
      }
    } else {
      ChainIsolated(content, a, j, n - 1);
      var (c, sub) := Chain(content, a, n - 1);
      ChainMarksShield();
      ChainStepIsolated(content, c, a, sub, ChainMarks[n - 1].0, ChainMarks[n - 1].1, j);
    }
  }

  /**
   * `sub_punct` for one span shields every terminal mark of an occurrence of
   * the span that no other occurrence (of the span or of a shielded form of
   * it) overlaps, and leaves its other characters as they are.
   */
  lemma SubPunctSpanShieldsIsolated(content: string, a: string, j: nat)
    requires a != [] && OccursAt(content, j, a) && IsolatedAt(content, j, a)
    ensures |SubPunctSpan(content, a)| == |content|
    ensures forall m :: 0 <= m < |a| ==> SubPunctSpan(content, a)[j + m] == MarkShield(a[m])
  {
    ChainIsolated(content, a, j, |ChainMarks|);
    forall m | 0 <= m < |a| ensures SubPunctSpan(content, a)[j + m] == MarkShield(a[m]) {
      ShieldUpToAll(a[m]);
    }
  }

  /** `sub_punct(spans, content)` as a specification: the spans handled in order. */
  function SubPunctAll(content: string, spans: seq<string>): (r: string)
    requires forall m :: 0 <= m < |spans| ==> spans[m] != []
    ensures MarksShielded(content, r)
    decreases |spans|
  {
    if spans == [] then content
    else
      var before := SubPunctAll(content, spans[..|spans| - 1]);
      var after := SubPunctSpan(before, spans[|spans| - 1]);
      MarksShieldedTransitive(content, before, after);
      after
  }

  /** A window whose marks are all shielded stays as it is under any further shielding. */
  lemma ShieldedWindowStays(x: string, y: string, j: nat, a: string)
    requires MarksShielded(x, y) && j + |a| <= |x|
    requires forall m :: 0 <= m < |a| ==> x[j + m] == MarkShield(a[m])
    ensures forall m :: 0 <= m < |a| ==> y[j + m] == MarkShield(a[m])
  {
    forall m | 0 <= m < |a| ensures y[j + m] == MarkShield(a[m]) {
      assert ShieldsMark(x[j + m], y[j + m]);
    }
  }

  /** Later spans only shield more marks. */
  lemma {:induction false} SubPunctAllExtends(content: string, spans: seq<string>, k: nat)
    requires forall m :: 0 <= m < |spans| ==> spans[m] != []
    requires k <= |spans|
    ensures MarksShielded(SubPunctAll(content, spans[..k]), SubPunctAll(content, spans))
    decreases |spans|
  {
    if k == |spans| {
      assert spans[..k] == spans;
      var r := SubPunctAll(content, spans);
      assert forall i :: 0 <= i < |r| ==> ShieldsMark(r[i], r[i]);
    } else {
      var front := spans[..|spans| - 1];
      assert front[..k] == spans[..k];
      SubPunctAllExtends(content, front, k);
      MarksShieldedTransitive(SubPunctAll(content, spans[..k]), SubPunctAll(content, front), SubPunctAll(content, spans));
    }
  }

  /**
   * `sub_punct` over a list of spans shields every mark of an occurrence of
   * span `i` that is isolated in the content as the spans before it left it.
   */
  lemma SubPunctAllShieldsIsolated(content: string, spans: seq<string>, i: nat, j: nat)
    requires forall m :: 0 <= m < |spans| ==> spans[m] != []
    requires i < |spans|
    requires OccursAt(SubPunctAll(content, spans[..i]), j, spans[i])
    requires IsolatedAt(SubPunctAll(content, spans[..i]), j, spans[i])
    ensures forall m :: 0 <= m < |spans[i]| ==> SubPunctAll(content, spans)[j + m] == MarkShield(spans[i][m])
  {
    var before := SubPunctAll(content, spans[..i]);
    SubPunctSpanShieldsIsolated(before, spans[i], j);
    assert spans[..i + 1][..i] == spans[..i];
    assert SubPunctAll(content, spans[..i + 1]) == SubPunctSpan(before, spans[i]);
    SubPunctAllExtends(content, spans, i + 1);
    ShieldedWindowStays(SubPunctAll(content, spans[..i + 1]), SubPunctAll(content, spans), j, spans[i]);
  }

  /** `sub_punct`: the loop over the spans, each shielding the marks inside its occurrences. */
  method SubPunct(spans: seq<string>, content: string) returns (r: string)
    requires forall m :: 0 <= m < |spans| ==> spans[m] != []
    ensures r == SubPunctAll(content, spans)
    ensures MarksShielded(content, r)
  {
    r := content;
    for i := 0 to |spans|
      invariant r == SubPunctAll(content, spans[..i])
    {
      assert spans[..i + 1][..i] == spans[..i];
      r := SubPunctSpan(r, spans[i]);
    }
    assert spans[..|spans|] == spans;
  }

  predicate NonEmptyWords(words: seq<string>) {
    forall m :: 0 <= m < |words| ==> words[m] != []
  }

  lemma ExclamationWordsNonEmpty()
    ensures NonEmptyWords(ExclamationWords)
  {
  }

  /**
   * The exclamation-word loop (segmenter.rb:207-210) over `words`: each word is
   * scanned on the line as the previous words left it, since the scanned copy
   * aliases the line that `sub_punct` rewrites.
   */
  function ShieldWords(line: string, words: seq<string>): (r: string)
    requires NonEmptyWords(words)
    ensures MarksShielded(line, r)
    decreases |words|
  {
    if words == [] then line
    else
      var before := ShieldWords(line, words[..|words| - 1]);
      var after := SubPunctAll(before, ScanLiteral(before, words[|words| - 1]));
      MarksShieldedTransitive(line, before, after);
      after
  }

  /** Later words only shield more marks. */
  lemma {:induction false} ShieldWordsExtends(line: string, words: seq<string>, k: nat)
    requires NonEmptyWords(words) && k <= |words|
    ensures MarksShielded(ShieldWords(line, words[..k]), ShieldWords(line, words))
    decreases |words|
  {
    if k == |words| {
      assert words[..k] == words;
      var r := ShieldWords(line, words);
      assert forall i :: 0 <= i < |r| ==> ShieldsMark(r[i], r[i]);
    } else {
      var front := words[..|words| - 1];
      assert front[..k] == words[..k];
      ShieldWordsExtends(line, front, k);
      MarksShieldedTransitive(ShieldWords(line, words[..k]), ShieldWords(line, front), ShieldWords(line, words));
    }
  }

  /**
   * Every mark of word `i` (`Yahoo!`, `!Kung`, ...) is shielded where the
   * word occurs, isolated, in the line as the words before it left it.
   */
  lemma ShieldWordsShieldsIsolated(line: string, words: seq<string>, i: nat, j: nat)
    requires NonEmptyWords(words) && i < |words|
    requires OccursAt(ShieldWords(line, words[..i]), j, words[i])
    requires IsolatedAt(ShieldWords(line, words[..i]), j, words[i])
    ensures forall m :: 0 <= m < |words[i]| ==> ShieldWords(line, words)[j + m] == MarkShield(words[i][m])
  {
    var before := ShieldWords(line, words[..i]);
    var w := words[i];
    CountFromPositive(before, 0, w);
    var found := ScanLiteral(before, w);
    assert 0 < |found| && found[..0] == [];
    SubPunctAllShieldsIsolated(before, found, 0, j);
    assert words[..i + 1][..i] == words[..i];
    assert ShieldWords(line, words[..i + 1]) == SubPunctAll(before, found);
    ShieldWordsExtends(line, words, i + 1);
    ShieldedWindowStays(ShieldWords(line, words[..i + 1]), ShieldWords(line, words), j, w);
  }

  /** The loop over the words, one `scan` and one `sub_punct` per word. */
  method ShieldWordsInTurn(line: string, words: seq<string>) returns (r: string)
    requires NonEmptyWords(words)
    ensures r == ShieldWords(line, words)
  {
    r := line;
    for i := 0 to |words|
      invariant r == ShieldWords(line, words[..i])
    {
      assert words[..i + 1][..i] == words[..i];
      var exclamAbbr := ScanLiteral(r, words[i]);
      r := SubPunct(exclamAbbr, r);
    }
    assert words[..|words|] == words;
  }

  /** Whether `,,` occurs in `s`. */
  predicate HasDoubleComma(s: string) {
    exists i :: 0 <= i < |s| - 1 && s[i] == ',' && s[i + 1] == ','
  }

  /** `btwn_dbl_quote` (segmenter.rb:182-193): German low-high quotes, or straight double quotes. */
  function DoubleQuoted(line: string, language: string): (spans: seq<string>)
    ensures forall m :: 0 <= m < |spans| ==> spans[m] != []
    ensures language != "de" ==> forall m :: 0 <= m < |spans| ==> Delimited(spans[m], "\"", '"')
    ensures language == "de" && '„' in line ==> forall m :: 0 <= m < |spans| ==> Delimited(spans[m], "„", '“')
    ensures language == "de" && '„' !in line ==> forall m :: 0 <= m < |spans| ==> Delimited(spans[m], ",,", '“')
    ensures language == "de" && '„' !in line && !HasDoubleComma(line) ==> spans == []
  {
    if language == "de" then
      if '„' in line then
        var anchored := if 0 < |line| && line[0] == '„' && CloseAt(line, 1, '“', {'“'}).Some?
                        then [line[..CloseAt(line, 1, '“', {'“'}).value + 1]] else [];
        ScanDelimited(line, "„", '“', {'“'}) + anchored
      else if HasDoubleComma(line) then ScanDelimited(line, ",,", '“', {'“'})
      else []
    else ScanDelimited(line, "\"", '"', {'"'})
  }

  /**
   * The span shields of `analyze_lines` in their order (segmenter.rb:195-218):
   * every span list is scanned on the line before any of them is applied; the
   * exclamation words are scanned as they are applied.
   */
  function ShieldSpans(line: string, language: string): (r: string)
    ensures MarksShielded(line, r)
  {
    var dbl := DoubleQuoted(line, language);
    var sngl := ScanSingleQuotedFrom(line, 0);
    var jpQuote := ScanDelimited(line, "「", '」', {'「', '」'});
    var parens := ScanDelimited(line, "(", ')', {'(', ')'});
    var jpParens := ScanDelimited(line, "（", '）', {'（', '）'});
    var ruQuote := ScanDelimited(line, "«", '»', {'»'});
    var dblSpec := ScanDelimited(line, "”", '”', {'”'});
    var dblSpec2 := ScanDelimited(line, "“", '”', {'”'});
    ExclamationWordsNonEmpty();
    var l0 := ShieldWords(line, ExclamationWords);
    var l1 := SubPunctAll(l0, dblSpec);
    var l2 := SubPunctAll(l1, dblSpec2);
    var l3 := SubPunctAll(l2, ruQuote);
    var l4 := SubPunctAll(l3, dbl);
    var l5 := SubPunctAll(l4, sngl);
    var l6 := SubPunctAll(l5, jpQuote);
    var l7 := SubPunctAll(l6, parens);
    var l8 := SubPunctAll(l7, jpParens);
    MarksShieldedTransitive(line, l0, l1);
    MarksShieldedTransitive(line, l1, l2);
    MarksShieldedTransitive(line, l2, l3);
    MarksShieldedTransitive(line, l3, l4);
    MarksShieldedTransitive(line, l4, l5);
    MarksShieldedTransitive(line, l5, l6);
    MarksShieldedTransitive(line, l6, l7);
    MarksShieldedTransitive(line, l7, l8);
    l8
  }

  /** The span shields as `analyze_lines` runs them: scan every list, then hand each to `sub_punct`. */
  method ShieldSpansOnLine(line: string, language: string) returns (r: string)
    ensures r == ShieldSpans(line, language)
    ensures MarksShielded(line, r)
  {
    var dbl := DoubleQuoted(line, language);
    var sngl := ScanSingleQuotedFrom(line, 0);
    var jpQuote := ScanDelimited(line, "「", '」', {'「', '」'});
    var parens := ScanDelimited(line, "(", ')', {'(', ')'});
    var jpParens := ScanDelimited(line, "（", '）', {'（', '）'});
    var ruQuote := ScanDelimited(line, "«", '»', {'»'});
    var dblSpec := ScanDelimited(line, "”", '”', {'”'});
    var dblSpec2 := ScanDelimited(line, "“", '”', {'”'});
    ExclamationWordsNonEmpty();
    r := ShieldWordsInTurn(line, ExclamationWords);
    r := SubPunct(dblSpec, r);
    r := SubPunct(dblSpec2, r);
    r := SubPunct(ruQuote, r);
    r := SubPunct(dbl, r);
    r := SubPunct(sngl, r);
    r := SubPunct(jpQuote, r);
    r := SubPunct(parens, r);
    r := SubPunct(jpParens, r);
  }
}
