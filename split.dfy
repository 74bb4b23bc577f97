/**
 * The split of one shielded line into sentence pieces (segmenter.rb:223-249).
 * Eight languages scan with `.*?[marks]|.*?$`, which cuts the line after each
 * of its marks; every other language scans with seven alternatives that pick
 * out quoted or bracketed sentences and runs ending in a terminal character.
 * The mark classes are the ones written in the scans, not the punctuation
 * tables: Hindi splits on `। | ! ?` and not on `.`.
 */
module Split {
  import opened Chars
  import opened Outcomes
  import opened Symbols
  import Rewrite

  /** The pieces joined back together. */
  function Concat(ps: seq<string>): string {
    if ps == [] then [] else ps[0] + Concat(ps[1..])
  }

  lemma ConcatSingle(p: string)
    ensures Concat([p]) == p
  {
    assert [p][1..] == [];
  }

  lemma ConcatCons(p: string, rest: seq<string>)
    ensures Concat([p] + rest) == p + Concat(rest)
  {
    assert ([p] + rest)[1..] == rest;
  }

  lemma {:induction false} ConcatAppend(a: seq<string>, b: seq<string>)
    ensures Concat(a + b) == Concat(a) + Concat(b)
  {
    if a == [] {
      assert a + b == b;
    } else {
      assert (a + b)[1..] == a[1..] + b;
      ConcatAppend(a[1..], b);
    }
  }

  /** Decoding the pieces one by one decodes their join. */
  lemma {:induction false} SubSymbolsConcat(ps: seq<string>)
    ensures Concat(seq(|ps|, m requires 0 <= m < |ps| => SubSymbols(ps[m]))) == SubSymbols(Concat(ps))
  {
    if ps != [] {
      var decoded := seq(|ps|, m requires 0 <= m < |ps| => SubSymbols(ps[m]));
      var rest := seq(|ps| - 1, m requires 0 <= m < |ps| - 1 => SubSymbols(ps[1..][m]));
      assert decoded[1..] == rest;
      SubSymbolsConcat(ps[1..]);
      SubSymbolsAppend(ps[0], Concat(ps[1..]));
    }
  }

  // ---------------------------------------------------------------------------
  // The eight mark-class scans

  /** The marks each scan of `segmenter.rb:227-243` cuts after; None for the default branch. */
  function SplitClass(language: string): (cls: Option<set<char>>)
    ensures cls.Some? ==> cls.value != {}
  {
    if language == "ar" then Some({':', '.', '!', '?', '؟', '،'})
    else if language == "fa" then Some({':', '.', '!', '?', '؟'})
    else if language == "hi" then Some({'।', '|', '!', '?'})
    else if language == "hy" then Some({'։', '՜', ':'})
    else if language == "el" then Some({'.', ';', '!', '?'})
    else if language == "my" then Some({'။', '၏', '!', '?'})
    else if language == "am" then Some({'፧', '።', '!', '?'})
    else if language == "ur" then Some({'۔', '؟', '!', '?'})
    else None
  }

  /** The first position at or after `i` holding a mark of `cls`. */
  function FirstMark(s: string, i: nat, cls: set<char>): (j: Option<nat>)
    requires i <= |s|
    ensures j.Some? ==> i <= j.value < |s| && s[j.value] in cls
    decreases |s| - i
  {
    if i == |s| then None
    else if s[i] in cls then Some(i)
    else FirstMark(s, i + 1, cls)
  }

  /** No mark lies between `i` and the one found, nor after `i` when none is found. */
  lemma {:induction false} FirstMarkIsFirst(s: string, i: nat, cls: set<char>)
    requires i <= |s|
    ensures var j := FirstMark(s, i, cls);
            forall k :: i <= k < (if j.Some? then j.value else |s|) ==> s[k] !in cls
    decreases |s| - i
  {
    if i < |s| && s[i] !in cls {
      FirstMarkIsFirst(s, i + 1, cls);
    }
  }

  /**
   * `s.scan(/.*?[cls]|.*?$/)` from `i`, on a line without line feeds: a piece
   * up to and including each next mark, then what is left when it is not
   * empty, then the empty match at the end of the line.
   */
  function ClassScanFrom(s: string, i: nat, cls: set<char>): (ps: seq<string>)
    requires i <= |s|
    decreases |s| - i
  {
    if i == |s| then [""]
    else match FirstMark(s, i, cls)
      case Some(j) => [s[i..j + 1]] + ClassScanFrom(s, j + 1, cls)
      case None => [s[i..], ""]
  }

  /** A piece that ends at the first mark it holds. */
  predicate EndsAtFirstMark(p: string, cls: set<char>) {
    p != [] && p[|p| - 1] in cls && forall k :: 0 <= k < |p| - 1 ==> p[k] !in cls
  }

  predicate Unmarked(p: string, cls: set<char>) {
    forall k :: 0 <= k < |p| ==> p[k] !in cls
  }

  /** The mark-class scan joins back to the line it cut. */
  lemma {:induction false} ClassScanJoins(s: string, i: nat, cls: set<char>)
    requires i <= |s|
    ensures Concat(ClassScanFrom(s, i, cls)) == s[i..]
    decreases |s| - i, 1
  {
    if i == |s| {
      ConcatSingle("");
    } else {
      match FirstMark(s, i, cls)
      case Some(j) => JoinsAfterMark(s, i, cls, j);
      case None => JoinsWithoutMark(s, i, cls);
    }
  }

  lemma {:induction false} JoinsAfterMark(s: string, i: nat, cls: set<char>, j: nat)
    requires i < |s| && FirstMark(s, i, cls) == Some(j)
    ensures Concat(ClassScanFrom(s, i, cls)) == s[i..]
    decreases |s| - i, 0
  {
    ClassScanStep(s, i, cls, j);
    ClassScanJoins(s, j + 1, cls);
    ConcatCons(s[i..j + 1], ClassScanFrom(s, j + 1, cls));
    Rewrite.SliceSplit(s, i, j + 1);
  }

  lemma ClassScanStep(s: string, i: nat, cls: set<char>, j: nat)
    requires i < |s| && FirstMark(s, i, cls) == Some(j)
    ensures j < |s| && ClassScanFrom(s, i, cls) == [s[i..j + 1]] + ClassScanFrom(s, j + 1, cls)
  {
  }

  lemma JoinsWithoutMark(s: string, i: nat, cls: set<char>)
    requires i < |s| && FirstMark(s, i, cls) == None
    ensures Concat(ClassScanFrom(s, i, cls)) == s[i..]
  {
    assert ClassScanFrom(s, i, cls) == [s[i..]] + [""];
    ConcatCons(s[i..], [""]);
    ConcatSingle("");
  }

  /**
   * The last piece of the mark-class scan is the empty match at the end of
   * the line, and every other piece ends at its first mark except the
   * mark-free rest of the line just before that empty match.
   */
  lemma {:induction false} ClassScanPieces(s: string, i: nat, cls: set<char>)
    requires i <= |s|
    ensures |ClassScanFrom(s, i, cls)| > 0
    ensures ClassScanFrom(s, i, cls)[|ClassScanFrom(s, i, cls)| - 1] == ""
    ensures forall m :: 0 <= m < |ClassScanFrom(s, i, cls)| - 1 ==>
              EndsAtFirstMark(ClassScanFrom(s, i, cls)[m], cls)
              || (m == |ClassScanFrom(s, i, cls)| - 2 && Unmarked(ClassScanFrom(s, i, cls)[m], cls))
    decreases |s| - i
  {
    var ps := ClassScanFrom(s, i, cls);
    if i < |s| {
      FirstMarkIsFirst(s, i, cls);
      match FirstMark(s, i, cls)
      case Some(j) =>
        ClassScanPieces(s, j + 1, cls);
        var rest := ClassScanFrom(s, j + 1, cls);
        var p := s[i..j + 1];
        assert ps == [p] + rest;
        assert EndsAtFirstMark(p, cls) by {
          forall k | 0 <= k < |p| - 1 ensures p[k] !in cls {
            assert p[k] == s[i + k];
          }
        }
        forall m | 0 <= m < |ps| - 1
          ensures EndsAtFirstMark(ps[m], cls) || (m == |ps| - 2 && Unmarked(ps[m], cls))
        {
          if m > 0 {
            assert ps[m] == rest[m - 1];
          }
        }
      case None =>
        assert Unmarked(s[i..], cls) by {
          forall k | 0 <= k < |s[i..]| ensures s[i..][k] !in cls {
            assert s[i..][k] == s[i + k];
          }
        }
    }
  }

  // ---------------------------------------------------------------------------
  // The default scan (segmenter.rb:249)

  /** The characters `\S.*?[…]` ends at. */
  predicate Terminal(c: char) {
    c in {'。', '．', '.', '！', '!', '?', '？', 'ȸ', 'ȹ', '☉', '☈', '☇', '☄'}
  }

  /** The first position at or after `j` holding `c`. */
  function FirstOf(s: string, j: nat, c: char): (e: Option<nat>)
    requires j <= |s|
    ensures e.Some? ==> j <= e.value < |s| && s[e.value] == c
    decreases |s| - j
  {
    if j == |s| then None else if s[j] == c then Some(j) else FirstOf(s, j + 1, c)
  }

  /** No copy of `c` lies between `j` and the one found, nor after `j` when none is found. */
  lemma {:induction false} FirstOfIsFirst(s: string, j: nat, c: char)
    requires j <= |s|
    ensures var e := FirstOf(s, j, c);
            forall k :: j <= k < (if e.Some? then e.value else |s|) ==> s[k] != c
    decreases |s| - j
  {
    if j < |s| && s[j] != c {
      FirstOfIsFirst(s, j + 1, c);
    }
  }

  /** The first position at or after `j` holding a terminal character. */
  function FirstTerminal(s: string, j: nat): (e: Option<nat>)
    requires j <= |s|
    ensures e.Some? ==> j <= e.value < |s| && Terminal(s[e.value])
    decreases |s| - j
  {
    if j == |s| then None else if Terminal(s[j]) then Some(j) else FirstTerminal(s, j + 1)
  }

  /** No terminal character lies between `j` and the one found, nor after `j` when none is found. */
  lemma {:induction false} FirstTerminalIsFirst(s: string, j: nat)
    requires j <= |s|
    ensures var e := FirstTerminal(s, j);
            forall k :: j <= k < (if e.Some? then e.value else |s|) ==> !Terminal(s[k])
    decreases |s| - j
  {
    if j < |s| && !Terminal(s[j]) {
      FirstTerminalIsFirst(s, j + 1);
    }
  }

  /** `(?=\s[A-Z])` after position `e`. */
  predicate CapitalWordAfter(s: string, e: nat) {
    e + 2 < |s| && IsSpace(s[e + 1]) && IsUpper(s[e + 2])
  }

  /** `(?=\s?[A-Z])` after position `e`. */
  predicate CapitalAfter(s: string, e: nat) {
    (e + 1 < |s| && IsUpper(s[e + 1])) || CapitalWordAfter(s, e)
  }

  /** What the default scan may end a piece on at `e`. */
  predicate ClosesPiece(s: string, e: nat) {
    e < |s| && (Terminal(s[e]) || (s[e] in {'）', '」', ')', '\'', '"', '”'} && CapitalAfter(s, e)))
  }

  /**
   * `open[^close]*close` at `i`, followed by a capital (`wide`: a space
   * optional; otherwise a space required): the closing position. Only the
   * first `close` after the opening can end the match.
   */
  function BracketedEnd(s: string, i: nat, open: char, close: char, wide: bool): (e: Option<nat>)
    requires i < |s|
    ensures e.Some? ==> i < e.value < |s| && s[e.value] == close && CapitalAfter(s, e.value)
  {
    if s[i] != open then None
    else match FirstOf(s, i + 1, close)
      case None => None
      case Some(e) => if (if wide then CapitalAfter(s, e) else CapitalWordAfter(s, e)) then Some(e) else None
  }

  /** The bracketed match is found exactly when the first closing character has the capital after it. */
  lemma BracketedEndIsFirstClose(s: string, i: nat, open: char, close: char, wide: bool)
    requires i < |s|
    ensures var e := BracketedEnd(s, i, open, close, wide);
            e.Some? ==> s[i] == open && (forall k :: i < k < e.value ==> s[k] != close) &&
                        (wide || CapitalWordAfter(s, e.value))
    ensures BracketedEnd(s, i, open, close, wide).None? && s[i] == open ==>
              forall c :: i < c < |s| && s[c] == close && (forall k :: i < k < c ==> s[k] != close) ==>
                !(if wide then CapitalAfter(s, c) else CapitalWordAfter(s, c))
  {
    FirstOfIsFirst(s, i + 1, close);
  }

  /**
   * The last position of the default scan's match at `i`, trying its seven
   * alternatives in order: full-width parentheses before a capital (a space
   * optional), corner brackets, parentheses, single, double and curly quotes
   * before a space and a capital, and finally a non-space character followed
   * by the shortest run up to a terminal character.
   */
  function DefaultMatchEnd(s: string, i: nat): (e: Option<nat>)
    requires i < |s|
    ensures e.Some? ==> i < e.value < |s| && ClosesPiece(s, e.value)
  {
    var alternatives := [BracketedEnd(s, i, '（', '）', true), BracketedEnd(s, i, '「', '」', false),
                         BracketedEnd(s, i, '(', ')', false), BracketedEnd(s, i, '\'', '\'', false),
                         BracketedEnd(s, i, '"', '"', false), BracketedEnd(s, i, '“', '”', false)];
    if alternatives[0].Some? then alternatives[0]
    else if alternatives[1].Some? then alternatives[1]
    else if alternatives[2].Some? then alternatives[2]
    else if alternatives[3].Some? then alternatives[3]
    else if alternatives[4].Some? then alternatives[4]
    else if alternatives[5].Some? then alternatives[5]
    else if !IsSpace(s[i]) then FirstTerminal(s, i + 1)
    else None
  }

  /**
   * The default match is the shortest one: a match ending in a terminal
   * character ends at the first terminal after its start, a bracketed one at
   * the first closing character; and a non-space character with a terminal
   * after it always starts a match.
   */
  lemma DefaultMatchEndIsShortest(s: string, i: nat)
    requires i < |s|
    ensures var e := DefaultMatchEnd(s, i);
            e.Some? && Terminal(s[e.value]) ==> !IsSpace(s[i]) && forall k :: i < k < e.value ==> !Terminal(s[k])
    ensures var e := DefaultMatchEnd(s, i);
            e.Some? && !Terminal(s[e.value]) ==>
              s[i] in {'（', '「', '(', '\'', '"', '“'} && forall k :: i < k < e.value ==> s[k] != s[e.value]
    ensures !IsSpace(s[i]) && (exists k :: i < k < |s| && Terminal(s[k])) ==> DefaultMatchEnd(s, i).Some?
  {
    BracketedEndIsFirstClose(s, i, '（', '）', true);
    BracketedEndIsFirstClose(s, i, '「', '」', false);
    BracketedEndIsFirstClose(s, i, '(', ')', false);
    BracketedEndIsFirstClose(s, i, '\'', '\'', false);
    BracketedEndIsFirstClose(s, i, '"', '"', false);
    BracketedEndIsFirstClose(s, i, '“', '”', false);
    FirstTerminalIsFirst(s, i + 1);
  }

  /** The default scan from `i`, as the positions of its matches. */
  function DefaultMatchesFrom(s: string, i: nat): (ms: seq<(nat, nat)>)
    requires i <= |s|
    ensures forall m :: 0 <= m < |ms| ==> i <= ms[m].0 < ms[m].1 <= |s| && ms[m].1 - ms[m].0 >= 2
    ensures forall m :: 0 <= m < |ms| - 1 ==> ms[m].1 <= ms[m + 1].0
    decreases |s| - i
  {
    if i == |s| then []
    else match DefaultMatchEnd(s, i)
      case Some(e) => [(i, e + 1)] + DefaultMatchesFrom(s, e + 1)
      case None => DefaultMatchesFrom(s, i + 1)
  }

  /** The default scan's pieces, in order. */
  function DefaultScan(s: string): (ps: seq<string>)
    ensures forall m :: 0 <= m < |ps| ==> |ps[m]| >= 2
  {
    var ms := DefaultMatchesFrom(s, 0);
    seq(|ms|, m requires 0 <= m < |ms| => s[ms[m].0..ms[m].1])
  }

  /**
   * Every piece of the default scan ends in a terminal character, or is a
   * quotation or parenthesis that a capitalised word follows.
   */
  lemma {:induction false} DefaultPiecesEnd(s: string, i: nat, m: nat)
    requires i <= |s| && m < |DefaultMatchesFrom(s, i)|
    ensures ClosesPiece(s, DefaultMatchesFrom(s, i)[m].1 - 1)
    decreases |s| - i, 1
  {
    match DefaultMatchEnd(s, i)
    case Some(e) =>
      PiecesEndAfterMatch(s, i, e, m);
    case None =>
      assert DefaultMatchesFrom(s, i) == DefaultMatchesFrom(s, i + 1);
      DefaultPiecesEnd(s, i + 1, m);
  }

  /** The step of `DefaultPiecesEnd` at a match from `i` to `e`. */
  lemma {:induction false} PiecesEndAfterMatch(s: string, i: nat, e: nat, m: nat)
    requires i < |s| && DefaultMatchEnd(s, i) == Some(e) && m < |DefaultMatchesFrom(s, i)|
    ensures ClosesPiece(s, DefaultMatchesFrom(s, i)[m].1 - 1)
    decreases |s| - i, 0
  {
    DefaultMatchesCons(s, i, e);
    var rest := DefaultMatchesFrom(s, e + 1);
    if m == 0 {
      assert DefaultMatchesFrom(s, i)[0].1 == e + 1;
    } else {
      assert DefaultMatchesFrom(s, i)[m] == rest[m - 1];
      DefaultPiecesEnd(s, e + 1, m - 1);
    }
  }

  lemma DefaultMatchesCons(s: string, i: nat, e: nat)
    requires i < |s| && DefaultMatchEnd(s, i) == Some(e)
    ensures e < |s| && DefaultMatchesFrom(s, i) == [(i, e + 1)] + DefaultMatchesFrom(s, e + 1)
  {
  }

  /** The pieces of a split, by language: the mark-class scan, or the default scan. */
  function SplitPieces(line: string, language: string): seq<string>
  {
    match SplitClass(language)
    case Some(cls) => ClassScanFrom(line, 0, cls)
    case None => DefaultScan(line)
  }
}
