/**
 * `replace_ellipsis` (segmenter.rb:141-158): the four renderings of an ellipsis
 * become distinct sentinels, in this order: ` . . . ` → ♟, `. . . .` at the end
 * of a line after a lower-case letter → ♝, `...` before `. X` → ƪ, `...`
 * before an upper-case word → ☏ followed by `.`, any other `...` → ƪ.
 * `reinsert_ellipsis` (segmenter.rb:414-421) is `Symbols.ReinsertEllipsis`.
 */
module Ellipsis {
  import opened Chars
  import opened Rewrite
  import opened Symbols

  /** `(\s\.){3}\s` at `k`. */
  predicate SpacedThreeAt(t: string, k: nat) {
    k + 7 <= |t| && IsSpace(t[k]) && t[k + 1] == '.' && IsSpace(t[k + 2]) && t[k + 3] == '.'
    && IsSpace(t[k + 4]) && t[k + 5] == '.' && IsSpace(t[k + 6])
  }

  /**
   * `(?<=[a-z])(\.\s){3}\.(\z|$|\n)` at `k`. Before a line feed `$` already
   * matches, so the line feed is never part of the match.
   */
  predicate SpacedFourAtEndAt(t: string, k: nat) {
    0 < k && k + 7 <= |t| && IsLower(t[k - 1])
    && t[k] == '.' && IsSpace(t[k + 1]) && t[k + 2] == '.' && IsSpace(t[k + 3])
    && t[k + 4] == '.' && IsSpace(t[k + 5]) && t[k + 6] == '.'
    && (k + 7 == |t| || t[k + 7] == '\n')
  }

  predicate ThreeDotsAt(t: string, k: nat) {
    k + 3 <= |t| && t[k] == '.' && t[k + 1] == '.' && t[k + 2] == '.'
  }

  /** `(?<=\S)\.{3}(?=\.\s[A-Z])` at `k`. */
  predicate ThreeBeforeDotAt(t: string, k: nat) {
    0 < k && k + 6 <= |t| && !IsSpace(t[k - 1]) && ThreeDotsAt(t, k)
    && t[k + 3] == '.' && IsSpace(t[k + 4]) && IsUpper(t[k + 5])
  }

  /** `\s+[A-Z]` at `j`. */
  predicate SpacesThenUpper(t: string, j: nat) {
    j <= |t| && 0 < RunLength(t, j, IsSpace) && j + RunLength(t, j, IsSpace) < |t|
    && IsUpper(t[j + RunLength(t, j, IsSpace)])
  }

  /** `\.\.\.(?=\s+[A-Z])` at `k`. */
  predicate ThreeBeforeCapitalAt(t: string, k: nat) {
    ThreeDotsAt(t, k) && SpacesThenUpper(t, k + 3)
  }

  function ReplaceEllipsis(line: string): (r: string)
    ensures line != [] ==> r != []
  {
    var l1 := Gsub(line, 7, SpacedThreeAt, Fixed("♟"));
    var l2 := Gsub(l1, 7, SpacedFourAtEndAt, Fixed("♝"));
    var l3 := Gsub(l2, 3, ThreeBeforeDotAt, Fixed("ƪ"));
    var l4 := Gsub(l3, 3, ThreeBeforeCapitalAt, Fixed("☏."));
    GsubNonEmpty(line, 7, SpacedThreeAt, "♟");
    GsubNonEmpty(l1, 7, SpacedFourAtEndAt, "♝");
    GsubNonEmpty(l2, 3, ThreeBeforeDotAt, "ƪ");
    GsubNonEmpty(l3, 3, ThreeBeforeCapitalAt, "☏.");
    GsubNonEmpty(l4, 3, ThreeDotsAt, "ƪ");
    Gsub(l4, 3, ThreeDotsAt, Fixed("ƪ"))
  }

  /** The last replacement leaves no three periods in a row. */
  lemma {:induction false} ThreeDotsGsubLeavesNone(s: string, i: nat)
    requires i <= |s|
    ensures forall k: nat :: !ThreeDotsAt(GsubFrom(s, i, 3, ThreeDotsAt, Fixed("ƪ")), k)
    decreases |s| - i
  {
    var r := GsubFrom(s, i, 3, ThreeDotsAt, Fixed("ƪ"));
    if i < |s| {
      if ThreeDotsAt(s, i) {
        ThreeDotsGsubLeavesNone(s, i + 3);
        var rest := GsubFrom(s, i + 3, 3, ThreeDotsAt, Fixed("ƪ"));
        assert r == "ƪ" + rest;
        forall k: nat ensures !ThreeDotsAt(r, k) {
          if 0 < k && ThreeDotsAt(r, k) {
            assert ThreeDotsAt(rest, k - 1);
          }
        }
      } else {
        ThreeDotsGsubLeavesNone(s, i + 1);
        ThreeDotsGsubHead(s, i);
        var rest := GsubFrom(s, i + 1, 3, ThreeDotsAt, Fixed("ƪ"));
        assert r == [s[i]] + rest;
        forall k: nat ensures !ThreeDotsAt(r, k) {
          if 0 < k && ThreeDotsAt(r, k) {
            assert ThreeDotsAt(rest, k - 1);
          }
        }
      }
    }
  }

  /** Where no three periods start, the replacement does not begin with three periods. */
  lemma ThreeDotsGsubHead(s: string, i: nat)
    requires i < |s| && !ThreeDotsAt(s, i)
    ensures !ThreeDotsAt(GsubFrom(s, i, 3, ThreeDotsAt, Fixed("ƪ")), 0)
  {
    var rest := GsubFrom(s, i + 1, 3, ThreeDotsAt, Fixed("ƪ"));
    if i + 1 < |s| && !ThreeDotsAt(s, i + 1) {
      var rest2 := GsubFrom(s, i + 2, 3, ThreeDotsAt, Fixed("ƪ"));
      assert rest == [s[i + 1]] + rest2;
    }
  }

  /** However the ellipses are written, no three periods in a row are left. */
  lemma ReplaceEllipsisLeavesNoThreeDots(line: string)
    ensures forall k: nat :: !ThreeDotsAt(ReplaceEllipsis(line), k)
  {
    var l1 := Gsub(line, 7, SpacedThreeAt, Fixed("♟"));
    var l2 := Gsub(l1, 7, SpacedFourAtEndAt, Fixed("♝"));
    var l3 := Gsub(l2, 3, ThreeBeforeDotAt, Fixed("ƪ"));
    var l4 := Gsub(l3, 3, ThreeBeforeCapitalAt, Fixed("☏."));
    ThreeDotsGsubLeavesNone(l4, 0);
  }

  // ---------------------------------------------------------------------------
  // Which form becomes which sentinel, counted over the whole line

  /** The `len` characters from `j` are periods and whitespace only. */
  predicate DotsAndSpaces(t: string, j: nat, len: nat) {
    j + len <= |t| && forall m :: j <= m < j + len ==> t[m] == '.' || IsSpace(t[m])
  }

  /** Every ellipsis pattern matches periods and whitespace only, so no sentinel. */
  lemma EllipsisWindows(t: string)
    ensures forall j: nat :: SpacedThreeAt(t, j) ==> DotsAndSpaces(t, j, 7)
    ensures forall j: nat :: SpacedFourAtEndAt(t, j) ==> DotsAndSpaces(t, j, 7)
    ensures forall j: nat :: ThreeBeforeDotAt(t, j) ==> DotsAndSpaces(t, j, 3)
    ensures forall j: nat :: ThreeBeforeCapitalAt(t, j) ==> DotsAndSpaces(t, j, 3)
    ensures forall j: nat :: ThreeDotsAt(t, j) ==> DotsAndSpaces(t, j, 3)
  {
    forall j: nat | SpacedThreeAt(t, j) ensures DotsAndSpaces(t, j, 7) {
      forall m | j <= m < j + 7 ensures t[m] == '.' || IsSpace(t[m]) {
        assert m == j || m == j + 1 || m == j + 2 || m == j + 3 || m == j + 4 || m == j + 5 || m == j + 6;
      }
    }
    forall j: nat | SpacedFourAtEndAt(t, j) ensures DotsAndSpaces(t, j, 7) {
      forall m | j <= m < j + 7 ensures t[m] == '.' || IsSpace(t[m]) {
        assert m == j || m == j + 1 || m == j + 2 || m == j + 3 || m == j + 4 || m == j + 5 || m == j + 6;
      }
    }
    forall j: nat | ThreeDotsAt(t, j) ensures DotsAndSpaces(t, j, 3) {
      forall m | j <= m < j + 3 ensures t[m] == '.' || IsSpace(t[m]) {
        assert m == j || m == j + 1 || m == j + 2;
      }
    }
  }

  /** A gsub over periods and whitespace adds one `c` for each match it takes, when its replacement holds `c` once. */
  lemma DotsGsubAdds(s: string, len: nat, matches: (string, nat) -> bool, rep: string, c: char)
    requires 0 < len && Count(rep, c) == 1 && c != '.' && !IsSpace(c)
    requires forall j: nat :: j + len <= |s| && matches(s, j) ==> DotsAndSpaces(s, j, len)
    ensures Count(Gsub(s, len, matches, Fixed(rep)), c) == Count(s, c) + TakenCount(s, 0, len, matches)
  {
    forall j: nat | j + len <= |s| && matches(s, j) ensures Lacks(s, j, len, c) {
    }
    GsubAddsChar(s, 0, len, matches, rep, c);
    assert s[0..] == s;
  }

  /** A gsub over periods and whitespace keeps the count of a `c` its replacement lacks. */
  lemma DotsGsubKeeps(s: string, len: nat, matches: (string, nat) -> bool, rep: string, c: char)
    requires 0 < len && Count(rep, c) == 0 && c != '.' && !IsSpace(c)
    requires forall j: nat :: j + len <= |s| && matches(s, j) ==> DotsAndSpaces(s, j, len)
    ensures Count(Gsub(s, len, matches, Fixed(rep)), c) == Count(s, c)
  {
    forall j: nat | j + len <= |s| && matches(s, j) ensures Lacks(s, j, len, c) {
    }
    GsubKeepsChar(s, 0, len, matches, rep, c);
    assert s[0..] == s;
  }

  /** Each spaced three-dot ellipsis the first gsub takes becomes one ♟, and no later step adds or removes one. */
  lemma ReplaceEllipsisAddsPawns(line: string)
    ensures Count(ReplaceEllipsis(line), '♟') == Count(line, '♟') + TakenCount(line, 0, 7, SpacedThreeAt)
  {
    var l1 := Gsub(line, 7, SpacedThreeAt, Fixed("♟"));
    var l2 := Gsub(l1, 7, SpacedFourAtEndAt, Fixed("♝"));
    var l3 := Gsub(l2, 3, ThreeBeforeDotAt, Fixed("ƪ"));
    var l4 := Gsub(l3, 3, ThreeBeforeCapitalAt, Fixed("☏."));
    EllipsisWindows(line);
    EllipsisWindows(l1);
    EllipsisWindows(l2);
    EllipsisWindows(l3);
    EllipsisWindows(l4);
    DotsGsubAdds(line, 7, SpacedThreeAt, "♟", '♟');
    DotsGsubKeeps(l1, 7, SpacedFourAtEndAt, "♝", '♟');
    DotsGsubKeeps(l2, 3, ThreeBeforeDotAt, "ƪ", '♟');
    DotsGsubKeeps(l3, 3, ThreeBeforeCapitalAt, "☏.", '♟');
    DotsGsubKeeps(l4, 3, ThreeDotsAt, "ƪ", '♟');
  }

  /** Each spaced four-dot ellipsis at a line end that the second gsub takes becomes one ♝. */
  lemma ReplaceEllipsisAddsBishops(line: string)
    ensures var l1 := Gsub(line, 7, SpacedThreeAt, Fixed("♟"));
            Count(ReplaceEllipsis(line), '♝') == Count(line, '♝') + TakenCount(l1, 0, 7, SpacedFourAtEndAt)
  {
    var l1 := Gsub(line, 7, SpacedThreeAt, Fixed("♟"));
    var l2 := Gsub(l1, 7, SpacedFourAtEndAt, Fixed("♝"));
    var l3 := Gsub(l2, 3, ThreeBeforeDotAt, Fixed("ƪ"));
    var l4 := Gsub(l3, 3, ThreeBeforeCapitalAt, Fixed("☏."));
    EllipsisWindows(line);
    EllipsisWindows(l1);
    EllipsisWindows(l2);
    EllipsisWindows(l3);
    EllipsisWindows(l4);
    DotsGsubKeeps(line, 7, SpacedThreeAt, "♟", '♝');
    DotsGsubAdds(l1, 7, SpacedFourAtEndAt, "♝", '♝');
    DotsGsubKeeps(l2, 3, ThreeBeforeDotAt, "ƪ", '♝');
    DotsGsubKeeps(l3, 3, ThreeBeforeCapitalAt, "☏.", '♝');
    DotsGsubKeeps(l4, 3, ThreeDotsAt, "ƪ", '♝');
  }

  /**
   * Each `...` before `. X` that the third gsub takes, and each other `...`
   * that the last gsub takes, becomes one ƪ.
   */
  lemma ReplaceEllipsisAddsHooks(line: string)
    ensures var l1 := Gsub(line, 7, SpacedThreeAt, Fixed("♟"));
            var l2 := Gsub(l1, 7, SpacedFourAtEndAt, Fixed("♝"));
            var l3 := Gsub(l2, 3, ThreeBeforeDotAt, Fixed("ƪ"));
            var l4 := Gsub(l3, 3, ThreeBeforeCapitalAt, Fixed("☏."));
            Count(ReplaceEllipsis(line), 'ƪ') ==
              Count(line, 'ƪ') + TakenCount(l2, 0, 3, ThreeBeforeDotAt) + TakenCount(l4, 0, 3, ThreeDotsAt)
  {
    var l1 := Gsub(line, 7, SpacedThreeAt, Fixed("♟"));
    var l2 := Gsub(l1, 7, SpacedFourAtEndAt, Fixed("♝"));
    var l3 := Gsub(l2, 3, ThreeBeforeDotAt, Fixed("ƪ"));
    var l4 := Gsub(l3, 3, ThreeBeforeCapitalAt, Fixed("☏."));
    EllipsisWindows(line);
    EllipsisWindows(l1);
    EllipsisWindows(l2);
    EllipsisWindows(l3);
    EllipsisWindows(l4);
    DotsGsubKeeps(line, 7, SpacedThreeAt, "♟", 'ƪ');
    DotsGsubKeeps(l1, 7, SpacedFourAtEndAt, "♝", 'ƪ');
    DotsGsubAdds(l2, 3, ThreeBeforeDotAt, "ƪ", 'ƪ');
    DotsGsubKeeps(l3, 3, ThreeBeforeCapitalAt, "☏.", 'ƪ');
    DotsGsubAdds(l4, 3, ThreeDotsAt, "ƪ", 'ƪ');
  }

  /** Each `...` before an upper-case word that the fourth gsub takes becomes one ☏. */
  lemma ReplaceEllipsisAddsPhones(line: string)
    ensures var l1 := Gsub(line, 7, SpacedThreeAt, Fixed("♟"));
            var l2 := Gsub(l1, 7, SpacedFourAtEndAt, Fixed("♝"));
            var l3 := Gsub(l2, 3, ThreeBeforeDotAt, Fixed("ƪ"));
            Count(ReplaceEllipsis(line), '☏') == Count(line, '☏') + TakenCount(l3, 0, 3, ThreeBeforeCapitalAt)
  {
    var l1 := Gsub(line, 7, SpacedThreeAt, Fixed("♟"));
    var l2 := Gsub(l1, 7, SpacedFourAtEndAt, Fixed("♝"));
    var l3 := Gsub(l2, 3, ThreeBeforeDotAt, Fixed("ƪ"));
    var l4 := Gsub(l3, 3, ThreeBeforeCapitalAt, Fixed("☏."));
    EllipsisWindows(line);
    EllipsisWindows(l1);
    EllipsisWindows(l2);
    EllipsisWindows(l3);
    EllipsisWindows(l4);
    DotsGsubKeeps(line, 7, SpacedThreeAt, "♟", '☏');
    DotsGsubKeeps(l1, 7, SpacedFourAtEndAt, "♝", '☏');
    DotsGsubKeeps(l2, 3, ThreeBeforeDotAt, "ƪ", '☏');
    DotsGsubAdds(l3, 3, ThreeBeforeCapitalAt, "☏.", '☏');
    DotsGsubKeeps(l4, 3, ThreeDotsAt, "ƪ", '☏');
  }

  /** The later steps find nothing to replace in `t`. */
  lemma LaterStepsKeep(t: string)
    requires forall a :: 0 <= a && a + 3 <= |t| ==> !ThreeDotsAt(t, a)
    ensures Gsub(t, 3, ThreeBeforeCapitalAt, Fixed("☏.")) == t
    ensures Gsub(t, 3, ThreeDotsAt, Fixed("ƪ")) == t
  {
    GsubNoMatch(t, 0, 3, ThreeBeforeCapitalAt, Fixed("☏."));
    GsubNoMatch(t, 0, 3, ThreeDotsAt, Fixed("ƪ"));
    assert t[0..] == t;
  }

  /** A spaced three-dot ellipsis ` . . . ` becomes ♟, spaces included. */
  lemma SpacedThreeBecomesPawn()
    ensures ReplaceEllipsis("a . . . b") == "a♟b"
  {
    var s := "a . . . b";
    GsubFirstMatch(s, 0, 7, SpacedThreeAt, Fixed("♟"), 1);
    assert GsubFrom(s, 8, 7, SpacedThreeAt, Fixed("♟")) == "b";
    var t := "a♟b";
    GsubNoMatch(t, 0, 7, SpacedFourAtEndAt, Fixed("♝"));
    GsubNoMatch(t, 0, 3, ThreeBeforeDotAt, Fixed("ƪ"));
    assert t[0..] == t;
    LaterStepsKeep(t);
  }

  /** A spaced four-dot ellipsis after a lower-case letter at the end of the line becomes ♝. */
  lemma SpacedFourAtEndBecomesBishop()
    ensures ReplaceEllipsis("a. . . .") == "a♝"
  {
    var s := "a. . . .";
    GsubNoMatch(s, 0, 7, SpacedThreeAt, Fixed("♟"));
    assert s[0..] == s;
    GsubFirstMatch(s, 0, 7, SpacedFourAtEndAt, Fixed("♝"), 1);
    var t := "a♝";
    GsubNoMatch(t, 0, 3, ThreeBeforeDotAt, Fixed("ƪ"));
    assert t[0..] == t;
    LaterStepsKeep(t);
  }

  /** Three periods before a fourth, a space and a capital become ƪ; the fourth stays. */
  lemma FourBeforeCapitalBecomesHook()
    ensures ReplaceEllipsis("a.... B") == "aƪ. B"
  {
    var s := "a.... B";
    SpacedStepsKeep(s);
    HookStep(s);
    LaterStepsKeep("aƪ. B");
  }

  lemma SpacedStepsKeep(s: string)
    requires s == "a.... B"
    ensures Gsub(Gsub(s, 7, SpacedThreeAt, Fixed("♟")), 7, SpacedFourAtEndAt, Fixed("♝")) == s
  {
    GsubNoMatch(s, 0, 7, SpacedThreeAt, Fixed("♟"));
    GsubNoMatch(s, 0, 7, SpacedFourAtEndAt, Fixed("♝"));
    assert s[0..] == s;
  }

  lemma HookStep(s: string)
    requires s == "a.... B"
    ensures Gsub(s, 3, ThreeBeforeDotAt, Fixed("ƪ")) == "aƪ. B"
  {
    GsubFirstMatch(s, 0, 3, ThreeBeforeDotAt, Fixed("ƪ"), 1);
    GsubNoMatch(s, 4, 3, ThreeBeforeDotAt, Fixed("ƪ"));
    assert s[0..1] + "ƪ" + s[4..] == "aƪ. B";
  }

  /** Three periods before spaces and a capital become ☏ followed by a period. */
  lemma ThreeBeforeCapitalBecomesPhone()
    ensures ReplaceEllipsis("a... B") == "a☏. B"
  {
    var s := "a... B";
    FirstStepsKeep(s);
    PhoneStep(s);
    var t := "a☏. B";
    GsubNoMatch(t, 0, 3, ThreeDotsAt, Fixed("ƪ"));
    assert t[0..] == t;
  }

  lemma FirstStepsKeep(s: string)
    requires s == "a... B"
    ensures Gsub(Gsub(Gsub(s, 7, SpacedThreeAt, Fixed("♟")), 7, SpacedFourAtEndAt, Fixed("♝")),
                 3, ThreeBeforeDotAt, Fixed("ƪ")) == s
  {
    GsubNoMatch(s, 0, 7, SpacedThreeAt, Fixed("♟"));
    GsubNoMatch(s, 0, 7, SpacedFourAtEndAt, Fixed("♝"));
    GsubNoMatch(s, 0, 3, ThreeBeforeDotAt, Fixed("ƪ"));
    assert s[0..] == s;
  }

  lemma PhoneStep(s: string)
    requires s == "a... B"
    ensures Gsub(s, 3, ThreeBeforeCapitalAt, Fixed("☏.")) == "a☏. B"
  {
    assert RunLength(s, 5, IsSpace) == 0;
    assert RunLength(s, 4, IsSpace) == 1;
    assert ThreeBeforeCapitalAt(s, 1) && !ThreeBeforeCapitalAt(s, 0);
    GsubFirstMatch(s, 0, 3, ThreeBeforeCapitalAt, Fixed("☏."), 1);
    GsubNoMatch(s, 4, 3, ThreeBeforeCapitalAt, Fixed("☏."));
    assert s[..1] + "☏." + s[4..] == "a☏. B";
  }

  /** Any other three periods become ƪ. */
  lemma OtherThreeBecomeHook()
    ensures ReplaceEllipsis("a...b") == "aƪb"
  {
    var s := "a...b";
    NoEarlierStep(s);
    GsubFirstMatch(s, 0, 3, ThreeDotsAt, Fixed("ƪ"), 1);
    GsubNoMatch(s, 4, 3, ThreeDotsAt, Fixed("ƪ"));
    assert s[0..1] + "ƪ" + s[4..] == "aƪb";
  }

  lemma NoEarlierStep(s: string)
    requires s == "a...b"
    ensures Gsub(Gsub(Gsub(Gsub(s, 7, SpacedThreeAt, Fixed("♟")), 7, SpacedFourAtEndAt, Fixed("♝")),
                      3, ThreeBeforeDotAt, Fixed("ƪ")), 3, ThreeBeforeCapitalAt, Fixed("☏.")) == s
  {
    GsubNoMatch(s, 0, 7, SpacedThreeAt, Fixed("♟"));
    GsubNoMatch(s, 0, 7, SpacedFourAtEndAt, Fixed("♝"));
    GsubNoMatch(s, 0, 3, ThreeBeforeDotAt, Fixed("ƪ"));
    assert RunLength(s, 4, IsSpace) == 0;
    GsubNoMatch(s, 0, 3, ThreeBeforeCapitalAt, Fixed("☏."));
    assert s[0..] == s;
  }

  /** `replace_ellipsis` as the source runs it: five replacements of the line in place. */
  method ReplaceEllipsisInLine(line: string) returns (l: string)
    ensures l == ReplaceEllipsis(line)
  {
    l := line;
    l := Gsub(l, 7, SpacedThreeAt, Fixed("♟"));
    l := Gsub(l, 7, SpacedFourAtEndAt, Fixed("♝"));
    l := Gsub(l, 3, ThreeBeforeDotAt, Fixed("ƪ"));
    l := Gsub(l, 3, ThreeBeforeCapitalAt, Fixed("☏."));
    l := Gsub(l, 3, ThreeDotsAt, Fixed("ƪ"));
  }

  /**
   * The ellipsis shield keeps any property of characters that the text and the
   * characters it writes (♟ ♝ ƪ ☏ and `.`) have.
   */
  lemma ReplaceEllipsisKeepsClass(line: string, p: char -> bool)
    requires forall k :: 0 <= k < |line| ==> p(line[k])
    requires p('♟') && p('♝') && p('ƪ') && p('☏') && p('.')
    ensures forall k :: 0 <= k < |ReplaceEllipsis(line)| ==> p(ReplaceEllipsis(line)[k])
  {
    var l1 := Gsub(line, 7, SpacedThreeAt, Fixed("♟"));
    var l2 := Gsub(l1, 7, SpacedFourAtEndAt, Fixed("♝"));
    var l3 := Gsub(l2, 3, ThreeBeforeDotAt, Fixed("ƪ"));
    var l4 := Gsub(l3, 3, ThreeBeforeCapitalAt, Fixed("☏."));
    GsubKeepsClass(line, 0, 7, SpacedThreeAt, Fixed("♟"), p);
    GsubKeepsClass(l1, 0, 7, SpacedFourAtEndAt, Fixed("♝"), p);
    GsubKeepsClass(l2, 0, 3, ThreeBeforeDotAt, Fixed("ƪ"), p);
    assert forall k :: 0 <= k < |"☏."| ==> p("☏."[k]);
    GsubKeepsClass(l3, 0, 3, ThreeBeforeCapitalAt, Fixed("☏."), p);
    GsubKeepsClass(l4, 0, 3, ThreeDotsAt, Fixed("ƪ"), p);
  }

  /** No whitespace but the plain space. */
  predicate OnlySpaces(s: string) {
    forall i :: 0 <= i < |s| ==> IsSpace(s[i]) ==> s[i] == ' '
  }

  /** A decoder that writes each ellipsis sentinel back as its literal text. */
  predicate DecodesEllipses(d: char -> string) {
    d('.') == "." && d(' ') == " " && d('♟') == " . . . " && d('♝') == ". . . ."
    && d('ƪ') == "..." && d('☏') == ".."
  }

  /** Every match of each step consists of dots and spaces, and decodes like its sentinel. */
  lemma {:induction false} EllipsisStep(s: string, len: nat, matches: (string, nat) -> bool, rep: string,
                                        d: char -> string)
    requires 0 < len && OnlySpaces(s) && DecodesEllipses(d)
    requires forall j :: 0 <= j && j + len <= |s| && matches(s, j) ==>
               (forall k :: j <= k < j + len ==> s[k] == '.' || IsSpace(s[k]))
               && Expand(rep, d) == s[j..j + len]
    requires forall k :: 0 <= k < |rep| ==> !IsSpace(rep[k])
    ensures Expand(Gsub(s, len, matches, Fixed(rep)), d) == Expand(s, d)
    ensures OnlySpaces(Gsub(s, len, matches, Fixed(rep)))
  {
    var r := Fixed(rep);
    forall j | 0 <= j && j + len <= |s| && matches(s, j)
      ensures Expand(r(s, j), d) == Expand(s[j..j + len], d)
    {
      ExpandIdentity(s[j..j + len], d);
    }
    assert s[0..] == s;
    GsubKeepsExpansion(s, 0, len, matches, r, d);
    GsubKeepsClass(s, 0, len, matches, r, c => IsSpace(c) ==> c == ' ');
  }

  lemma SpacedThreeStep(s: string, d: char -> string)
    requires OnlySpaces(s) && DecodesEllipses(d)
    ensures Expand(Gsub(s, 7, SpacedThreeAt, Fixed("♟")), d) == Expand(s, d)
    ensures OnlySpaces(Gsub(s, 7, SpacedThreeAt, Fixed("♟")))
  {
    ExpandOne('♟', d);
    forall j | 0 <= j && j + 7 <= |s| && SpacedThreeAt(s, j)
      ensures s[j..j + 7] == " . . . "
    {
    }
    EllipsisStep(s, 7, SpacedThreeAt, "♟", d);
  }

  lemma SpacedFourStep(s: string, d: char -> string)
    requires OnlySpaces(s) && DecodesEllipses(d)
    ensures Expand(Gsub(s, 7, SpacedFourAtEndAt, Fixed("♝")), d) == Expand(s, d)
    ensures OnlySpaces(Gsub(s, 7, SpacedFourAtEndAt, Fixed("♝")))
  {
    ExpandOne('♝', d);
    forall j | 0 <= j && j + 7 <= |s| && SpacedFourAtEndAt(s, j)
      ensures s[j..j + 7] == ". . . ."
    {
    }
    EllipsisStep(s, 7, SpacedFourAtEndAt, "♝", d);
  }

  lemma ThreeBeforeDotStep(s: string, d: char -> string)
    requires OnlySpaces(s) && DecodesEllipses(d)
    ensures Expand(Gsub(s, 3, ThreeBeforeDotAt, Fixed("ƪ")), d) == Expand(s, d)
    ensures OnlySpaces(Gsub(s, 3, ThreeBeforeDotAt, Fixed("ƪ")))
  {
    ExpandOne('ƪ', d);
    forall j | 0 <= j && j + 3 <= |s| && ThreeBeforeDotAt(s, j)
      ensures s[j..j + 3] == "..."
    {
    }
    EllipsisStep(s, 3, ThreeBeforeDotAt, "ƪ", d);
  }

  lemma ThreeBeforeCapitalStep(s: string, d: char -> string)
    requires OnlySpaces(s) && DecodesEllipses(d)
    ensures Expand(Gsub(s, 3, ThreeBeforeCapitalAt, Fixed("☏.")), d) == Expand(s, d)
    ensures OnlySpaces(Gsub(s, 3, ThreeBeforeCapitalAt, Fixed("☏.")))
  {
    ExpandOne('.', d);
    ExpandOne('☏', d);
    ExpandAppend("☏", ".", d);
    assert "☏." == "☏" + ".";
    forall j | 0 <= j && j + 3 <= |s| && ThreeBeforeCapitalAt(s, j)
      ensures s[j..j + 3] == "..."
    {
    }
    EllipsisStep(s, 3, ThreeBeforeCapitalAt, "☏.", d);
  }

  lemma ThreeDotsStep(s: string, d: char -> string)
    requires OnlySpaces(s) && DecodesEllipses(d)
    ensures Expand(Gsub(s, 3, ThreeDotsAt, Fixed("ƪ")), d) == Expand(s, d)
    ensures OnlySpaces(Gsub(s, 3, ThreeDotsAt, Fixed("ƪ")))
  {
    ExpandOne('ƪ', d);
    forall j | 0 <= j && j + 3 <= |s| && ThreeDotsAt(s, j)
      ensures s[j..j + 3] == "..."
    {
    }
    EllipsisStep(s, 3, ThreeDotsAt, "ƪ", d);
  }

  /** Each of the five steps replaces dots and spaces by sentinels that decode to exactly those dots and spaces. */
  lemma ReplaceEllipsisKeepsDecoding(line: string, d: char -> string)
    requires OnlySpaces(line) && DecodesEllipses(d)
    ensures Expand(ReplaceEllipsis(line), d) == Expand(line, d)
  {
    SpacedThreeStep(line, d);
    var l1 := Gsub(line, 7, SpacedThreeAt, Fixed("♟"));
    SpacedFourStep(l1, d);
    var l2 := Gsub(l1, 7, SpacedFourAtEndAt, Fixed("♝"));
    ThreeBeforeDotStep(l2, d);
    var l3 := Gsub(l2, 3, ThreeBeforeDotAt, Fixed("ƪ"));
    ThreeBeforeCapitalStep(l3, d);
    var l4 := Gsub(l3, 3, ThreeBeforeCapitalAt, Fixed("☏."));
    ThreeDotsStep(l4, d);
  }

  /**
   * The ellipsis round trip: on text without sentinels whose only whitespace
   * is the plain space, `reinsert_ellipsis` undoes `replace_ellipsis`.
   */
  lemma EllipsisRoundTrip(line: string)
    requires SentinelFree(line) && OnlySpaces(line)
    ensures ReinsertEllipsis(ReplaceEllipsis(line)) == line
  {
    ReplaceEllipsisKeepsDecoding(line, EllipsisText);
    ExpandIdentity(line, EllipsisText);
  }
}
