/**
 * The shields `analyze_lines` (segmenter.rb:160-249) puts on one line before
 * it splits it: line feeds, periods inside email addresses, the two-mark
 * compounds, the emphasis marks of the default branch and the Arabic and
 * Persian colon and comma. Each one is undone by decoding.
 */
module LineShields {
  import opened Chars
  import opened Rewrite
  import opened Symbols

  /** `b` is `a` or the sentinel that shields the terminal mark `a`. */
  predicate ShieldsMark(a: char, b: char) {
    b == a || (a == '.' && b == '∯') || (a == '。' && b == 'ᓰ') || (a == '．' && b == 'ᓱ')
    || (a == '！' && b == 'ᓳ') || (a == '!' && b == 'ᓴ') || (a == '?' && b == 'ᓷ') || (a == '？' && b == 'ᓸ')
  }

  /** `r` is `s` with some terminal marks shielded and nothing else changed. */
  predicate MarksShielded(s: string, r: string) {
    |r| == |s| && forall k :: 0 <= k < |s| ==> ShieldsMark(s[k], r[k])
  }

  lemma MarksShieldedTransitive(a: string, b: string, c: string)
    requires MarksShielded(a, b) && MarksShielded(b, c)
    ensures MarksShielded(a, c)
  {
    forall k | 0 <= k < |a| ensures ShieldsMark(a[k], c[k]) {
      assert ShieldsMark(a[k], b[k]) && ShieldsMark(b[k], c[k]);
    }
  }

  /** Shielding marks is undone by decoding. */
  lemma MarksShieldedKeepsRestore(s: string, r: string)
    requires MarksShielded(s, r)
    ensures Restore(r) == Restore(s)
  {
    forall k | 0 <= k < |s| ensures Restored(s[k]) == Restored(r[k]) {
      assert ShieldsMark(s[k], r[k]);
    }
    PointwiseRestore(s, r);
  }

  // ---------------------------------------------------------------------------
  // line feeds (segmenter.rb:161)

  /** `line.gsub!(/\n/, 'ȹ')`: no line feed is left, and decoding gives them back. */
  function ShieldNewlines(line: string): (r: string)
    ensures |r| == |line|
    ensures forall k :: 0 <= k < |r| ==> r[k] != '\n'
    ensures forall k :: 0 <= k < |r| ==> r[k] == (if line[k] == '\n' then 'ȹ' else line[k])
  {
    if line == [] then [] else [if line[0] == '\n' then 'ȹ' else line[0]] + ShieldNewlines(line[1..])
  }

  lemma ShieldNewlinesKeepsRestore(line: string)
    ensures Restore(ShieldNewlines(line)) == Restore(line)
  {
    PointwiseRestore(line, ShieldNewlines(line));
  }

  // ---------------------------------------------------------------------------
  // email addresses (segmenter.rb:165)

  /** `(\w)(\.)(\w)` at `k`. */
  predicate EmailAt(t: string, k: nat) {
    k + 3 <= |t| && IsWord(t[k]) && t[k + 1] == '.' && IsWord(t[k + 2])
  }

  /** `'\1∮\3'`. */
  function EmailText(t: string, k: nat): string {
    if k + 2 < |t| then [t[k], '∮', t[k + 2]] else []
  }

  /** `b` is `a`, or `a` is a period and `b` the email period. */
  predicate EmailShield(a: char, b: char) {
    b == a || (a == '.' && b == '∮')
  }

  /**
   * The email shield: only periods change, each to ∮, and a period between two
   * word characters is shielded unless its left neighbour was itself consumed
   * as the right-hand character of a previous match (`a.b.c` → `a∮b.c`).
   */
  function ShieldEmails(line: string): (r: string)
    ensures |r| == |line|
    ensures forall k :: 0 <= k < |line| ==> EmailShield(line[k], r[k])
    ensures Restore(r) == Restore(line)
  {
    GsubRelates(line, 0, 3, EmailAt, EmailText, EmailShield);
    var r := Gsub(line, 3, EmailAt, EmailText);
    forall k | 0 <= k < |line| ensures Restored(line[k]) == Restored(r[k]) {
      assert EmailShield(line[k], r[k - 0]);
    }
    PointwiseRestore(line, r);
    r
  }

  /** The scan takes the match `(\w)(\.)(\w)` at `j` exactly when its first character was not the last of the match taken at `j - 2`. */
  lemma EmailTakenIff(line: string, j: nat)
    requires EmailAt(line, j)
    ensures Taken(line, 0, 3, EmailAt, j) <==> !(2 <= j && Taken(line, 0, 3, EmailAt, j - 2))
  {
    TakenIff(line, 0, 3, EmailAt, j);
    if 1 <= j && Taken(line, 0, 3, EmailAt, j - 1) {
      TakenIsMatch(line, 0, 3, EmailAt, j - 1);
    }
  }

  /**
   * A character changes exactly when it is the period of a match the scan
   * takes; with `EmailTakenIff` this says which periods become ∮.
   */
  lemma ShieldEmailsExact(line: string, k: nat)
    requires k < |line|
    ensures ShieldEmails(line)[k] != line[k] <==> 1 <= k && Taken(line, 0, 3, EmailAt, k - 1)
  {
    if 1 <= k && Taken(line, 0, 3, EmailAt, k - 1) {
      EmailWindow(line, k - 1, 1);
      TakenIsMatch(line, 0, 3, EmailAt, k - 1);
    } else if j: nat :| j <= k < j + 3 && Taken(line, 0, 3, EmailAt, j) {
      EmailWindow(line, j, k - j);
    } else {
      GsubOutsideTaken(line, 0, 3, EmailAt, EmailText, k);
    }
  }

  /** Over a taken match the shield writes `'\1∮\3'`. */
  lemma EmailWindow(line: string, j: nat, m: nat)
    requires m < 3 && Taken(line, 0, 3, EmailAt, j)
    ensures j + 3 <= |line| && |ShieldEmails(line)| == |line|
    ensures ShieldEmails(line)[j + m] == if m == 1 then '∮' else line[j + m]
  {
    GsubAtTaken(line, 0, 3, EmailAt, EmailText, j);
    assert ShieldEmails(line)[j + m] == EmailText(line, j)[m];
  }

  /** For example, in `a.b.c` only the first period is taken as an email's. */
  lemma EmailScanResumesAfterMatch()
    ensures ShieldEmails("a.b.c") == "a∮b.c"
  {
    var s := "a.b.c";
    assert EmailAt(s, 0) && !EmailAt(s, 3) && !EmailAt(s, 4);
    assert GsubFrom(s, 5, 3, EmailAt, EmailText) == [];
    assert GsubFrom(s, 4, 3, EmailAt, EmailText) == "c";
    assert GsubFrom(s, 3, 3, EmailAt, EmailText) == ".c";
  }

  // ---------------------------------------------------------------------------
  // two-mark compounds (segmenter.rb:219-222), for every language

  /** `?!` → ☉, `!?` → ☈, `??` → ☇, `!!` → ☄, in this order. */
  function ShieldCompounds(line: string): (r: string)
    ensures Restore(r) == Restore(line)
  {
    var l1 := ReplaceLiteral(line, "?!", "☉");
    var l2 := ReplaceLiteral(l1, "!?", "☈");
    var l3 := ReplaceLiteral(l2, "??", "☇");
    var l4 := ReplaceLiteral(l3, "!!", "☄");
    CompoundDecodes('☉', "?!");
    CompoundDecodes('☈', "!?");
    CompoundDecodes('☇', "??");
    CompoundDecodes('☄', "!!");
    ReplaceLiteralKeepsExpansion(line, "?!", "☉", Restored);
    ReplaceLiteralKeepsExpansion(l1, "!?", "☈", Restored);
    ReplaceLiteralKeepsExpansion(l2, "??", "☇", Restored);
    ReplaceLiteralKeepsExpansion(l3, "!!", "☄", Restored);
    l4
  }

  /** No `x` is directly followed by `y` from `i` on. */
  predicate NoPairFrom(s: string, i: nat, x: char, y: char) {
    forall k :: i <= k && k + 1 < |s| ==> !(s[k] == x && s[k + 1] == y)
  }

  /**
   * A gsub of a two-character pattern by a single sentinel leaves no
   * occurrence of the pattern, and creates no pair of characters other than
   * the sentinel that was not there before.
   */
  lemma {:induction false} GsubPairLeavesNoPair(s: string, i: nat, pat: string, c: char, x: char, y: char)
    requires |pat| == 2 && i <= |s| && c != x && c != y
    requires pat == [x, y] || NoPairFrom(s, i, x, y)
    ensures NoPairFrom(GsubFrom(s, i, 2, Literal(pat), Fixed([c])), 0, x, y)
    decreases |s| - i
  {
    var r := GsubFrom(s, i, 2, Literal(pat), Fixed([c]));
    if i < |s| {
      if i + 2 <= |s| && Literal(pat)(s, i) {
        GsubPairLeavesNoPair(s, i + 2, pat, c, x, y);
        var rest := GsubFrom(s, i + 2, 2, Literal(pat), Fixed([c]));
        assert r == [c] + rest;
        forall k | 0 <= k && k + 1 < |r| ensures !(r[k] == x && r[k + 1] == y) {
          if k > 0 {
            assert r[k] == rest[k - 1] && r[k + 1] == rest[k];
          }
        }
      } else {
        GsubPairLeavesNoPair(s, i + 1, pat, c, x, y);
        var rest := GsubFrom(s, i + 1, 2, Literal(pat), Fixed([c]));
        assert r == [s[i]] + rest;
        forall k | 0 <= k && k + 1 < |r| ensures !(r[k] == x && r[k + 1] == y) {
          if k > 0 {
            assert r[k] == rest[k - 1] && r[k + 1] == rest[k];
          }
        }
      }
    }
  }

  /** After the compound shields no `?` or `!` is directly followed by another. */
  lemma ShieldCompoundsLeavesNoPair(line: string)
    ensures forall k :: 0 <= k && k + 1 < |ShieldCompounds(line)| ==>
              !((ShieldCompounds(line)[k] == '?' || ShieldCompounds(line)[k] == '!') &&
                (ShieldCompounds(line)[k + 1] == '?' || ShieldCompounds(line)[k + 1] == '!'))
  {
    var l1 := ReplaceLiteral(line, "?!", "☉");
    var l2 := ReplaceLiteral(l1, "!?", "☈");
    var l3 := ReplaceLiteral(l2, "??", "☇");
    var l4 := ReplaceLiteral(l3, "!!", "☄");
    assert l4 == ShieldCompounds(line);
    GsubPairLeavesNoPair(line, 0, "?!", '☉', '?', '!');
    GsubPairLeavesNoPair(l1, 0, "!?", '☈', '?', '!');
    GsubPairLeavesNoPair(l2, 0, "??", '☇', '?', '!');
    GsubPairLeavesNoPair(l3, 0, "!!", '☄', '?', '!');
    GsubPairLeavesNoPair(l1, 0, "!?", '☈', '!', '?');
    GsubPairLeavesNoPair(l2, 0, "??", '☇', '!', '?');
    GsubPairLeavesNoPair(l3, 0, "!!", '☄', '!', '?');
    GsubPairLeavesNoPair(l2, 0, "??", '☇', '?', '?');
    GsubPairLeavesNoPair(l3, 0, "!!", '☄', '?', '?');
    GsubPairLeavesNoPair(l3, 0, "!!", '☄', '!', '!');
  }

  lemma CompoundDecodes(c: char, pair: string)
    requires (c, pair) in [('☉', "?!"), ('☈', "!?"), ('☇', "??"), ('☄', "!!")]
    ensures Expand([c], Restored) == Expand(pair, Restored)
  {
    ExpandOne(c, Restored);
    assert Restored('?') == "?" && Restored('!') == "!";
    if c == '☉' {
      assert Restored(c) == "?!";
    } else if c == '☈' {
      assert Restored(c) == "!?";
    } else if c == '☇' {
      assert Restored(c) == "??";
    } else {
      assert Restored(c) == "!!";
    }
    assert pair == Restored(c);
    ExpandIdentity(pair, Restored);
  }

  /** The literal pattern is at `k`. */
  lemma LiteralAt(t: string, k: nat, pat: string)
    requires k + |pat| <= |t| && t[k..k + |pat|] == pat
    ensures Literal(pat)(t, k)
  {
  }

  /** The literal pattern is not at `k`: its `j`-th character differs. */
  lemma NoLiteralAt(t: string, k: nat, pat: string, j: nat)
    requires j < |pat| && k + |pat| <= |t| && t[k + j] != pat[j]
    ensures !Literal(pat)(t, k)
  {
    assert t[k..k + |pat|][j] == t[k + j];
  }

  /** Compounds pair marks from the left: `?!?` gives `☉?`. */
  lemma CompoundsPairFromTheLeft()
    ensures ShieldCompounds("?!?") == "☉?"
  {
    assert ReplaceLiteral("?!?", "?!", "☉") == "☉?" by {
      assert GsubFrom("?!?", 3, 2, Literal("?!"), Fixed("☉")) == [];
      assert GsubFrom("?!?", 2, 2, Literal("?!"), Fixed("☉")) == "?";
      LiteralAt("?!?", 0, "?!");
      assert GsubFrom("?!?", 0, 2, Literal("?!"), Fixed("☉")) == "☉?";
    }
    assert ReplaceLiteral("☉?", "!?", "☈") == "☉?" by {
      assert GsubFrom("☉?", 2, 2, Literal("!?"), Fixed("☈")) == [];
      assert GsubFrom("☉?", 1, 2, Literal("!?"), Fixed("☈")) == "?";
      NoLiteralAt("☉?", 0, "!?", 0);
      assert GsubFrom("☉?", 0, 2, Literal("!?"), Fixed("☈")) == "☉?";
    }
    assert ReplaceLiteral("☉?", "??", "☇") == "☉?" by {
      assert GsubFrom("☉?", 2, 2, Literal("??"), Fixed("☇")) == [];
      assert GsubFrom("☉?", 1, 2, Literal("??"), Fixed("☇")) == "?";
      NoLiteralAt("☉?", 0, "??", 0);
      assert GsubFrom("☉?", 0, 2, Literal("??"), Fixed("☇")) == "☉?";
    }
    assert ReplaceLiteral("☉?", "!!", "☄") == "☉?" by {
      assert GsubFrom("☉?", 2, 2, Literal("!!"), Fixed("☄")) == [];
      assert GsubFrom("☉?", 1, 2, Literal("!!"), Fixed("☄")) == "?";
      NoLiteralAt("☉?", 0, "!!", 0);
      assert GsubFrom("☉?", 0, 2, Literal("!!"), Fixed("☄")) == "☉?";
    }
  }

  /** A mark is used in one compound only: `!!!` gives `☄!`. */
  lemma CompoundsDoNotOverlap()
    ensures ShieldCompounds("!!!") == "☄!"
  {
    BangsHoldNoQuestionCompound();
    assert ReplaceLiteral("!!!", "!!", "☄") == "☄!" by {
      assert GsubFrom("!!!", 3, 2, Literal("!!"), Fixed("☄")) == [];
      assert GsubFrom("!!!", 2, 2, Literal("!!"), Fixed("☄")) == "!";
      LiteralAt("!!!", 0, "!!");
      assert GsubFrom("!!!", 0, 2, Literal("!!"), Fixed("☄")) == "☄!";
    }
  }

  /** `!!!` holds none of `?!`, `!?`, `??`. */
  lemma BangsHoldNoQuestionCompound()
    ensures ReplaceLiteral("!!!", "?!", "☉") == "!!!"
    ensures ReplaceLiteral("!!!", "!?", "☈") == "!!!"
    ensures ReplaceLiteral("!!!", "??", "☇") == "!!!"
  {
    BangsHoldNo("?!", "☉", 0);
    BangsHoldNo("!?", "☈", 1);
    BangsHoldNo("??", "☇", 0);
  }

  /** A two-mark pattern whose `j`-th mark is `?` is nowhere in `!!!`. */
  lemma BangsHoldNo(pat: string, c: string, j: nat)
    requires |pat| == 2 && j < 2 && pat[j] == '?'
    ensures ReplaceLiteral("!!!", pat, c) == "!!!"
  {
    var s := "!!!";
    forall a | 0 <= a && a + 2 <= |s| ensures !Literal(pat)(s, a) {
      NoLiteralAt(s, a, pat, j);
    }
    GsubNoMatch(s, 0, 2, Literal(pat), Fixed(c));
    assert s[0..] == s;
  }

  // ---------------------------------------------------------------------------
  // emphasis marks of the default branch (segmenter.rb:245-248)

  /** `(?=(\'|\"))`. */
  predicate QuoteAfter(t: string, k: nat) {
    k + 1 < |t| && (t[k + 1] == '\'' || t[k + 1] == '"')
  }

  /** `(?=\s[a-z])`. */
  predicate LowerWordAfter(t: string, k: nat) {
    k + 2 < |t| && IsSpace(t[k + 1]) && IsLower(t[k + 2])
  }

  /** `(?=\,\s[a-z])`. */
  predicate CommaLowerWordAfter(t: string, k: nat) {
    k + 3 < |t| && t[k + 1] == ',' && IsSpace(t[k + 2]) && IsLower(t[k + 3])
  }

  /** The `!` at `k` does not end its sentence: a quote, or a lower-case word, comes next. */
  predicate EmphasisBangAt(t: string, k: nat) {
    QuoteAfter(t, k) || LowerWordAfter(t, k) || CommaLowerWordAfter(t, k)
  }

  /**
   * A `?` is shielded exactly when a quote follows it; a `!` exactly when a
   * quote or a lower-case word (possibly after a comma) follows it.
   */
  function ShieldEmphasis(line: string): (r: string)
    ensures MarksShielded(line, r)
    ensures forall k :: 0 <= k < |line| ==>
              (r[k] != line[k] <==>
                 (line[k] == '?' && QuoteAfter(line, k)) || (line[k] == '!' && EmphasisBangAt(line, k)))
  {
    var l1 := ReplaceWhere(line, '?', 'ᓷ', QuoteAfter);
    EmphasisStable(line, l1);
    var l2 := ReplaceWhere(l1, '!', 'ᓴ', QuoteAfter);
    EmphasisStable(line, l2);
    var l3 := ReplaceWhere(l2, '!', 'ᓴ', LowerWordAfter);
    EmphasisStable(line, l3);
    var l4 := ReplaceWhere(l3, '!', 'ᓴ', CommaLowerWordAfter);
    l4
  }

  /** Shielding a `?` or `!` changes nothing the emphasis lookaheads look at. */
  lemma EmphasisStable(s: string, r: string)
    requires |r| == |s|
    requires forall k :: 0 <= k < |s| ==> r[k] == s[k] || (s[k] == '?' && r[k] == 'ᓷ') || (s[k] == '!' && r[k] == 'ᓴ')
    ensures forall k: nat :: QuoteAfter(s, k) == QuoteAfter(r, k)
    ensures forall k: nat :: LowerWordAfter(s, k) == LowerWordAfter(r, k)
    ensures forall k: nat :: CommaLowerWordAfter(s, k) == CommaLowerWordAfter(r, k)
  {
  }

  // ---------------------------------------------------------------------------
  // Arabic and Persian (segmenter.rb:225-226, 229-230)

  function NotSpace(c: char): bool {
    !IsSpace(c)
  }

  /** `(?<=\d):(?=\d)`: a colon inside a time or a ratio. */
  predicate RatioColonAt(t: string, k: nat) {
    0 < k && k + 1 < |t| && IsDigit(t[k - 1]) && IsDigit(t[k + 1])
  }

  /** `،(?=\s\S+،)`: a comma with another comma at the end of the next word. */
  predicate ListCommaAt(t: string, k: nat) {
    k + 2 <= |t| && IsSpace(t[k + 1])
    && exists j :: k + 3 <= j < k + 2 + RunLength(t, k + 2, NotSpace) && t[j] == '،'
  }

  predicate ArabicShield(a: char, b: char) {
    b == a || (a == ':' && b == '♭') || (a == '،' && b == '♬')
  }

  /**
   * A colon between digits becomes ♭ and a comma followed by a one-word list
   * item and another comma becomes ♬; nothing else changes.
   */
  function ShieldArabic(line: string): (r: string)
    ensures |r| == |line|
    ensures forall k :: 0 <= k < |line| ==> ArabicShield(line[k], r[k])
    ensures forall k :: 0 <= k < |line| ==>
              (r[k] != line[k] <==>
                 (line[k] == ':' && RatioColonAt(line, k)) || (line[k] == '،' && ListCommaAt(line, k)))
    ensures Restore(r) == Restore(line)
  {
    var l1 := ReplaceWhere(line, ':', '♭', RatioColonAt);
    ListCommaStable(line, l1);
    var l2 := ReplaceWhere(l1, '،', '♬', ListCommaAt);
    ArabicPointwise(line, l1, l2);
    PointwiseRestore(line, l2);
    l2
  }

  /** The two gsubs of the Arabic branch, position by position. */
  lemma ArabicPointwise(line: string, l1: string, l2: string)
    requires |l1| == |line| && |l2| == |l1|
    requires forall k :: 0 <= k < |line| ==> (line[k] == ':' && RatioColonAt(line, k) ==> l1[k] == '♭')
    requires forall k :: 0 <= k < |line| ==> (!(line[k] == ':' && RatioColonAt(line, k)) ==> l1[k] == line[k])
    requires forall k :: 0 <= k < |l1| ==> (l1[k] == '،' && ListCommaAt(l1, k) ==> l2[k] == '♬')
    requires forall k :: 0 <= k < |l1| ==> (!(l1[k] == '،' && ListCommaAt(l1, k)) ==> l2[k] == l1[k])
    requires forall k: nat :: ListCommaAt(line, k) == ListCommaAt(l1, k)
    ensures forall k :: 0 <= k < |line| ==> ArabicShield(line[k], l2[k])
    ensures forall k :: 0 <= k < |line| ==>
              (l2[k] != line[k] <==>
                 (line[k] == ':' && RatioColonAt(line, k)) || (line[k] == '،' && ListCommaAt(line, k)))
    ensures forall k :: 0 <= k < |line| ==> Restored(line[k]) == Restored(l2[k])
  {
  }

  /** Turning a colon into ♭ does not move a list comma. */
  lemma ListCommaStable(s: string, r: string)
    requires |r| == |s|
    requires forall k :: 0 <= k < |s| ==> r[k] == s[k] || (s[k] == ':' && r[k] == '♭')
    ensures forall k: nat :: ListCommaAt(s, k) == ListCommaAt(r, k)
  {
    forall k: nat | k + 2 <= |s| ensures ListCommaAt(s, k) == ListCommaAt(r, k) {
      RunLengthAgrees(s, r, k + 2, NotSpace);
      var n := RunLength(s, k + 2, NotSpace);
      if ListCommaAt(s, k) {
        var j :| k + 3 <= j < k + 2 + n && s[j] == '،';
        assert r[j] == '،';
      }
      if ListCommaAt(r, k) {
        var j :| k + 3 <= j < k + 2 + n && r[j] == '،';
        assert s[j] == '،';
      }
    }
  }
}
