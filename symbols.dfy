/**
 * The two decoders that turn sentinels back into punctuation: `sub_symbols`
 * (segmenter.rb:271-275), applied to every split piece, and
 * `reinsert_ellipsis` (segmenter.rb:414-421), applied in the final assembly.
 *
 * Each is a chain of gsubs of one character by a string. No replacement text
 * contains a character that a later link of its chain replaces, so a chain acts
 * character by character: it is an `Expand` by a per-character table, as the
 * lemmas at the end of this module prove.
 */
module Symbols {
  import opened Chars
  import opened Rewrite

  /** What `sub_symbols` writes for one character. */
  function SymbolText(c: char): string {
    match c
    case '∯' => "."
    case '♬' => "،"
    case '♭' => ":"
    case 'ᓰ' => "。"
    case 'ᓱ' => "．"
    case 'ᓳ' => "！"
    case 'ᓴ' => "!"
    case 'ᓷ' => "?"
    case 'ᓸ' => "？"
    case '☉' => "?!"
    case '☈' => "!?"
    case '☇' => "??"
    case '☄' => "!!"
    case 'ȸ' => ""
    case 'ȹ' => "\n"
    case _ => [c]
  }

  function SubSymbols(s: string): string {
    Expand(s, SymbolText)
  }

  /** What `reinsert_ellipsis` writes for one character. */
  function EllipsisText(c: char): string {
    match c
    case 'ƪ' => "..."
    case '♟' => " . . . "
    case '♝' => ". . . ."
    case '☏' => ".."
    case '∮' => "."
    case _ => [c]
  }

  function ReinsertEllipsis(s: string): string {
    Expand(s, EllipsisText)
  }

  /** The literal text a sentinel stands for once both decoders have run. */
  function Restored(c: char): (r: string)
    ensures !IsSentinel(c) ==> r == [c]
    ensures forall i :: 0 <= i < |r| ==> !IsSentinel(r[i])
  {
    match c
    case 'ƪ' => "..."
    case '♟' => " . . . "
    case '♝' => ". . . ."
    case '☏' => ".."
    case '∮' => "."
    case _ => SymbolText(c)
  }

  /** Decoding one character fully is `sub_symbols` followed by `reinsert_ellipsis`. */
  lemma RestoredIsBothDecoders(c: char)
    ensures Restored(c) == ReinsertEllipsis(SymbolText(c))
  {
    var t := SymbolText(c);
    if c in {'ƪ', '♟', '♝', '☏', '∮'} {
      assert t == [c] && t[1..] == [];
      assert ReinsertEllipsis(t) == EllipsisText(t[0]) + ReinsertEllipsis(t[1..]);
    } else {
      ExpandIdentity(t, EllipsisText);
    }
  }

  /** The complete decoding of a shielded text. */
  function Restore(s: string): string {
    Expand(s, Restored)
  }

  /** The complete decoding is `sub_symbols` followed by `reinsert_ellipsis`. */
  lemma {:induction false} RestoreIsBothDecoders(s: string)
    ensures Restore(s) == ReinsertEllipsis(SubSymbols(s))
  {
    if s != [] {
      RestoreIsBothDecoders(s[1..]);
      RestoredIsBothDecoders(s[0]);
      ExpandAppend(SymbolText(s[0]), SubSymbols(s[1..]), EllipsisText);
    }
  }

  /** `sub_symbols` distributes over concatenation: decoding pieces decodes their join. */
  lemma SubSymbolsAppend(a: string, b: string)
    ensures SubSymbols(a + b) == SubSymbols(a) + SubSymbols(b)
  {
    ExpandAppend(a, b, SymbolText);
  }

  lemma RestoreAppend(a: string, b: string)
    ensures Restore(a + b) == Restore(a) + Restore(b)
  {
    ExpandAppend(a, b, Restored);
  }

  /** Text with no sentinel decodes to itself. */
  lemma RestoreSentinelFree(s: string)
    requires SentinelFree(s)
    ensures Restore(s) == s
  {
    ExpandIdentity(s, Restored);
  }

  /** Decoding never leaves a sentinel behind. */
  lemma {:induction false} RestoreIsSentinelFree(s: string)
    ensures SentinelFree(Restore(s))
  {
    if s != [] {
      RestoreIsSentinelFree(s[1..]);
      assert Restore(s) == Restored(s[0]) + Restore(s[1..]);
    }
  }

  /** Two texts that agree character by character once decoded decode alike. */
  lemma {:induction false} PointwiseRestore(s: string, r: string)
    requires |r| == |s| && forall k :: 0 <= k < |s| ==> Restored(s[k]) == Restored(r[k])
    ensures Restore(r) == Restore(s)
  {
    if s != [] {
      PointwiseRestore(s[1..], r[1..]);
    }
  }

  // ---------------------------------------------------------------------------
  // The decoders as the source writes them

  /** `sub_symbols` as written: fifteen replacements of one character, in this order. */
  function SubSymbolsSteps(s: string): string {
    var s1 := ReplaceChar(s, '∯', ".");
    var s2 := ReplaceChar(s1, '♬', "،");
    var s3 := ReplaceChar(s2, '♭', ":");
    var s4 := ReplaceChar(s3, 'ᓰ', "。");
    var s5 := ReplaceChar(s4, 'ᓱ', "．");
    var s6 := ReplaceChar(s5, 'ᓳ', "！");
    var s7 := ReplaceChar(s6, 'ᓴ', "!");
    var s8 := ReplaceChar(s7, 'ᓷ', "?");
    var s9 := ReplaceChar(s8, 'ᓸ', "？");
    var s10 := ReplaceChar(s9, '☉', "?!");
    var s11 := ReplaceChar(s10, '☈', "!?");
    var s12 := ReplaceChar(s11, '☇', "??");
    var s13 := ReplaceChar(s12, '☄', "!!");
    var s14 := ReplaceChar(s13, 'ȸ', "");
    ReplaceChar(s14, 'ȹ', "\n")
  }

  lemma SubSymbolsStepsAppend(a: string, b: string)
    ensures SubSymbolsSteps(a + b) == SubSymbolsSteps(a) + SubSymbolsSteps(b)
  {
    var a1, b1 := ReplaceChar(a, '∯', "."), ReplaceChar(b, '∯', ".");
    ReplaceCharAppend(a, b, '∯', ".");
    var a2, b2 := ReplaceChar(a1, '♬', "،"), ReplaceChar(b1, '♬', "،");
    ReplaceCharAppend(a1, b1, '♬', "،");
    var a3, b3 := ReplaceChar(a2, '♭', ":"), ReplaceChar(b2, '♭', ":");
    ReplaceCharAppend(a2, b2, '♭', ":");
    var a4, b4 := ReplaceChar(a3, 'ᓰ', "。"), ReplaceChar(b3, 'ᓰ', "。");
    ReplaceCharAppend(a3, b3, 'ᓰ', "。");
    var a5, b5 := ReplaceChar(a4, 'ᓱ', "．"), ReplaceChar(b4, 'ᓱ', "．");
    ReplaceCharAppend(a4, b4, 'ᓱ', "．");
    var a6, b6 := ReplaceChar(a5, 'ᓳ', "！"), ReplaceChar(b5, 'ᓳ', "！");
    ReplaceCharAppend(a5, b5, 'ᓳ', "！");
    var a7, b7 := ReplaceChar(a6, 'ᓴ', "!"), ReplaceChar(b6, 'ᓴ', "!");
    ReplaceCharAppend(a6, b6, 'ᓴ', "!");
    var a8, b8 := ReplaceChar(a7, 'ᓷ', "?"), ReplaceChar(b7, 'ᓷ', "?");
    ReplaceCharAppend(a7, b7, 'ᓷ', "?");
    var a9, b9 := ReplaceChar(a8, 'ᓸ', "？"), ReplaceChar(b8, 'ᓸ', "？");
    ReplaceCharAppend(a8, b8, 'ᓸ', "？");
    var a10, b10 := ReplaceChar(a9, '☉', "?!"), ReplaceChar(b9, '☉', "?!");
    ReplaceCharAppend(a9, b9, '☉', "?!");
    var a11, b11 := ReplaceChar(a10, '☈', "!?"), ReplaceChar(b10, '☈', "!?");
    ReplaceCharAppend(a10, b10, '☈', "!?");
    var a12, b12 := ReplaceChar(a11, '☇', "??"), ReplaceChar(b11, '☇', "??");
    ReplaceCharAppend(a11, b11, '☇', "??");
    var a13, b13 := ReplaceChar(a12, '☄', "!!"), ReplaceChar(b12, '☄', "!!");
    ReplaceCharAppend(a12, b12, '☄', "!!");
    var a14, b14 := ReplaceChar(a13, 'ȸ', ""), ReplaceChar(b13, 'ȸ', "");
    ReplaceCharAppend(a13, b13, 'ȸ', "");
    ReplaceCharAppend(a14, b14, 'ȹ', "\n");
  }

  /** A one-character text through the chain is the table entry of that character. */
  lemma SubSymbolsStepsOnChar(c: char)
    ensures SubSymbolsSteps([c]) == SymbolText(c)
  {
    if c in {'∯', '♬', '♭', 'ᓰ', 'ᓱ'} {
      SubSymbolsStepsOnPeriodShields(c);
    } else if c in {'ᓳ', 'ᓴ', 'ᓷ', 'ᓸ'} {
      SubSymbolsStepsOnMarkShields(c);
    } else if c == '☉' {
      SubSymbolsStepsOnQuestionExclamation(c);
    } else if c == '☈' {
      SubSymbolsStepsOnExclamationQuestion(c);
    } else if c in {'☇', '☄'} {
      SubSymbolsStepsOnDoubledCompounds(c);
    } else if c in {'ȸ', 'ȹ'} {
      SubSymbolsStepsOnLineMarks(c);
    } else {
      SubSymbolsStepsOnOther(c);
    }
  }

  /** The chain on ∯ ♬ ♭ ᓰ ᓱ. */
  lemma SubSymbolsStepsOnPeriodShields(c: char)
    requires c in {'∯', '♬', '♭', 'ᓰ', 'ᓱ'}
    ensures SubSymbolsSteps([c]) == SymbolText(c)
  {
    var s1 := ReplaceChar([c], '∯', ".");
    var s2 := ReplaceChar(s1, '♬', "،");
    var s3 := ReplaceChar(s2, '♭', ":");
    var s4 := ReplaceChar(s3, 'ᓰ', "。");
    var s5 := ReplaceChar(s4, 'ᓱ', "．");
    var s6 := ReplaceChar(s5, 'ᓳ', "！");
    var s7 := ReplaceChar(s6, 'ᓴ', "!");
    var s8 := ReplaceChar(s7, 'ᓷ', "?");
    var s9 := ReplaceChar(s8, 'ᓸ', "？");
    var s10 := ReplaceChar(s9, '☉', "?!");
    var s11 := ReplaceChar(s10, '☈', "!?");
    var s12 := ReplaceChar(s11, '☇', "??");
    var s13 := ReplaceChar(s12, '☄', "!!");
    var s14 := ReplaceChar(s13, 'ȸ', "");
    var s15 := ReplaceChar(s14, 'ȹ', "\n");
    if c == '∯' {
      OneCharReplace(c, '∯', ".");
      assert s1 == ".";
      assert s2 == ".";
      assert s3 == ".";
      assert s4 == ".";
      assert s5 == ".";
      assert s6 == ".";
      assert s7 == ".";
      assert s8 == ".";
      assert s9 == ".";
      assert s10 == ".";
      assert s11 == ".";
      assert s12 == ".";
      assert s13 == ".";
      assert s14 == ".";
      assert s15 == ".";
    } else if c == '♬' {
      OneCharReplace(c, '♬', "،");
      assert s1 == [c];
      assert s2 == "،";
      assert s3 == "،";
      assert s4 == "،";
      assert s5 == "،";
      assert s6 == "،";
      assert s7 == "،";
      assert s8 == "،";
      assert s9 == "،";
      assert s10 == "،";
      assert s11 == "،";
      assert s12 == "،";
      assert s13 == "،";
      assert s14 == "،";
      assert s15 == "،";
    } else if c == '♭' {
      OneCharReplace(c, '♭', ":");
      assert s1 == [c];
      assert s2 == [c];
      assert s3 == ":";
      assert s4 == ":";
      assert s5 == ":";
      assert s6 == ":";
      assert s7 == ":";
      assert s8 == ":";
      assert s9 == ":";
      assert s10 == ":";
      assert s11 == ":";
      assert s12 == ":";
      assert s13 == ":";
      assert s14 == ":";
      assert s15 == ":";
    } else if c == 'ᓰ' {
      OneCharReplace(c, 'ᓰ', "。");
      assert s1 == [c];
      assert s2 == [c];
      assert s3 == [c];
      assert s4 == "。";
      assert s5 == "。";
      assert s6 == "。";
      assert s7 == "。";
      assert s8 == "。";
      assert s9 == "。";
      assert s10 == "。";
      assert s11 == "。";
      assert s12 == "。";
      assert s13 == "。";
      assert s14 == "。";
      assert s15 == "。";
    } else {
      OneCharReplace(c, 'ᓱ', "．");
      assert s1 == [c];
      assert s2 == [c];
      assert s3 == [c];
      assert s4 == [c];
      assert s5 == "．";
      assert s6 == "．";
      assert s7 == "．";
      assert s8 == "．";
      assert s9 == "．";
      assert s10 == "．";
      assert s11 == "．";
      assert s12 == "．";
      assert s13 == "．";
      assert s14 == "．";
      assert s15 == "．";
    }
  }

  /** The chain on ᓳ ᓴ ᓷ ᓸ. */
  lemma SubSymbolsStepsOnMarkShields(c: char)
    requires c in {'ᓳ', 'ᓴ', 'ᓷ', 'ᓸ'}
    ensures SubSymbolsSteps([c]) == SymbolText(c)
  {
    var s1 := ReplaceChar([c], '∯', ".");
    var s2 := ReplaceChar(s1, '♬', "،");
    var s3 := ReplaceChar(s2, '♭', ":");
    var s4 := ReplaceChar(s3, 'ᓰ', "。");
    var s5 := ReplaceChar(s4, 'ᓱ', "．");
    var s6 := ReplaceChar(s5, 'ᓳ', "！");
    var s7 := ReplaceChar(s6, 'ᓴ', "!");
    var s8 := ReplaceChar(s7, 'ᓷ', "?");
    var s9 := ReplaceChar(s8, 'ᓸ', "？");
    var s10 := ReplaceChar(s9, '☉', "?!");
    var s11 := ReplaceChar(s10, '☈', "!?");
    var s12 := ReplaceChar(s11, '☇', "??");
    var s13 := ReplaceChar(s12, '☄', "!!");
    var s14 := ReplaceChar(s13, 'ȸ', "");
    var s15 := ReplaceChar(s14, 'ȹ', "\n");
    if c == 'ᓳ' {
      OneCharReplace(c, 'ᓳ', "！");
      assert s1 == [c];
      assert s2 == [c];
      assert s3 == [c];
      assert s4 == [c];
      assert s5 == [c];
      assert s6 == "！";
      assert s7 == "！";
      assert s8 == "！";
      assert s9 == "！";
      assert s10 == "！";
      assert s11 == "！";
      assert s12 == "！";
      assert s13 == "！";
      assert s14 == "！";
      assert s15 == "！";
    } else if c == 'ᓴ' {
      OneCharReplace(c, 'ᓴ', "!");
      assert s1 == [c];
      assert s2 == [c];
      assert s3 == [c];
      assert s4 == [c];
      assert s5 == [c];
      assert s6 == [c];
      assert s7 == "!";
      assert s8 == "!";
      assert s9 == "!";
      assert s10 == "!";
      assert s11 == "!";
      assert s12 == "!";
      assert s13 == "!";
      assert s14 == "!";
      assert s15 == "!";
    } else if c == 'ᓷ' {
      OneCharReplace(c, 'ᓷ', "?");
      assert s1 == [c];
      assert s2 == [c];
      assert s3 == [c];
      assert s4 == [c];
      assert s5 == [c];
      assert s6 == [c];
      assert s7 == [c];
      assert s8 == "?";
      assert s9 == "?";
      assert s10 == "?";
      assert s11 == "?";
      assert s12 == "?";
      assert s13 == "?";
      assert s14 == "?";
      assert s15 == "?";
    } else {
      OneCharReplace(c, 'ᓸ', "？");
      assert s1 == [c];
      assert s2 == [c];
      assert s3 == [c];
      assert s4 == [c];
      assert s5 == [c];
      assert s6 == [c];
      assert s7 == [c];
      assert s8 == [c];
      assert s9 == "？";
      assert s10 == "？";
      assert s11 == "？";
      assert s12 == "？";
      assert s13 == "？";
      assert s14 == "？";
      assert s15 == "？";
    }
  }

  /** The chain on ☉. */
  lemma SubSymbolsStepsOnQuestionExclamation(c: char)
    requires c == '☉'
    ensures SubSymbolsSteps([c]) == SymbolText(c)
  {
    var s1 := ReplaceChar([c], '∯', ".");
    var s2 := ReplaceChar(s1, '♬', "،");
    var s3 := ReplaceChar(s2, '♭', ":");
    var s4 := ReplaceChar(s3, 'ᓰ', "。");
    var s5 := ReplaceChar(s4, 'ᓱ', "．");
    var s6 := ReplaceChar(s5, 'ᓳ', "！");
    var s7 := ReplaceChar(s6, 'ᓴ', "!");
    var s8 := ReplaceChar(s7, 'ᓷ', "?");
    var s9 := ReplaceChar(s8, 'ᓸ', "？");
    var s10 := ReplaceChar(s9, '☉', "?!");
    var s11 := ReplaceChar(s10, '☈', "!?");
    var s12 := ReplaceChar(s11, '☇', "??");
    var s13 := ReplaceChar(s12, '☄', "!!");
    var s14 := ReplaceChar(s13, 'ȸ', "");
    var s15 := ReplaceChar(s14, 'ȹ', "\n");
    OneCharReplace(c, '☉', "?!");
    assert s1 == [c];
    assert s2 == [c];
    assert s3 == [c];
    assert s4 == [c];
    assert s5 == [c];
    assert s6 == [c];
    assert s7 == [c];
    assert s8 == [c];
    assert s9 == [c];
    assert s10 == "?!";
    assert s11 == "?!";
    assert s12 == "?!";
    assert s13 == "?!";
    assert s14 == "?!";
    assert s15 == "?!";
  }

  /** The chain on ☈. */
  lemma SubSymbolsStepsOnExclamationQuestion(c: char)
    requires c == '☈'
    ensures SubSymbolsSteps([c]) == SymbolText(c)
  {
    var s1 := ReplaceChar([c], '∯', ".");
    var s2 := ReplaceChar(s1, '♬', "،");
    var s3 := ReplaceChar(s2, '♭', ":");
    var s4 := ReplaceChar(s3, 'ᓰ', "。");
    var s5 := ReplaceChar(s4, 'ᓱ', "．");
    var s6 := ReplaceChar(s5, 'ᓳ', "！");
    var s7 := ReplaceChar(s6, 'ᓴ', "!");
    var s8 := ReplaceChar(s7, 'ᓷ', "?");
    var s9 := ReplaceChar(s8, 'ᓸ', "？");
    var s10 := ReplaceChar(s9, '☉', "?!");
    var s11 := ReplaceChar(s10, '☈', "!?");
    var s12 := ReplaceChar(s11, '☇', "??");
    var s13 := ReplaceChar(s12, '☄', "!!");
    var s14 := ReplaceChar(s13, 'ȸ', "");
    var s15 := ReplaceChar(s14, 'ȹ', "\n");
    OneCharReplace(c, '☈', "!?");
    assert s1 == [c];
    assert s2 == [c];
    assert s3 == [c];
    assert s4 == [c];
    assert s5 == [c];
    assert s6 == [c];
    assert s7 == [c];
    assert s8 == [c];
    assert s9 == [c];
    assert s10 == [c];
    assert s11 == "!?";
    assert s12 == "!?";
    assert s13 == "!?";
    assert s14 == "!?";
    assert s15 == "!?";
  }

  /** The chain on ☇ ☄. */
  lemma SubSymbolsStepsOnDoubledCompounds(c: char)
    requires c in {'☇', '☄'}
    ensures SubSymbolsSteps([c]) == SymbolText(c)
  {
    var s1 := ReplaceChar([c], '∯', ".");
    var s2 := ReplaceChar(s1, '♬', "،");
    var s3 := ReplaceChar(s2, '♭', ":");
    var s4 := ReplaceChar(s3, 'ᓰ', "。");
    var s5 := ReplaceChar(s4, 'ᓱ', "．");
    var s6 := ReplaceChar(s5, 'ᓳ', "！");
    var s7 := ReplaceChar(s6, 'ᓴ', "!");
    var s8 := ReplaceChar(s7, 'ᓷ', "?");
    var s9 := ReplaceChar(s8, 'ᓸ', "？");
    var s10 := ReplaceChar(s9, '☉', "?!");
    var s11 := ReplaceChar(s10, '☈', "!?");
    var s12 := ReplaceChar(s11, '☇', "??");
    var s13 := ReplaceChar(s12, '☄', "!!");
    var s14 := ReplaceChar(s13, 'ȸ', "");
    var s15 := ReplaceChar(s14, 'ȹ', "\n");
    if c == '☇' {
      OneCharReplace(c, '☇', "??");
      assert s1 == [c];
      assert s2 == [c];
      assert s3 == [c];
      assert s4 == [c];
      assert s5 == [c];
      assert s6 == [c];
      assert s7 == [c];
      assert s8 == [c];
      assert s9 == [c];
      assert s10 == [c];
      assert s11 == [c];
      assert s12 == "??";
      assert s13 == "??";
      assert s14 == "??";
      assert s15 == "??";
    } else {
      OneCharReplace(c, '☄', "!!");
      assert s1 == [c];
      assert s2 == [c];
      assert s3 == [c];
      assert s4 == [c];
      assert s5 == [c];
      assert s6 == [c];
      assert s7 == [c];
      assert s8 == [c];
      assert s9 == [c];
      assert s10 == [c];
      assert s11 == [c];
      assert s12 == [c];
      assert s13 == "!!";
      assert s14 == "!!";
      assert s15 == "!!";
    }
  }

  /** The chain on ȸ ȹ. */
  lemma SubSymbolsStepsOnLineMarks(c: char)
    requires c in {'ȸ', 'ȹ'}
    ensures SubSymbolsSteps([c]) == SymbolText(c)
  {
    var s1 := ReplaceChar([c], '∯', ".");
    var s2 := ReplaceChar(s1, '♬', "،");
    var s3 := ReplaceChar(s2, '♭', ":");
    var s4 := ReplaceChar(s3, 'ᓰ', "。");
    var s5 := ReplaceChar(s4, 'ᓱ', "．");
    var s6 := ReplaceChar(s5, 'ᓳ', "！");
    var s7 := ReplaceChar(s6, 'ᓴ', "!");
    var s8 := ReplaceChar(s7, 'ᓷ', "?");
    var s9 := ReplaceChar(s8, 'ᓸ', "？");
    var s10 := ReplaceChar(s9, '☉', "?!");
    var s11 := ReplaceChar(s10, '☈', "!?");
    var s12 := ReplaceChar(s11, '☇', "??");
    var s13 := ReplaceChar(s12, '☄', "!!");
    var s14 := ReplaceChar(s13, 'ȸ', "");
    var s15 := ReplaceChar(s14, 'ȹ', "\n");
    if c == 'ȸ' {
      OneCharReplace(c, 'ȸ', "");
      assert s1 == [c];
      assert s2 == [c];
      assert s3 == [c];
      assert s4 == [c];
      assert s5 == [c];
      assert s6 == [c];
      assert s7 == [c];
      assert s8 == [c];
      assert s9 == [c];
      assert s10 == [c];
      assert s11 == [c];
      assert s12 == [c];
      assert s13 == [c];
      assert s14 == "";
      assert s15 == "";
    } else {
      OneCharReplace(c, 'ȹ', "\n");
      assert s1 == [c];
      assert s2 == [c];
      assert s3 == [c];
      assert s4 == [c];
      assert s5 == [c];
      assert s6 == [c];
      assert s7 == [c];
      assert s8 == [c];
      assert s9 == [c];
      assert s10 == [c];
      assert s11 == [c];
      assert s12 == [c];
      assert s13 == [c];
      assert s14 == [c];
      assert s15 == "\n";
    }
  }

  /** The chain leaves every other character alone. */
  lemma SubSymbolsStepsOnOther(c: char)
    requires c !in {'∯', '♬', '♭', 'ᓰ', 'ᓱ', 'ᓳ', 'ᓴ', 'ᓷ', 'ᓸ', '☉', '☈', '☇', '☄', 'ȸ', 'ȹ'}
    ensures SubSymbolsSteps([c]) == SymbolText(c)
  {
    var s1 := ReplaceChar([c], '∯', ".");
    var s2 := ReplaceChar(s1, '♬', "،");
    var s3 := ReplaceChar(s2, '♭', ":");
    var s4 := ReplaceChar(s3, 'ᓰ', "。");
    var s5 := ReplaceChar(s4, 'ᓱ', "．");
    var s6 := ReplaceChar(s5, 'ᓳ', "！");
    var s7 := ReplaceChar(s6, 'ᓴ', "!");
    var s8 := ReplaceChar(s7, 'ᓷ', "?");
    var s9 := ReplaceChar(s8, 'ᓸ', "？");
    var s10 := ReplaceChar(s9, '☉', "?!");
    var s11 := ReplaceChar(s10, '☈', "!?");
    var s12 := ReplaceChar(s11, '☇', "??");
    var s13 := ReplaceChar(s12, '☄', "!!");
    var s14 := ReplaceChar(s13, 'ȸ', "");
    var s15 := ReplaceChar(s14, 'ȹ', "\n");
    assert s1 == [c];
    assert s2 == [c];
    assert s3 == [c];
    assert s4 == [c];
    assert s5 == [c];
    assert s6 == [c];
    assert s7 == [c];
    assert s8 == [c];
    assert s9 == [c];
    assert s10 == [c];
    assert s11 == [c];
    assert s12 == [c];
    assert s13 == [c];
    assert s14 == [c];
    assert s15 == [c];
  }

  /** Replacing in a one-character text. */
  lemma OneCharReplace(c: char, k: char, t: string)
    ensures ReplaceChar([c], k, t) == if c == k then t else [c]
  {
    assert [c][1..] == [];
  }

  /**
   * The chain of `sub_symbols` is a per-character table: no replacement text
   * holds a character that a later link replaces.
   */
  lemma {:induction false} SubSymbolsStepsIsTable(s: string)
    ensures SubSymbolsSteps(s) == SubSymbols(s)
  {
    if s == [] {
      assert SubSymbolsSteps(s) == [];
    } else {
      SubSymbolsStepsIsTable(s[1..]);
      assert s == [s[0]] + s[1..];
      SubSymbolsStepsAppend([s[0]], s[1..]);
      SubSymbolsStepsOnChar(s[0]);
    }
  }

  /** `reinsert_ellipsis` as written: five replacements of one character, in this order. */
  function ReinsertEllipsisSteps(s: string): string {
    var s1 := ReplaceChar(s, 'ƪ', "...");
    var s2 := ReplaceChar(s1, '♟', " . . . ");
    var s3 := ReplaceChar(s2, '♝', ". . . .");
    var s4 := ReplaceChar(s3, '☏', "..");
    ReplaceChar(s4, '∮', ".")
  }

  lemma ReinsertEllipsisStepsAppend(a: string, b: string)
    ensures ReinsertEllipsisSteps(a + b) == ReinsertEllipsisSteps(a) + ReinsertEllipsisSteps(b)
  {
    var a1, b1 := ReplaceChar(a, 'ƪ', "..."), ReplaceChar(b, 'ƪ', "...");
    ReplaceCharAppend(a, b, 'ƪ', "...");
    var a2, b2 := ReplaceChar(a1, '♟', " . . . "), ReplaceChar(b1, '♟', " . . . ");
    ReplaceCharAppend(a1, b1, '♟', " . . . ");
    var a3, b3 := ReplaceChar(a2, '♝', ". . . ."), ReplaceChar(b2, '♝', ". . . .");
    ReplaceCharAppend(a2, b2, '♝', ". . . .");
    var a4, b4 := ReplaceChar(a3, '☏', ".."), ReplaceChar(b3, '☏', "..");
    ReplaceCharAppend(a3, b3, '☏', "..");
    ReplaceCharAppend(a4, b4, '∮', ".");
  }

  lemma ReinsertEllipsisStepsOnChar(c: char)
    ensures ReinsertEllipsisSteps([c]) == EllipsisText(c)
  {
    if c in {'ƪ', '☏', '∮'} {
      ReinsertEllipsisStepsOnShortForms(c);
    } else if c == '♟' {
      ReinsertEllipsisStepsOnSpacedThree();
    } else if c == '♝' {
      ReinsertEllipsisStepsOnSpacedFour();
    } else {
      ReinsertEllipsisStepsOnOther(c);
    }
  }

  /** The chain on ƪ ☏ ∮. */
  lemma ReinsertEllipsisStepsOnShortForms(c: char)
    requires c in {'ƪ', '☏', '∮'}
    ensures ReinsertEllipsisSteps([c]) == EllipsisText(c)
  {
    var s1 := ReplaceChar([c], 'ƪ', "...");
    var s2 := ReplaceChar(s1, '♟', " . . . ");
    var s3 := ReplaceChar(s2, '♝', ". . . .");
    var s4 := ReplaceChar(s3, '☏', "..");
    var s5 := ReplaceChar(s4, '∮', ".");
    if c == 'ƪ' {
      OneCharReplace(c, 'ƪ', "...");
      assert s1 == "...";
      assert s2 == "...";
      assert s3 == "...";
      assert s4 == "...";
      assert s5 == "...";
    } else if c == '☏' {
      OneCharReplace(c, '☏', "..");
      assert s1 == [c];
      assert s2 == [c];
      assert s3 == [c];
      assert s4 == "..";
      assert s5 == "..";
    } else {
      OneCharReplace(c, '∮', ".");
      assert s1 == [c];
      assert s2 == [c];
      assert s3 == [c];
      assert s4 == [c];
      assert s5 == ".";
    }
  }

  /** The chain on ♟. */
  lemma ReinsertEllipsisStepsOnSpacedThree()
    ensures ReinsertEllipsisSteps(['♟']) == " . . . "
  {
    OneCharReplace('♟', 'ƪ', "...");
    var s1 := ReplaceChar(['♟'], 'ƪ', "...");
    var s2 := ReplaceChar(s1, '♟', " . . . ");
    var s3 := ReplaceChar(s2, '♝', ". . . .");
    var s4 := ReplaceChar(s3, '☏', "..");
    var s5 := ReplaceChar(s4, '∮', ".");
    OneCharReplace('♟', '♟', " . . . ");
    assert s1 == ['♟'];
    assert s2 == " . . . ";
    assert s3 == " . . . ";
    assert s4 == " . . . ";
    assert s5 == " . . . ";
  }

  /** The chain on ♝. */
  lemma ReinsertEllipsisStepsOnSpacedFour()
    ensures ReinsertEllipsisSteps(['♝']) == ". . . ."
  {
    OneCharReplace('♝', 'ƪ', "...");
    var s1 := ReplaceChar(['♝'], 'ƪ', "...");
    var s2 := ReplaceChar(s1, '♟', " . . . ");
    var s3 := ReplaceChar(s2, '♝', ". . . .");
    var s4 := ReplaceChar(s3, '☏', "..");
    var s5 := ReplaceChar(s4, '∮', ".");
    OneCharReplace('♝', '♝', ". . . .");
    assert s1 == ['♝'];
    assert s2 == ['♝'];
    assert s3 == ". . . .";
    assert s4 == ". . . .";
    assert s5 == ". . . .";
  }

  /** The chain leaves every other character alone. */
  lemma ReinsertEllipsisStepsOnOther(c: char)
    requires c !in {'ƪ', '♟', '♝', '☏', '∮'}
    ensures ReinsertEllipsisSteps([c]) == EllipsisText(c)
  {
    var s1 := ReplaceChar([c], 'ƪ', "...");
    var s2 := ReplaceChar(s1, '♟', " . . . ");
    var s3 := ReplaceChar(s2, '♝', ". . . .");
    var s4 := ReplaceChar(s3, '☏', "..");
    var s5 := ReplaceChar(s4, '∮', ".");
    assert s1 == [c];
    assert s2 == [c];
    assert s3 == [c];
    assert s4 == [c];
    assert s5 == [c];
  }

  /** The chain of `reinsert_ellipsis` is a per-character table too. */
  lemma {:induction false} ReinsertEllipsisStepsIsTable(s: string)
    ensures ReinsertEllipsisSteps(s) == ReinsertEllipsis(s)
  {
    if s == [] {
      assert ReinsertEllipsisSteps(s) == [];
    } else {
      ReinsertEllipsisStepsIsTable(s[1..]);
      assert s == [s[0]] + s[1..];
      ReinsertEllipsisStepsAppend([s[0]], s[1..]);
      ReinsertEllipsisStepsOnChar(s[0]);
    }
  }

  /** `reinsert_ellipsis` as the source runs it: five replacements of the line in place. */
  method ReinsertEllipsisInLine(line: string) returns (l: string)
    ensures l == ReinsertEllipsis(line)
  {
    l := line;
    l := ReplaceChar(l, 'ƪ', "...");
    l := ReplaceChar(l, '♟', " . . . ");
    l := ReplaceChar(l, '♝', ". . . .");
    l := ReplaceChar(l, '☏', "..");
    l := ReplaceChar(l, '∮', ".");
    ReinsertEllipsisStepsIsTable(line);
  }
}
