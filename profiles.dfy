/**
 * The per-language terminal punctuation tables (segmenter.rb:9-17) and their
 * lookup by `"PUNCT_#{language.upcase}"` (segmenter.rb:169-174).
 */
module Profiles {
  import opened Chars
  import opened Outcomes

  const PUNCT: seq<char> := ['。', '．', '.', '！', '!', '?', '？']
  const PUNCT_AR: seq<char> := ['?', '!', ':', '.', '؟', '،']
  const PUNCT_FA: seq<char> := ['?', '!', ':', '.', '؟']
  const PUNCT_UR: seq<char> := ['?', '!', '۔', '؟']
  const PUNCT_HI: seq<char> := ['।', '|', '.', '!', '?']
  const PUNCT_HY: seq<char> := ['։', '՜', ':']
  const PUNCT_EL: seq<char> := ['.', '!', ';', '?']
  const PUNCT_MY: seq<char> := ['။', '၏', '?', '!']
  const PUNCT_AM: seq<char> := ['።', '፧', '?', '!']

  /**
   * A character Ruby accepts inside a constant name: an ASCII letter, digit or
   * underscore, or any non-ASCII character.
   */
  predicate ConstNameChar(c: char) {
    IsWord(c) || c as int >= 128
  }

  /** The constant name the lookup asks for. */
  function ConstName(language: string): string {
    "PUNCT_" + Upcase(language)
  }

  /**
   * The terminal marks of `language`: the `PUNCT_<LANG>` table when one is
   * defined, `PUNCT` otherwise; None when the constant name is malformed, where
   * Ruby raises NameError.
   */
  function Punctuation(language: string): (p: Option<seq<char>>)
    ensures p.None? <==> exists i :: 0 <= i < |language| && !ConstNameChar(language[i])
    ensures p.Some? ==> p.value != []
  {
    if exists i :: 0 <= i < |language| && !ConstNameChar(language[i]) then None
    else Some(TableNamed(Upcase(language)))
  }

  /** The table of the upper-case code `name`: its own when one is defined, PUNCT otherwise. */
  function TableNamed(name: string): (t: seq<char>)
    ensures t != []
  {
    if name == "AR" then PUNCT_AR
    else if name == "FA" then PUNCT_FA
    else if name == "UR" then PUNCT_UR
    else if name == "HI" then PUNCT_HI
    else if name == "HY" then PUNCT_HY
    else if name == "EL" then PUNCT_EL
    else if name == "MY" then PUNCT_MY
    else if name == "AM" then PUNCT_AM
    else PUNCT
  }

  /** The eight language codes that have a table of their own. */
  predicate HasOwnTable(language: string) {
    Upcase(language) in {"AR", "FA", "UR", "HI", "HY", "EL", "MY", "AM"}
  }

  /** The lookup of a two-letter lower-case code `[a, b]` asks for `PUNCT_` and its upper-case form. */
  lemma {:induction false} TwoLetterLookup(a: char, b: char)
    requires IsLower(a) && IsLower(b)
    ensures Upcase([a, b]) == [(a as int - 32) as char, (b as int - 32) as char]
    ensures Punctuation([a, b]).Some?
  {
    assert Upcase([a, b]) == [(a as int - 32) as char] + Upcase([b]);
  }

  /** The listed lower-case codes, each with the table of its own. */
  const OWN_TABLES: seq<(string, seq<char>)> :=
    [("ar", PUNCT_AR), ("fa", PUNCT_FA), ("ur", PUNCT_UR), ("hi", PUNCT_HI),
     ("hy", PUNCT_HY), ("el", PUNCT_EL), ("my", PUNCT_MY), ("am", PUNCT_AM)]

  /** Each listed lower-case code finds its own table. */
  lemma ListedCodeUsesOwnTable(language: string, table: seq<char>)
    requires (language, table) in OWN_TABLES
    ensures Punctuation(language) == Some(table)
  {
    var k :| 0 <= k < |OWN_TABLES| && OWN_TABLES[k] == (language, table);
    if k < 4 {
      OwnTableFirstFour(language, table, k);
    } else {
      OwnTableLastFour(language, table, k);
    }
  }

  /** The codes ar, fa, ur and hi find their own tables. */
  lemma OwnTableFirstFour(language: string, table: seq<char>, k: nat)
    requires k < 4 && OWN_TABLES[k] == (language, table)
    ensures Punctuation(language) == Some(table)
  {
    if k == 0 {
      CodeFindsTable(language, 'a', 'r', table);
    } else if k == 1 {
      CodeFindsTable(language, 'f', 'a', table);
    } else if k == 2 {
      CodeFindsTable(language, 'u', 'r', table);
    } else {
      CodeFindsTable(language, 'h', 'i', table);
    }
  }

  /** The codes hy, el, my and am find their own tables. */
  lemma OwnTableLastFour(language: string, table: seq<char>, k: nat)
    requires 4 <= k < 8 && OWN_TABLES[k] == (language, table)
    ensures Punctuation(language) == Some(table)
  {
    if k == 4 {
      CodeFindsTable(language, 'h', 'y', table);
    } else if k == 5 {
      CodeFindsTable(language, 'e', 'l', table);
    } else if k == 6 {
      CodeFindsTable(language, 'm', 'y', table);
    } else {
      CodeFindsTable(language, 'a', 'm', table);
    }
  }

  /** A two-letter lower-case code finds the table its upper-case form names. */
  lemma CodeFindsTable(language: string, a: char, b: char, table: seq<char>)
    requires language == [a, b] && IsLower(a) && IsLower(b)
    requires TableNamed([(a as int - 32) as char, (b as int - 32) as char]) == table
    ensures Punctuation(language) == Some(table)
  {
    TwoLetterLookup(a, b);
  }

  /** The default code `en` falls back to PUNCT. */
  lemma EnglishUsesDefault()
    ensures Punctuation("en") == Some(PUNCT)
  {
    TwoLetterLookup('e', 'n');
  }

  /** Every well-formed code without a table of its own, `en` included, falls back to PUNCT. */
  lemma OtherCodesUseDefault(language: string)
    requires forall i :: 0 <= i < |language| ==> ConstNameChar(language[i])
    requires !HasOwnTable(language)
    ensures Punctuation(language) == Some(PUNCT)
  {
  }

  /** The lookup ignores ASCII case: "AR" and "Ar" find PUNCT_AR like "ar". */
  lemma LookupIgnoresCase(language: string)
    ensures Punctuation(language) == Punctuation(Upcase(language))
  {
    var u := Upcase(language);
    var uu := Upcase(u);
    forall i | 0 <= i < |u|
      ensures uu[i] == u[i]
      ensures ConstNameChar(language[i]) <==> ConstNameChar(u[i])
    {
      assert !IsLower(u[i]);
    }
    assert uu == u;
    assert (exists i :: 0 <= i < |language| && !ConstNameChar(language[i]))
       <==> (exists i :: 0 <= i < |u| && !ConstNameChar(u[i]));
  }
}
