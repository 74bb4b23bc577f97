/**
 * Character classes of the Ruby regular expressions used by the segmenter
 * (Onigmo, ASCII semantics for `\s`, `\d`, `\w`, `[A-Z]`, `[a-z]`), and the
 * reserved sentinel characters that stand in for shielded punctuation.
 */
module Chars {

  /** Ruby's `\s`: space, tab, line feed, vertical tab, form feed, carriage return. */
  predicate IsSpace(c: char) {
    c == ' ' || c == '\t' || c == '\n' || c == '\U{000B}' || c == '\U{000C}' || c == '\r'
  }

  /** Characters removed by Ruby's `String#strip`: `\s` plus NUL. */
  predicate IsStripped(c: char) {
    c == '\0' || IsSpace(c)
  }

  /** Ruby's `\d`. */
  predicate IsDigit(c: char) {
    '0' <= c <= '9'
  }

  /** `[A-Z]`; also stands for `[[:upper:]]`, whose Unicode case table is not modelled. */
  predicate IsUpper(c: char) {
    'A' <= c <= 'Z'
  }

  /** `[a-z]`. */
  predicate IsLower(c: char) {
    'a' <= c <= 'z'
  }

  /** `[a-zA-Z]`. */
  predicate IsLetter(c: char) {
    IsUpper(c) || IsLower(c)
  }

  /** Ruby's `\w`: `[a-zA-Z0-9_]`. */
  predicate IsWord(c: char) {
    IsLetter(c) || IsDigit(c) || c == '_'
  }

  /** ASCII `String#upcase`. */
  function Upcase(s: string): (r: string)
    ensures |r| == |s|
    ensures forall i :: 0 <= i < |s| ==> (IsLower(s[i]) ==> r[i] as int == s[i] as int - 32)
    ensures forall i :: 0 <= i < |s| ==> (!IsLower(s[i]) ==> r[i] == s[i])
  {
    if s == [] then []
    else [if IsLower(s[0]) then (s[0] as int - 32) as char else s[0]] + Upcase(s[1..])
  }

  /** ASCII `String#downcase`. */
  function Downcase(s: string): (r: string)
    ensures |r| == |s|
    ensures forall i :: 0 <= i < |s| ==> (IsUpper(s[i]) ==> r[i] as int == s[i] as int + 32)
    ensures forall i :: 0 <= i < |s| ==> (!IsUpper(s[i]) ==> r[i] == s[i])
  {
    if s == [] then []
    else [if IsUpper(s[0]) then (s[0] as int + 32) as char else s[0]] + Downcase(s[1..])
  }

  /** Ruby's `String#strip`: drops leading and trailing whitespace and NUL. */
  function Strip(s: string): (r: string)
    ensures |r| <= |s|
    ensures r != [] ==> !IsStripped(r[0]) && !IsStripped(r[|r| - 1])
    ensures (exists i :: 0 <= i < |s| && !IsStripped(s[i])) <==> r != []
  {
    StripEnd(StripStart(s))
  }

  function StripStart(s: string): (r: string)
    ensures |r| <= |s|
    ensures r != [] ==> !IsStripped(r[0])
    ensures r == s[|s| - |r|..]
    ensures forall i :: 0 <= i < |s| - |r| ==> IsStripped(s[i])
    decreases |s|
  {
    if s != [] && IsStripped(s[0]) then
      var r := StripStart(s[1..]);
      assert s[1..][|s| - 1 - |r|..] == s[|s| - |r|..];
      r
    else s
  }

  function StripEnd(s: string): (r: string)
    ensures |r| <= |s|
    ensures r != [] ==> !IsStripped(r[|r| - 1])
    ensures r == s[..|r|]
    ensures forall i :: |r| <= i < |s| ==> IsStripped(s[i])
    decreases |s|
  {
    if s != [] && IsStripped(s[|s| - 1]) then StripEnd(s[..|s| - 1]) else s
  }

  /**
   * The reserved characters the segmenter writes into its working text:
   * ∯ shielded `.`, ∮ period inside an email, ᓰ ᓱ ᓳ ᓴ ᓷ ᓸ shielded `。 ． ！ ! ? ？`,
   * ☉ ☈ ☇ ☄ for `?! !? ?? !!`, ♟ ♝ ƪ ☏ for the ellipsis forms, ȸ a synthetic end mark,
   * ȹ a line break, ♭ ♬ shielded Arabic/Persian `:` and `،`.
   */
  predicate IsSentinel(c: char) {
    c in {'∯', '∮', 'ᓰ', 'ᓱ', 'ᓳ', 'ᓴ', 'ᓷ', 'ᓸ', '☉', '☈', '☇', '☄',
          '♟', '♝', 'ƪ', '☏', 'ȸ', 'ȹ', '♭', '♬'}
  }

  predicate SentinelFree(s: string) {
    forall i :: 0 <= i < |s| ==> !IsSentinel(s[i])
  }

  /** The only whitespace in `s` is the plain space and the line feed. */
  predicate PlainSpaced(s: string) {
    forall i :: 0 <= i < |s| ==> IsSpace(s[i]) ==> s[i] == ' ' || s[i] == '\n'
  }
}
