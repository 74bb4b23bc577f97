/**
 * The string rewrites Ruby's `gsub` performs, restricted to the shapes the
 * segmenter uses: a pattern that matches a fixed number of characters, with its
 * lookbehind and lookahead folded into a predicate over the whole original
 * string, scanned left to right without overlap; a replacement of every maximal
 * run of one character class; and character-by-character expansion (a gsub
 * chain of single characters, each by a string).
 */
module Rewrite {
  import opened Chars

  /** Replaces every character `c` of `s` by the string `d(c)`. */
  function Expand(s: string, d: char -> string): string
  {
    if s == [] then [] else d(s[0]) + Expand(s[1..], d)
  }

  lemma {:induction false} ExpandAppend(a: string, b: string, d: char -> string)
    ensures Expand(a + b, d) == Expand(a, d) + Expand(b, d)
  {
    if a == [] {
      assert a + b == b;
    } else {
      assert (a + b)[0] == a[0];
      assert (a + b)[1..] == a[1..] + b;
      ExpandAppend(a[1..], b, d);
    }
  }

  /** Two strings that expand alike, each followed by strings that expand alike, expand alike. */
  lemma ExpandBoth(a: string, b: string, x: string, y: string, d: char -> string)
    requires Expand(a, d) == Expand(x, d) && Expand(b, d) == Expand(y, d)
    ensures Expand(a + b, d) == Expand(x + y, d)
  {
    ExpandAppend(a, b, d);
    ExpandAppend(x, y, d);
  }

  lemma ExpandOne(c: char, d: char -> string)
    ensures Expand([c], d) == d(c)
  {
    assert [c][1..] == [];
  }

  /** Expanding leaves `s` alone when `d` fixes every character of `s`. */
  lemma {:induction false} ExpandIdentity(s: string, d: char -> string)
    requires forall i :: 0 <= i < |s| ==> d(s[i]) == [s[i]]
    ensures Expand(s, d) == s
  {
    if s != [] {
      ExpandIdentity(s[1..], d);
    }
  }

  /** `s.gsub(c, t)` for a single character `c`. */
  function ReplaceChar(s: string, c: char, t: string): (r: string)
    ensures c !in t ==> c !in r
    ensures c !in s ==> r == s
  {
    if s == [] then []
    else (if s[0] == c then t else [s[0]]) + ReplaceChar(s[1..], c, t)
  }

  lemma {:induction false} ReplaceCharAppend(a: string, b: string, c: char, t: string)
    ensures ReplaceChar(a + b, c, t) == ReplaceChar(a, c, t) + ReplaceChar(b, c, t)
  {
    if a == [] {
      assert a + b == b;
    } else {
      assert (a + b)[1..] == a[1..] + b;
      ReplaceCharAppend(a[1..], b, c, t);
    }
  }

  /**
   * Ruby's gsub for a pattern of `len` characters: from position `i` on, each
   * leftmost match (judged by `matches` on the whole string, so lookaround is
   * allowed) is replaced by `rep`, and the scan resumes after it.
   */
  function GsubFrom(s: string, i: nat, len: nat, matches: (string, nat) -> bool,
                    rep: (string, nat) -> string): string
    requires 0 < len && i <= |s|
    decreases |s| - i
  {
    if i == |s| then []
    else if i + len <= |s| && matches(s, i) then rep(s, i) + GsubFrom(s, i + len, len, matches, rep)
    else [s[i]] + GsubFrom(s, i + 1, len, matches, rep)
  }

  function Gsub(s: string, len: nat, matches: (string, nat) -> bool,
                rep: (string, nat) -> string): string
    requires 0 < len
  {
    GsubFrom(s, 0, len, matches, rep)
  }

  /**
   * A gsub whose every replacement expands (under `d`) to what it replaced
   * leaves the expansion of the whole string unchanged: decoding undoes it.
   */
  lemma {:induction false} GsubKeepsExpansion(s: string, i: nat, len: nat,
                                             matches: (string, nat) -> bool,
                                             rep: (string, nat) -> string, d: char -> string)
    requires 0 < len && i <= |s|
    requires forall j :: i <= j && j + len <= |s| && matches(s, j) ==>
               Expand(rep(s, j), d) == Expand(s[j..j + len], d)
    ensures Expand(GsubFrom(s, i, len, matches, rep), d) == Expand(s[i..], d)
    decreases |s| - i, 1
  {
    if i < |s| {
      if i + len <= |s| && matches(s, i) {
        ExpansionAtMatch(s, i, len, matches, rep, d);
      } else {
        ExpansionAtChar(s, i, len, matches, rep, d);
      }
    }
  }

  /** The step of `GsubKeepsExpansion` at a match. */
  lemma {:induction false} ExpansionAtMatch(s: string, i: nat, len: nat,
                                           matches: (string, nat) -> bool,
                                           rep: (string, nat) -> string, d: char -> string)
    requires 0 < len && i + len <= |s| && matches(s, i)
    requires forall j :: i <= j && j + len <= |s| && matches(s, j) ==>
               Expand(rep(s, j), d) == Expand(s[j..j + len], d)
    ensures Expand(GsubFrom(s, i, len, matches, rep), d) == Expand(s[i..], d)
    decreases |s| - i, 0
  {
    var rest := GsubFrom(s, i + len, len, matches, rep);
    GsubKeepsExpansion(s, i + len, len, matches, rep, d);
    assert GsubFrom(s, i, len, matches, rep) == rep(s, i) + rest;
    assert s[i..] == s[i..i + len] + s[i + len..];
    ExpandBoth(rep(s, i), rest, s[i..i + len], s[i + len..], d);
  }

  /** The step of `GsubKeepsExpansion` at a character no match starts at. */
  lemma {:induction false} ExpansionAtChar(s: string, i: nat, len: nat,
                                          matches: (string, nat) -> bool,
                                          rep: (string, nat) -> string, d: char -> string)
    requires 0 < len && i < |s| && !(i + len <= |s| && matches(s, i))
    requires forall j :: i <= j && j + len <= |s| && matches(s, j) ==>
               Expand(rep(s, j), d) == Expand(s[j..j + len], d)
    ensures Expand(GsubFrom(s, i, len, matches, rep), d) == Expand(s[i..], d)
    decreases |s| - i, 0
  {
    var rest := GsubFrom(s, i + 1, len, matches, rep);
    GsubKeepsExpansion(s, i + 1, len, matches, rep, d);
    assert GsubFrom(s, i, len, matches, rep) == [s[i]] + rest;
    assert s[i..] == [s[i]] + s[i + 1..];
    ExpandBoth([s[i]], rest, [s[i]], s[i + 1..], d);
  }

  /**
   * A gsub keeps a property of characters when the string and every
   * replacement it writes have it.
   */
  lemma {:induction false} GsubKeepsClass(s: string, i: nat, len: nat, matches: (string, nat) -> bool,
                                          rep: (string, nat) -> string, p: char -> bool)
    requires 0 < len && i <= |s|
    requires forall k :: 0 <= k < |s| ==> p(s[k])
    requires forall j :: i <= j && j + len <= |s| && matches(s, j) ==>
               forall k :: 0 <= k < |rep(s, j)| ==> p(rep(s, j)[k])
    ensures forall k :: 0 <= k < |GsubFrom(s, i, len, matches, rep)| ==> p(GsubFrom(s, i, len, matches, rep)[k])
    decreases |s| - i
  {
    if i < |s| {
      if i + len <= |s| && matches(s, i) {
        GsubKeepsClass(s, i + len, len, matches, rep, p);
      } else {
        GsubKeepsClass(s, i + 1, len, matches, rep, p);
      }
    }
  }

  /**
   * A gsub whose replacements have the length of their match keeps the length,
   * and relates each character to the one it replaced by `rel` when every
   * replacement does so and `rel` holds between a character and itself.
   */
  lemma {:induction false} GsubRelates(s: string, i: nat, len: nat, matches: (string, nat) -> bool,
                                       rep: (string, nat) -> string, rel: (char, char) -> bool)
    requires 0 < len && i <= |s|
    requires forall c :: rel(c, c)
    requires forall j :: i <= j && j + len <= |s| && matches(s, j) ==>
               |rep(s, j)| == len && forall m :: 0 <= m < len ==> rel(s[j + m], rep(s, j)[m])
    ensures |GsubFrom(s, i, len, matches, rep)| == |s| - i
    ensures forall k :: i <= k < |s| ==> rel(s[k], GsubFrom(s, i, len, matches, rep)[k - i])
    decreases |s| - i, 1
  {
    if i < |s| {
      if i + len <= |s| && matches(s, i) {
        RelatesAfterMatch(s, i, len, matches, rep, rel);
      } else {
        RelatesAfterCopy(s, i, len, matches, rep, rel);
      }
    }
  }

  lemma {:induction false} RelatesAfterMatch(s: string, i: nat, len: nat, matches: (string, nat) -> bool,
                                             rep: (string, nat) -> string, rel: (char, char) -> bool)
    requires 0 < len && i + len <= |s| && matches(s, i)
    requires forall c :: rel(c, c)
    requires forall j :: i <= j && j + len <= |s| && matches(s, j) ==>
               |rep(s, j)| == len && forall m :: 0 <= m < len ==> rel(s[j + m], rep(s, j)[m])
    ensures |GsubFrom(s, i, len, matches, rep)| == |s| - i
    ensures forall k :: i <= k < |s| ==> rel(s[k], GsubFrom(s, i, len, matches, rep)[k - i])
    decreases |s| - i, 0
  {
    var r := GsubFrom(s, i, len, matches, rep);
    var head, rest := rep(s, i), GsubFrom(s, i + len, len, matches, rep);
    GsubRelates(s, i + len, len, matches, rep, rel);
    GsubReplaces(s, i, len, matches, rep);
    forall k | i <= k < |s| ensures rel(s[k], r[k - i]) {
      if k < i + len {
        assert r[k - i] == head[k - i];
        assert rel(s[i + (k - i)], head[k - i]);
      } else {
        assert r[k - i] == rest[k - (i + len)];
      }
    }
  }

  lemma {:induction false} RelatesAfterCopy(s: string, i: nat, len: nat, matches: (string, nat) -> bool,
                                            rep: (string, nat) -> string, rel: (char, char) -> bool)
    requires 0 < len && i < |s| && !(i + len <= |s| && matches(s, i))
    requires forall c :: rel(c, c)
    requires forall j :: i <= j && j + len <= |s| && matches(s, j) ==>
               |rep(s, j)| == len && forall m :: 0 <= m < len ==> rel(s[j + m], rep(s, j)[m])
    ensures |GsubFrom(s, i, len, matches, rep)| == |s| - i
    ensures forall k :: i <= k < |s| ==> rel(s[k], GsubFrom(s, i, len, matches, rep)[k - i])
    decreases |s| - i, 0
  {
    var r := GsubFrom(s, i, len, matches, rep);
    var rest := GsubFrom(s, i + 1, len, matches, rep);
    GsubRelates(s, i + 1, len, matches, rep, rel);
    GsubCopies(s, i, len, matches, rep);
    forall k | i <= k < |s| ensures rel(s[k], r[k - i]) {
      if k > i {
        assert r[k - i] == rest[k - (i + 1)];
      }
    }
  }

  /**
   * A gsub whose replacements are single characters keeps the length and acts
   * position by position: it is the one-character gsub of Ruby with lookaround.
   */
  lemma {:induction false} GsubSingleIsPointwise(s: string, i: nat, matches: (string, nat) -> bool,
                                                 rep: (string, nat) -> string)
    requires i <= |s|
    requires forall j :: i <= j < |s| ==> |rep(s, j)| == 1
    ensures |GsubFrom(s, i, 1, matches, rep)| == |s| - i
    ensures forall k :: i <= k < |s| ==>
              GsubFrom(s, i, 1, matches, rep)[k - i] == if matches(s, k) then rep(s, k)[0] else s[k]
    decreases |s| - i
  {
    if i < |s| {
      var r := GsubFrom(s, i, 1, matches, rep);
      var head := if matches(s, i) then rep(s, i) else [s[i]];
      var rest := GsubFrom(s, i + 1, 1, matches, rep);
      GsubSingleIsPointwise(s, i + 1, matches, rep);
      assert r == head + rest;
      forall k | i <= k < |s|
        ensures r[k - i] == if matches(s, k) then rep(s, k)[0] else s[k]
      {
        if k > i {
          assert r[k - i] == rest[k - (i + 1)];
        }
      }
    }
  }

  /**
   * The one-character gsub `(?<=…)from(?=…)` → `to`: every `from` at which the
   * lookaround predicate `at` holds becomes `to`; nothing else changes.
   */
  function ReplaceWhere(s: string, from: char, to: char, at: (string, nat) -> bool): (r: string)
    ensures |r| == |s|
    ensures forall k :: 0 <= k < |s| ==> (s[k] == from && at(s, k) ==> r[k] == to)
    ensures forall k :: 0 <= k < |s| ==> (!(s[k] == from && at(s, k)) ==> r[k] == s[k])
  {
    var matches := (t: string, k: nat) => k < |t| && t[k] == from && at(t, k);
    var rep := (t: string, k: nat) => [to];
    GsubSingleIsPointwise(s, 0, matches, rep);
    Gsub(s, 1, matches, rep)
  }

  /** The replacement that is the same text at every match. */
  function Fixed(rep: string): (string, nat) -> string {
    (t: string, k: nat) => rep
  }

  /** `w` occurs in `s` at `a`. */
  predicate OccursAt(s: string, a: nat, w: string) {
    a + |w| <= |s| && s[a..a + |w|] == w
  }

  /** The literal pattern `pat` starts at `k`. */
  function Literal(pat: string): (string, nat) -> bool {
    (t: string, k: nat) => OccursAt(t, k, pat)
  }

  /** `s.gsub(pat, rep)` for a literal, non-empty pattern. */
  function ReplaceLiteral(s: string, pat: string, rep: string): string
    requires pat != []
  {
    Gsub(s, |pat|, Literal(pat), Fixed(rep))
  }

  /** Decoding undoes a literal gsub whose replacement decodes to its pattern. */
  lemma ReplaceLiteralKeepsExpansion(s: string, pat: string, rep: string, d: char -> string)
    requires pat != []
    requires Expand(rep, d) == Expand(pat, d)
    ensures Expand(ReplaceLiteral(s, pat, rep), d) == Expand(s, d)
  {
    assert s[0..] == s;
    GsubKeepsExpansion(s, 0, |pat|, Literal(pat), Fixed(rep), d);
  }

  /** A literal gsub keeps a property of characters when the text and the replacement have it. */
  lemma ReplaceLiteralKeepsClass(s: string, pat: string, rep: string, p: char -> bool)
    requires pat != []
    requires forall k :: 0 <= k < |s| ==> p(s[k])
    requires forall k :: 0 <= k < |rep| ==> p(rep[k])
    ensures forall k :: 0 <= k < |ReplaceLiteral(s, pat, rep)| ==> p(ReplaceLiteral(s, pat, rep)[k])
  {
    GsubKeepsClass(s, 0, |pat|, Literal(pat), Fixed(rep), p);
  }

  /** A gsub of a non-empty text by a non-empty replacement leaves a non-empty text. */
  lemma GsubNonEmpty(s: string, len: nat, matches: (string, nat) -> bool, rep: string)
    requires 0 < len && rep != []
    ensures s != [] ==> Gsub(s, len, matches, Fixed(rep)) != []
  {
  }

  /** The number of characters satisfying `p` from position `i` on, up to the first that does not. */
  function RunLength(s: string, i: nat, p: char -> bool): (n: nat)
    requires i <= |s|
    ensures i + n <= |s|
    ensures forall k :: i <= k < i + n ==> p(s[k])
    ensures i + n < |s| ==> !p(s[i + n])
    decreases |s| - i
  {
    if i < |s| && p(s[i]) then 1 + RunLength(s, i + 1, p) else 0
  }

  /**
   * `s.gsub(/x{min,}/, rep)` where `x` is the class `p`: every maximal run of at
   * least `min` characters of the class is replaced by `rep`.
   */
  function ReplaceRunsFrom(s: string, i: nat, p: char -> bool, min: nat, rep: string): string
    requires 0 < min && i <= |s|
    decreases |s| - i
  {
    if i == |s| then []
    else if RunLength(s, i, p) >= min then rep + ReplaceRunsFrom(s, i + RunLength(s, i, p), p, min, rep)
    else [s[i]] + ReplaceRunsFrom(s, i + 1, p, min, rep)
  }

  function ReplaceRuns(s: string, p: char -> bool, min: nat, rep: string): string
    requires 0 < min
  {
    ReplaceRunsFrom(s, 0, p, min, rep)
  }

  /**
   * Deleting the runs of `min` or more leaves nothing exactly when the rest of
   * the text is one such run or nothing.
   */
  lemma {:induction false} DeleteRunsEmpty(s: string, i: nat, p: char -> bool, min: nat)
    requires 0 < min && i <= |s|
    ensures ReplaceRunsFrom(s, i, p, min, "") == [] <==>
              (i == |s| || ((forall k :: i <= k < |s| ==> p(s[k])) && |s| - i >= min))
    decreases |s| - i
  {
    if i < |s| {
      var n := RunLength(s, i, p);
      if n >= min {
        DeleteRunsEmpty(s, i + n, p, min);
        if i + n < |s| {
          assert !p(s[i + n]);
          assert RunLength(s, i + n, p) == 0;
          assert ReplaceRunsFrom(s, i + n, p, min, "") != [];
        }
      }
    }
  }

  /** Two strings that agree on `p` character by character have the same runs of `p`. */
  lemma {:induction false} RunLengthAgrees(s: string, r: string, j: nat, p: char -> bool)
    requires |r| == |s| && j <= |s|
    requires forall k :: 0 <= k < |s| ==> p(s[k]) == p(r[k])
    ensures RunLength(s, j, p) == RunLength(r, j, p)
    decreases |s| - j
  {
    if j < |s| && p(s[j]) {
      RunLengthAgrees(s, r, j + 1, p);
    }
  }

  /**
   * Whether the left-to-right scan of a gsub that starts at `i` takes the match
   * at `j`: the scan takes each leftmost match and resumes after it, so a match
   * that overlaps one already taken is skipped.
   */
  predicate Taken(s: string, i: nat, len: nat, matches: (string, nat) -> bool, j: nat)
    requires 0 < len && i <= |s|
    decreases |s| - i
  {
    i < |s| &&
    if i + len <= |s| && matches(s, i) then j == i || Taken(s, i + len, len, matches, j)
    else Taken(s, i + 1, len, matches, j)
  }

  /** A taken match is a match, at or after the start of the scan and inside the text. */
  lemma {:induction false} TakenIsMatch(s: string, i: nat, len: nat, matches: (string, nat) -> bool, j: nat)
    requires 0 < len && i <= |s|
    requires Taken(s, i, len, matches, j)
    ensures i <= j && j + len <= |s| && matches(s, j)
    decreases |s| - i
  {
    if i + len <= |s| && matches(s, i) {
      if j != i {
        TakenIsMatch(s, i + len, len, matches, j);
      }
    } else {
      TakenIsMatch(s, i + 1, len, matches, j);
    }
  }

  /** Taken matches do not overlap. */
  lemma {:induction false} TakenApart(s: string, i: nat, len: nat, matches: (string, nat) -> bool, a: nat, b: nat)
    requires 0 < len && i <= |s|
    requires Taken(s, i, len, matches, a) && Taken(s, i, len, matches, b) && a < b
    ensures a + len <= b
    decreases |s| - i
  {
    TakenIsMatch(s, i, len, matches, a);
    if i + len <= |s| && matches(s, i) {
      if a == i {
        TakenIsMatch(s, i + len, len, matches, b);
      } else {
        TakenApart(s, i + len, len, matches, a, b);
      }
    } else {
      TakenApart(s, i + 1, len, matches, a, b);
    }
  }

  /** The scan from `i` takes every match the scan from where it resumes takes. */
  lemma TakenStep(s: string, i: nat, len: nat, matches: (string, nat) -> bool, a: nat)
    requires 0 < len && i < |s|
    ensures i + len <= |s| && matches(s, i) ==>
              Taken(s, i, len, matches, i) && (Taken(s, i + len, len, matches, a) ==> Taken(s, i, len, matches, a))
    ensures !(i + len <= |s| && matches(s, i)) ==>
              (Taken(s, i + 1, len, matches, a) ==> Taken(s, i, len, matches, a))
  {
  }

  /** A match that no taken match overlaps from the left is taken. */
  lemma {:induction false} TakenWhenFree(s: string, i: nat, len: nat, matches: (string, nat) -> bool, j: nat)
    requires 0 < len && i <= j && j + len <= |s| && matches(s, j)
    requires forall a: nat :: a < j < a + len ==> !Taken(s, i, len, matches, a)
    ensures Taken(s, i, len, matches, j)
    decreases |s| - i
  {
    TakenStep(s, i, len, matches, j);
    if i < j {
      var next := if i + len <= |s| && matches(s, i) then i + len else i + 1;
      forall a: nat | a < j < a + len ensures !Taken(s, next, len, matches, a) {
        TakenStep(s, i, len, matches, a);
      }
      TakenWhenFree(s, next, len, matches, j);
    }
  }

  /**
   * A match is taken exactly when no taken match starts fewer than `len`
   * characters before it.
   */
  lemma TakenIff(s: string, i: nat, len: nat, matches: (string, nat) -> bool, j: nat)
    requires 0 < len && i <= j && j + len <= |s| && matches(s, j)
    ensures Taken(s, i, len, matches, j) ==>
              forall a: nat :: a < j < a + len ==> !Taken(s, i, len, matches, a)
    ensures (forall a: nat :: a < j < a + len ==> !Taken(s, i, len, matches, a)) ==>
              Taken(s, i, len, matches, j)
  {
    if forall a: nat :: a < j < a + len ==> !Taken(s, i, len, matches, a) {
      TakenWhenFree(s, i, len, matches, j);
    } else {
      var a: nat :| a < j < a + len && Taken(s, i, len, matches, a);
      if Taken(s, i, len, matches, j) {
        TakenApart(s, i, len, matches, a, j);
      }
    }
  }

  /** A gsub whose replacements have the length of their match keeps the length. */
  lemma {:induction false} GsubSameLength(s: string, i: nat, len: nat, matches: (string, nat) -> bool,
                                          rep: (string, nat) -> string)
    requires 0 < len && i <= |s|
    requires forall a :: i <= a && a + len <= |s| && matches(s, a) ==> |rep(s, a)| == len
    ensures |GsubFrom(s, i, len, matches, rep)| == |s| - i
    decreases |s| - i
  {
    if i < |s| {
      if i + len <= |s| && matches(s, i) {
        GsubSameLength(s, i + len, len, matches, rep);
      } else {
        GsubSameLength(s, i + 1, len, matches, rep);
      }
    }
  }

  /**
   * In a gsub whose replacements have the length of their match, each taken
   * match is replaced in place.
   */
  lemma {:induction false} GsubAtTaken(s: string, i: nat, len: nat, matches: (string, nat) -> bool,
                                       rep: (string, nat) -> string, j: nat)
    requires 0 < len && i <= |s|
    requires forall a :: i <= a && a + len <= |s| && matches(s, a) ==> |rep(s, a)| == len
    requires Taken(s, i, len, matches, j)
    ensures i <= j && j + len <= |s| && |rep(s, j)| == len
    ensures |GsubFrom(s, i, len, matches, rep)| == |s| - i
    ensures forall m :: 0 <= m < len ==> GsubFrom(s, i, len, matches, rep)[j - i + m] == rep(s, j)[m]
    decreases |s| - i, 1
  {
    if i + len <= |s| && matches(s, i) {
      AtTakenAfterMatch(s, i, len, matches, rep, j);
    } else {
      AtTakenAfterCopy(s, i, len, matches, rep, j);
    }
  }

  /** The step of `GsubAtTaken` at a match at `i`. */
  lemma {:induction false} AtTakenAfterMatch(s: string, i: nat, len: nat, matches: (string, nat) -> bool,
                                       rep: (string, nat) -> string, j: nat)
    requires 0 < len && i <= |s|
    requires forall a :: i <= a && a + len <= |s| && matches(s, a) ==> |rep(s, a)| == len
    requires Taken(s, i, len, matches, j)
    requires i + len <= |s| && matches(s, i)
    ensures i <= j && j + len <= |s| && |rep(s, j)| == len
    ensures |GsubFrom(s, i, len, matches, rep)| == |s| - i
    ensures forall m :: 0 <= m < len ==> GsubFrom(s, i, len, matches, rep)[j - i + m] == rep(s, j)[m]
    decreases |s| - i, 0
  {
    TakenIsMatch(s, i, len, matches, j);
    GsubSameLength(s, i, len, matches, rep);
    var r, head, rest := GsubFrom(s, i, len, matches, rep), rep(s, i), GsubFrom(s, i + len, len, matches, rep);
    assert r == head + rest;
    if j != i {
      GsubAtTaken(s, i + len, len, matches, rep, j);
      forall m | 0 <= m < len ensures r[j - i + m] == rep(s, j)[m] {
        assert r[j - i + m] == rest[j - (i + len) + m];
      }
    } else {
      forall m | 0 <= m < len ensures r[m] == head[m] {
      }
    }
  }

  /** The step of `GsubAtTaken` where the gsub copies `s[i]`. */
  lemma {:induction false} AtTakenAfterCopy(s: string, i: nat, len: nat, matches: (string, nat) -> bool,
                                       rep: (string, nat) -> string, j: nat)
    requires 0 < len && i <= |s|
    requires forall a :: i <= a && a + len <= |s| && matches(s, a) ==> |rep(s, a)| == len
    requires Taken(s, i, len, matches, j)
    requires !(i + len <= |s| && matches(s, i))
    ensures i <= j && j + len <= |s| && |rep(s, j)| == len
    ensures |GsubFrom(s, i, len, matches, rep)| == |s| - i
    ensures forall m :: 0 <= m < len ==> GsubFrom(s, i, len, matches, rep)[j - i + m] == rep(s, j)[m]
    decreases |s| - i, 0
  {
    TakenIsMatch(s, i, len, matches, j);
    GsubSameLength(s, i, len, matches, rep);
    GsubCopies(s, i, len, matches, rep);
    GsubAtTaken(s, i + 1, len, matches, rep, j);
  }

  /** A gsub by a fixed text of the match's length writes that text over each taken match. */
  lemma GsubFixedAtTaken(s: string, len: nat, matches: (string, nat) -> bool, rep: string, j: nat)
    requires 0 < len && |rep| == len
    requires Taken(s, 0, len, matches, j)
    ensures j + len <= |s| && |Gsub(s, len, matches, Fixed(rep))| == |s|
    ensures forall m :: 0 <= m < len ==> Gsub(s, len, matches, Fixed(rep))[j + m] == rep[m]
  {
    GsubAtTaken(s, 0, len, matches, Fixed(rep), j);
  }

  /** A gsub by a fixed text of the match's length keeps each character no taken match covers. */
  lemma GsubFixedOutside(s: string, len: nat, matches: (string, nat) -> bool, rep: string, k: nat)
    requires 0 < len && |rep| == len && k < |s|
    requires forall j: nat :: j <= k < j + len ==> !Taken(s, 0, len, matches, j)
    ensures |Gsub(s, len, matches, Fixed(rep))| == |s|
    ensures Gsub(s, len, matches, Fixed(rep))[k] == s[k]
  {
    GsubOutsideTaken(s, 0, len, matches, Fixed(rep), k);
  }

  /**
   * In a gsub whose replacements have the length of their match, a character
   * that no taken match covers is kept.
   */
  lemma {:induction false} GsubOutsideTaken(s: string, i: nat, len: nat, matches: (string, nat) -> bool,
                                            rep: (string, nat) -> string, k: nat)
    requires 0 < len && i <= k < |s|
    requires forall a :: i <= a && a + len <= |s| && matches(s, a) ==> |rep(s, a)| == len
    requires forall j: nat :: j <= k < j + len ==> !Taken(s, i, len, matches, j)
    ensures |GsubFrom(s, i, len, matches, rep)| == |s| - i
    ensures GsubFrom(s, i, len, matches, rep)[k - i] == s[k]
    decreases |s| - i, 1
  {
    if i + len <= |s| && matches(s, i) {
      OutsideAfterMatch(s, i, len, matches, rep, k);
    } else {
      OutsideAfterCopy(s, i, len, matches, rep, k);
    }
  }

  /** The step of `GsubOutsideTaken` at a match taken at `i`: `k` lies past it. */
  lemma {:induction false} OutsideAfterMatch(s: string, i: nat, len: nat, matches: (string, nat) -> bool,
                                             rep: (string, nat) -> string, k: nat)
    requires 0 < len && i <= k < |s| && i + len <= |s| && matches(s, i)
    requires forall a :: i <= a && a + len <= |s| && matches(s, a) ==> |rep(s, a)| == len
    requires forall j: nat :: j <= k < j + len ==> !Taken(s, i, len, matches, j)
    ensures |GsubFrom(s, i, len, matches, rep)| == |s| - i
    ensures GsubFrom(s, i, len, matches, rep)[k - i] == s[k]
    decreases |s| - i, 0
  {
    GsubSameLength(s, i, len, matches, rep);
    var r := GsubFrom(s, i, len, matches, rep);
    var rest := GsubFrom(s, i + len, len, matches, rep);
    assert r == rep(s, i) + rest;
    var next := i + len;
    TakenStep(s, i, len, matches, i);
    forall j: nat | j <= k < j + len ensures !Taken(s, next, len, matches, j) {
      TakenStep(s, i, len, matches, j);
    }
    GsubOutsideTaken(s, next, len, matches, rep, k);
    assert r[k - i] == rest[k - (i + len)];
  }

  /** The step of `GsubOutsideTaken` where the gsub copies `s[i]`. */
  lemma {:induction false} OutsideAfterCopy(s: string, i: nat, len: nat, matches: (string, nat) -> bool,
                                            rep: (string, nat) -> string, k: nat)
    requires 0 < len && i <= k < |s| && !(i + len <= |s| && matches(s, i))
    requires forall a :: i <= a && a + len <= |s| && matches(s, a) ==> |rep(s, a)| == len
    requires forall j: nat :: j <= k < j + len ==> !Taken(s, i, len, matches, j)
    ensures |GsubFrom(s, i, len, matches, rep)| == |s| - i
    ensures GsubFrom(s, i, len, matches, rep)[k - i] == s[k]
    decreases |s| - i, 0
  {
    GsubSameLength(s, i, len, matches, rep);
    var r := GsubFrom(s, i, len, matches, rep);
    var rest := GsubFrom(s, i + 1, len, matches, rep);
    GsubCopies(s, i, len, matches, rep);
    if k > i {
      var next := i + 1;
      forall j: nat | j <= k < j + len ensures !Taken(s, next, len, matches, j) {
        TakenStep(s, i, len, matches, j);
      }
      GsubOutsideTaken(s, next, len, matches, rep, k);
      assert r[k - i] == rest[k - (i + 1)];
    }
  }

  /** With no match from `i` on, a gsub keeps the rest of the text. */
  lemma {:induction false} GsubNoMatch(s: string, i: nat, len: nat, matches: (string, nat) -> bool,
                                       rep: (string, nat) -> string)
    requires 0 < len && i <= |s|
    requires forall a :: i <= a && a + len <= |s| ==> !matches(s, a)
    ensures GsubFrom(s, i, len, matches, rep) == s[i..]
    decreases |s| - i
  {
    if i < |s| {
      GsubNoMatch(s, i + 1, len, matches, rep);
      assert s[i..] == [s[i]] + s[i + 1..];
    }
  }

  /**
   * A gsub copies the text up to the first match from `i` on, writes that
   * match's replacement and resumes after it.
   */
  lemma {:induction false} GsubFirstMatch(s: string, i: nat, len: nat, matches: (string, nat) -> bool,
                                          rep: (string, nat) -> string, j: nat)
    requires 0 < len && i <= j && j + len <= |s| && matches(s, j)
    requires forall a :: i <= a < j && a + len <= |s| ==> !matches(s, a)
    ensures GsubFrom(s, i, len, matches, rep) ==
              s[i..j] + rep(s, j) + GsubFrom(s, j + len, len, matches, rep)
    decreases j - i, 1
  {
    if i < j {
      FirstMatchStep(s, i, len, matches, rep, j);
    } else {
      assert s[i..j] == [];
    }
  }

  /** The step of `GsubFirstMatch` at a character before the first match. */
  lemma {:induction false} FirstMatchStep(s: string, i: nat, len: nat, matches: (string, nat) -> bool,
                                          rep: (string, nat) -> string, j: nat)
    requires 0 < len && i < j && j + len <= |s| && matches(s, j)
    requires forall a :: i <= a < j && a + len <= |s| ==> !matches(s, a)
    ensures GsubFrom(s, i, len, matches, rep) ==
              s[i..j] + rep(s, j) + GsubFrom(s, j + len, len, matches, rep)
    decreases j - i, 0
  {
    GsubFirstMatch(s, i + 1, len, matches, rep, j);
    GsubCopies(s, i, len, matches, rep);
    ConsSlice(s, i, j, rep(s, j), GsubFrom(s, j + len, len, matches, rep));
  }

  /** Where no match starts, a gsub copies the character and goes on. */
  lemma GsubCopies(s: string, i: nat, len: nat, matches: (string, nat) -> bool,
                   rep: (string, nat) -> string)
    requires 0 < len && i < |s| && !(i + len <= |s| && matches(s, i))
    ensures GsubFrom(s, i, len, matches, rep) == [s[i]] + GsubFrom(s, i + 1, len, matches, rep)
  {
  }

  /** A character followed by the slice after it is the slice from that character, whatever follows. */
  lemma ConsSlice(s: string, i: nat, j: nat, r: string, g: string)
    requires i < j <= |s|
    ensures [s[i]] + (s[i + 1..j] + r + g) == s[i..j] + r + g
  {
    assert s[i..j] == [s[i]] + s[i + 1..j];
  }

  /** The number of matches the left-to-right scan of a gsub from `i` takes. */
  function TakenCount(s: string, i: nat, len: nat, matches: (string, nat) -> bool): nat
    requires 0 < len && i <= |s|
    decreases |s| - i
  {
    if i == |s| then 0
    else if i + len <= |s| && matches(s, i) then 1 + TakenCount(s, i + len, len, matches)
    else TakenCount(s, i + 1, len, matches)
  }

  /** The scan takes some match exactly when some match lies at or after `i`. */
  lemma {:induction false} TakenCountPositive(s: string, i: nat, len: nat, matches: (string, nat) -> bool)
    requires 0 < len && i <= |s|
    ensures TakenCount(s, i, len, matches) > 0 <==> exists j :: i <= j && j + len <= |s| && matches(s, j)
    decreases |s| - i
  {
    if i < |s| && !(i + len <= |s| && matches(s, i)) {
      TakenCountPositive(s, i + 1, len, matches);
      if exists j :: i <= j && j + len <= |s| && matches(s, j) {
        var j :| i <= j && j + len <= |s| && matches(s, j);
        assert j != i;
      }
    } else if i < |s| {
      assert i + len <= |s| && matches(s, i);
    }
  }

  /**
   * A character that no match holds and the replacement holds once gains one
   * occurrence for each match the gsub takes.
   */
  lemma {:induction false} GsubAddsChar(s: string, i: nat, len: nat, matches: (string, nat) -> bool,
                                        rep: string, c: char)
    requires 0 < len && i <= |s| && Count(rep, c) == 1
    requires forall j :: i <= j && j + len <= |s| && matches(s, j) ==> Lacks(s, j, len, c)
    ensures Count(GsubFrom(s, i, len, matches, Fixed(rep)), c) == Count(s[i..], c) + TakenCount(s, i, len, matches)
    decreases |s| - i, 1
  {
    if i < |s| {
      if i + len <= |s| && matches(s, i) {
        AddsAfterMatch(s, i, len, matches, rep, c);
      } else {
        AddsAfterCopy(s, i, len, matches, rep, c);
      }
    }
  }

  lemma {:induction false} AddsAfterMatch(s: string, i: nat, len: nat, matches: (string, nat) -> bool,
                                          rep: string, c: char)
    requires 0 < len && i + len <= |s| && matches(s, i) && Count(rep, c) == 1
    requires forall j :: i <= j && j + len <= |s| && matches(s, j) ==> Lacks(s, j, len, c)
    ensures Count(GsubFrom(s, i, len, matches, Fixed(rep)), c) == Count(s[i..], c) + TakenCount(s, i, len, matches)
    decreases |s| - i, 0
  {
    GsubAddsChar(s, i + len, len, matches, rep, c);
    assert TakenCount(s, i, len, matches) == 1 + TakenCount(s, i + len, len, matches);
    GsubReplaces(s, i, len, matches, Fixed(rep));
    FixedIs(rep, s, i);
    var g := GsubFrom(s, i + len, len, matches, Fixed(rep));
    assert GsubFrom(s, i, len, matches, Fixed(rep)) == rep + g;
    CountSplit(rep, g, c);
    SliceSplit(s, i, i + len);
    CountSplit(s[i..i + len], s[i + len..], c);
    LacksCount(s, i, len, c);
  }

  lemma {:induction false} AddsAfterCopy(s: string, i: nat, len: nat, matches: (string, nat) -> bool,
                                         rep: string, c: char)
    requires 0 < len && i < |s| && !(i + len <= |s| && matches(s, i)) && Count(rep, c) == 1
    requires forall j :: i <= j && j + len <= |s| && matches(s, j) ==> Lacks(s, j, len, c)
    ensures Count(GsubFrom(s, i, len, matches, Fixed(rep)), c) == Count(s[i..], c) + TakenCount(s, i, len, matches)
    decreases |s| - i, 0
  {
    GsubAddsChar(s, i + 1, len, matches, rep, c);
    GsubCopies(s, i, len, matches, Fixed(rep));
    SliceSplit(s, i, i + 1);
    CountSplit([s[i]], GsubFrom(s, i + 1, len, matches, Fixed(rep)), c);
    CountSplit(s[i..i + 1], s[i + 1..], c);
  }

  /** A character that neither a match nor the replacement holds keeps its count. */
  lemma {:induction false} GsubKeepsChar(s: string, i: nat, len: nat, matches: (string, nat) -> bool,
                                         rep: string, c: char)
    requires 0 < len && i <= |s| && Count(rep, c) == 0
    requires forall j :: i <= j && j + len <= |s| && matches(s, j) ==> Lacks(s, j, len, c)
    ensures Count(GsubFrom(s, i, len, matches, Fixed(rep)), c) == Count(s[i..], c)
    decreases |s| - i, 1
  {
    if i < |s| {
      if i + len <= |s| && matches(s, i) {
        KeepsAfterMatch(s, i, len, matches, rep, c);
      } else {
        KeepsAfterCopy(s, i, len, matches, rep, c);
      }
    }
  }

  lemma {:induction false} KeepsAfterMatch(s: string, i: nat, len: nat, matches: (string, nat) -> bool,
                                           rep: string, c: char)
    requires 0 < len && i + len <= |s| && matches(s, i) && Count(rep, c) == 0
    requires forall j :: i <= j && j + len <= |s| && matches(s, j) ==> Lacks(s, j, len, c)
    ensures Count(GsubFrom(s, i, len, matches, Fixed(rep)), c) == Count(s[i..], c)
    decreases |s| - i, 0
  {
    GsubKeepsChar(s, i + len, len, matches, rep, c);
    GsubReplaces(s, i, len, matches, Fixed(rep));
    FixedIs(rep, s, i);
    var g := GsubFrom(s, i + len, len, matches, Fixed(rep));
    assert GsubFrom(s, i, len, matches, Fixed(rep)) == rep + g;
    CountSplit(rep, g, c);
    SliceSplit(s, i, i + len);
    CountSplit(s[i..i + len], s[i + len..], c);
    LacksCount(s, i, len, c);
  }

  lemma {:induction false} KeepsAfterCopy(s: string, i: nat, len: nat, matches: (string, nat) -> bool,
                                          rep: string, c: char)
    requires 0 < len && i < |s| && !(i + len <= |s| && matches(s, i)) && Count(rep, c) == 0
    requires forall j :: i <= j && j + len <= |s| && matches(s, j) ==> Lacks(s, j, len, c)
    ensures Count(GsubFrom(s, i, len, matches, Fixed(rep)), c) == Count(s[i..], c)
    decreases |s| - i, 0
  {
    GsubKeepsChar(s, i + 1, len, matches, rep, c);
    GsubCopies(s, i, len, matches, Fixed(rep));
    SliceSplit(s, i, i + 1);
    CountSplit([s[i]], GsubFrom(s, i + 1, len, matches, Fixed(rep)), c);
    CountSplit(s[i..i + 1], s[i + 1..], c);
  }

  lemma GsubReplaces(s: string, i: nat, len: nat, matches: (string, nat) -> bool,
                     rep: (string, nat) -> string)
    requires 0 < len && i + len <= |s| && matches(s, i)
    ensures GsubFrom(s, i, len, matches, rep) == rep(s, i) + GsubFrom(s, i + len, len, matches, rep)
  {
  }

  lemma FixedIs(rep: string, s: string, i: nat)
    ensures Fixed(rep)(s, i) == rep
  {
  }

  /** The number of occurrences of `c` in `s`. */
  function Count(s: string, c: char): nat {
    if s == [] then 0 else (if s[0] == c then 1 else 0) + Count(s[1..], c)
  }

  lemma {:induction false} CountSplit(a: string, b: string, c: char)
    ensures Count(a + b, c) == Count(a, c) + Count(b, c)
  {
    if a == [] {
      assert a + b == b;
    } else {
      assert (a + b)[1..] == a[1..] + b;
      CountSplit(a[1..], b, c);
    }
  }

  /** The `len` characters from `j` are all different from `c`. */
  predicate Lacks(s: string, j: nat, len: nat, c: char) {
    forall m :: j <= m < j + len && m < |s| ==> s[m] != c
  }

  lemma LacksCount(s: string, j: nat, len: nat, c: char)
    requires j + len <= |s| && Lacks(s, j, len, c)
    ensures Count(s[j..j + len], c) == 0
  {
    CountAbsent(s[j..j + len], c);
  }

  /** A string that does not hold `c` counts none. */
  lemma {:induction false} CountAbsent(s: string, c: char)
    requires forall k :: 0 <= k < |s| ==> s[k] != c
    ensures Count(s, c) == 0
  {
    if s != [] {
      CountAbsent(s[1..], c);
    }
  }

  lemma SliceSplit(s: string, i: nat, j: nat)
    requires i <= j <= |s|
    ensures s[i..] == s[i..j] + s[j..]
  {
  }
}
