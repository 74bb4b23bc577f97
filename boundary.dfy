/**
 * `abbr_as_sentence_boundary` (segmenter.rb:121-134): an acronym such as
 * `U.S.` or `E.U.` that is followed by one of a list of words that usually
 * start a sentence ends its sentence after all, so its last period is given
 * back. The whitespace around the word becomes a plain space, because the
 * replacement text writes `\s` in a double-quoted string.
 */
module Boundary {
  import opened Chars
  import opened Rewrite

  /** The words after which an acronym is taken to end its sentence. */
  const BoundaryWords: seq<string> :=
    ["A", "Being", "Did", "For", "He", "How", "However", "I", "In", "Millions", "More", "She", "That",
     "The", "There", "They", "We", "What", "When", "Where", "Who", "Why"]

  /** Each acronym form the pass looks for, with what it writes instead, in the order of the source. */
  const AcronymForms: seq<(string, string)> :=
    [("U∯S∯", "U∯S."), ("U.S∯", "U.S."), ("U∯K∯", "U∯K."), ("U.K∯", "U.K."), ("E∯U∯", "E∯U."),
     ("E.U∯", "E.U."), ("U∯S∯A∯", "U∯S∯A."), ("U.S.A∯", "U.S.A."), ("I∯", "I.")]

  /** `b` is `a`, `a` unshielded, or `a` turned from whitespace into a space. */
  predicate Unshields(a: char, b: char) {
    b == a || (a == '∯' && b == '.') || (IsSpace(a) && b == ' ')
  }

  /** The form and its replacement differ only where the form's last shield is given back. */
  predicate FormPair(form: string, rep: string) {
    0 < |form| && |rep| == |form| && forall m :: 0 <= m < |form| ==> Unshields(form[m], rep[m])
  }

  /** Every form of a list is paired with its replacement. */
  predicate FormPairs(forms: seq<(string, string)>) {
    forall g :: 0 <= g < |forms| ==> FormPair(forms[g].0, forms[g].1)
  }

  lemma AcronymFormsArePairs()
    ensures FormPairs(AcronymForms)
  {
    forall j | 0 <= j < |AcronymForms| ensures FormPair(AcronymForms[j].0, AcronymForms[j].1) {
      var (f, r) := AcronymForms[j];
      assert |r| == |f|;
      forall m | 0 <= m < |f| ensures Unshields(f[m], r[m]) {
        assert r[m] == f[m] || (f[m] == '∯' && r[m] == '.');
      }
    }
  }

  /** `form\sword\s` at `k`. */
  predicate AcronymBeforeWordAt(t: string, k: nat, form: string, word: string) {
    k + |form| + |word| + 2 <= |t| && t[k..k + |form|] == form && IsSpace(t[k + |form|])
    && t[k + |form| + 1..k + |form| + 1 + |word|] == word && IsSpace(t[k + |form| + 1 + |word|])
  }

  /** `rep word ` */
  function Rewritten(rep: string, word: string): string {
    rep + " " + word + " "
  }

  function AcronymMatch(form: string, word: string): (string, nat) -> bool {
    (t: string, k: nat) => AcronymBeforeWordAt(t, k, form, word)
  }

  /** One gsub of the pass: `form\sword\s` → `rep word `. */
  function FixAcronym(text: string, form: string, rep: string, word: string): (r: string)
    requires FormPair(form, rep)
    ensures |r| == |text|
  {
    FixAcronymLength(text, form, rep, word);
    Gsub(text, |form| + |word| + 2, AcronymMatch(form, word), Fixed(Rewritten(rep, word)))
  }

  lemma FixAcronymLength(text: string, form: string, rep: string, word: string)
    requires FormPair(form, rep)
    ensures |Gsub(text, |form| + |word| + 2, AcronymMatch(form, word), Fixed(Rewritten(rep, word)))| == |text|
  {
    var len := |form| + |word| + 2;
    assert |Rewritten(rep, word)| == len;
    GsubSameLength(text, 0, len, AcronymMatch(form, word), Fixed(Rewritten(rep, word)));
    assert |text| - 0 == |text|;
  }

  /**
   * One gsub keeps every character but those it gives back: a `∯` of the form
   * that becomes a period, and whitespace around the word that becomes a space.
   */
  lemma FixAcronymUnshields(text: string, form: string, rep: string, word: string)
    requires FormPair(form, rep)
    ensures forall k :: 0 <= k < |text| ==> Unshields(text[k], FixAcronym(text, form, rep, word)[k])
  {
    FixAcronymRelates(text, form, rep, word);
    FixAcronymIsGsub(text, form, rep, word);
  }

  lemma FixAcronymRelates(text: string, form: string, rep: string, word: string)
    requires FormPair(form, rep)
    ensures var r := Gsub(text, |form| + |word| + 2, AcronymMatch(form, word), Fixed(Rewritten(rep, word)));
            |r| == |text| && forall k :: 0 <= k < |text| ==> Unshields(text[k], r[k])
  {
    var len := |form| + |word| + 2;
    var matches := AcronymMatch(form, word);
    var replace := Fixed(Rewritten(rep, word));
    forall j | 0 <= j && j + len <= |text| && matches(text, j)
      ensures |replace(text, j)| == len && forall m :: 0 <= m < len ==> Unshields(text[j + m], replace(text, j)[m])
    {
      assert AcronymBeforeWordAt(text, j, form, word);
      assert replace(text, j) == Rewritten(rep, word);
      RewrittenRelates(text, j, form, rep, word);
    }
    assert forall c :: Unshields(c, c);
    GsubRelates(text, 0, len, matches, replace, Unshields);
    assert text[0..] == text;
  }

  lemma RewrittenRelates(t: string, j: nat, form: string, rep: string, word: string)
    requires FormPair(form, rep) && AcronymBeforeWordAt(t, j, form, word)
    ensures |Rewritten(rep, word)| == |form| + |word| + 2
    ensures forall m :: 0 <= m < |form| + |word| + 2 ==> Unshields(t[j + m], Rewritten(rep, word)[m])
  {
    var w := Rewritten(rep, word);
    forall m | 0 <= m < |form| + |word| + 2 ensures Unshields(t[j + m], w[m]) {
      if m < |form| {
        assert t[j + m] == t[j..j + |form|][m] == form[m];
        assert w[m] == rep[m];
      } else if m == |form| {
        assert w[m] == ' ';
      } else if m < |form| + 1 + |word| {
        assert t[j + m] == t[j + |form| + 1..j + |form| + 1 + |word|][m - |form| - 1] == word[m - |form| - 1];
        assert w[m] == word[m - |form| - 1];
      } else {
        assert w[m] == ' ';
      }
    }
  }

  /** Steps `0` to `n - 1` of a pass, applied in order. */
  function Iterate(text: string, step: (string, nat) -> string, n: nat): string {
    if n == 0 then text else step(Iterate(text, step, n - 1), n - 1)
  }

  /** Steps `m` to `n - 1` of a pass keep any property that each of them keeps. */
  lemma {:induction false} IterateKeeps(t: string, step: (string, nat) -> string, m: nat, n: nat, p: string -> bool)
    requires m <= n && p(Iterate(t, step, m))
    requires forall x, i :: m <= i < n && p(x) ==> p(step(x, i))
    ensures p(Iterate(t, step, n))
    decreases n
  {
    if m < n {
      IterateKeeps(t, step, m, n - 1, p);
    }
  }

  /** Step `i` of the pass for one word: the gsub of form `i`. */
  function FormStep(forms: seq<(string, string)>, word: string): (string, nat) -> string {
    (x: string, i: nat) =>
      if i < |forms| && FormPair(forms[i].0, forms[i].1) then FixAcronym(x, forms[i].0, forms[i].1, word) else x
  }

  /** The gsubs of the first `n` of the forms `forms` for one word. */
  function FixForms(text: string, forms: seq<(string, string)>, word: string, n: nat): string {
    Iterate(text, FormStep(forms, word), n)
  }

  /** Step `i` of the pass: the gsubs of every form for word `i`. */
  function WordStep(words: seq<string>, forms: seq<(string, string)>): (string, nat) -> string {
    (x: string, i: nat) => if i < |words| then FixForms(x, forms, words[i], |forms|) else x
  }

  /** The pass for the first `n` of the words `words`; the method that runs the pass loops over them. */
  function FixWords(text: string, words: seq<string>, forms: seq<(string, string)>, n: nat): string {
    Iterate(text, WordStep(words, forms), n)
  }

  /** `r` keeps the length of `text` and only gives back periods and plain spaces. */
  predicate GivesBack(text: string, r: string) {
    |r| == |text| && forall k :: 0 <= k < |text| ==> Unshields(text[k], r[k])
  }

  /** A text gives back nothing to itself, and giving back twice is giving back. */
  lemma GivesBackChain(text: string, x: string, r: string)
    ensures GivesBack(text, text)
    ensures GivesBack(text, x) && GivesBack(x, r) ==> GivesBack(text, r)
  {
    if GivesBack(text, x) && GivesBack(x, r) {
      forall k | 0 <= k < |text| ensures Unshields(text[k], r[k]) {
        UnshieldsTransitive(text[k], x[k], r[k]);
      }
    }
  }

  /** Each gsub of a word's forms only gives back periods and plain spaces, and so do all of them. */
  lemma FixFormsUnshields(text: string, forms: seq<(string, string)>, word: string, n: nat)
    ensures GivesBack(text, FixForms(text, forms, word, n))
  {
    var p := x => GivesBack(text, x);
    forall x, i | 0 <= i < n && p(x) ensures p(FormStep(forms, word)(x, i)) {
      if i < |forms| && FormPair(forms[i].0, forms[i].1) {
        FixAcronymUnshields(x, forms[i].0, forms[i].1, word);
        GivesBackChain(text, x, FixAcronym(x, forms[i].0, forms[i].1, word));
      }
    }
    GivesBackChain(text, text, text);
    IterateKeeps(text, FormStep(forms, word), 0, n, p);
  }

  /** The whole pass only gives back periods and plain spaces. */
  lemma FixWordsUnshields(text: string, words: seq<string>, forms: seq<(string, string)>, n: nat)
    ensures GivesBack(text, FixWords(text, words, forms, n))
  {
    var p := x => GivesBack(text, x);
    forall x, i | 0 <= i < n && p(x) ensures p(WordStep(words, forms)(x, i)) {
      if i < |words| {
        FixFormsUnshields(x, forms, words[i], |forms|);
        GivesBackChain(text, x, FixForms(x, forms, words[i], |forms|));
      }
    }
    GivesBackChain(text, text, text);
    IterateKeeps(text, WordStep(words, forms), 0, n, p);
  }

  /** Giving back twice is giving back once. */
  lemma UnshieldsTransitive(a: char, b: char, c: char)
    requires Unshields(a, b) && Unshields(b, c)
    ensures Unshields(a, c)
  {
  }

  /**
   * The pass never adds a shield and keeps the length: each character stays,
   * or a `∯` becomes `.`, or whitespace becomes a space; so the number of
   * shields can only drop.
   */
  function AbbrAsSentenceBoundary(text: string): (r: string)
    ensures |r| == |text|
    ensures forall k :: 0 <= k < |text| ==> r[k] == '∯' ==> text[k] == '∯'
    ensures forall k :: 0 <= k < |text| ==> r[k] != text[k] ==>
              (text[k] == '∯' && r[k] == '.') || (IsSpace(text[k]) && r[k] == ' ')
  {
    FixWordsUnshields(text, BoundaryWords, AcronymForms, |BoundaryWords|);
    FixWords(text, BoundaryWords, AcronymForms, |BoundaryWords|)
  }

  /**
   * The shape every listed form has: it holds no whitespace and ends in a
   * shield, which its replacement gives back as a period.
   */
  predicate AcronymShape(form: string, rep: string) {
    FormPair(form, rep) && form[|form| - 1] == '∯' && rep[|rep| - 1] == '.'
    && forall m :: 0 <= m < |form| ==> !IsSpace(form[m])
  }

  /** A non-empty word of letters, as every boundary word is. */
  predicate LetterWord(word: string) {
    word != [] && forall m :: 0 <= m < |word| ==> IsLetter(word[m])
  }

  /** `g` is not a proper suffix of `f`. */
  predicate NotEnding(f: string, g: string) {
    |g| < |f| ==> f[|f| - |g|..] != g
  }

  /** Every form of the list has the shape above, and none is a proper suffix of another. */
  predicate ShapedForms(forms: seq<(string, string)>) {
    (forall g :: 0 <= g < |forms| ==> AcronymShape(forms[g].0, forms[g].1))
    && forall g, h :: 0 <= g < |forms| && 0 <= h < |forms| ==> NotEnding(forms[g].0, forms[h].0)
  }

  /** Every word of the list is a word of letters. */
  predicate LetterWords(words: seq<string>) {
    forall w :: 0 <= w < |words| ==> LetterWord(words[w])
  }

  /** The listed forms have the shape above; no one of them ends another (`U∯S∯` does not end `U∯S∯A∯`). */
  lemma AcronymFormsShaped()
    ensures ShapedForms(AcronymForms)
  {
    AcronymFormsArePairs();
    forall f | 0 <= f < |AcronymForms| ensures AcronymShape(AcronymForms[f].0, AcronymForms[f].1) {
      var form := AcronymForms[f].0;
      forall m | 0 <= m < |form| ensures !IsSpace(form[m]) {
        assert form[m] in {'U', 'S', 'K', 'E', 'A', 'I', '.', '∯'};
      }
    }
    forall f, g | 0 <= f < |AcronymForms| && 0 <= g < |AcronymForms|
      ensures NotEnding(AcronymForms[f].0, AcronymForms[g].0)
    {
      var a, b := AcronymForms[f].0, AcronymForms[g].0;
      if |b| < |a| {
        assert a[|a| - |b|] != b[0];
      }
    }
  }

  lemma BoundaryWordsAreLetters()
    ensures LetterWords(BoundaryWords)
  {
    forall w | 0 <= w < |BoundaryWords| ensures LetterWord(BoundaryWords[w]) {
      var word := BoundaryWords[w];
      forall m | 0 <= m < |word| ensures IsLetter(word[m]) {
        assert 'A' <= word[m] <= 'Z' || 'a' <= word[m] <= 'z';
      }
    }
  }

  /** The characters of an occurrence of `form\sword\s`, one by one. */
  lemma OccurrenceChars(t: string, a: nat, form: string, word: string)
    requires AcronymBeforeWordAt(t, a, form, word)
    ensures forall m :: 0 <= m < |form| ==> t[a + m] == form[m]
    ensures forall m :: 0 <= m < |word| ==> t[a + |form| + 1 + m] == word[m]
  {
    forall m | 0 <= m < |form| ensures t[a + m] == form[m] {
      assert t[a + m] == t[a..a + |form|][m];
    }
    forall m | 0 <= m < |word| ensures t[a + |form| + 1 + m] == word[m] {
      assert t[a + |form| + 1 + m] == t[a + |form| + 1..a + |form| + 1 + |word|][m];
    }
  }

  /** An occurrence, from its characters one by one. */
  lemma OccurrenceFromChars(t: string, a: nat, form: string, word: string)
    requires a + |form| + |word| + 2 <= |t|
    requires forall m :: 0 <= m < |form| ==> t[a + m] == form[m]
    requires IsSpace(t[a + |form|])
    requires forall m :: 0 <= m < |word| ==> t[a + |form| + 1 + m] == word[m]
    requires IsSpace(t[a + |form| + 1 + |word|])
    ensures AcronymBeforeWordAt(t, a, form, word)
  {
    assert t[a..a + |form|] == form;
    assert t[a + |form| + 1..a + |form| + 1 + |word|] == word;
  }

  /**
   * Two occurrences of listed forms before boundary words that start at
   * different places do not overlap: the second would have to put whitespace
   * inside the first, end its form where the first's form ends (a suffix), or
   * end its shield on a letter of the first's word.
   */
  lemma OccurrencesApart(t: string, a: nat, form1: string, rep1: string, word1: string,
                         j: nat, form2: string, rep2: string, word2: string)
    requires AcronymShape(form1, rep1) && AcronymShape(form2, rep2) && LetterWord(word1) && LetterWord(word2)
    requires NotEnding(form1, form2)
    requires AcronymBeforeWordAt(t, a, form1, word1) && AcronymBeforeWordAt(t, j, form2, word2)
    requires a < j
    ensures a + |form1| + |word1| + 2 <= j
  {
    OccurrenceChars(t, a, form1, word1);
    OccurrenceChars(t, j, form2, word2);
    // Each way the second could start inside the first puts whitespace inside
    // a form or a word, makes the second form a suffix of the first, or ends
    // the second form's shield on a letter of the first word.
  }

  /** Two occurrences that start at the same place are occurrences of the same form and word. */
  lemma OccurrencesSameStart(t: string, j: nat, form1: string, rep1: string, word1: string,
                             form2: string, rep2: string, word2: string)
    requires AcronymShape(form1, rep1) && AcronymShape(form2, rep2) && LetterWord(word1) && LetterWord(word2)
    requires AcronymBeforeWordAt(t, j, form1, word1) && AcronymBeforeWordAt(t, j, form2, word2)
    ensures form1 == form2 && word1 == word2
  {
    OccurrenceChars(t, j, form1, word1);
    OccurrenceChars(t, j, form2, word2);
  }

  /**
   * One gsub rewrites every occurrence of its own form and word: the form's
   * last shield becomes a period and the whitespace around the word becomes
   * spaces.
   */
  lemma FixAcronymRewrites(text: string, form: string, rep: string, word: string, j: nat)
    requires AcronymShape(form, rep) && LetterWord(word)
    requires AcronymBeforeWordAt(text, j, form, word)
    ensures j + |form| + |word| + 2 <= |text|
    ensures forall m :: 0 <= m < |form| + |word| + 2 ==> FixAcronym(text, form, rep, word)[j + m] == Rewritten(rep, word)[m]
  {
    var len := |form| + |word| + 2;
    var matches := AcronymMatch(form, word);
    var replace := Fixed(Rewritten(rep, word));
    NoEarlierTaken(text, form, rep, word, j, len);
    TakenIff(text, 0, len, matches, j);
    GsubFixedAtTaken(text, len, matches, Rewritten(rep, word), j);
    FixAcronymIsGsub(text, form, rep, word);
  }

  lemma FixAcronymIsGsub(text: string, form: string, rep: string, word: string)
    requires FormPair(form, rep)
    ensures FixAcronym(text, form, rep, word) ==
              Gsub(text, |form| + |word| + 2, AcronymMatch(form, word), Fixed(Rewritten(rep, word)))
  {
  }

  /** No taken match of a gsub overlaps an occurrence of its own form and word from the left. */
  lemma NoEarlierTaken(text: string, form: string, rep: string, word: string, j: nat, len: nat)
    requires AcronymShape(form, rep) && LetterWord(word)
    requires AcronymBeforeWordAt(text, j, form, word)
    requires len == |form| + |word| + 2
    ensures forall a: nat :: a < j < a + len ==> !Taken(text, 0, len, AcronymMatch(form, word), a)
  {
    forall a: nat | a < j < a + len ensures !Taken(text, 0, len, AcronymMatch(form, word), a) {
      if Taken(text, 0, len, AcronymMatch(form, word), a) {
        TakenIsMatch(text, 0, len, AcronymMatch(form, word), a);
        OccurrencesApart(text, a, form, rep, word, j, form, rep, word);
      }
    }
  }

  /** No taken match of one gsub covers a character of an occurrence of another form or word. */
  lemma OthersNotTaken(text: string, form: string, rep: string, word: string,
                       j: nat, form2: string, rep2: string, word2: string, k: nat, len: nat)
    requires AcronymShape(form, rep) && LetterWord(word) && AcronymShape(form2, rep2) && LetterWord(word2)
    requires NotEnding(form, form2) && NotEnding(form2, form)
    requires form != form2 || word != word2
    requires AcronymBeforeWordAt(text, j, form2, word2)
    requires j <= k < j + |form2| + |word2| + 2
    requires len == |form| + |word| + 2
    ensures forall a: nat :: a <= k < a + len ==> !Taken(text, 0, len, AcronymMatch(form, word), a)
  {
    forall a: nat | a <= k < a + len ensures !Taken(text, 0, len, AcronymMatch(form, word), a) {
      if Taken(text, 0, len, AcronymMatch(form, word), a) {
        TakenIsMatch(text, 0, len, AcronymMatch(form, word), a);
        if a < j {
          OccurrencesApart(text, a, form, rep, word, j, form2, rep2, word2);
        } else if j < a {
          OccurrencesApart(text, j, form2, rep2, word2, a, form, rep, word);
        } else {
          OccurrencesSameStart(text, j, form, rep, word, form2, rep2, word2);
        }
      }
    }
  }

  /**
   * One gsub keeps every occurrence of another listed form or word: no taken
   * match of its own overlaps it.
   */
  lemma FixAcronymKeepsOthers(text: string, form: string, rep: string, word: string,
                              j: nat, form2: string, rep2: string, word2: string)
    requires AcronymShape(form, rep) && LetterWord(word) && AcronymShape(form2, rep2) && LetterWord(word2)
    requires NotEnding(form, form2) && NotEnding(form2, form)
    requires form != form2 || word != word2
    requires AcronymBeforeWordAt(text, j, form2, word2)
    ensures AcronymBeforeWordAt(FixAcronym(text, form, rep, word), j, form2, word2)
  {
    var len, len2 := |form| + |word| + 2, |form2| + |word2| + 2;
    var g := Gsub(text, len, AcronymMatch(form, word), Fixed(Rewritten(rep, word)));
    FixAcronymIsGsub(text, form, rep, word);
    forall k | j <= k < j + len2 ensures g[k] == text[k] {
      OthersNotTaken(text, form, rep, word, j, form2, rep2, word2, k, len);
      GsubFixedOutside(text, len, AcronymMatch(form, word), Rewritten(rep, word), k);
    }
    OccurrenceChars(text, j, form2, word2);
    OccurrenceFromChars(g, j, form2, word2);
  }

  /**
   * The acronym at `j` ends its sentence: the form's last character is a
   * period again, and the word stands between two spaces.
   */
  predicate EndsSentence(t: string, j: nat, form: string, word: string) {
    0 < |form| && j + |form| + |word| + 2 <= |t|
    && t[j + |form| - 1] == '.' && t[j + |form|] == ' '
    && t[j + |form| + 1..j + |form| + 1 + |word|] == word && t[j + |form| + 1 + |word|] == ' '
  }

  /** What one gsub can do to an occurrence: keep it, or make it end its sentence. */
  predicate Pending(t: string, j: nat, form: string, word: string) {
    AcronymBeforeWordAt(t, j, form, word) || EndsSentence(t, j, form, word)
  }

  /** A rewrite that only gives back periods and plain spaces keeps an acronym that ends its sentence. */
  lemma EndsSentenceKept(t: string, t2: string, j: nat, form: string, word: string)
    requires LetterWord(word)
    requires |t2| == |t| && forall k :: 0 <= k < |t| ==> Unshields(t[k], t2[k])
    requires EndsSentence(t, j, form, word)
    ensures EndsSentence(t2, j, form, word)
  {
    var q := j + |form| + 1;
    forall m | 0 <= m < |word| ensures t2[q + m] == word[m] {
      assert t[q + m] == t[q..q + |word|][m];
      assert Unshields(t[q + m], t2[q + m]);
    }
    assert t2[q..q + |word|] == word;
  }

  /** One gsub of the pass, seen from one occurrence of a listed form before a listed word. */
  lemma FixAcronymStep(t: string, j: nat, form: string, rep: string, word: string,
                       form2: string, rep2: string, word2: string)
    requires AcronymShape(form, rep) && LetterWord(word) && AcronymShape(form2, rep2) && LetterWord(word2)
    requires NotEnding(form, form2) && NotEnding(form2, form)
    requires Pending(t, j, form, word)
    ensures Pending(FixAcronym(t, form2, rep2, word2), j, form, word)
    ensures form2 == form && word2 == word ==> EndsSentence(FixAcronym(t, form2, rep2, word2), j, form, word)
    ensures EndsSentence(t, j, form, word) ==> EndsSentence(FixAcronym(t, form2, rep2, word2), j, form, word)
  {
    var r := FixAcronym(t, form2, rep2, word2);
    if EndsSentence(t, j, form, word) {
      FixAcronymUnshields(t, form2, rep2, word2);
      EndsSentenceKept(t, r, j, form, word);
    } else if form2 == form && word2 == word {
      FixAcronymRewrites(t, form, rep2, word, j);
      RewrittenEndsSentence(r, j, form, rep2, word);
    } else {
      FixAcronymKeepsOthers(t, form2, rep2, word2, j, form, rep, word);
    }
  }

  /** Text that holds `rep word ` at `j` ends the acronym's sentence there. */
  lemma RewrittenEndsSentence(r: string, j: nat, form: string, rep: string, word: string)
    requires AcronymShape(form, rep)
    requires j + |form| + |word| + 2 <= |r|
    requires forall m :: 0 <= m < |form| + |word| + 2 ==> r[j + m] == Rewritten(rep, word)[m]
    ensures EndsSentence(r, j, form, word)
  {
    var w := Rewritten(rep, word);
    var q := j + |form| + 1;
    assert r[j + (|form| - 1)] == w[|form| - 1] == rep[|rep| - 1];
    assert r[j + |form|] == w[|form|];
    forall m | 0 <= m < |word| ensures r[q + m] == word[m] {
      assert r[j + (|form| + 1 + m)] == w[|form| + 1 + m];
    }
    assert r[q..q + |word|] == word;
    assert r[j + (|form| + 1 + |word|)] == w[|form| + 1 + |word|];
  }

  /** One gsub of the pass keeps an occurrence pending, with the forms taken from a list of shaped forms. */
  lemma ListedStep(t: string, j: nat, forms: seq<(string, string)>, f: nat, g: nat, word: string, word2: string)
    requires f < |forms| && g < |forms| && ShapedForms(forms) && LetterWord(word) && LetterWord(word2)
    requires Pending(t, j, forms[f].0, word)
    ensures Pending(FixAcronym(t, forms[g].0, forms[g].1, word2), j, forms[f].0, word)
    ensures g == f && word2 == word ==> EndsSentence(FixAcronym(t, forms[g].0, forms[g].1, word2), j, forms[f].0, word)
  {
    var form, rep := forms[f].0, forms[f].1;
    var form2, rep2 := forms[g].0, forms[g].1;
    assert AcronymShape(form, rep) && AcronymShape(form2, rep2);
    assert NotEnding(form, form2) && NotEnding(form2, form);
    FixAcronymStep(t, j, form, rep, word, form2, rep2, word2);
  }

  /** A gsub of the pass keeps an acronym that already ends its sentence. */
  lemma FixAcronymKeepsEnds(t: string, form2: string, rep2: string, word2: string, j: nat, form: string, word: string)
    requires FormPair(form2, rep2) && LetterWord(word)
    requires EndsSentence(t, j, form, word)
    ensures EndsSentence(FixAcronym(t, form2, rep2, word2), j, form, word)
  {
    FixAcronymUnshields(t, form2, rep2, word2);
    EndsSentenceKept(t, FixAcronym(t, form2, rep2, word2), j, form, word);
  }

  /** The gsubs of the first `n` forms for one word keep the occurrence of form `f` before `word` pending. */
  lemma FixFormsPending(t: string, forms: seq<(string, string)>, word2: string, n: nat,
                        j: nat, f: nat, word: string)
    requires n <= |forms| && f < |forms| && ShapedForms(forms) && LetterWord(word) && LetterWord(word2)
    requires Pending(t, j, forms[f].0, word)
    ensures Pending(FixForms(t, forms, word2, n), j, forms[f].0, word)
  {
    var form := forms[f].0;
    var p := x => Pending(x, j, form, word);
    forall x, i | 0 <= i < n && p(x) ensures p(FormStep(forms, word2)(x, i)) {
      ListedStep(x, j, forms, f, i, word, word2);
    }
    IterateKeeps(t, FormStep(forms, word2), 0, n, p);
  }

  /** The gsubs of a word's forms keep an acronym that already ends its sentence. */
  lemma FixFormsKeepEnds(t: string, forms: seq<(string, string)>, word2: string, m: nat, n: nat,
                         j: nat, form: string, word: string)
    requires m <= n && LetterWord(word)
    requires EndsSentence(FixForms(t, forms, word2, m), j, form, word)
    ensures EndsSentence(FixForms(t, forms, word2, n), j, form, word)
  {
    var p := x => EndsSentence(x, j, form, word);
    forall x, i | m <= i < n && p(x) ensures p(FormStep(forms, word2)(x, i)) {
      if i < |forms| && FormPair(forms[i].0, forms[i].1) {
        FixAcronymKeepsEnds(x, forms[i].0, forms[i].1, word2, j, form, word);
      }
    }
    IterateKeeps(t, FormStep(forms, word2), m, n, p);
  }

  /** The gsub of form `f` rewrites the occurrence of form `f` before its own word. */
  lemma FixFormsOwnStep(t: string, forms: seq<(string, string)>, word: string, j: nat, f: nat)
    requires f < |forms| && ShapedForms(forms) && LetterWord(word)
    requires Pending(FixForms(t, forms, word, f), j, forms[f].0, word)
    ensures EndsSentence(FixForms(t, forms, word, f + 1), j, forms[f].0, word)
  {
    ListedStep(FixForms(t, forms, word, f), j, forms, f, f, word, word);
  }

  /**
   * After the gsubs of all the forms for one word, the occurrence of form
   * `f` before `word` ends its sentence if it did before or if the word is
   * its own.
   */
  lemma FixFormsEnds(t: string, forms: seq<(string, string)>, word2: string,
                     j: nat, f: nat, word: string)
    requires f < |forms| && ShapedForms(forms) && LetterWord(word) && LetterWord(word2)
    requires Pending(t, j, forms[f].0, word)
    requires word2 == word || EndsSentence(t, j, forms[f].0, word)
    ensures EndsSentence(FixForms(t, forms, word2, |forms|), j, forms[f].0, word)
  {
    if EndsSentence(t, j, forms[f].0, word) {
      FixFormsKeepEnds(t, forms, word2, 0, |forms|, j, forms[f].0, word);
    } else {
      FixFormsPending(t, forms, word2, f, j, f, word);
      FixFormsOwnStep(t, forms, word, j, f);
      FixFormsKeepEnds(t, forms, word2, f + 1, |forms|, j, forms[f].0, word);
    }
  }

  /** The gsubs of the first `n` words keep the occurrence of form `f` before word `w` pending. */
  lemma FixWordsPending(t: string, words: seq<string>, forms: seq<(string, string)>, n: nat,
                        j: nat, f: nat, w: nat)
    requires n <= |words| && f < |forms| && w < |words| && ShapedForms(forms) && LetterWords(words)
    requires Pending(t, j, forms[f].0, words[w])
    ensures Pending(FixWords(t, words, forms, n), j, forms[f].0, words[w])
  {
    var form, word := forms[f].0, words[w];
    var p := x => Pending(x, j, form, word);
    forall x, i | 0 <= i < n && p(x) ensures p(WordStep(words, forms)(x, i)) {
      FixFormsPending(x, forms, words[i], |forms|, j, f, word);
    }
    IterateKeeps(t, WordStep(words, forms), 0, n, p);
  }

  /** After the gsubs of the first `n` words, with word `w` among them, the occurrence of form `f` before it ends its sentence. */
  lemma FixWordsEnds(t: string, words: seq<string>, forms: seq<(string, string)>, n: nat,
                     j: nat, f: nat, w: nat)
    requires n <= |words| && f < |forms| && w < n && ShapedForms(forms) && LetterWords(words)
    requires Pending(t, j, forms[f].0, words[w])
    ensures EndsSentence(FixWords(t, words, forms, n), j, forms[f].0, words[w])
  {
    var form, word := forms[f].0, words[w];
    FixWordsOwnStep(t, words, forms, j, f, w);
    var p := x => EndsSentence(x, j, form, word);
    forall x, i | w + 1 <= i < n && p(x) ensures p(WordStep(words, forms)(x, i)) {
      assert LetterWord(words[i]);
      FixFormsEnds(x, forms, words[i], j, f, word);
    }
    IterateKeeps(t, WordStep(words, forms), w + 1, n, p);
  }

  /** The gsubs for word `w` make the occurrence of form `f` before it end its sentence. */
  lemma FixWordsOwnStep(t: string, words: seq<string>, forms: seq<(string, string)>, j: nat, f: nat, w: nat)
    requires f < |forms| && w < |words| && ShapedForms(forms) && LetterWords(words)
    requires Pending(t, j, forms[f].0, words[w])
    ensures EndsSentence(FixWords(t, words, forms, w + 1), j, forms[f].0, words[w])
  {
    var word := words[w];
    FixWordsPending(t, words, forms, w, j, f, w);
    var before := FixWords(t, words, forms, w);
    FixFormsEnds(before, forms, word, j, f, word);
    assert FixWords(t, words, forms, w + 1) == FixForms(before, forms, word, |forms|);
  }

  /**
   * Every listed acronym before a listed word ends its sentence after the
   * pass: its last shield is a period again and the word stands between
   * spaces, whatever the other gsubs of the pass did around it.
   */
  lemma AcronymBeforeBoundaryWordEndsSentence(text: string, j: nat, f: nat, w: nat)
    requires f < |AcronymForms| && w < |BoundaryWords|
    requires AcronymBeforeWordAt(text, j, AcronymForms[f].0, BoundaryWords[w])
    ensures EndsSentence(AbbrAsSentenceBoundary(text), j, AcronymForms[f].0, BoundaryWords[w])
  {
    AcronymFormsShaped();
    BoundaryWordsAreLetters();
    FixWordsEnds(text, BoundaryWords, AcronymForms, |BoundaryWords|, j, f, w);
  }

  /** The replacement is the form with only its last character changed. */
  predicate KeepsAllButLast(form: string, rep: string) {
    |rep| == |form| && forall m :: 0 <= m < |form| - 1 ==> rep[m] == form[m]
  }

  /** Every replacement of the list keeps its form but for the last character. */
  predicate LastOnlyForms(forms: seq<(string, string)>) {
    forall g :: 0 <= g < |forms| ==> KeepsAllButLast(forms[g].0, forms[g].1)
  }

  lemma AcronymFormsLastOnly()
    ensures LastOnlyForms(AcronymForms)
  {
    forall g | 0 <= g < |AcronymForms| ensures KeepsAllButLast(AcronymForms[g].0, AcronymForms[g].1) {
      var (f, r) := AcronymForms[g];
      assert r == f[..|f| - 1] + ".";
    }
  }

  /**
   * `k` is a position that the pass rewrites in the occurrence of `form\sword\s`
   * at `j`: the form's last character, or the whitespace on either side of the word.
   */
  predicate ChangeAt(t: string, j: nat, form: string, word: string, k: nat) {
    AcronymBeforeWordAt(t, j, form, word)
    && (k == j + |form| - 1 || k == j + |form| || k == j + |form| + 1 + |word|)
  }

  /** `k` is a position the pass rewrites in some occurrence of a form of `forms` before a word of `words`. */
  ghost predicate Explained(t: string, forms: seq<(string, string)>, words: seq<string>, k: nat) {
    exists f: nat, w: nat, j: nat :: f < |forms| && w < |words| && ChangeAt(t, j, forms[f].0, words[w], k)
  }

  /** A character outside every taken match of one gsub is kept. */
  lemma FixAcronymKeepsUncovered(x: string, form: string, rep: string, word: string, k: nat, len: nat)
    requires FormPair(form, rep) && k < |x| && len == |form| + |word| + 2
    ensures (forall a: nat :: a <= k < a + len ==> !Taken(x, 0, len, AcronymMatch(form, word), a))
            ==> FixAcronym(x, form, rep, word)[k] == x[k]
  {
    if forall a: nat :: a <= k < a + len ==> !Taken(x, 0, len, AcronymMatch(form, word), a) {
      FixAcronymIsGsub(x, form, rep, word);
      GsubFixedOutside(x, len, AcronymMatch(form, word), Rewritten(rep, word), k);
    }
  }

  /** Inside an occurrence, `rep word ` differs from the text only at the three positions the pass rewrites. */
  lemma RewrittenKeepsTheRest(x: string, a: nat, form: string, rep: string, word: string, m: nat)
    requires AcronymShape(form, rep) && KeepsAllButLast(form, rep)
    requires AcronymBeforeWordAt(x, a, form, word) && m < |form| + |word| + 2
    ensures m == |form| - 1 ==> Rewritten(rep, word)[m] == '.' && Rewritten(rep, word)[m + 1] == ' '
    ensures m == |form| || m == |form| + 1 + |word| ==> IsSpace(x[a + m]) && Rewritten(rep, word)[m] == ' '
    ensures m != |form| - 1 && m != |form| && m != |form| + 1 + |word| ==> Rewritten(rep, word)[m] == x[a + m]
  {
    var w := Rewritten(rep, word);
    OccurrenceChars(x, a, form, word);
    if m < |form| {
      assert w[m] == rep[m];
    } else if |form| < m < |form| + 1 + |word| {
      assert w[m] == word[m - |form| - 1] == x[a + |form| + 1 + (m - |form| - 1)];
    }
  }

  /**
   * One gsub changes a character only where it rewrites an occurrence of its
   * own form and word, and only by giving back the form's last shield as a
   * period before a space, or by writing a space over whitespace.
   */
  lemma FixAcronymChangesOnly(x: string, form: string, rep: string, word: string, k: nat)
    requires AcronymShape(form, rep) && KeepsAllButLast(form, rep) && k < |x|
    ensures var r := FixAcronym(x, form, rep, word);
            r[k] != x[k] ==> exists a: nat :: ChangeAt(x, a, form, word, k)
    ensures var r := FixAcronym(x, form, rep, word);
            r[k] != x[k] ==> (r[k] == '.' && k + 1 < |r| && r[k + 1] == ' ') || (IsSpace(x[k]) && r[k] == ' ')
  {
    var len := |form| + |word| + 2;
    var matches := AcronymMatch(form, word);
    var r := FixAcronym(x, form, rep, word);
    FixAcronymKeepsUncovered(x, form, rep, word, k, len);
    if r[k] != x[k] {
      var a: nat :| a <= k < a + len && Taken(x, 0, len, matches, a);
      TakenIsMatch(x, 0, len, matches, a);
      FixAcronymIsGsub(x, form, rep, word);
      GsubFixedAtTaken(x, len, matches, Rewritten(rep, word), a);
      RewrittenKeepsTheRest(x, a, form, rep, word, k - a);
      assert r[a + (k - a)] == Rewritten(rep, word)[k - a];
      if k - a == |form| - 1 {
        assert r[a + (k - a + 1)] == Rewritten(rep, word)[k - a + 1];
      }
      assert ChangeAt(x, a, form, word, k);
    }
  }

  /**
   * One gsub makes no new occurrence of a listed form before a listed word: a
   * period it gives back is followed by a space, which no form continues, and a
   * space it writes stands where the occurrence already had whitespace.
   */
  lemma FixAcronymAddsNoOccurrence(x: string, form: string, rep: string, word: string,
                                   j: nat, form2: string, rep2: string, word2: string)
    requires AcronymShape(form, rep) && KeepsAllButLast(form, rep)
    requires AcronymShape(form2, rep2) && LetterWord(word2)
    requires AcronymBeforeWordAt(FixAcronym(x, form, rep, word), j, form2, word2)
    ensures AcronymBeforeWordAt(x, j, form2, word2)
  {
    var r := FixAcronym(x, form, rep, word);
    var q := j + |form2| + 1;
    OccurrenceChars(r, j, form2, word2);
    forall m | 0 <= m < |form2| ensures x[j + m] == form2[m] {
      FixAcronymChangesOnly(x, form, rep, word, j + m);
      if m < |form2| - 1 {
        assert r[j + (m + 1)] == form2[m + 1];
      }
    }
    forall m | 0 <= m < |word2| ensures x[q + m] == word2[m] {
      FixAcronymChangesOnly(x, form, rep, word, q + m);
    }
    FixAcronymChangesOnly(x, form, rep, word, j + |form2|);
    FixAcronymChangesOnly(x, form, rep, word, q + |word2|);
    OccurrenceFromChars(x, j, form2, word2);
  }

  /**
   * `x` is what the gsubs have made of `text` so far: every character they
   * changed is one the pass rewrites in an occurrence in `text`, and every
   * occurrence in `x` was one in `text` already.
   */
  ghost predicate Traced(text: string, x: string, forms: seq<(string, string)>, words: seq<string>) {
    |x| == |text|
    && (forall k: nat :: k < |x| && x[k] != text[k] ==> Explained(text, forms, words, k))
    && forall f: nat, w: nat, j: nat :: f < |forms| && w < |words| && AcronymBeforeWordAt(x, j, forms[f].0, words[w])
         ==> AcronymBeforeWordAt(text, j, forms[f].0, words[w])
  }

  /** Each gsub of the pass keeps the text traced back to the original. */
  lemma TracedStep(text: string, x: string, forms: seq<(string, string)>, words: seq<string>, g: nat, i: nat)
    requires g < |forms| && i < |words| && ShapedForms(forms) && LastOnlyForms(forms) && LetterWords(words)
    requires Traced(text, x, forms, words)
    ensures Traced(text, FixAcronym(x, forms[g].0, forms[g].1, words[i]), forms, words)
  {
    var form, rep, word := forms[g].0, forms[g].1, words[i];
    assert AcronymShape(form, rep) && KeepsAllButLast(form, rep);
    var r := FixAcronym(x, form, rep, word);
    forall k: nat | k < |r| && r[k] != text[k] ensures Explained(text, forms, words, k) {
      if r[k] != x[k] {
        FixAcronymChangesOnly(x, form, rep, word, k);
        var a: nat :| ChangeAt(x, a, form, word, k);
        assert AcronymBeforeWordAt(text, a, forms[g].0, words[i]);
        assert ChangeAt(text, a, forms[g].0, words[i], k);
      }
    }
    forall f: nat, w: nat, j: nat | f < |forms| && w < |words| && AcronymBeforeWordAt(r, j, forms[f].0, words[w])
      ensures AcronymBeforeWordAt(text, j, forms[f].0, words[w])
    {
      assert AcronymShape(forms[f].0, forms[f].1) && LetterWord(words[w]);
      FixAcronymAddsNoOccurrence(x, form, rep, word, j, forms[f].0, forms[f].1, words[w]);
    }
  }

  /** The gsubs of a word's forms keep the text traced back to the original. */
  lemma FixFormsTraced(text: string, x: string, forms: seq<(string, string)>, words: seq<string>, i: nat, n: nat)
    requires i < |words| && ShapedForms(forms) && LastOnlyForms(forms) && LetterWords(words)
    requires Traced(text, x, forms, words)
    ensures Traced(text, FixForms(x, forms, words[i], n), forms, words)
  {
    var p := y => Traced(text, y, forms, words);
    forall y, g | 0 <= g < n && p(y) ensures p(FormStep(forms, words[i])(y, g)) {
      if g < |forms| && FormPair(forms[g].0, forms[g].1) {
        TracedStep(text, y, forms, words, g, i);
      }
    }
    IterateKeeps(x, FormStep(forms, words[i]), 0, n, p);
  }

  /** The whole pass keeps the text traced back to the original. */
  lemma FixWordsTraced(text: string, words: seq<string>, forms: seq<(string, string)>, n: nat)
    requires ShapedForms(forms) && LastOnlyForms(forms) && LetterWords(words)
    ensures Traced(text, FixWords(text, words, forms, n), forms, words)
  {
    var p := y => Traced(text, y, forms, words);
    forall y, i | 0 <= i < n && p(y) ensures p(WordStep(words, forms)(y, i)) {
      if i < |words| {
        FixFormsTraced(text, y, forms, words, i, |forms|);
      }
    }
    assert p(text);
    IterateKeeps(text, WordStep(words, forms), 0, n, p);
  }

  /**
   * The pass changes a character only where it gives back the last shield of
   * a listed acronym before a listed word, or the whitespace on either side
   * of that word.
   */
  lemma AbbrAsSentenceBoundaryChangesOnlyAcronyms(text: string, k: nat)
    requires k < |text| && AbbrAsSentenceBoundary(text)[k] != text[k]
    ensures exists f: nat, w: nat, j: nat :: f < |AcronymForms| && w < |BoundaryWords|
              && ChangeAt(text, j, AcronymForms[f].0, BoundaryWords[w], k)
  {
    AcronymFormsShaped();
    AcronymFormsLastOnly();
    BoundaryWordsAreLetters();
    FixWordsTraced(text, BoundaryWords, AcronymForms, |BoundaryWords|);
    assert Explained(text, AcronymForms, BoundaryWords, k);
  }

  /** For example, `U∯S∯ The ` is rewritten to `U∯S. The `. */
  lemma UnitedStatesBeforeThe()
    ensures FixAcronym("U∯S∯ The ", "U∯S∯", "U∯S.", "The") == "U∯S. The "
  {
    AcronymFormsArePairs();
    assert AcronymForms[0] == ("U∯S∯", "U∯S.");
    var t := "U∯S∯ The ";
    assert AcronymBeforeWordAt(t, 0, "U∯S∯", "The");
    assert GsubFrom(t, 9, 9, AcronymMatch("U∯S∯", "The"), Fixed(Rewritten("U∯S.", "The"))) == [];
  }
}
