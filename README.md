# Pragmatic Segmenter core, modelled in Dafny

This project models the sentence segmenter of Pragmatic Segmenter
(`lib/pragmatic_segmenter/segmenter.rb`). The segmenter splits a text into
sentences by rule. It does not guess: every dot, question mark or exclamation
mark that must not end a sentence is hidden before the text is cut.

The hiding uses a sentinel character. A period becomes ∯, an ellipsis becomes
one of ♟ ♝ ƪ ☏, and a protected `!` becomes ᓴ. The text is cut at the marks
that remain, and two decoders (`sub_symbols`, then `reinsert_ellipsis`) write
the punctuation back.

The `Segmenter` object runs in three stages:

- Text-wide passes rewrite the working text in place, in this order:
  possessives and initials, the abbreviation lexicon, numbers, multi-period
  abbreviations, abbreviations that end a sentence, and geographic
  coordinates.
- `split_lines` cuts the text at carriage returns. `analyze_lines` turns each
  line into segments: it shields line feeds, ellipses and e-mail periods. It
  then looks up the language's terminal marks. For a line with a mark, it
  shields quoted and bracketed spans and exclamation words, compounds such as
  `?!`, and language-specific marks. It then splits the line and decodes every
  piece.
- The segments become sentences. Each one has its ellipses reinserted and
  its runs of whitespace collapsed. It is then cut after a quotation that
  ends a sentence, or stripped. Empty sentences are dropped.

Modules, one per concern of the source:

- `Chars`: character classes, `strip`, up- and down-casing.
- `Rewrite`: `gsub` as a left-to-right scan for non-overlapping matches, with
  lemmas on what a scan keeps.
- `Outcomes`: `Option` and `Result`.
- `Profiles`: the `PUNCT` tables and the `PUNCT_<LANG>` lookup.
- `Symbols`: both decoders, as written and as per-character tables.
- `Ellipsis`: `replace_ellipsis`.
- `Disambiguation`: the initials, `numbers` and `geo_location` shields.
- `Abbreviations`: the per-occurrence decision of `process_abbr`.
- `MultiPeriod`: `multi_period_abbr`.
- `Boundary`: `abbr_as_sentence_boundary`.
- `LineShields`: the line feed, e-mail, compound, emphasis and Arabic shields.
- `Spans`: the span scans and `sub_punct`.
- `Split`: the eight mark-class scans and the default scan.
- `Lines`: `analyze_lines`.
- `Sentences`: `split_lines`.
- `Segmentation`: the `Segmenter` class and `segment`.

The working text is a field of the `Segmenter` class, and every pass is a
method that reassigns it. Each method is proved equal to the function that
specifies its pass, and the properties are proved about those functions.

## Model

All source paths are in `lib/pragmatic_segmenter/segmenter.rb`.

| member | source | states |
|---|---|---|
| Profiles.Punctuation | lib/pragmatic_segmenter/segmenter.rb:169-174 | The lookup fails (Ruby raises NameError) exactly when the language code holds a character that cannot appear in a constant name. Otherwise it gives a non-empty table of terminal marks. |
| Profiles.ListedCodeUsesOwnTable | lib/pragmatic_segmenter/segmenter.rb:9-17 | Each of ar, fa, ur, hi, hy, el, my, am gets its own `PUNCT_<LANG>` table. |
| Profiles.EnglishUsesDefault | lib/pragmatic_segmenter/segmenter.rb:169-174 | English has no table of its own and falls back to `PUNCT`. |
| Profiles.OtherCodesUseDefault | lib/pragmatic_segmenter/segmenter.rb:169-174 | Any well-formed code other than the eight listed ones uses `PUNCT`. |
| Profiles.LookupIgnoresCase | lib/pragmatic_segmenter/segmenter.rb:171 | The lookup upcases the code, so the code's case never changes the table. |
| Profiles.TwoLetterLookup | lib/pragmatic_segmenter/segmenter.rb:171 | A two-letter lower-case code always names a valid constant, so its lookup succeeds. |
| Disambiguation.ShieldInitials | lib/pragmatic_segmenter/segmenter.rb:66-80 | Only periods change, each to ∯. A period is shielded exactly when it stands directly before `'s` and then whitespace or the end of the text, as the period of a possessive abbreviation such as `Jr.'s` does, or follows a single capital (at a line start or after whitespace) before whitespace. Single lower-case letters count too, but only for German and French. |
| Abbreviations.AbbrDecision | lib/pragmatic_segmenter/segmenter.rb:89-115 | German always shields before whitespace. Arabic and Persian shield everywhere. Elsewhere the decision is Keep exactly when the next word starts with a capital and the abbreviation is not a prefix. Otherwise, under its stripped form, a prefix is shielded before whitespace, a number abbreviation before a number, a Russian abbreviation after a word start, and any other where the sentence goes on. |
| Abbreviations.ApplyAbbrRule | lib/pragmatic_segmenter/segmenter.rb:90-113 | Only periods change, each to ∯. A period changes exactly when the decision's pattern matches it in the text the decision starts from: always for a one-gsub rule, and for any rule when the abbreviation holds no ∯. Each period of the abbreviation matches any character but a line feed, because the source interpolates it unescaped. |
| Abbreviations.NumberUnitGsubs | lib/pragmatic_segmenter/segmenter.rb:102-104 | The two gsubs of a number abbreviation only shield periods. When the abbreviation holds no ∯, a character changes exactly when the number-abbreviation pattern matches its period in the starting text, so the second gsub sees the same lookbehinds as the first. |
| Abbreviations.RussianGsubs | lib/pragmatic_segmenter/segmenter.rb:106-109 | The three Russian gsubs only shield periods. When the abbreviation holds no ∯, a character changes exactly when its period follows the abbreviation after whitespace, at the start of the text or at a line start. |
| Abbreviations.PlainGsubs | lib/pragmatic_segmenter/segmenter.rb:110-112 | The two gsubs of any other abbreviation only shield periods. When the abbreviation holds no ∯, a character changes exactly when the sentence-goes-on pattern or the comma pattern matches its period in the starting text. |
| Abbreviations.UpperNextWordKeepsPeriods | lib/pragmatic_segmenter/segmenter.rb:95-99 | Outside de/ar/fa, an abbreviation before a capitalised word that is not a prefix leaves the text unchanged, so its period stays a sentence boundary. |
| Abbreviations.PrefixShieldedBeforeSpace | lib/pragmatic_segmenter/segmenter.rb:99-101 | A prefix abbreviation's period before whitespace is always shielded, whatever the next word. |
| Abbreviations.GermanShieldsOnlyBeforeSpace | lib/pragmatic_segmenter/segmenter.rb:90-91 | In German, a character changes exactly when it is a period that follows the abbreviation and precedes whitespace. |
| Abbreviations.NumberAbbrShieldsBeforeNumber | lib/pragmatic_segmenter/segmenter.rb:102-104 | A number abbreviation not followed by a capitalised word changes a character exactly when it is its period before a space and a digit, or before spaces and `(`. |
| Abbreviations.RussianAbbrShieldsAfterWordStart | lib/pragmatic_segmenter/segmenter.rb:106-109 | In Russian, an abbreviation that is neither prefix nor number, and not followed by a capitalised word, changes a character exactly when it is its period and the abbreviation follows whitespace or starts the text or a line. |
| Abbreviations.PlainAbbrShieldsWhenSentenceGoesOn | lib/pragmatic_segmenter/segmenter.rb:110-112 | Any other abbreviation not followed by a capitalised word changes a character exactly when it is its period before `.`, `:`, `?`, a comma, or a space and a lower-case letter, a digit, `I `, `I'm` or `I'll`. |
| Abbreviations.AbbrPeriodIsWildcard | lib/pragmatic_segmenter/segmenter.rb:93 | A period inside the abbreviation is a wildcard: the Arabic rule for `e.g` shields the period in `exg.` too. |
| Abbreviations.ApplyAbbrRules | lib/pragmatic_segmenter/segmenter.rb:89-117 | Applying the decisions of all occurrences in turn only shields periods. |
| Segmentation.AbbrPass | lib/pragmatic_segmenter/segmenter.rb:62-119 | `process_abbr` as a whole only shields periods. |
| Segmentation.Segmenter.ProcessAbbr | lib/pragmatic_segmenter/segmenter.rb:62-119 | The loop over the occurrences leaves the text that `AbbrPass` specifies, which differs from the old text only by shielded periods. |
| Disambiguation.Numbers | lib/pragmatic_segmenter/segmenter.rb:277-297 | Only periods change, each to ∯. A period is shielded exactly when it is a decimal point, precedes a digit, ends a one- or two-digit list marker, or (German only) ends an ordinal number. |
| Segmentation.Segmenter.Numbers | lib/pragmatic_segmenter/segmenter.rb:277-297 | The text becomes the `numbers` rewrite of the old text. |
| Disambiguation.GeoLocation | lib/pragmatic_segmenter/segmenter.rb:136-139 | Only periods change. A period is shielded exactly when it follows a letter (range `A-z` as written) and a degree sign and precedes optional whitespace and a digit. |
| Segmentation.Segmenter.GeoLocation | lib/pragmatic_segmenter/segmenter.rb:136-139 | The text becomes the `geo_location` rewrite of the old text. |
| MultiPeriod.ScanFromDotted | lib/pragmatic_segmenter/segmenter.rb:302 | Every match of the scan is a dotted abbreviation: a letter, then period and letter pairs, then a final period. |
| MultiPeriod.MatchIsDotted | lib/pragmatic_segmenter/segmenter.rb:302 | A non-empty match at a position is a dotted abbreviation. |
| MultiPeriod.ScanEmpty | lib/pragmatic_segmenter/segmenter.rb:302 | The scan finds nothing exactly when no match starts anywhere in the text. |
| MultiPeriod.ScanFirst | lib/pragmatic_segmenter/segmenter.rb:302 | The scan's first result is the match that starts first, and the scan resumes right after it. So every match the scan does not skip over is found. |
| MultiPeriod.ShieldOccurrencesShieldsPeriods | lib/pragmatic_segmenter/segmenter.rb:305 | Replacing every occurrence of a match by its shielded form only shields periods. |
| MultiPeriod.ShieldOccurrencesAt | lib/pragmatic_segmenter/segmenter.rb:305 | Every occurrence the gsub takes gets each of its periods shielded, and keeps its letters. |
| MultiPeriod.ShieldOccurrencesOutside | lib/pragmatic_segmenter/segmenter.rb:305 | A character that no taken occurrence covers is kept. |
| MultiPeriod.ShieldAllShieldsPeriods | lib/pragmatic_segmenter/segmenter.rb:304-306 | The loop over the scanned abbreviations only shields periods. |
| MultiPeriod.ShieldAllShieldsAlone | lib/pragmatic_segmenter/segmenter.rb:304-306 | An occurrence of a scanned abbreviation that no abbreviation scanned up to it overlaps has all its periods shielded after the loop. `b.c. a.b.c.` does not qualify: the earlier `b.c.` is shielded inside `a.b.c.`, so that occurrence's first period stays. |
| MultiPeriod.RestoreMeridiem | lib/pragmatic_segmenter/segmenter.rb:310-313 | Length is kept. A character changes exactly when it is a ∯ closing `a∯m`, `A∯M`, `p∯m` or `P∯M` before whitespace and a capital, and it becomes a period. |
| MultiPeriod.MultiPeriodAbbrMovesShields | lib/pragmatic_segmenter/segmenter.rb:299-314 | The pass only trades periods and shields, so the decoded text is unchanged. No shielded meridiem is left before a capitalised word. |
| MultiPeriod.MultiPeriodAbbrShieldsAlone | lib/pragmatic_segmenter/segmenter.rb:299-314 | After the whole pass, every period of such an occurrence is ∯. The one exception is the final period of `a∯m`/`p∯m` (either case) before a capitalised word, which is a period again. |
| MultiPeriod.MovesShieldsKeepsRestore | lib/pragmatic_segmenter/segmenter.rb:305-313 | Trading periods for ∯ and back never changes the decoded text. |
| Segmentation.Segmenter.MultiPeriodAbbr | lib/pragmatic_segmenter/segmenter.rb:299-314 | The scan, the loop over its matches and the four meridiem gsubs leave the text `MultiPeriodAbbr` specifies. |
| Boundary.FixAcronymUnshields | lib/pragmatic_segmenter/segmenter.rb:124-132 | One gsub keeps the length. Each change turns a ∯ back into a period or a whitespace into a space. |
| Boundary.FixAcronymRewrites | lib/pragmatic_segmenter/segmenter.rb:124-132 | Every occurrence of `form\sword\s` is rewritten to `rep word `: overlapping occurrences of one form and word cannot happen, so the gsub takes each. |
| Boundary.FixAcronymKeepsOthers | lib/pragmatic_segmenter/segmenter.rb:124-132 | The gsub of one form and word leaves an occurrence of any other listed form, or of another word, as it is. |
| Boundary.OccurrencesApart | lib/pragmatic_segmenter/segmenter.rb:124-132 | Occurrences of two listed forms before boundary words never overlap unless they are the same occurrence, since no form ends another. |
| Boundary.FixWordsUnshields | lib/pragmatic_segmenter/segmenter.rb:122-133 | The loop over the words and forms only gives back periods and plain spaces. |
| Boundary.FixFormsEnds | lib/pragmatic_segmenter/segmenter.rb:124-132 | After a word's nine gsubs, an occurrence of a listed form before that word ends its sentence, and one that already did still does. |
| Boundary.FixWordsEnds | lib/pragmatic_segmenter/segmenter.rb:122-133 | After the gsubs of the words up to and including `w`, an acronym before `w` ends its sentence. |
| Boundary.AcronymBeforeBoundaryWordEndsSentence | lib/pragmatic_segmenter/segmenter.rb:121-134 | After the pass, every occurrence of a listed acronym form before a boundary word and whitespace ends its sentence: its last ∯ is a period again. |
| Boundary.AbbrAsSentenceBoundary | lib/pragmatic_segmenter/segmenter.rb:121-134 | The pass keeps the length and creates no new ∯. Each change is ∯ → `.` or a whitespace → ` `. |
| Boundary.FixAcronymChangesOnly | lib/pragmatic_segmenter/segmenter.rb:124-132 | One gsub changes a character only inside an occurrence of its own form before its own word. There it changes only the form's last character, to a period followed by a space, or the whitespace on either side of the word, to a space. |
| Boundary.FixAcronymAddsNoOccurrence | lib/pragmatic_segmenter/segmenter.rb:124-132 | One gsub creates no new occurrence of a listed form before a listed word. Every occurrence in its result was one in its input. |
| Boundary.TracedStep | lib/pragmatic_segmenter/segmenter.rb:124-132 | After each gsub, every changed character is one the pass rewrites in an occurrence in the original text, and no occurrence is new. |
| Boundary.FixWordsTraced | lib/pragmatic_segmenter/segmenter.rb:122-133 | The same holds for the whole loop over the words and forms. |
| Boundary.AbbrAsSentenceBoundaryChangesOnlyAcronyms | lib/pragmatic_segmenter/segmenter.rb:121-134 | The pass changes a character only where the text holds a listed acronym form before a boundary word and whitespace. The character must be the form's last one or the whitespace on either side of the word. Together with `AcronymBeforeBoundaryWordEndsSentence`, this gives both directions. |
| Boundary.UnitedStatesBeforeThe | lib/pragmatic_segmenter/segmenter.rb:124 | `U∯S∯ The ` becomes `U∯S. The `: the acronym's last period ends the sentence again. |
| Segmentation.Segmenter.AbbrAsSentenceBoundary | lib/pragmatic_segmenter/segmenter.rb:121-134 | The loop over the boundary words leaves the text that the pass's function specifies. |
| Segmentation.Segmenter.FixAcronymsBefore | lib/pragmatic_segmenter/segmenter.rb:124-132 | The nine gsubs for one word leave the text `FixForms` specifies. |
| Segmentation.TextPassesDisguiseOnly | lib/pragmatic_segmenter/segmenter.rb:51-56 | On a text without sentinels, the text-wide passes together keep the length. They change a character only by shielding a period or by turning whitespace into a space. |
| Symbols.SubSymbolsStepsIsTable | lib/pragmatic_segmenter/segmenter.rb:271-275 | The fifteen chained replacements of `sub_symbols` equal a per-character decoding table. |
| Symbols.ReinsertEllipsisStepsIsTable | lib/pragmatic_segmenter/segmenter.rb:414-421 | The five chained replacements of `reinsert_ellipsis` equal a per-character decoding table. |
| Symbols.ReinsertEllipsisInLine | lib/pragmatic_segmenter/segmenter.rb:414-421 | The in-place replacements of `reinsert_ellipsis` give the table decoding of the line. |
| Symbols.RestoreIsBothDecoders | lib/pragmatic_segmenter/segmenter.rb:252 | The full decoding of a text is `sub_symbols` followed by `reinsert_ellipsis`. |
| Symbols.RestoreIsSentinelFree | lib/pragmatic_segmenter/segmenter.rb:271-275 | Decoding leaves no sentinel character behind. |
| Symbols.RestoreSentinelFree | lib/pragmatic_segmenter/segmenter.rb:271-275 | Decoding leaves a text without sentinels unchanged. |
| Ellipsis.ReplaceEllipsis | lib/pragmatic_segmenter/segmenter.rb:141-158 | The five gsubs in source order. Its own contract says only that a non-empty line stays non-empty. What it does is stated by `ReplaceEllipsisLeavesNoThreeDots`, the four `ReplaceEllipsisAdds` count lemmas and `EllipsisRoundTrip`. |
| Ellipsis.ReplaceEllipsisLeavesNoThreeDots | lib/pragmatic_segmenter/segmenter.rb:141-158 | No three periods in a row are left on the line, however the ellipses were written. |
| Ellipsis.ReplaceEllipsisAddsPawns | lib/pragmatic_segmenter/segmenter.rb:146 | The line gains exactly one ♟ for each spaced three-dot ellipsis the first gsub takes. No later gsub adds or removes a ♟. |
| Ellipsis.ReplaceEllipsisAddsBishops | lib/pragmatic_segmenter/segmenter.rb:149 | The line gains exactly one ♝ for each spaced four-dot ellipsis at a line end that the second gsub takes, on the line the first one left. |
| Ellipsis.ReplaceEllipsisAddsHooks | lib/pragmatic_segmenter/segmenter.rb:152-156 | The line gains exactly one ƪ for each `...` before `. X` that the third gsub takes, plus one for each remaining `...` that the last gsub takes. |
| Ellipsis.ReplaceEllipsisAddsPhones | lib/pragmatic_segmenter/segmenter.rb:155 | The line gains exactly one ☏ for each `...` before whitespace and a capital that the fourth gsub takes. |
| Ellipsis.SpacedThreeBecomesPawn | lib/pragmatic_segmenter/segmenter.rb:146 | A spaced three-dot ellipsis with its spaces becomes ♟ (`a . . . b` → `a♟b`). |
| Ellipsis.SpacedFourAtEndBecomesBishop | lib/pragmatic_segmenter/segmenter.rb:149 | A spaced four-dot ellipsis after a lower-case letter at the end of the line becomes ♝ (`a. . . .` → `a♝`). |
| Ellipsis.FourBeforeCapitalBecomesHook | lib/pragmatic_segmenter/segmenter.rb:152 | Three periods before a fourth, a space and a capital become ƪ, and the fourth period stays (`a.... B` → `aƪ. B`). |
| Ellipsis.ThreeBeforeCapitalBecomesPhone | lib/pragmatic_segmenter/segmenter.rb:155 | Three periods before spaces and a capital become ☏ and a period (`a... B` → `a☏. B`). |
| Ellipsis.OtherThreeBecomeHook | lib/pragmatic_segmenter/segmenter.rb:156 | Any other three periods become ƪ (`a...b` → `aƪb`). |
| Ellipsis.ReplaceEllipsisInLine | lib/pragmatic_segmenter/segmenter.rb:141-158 | The five in-place gsubs leave the line `ReplaceEllipsis` specifies. |
| Ellipsis.ReplaceEllipsisKeepsDecoding | lib/pragmatic_segmenter/segmenter.rb:141-158 | On a line whose only whitespace is the space, any decoder that writes each ellipsis sentinel back as its dots and spaces gives the same text before and after the replacement. |
| Ellipsis.EllipsisRoundTrip | lib/pragmatic_segmenter/segmenter.rb:141-158 | `reinsert_ellipsis` undoes `replace_ellipsis` on text without sentinels whose only whitespace is the space. |
| LineShields.ShieldNewlines | lib/pragmatic_segmenter/segmenter.rb:161 | No line feed is left. Every line feed becomes ȹ and every other character is kept. |
| LineShields.ShieldNewlinesKeepsRestore | lib/pragmatic_segmenter/segmenter.rb:161 | Decoding gives the line feeds back. |
| LineShields.ShieldEmails | lib/pragmatic_segmenter/segmenter.rb:165 | Length is kept and only periods change, each to ∮. Decoding undoes the shield. |
| LineShields.ShieldEmailsExact | lib/pragmatic_segmenter/segmenter.rb:165 | A character changes exactly when it is the period of a match `(\w)(\.)(\w)` that the gsub takes. |
| LineShields.EmailTakenIff | lib/pragmatic_segmenter/segmenter.rb:165 | A match is taken exactly when its first character is not the last of the match taken two characters earlier. |
| LineShields.EmailScanResumesAfterMatch | lib/pragmatic_segmenter/segmenter.rb:165 | `a.b.c` becomes `a∮b.c`: a match consumes its right-hand letter, so the next period is not shielded. |
| LineShields.MarksShieldedKeepsRestore | lib/pragmatic_segmenter/segmenter.rb:272-273 | Shielding terminal marks with their sentinels never changes the decoded text. |
| LineShields.ShieldCompounds | lib/pragmatic_segmenter/segmenter.rb:219-222 | The compound shields `?!` `!?` `??` `!!` never change the decoded text. |
| LineShields.CompoundDecodes | lib/pragmatic_segmenter/segmenter.rb:219-222 | Each compound sentinel decodes to exactly the pair it replaced. |
| LineShields.CompoundsPairFromTheLeft | lib/pragmatic_segmenter/segmenter.rb:219-222 | The pairs are taken from the left: `?!?` gives `☉?`. |
| LineShields.CompoundsDoNotOverlap | lib/pragmatic_segmenter/segmenter.rb:219-222 | A mark belongs to one pair at most: `!!!` gives `☄!`. |
| LineShields.ShieldCompoundsLeavesNoPair | lib/pragmatic_segmenter/segmenter.rb:219-222 | After the four compound gsubs, no `?` or `!` is directly followed by another `?` or `!`. |
| LineShields.GsubPairLeavesNoPair | lib/pragmatic_segmenter/segmenter.rb:219-222 | A gsub of a two-mark pair by one sentinel leaves no such pair, and creates no pair of marks that was not already there. |
| LineShields.ShieldEmphasis | lib/pragmatic_segmenter/segmenter.rb:245-248 | A character changes exactly when it is a `?` before a quote, or a `!` before a quote, a lower-case word or a comma and a lower-case word. |
| LineShields.ShieldArabic | lib/pragmatic_segmenter/segmenter.rb:225-226 | A character changes exactly when it is a colon between digits (it becomes ♭) or an Arabic comma before a one-word item and another comma (it becomes ♬). Decoding undoes both. |
| Spans.ScanDelimited | lib/pragmatic_segmenter/segmenter.rb:192-205 | Every span found starts with its opening quote or bracket and ends with its closing one. |
| Spans.ScanDelimitedEmpty | lib/pragmatic_segmenter/segmenter.rb:192-205 | The scan finds nothing exactly when no span opens anywhere in the line. |
| Spans.ScanDelimitedFirst | lib/pragmatic_segmenter/segmenter.rb:192-205 | The first span found is the one that opens first. It ends at its closing delimiter, and the scan resumes after it. |
| Spans.ScanSingleQuotedFrom | lib/pragmatic_segmenter/segmenter.rb:195-196 | Every single-quoted span found starts and ends with a `'`. |
| Spans.ScanSingleQuotedEmpty | lib/pragmatic_segmenter/segmenter.rb:195-196 | The single-quote scan finds nothing exactly when no quoted span opens after whitespace. |
| Spans.ScanSingleQuotedFirst | lib/pragmatic_segmenter/segmenter.rb:195-196 | The first single-quoted span is the one that opens first, and the scan resumes after it. |
| Spans.FirstLoneQuote | lib/pragmatic_segmenter/segmenter.rb:195-196 | The greedy body stops at the first quote that no letter follows: there is no such quote before it. |
| Spans.LastQuote | lib/pragmatic_segmenter/segmenter.rb:195-196 | Failing that, the body backtracks to the last quote: there is no quote after it. |
| Spans.ScanLiteral | lib/pragmatic_segmenter/segmenter.rb:208 | The scan for an exclamation word finds one copy of that word per non-overlapping occurrence, counted from the left, and so finds some exactly when the word occurs in the line. |
| Spans.CountFromFirst | lib/pragmatic_segmenter/segmenter.rb:208 | The first occurrence is counted, and counting resumes after it. |
| Spans.DoubleQuoted | lib/pragmatic_segmenter/segmenter.rb:182-193 | German spans are `„…“` when the line holds `„`. Otherwise they are `,,…“`, and there are none when the line has no `,,`. In other languages they are `"…"`. Every span is non-empty. |
| Spans.ReplaceShielded | lib/pragmatic_segmenter/segmenter.rb:337-378 | Replacing every occurrence of a span by a copy with marks shielded only shields marks in the content. |
| Spans.SubPunctSpan | lib/pragmatic_segmenter/segmenter.rb:331-378 | The seven replacements for one span only shield terminal marks in the content. |
| Spans.Chain | lib/pragmatic_segmenter/segmenter.rb:331-378 | After each replacement, the form of the span that the next one looks for is the span with some marks shielded, and the content has only had marks shielded. |
| Spans.SubPunctSpanShieldsIsolated | lib/pragmatic_segmenter/segmenter.rb:331-378 | In an occurrence of the span that no other occurrence overlaps, every terminal mark is shielded with its own sentinel and every other character is kept. |
| Spans.SubPunct | lib/pragmatic_segmenter/segmenter.rb:316-387 | The loop over the spans gives the content that `SubPunctAll` specifies, in which only terminal marks are shielded. |
| Spans.SubPunctAllShieldsIsolated | lib/pragmatic_segmenter/segmenter.rb:324-379 | Over a list of spans, every mark of an isolated occurrence of span `i` ends up shielded. |
| Spans.ShieldWordsInTurn | lib/pragmatic_segmenter/segmenter.rb:207-210 | The loop gives `ShieldWords`: each exclamation word is scanned on the line as the previous words left it (the scanned copy aliases the line), then handed to `sub_punct`. |
| Spans.ShieldWords | lib/pragmatic_segmenter/segmenter.rb:207-210 | The exclamation-word shields only shield terminal marks. |
| Spans.ShieldWordsShieldsIsolated | lib/pragmatic_segmenter/segmenter.rb:207-210 | Every mark of an exclamation word such as `Yahoo!` or `!Kung` is shielded where the word occurs isolated. |
| Spans.ShieldSpans | lib/pragmatic_segmenter/segmenter.rb:181-218 | All span shields of a line together only shield terminal marks. |
| Spans.ShieldSpansOnLine | lib/pragmatic_segmenter/segmenter.rb:181-218 | The span scans, the exclamation loop and the eight `sub_punct` calls, in the source's order, give `ShieldSpans`. |
| Split.FirstMarkIsFirst | lib/pragmatic_segmenter/segmenter.rb:227-243 | The lazy `.*?[class]` stops at the first mark of the class, with none before it. |
| Split.ClassScanJoins | lib/pragmatic_segmenter/segmenter.rb:227-243 | The pieces of a mark-class scan joined together give back the scanned text. |
| Split.ClassScanPieces | lib/pragmatic_segmenter/segmenter.rb:227-243 | The last piece is the empty match at the end. Every other piece ends at its first mark, except possibly the second-to-last, an unmarked remainder. |
| Split.SubSymbolsConcat | lib/pragmatic_segmenter/segmenter.rb:251-253 | Decoding the pieces one by one and joining them equals decoding the joined text. |
| Split.BracketedEnd | lib/pragmatic_segmenter/segmenter.rb:249 | A bracketed or quoted alternative ends on its closing character, before a capitalised word. |
| Split.BracketedEndIsFirstClose | lib/pragmatic_segmenter/segmenter.rb:249 | The alternative ends at the first closing character after the opening one. It fails exactly when that character lacks the capital after it. |
| Split.DefaultMatchEnd | lib/pragmatic_segmenter/segmenter.rb:249 | Every match of the default scan ends on a closing character before a capital or on a terminal mark. |
| Split.DefaultMatchEndIsShortest | lib/pragmatic_segmenter/segmenter.rb:249 | A match ending in a terminal mark ends at the first one after its start, and a bracketed match at the first closing character. A non-space character with a terminal mark after it always starts a match. |
| Split.DefaultMatchesFrom | lib/pragmatic_segmenter/segmenter.rb:249 | The default scan's matches are ordered, do not overlap and are at least two characters long. |
| Split.DefaultPiecesEnd | lib/pragmatic_segmenter/segmenter.rb:249 | Each piece of the default scan closes a sentence: on a terminal mark, or on a bracket or quote before a capital. |
| Split.DefaultScan | lib/pragmatic_segmenter/segmenter.rb:249 | Every piece of the default scan is at least two characters long. |
| Lines.Prepared | lib/pragmatic_segmenter/segmenter.rb:161-165 | The first three shields of `analyze_lines` never empty a non-empty line. |
| Lines.PreparedDecodes | lib/pragmatic_segmenter/segmenter.rb:161-165 | On a line without sentinels whose whitespace is spaces and line feeds, decoding undoes the first three shields. |
| Lines.PreparedAvoids | lib/pragmatic_segmenter/segmenter.rb:161-165 | The first three shields leave no line feed and write none of the split sentinels. |
| Lines.ScanMarks | lib/pragmatic_segmenter/segmenter.rb:175-178 | After the loop over the marks of the table, `clause_1` holds exactly when one of them occurs in the line, and `end_punc` exactly when the line ends with one. |
| Lines.MarkChecks | lib/pragmatic_segmenter/segmenter.rb:175-178 | The loop's flag `clause_1` is set exactly when the line holds a mark of the table. |
| Lines.WithEndMark | lib/pragmatic_segmenter/segmenter.rb:179-180 | ȸ is appended exactly when the line does not end in a mark and the language is not ar/fa. Outside ar/fa, the line then ends in a mark or ȸ. Decoding is unchanged. |
| Lines.ShieldForSplit | lib/pragmatic_segmenter/segmenter.rb:181-248 | The shields applied before the split never change the decoded line. |
| Lines.SplitInputHasNoLineFeed | lib/pragmatic_segmenter/segmenter.rb:161-249 | The text handed to the split scan holds no line feed, so `$` matches only at its end. |
| Lines.DecodeAll | lib/pragmatic_segmenter/segmenter.rb:251-253 | Decoding the pieces one by one and joining them gives the joined pieces decoded, so no sentinel is decoded differently because of where the text was cut. |
| Lines.LineSegments | lib/pragmatic_segmenter/segmenter.rb:160-258 | Analysing a line fails exactly when the profile lookup fails, and the error names the malformed constant name. |
| Lines.NoMarkLineRoundTrip | lib/pragmatic_segmenter/segmenter.rb:254-258 | A line without a terminal mark becomes exactly one segment, and reinserting its ellipses gives the line back. |
| Lines.NoMarkDecodes | lib/pragmatic_segmenter/segmenter.rb:254-258 | The no-mark branch's two replacements, with the ellipses reinserted, decode the whole line. |
| Lines.ClassScanLineRoundTrip | lib/pragmatic_segmenter/segmenter.rb:223-253 | For ar, fa, hi, hy, el, my, am and ur, the segments of a line joined together, with ellipses reinserted, give the line back: nothing is lost or duplicated. |
| Lines.ClassSplitDecodes | lib/pragmatic_segmenter/segmenter.rb:227-253 | The decoded pieces of a mark-class split join back to the decoded line. |
| Lines.AnalyzeLine | lib/pragmatic_segmenter/segmenter.rb:160-258 | `analyze_lines` appends the line's segments to the segments so far, or returns the lookup error. |
| Lines.SplitMarkedLine | lib/pragmatic_segmenter/segmenter.rb:179-253 | The branch for a line with a mark appends the decoded pieces of the shielded, split line. |
| Lines.ShieldMarkedLine | lib/pragmatic_segmenter/segmenter.rb:181-248 | The per-language shields run in the source's order. |
| Lines.AppendDecoded | lib/pragmatic_segmenter/segmenter.rb:251-253 | The loop appends `sub_symbols` of each piece, in order. |
| Sentences.SplitOn | lib/pragmatic_segmenter/segmenter.rb:391 | Cutting at carriage returns gives at least one line, and no line holds a carriage return. |
| Sentences.SplitOnJoins | lib/pragmatic_segmenter/segmenter.rb:391 | Joining the lines with carriage returns gives the text back. |
| Sentences.SegmentsOfLines | lib/pragmatic_segmenter/segmenter.rb:392-395 | The loop over the lines skips empty lines and stops at the first lookup error. |
| Sentences.LinesStopAtError | lib/pragmatic_segmenter/segmenter.rb:392-395 | Once one line has failed, the error is the result for all the lines. |
| Sentences.SegmentDroppedIff | lib/pragmatic_segmenter/segmenter.rb:398 | A segment contributes nothing to the sentence list of its line exactly when it is shorter than two characters or is three or more underscores. |
| Sentences.QuoteSplitJoins | lib/pragmatic_segmenter/segmenter.rb:402-403 | When every quote boundary is a space, joining the pieces with spaces gives the line back. |
| Sentences.SentencesOfSegment | lib/pragmatic_segmenter/segmenter.rb:397-409 | The loop body gives the sentences of one segment. |
| Sentences.SentencesOfSegments | lib/pragmatic_segmenter/segmenter.rb:396-410 | The loop over the segments concatenates their sentences in order. |
| Sentences.SentenceHasSegment | lib/pragmatic_segmenter/segmenter.rb:396-410 | Every sentence comes from some segment. |
| Sentences.RejectEmpty | lib/pragmatic_segmenter/segmenter.rb:411 | Exactly the non-empty sentences are kept, and none is added. |
| Sentences.RejectEmptyAppend | lib/pragmatic_segmenter/segmenter.rb:411 | Dropping empty sentences keeps the order: it distributes over concatenation. |
| Sentences.RejectEmptyCounts | lib/pragmatic_segmenter/segmenter.rb:411 | Each non-empty sentence is kept as many times as it occurs, and no empty one is kept. |
| Sentences.RejectEmptyKeepsNonEmpty | lib/pragmatic_segmenter/segmenter.rb:411 | A list with no empty sentence is kept as it is. |
| Sentences.SplitLines | lib/pragmatic_segmenter/segmenter.rb:389-412 | `split_lines` never returns an empty sentence. |
| Segmentation.Segmenter.SplitLines | lib/pragmatic_segmenter/segmenter.rb:389-412 | The method's two loops compute `Sentences.SplitLines` of the working text. |
| Segmentation.SegmentText | lib/pragmatic_segmenter/segmenter.rb:49-58 | A missing text gives no sentences. Otherwise every sentence is non-empty. |
| Segmentation.Segmenter.Segment | lib/pragmatic_segmenter/segmenter.rb:49-58 | Runs the passes in the source's order and returns what `SegmentText` specifies for the text given at construction. It leaves the working text as `TextPasses` of that text, or unchanged when the text is nil. |
| Segmentation.Segmenter.constructor | lib/pragmatic_segmenter/segmenter.rb:20-33 | The text is kept as given, and the language defaults to `en`. |

## Left out

- `PragmaticSegmenter::Cleaner` (line 25): the cleaner is not part of this model. The constructor models `clean: false` and keeps the text as given.
- `PragmaticSegmenter::List#add_line_break` (line 51) is not part of this model. `segment` treats its output as the text it receives.
- `PragmaticSegmenter::Abbreviation` (the lexicon) is not part of this model. The abbreviation list, the prefix list and the number-abbreviation list are parameters. So are the matches `abbrev_match` and the next-word characters `character_array` that `process_abbr` pairs by index: `Segmenter.ProcessAbbr` takes them as one list of occurrences. The scans at lines 84-88 that produce them are not modelled.
- Abbreviations.ApplyAbbrRule: the exact "shielded iff the pattern matches" clause holds for every one-gsub rule. For the rules of two or three gsubs it also holds when the abbreviation holds no ∯: a period of the abbreviation is a wildcard, as in the source, so a ∯ written by one gsub matches it as the period did, and no gsub changes what the next one's lookbehind sees. An abbreviation that holds ∯ itself gets only the "only periods change, each to ∯" guarantee from a rule of several gsubs, since a new ∯ can complete the next lookbehind. Other regex metacharacters in the abbreviation are taken literally.
- Spans.ShieldSpans: a mark is proved shielded only inside an occurrence of a span that no other occurrence overlaps, in the line as the earlier span lists left it. The spans themselves are scanned on the unchanged copy of the line, as at line 181.
- MultiPeriod.ShieldAllShieldsAlone: an occurrence overlapped by an earlier-scanned abbreviation (`b.c. a.b.c.`) keeps the periods that the earlier gsub's ∯ hid from this one. Only the alone occurrences are stated to be fully shielded.
- Character classes are ASCII: `[[:upper:]]`, `\w`, `\b`, `[A-Z]` and `downcase`/`upcase` on letters outside ASCII are not modelled. Characters from 128 up count as word characters in constant names.
- `sub_punct` escapes `( ) [ ] -` in the content before its replacements and unescapes them after. The model treats this round trip as no change. It therefore does not capture a text that already holds a backslash before one of those characters, nor backslash sequences in a gsub replacement string.
- The lookup of `PUNCT_<LANG>` for a code holding `::` or forming another defined constant's name: the model knows only the nine tables at lines 9-17.
- Lines 259-268 of `analyze_lines` build an array that is never used; they are left out.
- The constructor's `return [] if text.nil?` (line 21) leaves the language unset. The model sets the default language instead, which no later step reads.
- `doc_type` (line 32) is stored and never read by the core.
- `String#split("\r")` drops trailing empty lines, while `Sentences.SplitOn` keeps them. The loop skips empty lines, so the segments are the same.
- Lines.ClassScanLineRoundTrip: a round trip is proved for the eight mark-class languages only. The default scan (line 249) can drop text between its matches, so no round trip holds for it. Its pieces are shown to end on a sentence-closing character (`Split.DefaultPiecesEnd`) instead.
- Sentences.SegmentSentences: `\s{3,}` collapses to one space and the quote split drops the boundary whitespace. So the sentences are not stated to join back into the segment, except through `Sentences.QuoteSplitJoins` when the boundaries are spaces.
