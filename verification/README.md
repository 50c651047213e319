# Dajare scorer: a Dafny model

This project models the two algorithmic parts of a Japanese pun ("dajare")
detector and proves properties of them.

1. **Mora derivation** (`word.py`). One tagged morpheme from the tagger's
   output becomes a `Word`. Its kana reading is scanned into romanised units.
   Each unit is parsed into a `Mora`, a (consonant, vowel) pair of strings.
   A `Sentence` is a sequence of words with two cached counts. It also has a
   symbol-free view.
2. **Pun scorer** (`dajare_score.py`). Each eligible seed word is a content
   word with more than one mora. The seed is blanked out of the symbol-free
   sentence and replaced by a single placeholder mora. The seed's moras, and a
   fixed set of variants of them, are then slid over the remaining mora stream.
   A window counts only if every vowel agrees with the pattern. It then scores
   the fraction of agreeing consonants. The sentence score is the best window
   score over all seeds and variants, or 0.

Modules, leaves first:

| file | module | content |
|---|---|---|
| results.dfy | `Results` | `Result`/`Error` for the source's crash paths |
| text.dfy | `Text` | Python's `str.split(c)` and `str.splitlines()`, with their inverses |
| moras.dfy | `Moras` | `Mora`, the reserved markers, `ParseMora`, the classifiers |
| reading.dfy | `Reading` | the reading scan (`RomanizeReading`) and the greedy segmentation it computes (`Tokenize`) |
| words.dfy | `Words` | `Word`, `ParseWord`, `WordMoras`, `NullWord` |
| sentences.dfy | `Sentences` | `Sentence`, `RemovedSymbol`, `FromSentence`, `FromSentences` |
| maxima.dfy | `Maxima` | maximum of a list and running maximum |
| window.dfy | `Window` | the window matcher `WindowMatch` (`__calc`) |
| score.dfy | `DajareScore` | variants, seed streams, `CalcScore` (`calc_score`) |
| scenarios.dfy | `Scenarios`, `ScenarioPlain` | 布団が吹っ飛んだ scores 1; 今日は晴れ scores 0 |

External collaborators become parameters:

- The romanisation library `romkan.to_roma` is the parameter
  `roma: string -> string`. Nothing is assumed about its outputs.
- The configured content-word categories (`setting.CONTENT_WORD_SET`) are the
  parameter `contentPos: set<string>`.

Floating-point ratios are exact `real`s.

### Where the model departs from a naive reading

- **The reading scan.** The source scans `(prev, now)` pairs and uses a skip
  flag. `Reading.RomanizeReading` keeps that loop as written. Its contract
  proves that the loop computes a simple greedy segmentation (`Tokenize`). At
  each unit start, the kana is merged with the next kana when that next kana
  is a small glide (ャュョヮ) or the prolonged-sound mark `ー`. Otherwise it is
  romanised alone.
- **The skip quirk.** Because of the skip, a glide or `ー` directly after a
  merged pair is a unit of its own. So キャー gives `roma("キャ")` and then
  `roma("ー")`. It does not give a repeated vowel (`Reading.PairThenAttaching`).
  So `ー` does not always give a vowel-only second mora. After a glide pair it
  is romanised alone. After a kana such as ン, whose romanisation is `n`, it
  repeats `n`, which parses as a second syllabic nasal (`Reading.LongVowel`).
- **Crash paths.** Each place where the source raises an uncaught `IndexError`
  is an explicit `Err` in the model:
  - fewer than four tab fields;
  - an empty reading on the general path (`kanas[-1]`);
  - `ー` after a kana that romanises to `""` (`roman[-1]`);
  - tagged text with no lines (`lines[-1]`).

  None of these paths is caught in the source: the tagger's output is trusted
  upstream.

## Model

| member | source | states |
|---|---|---|
| `Moras.ParseMora` | word.py:14-34 | only the empty unit gives the placeholder `("","")`; `xtsu` gives the geminate mora and `n` the syllabic nasal; any other one-letter unit is vowel-only with that vowel; any other longer unit splits so that consonant + vowel is the unit and the vowel is one letter |
| `Moras.RenderParseMora` | word.py:14-34 | parsing is invertible on units without the reserved `*`: rendering the parsed mora gives the unit back |
| `Moras.ParseMoraInjective` | word.py:14-34 | distinct `*`-free units give distinct moras under the structural equality of word.py:69-73 |
| `Moras.SpecialMorasParse` | word.py:43-49 | the geminate and nasal constructors equal the moras parsed from `xtsu` and `n`, and the placeholder is in none of the three classes |
| `Moras.ClassifiersExclusive` | word.py:51-64 | vowel-only, geminate and syllabic nasal are mutually exclusive |
| `Reading.Tokenize` | word.py:109-126 | a reading of k kana yields between k/2 and k units, and none only for the empty reading; the only failure is `ー` after a kana romanising to "" |
| `Reading.RomanizeReading` | word.py:99-127 | the skip-flag scan yields exactly the greedy segmentation `Tokenize`, and fails on the empty reading |
| `Reading.PlainReading` | word.py:109-126 | with no glide and no `ー`, unit k is the romanisation of kana k alone, one unit per kana |
| `Reading.TokenizeAppend` | word.py:109-126 | before a kana that does not attach, the units of `a + b` are those of `a` followed by those of `b` |
| `Reading.GlidePair` | word.py:115-117 | a kana followed by a small glide is one unit, the romanisation of the pair, and the scan starts afresh after the pair whatever the next kana is |
| `Reading.PairThenAttaching` | word.py:110-126 | after a glide pair the next kana starts a unit of its own even if it is a glide or `ー` (キャー ends with `roma("ー")`) |
| `Reading.LongVowel` | word.py:118-122 | `ー` emits the preceding kana's romanisation, then that romanisation's last letter, as two units, and the scan starts afresh after the mark whatever the next kana is; when the romanisation is empty the reading fails |
| `Words.WordMoras` | word.py:129-137 | a symbol word is exactly `[("","")]` and the topic particle は is exactly `[("w","a")]` whatever the reading; the mora list is never empty; failures are only the reading's |
| `Words.PlainReadingMoras` | word.py:129-137 | a general-path word with a plain reading has one mora per kana, mora k parsed from the romanisation of kana k |
| `Words.ParseWord` | word.py:77-87 | fails with a missing field exactly when the line has fewer than four tab fields; a parsed word has at least one mora, and a symbol word has exactly the placeholder |
| `Words.ParseWordFields` | word.py:83-86 | fields are read as surface, reading, base form, tag; the part of speech is the tag's longest prefix without `-` |
| `Words.NullWordParses` | dajare_score.py:5 | the blank seed's tagged line parses to a symbol word whose only mora is `("","")` |
| `Text.Split` | word.py:83-86 | `split(c)` gives at least one piece, one more than the occurrences of `c`, and no piece contains `c` |
| `Text.JoinSplit` | word.py:83-86 | joining the pieces of `split(c)` gives the line back, and no piece contains `c` |
| `Text.SplitJoin` | word.py:83-86 | splitting a join of separator-free fields gives the fields back |
| `Text.SplitLines` | word.py:191 | `splitlines` gives no line containing a line boundary, and no lines exactly for the empty text |
| `Text.SplitJoinLines` | word.py:191 | `splitlines` recovers the lines of newline-terminated text |
| `Sentences.FromWords` | word.py:163-165 | the word count is the number of words and the char count is the surface length of the non-symbol words |
| `Sentences.RemovedSymbol` | word.py:209-217 | the result keeps exactly the non-symbol words, has consistent counts, and preserves the char count |
| `Sentences.RemoveSymbolsAppend` | word.py:217 | filtering distributes over concatenation, so the original order is kept |
| `Sentences.RemoveSymbolsMembers` | word.py:217 | a word survives if and only if it is not a symbol; the list does not grow |
| `Sentences.RemoveSymbolsNoSymbols` | word.py:217 | a symbol-free list is returned unchanged |
| `Sentences.RemovedSymbolIdempotent` | word.py:209-217 | removing symbols twice is removing them once |
| `Sentences.CharCountRemoveSymbols` | word.py:165 | symbol words contribute nothing to the char count |
| `Sentences.CharCountRender` | word.py:219-226 | the char count never exceeds the length of the rendered sentence and equals it without symbols |
| `Sentences.ParseLines` | word.py:194 | succeeds exactly when every line parses, and then word i is line i's parse |
| `Sentences.FromSentence` | word.py:180-194 | fails for empty text and only then with `EmptyInput`; a parsed sentence has consistent counts |
| `Sentences.FromSentenceDropsEndMarker` | word.py:191-194 | of tagger text ending in `EOS`, exactly that marker is dropped and each remaining line becomes word i |
| `Sentences.FromSentenceKeepsLastLine` | word.py:191-194 | without a final `EOS`, the text parses exactly when every line parses, and word i is then the parse of line i, the last line included |
| `Sentences.FromSentences` | word.py:196-207 | one sentence per text, each that text's parse; fails exactly when some text fails |
| `Maxima.Max` | dajare_score.py:34-35 | the head of the descending sort is an element that bounds every element |
| `Maxima.MaxFold` | dajare_score.py:45-57 | the running maximum bounds its start and every element, and is the start or an element |
| `Window.Hits` | dajare_score.py:30-32 | the consonant count is at most the pattern length, and equals it exactly when all consonants agree |
| `Window.WindowScore` | dajare_score.py:30-33 | a window score lies in [0,1] and is 1 exactly when every consonant agrees |
| `Window.QualifyingScores` | dajare_score.py:19-33 | every collected window score lies in [0,1] |
| `Window.WindowMatch` | dajare_score.py:8-35 | the result lies in [0,1] and is 0 for a pattern of at most one mora |
| `Window.QualifyingScoresSound` | dajare_score.py:20-33 | every collected score belongs to a window that passes the vowel gate |
| `Window.QualifyingScoresComplete` | dajare_score.py:20-33 | every window that passes the vowel gate has its score collected |
| `Window.WindowMatchIsMaximum` | dajare_score.py:19-35 | the result is at least the score of every window that passes the vowel gate |
| `Window.NoWindowScoresZero` | dajare_score.py:23-35 | with no window passing the vowel gate the result is 0, whatever the consonants |
| `Window.WindowMatchAttained` | dajare_score.py:23-35 | once some window passes the vowel gate, the result is k/n for the hit count k of some passing window |
| `Window.ShortStream` | dajare_score.py:20 | a stream shorter than the pattern gives 0 |
| `Window.ExactOccurrence` | dajare_score.py:17-35 | a pattern of two or more moras occurring verbatim gives exactly 1 |
| `DajareScore.VariantsFromMembers` | dajare_score.py:47-56 | the variants from position k on are exactly those contributed by some position j >= k |
| `DajareScore.VariantsExactly` | dajare_score.py:46-56 | a pattern is scored if and only if it is the seed, an insertion of Q or N after some position, a duplication of a vowel-only mora, or a deletion of a Q/N mora |
| `DajareScore.VariantsCount` | dajare_score.py:46-56 | a seed of n moras yields 1 + 2n + (vowel-only count) + (Q/N count) patterns |
| `DajareScore.StreamShape` | dajare_score.py:43-44 | seed i's stream is the other words' moras with one `("","")` at the seed's slot, so its length is theirs plus one |
| `DajareScore.SeedScore` | dajare_score.py:45-56 | the seed score lies in [0,1], bounds the match of every scored pattern, and is 0 or one of those matches |
| `DajareScore.ScoreFromIsMaximum` | dajare_score.py:40-57 | the running maximum bounds the match of every pattern of every eligible seed at or after the start |
| `DajareScore.ScoreFromAttained` | dajare_score.py:40-57 | the running maximum is its start or the match of some pattern of an eligible seed |
| `DajareScore.CalcScore` | dajare_score.py:38-58 | the score lies in [0,1], is at least every evaluated pattern's match, and is 0 or equal to one of them |
| `DajareScore.NoSeedScoresZero` | dajare_score.py:39-42 | with no content word of two or more moras the score is 0 |
| `Scenarios.FutonMoras` | word.py:129-137 | フトン scans to f-u, t-o, N |
| `Scenarios.FuttondaMoras` | word.py:129-137 | フットンダ scans to f-u, Q, t-o, N, d-a |
| `Scenarios.GaMoras` | word.py:129-137 | ガ scans to g-a |
| `Scenarios.GeminateVariantMatches` | dajare_score.py:46-50 | inserting Q after the first mora of f-u t-o N matches the stream `("",""), g-a, f-u, Q, t-o, N, d-a` exactly |
| `Scenarios.FutonGaFuttonda` | dajare_score.py:38-58 | 布団が吹っ飛んだ scores 1 |
| `ScenarioPlain.KyouMoras` | word.py:109-137 | キョウ scans to ky-o (the glide pair as one mora), then the vowel-only u |
| `ScenarioPlain.WaMoras` | word.py:131-132 | the topic particle は gives w-a |
| `ScenarioPlain.HareMoras` | word.py:129-137 | ハレ scans to h-a, r-e |
| `ScenarioPlain.FirstVowelAbsent` | dajare_score.py:23-29 | a pattern whose first vowel is absent from the stream scores 0 |
| `ScenarioPlain.VariantHead` | dajare_score.py:47-56 | variants never change the first mora unless they delete it, since insertions go after a position |
| `ScenarioPlain.KyouWaHare` | dajare_score.py:38-58 | 今日は晴れ scores 0 |

## Left out

- `THRESHOLD` (dajare_score.py:4): the scorer never applies it. Thresholding belongs to the caller.
- `Mora.__repr__`, `Word.__repr__` and `Sentence.__iter__`: presentation and iteration only. Iteration is plain sequence order here.
- `Mora.from_tuple`: this is the datatype constructor `Mora(c, v)`.
- `Word.__eq__` and `Word.__hash__`: the hash is identity-based, and the scorer does not use either.
- `romkan.to_roma`: a foreign library, kept as the uninterpreted parameter `roma`.
- `setting.CONTENT_WORD_SET`: setting.py is not part of this model. The set is the parameter `contentPos`.
- `Sentence` is a mutable `list` subclass in the source. Here it is an immutable value, because nothing mutates it after construction.
- Floating point: scores are exact rationals (`real`). The source divides in binary floating point, which can differ in the last bit.
- Exception kinds: all four crash paths raise the same `IndexError` in the source. The model gives each its own `Error` value.
- bag_of_words.py, model.py, predict.py and app.py: feature vectors, PCA, subprocess calls and the web layer are outside this model.
