# djantimat censor core in Dafny

This project models the core of `djantimat/helpers.py`, the profanity filter of the
djantimat Django application, and proves properties of the model. Three parts are
modelled. The first is the Levenshtein `distance`. The second is the word extraction
`word_pattern` and the re-segmentation of the extracted words into scanning units. The
third is the lexicon-driven fuzzy scanner `PymorphyProc`: its generator `_gen` and the
operations `test`, `replace` and `wrap` built on that generator. `RegexpProc.wrap` is
also modelled, over an abstract pattern matcher.

The code works by updating variables in loops, so each loop of the source is a Dafny
`method` with a `while` loop. Each method is proved equal to a recursive specification
function, and the lemmas state their properties about those functions.

Modules, one file each:

- `PyStr` (`pystr.dfy`) models the Python built-ins the code relies on:
  - `''.join` and `sep.join`;
  - `str.split(sep)`, which always returns at least one piece;
  - `filter(lambda x: x, ...)` on a list of strings;
  - the clamped slice `s[p:p+n]`;
  - `str.replace(old, new)`, including the empty-`old` case, where `new` is inserted
    before every character and at the end.
- `Levenshtein` (`levenshtein.dfy`) has two parts:
  - `EditDistance`, a recursive edit distance over prefixes, with its lemmas;
  - `Distance`, the two-row dynamic programme of `distance`. It keeps the current row
    in an `array`, the way the source keeps it in a list it writes cell by cell.
- `Tokenizer` (`tokenizer.dfy`) has four parts:
  - the character class of `word_pattern`;
  - a scanner for the maximal runs of that class, which is what `re.findall` returns;
  - the literal re-segmentation pipeline of `_gen` (join on blanks, split, build
    `prepared_data`, collapse double blanks, split, drop empty pieces);
  - a reference segmentation `Segment`, which the pipeline is proved to compute.
- `Censor` (`censor.dfy`) models the substitution half shared by the censor operations:
  - the chain of `text.replace(...)` calls;
  - the `words` dict of `wrap`, as a map plus its keys in insertion order (a Python
    dict iterates in insertion order);
  - the item loop that applies the dict.
- `PymorphyProc` (`pymorphy_proc.dfy`) models `_gen`, `test`, `replace` and `wrap`. The
  lexicon is a `seq<string>` parameter.
- `RegexpProc` (`regexp_proc.dfy`) models `wrap`. The compiled regular expression is a
  parameter `matches: string -> bool`, where `matches(token)` stands for
  `regexp.findall(token)` being non-empty.

Modelling decisions:

- Floats. The source's `distance(fragment, word) <= len(word) * 0.25` is the integer
  test `4 * d <= len(word)`. The two agree exactly, because `0.25` and small integer
  lengths are exact in binary floating point. So the tolerance is `len(word) // 4`
  edits, rounded down.
- The position rule `part <= 2 or part + len(word) < len(word)` is kept exactly as the
  code has it. `PositionRule` proves that the second disjunct never holds.
- Empty lexicon words and empty patterns are not excluded. Python's `str.replace`
  with an empty `old` is modelled as Python defines it.

Behaviour of the code worth knowing:

- The tolerance is the rounded-down `len(word) // 4`, not a rounded-up quarter. A
  5-letter word accepts one edit, not two.
- A lexicon word that stands in the text as a token of its own is always reported only
  when it is longer than two characters (`PymorphyProc.ExactMatchDetected`). A shorter
  token is glued to neighbouring short tokens into one unit, and can then be missed:
  `"xy zw ab"` against `["ab"]` yields nothing, because `"ab"` sits at offset 4 of the
  unit `"xyzwab"` (`PymorphyProc.ShortWordMissed`).
- Gluing short tokens can report a fragment that does not occur in the text. When no
  yielded fragment occurs in the text (as for `"ab c"` with `["abc"]`), `test` is
  positive while `replace` and `wrap` leave the text unchanged
  (`PymorphyProc.GluedFragmentNotReplaced`, `PymorphyProc.GluedFragmentNotWrapped`).
- The scanner compares windows of the word's length at offsets 0 to 2 of a unit, not
  the whole token. So a longer token whose first letters are close to a lexicon word is
  reported even when the whole token is far from it: `"прамерка"` against `["пример"]`
  yields `"прамер"`, one substitution from the word (`PymorphyProc.WindowPrefixDetected`).
- The character class is taken literally:
  - `А-я` is U+0410 to U+044F, so `ё` and `Ё` are not word characters;
  - `A-z` is U+0041 to U+007A, so `[`, `\`, `]`, `^`, `_` and the backtick are word
    characters.

## Model

| member | source | states |
|---|---|---|
| `Levenshtein.Min3` | djantimat/helpers.py:27 | `min(add, delete, change)` is one of the three values and no larger than any of them |
| `Levenshtein.Distance` | djantimat/helpers.py:12-29 | the two-row programme, with its operand swap, returns exactly the edit distance of `a` and `b` |
| `Levenshtein.Symmetric` | djantimat/helpers.py:15-18 | the edit distance does not depend on operand order, so the swap of the shorter string into the inner dimension keeps the result |
| `Levenshtein.SelfDistance` | djantimat/helpers.py:12-29 | a string is at distance 0 from itself |
| `Levenshtein.ZeroDistanceEqual` | djantimat/helpers.py:12-29 | distance 0 holds only between equal strings |
| `Levenshtein.EmptyDistance` | djantimat/helpers.py:20-22 | the distance to or from the empty string is the other string's length (the initial row `range(n+1)` and the row heads `[i]`) |
| `Levenshtein.LengthDifferenceBound` | djantimat/helpers.py:12-29 | the distance is at least the difference of the two lengths |
| `Levenshtein.LongerLengthBound` | djantimat/helpers.py:12-29 | the distance is at most the longer length |
| `Levenshtein.SubstitutionBound` | djantimat/helpers.py:24-27 | two strings that differ by one substituted character are at distance at most 1 |
| `Levenshtein.MatrixBorder` | djantimat/helpers.py:20-22 | row 0 and column 0 of the cost matrix hold `j` and `i` |
| `Levenshtein.MatrixCell` | djantimat/helpers.py:24-27 | each cell is the minimum of insertion, deletion and (possibly free) substitution from its three neighbours |
| `Levenshtein.NextRow` | djantimat/helpers.py:22-27 | one pass of the outer loop turns row `i - 1` of the cost matrix into a fresh row `i`, cell by cell |
| `PyStr.Window` | djantimat/helpers.py:106 | `datum[part:part+len(word)]` is the slice at `part`, of length `len(word)` when it fits and running to the end of `datum` otherwise |
| `PyStr.SplitJoin` | djantimat/helpers.py:94-96 | splitting `" ".join(tokens)` on blanks gives back the tokens when none holds a blank and there is at least one |
| `PyStr.JoinSplit` | djantimat/helpers.py:94-96 | joining the pieces of `s.split(sep)` with `sep` gives back `s` |
| `PyStr.FilterNonEmpty` | djantimat/helpers.py:102 | `filter(lambda x: x, ...)` keeps exactly the non-empty pieces |
| `PyStr.ReplaceAbsent` | djantimat/helpers.py:79 | `text.replace(old, new)` with a non-empty `old` that does not occur returns `text` |
| `PyStr.ReplaceSelf` | djantimat/helpers.py:79 | `text.replace(old, old)` returns `text`, also for an empty `old` |
| `PyStr.ReplaceWhole` | djantimat/helpers.py:79 | replacing inside a string that is exactly `old` gives exactly `new` |
| `PyStr.ReplaceEmptyLength` | djantimat/helpers.py:79 | with an empty `old`, `new` is inserted `len(text) + 1` times |
| `Tokenizer.FindAll` | djantimat/helpers.py:9 | the scanner returns the tokens of the specification `Tokens`: the maximal runs of `[А-яA-z0-9\-\*]`, left to right |
| `Tokenizer.TokensWellFormed` | djantimat/helpers.py:9 | every token is non-empty and made of word-class characters only |
| `Tokenizer.TokensConcat` | djantimat/helpers.py:9 | the tokens hold exactly the word-class characters of the text, in order |
| `Tokenizer.TokensSeparator` | djantimat/helpers.py:9 | a character outside the class splits the tokens into those on its left and those on its right |
| `Tokenizer.TokensRun` | djantimat/helpers.py:9 | a non-empty run of word-class characters is one token |
| `Tokenizer.TokensNone` | djantimat/helpers.py:9 | a text without word-class characters has no tokens |
| `Tokenizer.BuildSnoc` | djantimat/helpers.py:96-100 | each piece appends `" " + datum + " "` when longer than 2 and `datum` otherwise |
| `Tokenizer.BuildPieces` | djantimat/helpers.py:95-100 | the loop over the pieces builds exactly `prepared_data` as `Build` defines it |
| `Tokenizer.CollapseBlanks` | djantimat/helpers.py:101-102 | `replace("  ", " ")` does not change the non-empty pieces of the following split on blanks |
| `Tokenizer.BuildSegments` | djantimat/helpers.py:95-102 | the non-empty pieces of the built string, split on blanks, are the units of the reference segmentation |
| `Tokenizer.BuildJoinSplit` | djantimat/helpers.py:94-100 | iterating over `" ".join(tokens).split(" ")` builds the same string as iterating over the tokens, also for no tokens |
| `Tokenizer.PreparedSegments` | djantimat/helpers.py:94-102 | the whole join, split, build, collapse, split and filter pipeline equals the reference segmentation `Segment` |
| `Tokenizer.PreparedUnits` | djantimat/helpers.py:94-102 | the pipeline on the tokens of a text gives its units, which are non-empty, all word characters, and hold the tokens' characters |
| `Tokenizer.SegmentWellFormed` | djantimat/helpers.py:94-102 | every unit is non-empty and made of word-class characters |
| `Tokenizer.SegmentConcat` | djantimat/helpers.py:94-102 | the units hold the tokens' characters, in order, with none lost or added |
| `Tokenizer.SegmentLong` | djantimat/helpers.py:97-98 | a token longer than 2 is a unit of its own and separates the units on its two sides |
| `Tokenizer.SegmentShort` | djantimat/helpers.py:99-102 | a run of tokens of length at most 2 is glued into a single unit |
| `Tokenizer.LongTokenIsUnit` | djantimat/helpers.py:97-98 | every extracted token longer than 2 is one of the units |
| `Tokenizer.SingleWordUnit` | djantimat/helpers.py:94-102 | a text that is one run of more than two word characters is its own single unit |
| `Tokenizer.Prepare` | djantimat/helpers.py:94-102 | the first half of `_gen` returns the reference units; they are non-empty, all word characters, and concatenate to the concatenated tokens |
| `Censor.WrapTableSize` | djantimat/helpers.py:84-88 | the dict has exactly as many entries as its key order has keys, so `items()` visits each stored word once |
| `Censor.DistinctCard` | djantimat/helpers.py:84-88 | a key order without repeats has as many distinct keys as it is long |
| `Censor.Dedup` | djantimat/helpers.py:84-87 | a word is a dict key exactly when it was stored at least once |
| `Censor.Store` | djantimat/helpers.py:86 | storing a word appends it to the key order only when it is new, and sets its entry to the wrapped word |
| `Censor.FillTable` | djantimat/helpers.py:84-86 | filling the dict from the yielded words gives the wrap table of those words and its keys in first-insertion order |
| `Censor.DedupDistinct` | djantimat/helpers.py:84-87 | no dict key occurs twice in the iteration order |
| `Censor.ReplaceEachAbsent` | djantimat/helpers.py:78-80 | a chain of replacements of non-empty words none of which occurs leaves the text unchanged |
| `Censor.ApplyItemsAbsent` | djantimat/helpers.py:87-88 | applying dict items whose non-empty keys do not occur leaves the text unchanged |
| `Censor.SubstituteItems` | djantimat/helpers.py:87-88 | the item loop replaces each key by its entry, in key insertion order |
| `PymorphyProc.ScanOffsets` | djantimat/helpers.py:105-109 | the offset loop yields the accepted clamped slices for one word, in offset order |
| `PymorphyProc.Probe` | djantimat/helpers.py:106-109 | the loop body takes the clamped slice at `part` and accepts it exactly when the distance and position test holds |
| `PymorphyProc.ScanUnit` | djantimat/helpers.py:104-109 | the word loop scans only the words at most two characters longer than the unit |
| `PymorphyProc.Gen` | djantimat/helpers.py:91-109 | `_gen` yields exactly the fragments of the specification `Fragments`, in yield order |
| `PymorphyProc.Test` | djantimat/helpers.py:71-73 | `test` counts the fragments, and is positive exactly when some unit, word and offset pass the test |
| `PymorphyProc.Replace` | djantimat/helpers.py:75-80 | `replace` replaces each yielded fragment in turn, computed from the original text; with no fragments the text is unchanged |
| `PymorphyProc.Wrap` | djantimat/helpers.py:82-89 | `wrap` substitutes each distinct fragment, in first-yield order, by its wrapped form; with no fragments the text is unchanged |
| `PymorphyProc.AtOffsetsHit` | djantimat/helpers.py:105-109 | a fragment comes from the offset loop exactly when the test accepts some offset of which it is the slice |
| `PymorphyProc.ForUnitHit` | djantimat/helpers.py:104-109 | a fragment comes from one unit exactly when some short-enough word and some offset of the unit produce it |
| `PymorphyProc.ForUnitSound` | djantimat/helpers.py:104-109 | every fragment from one unit has a lexicon word and an offset that produce it |
| `PymorphyProc.ForUnitComplete` | djantimat/helpers.py:104-109 | every accepted slice of a short-enough word at an offset of the unit is among the unit's fragments |
| `PymorphyProc.ForUnitsSound` | djantimat/helpers.py:103-109 | every yielded fragment has a unit, a lexicon word and an offset that produce it |
| `PymorphyProc.ForUnitsComplete` | djantimat/helpers.py:103-109 | every accepted slice of every unit, short-enough word and offset is yielded |
| `PymorphyProc.ForUnitsHitAt` | djantimat/helpers.py:103-109 | one given fragment is yielded exactly when some unit, word and offset produce it |
| `PymorphyProc.ForUnitsHit` | djantimat/helpers.py:103-109 | a fragment is yielded exactly when it is the accepted clamped slice of some unit, short-enough word and offset |
| `PymorphyProc.FragmentsForm` | djantimat/helpers.py:103-109 | every yielded fragment is `datum[p:p+len(w)]` for a unit, a word at most two characters longer and an offset `p <= 2` |
| `PymorphyProc.FragmentsTolerance` | djantimat/helpers.py:107 | every yielded fragment is within a quarter of a lexicon word's length of it (one edit for 4 to 7 letters) and no longer than it |
| `PymorphyProc.PositionRule` | djantimat/helpers.py:107-108 | the second disjunct of the position rule never holds; the rule accepts `len(word) // 4` edits at offsets 0 to 2, so one edit of a 4-letter word |
| `PymorphyProc.ClampedSliceDistance` | djantimat/helpers.py:106-107 | a slice cut short by the end of the unit is at least the missing characters away from the word |
| `PymorphyProc.AtOffsetsAtMostThree` | djantimat/helpers.py:105-109 | at most three offsets are accepted per unit and word |
| `PymorphyProc.ForUnitBound` | djantimat/helpers.py:104-109 | one unit yields at most three fragments per lexicon word |
| `PymorphyProc.ForUnitsBound` | djantimat/helpers.py:103-109 | `_gen` yields at most `3 * units * words` fragments |
| `PymorphyProc.EmptyText` | djantimat/helpers.py:92-102 | an empty text has no units and nothing is yielded, so `test` is 0 and `replace` and `wrap` change nothing |
| `PymorphyProc.EmptyLexicon` | djantimat/helpers.py:93 | with an empty lexicon nothing is yielded, so `test` is 0 and `replace` and `wrap` change nothing |
| `PymorphyProc.ExactUnitMatch` | djantimat/helpers.py:105-108 | a unit equal to a non-empty word is accepted at offset 0, where the slice is the word |
| `PymorphyProc.ExactMatchDetected` | djantimat/helpers.py:94-109 | a lexicon word longer than 2 that is a token of the text is yielded |
| `PymorphyProc.SubstitutedLetterDetected` | djantimat/helpers.py:103-109 | `"пр1мер"` is reported against the lexicon `["пример"]` (one substituted letter) |
| `PymorphyProc.SubstitutedLetterHit` | djantimat/helpers.py:105-108 | `"пр1мер"` is accepted against `"пример"` at offset 0 |
| `PymorphyProc.WindowPrefixDetected` | djantimat/helpers.py:103-109 | `"прамерка"` yields its window `"прамер"` against `["пример"]`, although the whole token is outside the tolerance |
| `PymorphyProc.WindowPrefixHit` | djantimat/helpers.py:105-108 | the six-letter window at offset 0 of `"прамерка"` is `"прамер"` and is accepted against `"пример"` |
| `PymorphyProc.AtOffsetsNone` | djantimat/helpers.py:105-109 | offsets none of which the test accepts yield nothing |
| `PymorphyProc.ShortWordMissed` | djantimat/helpers.py:94-109 | `"xy zw ab"` glues into the one unit `"xyzwab"` and yields nothing against `["ab"]`, although `"ab"` is a token of the text |
| `PymorphyProc.ShortWordUnits` | djantimat/helpers.py:94-102 | the three short tokens of `"xy zw ab"` form the one unit `"xyzwab"` |
| `PymorphyProc.ShortWordOffsets` | djantimat/helpers.py:105-109 | no offset of `"xyzwab"` is accepted against `"ab"`: the windows at 0 to 2 differ from it and later offsets fail the position rule |
| `PymorphyProc.GluedUnits` | djantimat/helpers.py:94-102 | the tokens `"ab"` and `"c"` of `"ab c"` are glued into the one unit `"abc"` |
| `PymorphyProc.GluedOffsets` | djantimat/helpers.py:105-109 | the unit `"abc"` yields itself at offset 0 and nothing at offsets 1 and 2 |
| `PymorphyProc.GluedFragments` | djantimat/helpers.py:91-109 | `_gen("ab c")` with the lexicon `["abc"]` yields exactly `["abc"]` |
| `PymorphyProc.GluedAbsent` | djantimat/helpers.py:79 | `"abc"` does not occur in `"ab c"`, so replacing it changes nothing |
| `PymorphyProc.GluedFragmentNotReplaced` | djantimat/helpers.py:75-80 | that glued fragment is yielded, yet `replace` leaves `"ab c"` unchanged |
| `PymorphyProc.GluedFragmentNotWrapped` | djantimat/helpers.py:83-89 | that glued fragment is yielded, yet `wrap` leaves `"ab c"` unchanged |
| `RegexpProc.Candidates` | djantimat/helpers.py:169-173 | a token is stored exactly when it has at least three characters and matches |
| `RegexpProc.CandidatesStep` | djantimat/helpers.py:170-173 | reading one token stores it only when it is long enough and matches |
| `RegexpProc.CandidatesNone` | djantimat/helpers.py:169-173 | when no token is both long enough and matched, nothing is stored |
| `RegexpProc.Collect` | djantimat/helpers.py:168-173 | the first loop builds the wrap table of the stored tokens and its keys in first-insertion order |
| `RegexpProc.Wrap` | djantimat/helpers.py:166-176 | `wrap` substitutes exactly the distinct matching tokens of length at least 3, in first-occurrence order, by their wrapped forms; with none the text is unchanged |

## Left out

- `RegexpProc.PATTERN_1` and `PATTERN_2`, `regexp.findall` and `regexp.sub`, and so
  `RegexpProc.test` and `RegexpProc.replace`. They depend on the backtracking
  semantics of Python's `re` module (`\w`, `\s`, lookarounds, `re.I` under Unicode),
  which is a foreign library. The pattern is the parameter `matches` of
  `RegexpProc.Wrap`.
- `pymorphy2.MorphAnalyzer`: it is created but never used.
- `PymorphyProc.get_words`, a Django database query over `Slang`. The lexicon is a
  parameter.
- The substitution table `d`: it is data that no code reads.
- `djantimat/migrations/0001_initial.py` is not part of this model; it is a schema
  migration with no behaviour.
- The laziness of the generator `_gen`. The model returns all yielded fragments as a
  sequence, which is what every caller consumes.
- The list comprehension over `words` in `_gen` is modelled as an `if` inside the word
  loop. The order in which words are scanned is the same.
- Nested loops and loop bodies become methods of their own, with the same steps in the
  same order:
  - the three loops of `_gen` are `PymorphyProc.Gen`, `PymorphyProc.ScanUnit` and
    `PymorphyProc.ScanOffsets`, and the innermost body is `PymorphyProc.Probe`;
  - the `prepared_data` loop is `Tokenizer.BuildPieces`;
  - the inner loop of `distance` is `Levenshtein.NextRow`;
  - the dict-filling loops of the two `wrap`s are `Censor.FillTable` and
    `RegexpProc.Collect`.
- Idempotence of `replace`: it is not proved. A second `replace` recomputes `_gen` on
  the changed text, and the model states nothing about what the marker itself yields.
- Wrap containment, meaning that each wrapped word sits inside exactly one marker
  pair, is not proved. It does not hold in general: a fragment that is a substring of
  another, or of the prefix or suffix, is wrapped again by a later dict item.
- Python version: the model assumes Python 3.7 or later. From 3.7 on, `words.items()`
  visits the keys in insertion order; earlier versions use hash order, which the model
  does not capture. Under Python 2, `helpers.py` has no `unicode_literals`, so
  `word_pattern` would be a byte pattern; the model reads it as a class of code points,
  as Python 3 does.
- Default arguments: `repl='[censored]'` and the pair
  `('<span style="color:red;">', '</span>')` are not defaults in the model. `repl`,
  `prefix` and `suffix` are required parameters of `Replace` and `Wrap`, and every
  proved property holds for every value, the defaults included.
- Unicode beyond code points: strings are sequences of `char`, with no normalisation
  or case folding, which matches Python's `str` for the characters involved.
