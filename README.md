# finch-in-person: rubric parsing, scoring and comparison

finch-in-person drafts personal-injury demand letters with a language model and then
has a model grade them against a nine-category rubric. Three deterministic routines sit
between those model calls, and this project models them in Dafny and proves what they do:

- **the rubric response parser** inside `evaluate_demand_letter`
  (`finch-in-person/main.py`). It strips the evaluating model's free-text reply and splits it into
  lines. A line with a colon gives a category key: the text before the first colon,
  stripped. The score is the first standalone digit 1-5 after the colon, as the regular
  expression `\b[1-5]\b` finds it. The explanation is the text after that digit with
  spaces and hyphens stripped. When that text is empty, the next line is borrowed,
  stripped. Entries are assigned into a dictionary, so a later line with the same key
  wins.
- **the weighted rubric scorer** `calculate_weighted_score` (`finch-in-person/utils.py`).
  A label is cleaned: every `###` is removed, then the label is stripped and lower-cased.
  It is then resolved to a canonical category, by exact key first and otherwise by the
  first declared key contained in it. The result adds `score * weight` over the resolved
  entries that carry a score. It is not divided by the matched weight, and it is 0 when
  nothing matched.
- **the ordering of `compare_evaluations`** (`finch-in-person/main.py`). Fewer than two
  evaluations give a fixed message. Otherwise the evaluations are ranked by weighted
  score. Then, for seven categories in a fixed order, they are listed by that category's
  score. Both orders are stable descending sorts in which a missing value counts as 0.

Modules, one per concept:

- `Wrappers`: `Option` and `Result`.
- `Text`: Python's `strip`, `lower`, `replace("###", "")`, `split('\n')`, `index` and
  substring test, over ASCII.
- `OrderedDict`: a Python `dict` as an insertion-ordered list of pairs with distinct keys.
- `Sums`: sums over sequences.
- `Scorer`: `calculate_weighted_score`.
- `ResponseParser`: the parsing loop.
- `StableSort`: `sorted(..., reverse=True)`.
- `Comparison`: `compare_evaluations`.

Each loop of the source is a Dafny `method` with a `while` or `for` loop. The method is
proved equal to a specification function, and the properties are lemmas about that
function.

Modelling choices:

- Weights are integer hundredths (0.25 is 25), so every score of the model is exactly
  100 times the exact decimal value of the Python expression. Python computes it in
  binary floating point, which can differ from that value in the last bits.
- Characters are ASCII. White space is what `str.isspace` accepts among ASCII
  characters, and a word character is `[A-Za-z0-9_]`.
- Python's dictionaries keep insertion order, and assigning to an existing key keeps
  its position. `OrderedDict.Put` does the same.

Three details of the parser, as the code has them:

- The category key is only stripped; it is not lower-cased (main.py:233).
- A next-line explanation is stripped (main.py:246).
- The characters `' '` and `'-'` are stripped from both ends of the explanation
  (main.py:242).

## Model

| member | source | states |
|---|---|---|
| Text.StripBy | finch-in-person/main.py:242 | placed at `StripStart` the result fits in the input, and neither its first nor its last character is one of the dropped ones |
| Text.StripByCutsDropped | finch-in-person/main.py:242 | `strip(chars)` keeps the infix at `StripStart`, and everything it cuts off, before and after, is a dropped character |
| Text.StripByInfix | finch-in-person/main.py:242 | what `strip(chars)` keeps is the infix of the input starting at `StripStart` |
| Text.StripByCutsTail | finch-in-person/main.py:242 | every character `strip(chars)` cuts off after the kept part is a dropped one |
| Text.StripByKeeps | finch-in-person/main.py:233 | a string that already starts and ends with kept characters is returned unchanged |
| Text.StripByChars | finch-in-person/main.py:230-233 | stripping never introduces a character, so the stripped text before the colon has no colon |
| Text.Strip | finch-in-person/main.py:233 | `str.strip()` yields a string no longer than its input with no white space at either end |
| Text.TrimLeft | finch-in-person/main.py:242 | `lstrip` removes only dropped characters, and what is left starts with a kept character taken from the input |
| Text.TrimRight | finch-in-person/main.py:242 | `rstrip` removes only dropped characters, and what is left ends with a kept character taken from the input |
| Text.TrimLeftSuffix | finch-in-person/utils.py:169 | `lstrip` leaves a suffix of its input |
| Text.TrimRightPrefix | finch-in-person/utils.py:169 | `rstrip` leaves a prefix of its input |
| Text.Lower | finch-in-person/utils.py:169 | `lower()` keeps the length and maps each character to its lower-case form |
| Text.LowerChar | finch-in-person/utils.py:169 | a lower-cased character is never upper case: an upper-case letter moves 32 code points up, to its lower-case form, anything else is kept |
| Text.LowerNoMarks | finch-in-person/utils.py:169 | lower-casing does not create a `###` |
| Text.StripByNoMarks | finch-in-person/utils.py:169 | stripping a string without `###` leaves none |
| Text.LowerKeeps | finch-in-person/utils.py:169 | a string without upper-case letters is unchanged by `lower()` |
| Text.RemoveMarksComplete | finch-in-person/utils.py:169 | after `replace("###", "")` no `###` is left, including none formed by joining the remaining parts |
| Text.RemoveMarksKeeps | finch-in-person/utils.py:169 | a string without `###` is unchanged |
| Text.RemoveMarksOnlyHashes | finch-in-person/utils.py:169 | only `#` characters are removed, a multiple of three of them, and every other character survives in order |
| Text.RemoveMarksLeading | finch-in-person/utils.py:169 | a leading run of n `#` keeps n mod 3 of them, as Python's left-to-right non-overlapping scan does |
| Text.RemoveMarks | finch-in-person/utils.py:169 | `replace("###", "")`, scanning left to right and removing each non-overlapping `###`; the result is never longer than the input (its properties are the `RemoveMarks...` lemmas) |
| Text.FirstIndex | finch-in-person/main.py:229-230 | the first position of the character, if any; none exactly when the character is absent |
| Text.FirstIndexSplits | finch-in-person/main.py:230 | `split(':', 1)` is the unique split around the first colon |
| Text.IsSubstring | finch-in-person/utils.py:178 | Python's `key in category_clean`: a pattern found somewhere fits in the string, and the empty pattern and the string itself are always found |
| Text.SplitLines | finch-in-person/main.py:224 | `split('\n')` gives at least one piece, no piece holds a line feed, and joining the pieces with line feeds gives back the text |
| Text.SplitJoinLines | finch-in-person/main.py:224 | splitting undoes joining lines without line feeds |
| OrderedDict.Lookup | finch-in-person/main.py:303 | `get` finds a value exactly when the key is present, and returns a value stored under that key |
| OrderedDict.LookupAt | finch-in-person/main.py:303 | in a dictionary without repeated keys, `get` of a stored key returns the value stored with it |
| OrderedDict.Put | finch-in-person/main.py:248 | after `d[k] = v` the key maps to `v`, every other key maps as before, keys keep their positions, a new key adds one, and distinct keys stay distinct |
| OrderedDict.PutAll | finch-in-person/main.py:225-248 | assigning entries in order gives distinct keys, and every pair present comes from some entry |
| OrderedDict.PutAllLastWins | finch-in-person/main.py:248 | a key maps to the value of the last entry that assigns it |
| OrderedDict.PutAllAbsent | finch-in-person/main.py:248 | a key that no entry assigns is absent |
| Scorer.Weights | finch-in-person/utils.py:136-146 | the nine weights in hundredths, in the source's order; its properties are the rows `WeightsSumToOne`, `WeightsKeysDistinct` and `WeightsPositive` |
| Scorer.WeightOf | finch-in-person/utils.py:183-185 | a category has a weight exactly when the table names it, and the weight is the table's entry for it |
| Scorer.WeightsSumToOne | finch-in-person/utils.py:136-146 | the nine weights add up to 100 hundredths |
| Scorer.TablesInStep | finch-in-person/utils.py:136-159 | both tables have nine entries, and the i-th value of the category map is the i-th key of the weights table, whose weight is positive |
| Scorer.WeightsKeysDistinct | finch-in-person/utils.py:136-146 | the weights table names each category once |
| Scorer.CategoryMapKeysDistinct | finch-in-person/utils.py:149-159 | the category map lists each cleaned key once |
| Scorer.MapValuesWeighted | finch-in-person/utils.py:136-159 | every value of the category map is a key of the weights table, with a positive weight |
| Scorer.CategoryMap | finch-in-person/utils.py:149-159 | the table of the nine cleaned keys and their canonical names, in the source's declaration order |
| Scorer.WeightsPositive | finch-in-person/utils.py:136-146 | every weight in the table is positive |
| Scorer.CleanLabel | finch-in-person/utils.py:169 | a cleaned label has no `###`, no white space at either end and no upper-case letter |
| Scorer.CleanLabelIdempotent | finch-in-person/utils.py:169 | cleaning a cleaned label changes nothing |
| Scorer.FirstContainedKey | finch-in-person/utils.py:176-180 | the earliest declared key, from a given position on, that is a substring of the label; none only when no later key is |
| Scorer.Resolve | finch-in-person/utils.py:171-180 | a resolved name is a value of the category map whose key equals the label or is contained in it; nothing resolves only when no key equals the label or is contained in it |
| Scorer.ResolveExact | finch-in-person/utils.py:172-173 | an exact key of the category map resolves to its own value, ahead of any contained key |
| Scorer.ResolveContained | finch-in-person/utils.py:174-180 | without an exact key, the earliest declared contained key decides |
| Scorer.ResolveNone | finch-in-person/utils.py:176-180 | with neither an exact nor a contained key the label resolves to nothing |
| Scorer.ResolveWeighted | finch-in-person/utils.py:172-183 | whatever a label resolves to has a positive weight |
| Scorer.ResolveCategory | finch-in-person/utils.py:172-180 | the exact lookup followed by the `for ... break` search returns exactly the resolution |
| Scorer.CountedCategory | finch-in-person/utils.py:183 | an entry counted under a category has a score, and the category has a weight |
| Scorer.Contribution | finch-in-person/utils.py:183-188 | an entry without a score, or not counted, adds nothing to `total_score` |
| Scorer.ContributedWeight | finch-in-person/utils.py:183-189 | the weight an entry adds to `total_weight` is never negative, and is 0 exactly when the entry is not counted |
| Scorer.WeightedSum | finch-in-person/utils.py:167-188 | `total_score` after the loop is the sum of the entries' contributions in order (its properties are `WeightedSumAppend`, `WeightedSumWithinWeight`, `NoMatchedWeightNoSum`) |
| Scorer.MatchedWeight | finch-in-person/utils.py:167-189 | `total_weight` after the loop is the sum of the entries' weights in order (its properties are `NoMatchedWeightNoSum`, `MatchedWeightDistinct`) |
| Scorer.EntryTotals | finch-in-person/utils.py:183-189 | an entry adds `score * weight` and `weight` when its label resolves to a weighted category and it has a score, and nothing otherwise |
| Scorer.EntryWeight | finch-in-person/utils.py:183-189 | an entry adds weight exactly when it is counted, and an entry that adds no weight adds no score |
| Scorer.ScoreEntry | finch-in-person/utils.py:167-189 | one loop iteration adds the entry's contribution and weight, and the added weight is 0 exactly when the entry is not counted |
| Scorer.Accumulate | finch-in-person/utils.py:161-189 | the loop over `scores.items()` leaves `total_score` equal to the weighted sum and `total_weight` equal to the matched weight |
| Scorer.CalculateWeightedScore | finch-in-person/utils.py:161-199 | the result is the sum of `score * weight` over the counted entries, not divided by the matched weight, and 0 when no entry is counted (so also for no entries) |
| Scorer.NoMatchedWeightNoSum | finch-in-person/utils.py:191-199 | a matched weight of 0 means that no entry was counted, and then the weighted sum is 0 |
| Scorer.WeightedSumAppend | finch-in-person/utils.py:167-189 | entries are summed one by one: the totals over two lists are the sums of their totals |
| Scorer.SameCategoryBothCount | finch-in-person/utils.py:167-189 | two labels resolving to the same category are both counted, with no deduplication |
| Scorer.MatchedWeightDistinct | finch-in-person/utils.py:183-189 | counted entries naming distinct categories bring at most the table weight of those categories |
| Scorer.EntryBounds | finch-in-person/utils.py:183-189 | an entry scored 1..5 adds between its weight and five times its weight |
| Scorer.WeightedSumWithinWeight | finch-in-person/utils.py:183-194 | with scores in 1..5 the weighted sum lies between the matched weight and five times it |
| Scorer.ScoreBetweenZeroAndFive | finch-in-person/utils.py:136-199 | with scores in 1..5 and distinct counted categories, the result lies between 0 and 500 hundredths (0 and 5) |
| Scorer.HeadingLabelResolves | finch-in-person/utils.py:169-173 | `"### Persuasiveness"` cleans to `"persuasiveness"` and resolves to `"Persuasiveness"` by exact key |
| Scorer.ExtraWordsResolve | finch-in-person/utils.py:174-180 | `"persuasiveness score"` resolves to `"Persuasiveness"` through the first contained key |
| ResponseParser.FindScore | finch-in-person/main.py:237 | `re.search(r'\b[1-5]\b', rest)`: the leftmost standalone digit 1..5, or none when there is none |
| Text.IsSpace | finch-in-person/main.py:233 | the ASCII characters `str.isspace` accepts, which `strip()` drops at main.py:233 and 246 and utils.py:169: space, tab, line feed and carriage return among them, and never a word character |
| Text.IsSpaceOrHyphen | finch-in-person/main.py:242 | the two characters of `strip(' -')`: neither is a word character, and tabs and line feeds are not dropped |
| Text.IsWordChar | finch-in-person/main.py:237 | the ASCII `\w` behind `\b`: digits and `_` are word characters, and nothing outside ASCII is |
| Comparison.CategoryOf | finch-in-person/main.py:303-307 | `.get("category_scores", {}).get(category, {})`: a missing category gives neither score nor explanation, a present one its own entry |
| ResponseParser.DigitValue | finch-in-person/main.py:240 | `int` of a digit is between 0 and 9, and between 1 and 5 exactly for the digits '1' to '5' |
| ResponseParser.StandaloneDigitAt | finch-in-person/main.py:237 | a match of `\b[1-5]\b` is a digit of value 1..5 with no digit right before or after it, so it is never part of a longer number |
| ResponseParser.LineEntry | finch-in-person/main.py:229-248 | a line without a colon adds nothing; an entry's key has no colon and no surrounding white space, its score is 1..5 and it has an explanation |
| ResponseParser.Explanation | finch-in-person/main.py:242-246 | the explanation never starts or ends with a space; the text after the score, stripped of spaces and hyphens, wins when it is not empty; it is empty only when that text is empty and there is no next line or the next line is blank |
| ResponseParser.LineEntryScored | finch-in-person/main.py:230-246 | a line `pre:rest` with a standalone digit in `rest` gives the key `strip(pre)`, the first such digit and the explanation after it |
| ResponseParser.LineEntryUnscored | finch-in-person/main.py:237-239 | a line `pre:rest` with no standalone digit in `rest` gives nothing, even if `pre` holds one |
| ResponseParser.ParseLines | finch-in-person/main.py:225-248 | the scores after any number of lines have distinct keys, scores 1..5 and keys without colons |
| ResponseParser.ParseLinesStep | finch-in-person/main.py:227-248 | each line assigns its entry, if it has one, into the scores so far |
| ResponseParser.ResponseLines | finch-in-person/main.py:224 | the stripped text splits into at least one line |
| ResponseParser.ParsedScores | finch-in-person/main.py:224-248 | the scores parsed from a whole text have distinct keys, scores 1..5 and keys without colons |
| ResponseParser.LastLineWins | finch-in-person/main.py:248 | a key maps to the entry of the last line that assigns it |
| ResponseParser.UnassignedKeyAbsent | finch-in-person/main.py:229-248 | a key that no line assigns is absent |
| ResponseParser.PresentKeyAssigned | finch-in-person/main.py:229-248 | every key present was assigned by some line |
| ResponseParser.ReadExplanation | finch-in-person/main.py:242-246 | the explanation as the loop reads it equals the specified one |
| ResponseParser.ReadLine | finch-in-person/main.py:229-246 | the loop body computes exactly the line's entry |
| ResponseParser.ParseStep | finch-in-person/main.py:227-248 | one turn of the loop takes the scores of the first `i` lines to those of the first `i + 1` |
| ResponseParser.ParseAll | finch-in-person/main.py:227-248 | the loop over the lines yields the scores of all of them |
| ResponseParser.ParseScores | finch-in-person/main.py:224-248 | parsing a text yields its specified scores, with distinct keys and scores 1..5 |
| ResponseParser.FractionGivesNumerator | finch-in-person/main.py:237 | `"4/5"` is read as 4 |
| ResponseParser.TenOutOfTenGivesNothing | finch-in-person/main.py:237 | `"10/10"` holds no score |
| ResponseParser.SingleLineText | finch-in-person/main.py:224 | a text without line feeds or surrounding white space is one line |
| ResponseParser.SingleLineScores | finch-in-person/main.py:248 | the scores of one line are that line's entry |
| ResponseParser.DashStripped | finch-in-person/main.py:242 | the `" - "` between score and explanation is stripped away |
| ResponseParser.ScoreWithExplanation | finch-in-person/main.py:224-248 | `"Tone: 4 - firm"` parses to the key `Tone` with score 4 and explanation `firm` |
| ResponseParser.TwoLines | finch-in-person/main.py:224 | `"Tone: 3\nClear."` splits into its two lines |
| ResponseParser.BorrowNextLine | finch-in-person/main.py:242-246 | on any line, a score followed only by spaces and hyphens takes the next line, stripped, as its explanation, and an empty one on the last line |
| ResponseParser.BorrowedLineStep | finch-in-person/main.py:245-248 | after a borrowing line and the line it borrows, the borrowing entry is put into the earlier scores, then the borrowed line's own entry, if it has one (a colon with a standalone digit after it), is put on top, replacing the borrowed explanation when the key is the same |
| ResponseParser.BorrowedExplanation | finch-in-person/main.py:245-248 | in a two-line response whose first line has exactly two characters after its colon, a non-word character and then a digit 1..5 (as in "Tone: 3"), and whose second line has no colon, the only entry has that digit and the second line, stripped, as its explanation |
| ResponseParser.ExplanationOnNextLine | finch-in-person/main.py:245-246 | `"Tone: 3\nClear."` parses to the key `Tone` with score 3 and explanation `Clear.` |
| StableSort.SortSorted | finch-in-person/main.py:285 | the sorted sequence is in non-increasing key order |
| StableSort.SortPermutes | finch-in-person/main.py:285 | the sorted sequence holds every element exactly as often as the input |
| StableSort.SortStable | finch-in-person/main.py:285 | elements with equal keys keep their input order |
| StableSort.SortUnique | finch-in-person/main.py:285 | two non-increasing sequences that agree on the elements of every key are equal |
| StableSort.SortIsTheStableSort | finch-in-person/main.py:285 | any non-increasing, stable rearrangement of the input, Python's `sorted(..., reverse=True)` included, is the modelled sort |
| StableSort.SortDescending | finch-in-person/main.py:285 | the sorted sequence has the input's length; its order, permutation and stability are `SortSorted`, `SortPermutes` and `SortStable` |
| Comparison.ErrorRecord | finch-in-person/main.py:263-269 | the record of a failed parse has the letter's name but no weighted score and no category scores |
| Comparison.ComparedCategories | finch-in-person/main.py:297-298 | the seven categories the comparison lists, in the source's order; "Precedent and Legal Authority" and "Settlement Justification" are not among them |
| Comparison.RankLineOf | finch-in-person/main.py:291-292 | the ranking line of position `i` has rank `i + 1`, and the evaluation's name and weighted score |
| Comparison.ListingLineOf | finch-in-person/main.py:307-310 | a listing line carries the evaluation's name; a missing category gives no score (printed 'N/A') and "No explanation provided"; a present one gives its score, and its explanation or that default |
| Comparison.WeightedKey | finch-in-person/main.py:285 | the ranking key is the weighted score, and 0 when it is missing |
| Comparison.CategoryKey | finch-in-person/main.py:303 | a category's sort key is the category's score, and 0 when the category or its score is missing |
| Comparison.Ranked | finch-in-person/main.py:285 | the ranking order is a permutation of the evaluations with non-increasing weighted keys |
| Comparison.Listed | finch-in-person/main.py:302-304 | a category's listing order is a permutation of the evaluations with non-increasing category keys |
| Comparison.ListCategory | finch-in-person/main.py:300-310 | a category's listing has one line per evaluation, in the category's sort order, with non-increasing scores |
| Comparison.RankAll | finch-in-person/main.py:291-292 | the ranking loop gives one line per evaluation, the i-th ranked one numbered i + 1, with non-increasing scores |
| Comparison.ListAll | finch-in-person/main.py:300-310 | the category loop gives one section per compared category, in the fixed order, each listing every evaluation by non-increasing category score |
| Comparison.CompareEvaluations | finch-in-person/main.py:281-312 | fewer than two evaluations give the fixed message; otherwise the ranking numbers every evaluation 1..n in weighted-score order with non-increasing scores, and the seven sections follow in the fixed order, each listing every evaluation by non-increasing category score |
| Comparison.RankedIsPermutation | finch-in-person/main.py:285 | the ranking holds every evaluation exactly once per occurrence in the input |
| Comparison.RankedIsStable | finch-in-person/main.py:285 | evaluations with equal weighted scores, missing counting as 0, keep their input order |
| Comparison.ListedIsStablePermutation | finch-in-person/main.py:302-304 | each category listing is a permutation of the evaluations that keeps the input order among equal scores |
| Comparison.RankingAsWrittenFrom | finch-in-person/main.py:291-292 | the ranking loop as written fails exactly when some evaluation has no weighted score, and otherwise lists every one |
| Comparison.RankingAsWritten | finch-in-person/main.py:291-292 | the whole ranking as written fails exactly when some evaluation has no weighted score, and otherwise numbers every one in order |
| Comparison.ErrorRecordAbortsRanking | finch-in-person/main.py:291-292 | as written, any evaluation without a weighted score makes the ranking fail |
| Comparison.TwoLettersOneFailed | finch-in-person/main.py:285-292 | with a letter scored 3.50 and a failed one, the failed one ranks second and the ranking as written fails |

## Left out

- All calls to OpenAI and LangChain, the prompts, and template rendering: external services.
- PDF text extraction, the source-document fact cache and summarisation: library calls and file I/O.
- `generate_demand_letter` and everything else in `demand-drafter.py`: file I/O and a model call.
- `main`, folder setup, argument parsing, logging and the JSON result files: I/O.
- Float arithmetic: weights and scores are exact integer hundredths.
- Scorer.CalculateWeightedScore: returns the exact sum in hundredths. Python's float sum can differ from it in the last bits, because 0.10, 0.15 and 0.05 have no exact binary form.
- Comparison.RankedIsStable: states stability for the exact values. Python sorts the float scores, and float rounding can split an exact tie in the overall ranking. For example, 3 × 0.10 gives 0.30000000000000004 while 0.25 + 0.05 gives 0.3, so Python ranks the first above the second, while the model keeps them in input order. Category scores are integers, so the category listings are not affected.
- The Markdown text of the comparison and its `:.2f` and `/5` formatting. The comparison is modelled as records: a rank line per evaluation and one section per category.
- Unicode: `\b`, `\w`, `strip()` and `lower()` are modelled over ASCII only.
- The `try`/`except` around parsing: which Python exceptions a malformed model reply raises is not modelled. Only the error record it returns is (`Comparison.ErrorRecord`).
- ResponseParser.ParseScores: the input is the reply's text. Reading it from the model's response object is left out.
- StableSort.SortDescending: its own contract states only the length. Order, permutation and stability are the lemmas `SortSorted`, `SortPermutes` and `SortStable`.
- No section splicer and no precedent-research or letter-assembly step appears in the source files modelled here, so none is modelled.

## Findings

| source | as written | input that shows it | evidently intended | confidence | as-written member | corrected member |
|---|---|---|---|---|---|---|
| finch-in-person/main.py:292 | each ranking line formats `eval_result.get('weighted_score', 'N/A')` with `:.2f`; for a record without `weighted_score` the default is the string `'N/A'`, which that format rejects with a `ValueError`, so the whole comparison fails | two evaluations, one of them the error record returned when parsing fails (main.py:263-269), which has no `weighted_score` | rank the record as 0 and show `N/A` for its score, as the `'N/A'` default shows was meant | not executed; high: main appends every result, error records included, and compares them | Comparison.ErrorRecordAbortsRanking | Comparison.CompareEvaluations |
