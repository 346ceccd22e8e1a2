# A verified model of the EasyR1 grid-answer reward function

`examples/reward_function/math.py` scores a batch of model responses against reference answers. Each answer is a grid of digits, written as `Answer:` followed by one whitespace-separated token per row. For each example the scorer:

- normalises the response by removing whitespace around `<`, `>` and `/`;
- scores it on format: a 0/1 check of the answer grammar;
- parses both sides into grids and scores shape (0/1), presence of values (0/1) and cell-wise similarity (the fraction of equal cells);
- combines the four scores with the fixed weights 0.1, 0.6, 0.2 and 0.1.

A parse failure on either side is absorbed and zeroes the three grid metrics. It never stops the batch.

This project models that core in Dafny and proves its properties. The modules follow the source's functions:

- `Wrappers` (`wrappers.dfy`): the `Option` type that stands in for "raised an exception".
- `Text` (`text.dfy`): ASCII character classes, `str.capitalize`, `str.removeprefix`, `str.split()`, and the interleaving of separators and words used to state the parser's round trip.
- `Normalizer` (`normalizer.dfy`): the substitution `re.sub(r"\s*(<|>|/)\s*", r"\1", …)`, written as a left-to-right scan with three cases: a marker with its surrounding whitespace, a plain character, and a whitespace run that is not followed by a marker. An independent, position-wise description stands beside it. `Kept` deletes a whitespace character exactly when its maximal whitespace run touches a marker on either side, and keeps every other character in order. `Normalize` is proved equal to it.
- `Format` (`format.dfy`): `format_reward`. It is the anchored grammar `Answer:\s*(\d+\s*)+`, matched greedily, and characterised as "`Answer:` followed by digits and whitespace holding at least one digit".
- `Grids` (`grids.dfy`): grids as `seq<seq<int>>`, and the digit-grid invariant.
- `Parser` (`parser.dfy`): `get_answer`. `GetAnswer` is an imperative method with the source's loop. It is proved equal to the specification function `ParseAnswer`, and an encoder gives the round trip.
- `Metrics` (`metrics.dfy`): `compute_shape`, `compute_presence` and `fast_similarity_2d`. They are defined directly on grids: a NumPy shape is `(0,)`, `(rows, columns)` or an error for a ragged grid, and a mean is a count of agreements over the number of cells.
- `Scorer` (`scorer.dfy`): `compute_score`.
  - `ScoreOne` is the body of the loop for one example.
  - `TryBlock` is its `try` block, with the `except` clause as early exits.
  - `ComputeScore` is the loop over the batch. It is proved equal to the specification function `Scores`, which gives one valid record per input, in order.

Scores are `real`. Characters are restricted to ASCII: the digits `0`-`9`, and as whitespace the space, 9-13 and 28-31.

Where the code and its documented design disagree, the model follows the code:

- **Empty remainder.** `get_answer` on a text with nothing but whitespace after the prefix returns `[]`. It does not fail, because `split()` gives no tokens and the loop does not run. `ParseAnswer` gives `Some([])` there.
- **Ragged grids.** A ragged grid does not just count as a shape mismatch. `np.asarray` raises at line 34, so the `except` clause zeroes presence as well. `ComputeShape` returns `None` for it and `CompareGrids` zeroes all three grid metrics. This is the NumPy 1.24 and later behaviour.

## Model

| member | source | states |
|---|---|---|
| Normalizer.NormalizeIsTidy | examples/reward_function/math.py:55 | after the substitution, no whitespace character is directly next to `<`, `>` or `/` |
| Normalizer.NormalizeKeepsVisible | examples/reward_function/math.py:55 | the substitution keeps every non-whitespace character, in order, and adds none |
| Normalizer.NormalizeDeletes | examples/reward_function/math.py:55 | the output is obtained from the input by deleting characters only (order preserved) |
| Normalizer.NormalizeFixesTidy | examples/reward_function/math.py:55 | a text with no whitespace next to a marker is returned unchanged |
| Normalizer.NormalizeWithoutMarkers | examples/reward_function/math.py:55 | a text without `<`, `>` or `/` is returned unchanged |
| Normalizer.NormalizeIdempotent | examples/reward_function/math.py:55 | normalising twice is normalising once |
| Normalizer.NormalizeDropsMarkerRuns | examples/reward_function/math.py:55 | the substitution deletes exactly the whitespace characters whose maximal whitespace run is directly next to `<`, `>` or `/`, and keeps every other character, whitespace included, in order |
| Normalizer.DroppedBeforeMarker | examples/reward_function/math.py:55 | a whitespace character followed by whitespace and then a marker is deleted (the leading `\s*`) |
| Normalizer.DroppedAfterMarker | examples/reward_function/math.py:55 | a whitespace character preceded by whitespace and then a marker is deleted (the trailing `\s*`) |
| Normalizer.KeptInRun | examples/reward_function/math.py:55 | a whitespace character whose maximal whitespace run has no marker on either side is kept |
| Format.FormatReward | examples/reward_function/math.py:42-45 | 1.0 exactly when the text is `Answer:` followed by digits and whitespace containing a digit, 0.0 exactly otherwise |
| Format.GroupsIff | examples/reward_function/math.py:43 | the repeated group `(\d+\s*)+` matches exactly the non-empty texts of digits and whitespace that begin with a digit |
| Format.FormatMatchesIff | examples/reward_function/math.py:43-44 | the anchored full match of `^Answer:\s*(\d+\s*)+$` holds exactly for `Answer:` followed by digits and whitespace containing at least one digit |
| Parser.ParseAnswer | examples/reward_function/math.py:19-26 | parsing succeeds iff the capitalised, prefix-stripped text is only digits and whitespace; it yields `[]` iff that text is all whitespace; a result holds only digits 0-9 |
| Parser.ParseFailsOnBadToken | examples/reward_function/math.py:23-25 | parsing fails exactly when some whitespace-separated token contains a non-digit (`int` raises) |
| Parser.ParseTokens | examples/reward_function/math.py:24-25 | failure iff some token is not all digits; otherwise a digit grid with one row per token, and writing each row's digits out gives the tokens back |
| Parser.RowOf | examples/reward_function/math.py:25 | a token converts to a row exactly when all its characters are digits; the row holds values 0-9 and writing them out gives the token back |
| Parser.GetAnswer | examples/reward_function/math.py:19-26 | the step-by-step capitalise, remove-prefix, split and per-token conversion loop returns exactly `ParseAnswer` of its input |
| Parser.ParseEncode | examples/reward_function/math.py:19-26 | writing a digit grid as `Answer:` plus whitespace-separated row tokens and parsing it gives the grid back |
| Parser.ParseExample | examples/reward_function/math.py:19-26 | `"Answer: 12 34"` parses to `[[1, 2], [3, 4]]` |
| Parser.PrefixIgnoresCase | examples/reward_function/math.py:20-22 | any upper/lower-case spelling of `answer:` is stripped like `Answer:` |
| Parser.PrefixOptional | examples/reward_function/math.py:20-22 | a text not starting with a letter parses the same with or without `Answer: ` in front |
| Parser.CapitalizeIgnoresCase | examples/reward_function/math.py:20 | capitalising depends only on the letters up to case |
| Parser.FormatImpliesParse | examples/reward_function/math.py:19-26 | a response passing the format check always parses, to a grid with at least one row |
| Metrics.ComputeShape | examples/reward_function/math.py:33-34 | 1.0 iff both grids are rectangular with equal shapes, 0.0 iff both rectangular with different shapes, no value (raises) iff one is ragged |
| Metrics.ComputePresence | examples/reward_function/math.py:36-39 | 1.0 exactly when every value of one grid occurs in the other and vice versa, else 0.0 |
| Metrics.PresenceIgnoresArrangement | examples/reward_function/math.py:36-39 | rearranging the cells of a grid (same multiset) does not change presence |
| Metrics.PresenceIgnoresDuplicates | examples/reward_function/math.py:36-39 | adding a row of values already present does not change presence |
| Metrics.Agreements | examples/reward_function/math.py:31 | the number of equal positions is at most the length, equals it iff the rows are equal, and is 0 iff no position agrees |
| Metrics.FlattenSameShape | examples/reward_function/math.py:30-31 | grids of equal shape have as many cells and their cell sequences are equal iff the grids are |
| Metrics.Similarity | examples/reward_function/math.py:28-31 | on equal-shaped non-empty grids the mean of cell equality lies in [0, 1] and is 1 iff the grids are identical |
| Metrics.AgreementsFrom | examples/reward_function/math.py:31 | the recursive count is the size of the set of agreeing positions |
| Metrics.SimilarityCountsAgreeingCells | examples/reward_function/math.py:28-31 | similarity is the number of positions with equal cells divided by the number of cells |
| Scorer.OverallBounds | examples/reward_function/math.py:70 | the weighted sum of component scores in [0, 1] lies in [0, 1], and is 1 when all are 1 |
| Scorer.RecordValid | examples/reward_function/math.py:68-76 | a record of 0/1 format, shape and presence and a similarity in [0, 1] that is 0 without a shape match has its overall score in [0, 1] and equal to the weighted sum |
| Scorer.TryGridScores | examples/reward_function/math.py:59-64 | the `try` block on two grids raises iff a grid is ragged; otherwise shape is 0/1 and 1 iff the shapes agree, presence is 0/1 and 1 iff the value sets agree, and similarity is the cell-wise `Similarity` on a shape match, 0 without one, and 1 iff the grids are equal |
| Scorer.CompareGrids | examples/reward_function/math.py:57-67 | either parse failing zeroes all three grid metrics; shape, presence and similarity are 1 exactly under their conditions; on a shape match both grids parsed and similarity is their `Similarity` |
| Scorer.SimilarityDefinedIff | examples/reward_function/math.py:63-64 | the excluded NaN case is exactly both sides parsing to the empty grid |
| Scorer.ScoreExampleValid | examples/reward_function/math.py:55-76 | every record is valid, its format is the format reward of the normalised response, and a parse failure on either side zeroes the grid metrics |
| Scorer.UnparseableScoresZero | examples/reward_function/math.py:55-76 | a response that does not parse scores 0.0 on every field |
| Scorer.MatchingAnswerScores | examples/reward_function/math.py:58-70 | a response parsing to the reference's non-empty rectangular grid gets similarity, shape and presence 1 and overall 0.9 plus a tenth of its format score |
| Scorer.TryBlock | examples/reward_function/math.py:57-67 | the `try` block, step by step with its early exits for the `except` clause, yields exactly the grid metrics `CompareGrids` specifies |
| Scorer.ScoreOne | examples/reward_function/math.py:55-76 | one turn of the loop (normalise, format score, `try` block, record) produces exactly the record `ScoreExample` specifies |
| Scorer.MapPrefixPointwise | examples/reward_function/math.py:53-76 | collecting the per-example results keeps length and order |
| Scorer.ScoresPointwise | examples/reward_function/math.py:49-78 | the batch result has one record per input, record i scores input i, and every record is valid |
| Scorer.ScoreAt | examples/reward_function/math.py:54-76 | one loop turn appends the record of example i to the records of the examples before it |
| Scorer.ComputeScore | examples/reward_function/math.py:49-78 | the loop over the batch returns exactly `Scores` of the inputs; `formatWeight` is accepted and unused |

## Left out

- NumPy is not modelled. `np.asarray`, `.shape` and `np.mean` are replaced by definitions on `seq<seq<int>>`.
- Ragged grids follow NumPy 1.24 and later, where `np.asarray` raises. The older object-array behaviour is not modelled.
- Scorer.ScoreExample, Scorer.ComputeScore: both require that the two sides do not both parse to the empty grid. There the source computes `np.mean` of an empty array, which is NaN; `SimilarityDefined` excludes that input.
- Floating point is not modelled. Scores are exact reals, so rounding in the weighted sum and the mean is absent.
- Unicode is not modelled. Python's `\d`, `\s`, `split()`, `int()` and `capitalize()` also accept non-ASCII digits, whitespace and cased letters; the model uses ASCII only.
- No general regular-expression engine is modelled. There is only the one grammar of `format_reward` and the one substitution of line 55.
- The `isinstance(reward_inputs, list)` usage error at lines 50-51 is not modelled: Dafny's types guarantee a sequence.
- The bare `except:` also catches errors unrelated to parsing, such as a missing `"ground_truth"` key. The model has no such errors: inputs are a datatype with both fields. The errors it keeps are a non-digit token (`int` raises) and a ragged grid (`np.asarray` raises).
- Metrics.Similarity: only defined on grids of equal shape. The source calls `fast_similarity_2d` only after a shape match, so its NumPy broadcasting on other shapes is not modelled.
- Scorer.ComputeScore: `formatWeight` mirrors the unused `format_weight` parameter. The format weight is the literal 0.1 in `Overall`, as in the source.
