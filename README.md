# journal_eval: matching and scoring, modelled in Dafny

`journal_eval` scores the semantic objects an extractor predicts for a
journal entry against gold annotations. This project models its core:

- the similarity measure: the longest common contiguous substring of two
  case-folded strings, computed by a rolling-row dynamic program;
- the matcher `is_match`: the domains must be equal, and then the overlap
  ratio of the two evidences must reach the threshold;
- `score_journal`: first-fit greedy pairing of predictions with gold
  objects, then TP/FP/FN, precision, recall, F1, polarity accuracy and
  evidence coverage;
- the schema: the legacy key aliases, enum validation and the `VALID_*`
  sets;
- `_normalize_and_filter`, which keeps only grounded, valid predictions.

Files:

- `values.dfy` (module `Values`): JSON values as the evaluator sees them,
  Python `==`, truth values and `in`, and ASCII case folding. Python
  exceptions are modelled as `Result.Err`.
- `matcher.dfy` (module `Matcher`): the LCS reference functions, the
  imperative dynamic program, and the matcher.
- `schema.dfy` (module `Schema`): normalisation and validation.
- `scorer.dfy` (module `Scorer`): the pairing reference (`FirstFree`,
  `GreedyFrom`), its declarative first-fit characterisation, the metrics,
  and the two loops of `score_journal` as methods.
- `run.dfy` (module `Run`): the prediction filter.

The imperative code keeps its form:

- `LongestCommonSubstringLength` fills an `array` one row at a time; its
  inner loop is the method `FillRow`.
- `MatchItems` and `FindFreeGold` are the outer and inner loops of the
  pairing.
- `NormalizeAndFilter` appends to its output inside a loop.

Each method is proved equal to a reference function, and the properties are
proved about those functions.

On these points the model follows the code rather than what its names
suggest:

- The matcher does not treat only a *missing* `evidence_text` as absent.
  Any falsy value (`""`, `None`, `0`, `[]`) falls back to `evidence_span`.
- Evidence that is not a string makes `is_match` raise (there is no
  `lower()`), so it is not treated as empty.
- The domain test is Python `!=`, under which `True` equals `1`; it is not
  a case-sensitive test on enum strings.

## Model

| member | source | states |
|---|---|---|
| Values.InNames | journal_eval/schema.py:57-67 | Python `v in VALID_*`: true exactly for a string in the set; an array or object raises (unhashable); any other value is simply not a member |
| Values.Lower | journal_eval/matcher.py:10-11 | case folding keeps the length of the string |
| Values.LowerIdempotent | journal_eval/matcher.py:10-11 | folding an already folded string changes nothing |
| Matcher.SuffixRunIsRun | journal_eval/matcher.py:23-31 | the table entry at row i, column j is the length of a common run ending at `a[i-1]` and `b[j-1]` |
| Matcher.SuffixRunIsLongest | journal_eval/matcher.py:23-31 | no common run ending at those positions is longer than the table entry: `dp[j]` is the longest common suffix of `a[..i]` and `b[..j]` |
| Matcher.RowBestIsAttained | journal_eval/matcher.py:23-28 | the best entry of a row prefix is one of its entries |
| Matcher.RowBestIsUpperBound | journal_eval/matcher.py:23-28 | every entry of a row prefix is at most the row's best |
| Matcher.TableBestIsAttained | journal_eval/matcher.py:21-28 | the best of the rows so far is some table entry |
| Matcher.TableBestIsUpperBound | journal_eval/matcher.py:21-28 | every table entry so far is at most the best |
| Matcher.LcsLengthIsShared | journal_eval/matcher.py:17-32 | the computed length is the length of a run the two strings share |
| Matcher.LcsLengthIsLongest | journal_eval/matcher.py:17-32 | no shared run is longer than the computed length |
| Matcher.LcsLengthBounded | journal_eval/matcher.py:17-32 | the computed length is at most the length of either string |
| Matcher.LcsLengthSymmetric | journal_eval/matcher.py:17-32 | swapping the strings gives the same length |
| Matcher.SimilarityIsLongestSharedRun | journal_eval/matcher.py:8-32 | the result is the largest k such that some length-k substring of `lower(a)` occurs in `lower(b)` |
| Matcher.SimilarityBounded | journal_eval/matcher.py:12-15 | the result is 0 when either string is empty, and at most `min(len(a), len(b))` |
| Matcher.SimilaritySymmetric | journal_eval/matcher.py:19-32 | `lcs(a, b) == lcs(b, a)` |
| Matcher.SimilarityIgnoresCase | journal_eval/matcher.py:10-11 | `lcs(a, b) == lcs(lower(a), lower(b))` |
| Matcher.SimilarityOfContained | journal_eval/matcher.py:8-32 | a string contained, ignoring case, in the other is shared whole: the result is its length |
| Matcher.LongestCommonSubstringLength | journal_eval/matcher.py:8-32 | the rolling-row dynamic program over an array returns the longest shared run of the case-folded strings |
| Matcher.FillRow | journal_eval/matcher.py:22-31 | one pass of the inner loop turns `dp` from row i-1 of the table into row i (each entry the longest common suffix) and raises `best` to the largest entry of rows 1..i |
| Matcher.Evidence | journal_eval/matcher.py:40-41 | the evidence is `evidence_text` when that is truthy, otherwise `evidence_span`, otherwise `""` |
| Matcher.OverlapRatio | journal_eval/matcher.py:43-45 | the denominator is never 0; the ratio lies in [0, 1] and is 0 when either evidence is empty |
| Matcher.IsMatch | journal_eval/matcher.py:35-47 | the result is false when the domains differ. With equal domains it raises exactly when an evidence is not a string; otherwise it is true if and only if the overlap ratio is at least the threshold |
| Matcher.EmptyEvidenceNeverMatches | journal_eval/matcher.py:43-47 | an empty evidence on either side never matches at a positive threshold |
| Matcher.FullOverlap | journal_eval/matcher.py:43-45 | when the overlap is the whole shorter evidence, the ratio is 1 |
| Matcher.HalfOverlapIsBoundary | journal_eval/matcher.py:45-47 | the threshold is inclusive: an overlap of exactly half the shorter evidence matches at 0.5 and fails at 0.51 |
| Matcher.ContainedOverlapIsFull | journal_eval/matcher.py:43-45 | a non-empty evidence contained, ignoring case, in the other gives ratio 1 |
| Matcher.ContainedEvidenceMatches | journal_eval/matcher.py:35-47 | equal domains and contained evidence match at every threshold up to 1 |
| Schema.NormalizeKeys | journal_eval/schema.py:13-28 | every original key keeps its value. `evidence_text` is added from `evidence_span` only when it is absent and `evidence_span` is present; the same holds for `intensity_level` and `intensity_bucket`. No other key is added |
| Schema.NormalizeKeysIdempotent | journal_eval/schema.py:20-28 | normalising twice is normalising once |
| Schema.ValidateObject | journal_eval/schema.py:31-79 | true if and only if the normalised object has all four required fields, with domain, polarity and time bucket in their sets, intensity (if present) in its set, a string confidence in its set, and a non-blank string `evidence_text`. It is false whenever a required field is missing; it raises only for an array or object in an enum field |
| Schema.ValidateIgnoresNormalization | journal_eval/schema.py:50 | `validate_object(o) == validate_object(normalize_keys(o))` |
| Run.Admit | journal_eval/run.py:25-42 | an object is kept exactly when its normalised form has non-blank string evidence that occurs in the journal text and passes validation |
| Run.NormalizeAndFilter | journal_eval/run.py:15-43 | the loop returns the admitted normalised objects in input order, or the error validation raised; its "uncertain without evidence" branch is proved unreachable |
| Run.KeptIsGroundedValidSubsequence | journal_eval/run.py:23-43 | every output object has non-blank string evidence found in the text and passes validation; the output is an order-preserving subsequence of the normalised inputs and no longer than the input |
| Run.KeptIsComplete | journal_eval/run.py:30-42 | conversely, every admitted input appears, normalised, in the output |
| Run.GroundedIsCovered | journal_eval/scorer.py:36-40 | an object that passed the filter counts as covered by the scorer |
| Run.KeptIsFullyCovered | journal_eval/scorer.py:39-44 | a filtered prediction list has every prediction covered |
| Scorer.FirstFree | journal_eval/scorer.py:12-19 | the gold index found is unclaimed and accepted, and every unclaimed gold before it was rejected. `None` means every unclaimed gold was rejected; an error means some unclaimed gold made the matcher raise |
| Scorer.FindFreeGold | journal_eval/scorer.py:12-19 | the inner loop with `continue`/`break` returns exactly the first unclaimed accepted gold |
| Scorer.MatchItems | journal_eval/scorer.py:7-19 | the nested loops build exactly the first-fit pairs, or stop with the matcher's error; the matched-prediction and matched-gold sets have as many elements as there are pairs |
| Scorer.GreedyFromIsShaped | journal_eval/scorer.py:11-19 | pairing from any point keeps every pair in range, prediction indices increasing and gold indices distinct |
| Scorer.GreedyFromIsAccepted | journal_eval/scorer.py:15-18 | every recorded pair is accepted by the matcher |
| Scorer.GreedyFromTakesFirstFree | journal_eval/scorer.py:12-19 | a paired prediction took the lowest-indexed gold that was free at its turn and accepted for it |
| Scorer.GreedyFromUnpairedFoundNone | journal_eval/scorer.py:12-19 | an unpaired prediction was accepted for no gold that was free at its turn |
| Scorer.GreedyIsFirstFit | journal_eval/scorer.py:11-19 | the pairing is first-fit: each prediction and gold is used at most once, every pair matches, paired predictions took the first free match, and unpaired ones had none. It has at most `min(|pred|, |gold|)` pairs |
| Scorer.GreedyPairsBounded | journal_eval/scorer.py:21-23 | TP is at most the number of predictions and of gold objects, so FP and FN are non-negative |
| Scorer.EarlierPredictionWins | journal_eval/scorer.py:11-19 | when two predictions both match the only gold, the first one takes it |
| Scorer.SinglePair | journal_eval/scorer.py:11-19 | one prediction that matches one gold object gives one pair |
| Scorer.Ratio | journal_eval/scorer.py:46-47 | `num / den` lies in [0, 1], falls back to 0 for a zero denominator, and is 1 when numerator equals denominator |
| Scorer.HarmonicMeanBounded | journal_eval/scorer.py:48 | `2pr/(p+r)` lies in [0, 1] for ratios p, r with a positive sum |
| Scorer.F1 | journal_eval/scorer.py:48 | F1 lies in [0, 1], falls back to 0 when precision + recall is 0, and is 1 when both are 1 |
| Scorer.PolarityAgreements | journal_eval/scorer.py:28-31 | the count of agreeing pairs is at most the number of pairs |
| Scorer.PolarityAgreementsCounts | journal_eval/scorer.py:28-31 | the count equals the size of the set of positions of pairs whose polarities are equal |
| Scorer.PolarityAgreementsAll | journal_eval/scorer.py:28-32 | the count reaches the number of pairs exactly when every pair agrees on polarity |
| Scorer.Covered | journal_eval/scorer.py:36-40 | a prediction is covered exactly when its fallback evidence is a non-empty string occurring in the text; the test raises exactly when that evidence is truthy but not a string |
| Scorer.CoveredCount | journal_eval/scorer.py:39-41 | the count of covered predictions is at most the number of predictions; counting raises exactly when the coverage test of some prediction raises |
| Scorer.CoveredCountCounts | journal_eval/scorer.py:39-41 | the count equals the size of the set of positions of covered predictions |
| Scorer.CoveredCountAll | journal_eval/scorer.py:39-44 | the count reaches the number of predictions exactly when every prediction is covered |
| Scorer.Metrics | journal_eval/scorer.py:21-48 | for a pairing no larger than either side: TP is the pair count, FP and FN are the remainders and are non-negative, every ratio lies in [0, 1], and the zero-denominator fallbacks apply. The result is an error exactly when the coverage test raises |
| Scorer.ScoreJournal | journal_eval/scorer.py:6-62 | the method returns the metrics of the first-fit pairing, or the error the matcher or the coverage test raised |
| Scorer.ScoreBounds | journal_eval/scorer.py:21-48 | TP ≤ min(|pred|, |gold|), FP = |pred| − TP ≥ 0 and FN = |gold| − TP ≥ 0. Every ratio lies in [0, 1]. Precision, recall, F1 and polarity accuracy fall back to 0 and coverage falls back to 1 |
| Scorer.NoPredictions | journal_eval/scorer.py:39-48 | with no predictions: TP = FP = 0, FN = |gold|, precision = recall = F1 = polarity accuracy = 0, and coverage = 1 |
| Scorer.SelfMatch | journal_eval/matcher.py:35-47 | an object with non-empty string evidence matches itself at the default threshold |
| Scorer.ExactMatchScores | journal_eval/scorer.py:11-48 | one prediction identical to the only gold object, with its evidence in the text, scores TP=1, FP=0, FN=0 and 1.0 on every ratio |
| Scorer.SecondClaimantIsFalsePositive | journal_eval/scorer.py:11-23 | when two predictions match the only gold object, one is a true positive and the other a false positive, with no false negative |

## Left out

- `run()`, `load_jsonl` and the command-line entry point: file I/O, JSON
  parsing and directory handling.
- The corpus summary: averaging over journals and its rounding.
- `round(..., 3)` on the reported ratios: `Score` holds the exact values
  before rounding, and the report's key names are not modelled.
- Floating point: ratios and the threshold are exact reals, so IEEE
  rounding in `overlap_len / denom >= threshold` and in the metrics is not
  modelled.
- Numbers are one `real` type: JSON integers and floats are not
  distinguished, which matches Python's `1 == 1.0`.
- Values.Lower: folds ASCII letters only. Python's `str.lower()` handles
  all of Unicode and can change a string's length.
- Values.IsBlank: tests Python's `str.isspace()` code points, not any
  other Unicode whitespace rule.
- JSON arrays and objects are kept as their canonical JSON text, and
  emptiness is tested via `[]`/`{}`.
- Matcher.IsMatch and Scorer.PolarityAgrees: when a domain or polarity is an
  array or object, the model compares the JSON texts. Python's `==` and `!=`
  compare contents element by element, so `[true] == [1]` holds in the
  source but not in the model. When either side is a string, as it is for
  every prediction that passed the filter, the two comparisons agree.
- Scorer.MatchItems: pairs are recorded as index pairs `(i, j)` rather than
  as the object pairs the source appends. The polarity count reads the
  objects through the indices.
- Scorer.MatchItems: the matcher is a parameter. `ScoreJournal` calls it
  with `is_match` at its default threshold, which is what the source
  calls.
- Python exceptions are modelled as `Result.Err` carrying the exception
  class, not its message or traceback.
- Schema.ValidateObject: its error condition is stated one way only; an
  error implies an array or object in some enum field.
- The input dict not being mutated by `normalize_keys` holds by
  construction: maps are values in Dafny.
