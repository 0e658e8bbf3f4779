# Clinical trial matcher: a verified model of the matching and evaluation engine

This project models, in Dafny, the engine of a clinical trial matcher:

- the rule-based score of a patient against a trial (age window 20 points,
  gender 10, shared condition keywords 10 each up to 50, similarity of the
  primary condition up to 20) with its explanation lines;
- the ranker that keeps trials scoring at least `min_score`, sorts them
  stably by descending score and keeps the first `top_k`;
- the batch matcher that fills the patient-to-matches dictionary;
- the ground-truth oracle `is_valid_match`, the false-positive explanation,
  the true/false positive/negative accumulation and the six rates, and the
  threshold comparison;
- the four validation strategies (strict heuristic with its failure
  breakdown, negative cases, score tiers and the threshold sweep);
- the coverage counts.

Modules follow the program:

| module | models |
|---|---|
| `Seqs`, `Text`, `Dicts` | Python slices, `str.upper`/`str.lower`/f-string integers/`join`, and the insertion-ordered `dict` (a sequence of pairs with distinct keys) |
| `Records` | patient and trial rows, match results, the persisted mapping |
| `Matching` | matching.py |
| `Evaluation` | evaluate_fp_fn.py |
| `Validation` | validation_improved.py |
| `Coverage` | metrics_corrected.py |

Loops that the source runs step by step are methods with loop invariants,
each proved equal to a specification function (a fold over the input in
source order); the properties the source promises are lemmas about those
functions. The `SequenceMatcher` ratio is a parameter `matched` giving the
number of matched characters `M` (at most either length), and the condition
part is `floor(20 * 2M / (|a| + |b|))`. Random samples (`random.sample`,
`DataFrame.sample`) are inputs whose shape is a precondition (distinct
members of the pool, `min(n, |pool|)` of them). Row look-ups that would raise
(`.iloc[0]` on an empty frame, a missing dictionary key, a division by a
zero length) become preconditions; the specification folds skip such rows,
which never happens when the precondition holds.

## Model

| member | source | states |
|---|---|---|
| `Seqs.Take` | matching.py:117 | `s[:k]` is a prefix of `s` of length `min(k, len(s))` (negative `k` counting from the end) |
| `Seqs.Dedup` | matching.py:128-135 | has no repetitions and holds exactly the elements of the input |
| `Seqs.DedupOrder` | matching.py:128-135 | of two listed elements, the earlier one first occurs earlier in the input: keys are kept in first-insertion order |
| `Seqs.DistinctCardinality` | evaluate_fp_fn.py:106-108 | a sequence without repetitions has as many elements as its set |
| `Text.Upper` | matching.py:46-47 | `str.upper` keeps the length and leaves no lower-case ASCII letter |
| `Text.Lower` | matching.py:71-75 | `str.lower` keeps the length and leaves no upper-case ASCII letter |
| `Text.UpperIdempotent` | matching.py:46-49 | upper-casing an upper-cased gender changes nothing |
| `Text.NatToStringRoundTrip` | matching.py:41-43 | the decimal rendering used in the explanation lines reads back as the same number |
| `Text.IntToString` | evaluate_fp_fn.py:300-302 | an integer in an f-string renders as its digits, with a leading `-` when negative |
| `Text.Join` | evaluate_fp_fn.py:311 | `"; ".join(parts)` is empty for no parts and starts with the first part otherwise |
| `Dicts.Get` | evaluate_fp_fn.py:100 | a lookup finds nothing exactly when the key is absent |
| `Dicts.Put` | matching.py:133 | `d[k] = v` makes `k` map to `v`, appends `k` to the key order only when it is new |
| `Dicts.PutOther` | matching.py:133 | `d[k] = v` leaves every other key's value unchanged |
| `Dicts.PutEntries` | matching.py:133 | after `d[k] = v` every entry is `(k, v)` or an entry of `d` |
| `Dicts.KeysDistinct` | matching.py:128-135 | no key appears twice in a dictionary |
| `Dicts.AssignKeys` | matching.py:128-135 | the keys after a run of assignments are the assigned keys, de-duplicated in first-assignment order |
| `Dicts.AssignSize` | matching.py:128-135 | there are as many entries as distinct assigned keys |
| `Dicts.AssignValues` | matching.py:128-135 | every value in the dictionary is one of the assigned values |
| `Dicts.AssignLastWins` | matching.py:128-135 | a key maps to the value of its last assignment |
| `Records.TextMarksPolarity` | matching.py:39-83 | an explanation line starts with ✓ exactly when its check was satisfied, and with ✗ otherwise |
| `Records.FindPatient` | evaluate_fp_fn.py:99 | the row found has the id, and it is the first row with it; nothing is found only when no row has it |
| `Records.FindTrial` | evaluate_fp_fn.py:118 | the row found has the NCT id and is the first row with it (`.iloc[0]`); nothing is found only when no row has it |
| `Records.NonEmptyAtMostTotal` | metrics_corrected.py:69-73 | the patients with a match are at most the matches, and none exist only when there are no matches |
| `Records.TotalLengthBound` | metrics_corrected.py:73 | with at most `k` matches per patient there are at most `k` times as many matches as patients |
| `Matching.KeywordSet` | matching.py:56-57 | `set(keywords)` holds exactly the listed keywords |
| `Matching.OverlapListIsOverlap` | matching.py:60-66 | the listed overlap has no repetitions and holds exactly the shared keywords |
| `Matching.ConditionPointsBound` | matching.py:70-83 | the condition part lies in [0, 20], is 0 without a primary condition or trial condition, and its line appears exactly when it exceeds 5 |
| `Matching.KeywordPointsOfOverlap` | matching.py:56-63 | the keyword part is `min(10 * shared, 50)`, saturates at 5 shared keywords and is 0 when either list is empty |
| `Matching.KeywordPointsBySize` | matching.py:60-62 | for any two patient-trial pairs, sharing no more keywords never earns more keyword points |
| `Matching.KeywordPointsMonotone` | matching.py:60-62 | for one patient, a trial whose shared keywords include another trial's earns at least as many keyword points |
| `Matching.KeywordReasonFacts` | matching.py:65-67 | the keyword line appears exactly when the part is positive, counts the overlap and samples at most 3 distinct shared keywords |
| `Matching.ScoreBounds` | matching.py:31-85 | every score lies in [0, 100] |
| `Matching.ReasonsShape` | matching.py:32-83 | there are 2 to 4 lines: the age line first (✓ exactly when the age is in range), the gender line second (✓ exactly when the upper-cased genders agree or the trial takes all), then only satisfied lines |
| `Matching.CalculateMatchScore` | matching.py:23-85 | the step-by-step score and lines equal the sum of the four parts and their lines, and the score lies in [0, 100] |
| `Matching.CandidatesExact` | matching.py:100-113 | the kept matches are exactly the trials scoring at least `min_score` |
| `Matching.InsertByScoreKeeps` | matching.py:116 | inserting into the sorted list keeps every element |
| `Matching.InsertByScoreSorted` | matching.py:116 | inserting keeps the list in descending score order |
| `Matching.InsertByScoreStable` | matching.py:116 | inserting places a new element after the elements with its score |
| `Matching.SortByScoreSorted` | matching.py:116 | the sort is descending by score and a permutation |
| `Matching.SortByScoreStable` | matching.py:116 | the sort keeps the trial order among equal scores, as the stable `sorted(..., reverse=True)` does |
| `Matching.WithScorePrefix` | matching.py:117 | a prefix keeps, per score, a prefix of the elements with that score |
| `Matching.SortedPrefixKeepsTheBest` | matching.py:116-117 | cutting the sorted list drops nothing scoring more than a kept result |
| `Matching.TopOfSorted` | matching.py:116-117 | the first `top_k` of the sorted list are sorted, at most `top_k`, drawn from the candidates, and in trial order per score |
| `Matching.CandidatesShrink` | matching.py:100-113 | a higher `min_score` keeps no more candidates |
| `Matching.RankedShrinks` | matching.py:87-117 | raising `min_score` never makes the ranker return more results |
| `Matching.RankedKeepsTheBest` | matching.py:100-117 | every trial the ranker leaves out scores no more than every trial it returns |
| `Matching.MatchPatientToTrials` | matching.py:87-117 | the loop returns the ranking: at most `top_k` results, each scoring at least `min_score`, sorted descending, drawn from the candidates, and per score the first candidates with that score in trial order |
| `Matching.BatchMatchesFacts` | matching.py:119-135 | one key per distinct patient id in first-appearance order, each mapping to the ranking of the last row with that id |
| `Matching.MatchAllPatients` | matching.py:119-135 | the loop builds the mapping that one assignment per patient row in row order gives |
| `Evaluation.TrialOf` | evaluate_fp_fn.py:118 | the trial row looked up by a known NCT id is the first row of the table with that id |
| `Evaluation.StrictImpliesLenient` | evaluate_fp_fn.py:22-51 | a strictly valid match is valid leniently, and a lenient one with score at least 60 and 2 shared keywords is strictly valid |
| `Evaluation.HardCriteria` | evaluate_fp_fn.py:33-37 | an age out of range or an incompatible gender makes the match invalid whatever the score |
| `Evaluation.ValidityMonotone` | evaluate_fp_fn.py:40 | a higher score never turns a valid match invalid |
| `Evaluation.OracleWithinScorer` | evaluate_fp_fn.py:36-47 | every gender the oracle accepts the scorer accepts, and a strictly valid match earned at least 20 keyword points |
| `Evaluation.GenderSpellingGap` | evaluate_fp_fn.py:36-37 | a trial gender spelt `all` is accepted by the scorer but rejected by the oracle for a male patient |
| `Evaluation.MessagesCount` | evaluate_fp_fn.py:291-309 | one message per failing check, and none exactly when every check passes |
| `Evaluation.MessagesNamed` | evaluate_fp_fn.py:293-297 | "Age mismatch" and "Gender mismatch" appear exactly when those checks fail |
| `Evaluation.FpMessagesExplain` | evaluate_fp_fn.py:289-311 | the messages count the failing oracle checks, are empty exactly when the match is valid, and name the age and gender failures |
| `Evaluation.JoinedMessagesNotUnknown` | evaluate_fp_fn.py:311 | joining at least one message never yields "Unknown" |
| `Evaluation.GetFpReason` | evaluate_fp_fn.py:289-311 | the reason is "Unknown" exactly when `is_valid_match` holds, and otherwise the "; "-joined messages of the failing checks |
| `Evaluation.Passing` | evaluate_fp_fn.py:103 | keeps exactly the matches scoring at least the threshold |
| `Evaluation.PassingIds` | evaluate_fp_fn.py:103 | an id is recommended exactly when some cached match with it reaches the threshold |
| `Evaluation.RecommendedSize` | evaluate_fp_fn.py:103 | the recommended dictionary has one entry per distinct passing NCT id |
| `Evaluation.RecommendedShrinks` | evaluate_fp_fn.py:103 | a higher threshold never recommends more trials |
| `Evaluation.JudgeRecommendedPositives` | evaluate_fp_fn.py:117-136 | each recommended trial adds one true or false positive and no negative |
| `Evaluation.JudgeOthersNegatives` | evaluate_fp_fn.py:139-155 | each sampled not-recommended trial adds one true or false negative and no positive |
| `Evaluation.PatientCounts` | evaluate_fp_fn.py:98-155 | per patient, TP+FP is the number of distinct passing ids, TN+FN is `min(10, |all ids - recommended ids|)`, and the sample avoids the recommended ids |
| `Evaluation.TotalPositives` | evaluate_fp_fn.py:98-136 | over the sample, TP+FP is the total number of recommended trials |
| `Evaluation.RecommendedTotalShrinks` | evaluate_fp_fn.py:103 | a higher threshold never recommends more trials in total |
| `Evaluation.PositivesShrink` | evaluate_fp_fn.py:319-333 | with the same patient sample, a higher threshold never yields more positives |
| `Evaluation.Ratio` | evaluate_fp_fn.py:161-176 | `n / d if d > 0 else 0` is 0 for a zero denominator, in [0, 1] when `n <= d`, and exact otherwise |
| `Evaluation.F1Between` | evaluate_fp_fn.py:167 | the F1 score lies in [0, 1] and between precision and recall, and is 0 exactly when one of them is |
| `Evaluation.RatioComplement` | evaluate_fp_fn.py:164-176 | two complementary rates over the same denominator add up to 1 |
| `Evaluation.MetricsBounds` | evaluate_fp_fn.py:158-176 | all six rates lie in [0, 1], each is 0 when its denominator is, recall + FNR = 1 when TP+FN > 0, and F1 is 0 exactly when TP is |
| `Evaluation.EvaluateRecommended` | evaluate_fp_fn.py:117-136 | the loop counts the oracle's verdicts on the recommended trials with the cached scores and records one explained example per false positive |
| `Evaluation.EvaluateNotRecommended` | evaluate_fp_fn.py:139-155 | the loop counts the oracle's verdicts on the sampled trials with fresh scores and records one example per false negative |
| `Evaluation.EvaluatePatient` | evaluate_fp_fn.py:98-155 | one patient's counts are those of the specification, with as many examples as false positives and false negatives |
| `Evaluation.EvaluateMatchesWithFpFn` | evaluate_fp_fn.py:98-176 | the totals, rates, example counts and settings of the analysis, with TP+FP the number of recommended trials and no "Unknown" false-positive reason |
| `Evaluation.RunsShrink` | evaluate_fp_fn.py:319-333 | across the thresholds 30 to 70 the positives never increase |
| `Evaluation.CompareThresholds` | evaluate_fp_fn.py:313-335 | one lenient run on 20 patients per threshold 30, 40, 50, 60, 70, with positives never increasing |
| `Validation.DetailIsStrictOracle` | validation_improved.py:71-78 | a detail row is valid exactly when the strict `is_valid_match` holds for the same patient, trial and score |
| `Validation.MatchDetailsConsistent` | validation_improved.py:71-92 | every detail row's overall verdict is the conjunction of its four checks |
| `Validation.MatchDetailsSize` | validation_improved.py:58-92 | one detail row per top match |
| `Validation.PatientDetailsSize` | validation_improved.py:56-58 | a patient contributes `min(5, len(matches))` rows |
| `Validation.StrictDetailsSize` | validation_improved.py:54-92 | the number of evaluated matches is the sum of `min(5, len(matches))` over the sampled patients |
| `Validation.StrictDetailsConsistent` | validation_improved.py:71-92 | every row of `details` is consistent |
| `Validation.ValidCount` | validation_improved.py:95 | the valid matches are at most the evaluated ones |
| `Validation.Failures` | validation_improved.py:98 | the failed rows are exactly the rows that are not valid, total minus valid of them |
| `Validation.CountFailing` | validation_improved.py:100-103 | a failure counter is at most the number of failed rows |
| `Validation.BreakdownCovers` | validation_improved.py:98-104 | every failed row increments at least one counter |
| `Validation.BreakdownBounds` | validation_improved.py:98-104 | each counter is at most the failed count, together they reach it, and the failed count is total minus valid |
| `Validation.PatientStrictDetails` | validation_improved.py:55-92 | the inner loop produces the patient's rows in match order |
| `Validation.ValidateStrictHeuristic` | validation_improved.py:54-129 | total is the sum of `min(5, len(matches))`, valid is at most total, accuracy is 0 for no rows, and the breakdown is bounded and covering |
| `Validation.RejectedCount` | validation_improved.py:182 | the correctly rejected cases are at most the cases |
| `Validation.CaseOfFacts` | validation_improved.py:160-178 | the type is "age" exactly when the age fails (even when gender fails too), rejection means a score below 40, an age mismatch scores at most 80 and a gender mismatch not spelt "all" at most 90 |
| `Validation.NegativeCaseSpellingGap` | validation_improved.py:161-168 | a trial gender spelt `all` makes a case for a male patient that the scorer still gives 40 points, so it is not rejected |
| `Validation.TrialCasesComplete` | validation_improved.py:158-164 | every incompatible sampled trial yields a case |
| `Validation.TrialCasesSound` | validation_improved.py:158-178 | every case comes from an incompatible sampled trial |
| `Validation.TrialCasesSize` | validation_improved.py:158-164 | a patient yields at most one case per sampled trial |
| `Validation.NegativeCasesComplete` | validation_improved.py:157-164 | every incompatible sampled pair yields a case |
| `Validation.NegativeCasesSound` | validation_improved.py:157-178 | every case comes from an incompatible sampled pair |
| `Validation.NegativeCasesExact` | validation_improved.py:157-178 | the cases are exactly those of the incompatible sampled pairs |
| `Validation.NegativeCasesSize` | validation_improved.py:157-178 | at most one case per sampled pair |
| `Validation.PatientCases` | validation_improved.py:158-178 | the inner loop produces the patient's cases in trial order |
| `Validation.ValidateNegativeCases` | validation_improved.py:150-208 | nothing is returned exactly when there is no case; otherwise at most 100 cases and the rejection rate in [0, 1] |
| `Validation.ScoreCounts` | validation_improved.py:230-242 | one score per match, one top score per patient with matches, so a top score exists whenever a score does |
| `Validation.CountSplit` | validation_improved.py:245-248 | the scores from `lo` up are those from `hi` up plus those in `[lo, hi)`, and the rest lie below `lo` |
| `Validation.TiersPartition` | validation_improved.py:245-263 | excellent, good, fair and poor partition the scores, and the count at 60 and up lies between excellent and excellent plus good |
| `Validation.MeanTimes` | validation_improved.py:241-242 | the average times the number of scores is their sum |
| `Validation.PercentOrder` | validation_improved.py:263-270 | a smaller count gives a smaller percentage of the same total, all within [0, 100] |
| `Validation.DistributionTiers` | validation_improved.py:241-272 | the tiers add up to the number of matches and the excellent share is at most the estimated accuracy, within [0, 100] |
| `Validation.EntryScores` | validation_improved.py:231-234 | the inner loop collects a patient's scores and the score of its first match |
| `Validation.AnalyzeScoreDistribution` | validation_improved.py:226-272 | nothing exactly when there is no match; otherwise the distribution of all and of the top scores |
| `Validation.SweepCount` | validation_improved.py:313-319 | the matches passing at a threshold are at most the matches evaluated |
| `Validation.SweepCountConcat` | validation_improved.py:304-319 | the valid count over two groups of rows is the sum of their counts |
| `Validation.SweepCountMonotone` | validation_improved.py:317 | raising the threshold never adds a valid match |
| `Validation.StrictWithinSweep` | validation_improved.py:71-78 | a match the strict heuristic accepts passes the sweep at 60 and below |
| `Validation.RowsShrink` | validation_improved.py:300-327 | every row counts the same matches, with valid counts that never grow |
| `Validation.SweepPatient` | validation_improved.py:304-319 | one patient contributes its top five matches, and those passing at the threshold |
| `Validation.SweepMatches` | validation_improved.py:308-319 | the innermost loop counts the matches and those passing at the threshold |
| `Validation.SweepMatch` | validation_improved.py:309-317 | a re-scored match passes exactly when its fresh score reaches the threshold and the oracle's age and gender checks hold |
| `Validation.SweepAt` | validation_improved.py:300-319 | the middle loop counts all sampled patients' top matches and those passing |
| `Validation.AnalyzeMultipleThresholds` | validation_improved.py:293-327 | one row per threshold 30 to 80, each with total `sum(min(5, len(matches)))` and valid counts that never increase |
| `Coverage.CalculateCoverageMetrics` | metrics_corrected.py:59-87 | on a non-empty map: patients with matches at most the patients and at most the matches, total matches the sum of list lengths, coverage in [0, 100] |
| `Coverage.FullCoverage` | metrics_corrected.py:69-71 | coverage is complete exactly when every patient has a match |
| `Coverage.CoverageRatios` | metrics_corrected.py:71-74 | the percentage and the average times the number of patients give back the counts |
| `Coverage.BatchCoverageBound` | metrics_corrected.py:73 | for a map built by `match_all_patients` there are at most 10 matches per patient and one entry per distinct patient id |

## Left out

- Floating point and `round(...)`: every ratio, average and percentage is an exact `real`; the final rounding and percent formatting of the returned dictionaries and the factor 100 in the results dictionary of evaluate_fp_fn.py are not modelled.
- `difflib.SequenceMatcher`: its matching-block search is the parameter `matched`; the model computes `floor(20 * 2M / (|a|+|b|))` exactly where the source truncates a float.
- `list(overlap)[:3]`: Python's set iteration order is unspecified; the model lists the overlap in the patient's keyword order.
- `str.upper`/`str.lower`: only ASCII letters are mapped.
- `safe_eval_list` and `ast.literal_eval`: rows hold already-parsed lists.
- Randomness: `random.seed`, `random.sample` and `DataFrame.sample` are replaced by input samples whose shape is a precondition.
- File and console I/O: CSV and JSON loading and saving, pandas filtering, `print`, progress bars. A pandas look-up is the first matching row.
- Crashes: `.iloc[0]` on a missing row, a missing key and a zero division are preconditions of the loops; the specification folds skip a missing row, which the precondition rules out.
- Timing: `calculate_performance_metrics_CORRECT` depends on the wall clock.
- fetch_trials.py, process_trials.py, extract_keywords.py, generate_patients.py, app.py and api.py: network, parsing, NLP, synthetic data and UI, outside the engine.
- `validate_negative_cases`: the per-type rejection rates are only printed and are not modelled.
- `trial_age_range` (validation_improved.py and the false-positive examples of evaluate_fp_fn.py): the string is built from integer ages; a float or text age column would render differently.
- `Evaluation.EvaluateMatchesWithFpFn`: the report also carries the false-positive and false-negative examples, which the source only prints (the first five of each) and does not return; the `interpretation` strings of the results dictionary are not modelled.
- `validate_strict_heuristic`: `validation_results` is the list of `overall_valid` flags of `details`, so the model keeps only `details`.
- `Validation.AnalyzeScoreDistribution`: the statistics after the loops are taken from the specification function `Distribution` rather than recomputed statement by statement.
- `Matching.CalculateMatchScore`: the facts about the shape of the lines are stated in `Matching.ReasonsShape` rather than in the method's contract.
- Integer versus float zero (`else 0`): both are the real 0.
