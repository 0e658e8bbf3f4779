/** The validation strategies of validation_improved.py: the strict
    heuristic with its failure breakdown, negative-case rejection, the
    score tiers and the threshold sweep. */
module Validation {
  import opened Seqs
  import opened Text
  import opened Dicts
  import opened Records
  import opened Matching
  import opened Evaluation

  /** Only the first five cached matches of a patient are re-examined. */
  const TopMatches := 5
  /** A negative case is correctly rejected when it scores below 40. */
  const RejectionScore := 40

  /** `all_matches[patient_id][:5]`. */
  function TopMatchesOf(ds: Dataset, id: string): seq<MatchResult> {
    Take(CachedMatches(ds, id), TopMatches)
  }

  /** What one sampled patient needs for the loop body not to fail: a
      patient row and a trial row for each of the top matches. */
  ghost predicate TopKnown(ds: Dataset, id: string) {
    && id in KeySet(ds.matches)
    && FindPatient(ds.patients, id).Some?
    && forall i :: 0 <= i < |TopMatchesOf(ds, id)| ==> TopMatchesOf(ds, id)[i].nctId in TrialIds(ds.trials)
  }

  ghost predicate TopEvaluable(ds: Dataset, ids: seq<string>, numSamples: nat) {
    && IsSampleOf(ids, KeySet(ds.matches), numSamples)
    && AllTopKnown(ds, ids)
  }

  /** `sum(min(5, len(all_matches[id])) for id in ids)`. */
  function TopTotal(ds: Dataset, ids: seq<string>): nat {
    if |ids| == 0 then 0
    else TopTotal(ds, ids[..|ids| - 1]) + Min(TopMatches, |CachedMatches(ds, ids[|ids| - 1])|)
  }

  // ---------------------------------------------------------------------
  // Approach 1: strict heuristic validation

  /** One row of `details`. */
  datatype Detail = Detail(
    patientId: string, trialId: string, score: int,
    ageValid: bool, genderValid: bool, scoreValid: bool, keywordValid: bool, overallValid: bool)

  /** The strict checks on one re-scored match. */
  function DetailOf(patientId: string, p: Patient, t: Trial, trialId: string, score: int): Detail {
    var ageValid := t.ageMin <= p.age <= t.ageMax;
    var genderValid := t.gender == "ALL" || Upper(t.gender) == Upper(p.gender);
    var scoreValid := score >= StrictScore;
    var keywordValid := |KeywordSet(p.keywords) * KeywordSet(t.keywords)| >= StrictKeywords;
    Detail(patientId, trialId, score, ageValid, genderValid, scoreValid, keywordValid,
           ageValid && genderValid && scoreValid && keywordValid)
  }

  /** A row whose overall verdict is the conjunction of its four checks. */
  ghost predicate Consistent(d: Detail) {
    && d.overallValid == (d.ageValid && d.genderValid && d.scoreValid && d.keywordValid)
    && d.scoreValid == (d.score >= StrictScore)
  }

  /** The strict heuristic is the strict oracle of the false-positive
      analysis: a row is valid exactly when `is_valid_match(..., strict=True)`
      holds for the same patient, trial and score. */
  lemma DetailIsStrictOracle(patientId: string, p: Patient, t: Trial, trialId: string, score: int)
    ensures var d := DetailOf(patientId, p, t, trialId, score);
      && Consistent(d)
      && (d.overallValid <==> IsValidMatch(p, t, score, true))
      && (d.ageValid <==> AgeValid(p, t)) && (d.genderValid <==> GenderValid(p, t))
      && (d.keywordValid <==> SharedKeywords(p, t) >= StrictKeywords)
  {
  }

  /** The rows of one patient's top matches, re-scored in order (a match
      whose trial row is missing, which the precondition rules out, is
      skipped). */
  function MatchDetails(patientId: string, p: Patient, ts: seq<Trial>, ms: seq<MatchResult>, matched: MatchedChars): seq<Detail> {
    if |ms| == 0 then []
    else
      var n := |ms| - 1;
      MatchDetails(patientId, p, ts, ms[..n], matched)
        + (match FindTrial(ts, ms[n].nctId)
           case Some(t) => [DetailOf(patientId, p, t, ms[n].nctId, MatchScore(p, t, matched))]
           case None => [])
  }

  function PatientDetails(ds: Dataset, id: string, matched: MatchedChars): seq<Detail> {
    match FindPatient(ds.patients, id)
    case Some(p) => MatchDetails(id, p, ds.trials, TopMatchesOf(ds, id), matched)
    case None => []
  }

  /** All rows of `details`, patient after patient. */
  function StrictDetails(ds: Dataset, ids: seq<string>, matched: MatchedChars): seq<Detail> {
    if |ids| == 0 then []
    else StrictDetails(ds, ids[..|ids| - 1], matched) + PatientDetails(ds, ids[|ids| - 1], matched)
  }

  lemma MatchDetailsStep(patientId: string, p: Patient, ts: seq<Trial>, ms: seq<MatchResult>, matched: MatchedChars, j: int)
    requires 0 <= j < |ms| && ms[j].nctId in TrialIds(ts)
    ensures MatchDetails(patientId, p, ts, ms[..j + 1], matched)
      == MatchDetails(patientId, p, ts, ms[..j], matched)
         + [DetailOf(patientId, p, TrialOf(ts, ms[j].nctId), ms[j].nctId, MatchScore(p, TrialOf(ts, ms[j].nctId), matched))]
  {
    assert ms[..j + 1][..j] == ms[..j];
  }

  lemma StrictDetailsStep(ds: Dataset, ids: seq<string>, matched: MatchedChars, k: int)
    requires 0 <= k < |ids|
    ensures StrictDetails(ds, ids[..k + 1], matched) == StrictDetails(ds, ids[..k], matched) + PatientDetails(ds, ids[k], matched)
  {
    assert ids[..k + 1][..k] == ids[..k];
  }

  ghost predicate AllConsistent(details: seq<Detail>) {
    forall i :: 0 <= i < |details| ==> Consistent(details[i])
  }

  lemma ConsistentConcat(a: seq<Detail>, b: seq<Detail>)
    requires AllConsistent(a) && AllConsistent(b)
    ensures AllConsistent(a + b)
  {
    forall i | 0 <= i < |a + b| ensures Consistent((a + b)[i]) {
      if i < |a| { assert (a + b)[i] == a[i]; } else { assert (a + b)[i] == b[i - |a|]; }
    }
  }

  ghost predicate TrialsKnown(ts: seq<Trial>, ms: seq<MatchResult>) {
    forall i :: 0 <= i < |ms| ==> ms[i].nctId in TrialIds(ts)
  }

  /** Every row is consistent and belongs to the patient. */
  lemma {:induction false} MatchDetailsConsistent(patientId: string, p: Patient, ts: seq<Trial>, ms: seq<MatchResult>, matched: MatchedChars)
    ensures AllConsistent(MatchDetails(patientId, p, ts, ms, matched))
  {
    if |ms| > 0 {
      var n := |ms| - 1;
      MatchDetailsConsistent(patientId, p, ts, ms[..n], matched);
      match FindTrial(ts, ms[n].nctId)
      case Some(t) =>
        DetailIsStrictOracle(patientId, p, t, ms[n].nctId, MatchScore(p, t, matched));
        ConsistentConcat(MatchDetails(patientId, p, ts, ms[..n], matched),
                         [DetailOf(patientId, p, t, ms[n].nctId, MatchScore(p, t, matched))]);
      case None =>
    }
  }

  lemma TrialsKnownPrefix(ts: seq<Trial>, ms: seq<MatchResult>, n: int)
    requires TrialsKnown(ts, ms) && 0 <= n <= |ms|
    ensures TrialsKnown(ts, ms[..n])
  {
    assert forall i :: 0 <= i < n ==> ms[..n][i] == ms[i];
  }

  /** Every top match whose trial is known yields one row. */
  lemma {:induction false} MatchDetailsSize(patientId: string, p: Patient, ts: seq<Trial>, ms: seq<MatchResult>, matched: MatchedChars)
    requires TrialsKnown(ts, ms)
    ensures |MatchDetails(patientId, p, ts, ms, matched)| == |ms|
  {
    if |ms| > 0 {
      var n := |ms| - 1;
      TrialsKnownPrefix(ts, ms, n);
      MatchDetailsSize(patientId, p, ts, ms[..n], matched);
      var t := TrialOf(ts, ms[n].nctId);
    }
  }

  lemma PatientDetailsSize(ds: Dataset, id: string, matched: MatchedChars)
    requires TopKnown(ds, id)
    ensures |PatientDetails(ds, id, matched)| == Min(TopMatches, |CachedMatches(ds, id)|)
  {
    var p := FindPatient(ds.patients, id).value;
    MatchDetailsSize(id, p, ds.trials, TopMatchesOf(ds, id), matched);
  }

  lemma PatientDetailsConsistent(ds: Dataset, id: string, matched: MatchedChars)
    ensures AllConsistent(PatientDetails(ds, id, matched))
  {
    match FindPatient(ds.patients, id)
    case Some(p) => MatchDetailsConsistent(id, p, ds.trials, TopMatchesOf(ds, id), matched);
    case None =>
  }

  ghost predicate AllTopKnown(ds: Dataset, ids: seq<string>) {
    forall k :: 0 <= k < |ids| ==> TopKnown(ds, ids[k])
  }

  /** `len(validation_results)` is the sum of `min(5, len(matches))` over
      the sampled patients. */
  lemma {:induction false} StrictDetailsSize(ds: Dataset, ids: seq<string>, matched: MatchedChars)
    requires AllTopKnown(ds, ids)
    ensures |StrictDetails(ds, ids, matched)| == TopTotal(ds, ids)
  {
    if |ids| > 0 {
      var n := |ids| - 1;
      var init := ids[..n];
      assert AllTopKnown(ds, init) by {
        forall k | 0 <= k < n ensures TopKnown(ds, init[k]) {
          assert init[k] == ids[k];
        }
      }
      StrictDetailsSize(ds, init, matched);
      PatientDetailsSize(ds, ids[n], matched);
    }
  }

  /** Every row of `details` is consistent. */
  lemma {:induction false} StrictDetailsConsistent(ds: Dataset, ids: seq<string>, matched: MatchedChars)
    ensures AllConsistent(StrictDetails(ds, ids, matched))
  {
    if |ids| > 0 {
      var n := |ids| - 1;
      StrictDetailsConsistent(ds, ids[..n], matched);
      PatientDetailsConsistent(ds, ids[n], matched);
      ConsistentConcat(StrictDetails(ds, ids[..n], matched), PatientDetails(ds, ids[n], matched));
    }
  }

  /** `sum(validation_results)`. */
  function ValidCount(details: seq<Detail>): (r: nat)
    ensures r <= |details|
  {
    if |details| == 0 then 0
    else ValidCount(details[..|details| - 1]) + (if details[|details| - 1].overallValid then 1 else 0)
  }

  /** `[d for d in details if not d["overall_valid"]]`. */
  function Failures(details: seq<Detail>): (r: seq<Detail>)
    ensures |r| == |details| - ValidCount(details)
    ensures forall d :: d in r <==> d in details && !d.overallValid
  {
    if |details| == 0 then []
    else
      var n := |details| - 1;
      assert forall d :: d in details <==> d in details[..n] || d == details[n];
      Failures(details[..n]) + (if details[n].overallValid then [] else [details[n]])
  }

  datatype Check = ScoreCheck | AgeCheck | GenderCheck | KeywordCheck

  function Passes(d: Detail, c: Check): bool {
    match c
    case ScoreCheck => d.scoreValid
    case AgeCheck => d.ageValid
    case GenderCheck => d.genderValid
    case KeywordCheck => d.keywordValid
  }

  /** `sum(1 for d in failed if not d[check])`. */
  function CountFailing(failed: seq<Detail>, c: Check): (r: nat)
    ensures r <= |failed|
  {
    if |failed| == 0 then 0
    else CountFailing(failed[..|failed| - 1], c) + (if Passes(failed[|failed| - 1], c) then 0 else 1)
  }

  datatype FailureBreakdown = FailureBreakdown(
    scoreTooLow: nat, ageMismatch: nat, genderMismatch: nat, insufficientKeywords: nat)
  {
    function Sum(): nat { scoreTooLow + ageMismatch + genderMismatch + insufficientKeywords }
  }

  /** `failure_reasons`. */
  function Breakdown(failed: seq<Detail>): FailureBreakdown {
    FailureBreakdown(CountFailing(failed, ScoreCheck), CountFailing(failed, AgeCheck),
                     CountFailing(failed, GenderCheck), CountFailing(failed, KeywordCheck))
  }

  /** A failed consistent row fails at least one check, so it is counted
      at least once. */
  lemma {:induction false} BreakdownCovers(failed: seq<Detail>)
    requires forall i :: 0 <= i < |failed| ==> Consistent(failed[i]) && !failed[i].overallValid
    ensures Breakdown(failed).Sum() >= |failed|
  {
    if |failed| > 0 {
      var n := |failed| - 1;
      assert forall i :: 0 <= i < n ==> failed[..n][i] == failed[i];
      BreakdownCovers(failed[..n]);
      assert Consistent(failed[n]) && !failed[n].overallValid;
    }
  }

  /** Each counter of the breakdown is at most the number of failed rows,
      together they cover every failed row, and there are as many failed
      rows as rows that are not valid. */
  lemma BreakdownBounds(details: seq<Detail>)
    requires AllConsistent(details)
    ensures var failed := Failures(details); var b := Breakdown(failed);
      && |failed| == |details| - ValidCount(details)
      && b.scoreTooLow <= |failed| && b.ageMismatch <= |failed|
      && b.genderMismatch <= |failed| && b.insufficientKeywords <= |failed|
      && b.Sum() >= |failed|
  {
    var failed := Failures(details);
    forall i | 0 <= i < |failed| ensures Consistent(failed[i]) && !failed[i].overallValid {
      assert failed[i] in failed;
      var j :| 0 <= j < |details| && details[j] == failed[i];
    }
    BreakdownCovers(failed);
  }

  datatype StrictSummary = StrictSummary(
    accuracy: real, totalEvaluated: nat, validMatches: nat, failureReasons: FailureBreakdown)

  /** The inner loop of `validate_strict_heuristic` for one patient. */
  method PatientStrictDetails(ds: Dataset, patientId: string, matched: MatchedChars) returns (details: seq<Detail>)
    requires TopKnown(ds, patientId)
    ensures details == PatientDetails(ds, patientId, matched)
  {
    var patient := FindPatient(ds.patients, patientId).value;
    var matches := TopMatchesOf(ds, patientId);
    details := [];
    for j := 0 to |matches|
      invariant details == MatchDetails(patientId, patient, ds.trials, matches[..j], matched)
    {
      MatchDetailsStep(patientId, patient, ds.trials, matches, matched, j);
      var m := matches[j];
      var trial := TrialOf(ds.trials, m.nctId);
      var score, reasons := CalculateMatchScore(patient, trial, matched);
      var keywordOverlap := KeywordSet(patient.keywords) * KeywordSet(trial.keywords);
      var ageValid := trial.ageMin <= patient.age <= trial.ageMax;
      var genderValid := trial.gender == "ALL" || Upper(trial.gender) == Upper(patient.gender);
      var scoreValid := score >= StrictScore;
      var keywordValid := |keywordOverlap| >= StrictKeywords;
      var isValid := ageValid && genderValid && scoreValid && keywordValid;
      details := details + [Detail(patientId, m.nctId, score, ageValid, genderValid, scoreValid, keywordValid, isValid)];
    }
    assert matches[..|matches|] == matches;
  }

  /** `validate_strict_heuristic(num_samples)`; `ids` is the patient sample.
      The number of rows is the sum of `min(5, len(matches))`, the valid
      rows are those the strict oracle accepts, and the breakdown is
      bounded as `BreakdownBounds` states. */
  method ValidateStrictHeuristic(ds: Dataset, ids: seq<string>, numSamples: nat, matched: MatchedChars)
    returns (summary: StrictSummary, details: seq<Detail>)
    requires TopEvaluable(ds, ids, numSamples)
    ensures details == StrictDetails(ds, ids, matched)
    ensures summary.totalEvaluated == |details| == TopTotal(ds, ids)
    ensures summary.validMatches == ValidCount(details) <= summary.totalEvaluated
    ensures summary.accuracy == Ratio(summary.validMatches, summary.totalEvaluated)
    ensures summary.failureReasons == Breakdown(Failures(details))
    ensures var b := summary.failureReasons; var failed := summary.totalEvaluated - summary.validMatches;
      && b.scoreTooLow <= failed && b.ageMismatch <= failed && b.genderMismatch <= failed
      && b.insufficientKeywords <= failed && b.Sum() >= failed
  {
    details := [];
    for k := 0 to |ids|
      invariant details == StrictDetails(ds, ids[..k], matched)
    {
      StrictDetailsStep(ds, ids, matched, k);
      var patientDetails := PatientStrictDetails(ds, ids[k], matched);
      details := details + patientDetails;
    }
    assert ids[..|ids|] == ids;
    StrictDetailsSize(ds, ids, matched);
    StrictDetailsConsistent(ds, ids, matched);
    BreakdownBounds(details);

    var total := |details|;
    var valid := ValidCount(details);
    var accuracy := if total > 0 then valid as real / total as real else 0.0;
    var failed := Failures(details);
    summary := StrictSummary(accuracy, total, valid, Breakdown(failed));
  }

  // ---------------------------------------------------------------------
  // Approach 2: negative cases

  /** `patients_df.sample(min(n, len(patients_df)))`: rows of the table,
      as many as asked for or all of them. */
  ghost predicate RowSample<T>(s: seq<T>, rows: seq<T>, n: nat) {
    |s| == Min(n, |rows|) && forall i :: 0 <= i < |s| ==> s[i] in rows
  }

  /** How many patients and how many trials are sampled. */
  const NegativeSample := 10

  datatype MismatchType = AgeKind | GenderKind

  datatype NegativeCase = NegativeCase(
    patientAge: int, trialAgeRange: string, patientGender: string, trialGender: string,
    score: int, correctlyRejected: bool, mismatchType: MismatchType)

  /** A pair the oracle calls incompatible: the age is outside the range,
      or the trial names a gender other than the patient's. */
  predicate Incompatible(p: Patient, t: Trial) {
    var ageMismatch := !(t.ageMin <= p.age <= t.ageMax);
    var genderMismatch := t.gender != "ALL" && Upper(t.gender) != Upper(p.gender);
    ageMismatch || genderMismatch
  }

  function CaseOf(p: Patient, t: Trial, matched: MatchedChars): NegativeCase {
    var score := MatchScore(p, t, matched);
    NegativeCase(p.age, IntToString(t.ageMin) + "-" + IntToString(t.ageMax), p.gender, t.gender,
                 score, score < RejectionScore,
                 if !(t.ageMin <= p.age <= t.ageMax) then AgeKind else GenderKind)
  }

  /** The inner loop: one case per incompatible trial, in trial order. */
  function TrialCases(p: Patient, ts: seq<Trial>, matched: MatchedChars): seq<NegativeCase> {
    if |ts| == 0 then []
    else
      var n := |ts| - 1;
      TrialCases(p, ts[..n], matched) + (if Incompatible(p, ts[n]) then [CaseOf(p, ts[n], matched)] else [])
  }

  /** `negative_cases`, patient after patient. */
  function NegativeCases(ps: seq<Patient>, ts: seq<Trial>, matched: MatchedChars): seq<NegativeCase> {
    if |ps| == 0 then []
    else NegativeCases(ps[..|ps| - 1], ts, matched) + TrialCases(ps[|ps| - 1], ts, matched)
  }

  /** `sum(c["correctly_rejected"] for c in cases)`. */
  function RejectedCount(cases: seq<NegativeCase>): (r: nat)
    ensures r <= |cases|
  {
    if |cases| == 0 then 0
    else RejectedCount(cases[..|cases| - 1]) + (if cases[|cases| - 1].correctlyRejected then 1 else 0)
  }

  /** A case is of the age kind exactly when the age is out of range, it
      counts as rejected exactly when it scores below 40, an age mismatch
      can score at most 80, and a gender mismatch whose required gender
      does not upper-case to "ALL" at most 90. */
  lemma CaseOfFacts(p: Patient, t: Trial, matched: MatchedChars)
    requires Incompatible(p, t)
    ensures var c := CaseOf(p, t, matched);
      && (c.mismatchType == AgeKind <==> !AgeValid(p, t))
      && (c.mismatchType == GenderKind ==> !GenderValid(p, t))
      && (c.correctlyRejected <==> c.score < RejectionScore)
      && c.score == MatchScore(p, t, matched)
      && (!AgeValid(p, t) ==> c.score <= 100 - AgeWeight)
      && (!GenderValid(p, t) && Upper(t.gender) != "ALL" ==> c.score <= 100 - GenderWeight)
  {
    ConditionPointsBound(p, t, matched);
  }

  /** A trial whose gender is spelt "all" is an incompatible pair for a
      male patient, yet the scorer gives it age and gender marks, so with
      one shared keyword the case scores 40 and is not rejected. */
  lemma NegativeCaseSpellingGap(matched: MatchedChars)
    ensures var p := Patient("P1", 40, "MALE", [], ["a"]);
      var t := Trial("NCT1", "", "", 18, 65, "all", ["a"]);
      Incompatible(p, t) && CaseOf(p, t, matched).score == 40 && !CaseOf(p, t, matched).correctlyRejected
  {
    var p := Patient("P1", 40, "MALE", [], ["a"]);
    var t := Trial("NCT1", "", "", 18, 65, "all", ["a"]);
    assert Upper("all") == "ALL";
    assert Upper("MALE") == "MALE";
    var ks := KeywordSet(p.keywords);
    assert forall k :: k in ks <==> k == "a" by {
      forall k ensures k in ks <==> k == "a" {
        assert k in ["a"] <==> k == "a";
      }
    }
    assert ks == {"a"};
    assert KeywordSet(t.keywords) == ks;
  }

  /** Every incompatible sampled trial yields its case. */
  lemma {:induction false} TrialCasesComplete(p: Patient, ts: seq<Trial>, matched: MatchedChars, t: Trial)
    requires t in ts && Incompatible(p, t)
    ensures CaseOf(p, t, matched) in TrialCases(p, ts, matched)
  {
    var n := |ts| - 1;
    if t != ts[n] {
      assert ts == ts[..n] + [ts[n]];
      TrialCasesComplete(p, ts[..n], matched, t);
    }
  }

  /** Every case comes from an incompatible sampled trial. */
  lemma {:induction false} TrialCasesSound(p: Patient, ts: seq<Trial>, matched: MatchedChars, c: NegativeCase)
    requires c in TrialCases(p, ts, matched)
    ensures exists t :: t in ts && Incompatible(p, t) && c == CaseOf(p, t, matched)
  {
    var n := |ts| - 1;
    if c in TrialCases(p, ts[..n], matched) {
      TrialCasesSound(p, ts[..n], matched, c);
      var t :| t in ts[..n] && Incompatible(p, t) && c == CaseOf(p, t, matched);
      assert t in ts;
    } else {
      assert ts[n] in ts;
    }
  }

  lemma {:induction false} NegativeCasesComplete(ps: seq<Patient>, ts: seq<Trial>, matched: MatchedChars, p: Patient, t: Trial)
    requires p in ps && t in ts && Incompatible(p, t)
    ensures CaseOf(p, t, matched) in NegativeCases(ps, ts, matched)
  {
    var n := |ps| - 1;
    if p == ps[n] {
      TrialCasesComplete(p, ts, matched, t);
    } else {
      assert ps == ps[..n] + [ps[n]];
      NegativeCasesComplete(ps[..n], ts, matched, p, t);
    }
  }

  lemma {:induction false} NegativeCasesSound(ps: seq<Patient>, ts: seq<Trial>, matched: MatchedChars, c: NegativeCase)
    requires c in NegativeCases(ps, ts, matched)
    ensures exists p, t :: p in ps && t in ts && Incompatible(p, t) && c == CaseOf(p, t, matched)
  {
    var n := |ps| - 1;
    if c in NegativeCases(ps[..n], ts, matched) {
      NegativeCasesSound(ps[..n], ts, matched, c);
      var p, t :| p in ps[..n] && t in ts && Incompatible(p, t) && c == CaseOf(p, t, matched);
      assert p in ps;
    } else {
      TrialCasesSound(ps[n], ts, matched, c);
      assert ps[n] in ps;
    }
  }

  /** The cases are exactly those of the incompatible sampled pairs. */
  lemma NegativeCasesExact(ps: seq<Patient>, ts: seq<Trial>, matched: MatchedChars, c: NegativeCase)
    ensures c in NegativeCases(ps, ts, matched)
      <==> exists p, t :: p in ps && t in ts && Incompatible(p, t) && c == CaseOf(p, t, matched)
  {
    if c in NegativeCases(ps, ts, matched) {
      NegativeCasesSound(ps, ts, matched, c);
    }
    if exists p, t :: p in ps && t in ts && Incompatible(p, t) && c == CaseOf(p, t, matched) {
      var p, t :| p in ps && t in ts && Incompatible(p, t) && c == CaseOf(p, t, matched);
      NegativeCasesComplete(ps, ts, matched, p, t);
    }
  }

  lemma {:induction false} TrialCasesSize(p: Patient, ts: seq<Trial>, matched: MatchedChars)
    ensures |TrialCases(p, ts, matched)| <= |ts|
  {
    if |ts| > 0 {
      TrialCasesSize(p, ts[..|ts| - 1], matched);
    }
  }

  /** At most one case per sampled pair. */
  lemma {:induction false} NegativeCasesSize(ps: seq<Patient>, ts: seq<Trial>, matched: MatchedChars)
    ensures |NegativeCases(ps, ts, matched)| <= |ps| * |ts|
  {
    if |ps| > 0 {
      NegativeCasesSize(ps[..|ps| - 1], ts, matched);
      TrialCasesSize(ps[|ps| - 1], ts, matched);
      assert (|ps| - 1) * |ts| + |ts| == |ps| * |ts|;
    }
  }

  datatype NegativeSummary = NegativeSummary(rejectionAccuracy: real, casesTested: nat, correctlyRejected: nat)

  method PatientCases(p: Patient, sampleTrials: seq<Trial>, matched: MatchedChars) returns (cases: seq<NegativeCase>)
    ensures cases == TrialCases(p, sampleTrials, matched)
  {
    cases := [];
    for j := 0 to |sampleTrials|
      invariant cases == TrialCases(p, sampleTrials[..j], matched)
    {
      var trial := sampleTrials[j];
      assert sampleTrials[..j + 1][..j] == sampleTrials[..j];
      var ageMismatch := !(trial.ageMin <= p.age <= trial.ageMax);
      var genderMismatch := trial.gender != "ALL" && Upper(trial.gender) != Upper(p.gender);
      if ageMismatch || genderMismatch {
        var score, reasons := CalculateMatchScore(p, trial, matched);
        var correctlyRejected := score < RejectionScore;
        cases := cases + [NegativeCase(p.age, IntToString(trial.ageMin) + "-" + IntToString(trial.ageMax),
                                       p.gender, trial.gender, score, correctlyRejected,
                                       if ageMismatch then AgeKind else GenderKind)];
      }
    }
    assert sampleTrials[..|sampleTrials|] == sampleTrials;
  }

  /** `validate_negative_cases()`, on the sampled rows: no summary when no
      pair is incompatible, otherwise the share of cases scoring below 40,
      with at most 100 cases. */
  method ValidateNegativeCases(ps: seq<Patient>, ts: seq<Trial>, samplePatients: seq<Patient>, sampleTrials: seq<Trial>, matched: MatchedChars)
    returns (result: Option<NegativeSummary>, cases: seq<NegativeCase>)
    requires RowSample(samplePatients, ps, NegativeSample) && RowSample(sampleTrials, ts, NegativeSample)
    ensures cases == NegativeCases(samplePatients, sampleTrials, matched)
    ensures |cases| <= NegativeSample * NegativeSample
    ensures result.None? <==> |cases| == 0
    ensures result.Some? ==>
      && result.value.casesTested == |cases|
      && result.value.correctlyRejected == RejectedCount(cases)
      && result.value.rejectionAccuracy == Ratio(RejectedCount(cases), |cases|)
      && 0.0 <= result.value.rejectionAccuracy <= 1.0
  {
    cases := [];
    for i := 0 to |samplePatients|
      invariant cases == NegativeCases(samplePatients[..i], sampleTrials, matched)
    {
      assert samplePatients[..i + 1][..i] == samplePatients[..i];
      var patientCases := PatientCases(samplePatients[i], sampleTrials, matched);
      cases := cases + patientCases;
    }
    assert samplePatients[..|samplePatients|] == samplePatients;
    NegativeCasesSize(samplePatients, sampleTrials, matched);
    assert |samplePatients| * |sampleTrials| <= NegativeSample * NegativeSample by {
      MultiplyBound(|samplePatients|, |sampleTrials|, NegativeSample);
    }
    if |cases| > 0 {
      var rejected := RejectedCount(cases);
      result := Some(NegativeSummary(rejected as real / |cases| as real, |cases|, rejected));
    } else {
      result := None;
    }
  }

  lemma MultiplyBound(a: nat, b: nat, n: nat)
    requires a <= n && b <= n
    ensures a * b <= n * n
  {
    assert a * b <= n * b;
  }

  // ---------------------------------------------------------------------
  // Approach 3: score distribution

  /** Every cached score, patient after patient, in list order. */
  function AllScores(entries: Entries): seq<int> {
    if |entries| == 0 then []
    else AllScores(entries[..|entries| - 1]) + Scores(entries[|entries| - 1].1)
  }

  /** The score of each patient's first match, for patients with one. */
  function TopScores(entries: Entries): seq<int> {
    if |entries| == 0 then []
    else
      var ms := entries[|entries| - 1].1;
      TopScores(entries[..|entries| - 1]) + (if |ms| > 0 then [ms[0].score] else [])
  }

  /** One score per match and one top score per patient with matches; so
      whenever there is a score there is a top score, and the second
      average of `analyze_score_distribution` never divides by zero. */
  lemma {:induction false} ScoreCounts(entries: Entries)
    ensures |AllScores(entries)| == TotalLength(entries)
    ensures |TopScores(entries)| == NonEmptyCount(entries)
    ensures |AllScores(entries)| > 0 ==> |TopScores(entries)| > 0
  {
    if |entries| > 0 {
      ScoreCounts(entries[..|entries| - 1]);
    }
    NonEmptyAtMostTotal(entries);
  }

  /** `sum(1 for s in scores if s >= v)`. */
  function CountAtLeast(s: seq<int>, v: int): (r: nat)
    ensures r <= |s|
  {
    if |s| == 0 then 0 else CountAtLeast(s[..|s| - 1], v) + (if s[|s| - 1] >= v then 1 else 0)
  }

  /** `sum(1 for s in scores if lo <= s < hi)`. */
  function CountBetween(s: seq<int>, lo: int, hi: int): (r: nat)
    ensures r <= |s|
  {
    if |s| == 0 then 0 else CountBetween(s[..|s| - 1], lo, hi) + (if lo <= s[|s| - 1] < hi then 1 else 0)
  }

  /** `sum(1 for s in scores if s < v)`. */
  function CountBelow(s: seq<int>, v: int): (r: nat)
    ensures r <= |s|
  {
    if |s| == 0 then 0 else CountBelow(s[..|s| - 1], v) + (if s[|s| - 1] < v then 1 else 0)
  }

  /** Splitting a tier at `hi`: the scores from `lo` up are those from
      `hi` up plus those in `[lo, hi)`, and those below `v` are the rest. */
  lemma {:induction false} CountSplit(s: seq<int>, lo: int, hi: int)
    requires lo <= hi
    ensures CountAtLeast(s, lo) == CountAtLeast(s, hi) + CountBetween(s, lo, hi)
    ensures CountAtLeast(s, lo) + CountBelow(s, lo) == |s|
  {
    if |s| > 0 {
      CountSplit(s[..|s| - 1], lo, hi);
    }
  }

  const Excellent := 70
  const Good := 50
  const Fair := 40
  const LikelyValid := 60

  /** The four tiers partition the scores, and the share counted as
      likely valid (60 and up) lies between the excellent tier and the
      excellent and good tiers together. */
  lemma TiersPartition(s: seq<int>)
    ensures CountAtLeast(s, Excellent) + CountBetween(s, Good, Excellent)
      + CountBetween(s, Fair, Good) + CountBelow(s, Fair) == |s|
    ensures CountAtLeast(s, Excellent) <= CountAtLeast(s, LikelyValid)
      <= CountAtLeast(s, Excellent) + CountBetween(s, Good, Excellent)
  {
    CountSplit(s, Good, Excellent);
    CountSplit(s, Fair, Good);
    CountSplit(s, Fair, Fair);
    CountSplit(s, LikelyValid, Excellent);
    CountSplit(s, Good, LikelyValid);
  }

  datatype ScoreDistribution = ScoreDistribution(
    totalMatches: nat, avgScore: real, avgTopScore: real,
    excellent: nat, good: nat, fair: nat, poor: nat,
    excellentPercent: real, estimatedAccuracyPercent: real)

  /** `sum(s) / len(s)`, exactly. */
  function Mean(s: seq<int>): real
    requires |s| > 0
  {
    Sum(s) as real / |s| as real
  }

  /** The mean times the number of scores is their sum. */
  lemma MeanTimes(s: seq<int>)
    requires |s| > 0
    ensures Mean(s) * |s| as real == Sum(s) as real
  {
    QuotientTimes(Sum(s) as real, |s| as real);
  }

  /** The statistics of `analyze_score_distribution`, before rounding. */
  function Distribution(all: seq<int>, top: seq<int>): ScoreDistribution
    requires |all| > 0 && |top| > 0
  {
    ScoreDistribution(
      |all|, Mean(all), Mean(top),
      CountAtLeast(all, Excellent), CountBetween(all, Good, Excellent),
      CountBetween(all, Fair, Good), CountBelow(all, Fair),
      CountAtLeast(all, Excellent) as real / |all| as real * 100.0,
      CountAtLeast(all, LikelyValid) as real / |all| as real * 100.0)
  }

  lemma PercentOrder(a: nat, b: nat, n: nat)
    requires a <= b <= n && n > 0
    ensures 0.0 <= a as real / n as real * 100.0 <= b as real / n as real * 100.0 <= 100.0
  {
    assert a as real / n as real <= b as real / n as real;
    assert b as real / n as real <= 1.0;
  }

  /** The averages are the means of all scores and of the top scores
      (see `MeanTimes`), the tiers add up to the number of matches, and
      the excellent share is at most the estimated accuracy, which is a
      percentage. */
  lemma DistributionTiers(all: seq<int>, top: seq<int>)
    requires |all| > 0 && |top| > 0
    ensures var d := Distribution(all, top);
      && d.avgScore == Mean(all) && d.avgTopScore == Mean(top)
      && d.excellent + d.good + d.fair + d.poor == d.totalMatches == |all|
      && 0.0 <= d.excellentPercent <= d.estimatedAccuracyPercent <= 100.0
  {
    TiersPartition(all);
    PercentOrder(CountAtLeast(all, Excellent), CountAtLeast(all, LikelyValid), |all|);
  }

  /** The inner loop over one patient's matches. */
  method EntryScores(matches: seq<MatchResult>) returns (scores: seq<int>, top: seq<int>)
    ensures scores == Scores(matches)
    ensures top == if |matches| > 0 then [matches[0].score] else []
  {
    scores := [];
    top := [];
    for i := 0 to |matches|
      invariant scores == Scores(matches[..i])
      invariant top == if i > 0 then [matches[0].score] else []
    {
      scores := scores + [matches[i].score];
      if i == 0 {
        top := top + [matches[i].score];
      }
    }
    assert matches[..|matches|] == matches;
  }

  /** `analyze_score_distribution()` on the cached matches: nothing when
      there is no match, otherwise the distribution of all scores and of
      the top scores, whose facts `DistributionTiers` states. */
  method AnalyzeScoreDistribution(allMatches: MatchSet) returns (result: Option<ScoreDistribution>)
    ensures result.None? <==> TotalLength(allMatches) == 0
    ensures result.Some? ==>
      && |AllScores(allMatches)| > 0 && |TopScores(allMatches)| > 0
      && result.value == Distribution(AllScores(allMatches), TopScores(allMatches))
      && result.value.totalMatches == TotalLength(allMatches)
  {
    var allScores: seq<int> := [];
    var topScores: seq<int> := [];
    for k := 0 to |allMatches|
      invariant allScores == AllScores(allMatches[..k])
      invariant topScores == TopScores(allMatches[..k])
    {
      assert allMatches[..k + 1][..k] == allMatches[..k];
      var scores, top := EntryScores(allMatches[k].1);
      allScores := allScores + scores;
      topScores := topScores + top;
    }
    assert allMatches[..|allMatches|] == allMatches;
    ScoreCounts(allMatches);
    if |allScores| == 0 {
      return None;
    }
    result := Some(Distribution(allScores, topScores));
  }

  // ---------------------------------------------------------------------
  // Approach 4: the threshold sweep

  const SweepThresholds := [30, 40, 50, 60, 70, 80]
  const SweepSampleSize := 30

  lemma SweepThresholdsStep(k: int)
    requires 0 <= k < |SweepThresholds|
    ensures SweepThresholds[k] == 30 + 10 * k
  {
    if k == 0 {} else if k == 1 {} else if k == 2 {} else if k == 3 {} else if k == 4 {} else {}
  }

  /** A re-scored match passes the sweep at `threshold` when it reaches
      the threshold and its age and gender checks hold. */
  predicate PassesSweep(d: Detail, threshold: int) {
    d.score >= threshold && d.ageValid && d.genderValid
  }

  /** `valid` at one threshold, over the re-scored rows. */
  function SweepCount(details: seq<Detail>, threshold: int): (r: nat)
    ensures r <= |details|
  {
    if |details| == 0 then 0
    else SweepCount(details[..|details| - 1], threshold) + (if PassesSweep(details[|details| - 1], threshold) then 1 else 0)
  }

  lemma {:induction false} SweepCountConcat(a: seq<Detail>, b: seq<Detail>, threshold: int)
    ensures SweepCount(a + b, threshold) == SweepCount(a, threshold) + SweepCount(b, threshold)
  {
    if |b| > 0 {
      var n := |b| - 1;
      assert (a + b)[..|a + b| - 1] == a + b[..n];
      SweepCountConcat(a, b[..n], threshold);
    } else {
      assert a + b == a;
    }
  }

  lemma SweepCountSnoc(details: seq<Detail>, d: Detail, threshold: int)
    ensures SweepCount(details + [d], threshold) == SweepCount(details, threshold) + (if PassesSweep(d, threshold) then 1 else 0)
  {
    assert (details + [d])[..|details|] == details;
  }

  /** Raising the threshold never adds a valid match. */
  lemma {:induction false} SweepCountMonotone(details: seq<Detail>, t1: int, t2: int)
    requires t1 <= t2
    ensures SweepCount(details, t2) <= SweepCount(details, t1)
  {
    if |details| > 0 {
      SweepCountMonotone(details[..|details| - 1], t1, t2);
    }
  }

  /** A match the strict heuristic accepts passes the sweep at 60 and
      below, so the strict valid count is at most the sweep's there. */
  lemma {:induction false} StrictWithinSweep(details: seq<Detail>, threshold: int)
    requires AllConsistent(details) && threshold <= StrictScore
    ensures ValidCount(details) <= SweepCount(details, threshold)
  {
    if |details| > 0 {
      var n := |details| - 1;
      assert AllConsistent(details[..n]) by {
        forall i | 0 <= i < n ensures Consistent(details[..n][i]) {
          assert details[..n][i] == details[i];
        }
      }
      StrictWithinSweep(details[..n], threshold);
      assert Consistent(details[n]);
    }
  }

  datatype SweepRow = SweepRow(threshold: int, accuracy: real, valid: nat, total: nat)

  /** One row of the sweep over the re-scored rows `details`. */
  ghost predicate RowOf(details: seq<Detail>, k: int, row: SweepRow)
    requires 0 <= k < |SweepThresholds|
  {
    && row.threshold == SweepThresholds[k]
    && row.valid == SweepCount(details, SweepThresholds[k])
    && row.total == |details|
    && row.accuracy == Ratio(row.valid, row.total) * 100.0
  }

  ghost predicate RowsOf(details: seq<Detail>, rows: seq<SweepRow>) {
    |rows| <= |SweepThresholds| && forall k :: 0 <= k < |rows| ==> RowOf(details, k, rows[k])
  }

  lemma RowsOfSnoc(details: seq<Detail>, rows: seq<SweepRow>, row: SweepRow)
    requires RowsOf(details, rows) && |rows| < |SweepThresholds| && RowOf(details, |rows|, row)
    ensures RowsOf(details, rows + [row])
  {
    var r := rows + [row];
    forall k | 0 <= k < |r| ensures RowOf(details, k, r[k]) {
      if k < |rows| {
        assert r[k] == rows[k];
      } else {
        assert r[k] == row;
      }
    }
  }

  /** Every row counts the same matches, and the valid counts never grow
      from one threshold to the next. */
  lemma RowsShrink(details: seq<Detail>, rows: seq<SweepRow>, k: int, l: int)
    requires RowsOf(details, rows) && 0 <= k <= l < |rows|
    ensures rows[l].valid <= rows[k].valid && rows[l].total == rows[k].total
  {
    assert RowOf(details, k, rows[k]) && RowOf(details, l, rows[l]);
    SweepThresholdsStep(k);
    SweepThresholdsStep(l);
    SweepCountMonotone(details, SweepThresholds[k], SweepThresholds[l]);
  }

  /** A match counts as valid in the sweep: its fresh score reaches the
      threshold and the age and gender checks hold. */
  predicate SweepPasses(p: Patient, t: Trial, threshold: int, matched: MatchedChars) {
    MatchScore(p, t, matched) >= threshold && AgeValid(p, t) && GenderValid(p, t)
  }

  /** One more re-scored match adds one row, and one valid match when it
      reaches the threshold with its age and gender checks holding. */
  lemma SweepStep(patientId: string, p: Patient, ts: seq<Trial>, ms: seq<MatchResult>, matched: MatchedChars, j: int, threshold: int)
    requires 0 <= j < |ms| && ms[j].nctId in TrialIds(ts)
    ensures var t := TrialOf(ts, ms[j].nctId);
      var before, after := MatchDetails(patientId, p, ts, ms[..j], matched), MatchDetails(patientId, p, ts, ms[..j + 1], matched);
      && |after| == |before| + 1
      && SweepCount(after, threshold) == SweepCount(before, threshold) + (if SweepPasses(p, t, threshold, matched) then 1 else 0)
  {
    var t := TrialOf(ts, ms[j].nctId);
    MatchDetailsStep(patientId, p, ts, ms, matched, j);
    SweepCountSnoc(MatchDetails(patientId, p, ts, ms[..j], matched), DetailOf(patientId, p, t, ms[j].nctId, MatchScore(p, t, matched)), threshold);
  }

  /** One sampled patient at one threshold: the patient row and the top
      five cached matches, then the innermost loop. */
  method SweepPatient(ds: Dataset, patientId: string, threshold: int, matched: MatchedChars) returns (valid: nat, total: nat)
    requires TopKnown(ds, patientId)
    ensures valid == SweepCount(PatientDetails(ds, patientId, matched), threshold)
    ensures total == |PatientDetails(ds, patientId, matched)|
  {
    var patient := FindPatient(ds.patients, patientId).value;
    valid, total := SweepMatches(patientId, patient, ds.trials, TopMatchesOf(ds, patientId), threshold, matched);
  }

  /** The innermost loop: re-score each match of one patient. */
  method SweepMatches(patientId: string, patient: Patient, trials: seq<Trial>, matches: seq<MatchResult>, threshold: int, matched: MatchedChars)
    returns (valid: nat, total: nat)
    requires forall i :: 0 <= i < |matches| ==> matches[i].nctId in TrialIds(trials)
    ensures valid == SweepCount(MatchDetails(patientId, patient, trials, matches, matched), threshold)
    ensures total == |MatchDetails(patientId, patient, trials, matches, matched)|
  {
    valid, total := 0, 0;
    for j := 0 to |matches|
      invariant valid == SweepCount(MatchDetails(patientId, patient, trials, matches[..j], matched), threshold)
      invariant total == |MatchDetails(patientId, patient, trials, matches[..j], matched)|
    {
      SweepStep(patientId, patient, trials, matches, matched, j, threshold);
      var passes := SweepMatch(patient, TrialOf(trials, matches[j].nctId), threshold, matched);
      if passes {
        valid := valid + 1;
      }
      total := total + 1;
    }
    assert matches[..|matches|] == matches;
  }

  /** The body of the innermost loop: re-score one match and test the
      threshold together with the age and gender checks. */
  method SweepMatch(patient: Patient, trial: Trial, threshold: int, matched: MatchedChars) returns (passes: bool)
    ensures passes == SweepPasses(patient, trial, threshold, matched)
  {
    var score, reasons := CalculateMatchScore(patient, trial, matched);
    var ageValid := trial.ageMin <= patient.age <= trial.ageMax;
    var genderValid := trial.gender == "ALL" || Upper(trial.gender) == Upper(patient.gender);
    passes := score >= threshold && ageValid && genderValid;
  }

  /** The middle loop: every sampled patient at one threshold. */
  method SweepAt(ds: Dataset, ids: seq<string>, threshold: int, matched: MatchedChars) returns (valid: nat, total: nat)
    requires AllTopKnown(ds, ids)
    ensures valid == SweepCount(StrictDetails(ds, ids, matched), threshold)
    ensures total == |StrictDetails(ds, ids, matched)|
  {
    valid, total := 0, 0;
    for k := 0 to |ids|
      invariant valid == SweepCount(StrictDetails(ds, ids[..k], matched), threshold)
      invariant total == |StrictDetails(ds, ids[..k], matched)|
    {
      StrictDetailsStep(ds, ids, matched, k);
      var patientValid, patientTotal := SweepPatient(ds, ids[k], threshold, matched);
      SweepCountConcat(StrictDetails(ds, ids[..k], matched), PatientDetails(ds, ids[k], matched), threshold);
      valid := valid + patientValid;
      total := total + patientTotal;
    }
    assert ids[..|ids|] == ids;
  }

  /** `analyze_multiple_thresholds()`; `ids` is the sample of 30 patients.
      One row per threshold 30, 40, ..., 80, each counting the same
      `sum(min(5, len(matches)))` matches, with valid counts that never
      grow as the threshold rises. */
  method AnalyzeMultipleThresholds(ds: Dataset, ids: seq<string>, matched: MatchedChars) returns (results: seq<SweepRow>)
    requires TopEvaluable(ds, ids, SweepSampleSize)
    ensures |results| == |SweepThresholds|
    ensures RowsOf(StrictDetails(ds, ids, matched), results)
    ensures forall k :: 0 <= k < |results| ==> results[k].total == TopTotal(ds, ids)
    ensures forall k, l :: 0 <= k <= l < |results| ==> results[l].valid <= results[k].valid
  {
    ghost var details := StrictDetails(ds, ids, matched);
    results := [];
    for k := 0 to |SweepThresholds|
      invariant |results| == k
      invariant RowsOf(details, results)
    {
      var threshold := SweepThresholds[k];
      var valid, total := SweepAt(ds, ids, threshold, matched);
      var accuracy := if total > 0 then valid as real / total as real * 100.0 else 0.0;
      var row := SweepRow(threshold, accuracy, valid, total);
      RowsOfSnoc(details, results, row);
      results := results + [row];
    }
    StrictDetailsSize(ds, ids, matched);
    forall k | 0 <= k < |results| ensures results[k].total == TopTotal(ds, ids) {
      assert RowOf(details, k, results[k]);
    }
    forall k, l | 0 <= k <= l < |results| ensures results[l].valid <= results[k].valid {
      RowsShrink(details, results, k, l);
    }
  }
}
