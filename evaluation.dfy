/** The ground-truth oracle and the confusion-matrix evaluation
    (evaluate_fp_fn.py): a cached recommendation is a true or false
    positive according to the oracle, a sampled trial that was not
    recommended is a true or false negative, and the six rates follow. */
module Evaluation {
  import opened Seqs
  import opened Text
  import opened Dicts
  import opened Records
  import opened Matching

  const StrictScore := 60
  const LenientScore := 50
  const StrictKeywords := 2
  /** How many not-recommended trials are sampled per patient. */
  const NegativeSampleSize := 10

  // ---------------------------------------------------------------------
  // The oracle

  predicate AgeValid(p: Patient, t: Trial) {
    t.ageMin <= p.age <= t.ageMax
  }

  /** Unlike the scorer, the oracle tests for "ALL" before upper-casing. */
  predicate GenderValid(p: Patient, t: Trial) {
    t.gender == "ALL" || Upper(t.gender) == Upper(p.gender)
  }

  predicate ScoreValid(score: int, strict: bool) {
    score >= if strict then StrictScore else LenientScore
  }

  function SharedKeywords(p: Patient, t: Trial): nat {
    |KeywordSet(p.keywords) * KeywordSet(t.keywords)|
  }

  predicate KeywordsValid(p: Patient, t: Trial, strict: bool) {
    !strict || SharedKeywords(p, t) >= StrictKeywords
  }

  /** `is_valid_match(patient, trial, score, strict)`. */
  predicate IsValidMatch(p: Patient, t: Trial, score: int, strict: bool) {
    AgeValid(p, t) && GenderValid(p, t) && ScoreValid(score, strict) && KeywordsValid(p, t, strict)
  }

  /** A strictly valid match is valid leniently too. */
  lemma StrictImpliesLenient(p: Patient, t: Trial, score: int)
    ensures IsValidMatch(p, t, score, true) ==> IsValidMatch(p, t, score, false)
    ensures IsValidMatch(p, t, score, false) && score >= StrictScore && SharedKeywords(p, t) >= StrictKeywords
      ==> IsValidMatch(p, t, score, true)
  {
  }

  /** No score rescues an age or gender mismatch. */
  lemma HardCriteria(p: Patient, t: Trial, score: int, strict: bool)
    ensures !AgeValid(p, t) || !GenderValid(p, t) ==> !IsValidMatch(p, t, score, strict)
    ensures AgeValid(p, t) <==> AgeInRange(p, t)
  {
  }

  /** Validity is monotone in the score. */
  lemma ValidityMonotone(p: Patient, t: Trial, s1: int, s2: int, strict: bool)
    requires s1 <= s2
    ensures IsValidMatch(p, t, s1, strict) ==> IsValidMatch(p, t, s2, strict)
  {
  }

  /** Whatever gender the oracle accepts, the scorer accepts as well, and a
      strictly valid match has earned at least 20 keyword points. */
  lemma OracleWithinScorer(p: Patient, t: Trial, score: int, strict: bool)
    ensures GenderValid(p, t) ==> GenderAccepted(p, t)
    ensures IsValidMatch(p, t, score, true) ==> KeywordPoints(p, t) >= StrictKeywords * PointsPerKeyword
  {
    KeywordPointsOfOverlap(p, t);
    if GenderValid(p, t) && t.gender == "ALL" {
      assert Upper(t.gender) == "ALL";
    }
  }

  /** A trial whose gender is spelt "all" is open to everyone for the
      scorer but closed to everyone for the oracle, unless the patient's
      own gender reads "all" too. */
  lemma GenderSpellingGap()
    ensures var p := Patient("P1", 40, "MALE", [], []);
      var t := Trial("NCT1", "", "", 18, 65, "all", []);
      GenderAccepted(p, t) && !GenderValid(p, t)
  {
    var t := Trial("NCT1", "", "", 18, 65, "all", []);
    assert Upper(t.gender) == "ALL";
    assert Upper("MALE") == "MALE";
  }

  // ---------------------------------------------------------------------
  // Explaining a false positive

  function ScoreMessage(score: int, strict: bool): string {
    if strict then "Score " + IntToString(score) + " below strict threshold (60)"
    else "Score " + IntToString(score) + " below lenient threshold (50)"
  }

  function KeywordMessage(shared: nat): string {
    "Only " + NatToString(shared) + " keyword match(es)"
  }

  /** The messages `get_fp_reason` collects, one per failed check, in the
      order age, gender, score, keywords. */
  function Messages(ageOk: bool, genderOk: bool, scoreOk: bool, keywordsOk: bool,
                    score: int, strict: bool, shared: nat): seq<string> {
    (if !ageOk then ["Age mismatch"] else [])
      + (if !genderOk then ["Gender mismatch"] else [])
      + (if !scoreOk then [ScoreMessage(score, strict)] else [])
      + (if !keywordsOk then [KeywordMessage(shared)] else [])
  }

  function FpMessages(p: Patient, t: Trial, score: int, strict: bool): seq<string> {
    Messages(AgeValid(p, t), GenderValid(p, t), ScoreValid(score, strict), KeywordsValid(p, t, strict),
             score, strict, SharedKeywords(p, t))
  }

  function Failed(b: bool): nat { if b then 0 else 1 }

  lemma MessageHeads(score: int, strict: bool, shared: nat)
    ensures |ScoreMessage(score, strict)| > 0 && ScoreMessage(score, strict)[0] == 'S'
    ensures |KeywordMessage(shared)| > 0 && KeywordMessage(shared)[0] == 'O'
  {
  }

  /** There is one message per failed check, so none exactly when every
      check passes. */
  lemma MessagesCount(ageOk: bool, genderOk: bool, scoreOk: bool, keywordsOk: bool,
                      score: int, strict: bool, shared: nat)
    ensures var msgs := Messages(ageOk, genderOk, scoreOk, keywordsOk, score, strict, shared);
      && |msgs| == Failed(ageOk) + Failed(genderOk) + Failed(scoreOk) + Failed(keywordsOk)
      && (msgs == [] <==> ageOk && genderOk && scoreOk && keywordsOk)
  {
  }

  /** No message starts with the letter of "Unknown". */
  lemma MessagesHeads(ageOk: bool, genderOk: bool, scoreOk: bool, keywordsOk: bool,
                      score: int, strict: bool, shared: nat)
    ensures forall m :: m in Messages(ageOk, genderOk, scoreOk, keywordsOk, score, strict, shared) ==>
      |m| > 0 && m[0] != 'U'
  {
    MessageHeads(score, strict, shared);
  }

  /** The age and gender checks each have their own message. */
  lemma MessagesNamed(ageOk: bool, genderOk: bool, scoreOk: bool, keywordsOk: bool,
                      score: int, strict: bool, shared: nat)
    ensures var msgs := Messages(ageOk, genderOk, scoreOk, keywordsOk, score, strict, shared);
      && ("Age mismatch" in msgs <==> !ageOk)
      && ("Gender mismatch" in msgs <==> !genderOk)
  {
    var am, gm, sm, km := "Age mismatch", "Gender mismatch", ScoreMessage(score, strict), KeywordMessage(shared);
    MessageHeads(score, strict, shared);
    assert am[0] == 'A' && gm[0] == 'G';
    assert am != gm && am != sm && am != km && gm != sm && gm != km;
  }

  /** For a patient and a trial: one message per failed check of the
      oracle, none exactly when the match is valid. */
  lemma FpMessagesExplain(p: Patient, t: Trial, score: int, strict: bool)
    ensures var msgs := FpMessages(p, t, score, strict);
      && |msgs| == Failed(AgeValid(p, t)) + Failed(GenderValid(p, t))
                   + Failed(ScoreValid(score, strict)) + Failed(KeywordsValid(p, t, strict))
      && (msgs == [] <==> IsValidMatch(p, t, score, strict))
      && ("Age mismatch" in msgs <==> !AgeValid(p, t))
      && ("Gender mismatch" in msgs <==> !GenderValid(p, t))
  {
    var a, g, sc, k := AgeValid(p, t), GenderValid(p, t), ScoreValid(score, strict), KeywordsValid(p, t, strict);
    MessagesCount(a, g, sc, k, score, strict, SharedKeywords(p, t));
    MessagesNamed(a, g, sc, k, score, strict, SharedKeywords(p, t));
  }

  /** No list of messages joins to "Unknown". */
  lemma JoinedMessagesNotUnknown(p: Patient, t: Trial, score: int, strict: bool)
    requires FpMessages(p, t, score, strict) != []
    ensures Join(FpMessages(p, t, score, strict), "; ") != "Unknown"
  {
    var msgs := FpMessages(p, t, score, strict);
    MessagesHeads(AgeValid(p, t), GenderValid(p, t), ScoreValid(score, strict), KeywordsValid(p, t, strict),
                  score, strict, SharedKeywords(p, t));
    assert msgs[0] in msgs;
    assert msgs[0] <= Join(msgs, "; ");
  }

  /** `get_fp_reason`. */
  method GetFpReason(p: Patient, t: Trial, score: int, strict: bool) returns (reason: string)
    ensures FpMessages(p, t, score, strict) != [] ==> reason == Join(FpMessages(p, t, score, strict), "; ")
    ensures reason == "Unknown" <==> IsValidMatch(p, t, score, strict)
  {
    ghost var failedAge := if !AgeValid(p, t) then ["Age mismatch"] else [];
    ghost var failedGender := if !GenderValid(p, t) then ["Gender mismatch"] else [];
    ghost var failedScore := if !ScoreValid(score, strict) then [ScoreMessage(score, strict)] else [];
    var reasons: seq<string> := [];
    if !(t.ageMin <= p.age <= t.ageMax) {
      reasons := reasons + ["Age mismatch"];
    }
    assert reasons == failedAge;
    if t.gender != "ALL" && Upper(t.gender) != Upper(p.gender) {
      reasons := reasons + ["Gender mismatch"];
    }
    assert reasons == failedAge + failedGender;
    if strict && score < StrictScore {
      reasons := reasons + ["Score " + IntToString(score) + " below strict threshold (60)"];
    } else if !strict && score < LenientScore {
      reasons := reasons + ["Score " + IntToString(score) + " below lenient threshold (50)"];
    }
    assert reasons == failedAge + failedGender + failedScore;
    if strict {
      var overlap := KeywordSet(p.keywords) * KeywordSet(t.keywords);
      if |overlap| < StrictKeywords {
        reasons := reasons + ["Only " + NatToString(|overlap|) + " keyword match(es)"];
      }
    }
    assert reasons == FpMessages(p, t, score, strict);
    reason := if |reasons| > 0 then Join(reasons, "; ") else "Unknown";
    FpMessagesExplain(p, t, score, strict);
    if |reasons| > 0 {
      JoinedMessagesNotUnknown(p, t, score, strict);
    }
  }

  // ---------------------------------------------------------------------
  // What the system recommended

  /** The cached results scoring at least `threshold`, in cached order. */
  function Passing(ms: seq<MatchResult>, threshold: int): (r: seq<MatchResult>)
    ensures forall m :: m in r <==> m in ms && m.score >= threshold
  {
    if |ms| == 0 then []
    else
      var last := ms[|ms| - 1];
      assert forall m :: m in ms <==> m in ms[..|ms| - 1] || m == last;
      Passing(ms[..|ms| - 1], threshold) + (if last.score >= threshold then [last] else [])
  }

  function NctIds(ms: seq<MatchResult>): (r: seq<string>)
    ensures |r| == |ms| && forall i :: 0 <= i < |ms| ==> r[i] == ms[i].nctId
  {
    seq(|ms|, i requires 0 <= i < |ms| => ms[i].nctId)
  }

  function Scores(ms: seq<MatchResult>): (r: seq<int>)
    ensures |r| == |ms| && forall i :: 0 <= i < |ms| ==> r[i] == ms[i].score
  {
    seq(|ms|, i requires 0 <= i < |ms| => ms[i].score)
  }

  /** `{m["nct_id"]: m["score"] for m in matches if m["score"] >= threshold}`. */
  function Recommended(ms: seq<MatchResult>, threshold: int): Dict<string, int> {
    var passing := Passing(ms, threshold);
    Assign(NctIds(passing), Scores(passing))
  }

  /** A trial id occurs among the passing results exactly when some cached
      result for it clears the threshold. */
  lemma PassingIds(ms: seq<MatchResult>, threshold: int, id: string)
    ensures id in Elements(NctIds(Passing(ms, threshold))) <==> exists m :: m in ms && m.score >= threshold && m.nctId == id
  {
    var passing := Passing(ms, threshold);
    if id in Elements(NctIds(passing)) {
      var i :| 0 <= i < |passing| && NctIds(passing)[i] == id;
      assert passing[i] in passing;
    }
    if exists m :: m in ms && m.score >= threshold && m.nctId == id {
      var m :| m in ms && m.score >= threshold && m.nctId == id;
      var i :| 0 <= i < |passing| && passing[i] == m;
      assert NctIds(passing)[i] == id;
    }
  }

  /** The recommendations hold one entry per distinct trial id among the
      cached results that clear the threshold. */
  lemma RecommendedSize(ms: seq<MatchResult>, threshold: int)
    ensures |Recommended(ms, threshold)| == |Elements(NctIds(Passing(ms, threshold)))|
    ensures forall id :: id in KeySet(Recommended(ms, threshold)) <==>
      exists m :: m in ms && m.score >= threshold && m.nctId == id
  {
    var passing := Passing(ms, threshold);
    AssignSize(NctIds(passing), Scores(passing));
    AssignKeys(NctIds(passing), Scores(passing));
    forall id ensures id in Elements(NctIds(passing)) <==> exists m :: m in ms && m.score >= threshold && m.nctId == id {
      PassingIds(ms, threshold, id);
    }
  }

  /** A higher threshold never recommends more trials. */
  lemma RecommendedShrinks(ms: seq<MatchResult>, t1: int, t2: int)
    requires t1 <= t2
    ensures |Recommended(ms, t2)| <= |Recommended(ms, t1)|
  {
    RecommendedSize(ms, t1);
    RecommendedSize(ms, t2);
    var e1, e2 := Elements(NctIds(Passing(ms, t1))), Elements(NctIds(Passing(ms, t2)));
    assert KeySet(Recommended(ms, t2)) <= KeySet(Recommended(ms, t1));
    KeysCardinality(Recommended(ms, t1));
    KeysCardinality(Recommended(ms, t2));
    SubsetCardinality(KeySet(Recommended(ms, t2)), KeySet(Recommended(ms, t1)));
  }

  /** A dict has as many entries as keys. */
  lemma KeysCardinality<K, V>(d: Dict<K, V>)
    ensures |KeySet(d)| == |d|
  {
    KeysDistinct(d);
    DistinctCardinality(Keys(d));
    assert Elements(Keys(d)) == KeySet(d);
  }

  // ---------------------------------------------------------------------
  // The confusion matrix

  datatype Confusion = Confusion(tp: nat, fp: nat, tn: nat, fn: nat) {
    function Total(): nat { tp + fp + tn + fn }
    function Plus(o: Confusion): Confusion { Confusion(tp + o.tp, fp + o.fp, tn + o.tn, fn + o.fn) }
  }

  const NoCounts := Confusion(0, 0, 0, 0)

  /** The record kept for each false positive. */
  datatype FpExample = FpExample(
    patientId: string, patientAge: int, patientGender: string,
    trialNct: string, trialAgeRange: string, trialGender: string,
    score: int, reason: string)

  /** The record kept for each false negative. */
  datatype FnExample = FnExample(patientId: string, trialNct: string, score: int, reason: string)

  /** `trials_df[trials_df["nct_id"] == nct_id].iloc[0]`. */
  function TrialOf(ts: seq<Trial>, id: string): (t: Trial)
    requires id in TrialIds(ts)
    ensures t in ts && t.nctId == id && FindTrial(ts, id) == Some(t)
    ensures forall i :: 0 <= i < |ts| && ts[i].nctId == id && (forall j :: 0 <= j < i ==> ts[j].nctId != id) ==> t == ts[i]
  {
    FindTrial(ts, id).value
  }

  /** Every recommended trial id must name a trial, or the lookup fails. */
  ghost predicate KnownTrials(ts: seq<Trial>, rec: seq<(string, int)>) {
    forall i :: 0 <= i < |rec| ==> rec[i].0 in TrialIds(ts)
  }

  ghost predicate KnownIds(ts: seq<Trial>, sample: seq<string>) {
    forall i :: 0 <= i < |sample| ==> sample[i] in TrialIds(ts)
  }

  /** The verdict on one recommended trial, added to `c`. */
  function JudgeOne(p: Patient, t: Trial, score: int, strict: bool, c: Confusion): Confusion {
    if IsValidMatch(p, t, score, strict) then c.(tp := c.tp + 1) else c.(fp := c.fp + 1)
  }

  /** The verdict on one trial that was not recommended, added to `c`. */
  function JudgeOther(p: Patient, t: Trial, strict: bool, matched: MatchedChars, c: Confusion): Confusion {
    if IsValidMatch(p, t, MatchScore(p, t, matched), strict) then c.(fn := c.fn + 1) else c.(tn := c.tn + 1)
  }

  /** The recommended trials, judged in order with their cached scores.
      (An id that names no trial, which the loop's precondition rules out,
      is skipped.) */
  function JudgeRecommended(p: Patient, ts: seq<Trial>, rec: seq<(string, int)>, strict: bool): Confusion {
    if |rec| == 0 then NoCounts
    else
      var n := |rec| - 1;
      var c := JudgeRecommended(p, ts, rec[..n], strict);
      match FindTrial(ts, rec[n].0)
      case Some(t) => JudgeOne(p, t, rec[n].1, strict, c)
      case None => c
  }

  /** The sampled trials that were not recommended, judged in order with a
      freshly computed score. */
  function JudgeOthers(p: Patient, ts: seq<Trial>, sample: seq<string>, strict: bool, matched: MatchedChars): Confusion {
    if |sample| == 0 then NoCounts
    else
      var n := |sample| - 1;
      var c := JudgeOthers(p, ts, sample[..n], strict, matched);
      match FindTrial(ts, sample[n])
      case Some(t) => JudgeOther(p, t, strict, matched, c)
      case None => c
  }

  lemma JudgeRecommendedStep(p: Patient, ts: seq<Trial>, rec: seq<(string, int)>, strict: bool, j: int)
    requires KnownTrials(ts, rec) && 0 <= j < |rec|
    ensures JudgeRecommended(p, ts, rec[..j + 1], strict)
      == JudgeOne(p, TrialOf(ts, rec[j].0), rec[j].1, strict, JudgeRecommended(p, ts, rec[..j], strict))
  {
    assert rec[..j + 1][..j] == rec[..j];
  }

  lemma JudgeOthersStep(p: Patient, ts: seq<Trial>, sample: seq<string>, strict: bool, matched: MatchedChars, j: int)
    requires KnownIds(ts, sample) && 0 <= j < |sample|
    ensures JudgeOthers(p, ts, sample[..j + 1], strict, matched)
      == JudgeOther(p, TrialOf(ts, sample[j]), strict, matched, JudgeOthers(p, ts, sample[..j], strict, matched))
  {
    assert sample[..j + 1][..j] == sample[..j];
  }

  lemma {:induction false} JudgeRecommendedPositives(p: Patient, ts: seq<Trial>, rec: seq<(string, int)>, strict: bool)
    requires KnownTrials(ts, rec)
    ensures var c := JudgeRecommended(p, ts, rec, strict); c.tp + c.fp == |rec| && c.tn == 0 && c.fn == 0
  {
    if |rec| > 0 {
      JudgeRecommendedPositives(p, ts, rec[..|rec| - 1], strict);
    }
  }

  lemma {:induction false} JudgeOthersNegatives(p: Patient, ts: seq<Trial>, sample: seq<string>, strict: bool, matched: MatchedChars)
    requires KnownIds(ts, sample)
    ensures var c := JudgeOthers(p, ts, sample, strict, matched); c.tn + c.fn == |sample| && c.tp == 0 && c.fp == 0
  {
    if |sample| > 0 {
      JudgeOthersNegatives(p, ts, sample[..|sample| - 1], strict, matched);
    }
  }

  /** `all_matches[patient_id]`; every sampled id is a key. */
  function CachedMatches(ds: Dataset, id: string): seq<MatchResult> {
    match Get(ds.matches, id)
    case Some(ms) => ms
    case None => []
  }

  /** What one sampled patient needs for the loop body not to fail: a
      patient row, cached recommendations naming known trials, and a sample
      of the trials not recommended. */
  ghost predicate PatientEvaluable(ds: Dataset, id: string, sample: seq<string>, threshold: int) {
    && id in KeySet(ds.matches)
    && FindPatient(ds.patients, id).Some?
    && KnownTrials(ds.trials, Recommended(CachedMatches(ds, id), threshold))
    && IsSampleOf(sample, TrialIds(ds.trials) - KeySet(Recommended(CachedMatches(ds, id), threshold)), NegativeSampleSize)
  }

  /** One sample of not-recommended trials per sampled patient, each fit. */
  ghost predicate SamplesFit(ds: Dataset, ids: seq<string>, samples: seq<seq<string>>, threshold: int) {
    |samples| == |ids| && forall k :: 0 <= k < |ids| ==> PatientEvaluable(ds, ids[k], samples[k], threshold)
  }

  /** The inputs the evaluation loop needs. */
  ghost predicate Evaluable(ds: Dataset, ids: seq<string>, samples: seq<seq<string>>, threshold: int, numPatients: nat) {
    IsSampleOf(ids, KeySet(ds.matches), numPatients) && SamplesFit(ds, ids, samples, threshold)
  }

  lemma SamplesFitPrefix(ds: Dataset, ids: seq<string>, samples: seq<seq<string>>, threshold: int, k: int)
    requires SamplesFit(ds, ids, samples, threshold) && 0 <= k <= |ids|
    ensures SamplesFit(ds, ids[..k], samples[..k], threshold)
  {
    assert forall i :: 0 <= i < k ==> ids[..k][i] == ids[i] && samples[..k][i] == samples[i];
  }

  /** The counts one patient contributes (none for an id without a
      patient row, which the loop's precondition rules out). */
  function PatientConfusion(ds: Dataset, id: string, sample: seq<string>, threshold: int, strict: bool, matched: MatchedChars): Confusion {
    match FindPatient(ds.patients, id)
    case Some(p) =>
      JudgeRecommended(p, ds.trials, Recommended(CachedMatches(ds, id), threshold), strict)
        .Plus(JudgeOthers(p, ds.trials, sample, strict, matched))
    case None => NoCounts
  }

  /** The counts accumulated over the sampled patients, in sample order. */
  function TotalConfusion(ds: Dataset, ids: seq<string>, samples: seq<seq<string>>, threshold: int, strict: bool, matched: MatchedChars): Confusion
    requires |samples| == |ids|
  {
    if |ids| == 0 then NoCounts
    else
      var n := |ids| - 1;
      TotalConfusion(ds, ids[..n], samples[..n], threshold, strict, matched)
        .Plus(PatientConfusion(ds, ids[n], samples[n], threshold, strict, matched))
  }

  lemma TotalConfusionStep(ds: Dataset, ids: seq<string>, samples: seq<seq<string>>, threshold: int, strict: bool, matched: MatchedChars, k: int)
    requires |samples| == |ids| && 0 <= k < |ids|
    ensures TotalConfusion(ds, ids[..k + 1], samples[..k + 1], threshold, strict, matched)
      == TotalConfusion(ds, ids[..k], samples[..k], threshold, strict, matched)
         .Plus(PatientConfusion(ds, ids[k], samples[k], threshold, strict, matched))
  {
    assert ids[..k + 1][..k] == ids[..k] && samples[..k + 1][..k] == samples[..k];
  }

  /** Per patient, the positives are the distinct recommended trial ids and
      the negatives are `min(10, |trials not recommended|)` sampled ids,
      none of which was recommended. */
  lemma PatientCounts(ds: Dataset, id: string, sample: seq<string>, threshold: int, strict: bool, matched: MatchedChars)
    requires PatientEvaluable(ds, id, sample, threshold)
    ensures var c, ms := PatientConfusion(ds, id, sample, threshold, strict, matched), CachedMatches(ds, id);
      && c.tp + c.fp == |Elements(NctIds(Passing(ms, threshold)))|
      && c.tn + c.fn == Min(NegativeSampleSize, |TrialIds(ds.trials) - KeySet(Recommended(ms, threshold))|)
      && forall x :: x in sample ==> x !in KeySet(Recommended(ms, threshold))
  {
    var p := FindPatient(ds.patients, id).value;
    var ms := CachedMatches(ds, id);
    JudgeRecommendedPositives(p, ds.trials, Recommended(ms, threshold), strict);
    JudgeOthersNegatives(p, ds.trials, sample, strict, matched);
    RecommendedSize(ms, threshold);
  }

  /** The number of recommendations summed over the sampled patients. */
  function RecommendedTotal(ds: Dataset, ids: seq<string>, threshold: int): nat {
    if |ids| == 0 then 0
    else RecommendedTotal(ds, ids[..|ids| - 1], threshold) + |Recommended(CachedMatches(ds, ids[|ids| - 1]), threshold)|
  }

  /** Every recommendation is judged exactly once, as a true or a false positive. */
  lemma {:induction false} TotalPositives(ds: Dataset, ids: seq<string>, samples: seq<seq<string>>, threshold: int, strict: bool, matched: MatchedChars)
    requires SamplesFit(ds, ids, samples, threshold)
    ensures var c := TotalConfusion(ds, ids, samples, threshold, strict, matched);
      c.tp + c.fp == RecommendedTotal(ds, ids, threshold)
  {
    if |ids| > 0 {
      var n := |ids| - 1;
      SamplesFitPrefix(ds, ids, samples, threshold, n);
      TotalPositives(ds, ids[..n], samples[..n], threshold, strict, matched);
      assert PatientEvaluable(ds, ids[n], samples[n], threshold);
      PatientPositives(ds, ids[n], samples[n], threshold, strict, matched);
    }
  }

  lemma PatientPositives(ds: Dataset, id: string, sample: seq<string>, threshold: int, strict: bool, matched: MatchedChars)
    requires PatientEvaluable(ds, id, sample, threshold)
    ensures var c := PatientConfusion(ds, id, sample, threshold, strict, matched);
      c.tp + c.fp == |Recommended(CachedMatches(ds, id), threshold)|
  {
    var p := FindPatient(ds.patients, id).value;
    JudgeRecommendedPositives(p, ds.trials, Recommended(CachedMatches(ds, id), threshold), strict);
    JudgeOthersNegatives(p, ds.trials, sample, strict, matched);
  }

  /** A higher threshold never yields more recommendations in total. */
  lemma {:induction false} RecommendedTotalShrinks(ds: Dataset, ids: seq<string>, t1: int, t2: int)
    requires t1 <= t2
    ensures RecommendedTotal(ds, ids, t2) <= RecommendedTotal(ds, ids, t1)
  {
    if |ids| > 0 {
      RecommendedTotalShrinks(ds, ids[..|ids| - 1], t1, t2);
      RecommendedShrinks(CachedMatches(ds, ids[|ids| - 1]), t1, t2);
    }
  }

  /** Raising the threshold never adds positives: whatever the negatives
      sampled, a run at a higher threshold counts at most as many true and
      false positives as a run at a lower one over the same patients. */
  lemma PositivesShrink(ds: Dataset, ids: seq<string>, s1: seq<seq<string>>, s2: seq<seq<string>>,
                        t1: int, t2: int, matched: MatchedChars)
    requires SamplesFit(ds, ids, s1, t1) && SamplesFit(ds, ids, s2, t2) && t1 <= t2
    ensures var c1, c2 := TotalConfusion(ds, ids, s1, t1, false, matched), TotalConfusion(ds, ids, s2, t2, false, matched);
      c2.tp + c2.fp <= c1.tp + c1.fp
  {
    TotalPositives(ds, ids, s1, t1, false, matched);
    TotalPositives(ds, ids, s2, t2, false, matched);
    RecommendedTotalShrinks(ds, ids, t1, t2);
  }

  // ---------------------------------------------------------------------
  // The rates

  /** `n / d if d > 0 else 0`, exactly. */
  function Ratio(n: nat, d: nat): (r: real)
    ensures d == 0 ==> r == 0.0
    ensures n <= d ==> 0.0 <= r <= 1.0
    ensures d > 0 ==> r * d as real == n as real
    ensures n == 0 ==> r == 0.0
    ensures 0 < n <= d ==> r > 0.0
  {
    if d > 0 then n as real / d as real else 0.0
  }

  /** `2 * (p * r) / (p + r) if p + r > 0 else 0`. */
  function F1(precision: real, recall: real): real {
    if precision + recall > 0.0 then 2.0 * (precision * recall) / (precision + recall) else 0.0
  }

  /** The harmonic mean lies between its two arguments. */
  lemma F1Between(precision: real, recall: real)
    requires 0.0 <= precision <= 1.0 && 0.0 <= recall <= 1.0
    ensures 0.0 <= F1(precision, recall) <= 1.0
    ensures precision + recall > 0.0 ==>
      Min2(precision, recall) <= F1(precision, recall) <= Max2(precision, recall)
    ensures F1(precision, recall) == 0.0 <==> precision == 0.0 || recall == 0.0
  {
    var s := precision + recall;
    if s > 0.0 {
      var f := F1(precision, recall);
      var lo, hi := Min2(precision, recall), Max2(precision, recall);
      assert f * s == 2.0 * (precision * recall);
      assert lo * hi == precision * recall && lo + hi == s;
      assert (f - lo) * s == lo * (hi - lo);
      assert (hi - f) * s == hi * (hi - lo);
      NonNegativeFactor(lo, hi - lo);
      NonNegativeFactor(hi, hi - lo);
      SignOfQuotient(f - lo, s);
      SignOfQuotient(hi - f, s);
    }
  }

  lemma NonNegativeFactor(x: real, y: real)
    requires x >= 0.0 && y >= 0.0
    ensures x * y >= 0.0
  {
  }

  lemma SignOfQuotient(x: real, s: real)
    requires s > 0.0 && x * s >= 0.0
    ensures x >= 0.0
  {
  }

  function Min2(a: real, b: real): real { if a <= b then a else b }

  function Max2(a: real, b: real): real { if a >= b then a else b }

  datatype Metrics = Metrics(precision: real, recall: real, f1: real, accuracy: real, fpr: real, fnr: real)

  /** The six rates of a confusion matrix (evaluate_fp_fn.py:158-176). */
  function ComputeMetrics(c: Confusion): Metrics {
    var precision := Ratio(c.tp, c.tp + c.fp);
    var recall := Ratio(c.tp, c.tp + c.fn);
    Metrics(precision, recall, F1(precision, recall), Ratio(c.tp + c.tn, c.Total()),
            Ratio(c.fp, c.fp + c.tn), Ratio(c.fn, c.fn + c.tp))
  }

  /** Two shares of one whole add up to the whole. */
  lemma RatioComplement(a: nat, b: nat)
    requires a + b > 0
    ensures Ratio(a, a + b) + Ratio(b, b + a) == 1.0
  {
    var d := (a + b) as real;
    assert (Ratio(a, a + b) + Ratio(b, b + a)) * d == a as real + b as real;
  }

  /** Every rate lies in [0, 1] and is 0 when its denominator is; recall
      and the false negative rate are complementary, and F1 is 0 exactly
      when there is no true positive. */
  lemma MetricsBounds(c: Confusion)
    ensures var m := ComputeMetrics(c);
      && 0.0 <= m.precision <= 1.0 && 0.0 <= m.recall <= 1.0 && 0.0 <= m.f1 <= 1.0
      && 0.0 <= m.accuracy <= 1.0 && 0.0 <= m.fpr <= 1.0 && 0.0 <= m.fnr <= 1.0
      && (c.tp + c.fp == 0 ==> m.precision == 0.0)
      && (c.tp + c.fn == 0 ==> m.recall == 0.0 && m.fnr == 0.0)
      && (c.Total() == 0 ==> m.accuracy == 0.0)
      && (c.fp + c.tn == 0 ==> m.fpr == 0.0)
      && (c.tp + c.fn > 0 ==> m.recall + m.fnr == 1.0)
      && (m.f1 == 0.0 <==> c.tp == 0)
  {
    var precision, recall := Ratio(c.tp, c.tp + c.fp), Ratio(c.tp, c.tp + c.fn);
    F1Between(precision, recall);
    if c.tp + c.fn > 0 {
      RatioComplement(c.tp, c.fn);
    }
  }

  // ---------------------------------------------------------------------
  // The evaluation loop

  datatype Report = Report(
    threshold: int, strict: bool, sampleSize: nat,
    confusion: Confusion, metrics: Metrics,
    fpExamples: seq<FpExample>, fnExamples: seq<FnExample>)

  /** The first inner loop of `evaluate_matches_with_fp_fn`: every
      recommended trial is a true or a false positive, and each false
      positive is recorded with the reason `get_fp_reason` gives. */
  method EvaluateRecommended(ts: seq<Trial>, patientId: string, patient: Patient,
                             recommendedTrials: seq<(string, int)>, strict: bool)
    returns (counts: Confusion, fpExamples: seq<FpExample>)
    requires KnownTrials(ts, recommendedTrials)
    ensures counts == JudgeRecommended(patient, ts, recommendedTrials, strict)
    ensures counts.tn == 0 && counts.fn == 0
    ensures |fpExamples| == counts.fp
    ensures forall x :: x in fpExamples ==> x.patientId == patientId && x.reason != "Unknown"
  {
    var truePositives: nat, falsePositives: nat := 0, 0;
    fpExamples := [];
    for j := 0 to |recommendedTrials|
      invariant Confusion(truePositives, falsePositives, 0, 0)
        == JudgeRecommended(patient, ts, recommendedTrials[..j], strict)
      invariant |fpExamples| == falsePositives
      invariant forall x :: x in fpExamples ==> x.patientId == patientId && x.reason != "Unknown"
    {
      JudgeRecommendedStep(patient, ts, recommendedTrials, strict, j);
      var (nctId, score) := recommendedTrials[j];
      var trial := TrialOf(ts, nctId);
      if IsValidMatch(patient, trial, score, strict) {
        truePositives := truePositives + 1;
      } else {
        falsePositives := falsePositives + 1;
        var reason := GetFpReason(patient, trial, score, strict);
        fpExamples := fpExamples + [FpExample(patientId, patient.age, patient.gender, nctId,
          IntToString(trial.ageMin) + "-" + IntToString(trial.ageMax), trial.gender, score, reason)];
      }
    }
    assert recommendedTrials[..|recommendedTrials|] == recommendedTrials;
    counts := Confusion(truePositives, falsePositives, 0, 0);
  }

  /** The second inner loop: every sampled trial that was not recommended
      is scored afresh and is a false or a true negative; each false
      negative is recorded. */
  method EvaluateNotRecommended(ts: seq<Trial>, patientId: string, patient: Patient,
                                sampleNotRecommended: seq<string>, threshold: int, strict: bool, matched: MatchedChars)
    returns (counts: Confusion, fnExamples: seq<FnExample>)
    requires KnownIds(ts, sampleNotRecommended)
    ensures counts == JudgeOthers(patient, ts, sampleNotRecommended, strict, matched)
    ensures counts.tp == 0 && counts.fp == 0
    ensures |fnExamples| == counts.fn
    ensures forall x :: x in fnExamples ==> x.patientId == patientId && x.trialNct in sampleNotRecommended
  {
    var trueNegatives: nat, falseNegatives: nat := 0, 0;
    fnExamples := [];
    for j := 0 to |sampleNotRecommended|
      invariant Confusion(0, 0, trueNegatives, falseNegatives)
        == JudgeOthers(patient, ts, sampleNotRecommended[..j], strict, matched)
      invariant |fnExamples| == falseNegatives
      invariant forall x :: x in fnExamples ==> x.patientId == patientId && x.trialNct in sampleNotRecommended
    {
      JudgeOthersStep(patient, ts, sampleNotRecommended, strict, matched, j);
      var nctId := sampleNotRecommended[j];
      var trial := TrialOf(ts, nctId);
      var score, _ := CalculateMatchScore(patient, trial, matched);
      if IsValidMatch(patient, trial, score, strict) {
        falseNegatives := falseNegatives + 1;
        fnExamples := fnExamples + [FnExample(patientId, nctId, score,
          "Score " + IntToString(score) + " below threshold " + IntToString(threshold))];
      } else {
        trueNegatives := trueNegatives + 1;
      }
    }
    assert sampleNotRecommended[..|sampleNotRecommended|] == sampleNotRecommended;
    counts := Confusion(0, 0, trueNegatives, falseNegatives);
  }

  /** Adding a patient's positives and negatives field by field is adding
      their confusion matrices. */
  lemma AddCounts(positives: Confusion, negatives: Confusion)
    requires positives.tn == 0 && positives.fn == 0 && negatives.tp == 0 && negatives.fp == 0
    ensures Confusion(positives.tp, positives.fp, negatives.tn, negatives.fn) == positives.Plus(negatives)
  {
  }

  /** The body of the patient loop of `evaluate_matches_with_fp_fn`: the
      patient row, the recommendations above the threshold, and both inner
      loops. */
  method EvaluatePatient(ds: Dataset, patientId: string, sampleNotRecommended: seq<string>,
                         threshold: int, strict: bool, matched: MatchedChars)
    returns (counts: Confusion, fpExamples: seq<FpExample>, fnExamples: seq<FnExample>)
    requires PatientEvaluable(ds, patientId, sampleNotRecommended, threshold)
    ensures counts == PatientConfusion(ds, patientId, sampleNotRecommended, threshold, strict, matched)
    ensures |fpExamples| == counts.fp && |fnExamples| == counts.fn
    ensures forall x :: x in fpExamples ==> x.patientId == patientId && x.reason != "Unknown"
    ensures forall x :: x in fnExamples ==> x.patientId == patientId && x.trialNct in sampleNotRecommended
  {
    var patient := FindPatient(ds.patients, patientId).value;
    var matches := CachedMatches(ds, patientId);
    var recommendedTrials := Recommended(matches, threshold);
    assert KnownIds(ds.trials, sampleNotRecommended) by {
      forall i | 0 <= i < |sampleNotRecommended| ensures sampleNotRecommended[i] in TrialIds(ds.trials) {
        assert sampleNotRecommended[i] in TrialIds(ds.trials) - KeySet(recommendedTrials);
      }
    }
    var positives, negatives;
    positives, fpExamples := EvaluateRecommended(ds.trials, patientId, patient, recommendedTrials, strict);
    negatives, fnExamples := EvaluateNotRecommended(ds.trials, patientId, patient, sampleNotRecommended,
                                                    threshold, strict, matched);
    AddCounts(positives, negatives);
    counts := Confusion(positives.tp, positives.fp, negatives.tn, negatives.fn);
  }

  /** `evaluate_matches_with_fp_fn(threshold, num_patients, strict_validation)`.
      `ids` is the patient sample and `samples[k]` the sample of trials not
      recommended to `ids[k]`. */
  method EvaluateMatchesWithFpFn(ds: Dataset, ids: seq<string>, samples: seq<seq<string>>,
                                 threshold: int, numPatients: nat, strict: bool, matched: MatchedChars)
    returns (report: Report)
    requires Evaluable(ds, ids, samples, threshold, numPatients)
    ensures report.confusion == TotalConfusion(ds, ids, samples, threshold, strict, matched)
    ensures report.metrics == ComputeMetrics(report.confusion)
    ensures |report.fpExamples| == report.confusion.fp && |report.fnExamples| == report.confusion.fn
    ensures report.confusion.tp + report.confusion.fp == RecommendedTotal(ds, ids, threshold)
    ensures forall x :: x in report.fpExamples ==> x.reason != "Unknown"
    ensures report.threshold == threshold && report.strict == strict && report.sampleSize == numPatients
  {
    var truePositives: nat, falsePositives: nat, trueNegatives: nat, falseNegatives: nat := 0, 0, 0, 0;
    var fpExamples: seq<FpExample> := [];
    var fnExamples: seq<FnExample> := [];

    for k := 0 to |ids|
      invariant Confusion(truePositives, falsePositives, trueNegatives, falseNegatives)
        == TotalConfusion(ds, ids[..k], samples[..k], threshold, strict, matched)
      invariant |fpExamples| == falsePositives && |fnExamples| == falseNegatives
      invariant forall x :: x in fpExamples ==> x.reason != "Unknown"
    {
      TotalConfusionStep(ds, ids, samples, threshold, strict, matched, k);
      var counts, fps, fns := EvaluatePatient(ds, ids[k], samples[k], threshold, strict, matched);
      truePositives, falsePositives := truePositives + counts.tp, falsePositives + counts.fp;
      trueNegatives, falseNegatives := trueNegatives + counts.tn, falseNegatives + counts.fn;
      fpExamples, fnExamples := fpExamples + fps, fnExamples + fns;
    }
    assert ids[..|ids|] == ids && samples[..|samples|] == samples;

    var confusion := Confusion(truePositives, falsePositives, trueNegatives, falseNegatives);
    TotalPositives(ds, ids, samples, threshold, strict, matched);
    report := Report(threshold, strict, numPatients, confusion, ComputeMetrics(confusion), fpExamples, fnExamples);
  }

  // ---------------------------------------------------------------------
  // Comparing thresholds

  const ComparedThresholds: seq<int> := [30, 40, 50, 60, 70]
  const ComparedSampleSize := 20

  /** The compared thresholds step up by ten from 30. */
  lemma ComparedThresholdsStep(k: int)
    requires 0 <= k < |ComparedThresholds|
    ensures ComparedThresholds[k] == 30 + 10 * k
  {
    if k == 0 {
    } else if k == 1 {
    } else if k == 2 {
    } else if k == 3 {
    } else {
      assert k == 4;
    }
  }

  /** Row `k` of the comparison is the lenient run at the `k`-th threshold:
      its positives are the recommendations at that threshold, and its
      counts are the evaluation's. */
  ghost predicate RunOf(ds: Dataset, ids: seq<string>, samples: seq<seq<seq<string>>>, matched: MatchedChars,
                        k: int, report: Report)
    requires 0 <= k < |samples| && k < |ComparedThresholds|
  {
    && |samples[k]| == |ids|
    && report.threshold == ComparedThresholds[k] && !report.strict
    && report.confusion.tp + report.confusion.fp == RecommendedTotal(ds, ids, ComparedThresholds[k])
    && report.confusion == TotalConfusion(ds, ids, samples[k], ComparedThresholds[k], false, matched)
  }

  ghost predicate RunsOf(ds: Dataset, ids: seq<string>, samples: seq<seq<seq<string>>>, matched: MatchedChars,
                         reports: seq<Report>)
    requires |reports| <= |samples| && |reports| <= |ComparedThresholds|
  {
    forall k :: 0 <= k < |reports| ==> RunOf(ds, ids, samples, matched, k, reports[k])
  }

  lemma RunsOfSnoc(ds: Dataset, ids: seq<string>, samples: seq<seq<seq<string>>>, matched: MatchedChars,
                   reports: seq<Report>, report: Report)
    requires |reports| < |samples| && |reports| < |ComparedThresholds|
    requires RunsOf(ds, ids, samples, matched, reports)
    requires RunOf(ds, ids, samples, matched, |reports|, report)
    ensures RunsOf(ds, ids, samples, matched, reports + [report])
  {
    var r := reports + [report];
    forall k | 0 <= k < |r|
      ensures RunOf(ds, ids, samples, matched, k, r[k])
    {
      if k < |reports| {
        assert r[k] == reports[k];
      } else {
        assert r[k] == report;
      }
    }
  }

  /** Along the comparison the number of positives never grows. */
  lemma RunsShrink(ds: Dataset, ids: seq<string>, samples: seq<seq<seq<string>>>, matched: MatchedChars,
                   reports: seq<Report>)
    requires |reports| <= |samples| && |reports| <= |ComparedThresholds|
    requires RunsOf(ds, ids, samples, matched, reports)
    ensures forall k, l :: 0 <= k < l < |reports| ==>
      reports[l].confusion.tp + reports[l].confusion.fp <= reports[k].confusion.tp + reports[k].confusion.fp
  {
    forall k, l | 0 <= k < l < |reports|
      ensures reports[l].confusion.tp + reports[l].confusion.fp <= reports[k].confusion.tp + reports[k].confusion.fp
    {
      assert RunOf(ds, ids, samples, matched, k, reports[k]) && RunOf(ds, ids, samples, matched, l, reports[l]);
      ComparedThresholdsStep(k);
      ComparedThresholdsStep(l);
      RecommendedTotalShrinks(ds, ids, ComparedThresholds[k], ComparedThresholds[l]);
    }
  }

  /** `compare_thresholds`: one lenient evaluation of 20 patients per
      threshold. Every run re-seeds the generator with the same seed and
      samples the same key list, so the patient sample is the same each
      time; `samples[k]` holds the negative samples of run `k`. A higher
      threshold never recommends more: the number of positives does not
      grow from one row to the next. */
  method CompareThresholds(ds: Dataset, ids: seq<string>, samples: seq<seq<seq<string>>>, matched: MatchedChars)
    returns (reports: seq<Report>)
    requires IsSampleOf(ids, KeySet(ds.matches), ComparedSampleSize)
    requires |samples| == |ComparedThresholds|
    requires forall k :: 0 <= k < |samples| ==> SamplesFit(ds, ids, samples[k], ComparedThresholds[k])
    ensures |reports| == |samples|
    ensures RunsOf(ds, ids, samples, matched, reports)
    ensures forall k, l :: 0 <= k < l < |reports| ==>
      reports[l].confusion.tp + reports[l].confusion.fp <= reports[k].confusion.tp + reports[k].confusion.fp
  {
    reports := [];
    for k := 0 to |samples|
      invariant |reports| == k
      invariant RunsOf(ds, ids, samples, matched, reports)
    {
      var report := EvaluateMatchesWithFpFn(ds, ids, samples[k], ComparedThresholds[k], ComparedSampleSize, false, matched);
      RunsOfSnoc(ds, ids, samples, matched, reports, report);
      reports := reports + [report];
    }
    RunsShrink(ds, ids, samples, matched, reports);
  }
}
