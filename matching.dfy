/** The matching engine: the score of one patient against one trial, the
    ranked list of trials for one patient, and the mapping for all
    patients (matching.py). */
module Matching {
  import opened Seqs
  import opened Text
  import opened Dicts
  import opened Records

  const AgeWeight := 20
  const GenderWeight := 10
  const PointsPerKeyword := 10
  const KeywordCap := 50
  const ConditionWeight := 20
  const DefaultTopK := 10
  const DefaultMinScore := 20

  /** The characters that `SequenceMatcher(None, a, b)` finds in matching
      blocks: never more than either string holds. The ratio it reports is
      `2 * M / (|a| + |b|)`. */
  type MatchedChars = f: (string, string) -> nat | forall a: string, b: string :: f(a, b) <= |a| && f(a, b) <= |b|
    witness (a: string, b: string) => 0

  // ---------------------------------------------------------------------
  // Keyword overlap

  function KeywordSet(ks: seq<string>): (r: set<string>)
    ensures forall k :: k in r <==> k in ks
  {
    set k | k in ks
  }

  ghost function Overlap(p: Patient, t: Trial): set<string> {
    KeywordSet(p.keywords) * KeywordSet(t.keywords)
  }

  function KeepIn(ks: seq<string>, keep: set<string>): (r: seq<string>)
    ensures forall k :: k in r <==> k in ks && k in keep
  {
    if |ks| == 0 then []
    else
      var rest := KeepIn(ks[..|ks| - 1], keep);
      var last := ks[|ks| - 1];
      assert forall k :: k in ks <==> k in ks[..|ks| - 1] || k == last;
      if last in keep then rest + [last] else rest
  }

  /** The shared keywords, listed in the order the patient's keyword list
      first names them. */
  function OverlapList(p: Patient, t: Trial): seq<string> {
    Dedup(KeepIn(p.keywords, KeywordSet(t.keywords)))
  }

  lemma OverlapListIsOverlap(p: Patient, t: Trial)
    ensures Distinct(OverlapList(p, t))
    ensures Elements(OverlapList(p, t)) == Overlap(p, t)
    ensures |OverlapList(p, t)| == |Overlap(p, t)|
  {
    DistinctCardinality(OverlapList(p, t));
  }

  // ---------------------------------------------------------------------
  // The four parts of the score

  predicate AgeInRange(p: Patient, t: Trial) {
    t.ageMin <= p.age <= t.ageMax
  }

  /** Both genders are compared upper-cased. */
  predicate GenderAccepted(p: Patient, t: Trial) {
    var required := Upper(t.gender);
    required == "ALL" || required == Upper(p.gender)
  }

  function AgePoints(p: Patient, t: Trial): nat {
    if AgeInRange(p, t) then AgeWeight else 0
  }

  function GenderPoints(p: Patient, t: Trial): nat {
    if GenderAccepted(p, t) then GenderWeight else 0
  }

  function KeywordPoints(p: Patient, t: Trial): nat {
    var pk, tk := KeywordSet(p.keywords), KeywordSet(t.keywords);
    if pk != {} && tk != {} then Min(|pk * tk| * PointsPerKeyword, KeywordCap) else 0
  }

  /** `int(ratio * 20)`, with the ratio `2 * M / (|a| + |b|)` taken exactly. */
  function ConditionPoints(p: Patient, t: Trial, matched: MatchedChars): nat {
    var trialCondition := Lower(t.condition);
    if |p.conditions| > 0 && |trialCondition| > 0 then
      var primary := Lower(p.conditions[0]);
      (ConditionWeight * 2 * matched(primary, trialCondition)) / (|primary| + |trialCondition|)
    else 0
  }

  function MatchScore(p: Patient, t: Trial, matched: MatchedChars): int {
    AgePoints(p, t) + GenderPoints(p, t) + KeywordPoints(p, t) + ConditionPoints(p, t, matched)
  }

  function AgeReason(p: Patient, t: Trial): Reason {
    if AgeInRange(p, t) then AgeWithin(p.age, t.ageMin, t.ageMax)
    else AgeOutside(p.age, t.ageMin, t.ageMax)
  }

  function GenderReason(p: Patient, t: Trial): Reason {
    if GenderAccepted(p, t) then GenderMatches(Upper(t.gender)) else GenderMismatch(Upper(t.gender))
  }

  function KeywordReasons(p: Patient, t: Trial): seq<Reason> {
    if KeywordPoints(p, t) > 0 then
      [KeywordsMatched(|KeywordSet(p.keywords) * KeywordSet(t.keywords)|, Take(OverlapList(p, t), 3))]
    else []
  }

  function ConditionReasons(p: Patient, t: Trial, matched: MatchedChars): seq<Reason> {
    if ConditionPoints(p, t, matched) > 5 then [ConditionSimilar(Take(Lower(p.conditions[0]), 30))] else []
  }

  function MatchReasons(p: Patient, t: Trial, matched: MatchedChars): seq<Reason> {
    [AgeReason(p, t), GenderReason(p, t)] + KeywordReasons(p, t) + ConditionReasons(p, t, matched)
  }

  /** `a / d` stays at or below `c` when `a` does not exceed `c * d`. */
  lemma DivAtMost(a: nat, d: nat, c: nat)
    requires d > 0 && a <= c * d
    ensures a / d <= c
  {
    assert a == (a / d) * d + a % d;
  }

  /** The condition part lies in [0, 20]; it is 0 without a primary
      condition or without a trial condition. */
  lemma ConditionPointsBound(p: Patient, t: Trial, matched: MatchedChars)
    ensures 0 <= ConditionPoints(p, t, matched) <= ConditionWeight
    ensures |p.conditions| == 0 || |t.condition| == 0 ==> ConditionPoints(p, t, matched) == 0
    ensures |ConditionReasons(p, t, matched)| <= 1
    ensures |ConditionReasons(p, t, matched)| == 1 <==> ConditionPoints(p, t, matched) > 5
  {
    var trialCondition := Lower(t.condition);
    if |p.conditions| > 0 && |trialCondition| > 0 {
      var primary := Lower(p.conditions[0]);
      var m := matched(primary, trialCondition);
      var total := |primary| + |trialCondition|;
      assert ConditionWeight * 2 * m <= ConditionWeight * total;
      DivAtMost(ConditionWeight * 2 * m, total, ConditionWeight);
    }
  }

  /** The keyword part is `min(10 * |overlap|, 50)` whether or not either
      keyword list is empty; it grows with the overlap and saturates at
      five shared keywords. */
  lemma KeywordPointsOfOverlap(p: Patient, t: Trial)
    ensures KeywordPoints(p, t) == Min(PointsPerKeyword * |Overlap(p, t)|, KeywordCap)
    ensures |Overlap(p, t)| >= 5 ==> KeywordPoints(p, t) == KeywordCap
    ensures p.keywords == [] || t.keywords == [] ==> KeywordPoints(p, t) == 0
  {
    var pk, tk := KeywordSet(p.keywords), KeywordSet(t.keywords);
    if pk == {} || tk == {} {
      assert pk * tk == {};
    }
  }

  /** More shared keywords never lower the keyword part, for any two
      patient-trial pairs. */
  lemma KeywordPointsBySize(p1: Patient, t1: Trial, p2: Patient, t2: Trial)
    requires |Overlap(p1, t1)| <= |Overlap(p2, t2)|
    ensures KeywordPoints(p1, t1) <= KeywordPoints(p2, t2)
  {
    KeywordPointsOfOverlap(p1, t1);
    KeywordPointsOfOverlap(p2, t2);
  }

  /** In particular, a trial sharing a superset of one patient's keywords
      with another trial earns at least as many keyword points. */
  lemma KeywordPointsMonotone(p: Patient, t1: Trial, t2: Trial)
    requires Overlap(p, t1) <= Overlap(p, t2)
    ensures KeywordPoints(p, t1) <= KeywordPoints(p, t2)
  {
    SubsetCardinality(Overlap(p, t1), Overlap(p, t2));
    KeywordPointsBySize(p, t1, p, t2);
  }

  lemma SubsetCardinality<T>(a: set<T>, b: set<T>)
    requires a <= b
    ensures |a| <= |b|
  {
    assert b == a + (b - a);
  }

  /** The keyword reason appears exactly when the keyword part is positive;
      it names the overlap size and lists at most three distinct shared
      keywords. */
  lemma KeywordReasonFacts(p: Patient, t: Trial)
    ensures |KeywordReasons(p, t)| <= 1
    ensures |KeywordReasons(p, t)| == 1 <==> KeywordPoints(p, t) > 0
    ensures |KeywordReasons(p, t)| == 1 <==> Overlap(p, t) != {}
    ensures forall r :: r in KeywordReasons(p, t) ==>
      && r.KeywordsMatched?
      && r.count == |Overlap(p, t)|
      && |r.sample| == Min(3, |Overlap(p, t)|)
      && Distinct(r.sample)
      && (forall k :: k in r.sample ==> k in Overlap(p, t))
  {
    OverlapListIsOverlap(p, t);
    KeywordPointsOfOverlap(p, t);
    var sample := Take(OverlapList(p, t), 3);
    assert forall k :: k in sample ==> k in OverlapList(p, t);
  }

  /** The score is the sum of parts worth at most 20 + 10 + 50 + 20. */
  lemma ScoreBounds(p: Patient, t: Trial, matched: MatchedChars)
    ensures 0 <= MatchScore(p, t, matched) <= 100
  {
    ConditionPointsBound(p, t, matched);
  }

  /** Two leading reasons followed by at most one more of each kind, all
      satisfied. */
  lemma ReasonsConcat(a: Reason, g: Reason, kr: seq<Reason>, cr: seq<Reason>)
    requires |kr| <= 1 && |cr| <= 1
    requires forall r :: r in kr ==> r.Satisfied()
    requires forall r :: r in cr ==> r.Satisfied()
    ensures var rs := [a, g] + kr + cr;
      2 <= |rs| <= 4 && rs[0] == a && rs[1] == g && forall r :: r in rs[2..] ==> r.Satisfied()
  {
    var rs := [a, g] + kr + cr;
    assert rs[2..] == kr + cr;
  }

  /** The reasons are the age reason, the gender reason, then at most one
      keyword and one condition reason, both marked satisfied. */
  lemma ReasonsShape(p: Patient, t: Trial, matched: MatchedChars)
    ensures var rs := MatchReasons(p, t, matched);
      && 2 <= |rs| <= 4
      && rs[0] == AgeReason(p, t) && (rs[0].AgeWithin? <==> AgeInRange(p, t))
      && rs[1] == GenderReason(p, t) && (rs[1].GenderMatches? <==> GenderAccepted(p, t))
      && forall r :: r in rs[2..] ==> r.Satisfied()
  {
    var kr, cr := KeywordReasons(p, t), ConditionReasons(p, t, matched);
    KeywordReasonFacts(p, t);
    ConditionPointsBound(p, t, matched);
    assert forall r :: r in cr ==> r.ConditionSimilar?;
    ReasonsConcat(AgeReason(p, t), GenderReason(p, t), kr, cr);
  }

  /** `calculate_match_score`. */
  method CalculateMatchScore(p: Patient, t: Trial, matched: MatchedChars) returns (score: int, reasons: seq<Reason>)
    ensures score == MatchScore(p, t, matched) && reasons == MatchReasons(p, t, matched)
    ensures 0 <= score <= 100
  {
    score := 0;
    reasons := [];

    // Age: all or nothing.
    var patientAge, ageMin, ageMax := p.age, t.ageMin, t.ageMax;
    if ageMin <= patientAge <= ageMax {
      score := score + AgeWeight;
      reasons := reasons + [AgeWithin(patientAge, ageMin, ageMax)];
    } else {
      reasons := reasons + [AgeOutside(patientAge, ageMin, ageMax)];
    }
    assert score == AgePoints(p, t) && reasons == [AgeReason(p, t)];

    // Gender, compared upper-cased.
    var patientGender, trialGender := Upper(p.gender), Upper(t.gender);
    if trialGender == "ALL" || trialGender == patientGender {
      score := score + GenderWeight;
      reasons := reasons + [GenderMatches(trialGender)];
    } else {
      reasons := reasons + [GenderMismatch(trialGender)];
    }
    assert score == AgePoints(p, t) + GenderPoints(p, t);
    assert reasons == [AgeReason(p, t), GenderReason(p, t)];

    // Keyword overlap.
    var patientKeywords, trialKeywords := KeywordSet(p.keywords), KeywordSet(t.keywords);
    if patientKeywords != {} && trialKeywords != {} {
      var overlap := patientKeywords * trialKeywords;
      var keywordScore := Min(|overlap| * PointsPerKeyword, KeywordCap);
      score := score + keywordScore;
      if keywordScore > 0 {
        var overlapSample := Take(OverlapList(p, t), 3);
        reasons := reasons + [KeywordsMatched(|overlap|, overlapSample)];
      }
    }
    assert score == AgePoints(p, t) + GenderPoints(p, t) + KeywordPoints(p, t);
    assert reasons == [AgeReason(p, t), GenderReason(p, t)] + KeywordReasons(p, t);

    // Primary condition similarity.
    var trialCondition := Lower(t.condition);
    if |p.conditions| > 0 && |trialCondition| > 0 {
      var primaryCondition := Lower(p.conditions[0]);
      var m := matched(primaryCondition, trialCondition);
      var conditionScore := (ConditionWeight * 2 * m) / (|primaryCondition| + |trialCondition|);
      assert conditionScore == ConditionPoints(p, t, matched);
      score := score + conditionScore;
      if conditionScore > 5 {
        reasons := reasons + [ConditionSimilar(Take(primaryCondition, 30))];
      }
    }
    assert reasons == [AgeReason(p, t), GenderReason(p, t)] + KeywordReasons(p, t) + ConditionReasons(p, t, matched);

    ScoreBounds(p, t, matched);
  }

  /** The result the ranker records for one trial. */
  function MatchOf(p: Patient, t: Trial, matched: MatchedChars): MatchResult {
    MatchResult(t.nctId, t.title, t.condition, MatchScore(p, t, matched), MatchReasons(p, t, matched))
  }

  // ---------------------------------------------------------------------
  // Ranking one patient against every trial

  /** The list the ranker builds before sorting: a result for each trial
      scoring at least `minScore`, in trial order. */
  function Candidates(p: Patient, trials: seq<Trial>, minScore: int, matched: MatchedChars): seq<MatchResult> {
    if |trials| == 0 then []
    else
      var t := trials[|trials| - 1];
      Candidates(p, trials[..|trials| - 1], minScore, matched)
        + (if MatchScore(p, t, matched) >= minScore then [MatchOf(p, t, matched)] else [])
  }

  /** The candidates are exactly the results of the trials that clear the gate. */
  lemma {:induction false} CandidatesExact(p: Patient, trials: seq<Trial>, minScore: int, matched: MatchedChars)
    ensures forall m :: m in Candidates(p, trials, minScore, matched) ==>
      m.score >= minScore && exists i :: 0 <= i < |trials| && m == MatchOf(p, trials[i], matched)
    ensures forall i :: 0 <= i < |trials| && MatchScore(p, trials[i], matched) >= minScore ==>
      MatchOf(p, trials[i], matched) in Candidates(p, trials, minScore, matched)
  {
    if |trials| > 0 {
      var init := trials[..|trials| - 1];
      CandidatesExact(p, init, minScore, matched);
      assert forall i :: 0 <= i < |init| ==> init[i] == trials[i];
    }
  }

  predicate SortedByScore(s: seq<MatchResult>) {
    forall i, j :: 0 <= i < j < |s| ==> s[i].score >= s[j].score
  }

  /** The results with score `v`, in their order in `s`. */
  function WithScore(s: seq<MatchResult>, v: int): seq<MatchResult> {
    if |s| == 0 then [] else (if s[0].score == v then [s[0]] else []) + WithScore(s[1..], v)
  }

  /** Places `m` before the first result scoring no more than it. */
  function InsertByScore(m: MatchResult, s: seq<MatchResult>): seq<MatchResult> {
    if |s| == 0 || s[0].score <= m.score then [m] + s else [s[0]] + InsertByScore(m, s[1..])
  }

  /** `sorted(s, key=score, reverse=True)`: Python's sort is stable also in reverse. */
  function SortByScore(s: seq<MatchResult>): seq<MatchResult> {
    if |s| == 0 then [] else InsertByScore(s[0], SortByScore(s[1..]))
  }

  lemma {:induction false} InsertByScoreKeeps(m: MatchResult, s: seq<MatchResult>)
    ensures multiset(InsertByScore(m, s)) == multiset(s) + multiset{m}
  {
    if |s| > 0 && s[0].score > m.score {
      InsertByScoreKeeps(m, s[1..]);
      assert s == [s[0]] + s[1..];
    }
  }

  lemma SortedCons(x: MatchResult, s: seq<MatchResult>)
    requires SortedByScore(s)
    requires forall j :: 0 <= j < |s| ==> s[j].score <= x.score
    ensures SortedByScore([x] + s)
  {
    var r := [x] + s;
    assert forall j :: 1 <= j < |r| ==> r[j] == s[j - 1];
  }

  lemma {:induction false} InsertByScoreSorted(m: MatchResult, s: seq<MatchResult>)
    requires SortedByScore(s)
    ensures SortedByScore(InsertByScore(m, s))
  {
    if |s| == 0 || s[0].score <= m.score {
      SortedCons(m, s);
    } else {
      var rest := InsertByScore(m, s[1..]);
      InsertByScoreSorted(m, s[1..]);
      InsertByScoreKeeps(m, s[1..]);
      forall j | 0 <= j < |rest| ensures rest[j].score <= s[0].score {
        assert rest[j] in multiset(rest);
        assert rest[j] == m || rest[j] in s[1..];
      }
      SortedCons(s[0], rest);
    }
  }

  lemma {:induction false} InsertByScoreStable(m: MatchResult, s: seq<MatchResult>, v: int)
    ensures WithScore(InsertByScore(m, s), v) == (if m.score == v then [m] else []) + WithScore(s, v)
  {
    var r := InsertByScore(m, s);
    if |s| == 0 || s[0].score <= m.score {
      assert r[0] == m && r[1..] == s;
    } else {
      var rest := InsertByScore(m, s[1..]);
      InsertByScoreStable(m, s[1..], v);
      assert r[0] == s[0] && r[1..] == rest;
      var head := if s[0].score == v then [s[0]] else [];
      var mine := if m.score == v then [m] else [];
      assert WithScore(r, v) == head + WithScore(rest, v);
      assert WithScore(s, v) == head + WithScore(s[1..], v);
      assert head == [] || mine == [];
      assert head + (mine + WithScore(s[1..], v)) == mine + (head + WithScore(s[1..], v));
    }
  }

  /** The sort orders by score and keeps every result. */
  lemma {:induction false} SortByScoreSorted(s: seq<MatchResult>)
    ensures SortedByScore(SortByScore(s))
    ensures multiset(SortByScore(s)) == multiset(s)
  {
    if |s| > 0 {
      SortByScoreSorted(s[1..]);
      InsertByScoreSorted(s[0], SortByScore(s[1..]));
      InsertByScoreKeeps(s[0], SortByScore(s[1..]));
      assert s == [s[0]] + s[1..];
    }
  }

  /** The sort leaves results of equal score in their original order. */
  lemma {:induction false} SortByScoreStable(s: seq<MatchResult>, v: int)
    ensures WithScore(SortByScore(s), v) == WithScore(s, v)
  {
    if |s| > 0 {
      SortByScoreStable(s[1..], v);
      InsertByScoreStable(s[0], SortByScore(s[1..]), v);
    }
  }

  lemma {:induction false} WithScorePrefix(a: seq<MatchResult>, b: seq<MatchResult>, v: int)
    requires a <= b
    ensures WithScore(a, v) <= WithScore(b, v)
  {
    if |a| > 0 {
      assert a[1..] <= b[1..];
      WithScorePrefix(a[1..], b[1..], v);
    }
  }

  /** `match_patient_to_trials(patient, trials, top_k, min_score)`. */
  function Ranked(p: Patient, trials: seq<Trial>, topK: int, minScore: int, matched: MatchedChars): seq<MatchResult> {
    Take(SortByScore(Candidates(p, trials, minScore, matched)), topK)
  }

  /** A higher `minScore` keeps no more candidates. */
  lemma {:induction false} CandidatesShrink(p: Patient, trials: seq<Trial>, m1: int, m2: int, matched: MatchedChars)
    requires m1 <= m2
    ensures |Candidates(p, trials, m2, matched)| <= |Candidates(p, trials, m1, matched)|
  {
    if |trials| > 0 {
      CandidatesShrink(p, trials[..|trials| - 1], m1, m2, matched);
    }
  }

  /** Raising `min_score` never makes the ranker return more results. */
  lemma RankedShrinks(p: Patient, trials: seq<Trial>, topK: int, m1: int, m2: int, matched: MatchedChars)
    requires m1 <= m2
    ensures |Ranked(p, trials, topK, m2, matched)| <= |Ranked(p, trials, topK, m1, matched)|
  {
    var c1, c2 := Candidates(p, trials, m1, matched), Candidates(p, trials, m2, matched);
    CandidatesShrink(p, trials, m1, m2, matched);
    SortByScoreSorted(c1);
    SortByScoreSorted(c2);
    assert |SortByScore(c1)| == |multiset(c1)| == |c1|;
    assert |SortByScore(c2)| == |multiset(c2)| == |c2|;
  }

  /** Cutting a sorted list after its first `k` results drops nothing
      that scores more than a result kept. */
  lemma SortedPrefixKeepsTheBest(s: seq<MatchResult>, k: int)
    requires SortedByScore(s)
    ensures var r := Take(s, k);
      forall x, i :: x in multiset(s) - multiset(r) && 0 <= i < |r| ==> x.score <= r[i].score
  {
    var r := Take(s, k);
    var n := |r|;
    assert r == s[..n];
    DroppedPart(s, n);
    forall x: MatchResult, i: int | x in multiset(s) - multiset(r) && 0 <= i < n ensures x.score <= r[i].score {
      assert x in s[n..];
      var j :| 0 <= j < |s| - n && s[n..][j] == x;
      assert s[n + j] == x && s[i] == r[i];
    }
  }

  /** What a prefix leaves out of a sequence's multiset is the rest. */
  lemma DroppedPart<T>(s: seq<T>, n: int)
    requires 0 <= n <= |s|
    ensures multiset(s) - multiset(s[..n]) == multiset(s[n..])
  {
    assert s == s[..n] + s[n..];
  }

  /** The first `k` results of the sort: in score order, at most `k`,
      and drawn from `c` keeping the order among equal scores. */
  lemma TopOfSorted(c: seq<MatchResult>, k: int)
    ensures var r := Take(SortByScore(c), k);
      && SortedByScore(r)
      && (k >= 0 ==> |r| <= k)
      && multiset(r) <= multiset(c)
      && forall v :: WithScore(r, v) <= WithScore(c, v)
  {
    var sorted := SortByScore(c);
    var r := Take(sorted, k);
    SortByScoreSorted(c);
    forall v ensures WithScore(r, v) <= WithScore(c, v) {
      WithScorePrefix(r, sorted, v);
      SortByScoreStable(c, v);
    }
    assert sorted == r + sorted[|r|..];
    assert multiset(sorted) == multiset(r) + multiset(sorted[|r|..]);
  }

  /** Whatever the ranker leaves out scores no more than anything it keeps. */
  lemma RankedKeepsTheBest(p: Patient, trials: seq<Trial>, topK: int, minScore: int, matched: MatchedChars)
    ensures var c, r := Candidates(p, trials, minScore, matched), Ranked(p, trials, topK, minScore, matched);
      forall x, i :: x in multiset(c) - multiset(r) && 0 <= i < |r| ==> x.score <= r[i].score
  {
    var c := Candidates(p, trials, minScore, matched);
    SortByScoreSorted(c);
    SortedPrefixKeepsTheBest(SortByScore(c), topK);
  }

  /** `match_patient_to_trials`. */
  method MatchPatientToTrials(p: Patient, trials: seq<Trial>, topK: int, minScore: int, matched: MatchedChars)
    returns (r: seq<MatchResult>)
    ensures r == Ranked(p, trials, topK, minScore, matched)
    ensures forall i :: 0 <= i < |r| ==> r[i].score >= minScore
    ensures topK >= 0 ==> |r| <= topK
    ensures SortedByScore(r)
    ensures forall v :: WithScore(r, v) <= WithScore(Candidates(p, trials, minScore, matched), v)
    ensures multiset(r) <= multiset(Candidates(p, trials, minScore, matched))
  {
    var matches: seq<MatchResult> := [];
    for i := 0 to |trials|
      invariant matches == Candidates(p, trials[..i], minScore, matched)
    {
      var trial := trials[i];
      var score, reasons := CalculateMatchScore(p, trial, matched);
      if score >= minScore {
        matches := matches + [MatchResult(trial.nctId, trial.title, trial.condition, score, reasons)];
      }
      assert trials[..i + 1][..i] == trials[..i];
    }
    assert trials[..|trials|] == trials;
    ghost var candidates := matches;
    matches := SortByScore(matches);
    r := Take(matches, topK);

    TopOfSorted(candidates, topK);
    CandidatesExact(p, trials, minScore, matched);
    forall i | 0 <= i < |r| ensures r[i].score >= minScore {
      assert r[i] in multiset(candidates);
    }
  }

  // ---------------------------------------------------------------------
  // Matching every patient

  function Ids(ps: seq<Patient>): (r: seq<string>)
    ensures |r| == |ps| && forall i :: 0 <= i < |ps| ==> r[i] == ps[i].id
  {
    seq(|ps|, i requires 0 <= i < |ps| => ps[i].id)
  }

  /** The ranking `match_all_patients` computes for each patient row. */
  function Rankings(ps: seq<Patient>, trials: seq<Trial>, matched: MatchedChars): (r: seq<seq<MatchResult>>)
    ensures |r| == |ps|
  {
    seq(|ps|, i requires 0 <= i < |ps| => Ranked(ps[i], trials, DefaultTopK, DefaultMinScore, matched))
  }

  /** `match_all_patients`: one assignment `all_matches[id] = ...` per row, in row order. */
  function BatchMatches(ps: seq<Patient>, trials: seq<Trial>, matched: MatchedChars): MatchSet {
    Assign(Ids(ps), Rankings(ps, trials, matched))
  }

  /** The mapping has one key per distinct patient id, in order of first
      appearance, and each id maps to the ranking of the last row with it. */
  lemma BatchMatchesFacts(ps: seq<Patient>, trials: seq<Trial>, matched: MatchedChars)
    ensures var all := BatchMatches(ps, trials, matched);
      && Keys(all) == Dedup(Ids(ps))
      && |all| == |Elements(Ids(ps))|
      && (forall id :: id in KeySet(all) <==> id in Ids(ps))
      && forall i :: 0 <= i < |ps| && (forall j :: i < j < |ps| ==> ps[j].id != ps[i].id) ==>
           Get(all, ps[i].id) == Some(Ranked(ps[i], trials, DefaultTopK, DefaultMinScore, matched))
  {
    var ids, rankings := Ids(ps), Rankings(ps, trials, matched);
    AssignKeys(ids, rankings);
    AssignSize(ids, rankings);
    forall i | 0 <= i < |ps| && (forall j :: i < j < |ps| ==> ps[j].id != ps[i].id)
      ensures Get(Assign(ids, rankings), ps[i].id) == Some(Ranked(ps[i], trials, DefaultTopK, DefaultMinScore, matched))
    {
      AssignLastWins(ids, rankings, i);
    }
  }

  /** `match_all_patients`. */
  method MatchAllPatients(patients: seq<Patient>, trials: seq<Trial>, matched: MatchedChars) returns (all: MatchSet)
    ensures all == BatchMatches(patients, trials, matched)
  {
    ghost var ids, rankings := Ids(patients), Rankings(patients, trials, matched);
    all := [];
    for i := 0 to |patients|
      invariant all == Assign(ids[..i], rankings[..i])
    {
      var patient := patients[i];
      var matches := MatchPatientToTrials(patient, trials, DefaultTopK, DefaultMinScore, matched);
      AssignSnoc(ids, rankings, i);
      all := Put(all, patient.id, matches);
    }
    assert ids[..|patients|] == ids && rankings[..|patients|] == rankings;
  }
}
