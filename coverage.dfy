/** The coverage counts of metrics_corrected.py over the persisted
    patient-to-matches mapping. */
module Coverage {
  import opened Seqs
  import opened Dicts
  import opened Records
  import opened Matching

  datatype CoverageMetrics = CoverageMetrics(
    coveragePercent: real, avgMatchesPerPatient: real,
    totalMatches: nat, patientsWithMatches: nat, totalPatients: nat)

  /** `calculate_coverage_metrics()` before rounding. Both divisions are by
      the number of patients, so the mapping must not be empty. The counts
      are the patients with at least one match and the sum of the list
      lengths; the first is at most the number of patients and at most
      the number of matches, and coverage is a percentage. */
  function CalculateCoverageMetrics(allMatches: MatchSet): (r: CoverageMetrics)
    requires |allMatches| > 0
    ensures r.totalPatients == |allMatches|
    ensures r.patientsWithMatches == NonEmptyCount(allMatches) && r.totalMatches == TotalLength(allMatches)
    ensures r.patientsWithMatches <= r.totalPatients && r.patientsWithMatches <= r.totalMatches
    ensures r.totalMatches > 0 ==> r.patientsWithMatches > 0
    ensures 0.0 <= r.coveragePercent <= 100.0
  {
    NonEmptyAtMostTotal(allMatches);
    var patientsWithMatches := NonEmptyCount(allMatches);
    var totalPatients := |allMatches|;
    var totalMatches := TotalLength(allMatches);
    assert patientsWithMatches as real / totalPatients as real <= 1.0;
    CoverageMetrics(
      (patientsWithMatches as real / totalPatients as real) * 100.0,
      totalMatches as real / totalPatients as real,
      totalMatches, patientsWithMatches, totalPatients)
  }

  /** Coverage is complete exactly when every patient has a match. */
  lemma {:induction false} FullCoverage(entries: Entries)
    ensures NonEmptyCount(entries) == |entries| <==> forall i :: 0 <= i < |entries| ==> |entries[i].1| > 0
  {
    if |entries| > 0 {
      var n := |entries| - 1;
      FullCoverage(entries[..n]);
      assert forall i :: 0 <= i < n ==> entries[..n][i] == entries[i];
    }
  }

  /** The averages times the number of patients give back the counts. */
  lemma CoverageRatios(allMatches: MatchSet)
    requires |allMatches| > 0
    ensures var r := CalculateCoverageMetrics(allMatches);
      && r.coveragePercent * r.totalPatients as real == r.patientsWithMatches as real * 100.0
      && r.avgMatchesPerPatient * r.totalPatients as real == r.totalMatches as real
  {
    var r := CalculateCoverageMetrics(allMatches);
    var n := r.totalPatients as real;
    QuotientTimes(r.patientsWithMatches as real, n);
    QuotientTimes(r.totalMatches as real, n);
  }

  /** When the mapping comes from `match_all_patients`, with its ten
      results per patient at most, there are at most ten matches per
      patient, and one entry per distinct patient id. */
  lemma BatchCoverageBound(ps: seq<Patient>, trials: seq<Trial>, matched: MatchedChars)
    ensures var all := BatchMatches(ps, trials, matched);
      && |all| == |Elements(Ids(ps))|
      && TotalLength(all) <= DefaultTopK * |all|
  {
    var all := BatchMatches(ps, trials, matched);
    var rankings := Rankings(ps, trials, matched);
    BatchMatchesFacts(ps, trials, matched);
    AssignValues(Ids(ps), rankings);
    forall i | 0 <= i < |all| ensures |all[i].1| <= DefaultTopK {
      assert all[i] in all;
      var j :| 0 <= j < |rankings| && rankings[j] == all[i].1;
      TopOfSorted(Candidates(ps[j], trials, DefaultMinScore, matched), DefaultTopK);
    }
    TotalLengthBound(all, DefaultTopK);
  }
}
