/** The records the matcher reads and writes: a patient row, a trial row,
    one match result, and the persisted patient-to-matches mapping.
    Fields hold the already parsed lists (the rows store them as Python
    list literals). */
module Records {
  import opened Dicts
  import opened Text

  datatype Patient = Patient(
    id: string,
    age: int,
    gender: string,
    conditions: seq<string>,   // first entry is the primary condition
    keywords: seq<string>)     // the `condition_keywords` column

  datatype Trial = Trial(
    nctId: string,
    title: string,
    condition: string,
    ageMin: int,
    ageMax: int,
    gender: string,            // "ALL", "MALE" or "FEMALE" in the registry data
    keywords: seq<string>)

  /** One explanation line of a score; `Text()` renders it as the program does. */
  datatype Reason =
    | AgeWithin(age: int, ageMin: int, ageMax: int)
    | AgeOutside(age: int, ageMin: int, ageMax: int)
    | GenderMatches(required: string)
    | GenderMismatch(required: string)
    | KeywordsMatched(count: nat, sample: seq<string>)
    | ConditionSimilar(excerpt: string)
  {
    predicate Satisfied() { !AgeOutside? && !GenderMismatch? }

    /** The f-string the program appends for this reason. */
    function Text(): string {
      match this
      case AgeWithin(a, lo, hi) =>
        "\U{2713} Age " + IntToString(a) + " within range (" + IntToString(lo) + "-" + IntToString(hi) + ")"
      case AgeOutside(a, lo, hi) =>
        "\U{2717} Age " + IntToString(a) + " outside range (" + IntToString(lo) + "-" + IntToString(hi) + ")"
      case GenderMatches(g) => "\U{2713} Gender matches (" + g + ")"
      case GenderMismatch(g) => "\U{2717} Gender mismatch (requires " + g + ")"
      case KeywordsMatched(n, ks) => "\U{2713} " + NatToString(n) + " matching keywords: " + Join(ks, ", ")
      case ConditionSimilar(c) => "\U{2713} Primary condition '" + c + "...' similar to trial condition"
    }
  }

  /** A rendered reason opens with a check mark exactly when the criterion
      holds, and with a cross exactly when it is violated. */
  lemma TextMarksPolarity(r: Reason)
    ensures |r.Text()| > 0
    ensures r.Text()[0] == '\U{2713}' <==> r.Satisfied()
    ensures r.Text()[0] == '\U{2717}' <==> !r.Satisfied()
  {
  }

  datatype MatchResult = MatchResult(
    nctId: string,
    title: string,
    condition: string,
    score: int,
    reasons: seq<Reason>)

  /** The content of matches.json: patient id to that patient's ranked matches. */
  type MatchSet = Dict<string, seq<MatchResult>>

  /** The three inputs every validator loads: patients.csv, trials_clean.csv, matches.json. */
  datatype Dataset = Dataset(patients: seq<Patient>, trials: seq<Trial>, matches: MatchSet)

  /** `patients_df[patients_df["id"] == id]`, first row. */
  function FindPatient(ps: seq<Patient>, id: string): (r: Option<Patient>)
    ensures r.Some? ==> r.value.id == id && r.value in ps
    ensures r.None? <==> forall i :: 0 <= i < |ps| ==> ps[i].id != id
    ensures forall i :: 0 <= i < |ps| && ps[i].id == id && (forall j :: 0 <= j < i ==> ps[j].id != id) ==> r == Some(ps[i])
  {
    if |ps| == 0 then None
    else if ps[0].id == id then Some(ps[0])
    else
      var r := FindPatient(ps[1..], id);
      assert forall i :: 1 <= i < |ps| ==> ps[1..][i - 1] == ps[i];
      r
  }

  /** `trials_df[trials_df["nct_id"] == id]`, first row. */
  function FindTrial(ts: seq<Trial>, id: string): (r: Option<Trial>)
    ensures r.Some? ==> r.value.nctId == id && r.value in ts
    ensures r.None? <==> forall i :: 0 <= i < |ts| ==> ts[i].nctId != id
    ensures forall i :: 0 <= i < |ts| && ts[i].nctId == id && (forall j :: 0 <= j < i ==> ts[j].nctId != id) ==> r == Some(ts[i])
  {
    if |ts| == 0 then None
    else if ts[0].nctId == id then Some(ts[0])
    else
      var r := FindTrial(ts[1..], id);
      assert forall i :: 1 <= i < |ts| ==> ts[1..][i - 1] == ts[i];
      r
  }

  /** `set(trials_df["nct_id"])`. */
  ghost function TrialIds(ts: seq<Trial>): set<string> {
    set i | 0 <= i < |ts| :: ts[i].nctId
  }

  /** The entries of a match set, as `all_matches.items()` lists them. */
  type Entries = seq<(string, seq<MatchResult>)>

  /** How many patients have at least one match. */
  function NonEmptyCount(entries: Entries): (r: nat)
    ensures r <= |entries|
  {
    if |entries| == 0 then 0
    else NonEmptyCount(entries[..|entries| - 1]) + (if |entries[|entries| - 1].1| > 0 then 1 else 0)
  }

  /** How many matches there are in all. */
  function TotalLength(entries: Entries): nat {
    if |entries| == 0 then 0
    else TotalLength(entries[..|entries| - 1]) + |entries[|entries| - 1].1|
  }

  /** A patient with matches holds at least one of them. */
  lemma {:induction false} NonEmptyAtMostTotal(entries: Entries)
    ensures NonEmptyCount(entries) <= TotalLength(entries)
    ensures NonEmptyCount(entries) == 0 ==> TotalLength(entries) == 0
  {
    if |entries| > 0 {
      NonEmptyAtMostTotal(entries[..|entries| - 1]);
    }
  }

  /** With at most `k` matches per patient there are at most `k` times as
      many matches as patients. */
  lemma {:induction false} TotalLengthBound(entries: Entries, k: nat)
    requires forall i :: 0 <= i < |entries| ==> |entries[i].1| <= k
    ensures TotalLength(entries) <= k * |entries|
  {
    if |entries| > 0 {
      var n := |entries| - 1;
      assert forall i :: 0 <= i < n ==> entries[..n][i] == entries[i];
      TotalLengthBound(entries[..n], k);
      assert k * |entries| == k * n + k;
    }
  }
}
