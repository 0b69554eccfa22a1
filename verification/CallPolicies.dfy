/** Call policies: terminal statuses, what a disposition implies and the qualification table. */
module CallPolicies {
  import opened Prelude
  import opened Text

  datatype CallStatus =
    | Queued | Dialing | Ringing | Answered | InProgress | Transferring | Transferred | Completed | Failed

  datatype QualificationStatus = Pending | InQualification | Qualified | Disqualified | Incomplete | QualificationFailed

  predicate Terminal(s: CallStatus) {
    s in {Transferred, Completed, Failed}
  }

  predicate CanUpdateDisposition(s: CallStatus) {
    !Terminal(s)
  }

  const QUALIFICATION_RESULTS: map<string, (QualificationStatus, Option<string>)> := map[
    "qualified_transferred" := (Qualified, None),
    "qualified_transfer_failed" := (Qualified, None),
    "disqualified_age" := (Disqualified, Some("disqualified_age_range")),
    "disqualified_no_part_a" := (Disqualified, Some("disqualified_no_part_a")),
    "disqualified_no_part_b" := (Disqualified, Some("disqualified_no_part_b")),
    "disqualified_coverage" := (Disqualified, Some("disqualified_coverage")),
    "disqualified_state" := (Disqualified, Some("disqualified_state")),
    "disqualified_other" := (Disqualified, Some("disqualified_other")),
    "incomplete" := (Incomplete, None),
    "callback_requested" := (Incomplete, Some("callback_requested"))]

  const VICIDIAL_MAP: map<string, string> := map[
    "qualified_transferred" := "RAXFER",
    "qualified_transfer_failed" := "DNQ",
    "disqualified_age" := "DNQ",
    "disqualified_no_part_a" := "DNQ",
    "disqualified_no_part_b" := "DNQ",
    "disqualified_coverage" := "DNQ",
    "disqualified_state" := "DNQ",
    "disqualified_other" := "DNQ",
    "opted_out" := "DNC",
    "callback_requested" := "CLBK",
    "dead_air" := "DAIR",
    "no_answer" := "NP",
    "amd_machine" := "A",
    "caller_hung_up_early" := "HP",
    "verified_rejected" := "RJ",
    "verified_accepted" := "SALE"]

  /** The qualification status and reason a disposition implies; `None` when it implies nothing. */
  function QualificationResult(disposition: string): Option<(QualificationStatus, Option<string>)> {
    if disposition in QUALIFICATION_RESULTS then Some(QUALIFICATION_RESULTS[disposition]) else None
  }

  function ToVicidialStatus(disposition: string): Option<string> {
    if disposition in VICIDIAL_MAP then Some(VICIDIAL_MAP[disposition]) else None
  }

  /** A captured value as it arrives in JSON. */
  datatype FieldValue = Null | Bool(b: bool) | Number(n: real) | Words(s: string) | Composite

  function CoerceBool(v: FieldValue): Option<bool> {
    match v
    case Null => None
    case Bool(b) => Some(b)
    case Number(n) => if n == 0.0 then Some(false) else if n == 1.0 then Some(true) else None
    case Words(s) =>
      var said := Lower(Strip(s));
      if said in {"true", "yes", "y", "1"} then Some(true)
      else if said in {"false", "no", "n", "0"} then Some(false)
      else None
    case Composite => None
  }

  /** A stated "no" to part A/B disqualifies first, an age out of range second; nothing short of
      two stated "yes" qualifies. */
  function EvaluateQualification(evidence: map<string, FieldValue>): (r: (QualificationStatus, Option<string>))
    ensures r.0 == Qualified <==>
      "medicare_part_ab" in evidence && CoerceBool(evidence["medicare_part_ab"]) == Some(true) &&
      "age_in_range" in evidence && CoerceBool(evidence["age_in_range"]) == Some(true)
    ensures r.0 in {Qualified, Disqualified, Incomplete}
    ensures r.1.Some? <==> r.0 == Disqualified
  {
    var partAb := if "medicare_part_ab" in evidence then CoerceBool(evidence["medicare_part_ab"]) else None;
    var ageInRange := if "age_in_range" in evidence then CoerceBool(evidence["age_in_range"]) else None;
    match (partAb, ageInRange)
    case (Some(false), _) => (Disqualified, Some("disqualified_no_part_ab"))
    case (_, Some(false)) => (Disqualified, Some("disqualified_age_range"))
    case (Some(true), Some(true)) => (Qualified, None)
    case (_, _) => (Incomplete, None)
  }
}
