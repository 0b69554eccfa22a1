/** What the call policies decide: which answers count, what they make of a call, and what each
    disposition implies. */
module PolicyTheorems {
  import opened Prelude
  import opened Text
  import opened CallPolicies

  /** A stated yes: the truth value, a one, or a word for yes in any case and with any blanks. */
  predicate SaysYes(v: FieldValue) {
    v == Bool(true) || v == Number(1.0) || (v.Words? && Lower(Strip(v.s)) in {"true", "yes", "y", "1"})
  }

  predicate SaysNo(v: FieldValue) {
    v == Bool(false) || v == Number(0.0) || (v.Words? && Lower(Strip(v.s)) in {"false", "no", "n", "0"})
  }

  lemma YesIsNotNo(v: FieldValue)
    ensures !(SaysYes(v) && SaysNo(v))
  {
    if v.Words? {
      var said := Lower(Strip(v.s));
      assert |"yes"| == |"no"| + 1 && "y"[0] != "n"[0] && "1"[0] != "0"[0] && "y"[0] != "0"[0] && "1"[0] != "n"[0];
    }
  }

  lemma CoerceExactly(v: FieldValue)
    ensures CoerceBool(v) == Some(true) <==> SaysYes(v)
    ensures CoerceBool(v) == Some(false) <==> SaysNo(v)
  {
    YesIsNotNo(v);
  }

  ghost predicate AnswersYes(evidence: map<string, FieldValue>, field: string) {
    field in evidence && SaysYes(evidence[field])
  }

  ghost predicate AnswersNo(evidence: map<string, FieldValue>, field: string) {
    field in evidence && SaysNo(evidence[field])
  }

  /** The evidence decides in this order: part A/B denied, age out of range, both stated; anything
      less is incomplete. */
  lemma JudgedExactly(evidence: map<string, FieldValue>)
    ensures var (status, reason) := EvaluateQualification(evidence);
            var noPart, noAge := AnswersNo(evidence, "medicare_part_ab"), AnswersNo(evidence, "age_in_range");
            var yesPart, yesAge := AnswersYes(evidence, "medicare_part_ab"), AnswersYes(evidence, "age_in_range");
            && (status == Disqualified <==> noPart || noAge)
            && (reason == Some("disqualified_no_part_ab") <==> noPart)
            && (reason == Some("disqualified_age_range") <==> !noPart && noAge)
            && (status == Qualified <==> yesPart && yesAge)
            && (status == Incomplete <==> !noPart && !noAge && !(yesPart && yesAge))
            && (reason == None <==> status != Disqualified)
  {
    forall v ensures !(SaysYes(v) && SaysNo(v)) { YesIsNotNo(v); }
    if "medicare_part_ab" in evidence { CoerceExactly(evidence["medicare_part_ab"]); }
    if "age_in_range" in evidence { CoerceExactly(evidence["age_in_range"]); }
    assert "disqualified_no_part_ab"[13] != "disqualified_age_range"[13];
  }

  /** The reason a disposition names: itself, but for the age, or none. */
  function ReasonNamed(d: string, status: QualificationStatus): Option<string> {
    if d == "disqualified_age" then Some("disqualified_age_range")
    else if status == Disqualified || d == "callback_requested" then Some(d) else None
  }

  /** A disposition implies what its name says: the qualified ones qualify, the disqualified ones
      disqualify for the reason they name, and two leave the call incomplete. */
  lemma ImpliedExactly(d: string)
    ensures var implied := QualificationResult(d);
            && (implied.Some? && implied.value.0 == Qualified <==>
                 d in {"qualified_transferred", "qualified_transfer_failed"})
            && (implied.Some? && implied.value.0 == Incomplete <==> d in {"incomplete", "callback_requested"})
            && (implied.Some? && implied.value.0 == Disqualified <==>
                  d in {"disqualified_age", "disqualified_no_part_a", "disqualified_no_part_b", "disqualified_coverage",
                        "disqualified_state", "disqualified_other"})
            && (implied.Some? ==> implied.value.0 in {Qualified, Incomplete, Disqualified})
            && (implied.Some? ==> implied.value.1 == ReasonNamed(d, implied.value.0))
  {
  }

  /** The dialer is told "not qualified" of every disposition that disqualifies and of a failed
      transfer, and has a code of its own for each other disposition it knows. */
  lemma DialerCodeExactly(d: string)
    ensures var implied, code := QualificationResult(d), ToVicidialStatus(d);
            && (code == Some("DNQ") <==>
                  d == "qualified_transfer_failed" || (implied.Some? && implied.value.0 == Disqualified))
            && (code == Some("RAXFER") <==> d == "qualified_transferred")
            && (code == Some("DNC") <==> d == "opted_out")
            && (code == Some("CLBK") <==> d == "callback_requested")
            && (code == Some("DAIR") <==> d == "dead_air")
            && (code == Some("NP") <==> d == "no_answer")
            && (code == Some("A") <==> d == "amd_machine")
            && (code == Some("HP") <==> d == "caller_hung_up_early")
            && (code == Some("RJ") <==> d == "verified_rejected")
            && (code == Some("SALE") <==> d == "verified_accepted")
            && (code.Some? ==> code.value in {"DNQ", "RAXFER", "DNC", "CLBK", "DAIR", "NP", "A", "HP", "RJ", "SALE"})
  {
  }
}
