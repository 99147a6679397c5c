/**
 * The fixed compliance table shown for every prompt, the per-entry reason
 * line, and the risk level derived from the table.
 */
module Compliance {
  import opened Text

  /** The warning sign U+26A0 followed by the emoji presentation selector
      U+FE0F, as the script spells it. */
  const Warning: string := "\U{26A0}\U{FE0F}"

  const FullyCompliant: string := "\U{2705} Fully Compliant"
  const PartialGdpr: string := Warning + " Partial Compliance \U{2014} Consent Clause Missing"
  const NoViolation: string := "\U{2705} No Violation Detected"

  /** Law -> canned result. */
  const ComplianceResults: map<string, string> :=
    map["EU AI Act" := FullyCompliant, "GDPR" := PartialGdpr, "HIPAA" := NoViolation]

  const ModerateRisk: string := "Moderate Risk"
  const LowRisk: string := "Low Risk"

  const GapReason: string := "Simulated gap in policy adherence."
  const PassReason: string := "Passes simulated regulatory evaluation."

  /** The reason line shown under one result: a gap exactly when the result
      text contains the warning sign anywhere. */
  function Reason(result: string): (reason: string)
    ensures reason == GapReason <==> exists i :: OccursAt(result, Warning, i)
    ensures reason == GapReason || reason == PassReason
  {
    ContainsIffOccurs(result, Warning);
    if Contains(result, Warning) then GapReason else PassReason
  }

  /** The risk level as the script computes it: membership of the bare
      warning sign among the table's values, that is, some result EQUAL to
      it. */
  function RiskLevel(results: map<string, string>): (level: string)
    ensures level == ModerateRisk <==> exists law :: law in results && results[law] == Warning
    ensures level == ModerateRisk || level == LowRisk
  {
    if Warning in results.Values then ModerateRisk else LowRisk
  }

  /** With the script's own table the exact-membership test never fires: the
      risk is "Low Risk" although the GDPR entry is shown with a gap. */
  lemma RiskLevelAlwaysLow()
    ensures RiskLevel(ComplianceResults) == LowRisk
    ensures Reason(ComplianceResults["GDPR"]) == GapReason
  {
  }

  /** The risk level as the reason lines imply it: moderate when some result
      contains the warning sign. */
  function IntendedRiskLevel(results: map<string, string>): (level: string)
    ensures level == ModerateRisk <==> exists law :: law in results && Reason(results[law]) == GapReason
    ensures level == ModerateRisk || level == LowRisk
  {
    if exists law :: law in results && Contains(results[law], Warning) then ModerateRisk else LowRisk
  }

  /** The intended level agrees with what the details panel shows for the
      script's table. */
  lemma IntendedRiskLevelModerate()
    ensures IntendedRiskLevel(ComplianceResults) == ModerateRisk
  {
    assert "GDPR" in ComplianceResults;
    assert PartialGdpr[..|Warning|] == Warning;
    assert OccursAt(ComplianceResults["GDPR"], Warning, 0);
  }

  /** Whenever the script's test fires, the intended one does too: a result
      equal to the warning sign also contains it. */
  lemma RiskLevelUnderReports(results: map<string, string>)
    ensures RiskLevel(results) == ModerateRisk ==> IntendedRiskLevel(results) == ModerateRisk
  {
  }
}
