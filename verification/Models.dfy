/** Findings, the records shared by the analyzer, the store and incident correlation. */
module Models {
  datatype Option<+T> = None | Some(value: T)

  /** Seconds since the Unix epoch. */
  type Time = int

  datatype Status = Active | Acknowledged | Resolved

  datatype Finding = Finding(
    id: string,
    ruleID: string,
    fingerprint: string,
    serverID: string,
    resource: string,
    severity: string,
    category: string,
    body: string,        // title, summary, cause, impact, evidence, suggestions, confidence
    status: Status,
    startedAt: Time,
    updatedAt: Time,
    resolvedAt: Option<Time>)

  /** Rank of a severity; unknown names rank 0. */
  function SeverityRank(severity: string): nat {
    if severity == "INFO" then 1
    else if severity == "LOW" then 2
    else if severity == "MEDIUM" then 3
    else if severity == "HIGH" then 4
    else if severity == "CRITICAL" then 5
    else 0
  }

  /** The severities in order; an unknown name comes before all of them. */
  lemma SeverityOrder(unknown: string)
    requires unknown !in ["INFO", "LOW", "MEDIUM", "HIGH", "CRITICAL"]
    ensures SeverityRank(unknown) < SeverityRank("INFO") < SeverityRank("LOW") < SeverityRank("MEDIUM")
    ensures SeverityRank("MEDIUM") < SeverityRank("HIGH") < SeverityRank("CRITICAL")
  {
  }
}
