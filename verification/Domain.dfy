/** The vocabulary shared by the checkers: verdicts, anomalies and the report they fill in. */
module Domain {

  datatype Option<+T> = None | Some(value: T)

  datatype Result<+T> = Ok(value: T) | Err(line: nat)

  datatype Verdict = Pass | Fail | Unknown

  /** One reported violation; `subject` is the key, or the tally, that its detail line names. */
  datatype Anomaly = Anomaly(kind: string, subject: int)

  datatype VerifyReport = VerifyReport(
    verdict: Verdict,
    checked: int,
    lost: int,
    duplicated: int,
    ordering: int,
    anomalies: seq<Anomaly>)
}
