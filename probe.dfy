/** The reachability probe `ping(ip)` of ping-to-us.py. */
module Probe {
  import opened Text
  import opened Command

  /** The summary line `ping -c 1` prints when its one request was answered. */
  const PingSummary: string := "1 packets transmitted, 1 received"

  /** `ping(ip)`: a run that exited with status 0 counts as a success only
      when its output holds the summary line; a run that exited with an
      error status is a failed probe, never a fault. */
  function Ping(result: CommandResult): (ok: bool)
    ensures result.CalledProcessError? ==> !ok
    ensures result.Completed? ==> (ok <==> exists i :: OccursAt(result.output, PingSummary, i))
  {
    match result
    case Completed(output) =>
      ContainsIff(output, PingSummary);
      Contains(output, PingSummary)
    case CalledProcessError(_) => false
  }

  /** Any output of a successful run that carries the summary line, whatever
      comes before or after it, is a successful probe. */
  lemma {:induction false} PingAcceptsSummaryAnywhere(before: string, after: string)
    ensures Ping(Completed(before + PingSummary + after))
  {
    ContainsInContext(before, PingSummary, after);
  }
}
