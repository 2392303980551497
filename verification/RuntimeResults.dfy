/** The runtime result envelope, as far as the runner and the reconciler read it. */
module RuntimeResults {

  /** Upper-cased status text; `Other` holds every value the code never names. */
  datatype ResultStatus =
    | Running | Queued | Submitted | WaitingExternal
    | WaitingHuman | WaitingApproval | AskUser
    | Completed | Failed | Cancelled | MaxIterations
    | Other(name: string)

  predicate AwaitsUser(s: ResultStatus) {
    s == WaitingHuman || s == WaitingApproval || s == AskUser
  }

  /** A durable submission was accepted; the outcome comes later. */
  predicate IsSubmission(s: ResultStatus) {
    s == Running || s == Queued || s == Submitted || s == WaitingExternal
  }

  datatype RuntimeResult = RuntimeResult(
    success: bool,
    status: ResultStatus,
    taskId: string,
    executionId: string,
    approvalId: string,
    errorCode: string,
    errorMessage: string,
    executionIds: seq<string>,
    parallelStatuses: seq<ResultStatus>)
}
