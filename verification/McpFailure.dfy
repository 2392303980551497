/** Calls through the MCP client: what it makes of each end of an exchange, and what becomes of a
    write that is replayed on its word. */
module McpFailure {
  import opened Wrappers
  import opened ErrorCodes
  import opened WriteFailure

  /** What a JSON answer holds: no object, a protocol error, no result, a result without a
      structure, or a structured tool result. */
  datatype Body = NoObject | ProtocolError | NoResult | NoStructure | Structured(result: ToolResult)

  /** How one exchange ended: no connection; a read, write or pool timeout; any other request error;
      a body that is not JSON, whatever the status; or an answer. */
  datatype Exchange =
    | Unreachable | TimedOut | BrokenOff | Unreadable
    | Answer(status: int, body: Body)

  function TransportFailure(code: Code, isWrite: bool, lost: bool): ToolResult {
    if isWrite && lost then
      Failure(RESULT_UNKNOWN, false, None, Some(State(Some(true), Says(POSSIBLE), None)))
    else
      Failure(code, code.MCP_UNAVAILABLE? || code.MCP_TIMEOUT?, Some(lost), Some(State(Some(false), Unsaid, None)))
  }

  const PROTOCOL_FAILURE := Failure(CONTRACT_MISMATCH, false, Some(false), Some(State(Some(false), Unsaid, None)))

  /** `_execute_remote` and the result it reports. */
  function CallTool(isWrite: bool, x: Exchange): ToolResult {
    match x
    case TimedOut => TransportFailure(MCP_TIMEOUT, isWrite, true)
    case Unreachable => TransportFailure(MCP_UNAVAILABLE, isWrite, false)
    case BrokenOff => TransportFailure(MCP_UNAVAILABLE, isWrite, false)
    case Unreadable => TransportFailure(if isWrite then MCP_TIMEOUT else CONTRACT_MISMATCH, isWrite, true)
    case Answer(status, body) =>
      if status == 401 || status == 403 then
        Failure(if status == 401 then AUTHENTICATION_REQUIRED else PERMISSION_DENIED, false, Some(false), Some(NO_STATE))
      else if status >= 500 then TransportFailure(MCP_UNAVAILABLE, isWrite, isWrite)
      else
        match body
        case ProtocolError => PROTOCOL_FAILURE
        case Structured(result) => result
        case _ => TransportFailure(CONTRACT_MISMATCH, isWrite, isWrite)
  }

  function Advice(isWrite: bool, x: Exchange): Option<Action> {
    Normalize(CallTool(isWrite, x), Unsaid, NO_EVIDENCE)
  }

  lemma AdviceOnFailure(code: Code, isWrite: bool, lost: bool)
    requires code in {MCP_UNAVAILABLE, MCP_TIMEOUT, CONTRACT_MISMATCH}
    ensures Normalize(TransportFailure(code, isWrite, lost), Unsaid, NO_EVIDENCE)
         == Some(if isWrite && lost then RECONCILE else if code == CONTRACT_MISMATCH then FAIL else RETRY)
  {
    assert !KnownNonApplying(code) && !KnownNonApplying(RESULT_UNKNOWN);
  }

  lemma AdviceOnProtocolFailure()
    ensures Normalize(PROTOCOL_FAILURE, Unsaid, NO_EVIDENCE) == Some(FAIL)
  {
    assert !KnownNonApplying(CONTRACT_MISMATCH);
  }

  lemma AdviceOnRejection(status: int, body: Body)
    requires status == 401 || status == 403
    ensures Advice(true, Answer(status, body)) == Advice(false, Answer(status, body))
         == Some(if status == 401 then REAUTH else FAIL)
  {
  }

  /** The advice on every end of an exchange. */
  lemma McpAdviceExactly(isWrite: bool, x: Exchange)
    ensures Advice(isWrite, x) ==
              match x
              case Unreachable => Some(RETRY)
              case BrokenOff => Some(RETRY)
              case TimedOut => Some(if isWrite then RECONCILE else RETRY)
              case Unreadable => Some(if isWrite then RECONCILE else FAIL)
              case Answer(status, body) =>
                if status == 401 then Some(REAUTH)
                else if status == 403 then Some(FAIL)
                else if status >= 500 then Some(if isWrite then RECONCILE else RETRY)
                else if body == ProtocolError then Some(FAIL)
                else if body.Structured? then Normalize(body.result, Unsaid, NO_EVIDENCE)
                else Some(if isWrite then RECONCILE else FAIL)
  {
    match x
    case Answer(status, body) =>
      if status == 401 || status == 403 {
        AdviceOnRejection(status, body);
      } else if status >= 500 {
        AdviceOnFailure(MCP_UNAVAILABLE, isWrite, isWrite);
      } else {
        AdviceOnProtocolFailure();
        AdviceOnFailure(CONTRACT_MISMATCH, isWrite, isWrite);
      }
    case Unreadable =>
      AdviceOnFailure(if isWrite then MCP_TIMEOUT else CONTRACT_MISMATCH, isWrite, true);
    case TimedOut =>
      AdviceOnFailure(MCP_TIMEOUT, isWrite, true);
    case _ =>
      AdviceOnFailure(MCP_UNAVAILABLE, isWrite, false);
  }

  // ----- replays of a write -----

  datatype Call = Call(exchange: Exchange, commits: bool)

  /** What the provider guarantees: no commit without a connection or behind a rejected identity, and
      a tool result that says the side effect has not begun is true. */
  predicate Plausible(c: Call) {
    match c.exchange
    case Unreachable => !c.commits
    case Answer(status, body) =>
      && (status == 401 || status == 403 ==> !c.commits)
      && (body.Structured? && NotBegun(body.result, Unsaid, NO_EVIDENCE) ==> !c.commits)
    case _ => true
  }

  /** A driver replays only where RETRY is recommended; it may stop at any time. */
  predicate DrivesMcp(calls: seq<Call>) {
    && (forall i :: 0 <= i < |calls| ==> Plausible(calls[i]))
    && (forall i :: 0 <= i < |calls| - 1 ==> Advice(true, calls[i].exchange) == Some(RETRY))
  }

  /** A write that may have been applied is recommended for replay exactly when its connection broke
      off with an error that is neither a timeout nor a failure to connect. */
  lemma UnsafeReplayExactly(x: Exchange)
    ensures Plausible(Call(x, true)) && Advice(true, x) == Some(RETRY) <==> x == BrokenOff
  {
    McpAdviceExactly(true, x);
    if x.Answer? && x.body.Structured? {
      RetryExactly(x.body.result, Unsaid, NO_EVIDENCE);
    }
  }

  /** So over every drive the only commit is the last call's exactly when no earlier call committed
      and then broke off. */
  lemma McpCommitsOnceExactly(calls: seq<Call>)
    requires DrivesMcp(calls)
    ensures (forall i :: 0 <= i < |calls| - 1 ==> !calls[i].commits)
       <==> (forall i :: 0 <= i < |calls| - 1 ==> calls[i] != Call(BrokenOff, true))
    ensures (forall i :: 0 <= i < |calls| - 1 ==> calls[i] != Call(BrokenOff, true))
        ==> Commits(calls, (c: Call) => c.commits) <= 1
  {
    forall i | 0 <= i < |calls| - 1
      ensures calls[i].commits <==> calls[i] == Call(BrokenOff, true)
    {
      UnsafeReplayExactly(calls[i].exchange);
    }
    if forall i :: 0 <= i < |calls| - 1 ==> calls[i] != Call(BrokenOff, true) {
      OnlyLastCommits(calls, (c: Call) => c.commits);
    }
  }

  /** Without that condition there is no bound: `n` connections that break off after the write was
      applied are a drive with `n` commits. */
  lemma {:induction false} BrokenOffCommitsPileUp(n: nat)
    ensures var calls := seq(n, _ => Call(BrokenOff, true));
            DrivesMcp(calls) && Commits(calls, (c: Call) => c.commits) == n
  {
    var calls := seq(n, _ => Call(BrokenOff, true));
    McpAdviceExactly(true, BrokenOff);
    if n > 0 {
      BrokenOffCommitsPileUp(n - 1);
      assert calls[..n - 1] == seq(n - 1, _ => Call(BrokenOff, true));
    }
  }
}
