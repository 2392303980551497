# GreenBook: durable Runs, parsers and write failures

A Dafny model of the parts of GreenBook in which several writers race for one row, a parser must
give back what a printer wrote, or a failed write must not be repeated. `dafny verify
dfyconfig.toml` checks everything.

## What is modelled

- **The durable Run protocol** (`Runs`, `RunStore`, `RunHistory`, `ClaimLemmas`, `ClaimProgress`,
  `AgentRunner`, `IsoTime`, `Calendar`). A Run is a row of a table. Every store method is one transaction:
  idempotent creation, the claim pass (lease expiry, candidate window, greedy choice under a
  limit, a per-conversation cap and follow-up order) and the status mark with its terminal latch,
  owner and version. `RunStore` has them as methods of a class, each tied to a function from one
  table to the next. A history is any sequence of such transactions, by any workers, reconcilers
  and API calls, at any stamps. A reader that later writes (the runner's `_process`, the
  reconciler, the recovery scan) is a pair of positions in a history, with anything in between.
  `ClaimExact`, `StoreExact` and `OutcomeExact` state each transaction on columns and named states
  alone, without the vocabulary of the model.
- **The completion reconciler** (`Reconciler`, `ReconcilerLaws`): the counting loop, the branch
  cascade, and the compare-and-swap it ends with. `ReconcilerFacts` and `VerdictLaws` give each
  verdict on the executions, the Task and the result themselves.
- **Run events** (`EventStore`): numbered appends and readers that poll with a cursor.
- **Two codecs** (`JsonScan`, `JsonPrint`; `HeaderCodec`, `HeaderExact`, `Base64`, `Base64Wire`,
  `Base64Reader`, `Utf8`): the brace scanner against a grammar and the JSON texts of RFC 8259, and
  the MCP header pair. UTF-8 and Base64 are proved against RFC 3629 and RFC 4648, not assumed.
- **Write failures** (`ErrorCodes`, `WriteFailure`, `McpFailure`): transport outcome, result envelope,
  recovery advice, and the drivers that follow it, through the Java client and the MCP client.
- **The continuation consumer** (`Continuations`): coroutines, lock objects, the evicted
  dictionary and the gather barrier as a transition system.
- **Schedule times** (`ScheduleTime`): numbers, clock normalisation, roll-over and "next week".

## What the proofs found

The model follows the code where the code and its comments or documents differ.

- `apps/agent_api/greenbook_agent_api/main.py:628` names `RUN_CANCELLED`, which the import list
  at lines 76-91 does not bring in. The branch raises, so a Run whose Task was cancelled is never
  closed by the reconciler: `RaisesExactlyOnCancelledTask`, `CancelledTaskStaysOpen`.
- The comment at `main.py:649` says that COMPLETED never carries an error. The Task-COMPLETED
  branch at lines 630-632 can: `CompletedWithErrorExactly` gives the exact condition.
- The reconciler depends on the order of the queue when the Task id is taken from the messages
  and they name two, and also, with a named Task, when the row lacks a scope part on which the
  messages differ. `VerdictOrderExactly` proves that this condition is exact; the two
  `OrderMatters` lemmas are concrete Runs.
- A worker with an empty id keeps its token through a lease reset, and so does the recovery's
  no-progress write on its row: `Fencing` and `NoProgressRaceExactly` state both cases.
- A submission accepted without any execution identity is kept RUNNING by the runner
  (`runner.py:799-807`) and closed as FAILED by the next startup recovery:
  `RestartKeepsSubmissionExactly`.
- After `clear`, event numbers restart, so a reader with a cursor misses as many events as it had
  seen: `ReaderSeesPrefix` and `ClearLosesEvents` give the exact conditions. Nothing in the
  application calls `clear`.
- An object that opens on the line of its code fence is never returned when a line break follows.
  A one-line object gives back the whole content (`LostLineFallsBack`); an object of several
  lines can be replaced silently by one inside it (`InnerObjectComesBack`, `WrongObjectReturned`).
  `ExtractsExactlyWhenFenceLineEnds` gives the exact condition.
- The header value `=?base64?=` is sent raw and decoded as empty; no other value is changed:
  `RoundTripExactly`.
- A 5xx whose body names one of thirteen refusals is not reconciled: it is a plain failure, or
  for the two login codes a request for a new login (`ServerErrorsExactly`). No write is replayed
  because of it.
- The advice to wait is reached for statuses 400 and 422 only, so a 429 that names a rate limit is
  a plain failure: `AnswersExactly`, `RateLimitFails`.
- A write through the MCP client whose connection breaks off, with an error that is neither a timeout
  nor a failure to connect, is reported as not begun
  (`services/greenbook_mcp/greenbook_mcp_server/client.py:367-372`), so its replay is recommended although it may have been applied: `UnsafeReplayExactly`, `McpCommitsOnceExactly`.
- The two early returns of the continuation consumer (`main.py:755` and `762`) skip the eviction at
  lines 799-800, so the lock dictionary grows with every new key that ends that way:
  `LockStaysExactly`, `LocksPileUp`.
- The lock eviction is safe only because every first step of a batch runs before any resumption:
  `ContinuationsSerialise` and its partner `FirstStepsMustComeFirst`.
- "Twelve" with an afternoon, evening or night word is read as noon: `TwelveHourDial`.

## Model

| member | source | states |
|---|---|---|
| RunStore.AgentRunStore.Claim | apps/agent_api/greenbook_agent_api/runner.py:308-421 | the claim loop, with its local counters and with parent statuses read once, does exactly the specified pass: it returns the Runs it took with their rows, and rolls everything back when a lease would end past year 9999 |
| RunStore.TakeFrom | apps/agent_api/greenbook_agent_api/runner.py:348-420 | local counters and statuses read once stand in for the true RUNNING counts and statuses of the table that changes under the loop |
| RunStore.Consider | apps/agent_api/greenbook_agent_api/runner.py:380-420 | one turn of the loop keeps the counters equal to the true RUNNING counts of every conversation, whether it takes or skips the candidate |
| RunStore.ParentStatuses | apps/agent_api/greenbook_agent_api/runner.py:365-379 | the statuses read once answer, for every candidate, whether its parent is working |
| RunStore.SelectWindow | apps/agent_api/greenbook_agent_api/runner.py:341-347 | the window holds the oldest ACCEPTED Runs in order of creation, and all of them if they fit |
| RunStore.AgentRunStore.MarkStatus | apps/agent_api/greenbook_agent_api/runner.py:423-469 | the write takes effect exactly when the terminal latch, the owner and the version match, and reports whether it did |
| RunStore.AgentRunStore.Create | apps/agent_api/greenbook_agent_api/runner.py:238-274 | one holder per scope is kept; a violated key answers the holder of the scope, and an error comes back exactly when the run id is taken and no row holds the scope |
| StoreExact.InsertWritesExactly | apps/agent_api/greenbook_agent_api/runner.py:238-264 | an insert is refused exactly for a taken run id or a scope (conversation, user, tenant, trimmed key of the request or its payload) that some row has; otherwise it stores the request with its missing stamps filled in |
| StoreExact.MarkWritesExactly | apps/agent_api/greenbook_agent_api/runner.py:434-469 | when a mark takes effect, with the four terminal states named, and every column it writes |
| StoreExact.TerminalExactly | apps/agent_api/greenbook_agent_api/runner.py:440-448 | exactly the four terminal statuses cannot be overwritten |
| StoreExact.LeaseExactly | apps/agent_api/greenbook_agent_api/runner.py:944-949 | a lease ends at least one whole second after the claim, and there is none past 31 December 9999 |
| RunStore.AgentRunStore.GetByIdempotencyKey | apps/agent_api/greenbook_agent_api/runner.py:276-299 | finds a row exactly when the trimmed key is not empty and the scope has a holder |
| RunStore.AgentRunStore.ListActive | apps/agent_api/greenbook_agent_api/runner.py:471-478 | exactly the ACCEPTED and RUNNING rows, each once, by creation stamp |
| Runs.Chosen | apps/agent_api/greenbook_agent_api/runner.py:380-420 | a pass takes only window candidates and no more than the limit |
| Runs.InsertKeepsScopes | apps/agent_api/greenbook_agent_api/runner.py:209-215 | no insert gives one scope two rows |
| Runs.InsertedHolds | apps/agent_api/greenbook_agent_api/runner.py:244-264 | after an accepted insert the new Run is the only holder of its scope |
| ClaimLemmas.TurnOf | apps/agent_api/greenbook_agent_api/runner.py:380-420 | a candidate is taken exactly when limit, cap and parent admit it at its turn, by the true counts |
| ClaimLemmas.PassIsSound | apps/agent_api/greenbook_agent_api/runner.py:332-421 | a pass takes at most the limit, each Run once, no conversation past its cap, no follow-up whose parent works before or at any point of the pass; every other row is only lease-expired |
| ClaimLemmas.PassIsMaximal | apps/agent_api/greenbook_agent_api/runner.py:380-399 | a candidate left behind is still blocked afterwards by the limit, by its cap or by its parent |
| ClaimLemmas.NoOvertaking | apps/agent_api/greenbook_agent_api/runner.py:342-347 | inside a conversation no candidate overtakes an older one that does not wait for its parent |
| ClaimExact.TakenExactly | apps/agent_api/greenbook_agent_api/runner.py:61-69 | a candidate is taken exactly when, at its turn, the pass has taken fewer than the limit, its conversation runs fewer than the cap, and its parent is in none of the seven working states |
| ClaimExact.PassWritesExactly | apps/agent_api/greenbook_agent_api/runner.py:332-420 | every row after a pass: claimed with worker, lease, next version and stamp, or reset at the end of its lease, or as before |
| ClaimExact.WindowIsFull | apps/agent_api/greenbook_agent_api/runner.py:341-347 | the window holds accepted and lease-expired Runs only, and as many as there are up to the limit, or up to four times the limit under a cap that is not zero |
| ClaimExact.ApprovalHoldsFollowUp | apps/agent_api/greenbook_agent_api/runner.py:380-399 | the follow-up of a Run that waits for approval stays ACCEPTED |
| ClaimProgress.OldestIsClaimed | apps/agent_api/greenbook_agent_api/runner.py:341-420 | when follow-ups point to older Runs and nothing works, a pass over accepted Runs claims an oldest one first |
| ClaimProgress.FinishApplies | apps/agent_api/greenbook_agent_api/runner.py:885-893 | the outcome write of a Run just claimed is accepted |
| ClaimProgress.RoundProgresses | apps/agent_api/greenbook_agent_api/runner.py:332-469 | a pass followed by the finishes of what it claimed keeps the table ready and removes an accepted Run |
| ClaimProgress.MarksMakeARound | apps/agent_api/greenbook_agent_api/runner.py:332-469 | a claim transaction and the outcome marks of all it took, in any order, are such a round |
| ClaimProgress.RoundsDrain | apps/agent_api/greenbook_agent_api/runner.py:341-420 | N accepted Runs are all started and finished after at most N rounds |
| ClaimProgress.HistoryDrains | apps/agent_api/greenbook_agent_api/runner.py:341-469 | the same for every history of claim and mark transactions that is cut into rounds |
| RunHistory.RowStep | apps/agent_api/greenbook_agent_api/runner.py:332-340 | what each transaction does to a row that exists: reset, claim, mark or nothing, and never a change of scope or creation stamp |
| RunHistory.TerminalIsFinal | apps/agent_api/greenbook_agent_api/runner.py:440-448 | a terminal status never changes, in any interleaving of all transactions |
| RunHistory.ClosedOnce | apps/agent_api/greenbook_agent_api/runner.py:434-469 | one writer at most takes a Run from open to terminal |
| RunHistory.Fencing | apps/agent_api/greenbook_agent_api/runner.py:885-893 | an outcome write with a claim token takes effect exactly when no claim, no successful mark and no lease reset touched the row since; with an empty worker id, resets do not count |
| RunHistory.DeadTokenStaysDead | apps/agent_api/greenbook_agent_api/runner.py:332-340 | a token that has failed once fails for ever, even if the same worker id claims the row again |
| RunHistory.SecondOutcomeIsDead | apps/agent_api/greenbook_agent_api/runner.py:775-793 | of two outcome writes with one token the second never takes effect |
| RunHistory.HandOffIsFinal | apps/agent_api/greenbook_agent_api/runner.py:343-345 | a RUNNING row with an empty lease is never returned or altered by a claim pass |
| RunHistory.RunningMarkHandsOff | apps/agent_api/greenbook_agent_api/runner.py:453-461 | a RUNNING mark is such a hand-off: the row stays as written until the next successful mark |
| RunHistory.VersionKeepsOpen | apps/agent_api/greenbook_agent_api/runner.py:332-340 | a row whose version is the one read is still open, although a reset does not bump the version |
| RunHistory.OneTerminalEmission | apps/agent_api/greenbook_agent_api/main.py:664-688 | with any number of interleaved reconcilers, one invocation at most emits a terminal event for a Run, and the status it wrote stays |
| RunHistory.ScopesStayUnique | apps/agent_api/greenbook_agent_api/runner.py:209-215 | over every run each scope has at most one row |
| RunHistory.AcceptIsIdempotent | apps/agent_api/greenbook_agent_api/runner.py:238-299 | all creates that return for one scope return one Run, which stays the only holder for ever |
| AgentRunner.ProcessWritesAtMostOnce | apps/agent_api/greenbook_agent_api/runner.py:760-893 | of the writes of one claimed Run at most one takes effect, the first, and only on an untouched claim |
| AgentRunner.ProjectionFailureWins | apps/agent_api/greenbook_agent_api/runner.py:775-793 | after a projection failure that was written the Run is FAILED for good |
| AgentRunner.SubmissionHandsOff | apps/agent_api/greenbook_agent_api/runner.py:807-893 | a written submission leaves a RUNNING row that no claim pass reaches |
| OutcomeExact.OutcomeExactly | apps/agent_api/greenbook_agent_api/runner.py:871-893 | over any history, the status a written outcome leaves: RUNNING exactly when work was accepted, else COMPLETED exactly on success, WAITING_APPROVAL exactly when it awaits its user and names execution and approval, WAITING_USER exactly when one of them is missing, FAILED otherwise |
| OutcomeExact.OutcomeRow | apps/agent_api/greenbook_agent_api/runner.py:885-893 | the row of a written outcome has the error of the result, the merged payload, no owner and no lease |
| OutcomeExact.SuccessIsForGood | apps/agent_api/greenbook_agent_api/runner.py:871-893 | a success that accepted no further work is COMPLETED for good, in any interleaving |
| OutcomeExact.FailureIsForGood | apps/agent_api/greenbook_agent_api/runner.py:871-893 | a result without success that awaits nobody is FAILED for good |
| OutcomeExact.RaisedExactly | apps/agent_api/greenbook_agent_api/runner.py:748-774 | an execution that raised leaves the Run FAILED for good, with the code and message of the runner |
| OutcomeExact.ProjectionFailureExactly | apps/agent_api/greenbook_agent_api/runner.py:775-793 | a failed projection leaves the Run FAILED for good, with its own code and message |
| OutcomeExact.OutcomePayloadExactly | apps/agent_api/greenbook_agent_api/runner.py:823-870 | the payload of an outcome: identities of the result replace the old ones, execution ids are the old and new ones, each once by first occurrence, and a waiting status leaves its text |
| AgentRunner.LeaseRunsToItsEnd | apps/agent_api/greenbook_agent_api/runner.py:332-340 | text comparison of the stamps resets a lease granted at t exactly from t + max(1, lease) seconds on |
| AgentRunner.LeaseIsExact | apps/agent_api/greenbook_agent_api/runner.py:406-412 | the next pass touches an untouched claim exactly when its lease has run out |
| AgentRunner.RecoverNonSubmittedRuns | apps/agent_api/greenbook_agent_api/runner.py:645-693 | the scan does to every row what the recovery rule says, and nothing to other rows |
| AgentRunner.RecoverySettles | apps/agent_api/greenbook_agent_api/runner.py:645-693 | no stale latch is left, only RUNNING rows without any execution id are closed, exactly the two shapes are closed, and a second scan changes nothing |
| OutcomeExact.RecoveredExactly | apps/agent_api/greenbook_agent_api/runner.py:645-693 | which RUNNING rows recovery closes, on their columns, error code and three measurements, and what it writes |
| AgentRunner.RecoveryRaceIsSafe | apps/agent_api/greenbook_agent_api/runner.py:664-671 | racing with everything else, a stale-latch write takes effect exactly when the row is still the one that was read |
| AgentRunner.NoProgressRaceExactly | apps/agent_api/greenbook_agent_api/runner.py:686-693 | racing with everything else, a no-progress write takes effect exactly when the row is still the one that was read, or its owner was empty and only its lease ran out |
| AgentRunner.RestartKeepsSubmissionExactly | apps/agent_api/greenbook_agent_api/runner.py:799-822 | a handed-off submission survives a restart exactly when some execution is named; otherwise the recovery closes it as FAILED |
| IsoTime.StampOrder | apps/agent_api/greenbook_agent_api/runner.py:940-949 | for all instants, comparing the ISO texts is comparing the instants, with the microsecond field left out when zero |
| IsoTime.StampRoundTrip | apps/agent_api/greenbook_agent_api/runner.py:936-949 | reading the fields of a stamp at their places gives back its instant |
| Calendar.KnownDays | packages/agent_core/greenbook_agent_core/time_parser.py:345-354 | 1 January 2024 was a Monday, and 1 January 1970 the Thursday with ordinal 719163: the anchors of the weekday count |
| Calendar.WeekdaysFollow | packages/agent_core/greenbook_agent_core/time_parser.py:345-354 | the day after a weekday is the next weekday, and Monday follows Sunday |
| Reconciler.CountExecutions | apps/agent_api/greenbook_agent_api/main.py:436-468 | the counting loop returns the class counts and the executions that wait for approval |
| Reconciler.CountsAddUp | apps/agent_api/greenbook_agent_api/main.py:436-468 | every owned message is counted in exactly one class |
| Reconciler.CountPermutes | apps/agent_api/greenbook_agent_api/main.py:436-468 | counts do not depend on the order of the queue |
| VerdictLaws.ClosesExactlyWhenSettled | apps/agent_api/greenbook_agent_api/main.py:412-655 | a Run is made terminal exactly when it is open, the hook is its own, each owned message names a completed, failed or cancelled execution, nothing is pending, the result asks for no wait, and a bound Task is found, terminal and not cancelled |
| VerdictLaws.CompletedExactly | apps/agent_api/greenbook_agent_api/main.py:617-655 | COMPLETED exactly for ended work without a failed or cancelled execution whose Task is COMPLETED or, without one, whose result names no failure and no error; then every owned execution completed |
| VerdictLaws.FailedExactly | apps/agent_api/greenbook_agent_api/main.py:617-655 | FAILED exactly for a failed Task with nothing completed beside a failure, or without a Task when some execution failed or was cancelled and none completed, or the result failed; the event tells the two apart |
| VerdictLaws.PartialExactly | apps/agent_api/greenbook_agent_api/main.py:617-648 | the exact condition for PARTIAL_SUCCESS, on the statuses of the owned executions |
| VerdictLaws.KeptRunningExactly | apps/agent_api/greenbook_agent_api/main.py:498-574 | kept RUNNING exactly when the Task is missing or still open, some owned execution is live or unknown, something is pending, or the result is running |
| VerdictLaws.WaitsExactly | apps/agent_api/greenbook_agent_api/main.py:576-616 | waits exactly when some owned execution is held or the result or the payload awaits the user and nothing works; an approval wait needs the identity of the first approval, and without it nothing is written |
| VerdictLaws.WritesExactly | apps/agent_api/greenbook_agent_api/main.py:556-688 | what each verdict writes: status, error of the result, measurements, the identity of an approval wait, bound to the version that was read |
| ReconcilerFacts.CountsMean | apps/agent_api/greenbook_agent_api/main.py:436-468 | the four counts are positive exactly when some owned message names an execution of such a status, read off the executions themselves |
| ReconcilerFacts.TaskMeans | apps/agent_api/greenbook_agent_api/main.py:488-530 | the Task is looked up under the id of the result, else of the payload, else of the first owned message that names one, in the scope of the row completed from the first owned message |
| VerdictLaws.RaisesExactlyOnCancelledTask | apps/agent_api/greenbook_agent_api/main.py:627-629 | the unbound name is reached exactly for a settled Run whose Task was cancelled, and then nothing is written |
| VerdictLaws.CancelledTaskStaysOpen | apps/agent_api/greenbook_agent_api/main.py:627-629 | a concrete settled Run with a cancelled Task that is not closed |
| VerdictLaws.CompletedWithErrorExactly | apps/agent_api/greenbook_agent_api/main.py:630-655 | a COMPLETED write carries an error code exactly for a COMPLETED Task with a result that names one |
| VerdictLaws.CompletedCanCarryAnError | apps/agent_api/greenbook_agent_api/main.py:630-632 | a concrete COMPLETED write that carries an error code |
| ReconcilerLaws.VerdictIsOrderFree | apps/agent_api/greenbook_agent_api/main.py:417-655 | with one binding to a Task, permuting the queue changes neither closing nor the terminal status |
| ReconcilerLaws.FallbackTaskExactly | apps/agent_api/greenbook_agent_api/main.py:488-496 | the task id taken from the messages is order-free exactly when they name at most one task |
| ReconcilerLaws.ScopeOrderExactly | apps/agent_api/greenbook_agent_api/main.py:506-522 | the lookup scope is order-free exactly when every part missing on the row is the same in all messages |
| ReconcilerLaws.ReconcilerIsOrderFree | apps/agent_api/greenbook_agent_api/main.py:417-655 | the verdict is order-free when no Task is named, or the lookup key does not depend on the order, which a caller can check |
| ReconcilerLaws.VerdictOrderExactly | apps/agent_api/greenbook_agent_api/main.py:417-655 | for a Run that everything but the Task lets close, that condition is exact over all Tasks and all orders of the queue |
| ReconcilerLaws.OrderCanMatterByTask | apps/agent_api/greenbook_agent_api/main.py:488-496 | two messages that name different tasks decide by their order |
| ReconcilerLaws.OrderCanMatterByScope | apps/agent_api/greenbook_agent_api/main.py:506-522 | even with a named Task, messages of two scopes can decide by their order |
| ReconcilerLaws.OrderMattersForTwoTasks | apps/agent_api/greenbook_agent_api/main.py:488-496 | a concrete Run that one order of its two messages closes and the other does not |
| ReconcilerLaws.OrderMattersForTwoScopes | apps/agent_api/greenbook_agent_api/main.py:506-522 | a concrete Run without a user for which the order of two users decides |
| ReconcilerLaws.TerminalEventIsJustified | apps/agent_api/greenbook_agent_api/main.py:412-413 | over every run, a terminal event is backed by settled facts, is the only one, names the status the Run keeps, and later reconcilers write nothing |
| ReconcilerLaws.Commit | apps/agent_api/greenbook_agent_api/main.py:664-688 | the write is the one the verdict asks for, and the event is emitted exactly when the write took effect |
| EventStore.AgentRunEventStore.Append | apps/agent_api/greenbook_agent_api/runner.py:498-508 | appends one event with the next number and keeps the numbering |
| EventStore.AgentRunEventStore.ListSince | apps/agent_api/greenbook_agent_api/runner.py:510-512 | the filter loop |
| EventStore.SinceCuts | apps/agent_api/greenbook_agent_api/runner.py:510-512 | filtering by id is cutting the list at the cursor |
| EventStore.MoveKeepsPrefixExactly | apps/agent_api/greenbook_agent_api/runner.py:495-515 | a move keeps the reader on a prefix of the log exactly when it does not clear the Run of a reader that has seen something |
| EventStore.ReaderSeesPrefix | apps/agent_api/greenbook_agent_api/runner.py:495-515 | over any moves, a polling reader holds at every moment a prefix of the append order, no gap and nothing twice, exactly when its Run is never cleared under it |
| EventStore.PollReadsAll | apps/agent_api/greenbook_agent_api/runner.py:510-512 | a poll on a prefix reads everything there is |
| EventStore.ClearLosesEvents | apps/agent_api/greenbook_agent_api/runner.py:514-515 | after a clear and any appends the next poll skips as many new events as the reader had seen old ones; events are lost exactly when there are both |
| JsonScan.ExtractTopLevelJson | packages/agent_core/greenbook_agent_core/llm_compat.py:47-89 | the function, with its in-place scanner loop |
| JsonScan.ScanFrom | packages/agent_core/greenbook_agent_core/llm_compat.py:68-88 | the loop over depth, string and escape state finds the end the recursive scanner defines |
| JsonScan.ScansExactlyBalanced | packages/agent_core/greenbook_agent_core/llm_compat.py:68-88 | the scanner stops after n characters exactly when those form a balanced text of the grammar |
| JsonScan.ExtractionIsBalanced | packages/agent_core/greenbook_agent_core/llm_compat.py:56-89 | the result is the one balanced prefix from the first brace of the fence-stripped text, or else the whole content |
| JsonScan.EmptyExactlyWhenBlank | packages/agent_core/greenbook_agent_core/llm_compat.py:56-89 | the result is empty exactly for a content of white space alone |
| JsonPrint.PrintedObjectIsBalanced | packages/agent_core/greenbook_agent_core/llm_compat.py:71-87 | every JSON object text (sections 2 to 7 of RFC 8259), with white space at any structural position and any choice of escapes, is a balanced text |
| JsonPrint.ExtractsWhatWasPrinted | packages/agent_core/greenbook_agent_core/llm_compat.py:47-89 | extraction returns exactly the printed object, behind any brace-free prefix and before any suffix, when an opening fence line ends before it |
| JsonPrint.ExtractsBalanced | packages/agent_core/greenbook_agent_core/llm_compat.py:47-89 | the same for every balanced text |
| JsonPrint.ExtractsExactlyWhenFenceLineEnds | packages/agent_core/greenbook_agent_core/llm_compat.py:59-67 | with brace-free text around any balanced object, the fence condition is exact |
| JsonPrint.LostLineFallsBack | packages/agent_core/greenbook_agent_core/llm_compat.py:59-67 | where it fails for a one-line object, the whole content comes back |
| JsonPrint.FenceOnOneLineLosesObject | packages/agent_core/greenbook_agent_core/llm_compat.py:59-67 | so a one-line object on the line of its opening fence, followed by another line, is lost |
| JsonPrint.InnerObjectComesBack | packages/agent_core/greenbook_agent_core/llm_compat.py:59-87 | an object of several lines that opens on its fence line is replaced by a balanced text inside it |
| JsonPrint.WrongObjectReturned | packages/agent_core/greenbook_agent_core/llm_compat.py:59-87 | a concrete object for which its inner object is returned |
| HeaderCodec.RoundTripExactly | services/greenbook_mcp/greenbook_mcp_server/client.py:26-37 | decoding the encoded form gives back every string except the one overlapping literal, which comes back empty |
| HeaderCodec.EncodedIsHeaderSafe | services/greenbook_mcp/greenbook_mcp_server/client.py:26-37 | what is sent is nonempty printable ASCII without outer white space |
| HeaderCodec.EncoderIsInjective | services/greenbook_mcp/greenbook_mcp_server/client.py:26-37 | different values are never sent alike |
| HeaderCodec.DecodedExactly | services/greenbook_mcp/greenbook_mcp_server/http_app.py:48-57 | which wire values decode to a given text |
| HeaderExact.SentExactly | services/greenbook_mcp/greenbook_mcp_server/client.py:23-37 | a value is sent as it is exactly when it is printable ASCII without an outer space and not wrapped; any other is sent as the Base64 of its UTF-8 bytes between the delimiters |
| HeaderExact.SpelledExactly | services/greenbook_mcp/greenbook_mcp_server/http_app.py:48-54 | a delimited value decodes to a text exactly when it spells its bytes |
| HeaderExact.InvalidExactly | services/greenbook_mcp/greenbook_mcp_server/http_app.py:55-57 | a value is refused for its characters exactly when it is not delimited and one is no printable ASCII |
| HeaderExact.MalformedExactly | services/greenbook_mcp/greenbook_mcp_server/http_app.py:49-54 | it is refused as malformed exactly when it is delimited and spells no text |
| HeaderCodec.WrappedIsSentinelOrOverlap | services/greenbook_mcp/greenbook_mcp_server/client.py:23-35 | a printable value the decoder takes for wrapped is a sentinel for the encoder, or the overlap |
| Base64.DecodeEncodeBase64 | services/greenbook_mcp/greenbook_mcp_server/client.py:36 | Base64 decoding inverts encoding |
| Base64.EncodedIsPrintable | services/greenbook_mcp/greenbook_mcp_server/client.py:36 | Base64 text is printable ASCII |
| Base64Wire.DigitIsTable | services/greenbook_mcp/greenbook_mcp_server/client.py:36 | the digits are table 1 of RFC 4648 |
| Base64Wire.EncodesTheTable | services/greenbook_mcp/greenbook_mcp_server/client.py:36 | at every position the encoder writes the character of that table at the value of the six bits that fall on it, and the padding sign after the last bit (section 4 of RFC 4648) |
| Base64Wire.EncodedLength | services/greenbook_mcp/greenbook_mcp_server/client.py:36 | the length is the least multiple of four that holds all bits |
| Base64Reader.DecodesExactly | services/greenbook_mcp/greenbook_mcp_server/http_app.py:52 | the decoder answers b exactly for the texts of the right length whose characters carry the bits of b, with padding after the last bit; only bits that no byte claims are free |
| Utf8.FormOfChar | services/greenbook_mcp/greenbook_mcp_server/client.py:36 | each character is written in the form of section 3 of RFC 3629 |
| Utf8.DecodeEncode | services/greenbook_mcp/greenbook_mcp_server/client.py:36 | UTF-8 decoding inverts encoding for all scalar values |
| Utf8.EncodeDecode | services/greenbook_mcp/greenbook_mcp_server/http_app.py:52 | what decodes, encodes back to the same bytes, so overlong forms are refused |
| WriteFailure.RetryExactly | packages/contracts/greenbook_contracts/external_agent_failure.py:162-306 | RETRY exactly for a retryable failure whose code is no login, runtime failure, refusal or throttle and of which the first effect that is said is NONE or NOT_STARTED; or none is said and the first word on a start denies it; or there is no word and the request was not sent |
| WriteFailure.ReconcileExactly | packages/contracts/greenbook_contracts/external_agent_failure.py:221-262 | the exact condition for RECONCILE, in the same terms |
| WriteFailure.OtherAdviceExactly | packages/contracts/greenbook_contracts/external_agent_failure.py:221-288 | a new login, a wait, or no advice because the normalizer raises: each exactly when |
| WriteFailure.BegunIsReconciled | packages/contracts/greenbook_contracts/external_agent_failure.py:187-193 | a side effect reported as begun, with nothing else said, is never replayed, and is reconciled unless the code settles the matter |
| WriteFailure.TruthfulCommitOnce | packages/contracts/greenbook_contracts/external_agent_failure.py:221-262 | over every sequence of truthful reports, whatever hint, evidence and state say, a driver that replays only on RETRY commits at most once, and only in its last attempt |
| WriteFailure.ReadAdviceExactly | packages/java_client/greenbook_java_client/client.py:340-450 | a read without an answer is always repeated, an unreadable success fails, and other answers are treated as for a write |
| McpFailure.McpAdviceExactly | services/greenbook_mcp/greenbook_mcp_server/client.py:344-495 | the advice on every end of a call through the MCP client, for reads and writes |
| McpFailure.UnsafeReplayExactly | services/greenbook_mcp/greenbook_mcp_server/client.py:362-373 | of all ends of a write through the MCP client, the one that may have been applied and is still recommended for replay is a connection that broke off |
| McpFailure.McpCommitsOnceExactly | services/greenbook_mcp/greenbook_mcp_server/client.py:344-434 | over every drive through the MCP client, only the last call commits exactly when no earlier call committed and then broke off |
| McpFailure.BrokenOffCommitsPileUp | services/greenbook_mcp/greenbook_mcp_server/client.py:368-373 | without that condition there is no bound: n such calls are a drive with n commits |
| ErrorCodes.ReadsExactly | packages/contracts/greenbook_contracts/external_agent_failure.py:287-293 | the normalizer sees a code exactly in a text that spells it after trimming and upper-casing, the client only in that form itself |
| WriteFailure.WriteRetryExactly | packages/java_client/greenbook_java_client/client.py:336-464 | a write is recommended for replay exactly after the four pre-send failures and after a 4xx that names an unavailable backend and nothing more specific |
| WriteFailure.UnansweredRetryExactly | packages/java_client/greenbook_java_client/client.py:340-427 | without an answer: RETRY for the four pre-send failures, RECONCILE for every other one |
| WriteFailure.MappedRetryable | packages/java_client/greenbook_java_client/client.py:239-320 | only the unavailable backend is mapped to a retryable result, and exactly when such a result also says NOT_STARTED |
| WriteFailure.AnswersExactly | packages/java_client/greenbook_java_client/client.py:239-320 | for every answer that is no success, by status and code: exactly when it is RETRY, RECONCILE, REAUTH or WAIT_DEPENDENCY; FAIL is the rest |
| WriteFailure.NoAdviceExactly | packages/java_client/greenbook_java_client/client.py:432-450 | there is nothing to recover exactly for a success |
| WriteFailure.AmbiguousWritesReconcile | packages/contracts/greenbook_contracts/external_agent_failure.py:251-261 | a write is sent to reconciliation exactly when it ends without success and may have been applied |
| WriteFailure.ServerErrorsExactly | packages/java_client/greenbook_java_client/client.py:253-316 | a 5xx is reconciled exactly when its body names no refusal; a named refusal is believed, with a new login or a plain failure |
| WriteFailure.RateLimitFails | packages/java_client/greenbook_java_client/client.py:318-320 | a 429 that names a rate limit is a plain failure |
| WriteFailure.AtMostOneCommit | packages/contracts/greenbook_contracts/external_agent_failure.py:221-262 | over every sequence of outcomes, statuses and codes, a driver that replays only on RETRY commits at most once, and only in its last attempt |
| WriteFailure.CommitEndsTheDrive | packages/contracts/greenbook_contracts/external_agent_failure.py:251-261 | a committing attempt is never followed by a replay |
| Continuations.MoveKeepsInv | apps/agent_api/greenbook_agent_api/main.py:735-800 | every move of the event loop, early returns included, keeps the lock invariant, although the lock is evicted while others wait on it |
| Continuations.ContinuationsSerialise | apps/agent_api/greenbook_agent_api/main.py:732-816 | in every interleaving of every sequence of batches, members of one task key are never in the lock body together, pass it in batch order, and never block on the semaphore |
| Continuations.PermitsSuffice | apps/agent_api/greenbook_agent_api/main.py:804-810 | a batch is never larger than its permits |
| Continuations.SomebodyCanMove | apps/agent_api/greenbook_agent_api/main.py:741-800 | no deadlock inside a batch |
| Continuations.LockStaysExactly | apps/agent_api/greenbook_agent_api/main.py:740-800 | the dictionary holds a key exactly when no exit of the key that falls through came after its last setdefault |
| Continuations.NoneEarlyLeavesNoLock | apps/agent_api/greenbook_agent_api/main.py:799-800 | as long as nobody returns early the dictionary is empty at every barrier |
| Continuations.LocksPileUp | apps/agent_api/greenbook_agent_api/main.py:747-762 | early returns of n different keys leave n locks behind, from one on |
| Continuations.FirstStepsMustComeFirst | apps/agent_api/greenbook_agent_api/main.py:799-800 | without the rule that all first steps run before any resumption, the eviction lets two members of one key in |
| ScheduleTime.ParseNumber | packages/agent_core/greenbook_agent_core/time_parser.py:109-128 | the loop over digits and units |
| ScheduleTime.NumeralsParse | packages/agent_core/greenbook_agent_core/time_parser.py:109-128 | every customary Chinese numeral below a thousand is read as its number |
| ScheduleTime.DecimalsParse | packages/agent_core/greenbook_agent_core/time_parser.py:110-112 | every decimal numeral is read as its number, with a leading zero or without |
| ScheduleTime.NoNumberExactly | packages/agent_core/greenbook_agent_core/time_parser.py:113-114 | there is no number exactly in white space alone and in a text that is neither all decimal nor all numeral signs |
| ScheduleTime.TwelveHourDial | packages/agent_core/greenbook_agent_core/time_parser.py:377-383 | on the twelve-hour dial, morning words count from midnight and later ones from noon, so a late twelve is noon |
| ScheduleTime.ClockExactly | packages/agent_core/greenbook_agent_core/time_parser.py:369-412 | given up exactly for a minute past 59 or an hour past 23; otherwise the minute and the hours after twelve stay, and the hours up to twelve stand in the half of the day that the day part says |
| ScheduleTime.BareTimeIsNext | packages/agent_core/greenbook_agent_core/time_parser.py:356-361 | a bare time of day resolves to the only instant with that clock time in the 24 hours from the base on |
| ScheduleTime.NextWeekIsNextWeek | packages/agent_core/greenbook_agent_core/time_parser.py:340-354 | a next-week weekday is that weekday, and no other day, of the Monday-based week right after the base week |
| ScheduleTime.NamedDaysDoNotRoll | packages/agent_core/greenbook_agent_core/time_parser.py:414-420 | a named day is kept even when its time has passed: a date is that date, a number of days counts from the day of the base |
| ScheduleTime.ClockShows | packages/agent_core/greenbook_agent_core/time_parser.py:414-420 | whatever the day, the resolved instant shows the asked hour and minute on a local clock |

## Left out

- Database mechanics: each store method is one atomic step over a map, with code-point string
  comparison; the order of rows with equal creation stamps is arbitrary; the two `_now()` calls
  in `create` are one stamp; column defaults that turn missing values into empty text are not
  modelled.
- Float rounding of the lease end: stamps and leases are whole microseconds, and the lease end is exact.
- The runner's poll loop, its map of running asyncio tasks and cancellation; only the writes of a
  claimed Run and the recovery scan are modelled.
- The events of `_process`: it appends them whether or not its write took effect, so nothing is
  claimed about them.
- Payload keys that no modelled branch reads; performance measurements are parameters; the
  result's partial results are always a mapping; confirmation and failure entries are not merged.
- A repeat of the same terminal status may still rewrite error fields and payload; only the status is latched.
- What the reconciler reads (queue, executions, observations, Task, approval) is a parameter, read
  as one snapshot; texts it upper-cases are taken as upper-cased; missing stores, where it returns at once, are not modelled.
- The observation store: batches are taken as given, no larger than the semaphore, as the call
  that claims them asks for; duplicates across processes are not modelled.
- Cancellation of continuation coroutines and failures that escape them; both would also skip the
  eviction of the lock.
- Lone surrogates in header values, on which the encoder raises.
- DecodedExactly: treats stray padding and unused bits as RFC 4648 groups do, not as any one
  Python version does.
- JSON numbers are any text of number characters, which is more than RFC 8259 allows.
- Trace ids, receipts, messages, metadata and the dependency name of a failure; upper-casing of
  codes outside ASCII; exceptions of the HTTP library that the client does not catch.
- AtMostOneCommit: assumes that the four pre-send failures, and 4xx answers that do not call the
  outcome unknown, applied nothing; it covers the Java client, and `McpCommitsOnceExactly` the MCP client.
- McpCommitsOnceExactly: a commit is an application by the provider; whether the provider recognises
  a repeated idempotency key is not modelled.
- The time parser's regular expressions, zones without a fixed offset, relative delays, explicit
  dates and dates past year 9999; non-ASCII decimal digits.
- `list_recent`, `project_progressive_event`, web wiring, authentication, evaluation and the
  frontend, which would only add easy members.
