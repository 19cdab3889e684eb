# Dipper: what its registry, cancel dispatch, job queue and supervisor keep

Dipper offers indexing agreements to indexers, follows them on-chain and ends the ones it no longer
wants. This project models the parts of it that hold state and proves what they keep over every run:

- **The agreement registry.** Each write to `dipper_reg_indexing_agreements` is one guarded, atomic
  step on a row (`Agreement.dfy`). A run is any sequence of such steps, by any callers, on one row or
  on the table (`AgreementTable.dfy`, which shows that runs of the table are runs of each row).
  The table has a unique index: an indexer has at most one created or accepted agreement per
  deployment, and a write that would break this is refused. `Registry.dfy` has the writes as methods
  that update the table in place, batch reconciliation included, each proved against the step it
  makes; `Reconciliation.dfy` compares the batch with reconciling one by one.
- **The on-chain cancel protocol.** `Dispatch.dfy` is a state machine of any number of cancel calls
  for one agreement, interleaved with every other writer of its row and with the chain.
  `CancelDispatch.dfy` has the dispatcher's functions in their own order of steps, with others acting
  between any two, and proves that they follow the state machine.
- **The cancel retry's query.** `CancelSweep.dfy` shows that no cancelling agreement starves.
- **The job queue, the alert throttle, the supervisor and the requests table**: `JobQueue.dfy`,
  `AlertThrottle.dfy`, `Supervisor.dfy`, `RequestTable.dfy`.

SQL conditions use three-valued logic (`Sql.dfy`). Database times are microseconds and chain times
seconds. Clocks, identifiers, failures and what the chain does are parameters, so every theorem holds
for all of them.

Where comments in the code and its statements disagree, the model follows the statements.
`dipper-pgregistry/src/indexing_agreement.rs:169-188` calls `CanceledByRequester` and `Expired`
terminal; `Lifecycle.TerminalExactly` and `Lifecycle.ReachableExactly` show that neither is.

Three promises turn out to need a condition:

- A batch is not always what reconciling its items one by one gives. It accepts before it cancels, in
  one transaction, so one accept the index refuses undoes the whole batch, while one by one the rest
  apply and the order matters. `Reconciliation.BatchRefusesWhatAnOrderTakes` is such a batch,
  `Reconciliation.LaggingAcceptArises` a run that leads to it, and
  `Reconciliation.BatchIsOneByOneExactly` says exactly when the two agree.
- A set `terminated` marker does not always mean the agreement has ended. `EndAudit.UnreadReopenBreaksIt`
  and `EndAudit.LateMarkBreaksIt` are runs that break it, and `EndAudit.AnnouncementKeptExactly` says
  exactly which writes do; over a run, it holds throughout exactly when none of them happens
  (`EndAudit.TrueExactlyWhenUnbroken`).
- The supervisor's wait looks at the task tree before its timer, so a task that is ready at the
  deadline is still collected. The model allows for it.

Assumptions: a new row has the column defaults of the migrations. In the theorems about the chain, an
accept is written to a row only once the chain has it, a caller's copy of a row has a status the row
has had, and the chain takes back neither an accept nor an end (`Dispatch.Honest`). Each statement or
transaction on a row is atomic.

## Model

| member | source | states |
|---|---|---|
| Lifecycle.ReachableExactly | dipper-pgregistry/src/postgres.rs:943-1119 | A row can come to be in a status, by some run of writes, if and only if the transition relation says so: both that every run stays inside it and that each status in it has a run leading there. |
| Lifecycle.TerminalExactly | dipper-pgregistry/src/postgres.rs:1028-1119 | The statuses no run leaves are `Unresponsive`, `CanceledByIndexer`, `AbandonedByIndexer` and the unknown fallback, and no others. |
| Lifecycle.ClosingIsClosed | dipper-pgregistry/src/postgres.rs:268-280 | Once a row is cancelling or ended by a cancel, every run keeps it so. |
| Lifecycle.AcceptsAtMostOnce | dipper-pgregistry/src/postgres.rs:1257-1294 | In every run the accept write moves the row at most once, and not at all from a status past it. |
| Lifecycle.MarksAtMostOnce | dipper-pgregistry/src/postgres.rs:1028-1073 | In every run at most one cancelling or abandoning mark lands. |
| Lifecycle.ReconciledStatus | dipper-pgregistry/src/postgres.rs:1246-1294 | Which statuses an observed accept and an observed cancel of either kind apply to, alone and together, and the status each leaves. |
| EndAudit.AnnouncementKeptExactly | dipper-pgregistry/src/postgres.rs:1082-1119 | Of a true announcement, a write leaves a true one if and only if it is neither a mark of a row that is not an accepted, ended one nor an unread reopen of an announced, cancelled one. |
| EndAudit.UnreadReopenBreaksIt | bin/dipper-service/src/cancel_dispatch.rs:331-352 | A run from a fresh row, every announcement of it due, after which an unread reopen leaves a set marker on a row that has not ended. |
| EndAudit.LateMarkBreaksIt | dipper-pgregistry/src/postgres.rs:1453-1469 | Any cancelled row due for announcement that is reopened before the marker is written ends up with a false marker. |
| EndAudit.TrueExactlyWhenUnbroken | dipper-pgregistry/src/postgres.rs:1082-1119 | Over a run, a set marker implies an ended status and a recorded accept at every point if and only if no write of the run is one of those two. |
| EndAudit.AnnouncementsStayTrue | dipper-pgregistry/src/postgres.rs:1421-1469 | In every run whose sweep marks only what it reads and whose unread reopens find no cancelled row, a set marker implies an ended status and a recorded accept. |
| EndAudit.AnnouncedEndStays | dipper-pgregistry/src/postgres.rs:1599-1696 | In a run without those two writes no non-NULL field of an announced end changes while its marker stays set. |
| EndAudit.AnnouncedOnceKnownOrLate | dipper-pgregistry/src/postgres.rs:1421-1450 | Over every run, an agreement is up for announcement if and only if it has ended, was accepted, is not yet announced, and the transaction that ended it is known or over an hour has passed since it ended. |
| EndAudit.ClearedExactlyWhenCorrected | dipper-pgregistry/src/postgres.rs:114-144 | A write returns a correction if and only if it cleared an announcement. |
| EndAudit.AnnouncementsBalance | bin/dipper-service/src/network/service/chain_listener.rs:1560-1661 | In every run, whatever the callers do, the announcements sent equal the corrections returned, the one still standing, and the repetitions: sends whose stamp failed and sends of an agreement already announced. |
| EndAudit.ReplacedAtMostTwice | dipper-pgregistry/src/postgres.rs:1592-1696 | While an accepted row stays ended, replacements of its end plus what the measure has left never exceed the measure it began with, and are at most two. |
| EndAudit.SettledEndIsFinal | dipper-pgregistry/src/postgres.rs:1606-1619 | A complete end at or after the accept is never changed, nor its announcement cleared, while the row stays ended. |
| EndAudit.EndOnRecord | dipper-pgregistry/src/postgres.rs:1599-1639 | The three-valued rule in plain conditions: when an end on record is replaced whole and its announcement cleared, and otherwise that it is kept and its gaps filled with what was given. |
| EndAudit.AcceptOnRecord | dipper-pgregistry/src/postgres.rs:1559-1696 | A recorded accept fills the gaps alone, and an end recorded with it is judged by the accept then on record. |
| CancelChecks.ColumnsRefineHistory | dipper-pgregistry/src/postgres.rs:1183-1216 | Over every run the attempts column is the capped total of failed attempts since the row last became cancelling, and the ended-seen column the time of the first ended check after the last live one. |
| CancelChecks.BaseIsLastTouch | dipper-pgregistry/src/postgres.rs:970-999 | The retry's sort key of a cancelling row is when it last became so or was checked; no other write moves it. |
| CancelChecks.NeverLost | dipper-pgregistry/src/postgres.rs:2054-2126 | From its abandoning mark until its replacement is queued, whatever else is written, an agreement is in exactly one place: holding its slot, cancelling but seen ended, or listed for replacement. |
| CancelChecks.ListedUntilReopened | dipper-pgregistry/src/postgres.rs:2054-2126 | Listed for replacement, an agreement stays listed, whatever else is written, until its replacement is queued or it is reopened. |
| CancelChecks.QueuedForGood | dipper-pgregistry/src/postgres.rs:2114-2126 | Once its replacement is queued an agreement never waits for another, and is in none of the three places. |
| CancelChecks.AbandoningEndsAbandoned | dipper-pgregistry/src/postgres.rs:2709-2731 | A cancel by dipper that reconciliation applies, alone or in a batch, to a row marked abandoning, however much later, ends it `AbandonedByIndexer` for good. |
| AgreementTable.RunProjects | dipper-pgregistry/src/postgres.rs:567-616 | No row is ever removed, and what a run of the table does to a row is a run of that row's writes. |
| AgreementTable.EveryRowHasARun | dipper-pgregistry/src/postgres.rs:567-616 | Every row of a table built up from nothing is a fresh row after some run. |
| CancelSweep.EligibleExactly | dipper-pgregistry/src/postgres.rs:1121-1162 | The query selects a cancelling row if and only if its failures since it became so are under the limit or it was last looked at over an hour ago, and it has been looked at or is past the minimum age. |
| CancelSweep.AnswerExists | dipper-pgregistry/src/postgres.rs:1163-1172 | Every table has an answer: the first rows in the sort order, up to the limit. |
| CancelSweep.AnswerIsFull | dipper-pgregistry/src/postgres.rs:1121-1172 | An answer lists every eligible agreement, or as many as the limit allows. |
| CancelSweep.NoStarvation | dipper-pgregistry/src/postgres.rs:1121-1216 | A row overdue by an hour with k rows that could precede it is got to within k/pace + 1 sweeps that each get through at least pace of the rows they list, unless someone else touches it first, whatever is marked, reopened or gains the head start meanwhile. |
| Reconciliation.BatchIsOneByOneExactly | dipper-pgregistry/src/postgres.rs:1296-1419 | The batch leaves every row in the status, and gives every item the answer, that reconciling the items one by one does, in every order and at any times, if and only if no accept of an expired agreement shares its pair with an active agreement or with another the batch accepts without cancelling, or else every item is such an accept whose pair is taken. |
| Reconciliation.BatchRefusesWhatAnOrderTakes | dipper-pgregistry/src/postgres.rs:1374-1395 | The batch that accepts an expired agreement and ends the newer one of its pair is refused whole and changes nothing, though one by one, the end first, both apply. |
| Reconciliation.LaggingAcceptArises | dipper-pgregistry/src/postgres.rs:567-616 | For any indexer and deployment, a run from the empty table after which any two items of that kind meet such a pair of agreements. |
| Reconciliation.AlwaysIndexed | dipper-pgregistry/migrations/20260206100000_remove_accepted_rejected_statuses.sql:12-17 | In every run, batches included, an indexer has at most one agreement per deployment that is created or accepted. |
| Reconciliation.CompatibleAgrees | dipper-pgregistry/src/postgres.rs:1257-1294 | The half of that with a plain condition: where no accept meets its pair taken, every order ends as the batch does, status by status and outcome by outcome. |
| Reconciliation.AcceptsFitExactly | dipper-pgregistry/src/postgres.rs:1374-1386 | The one statement that accepts passes the index if and only if none of its expired agreements shares its pair with one active once the paired items are through or with another it accepts. |
| Reconciliation.AuditsOnlyWhereMoved | dipper-pgregistry/src/postgres.rs:1400-1414 | A row the batch did not move is left exactly as it was. |
| Reconciliation.BatchRecordsWhatItSaw | dipper-pgregistry/src/postgres.rs:1400-1414 | For every row of a batch that is not refused: an accept that applies leaves the accept observed, and an end that applies the end observed, column by column where there is a value and what was there where there is none. |
| Registry.PgRegistry.ApplyReconciliationBatch | dipper-pgregistry/src/postgres.rs:1309-1419 | Partitioning, the row-by-row pairs, the three batched updates and the audits together make exactly the batch step, with an outcome for every input id; it fails, and leaves the table as it was, if and only if the index refuses one of its accepts. The rollback for a missed cancel is unreachable. |
| Registry.PgRegistry.ApplyReconciliation | dipper-pgregistry/src/postgres.rs:1257-1294 | Makes the row's reconcile step and returns which transitions applied; it fails, changing nothing, if and only if it accepts an expired agreement whose pair is taken. The rollback for a missed cancel is unreachable. |
| Registry.PgRegistry.BatchApplyCancel | dipper-pgregistry/src/postgres.rs:2709-2731 | Ends exactly the listed rows whose status the kind of cancel ends, each in the status its kind and abandoned flag say. |
| Registry.PgRegistry.MarkAsCancelling | dipper-pgregistry/src/postgres.rs:1028-1045 | Makes the mark step; succeeds if and only if the row is in a status it starts from. |
| Registry.PgRegistry.MarkAsAbandoning | dipper-pgregistry/src/postgres.rs:1047-1073 | Makes the abandoning step; succeeds if and only if the row is accepted on-chain. |
| Registry.PgRegistry.MarkAsCanceledByRequester | dipper-pgregistry/src/postgres.rs:1001-1012 | Makes the step that ends an unwanted agreement; succeeds if and only if its guard matches. |
| Registry.PgRegistry.MarkAsAbandonedByIndexer | dipper-pgregistry/src/postgres.rs:1014-1026 | Makes the step that ends an abandoned agreement; succeeds if and only if the row is cancelling. |
| Registry.PgRegistry.ReopenCancel | dipper-pgregistry/src/postgres.rs:1082-1119 | Makes the reopen step and returns the announcement it cleared, if any; fails if and only if the row is neither cancelled nor rejected. Seen live, it leaves no end and no announcement on record; unread, it leaves both as they were. |
| Registry.PgRegistry.UpdateOfferTxHash | dipper-pgregistry/src/postgres.rs:970-999 | Records the offer and leaves a cancelling row's mark time alone. |
| Registry.PgRegistry.RecordCancelCheck | dipper-pgregistry/src/postgres.rs:1187-1216 | Makes the check step and returns the new attempt count. |
| Registry.PgRegistry.RecordCancelAudit | dipper-pgregistry/src/postgres.rs:1599-1639 | The replace-or-fill rule for an end, written with plain tests, is the three-valued SQL rule, and the correction returned is the announcement it cleared; for a replaced end of an accepted agreement it carries the new time unchanged, the signed column notwithstanding. |
| Registry.PgRegistry.RecordAcceptAndCancelAudit | dipper-pgregistry/src/postgres.rs:1648-1696 | The same with the accept recorded in the same write, which the end is judged against. |
| Dispatch.AtMostOneCancel | bin/dipper-service/src/cancel_dispatch.rs:112-163 | In every interleaving of any number of calls at most one cancel is sent, at most one call gets past its mark, and the cancel is that call's. |
| Dispatch.FailedMarkSendsNothing | bin/dipper-service/src/cancel_dispatch.rs:109-125 | A call whose mark failed has neither read the chain nor sent anything. |
| Dispatch.EndedIsEnded | bin/dipper-service/src/cancel_dispatch.rs:242-284 | The step at which a call returns ended leaves the row ended, also when its mark found no row to move, and a row it moves is in the status of the call's reason. |
| Dispatch.EndedWasMarked | bin/dipper-service/src/cancel_dispatch.rs:242-284 | A call that returned ended has a step of its own in the run that left the row ended. |
| Dispatch.ConfirmedFirst | bin/dipper-service/src/cancel_dispatch.rs:27-65 | A call reaches its final mark only after it sent its cancel, then read the agreement as not live, and only when its caller knew it accepted. |
| Dispatch.DecidedSawItGone | bin/dipper-service/src/cancel_dispatch.rs:404-424 | In every run a call that is confirming, or that returned ended or nothing live, has a read of its own that went through and found nothing live: an accepted agreement given notice, or one not accepted and not on offer. |
| Dispatch.ReturnsForCause | bin/dipper-service/src/cancel_dispatch.rs:185-284 | In every run each result has its cause at a step of the call: maybe live only for a failed request, a missing 32-byte hash or a read after its own cancel that found it live; nothing live only for a read that found it so, which after its own cancel means ended by the indexer or not known accepted, or for a failed last mark. |
| Dispatch.SendsOnlyForLive | bin/dipper-service/src/cancel_dispatch.rs:24-65 | In every run a cancel goes out only with a 32-byte hash and only for an agreement its caller had seen live or its own read found live. |
| Dispatch.RecordsItsOwnCancel | bin/dipper-service/src/cancel_dispatch.rs:242-284 | In every run the transaction a call records is the one its own cancel went out in, and it marks the row ended only after recording that, if it was told one. |
| Dispatch.RecordingWrites | bin/dipper-service/src/cancel_dispatch.rs:242-284 | Recording that leaves a whole end on the row: the call's transaction, time and manager wherever there was no value. |
| Dispatch.ReasonIsKept | bin/dipper-service/src/cancel_dispatch.rs:145-183 | In every run the row of a call past its mark is noted abandoned if and only if that was the reason for the cancel. |
| Dispatch.BooksOnlyRealEnds | bin/dipper-service/src/cancel_dispatch.rs:203-240 | On a chain that takes nothing back, whatever step of a call takes a row from not ended to ended, its agreement was known accepted and is over on the chain, not by the indexer, and stays so whatever anyone does next. |
| CancelDispatch.Dispatcher.StartCancel | bin/dipper-service/src/cancel_dispatch.rs:109-125 | Follows the state machine under any interference; ended means the row is ended and was known accepted; a registry error means the chain was neither read nor written. |
| CancelDispatch.Dispatcher.StartCancelSeenLive | bin/dipper-service/src/cancel_dispatch.rs:127-143 | The same without the first read. |
| CancelDispatch.Dispatcher.CancelAgreementOnChain | bin/dipper-service/src/cancel_dispatch.rs:24-65 | Sends, reads back and reports exactly what those came to: failed without a 32-byte hash, on a failed send or if still live; unconfirmed on a failed read; ended by the indexer, or by this cancel. |
| CancelDispatch.Dispatcher.CancelIfLive | bin/dipper-service/src/cancel_dispatch.rs:404-424 | Takes the call from its read to where what it found leads; reports a failed read as such, and nothing live or an end only when the chain shows it. |
| CancelDispatch.Dispatcher.FinishMarkedCancel | bin/dipper-service/src/cancel_dispatch.rs:201-240 | Returns what the state machine does for what the cancel found. |
| CancelDispatch.Dispatcher.ConfirmCancelled | bin/dipper-service/src/cancel_dispatch.rs:242-284 | Confirms only with the row ended. |
| CancelDispatch.Dispatcher.ReopenIfLive | bin/dipper-service/src/cancel_dispatch.rs:319-367 | Reopens only after a read that showed the agreement live, or an unread chain and a rejected copy; leaves it only if a read showed nothing live or the row is no longer cancelled or rejected; of a true announcement it leaves a false one exactly when unread and the row was since cancelled and announced. |
| JobQueue.AlwaysOwned | dipper-pgmq/src/postgres.rs:99-208 | In every run a job is held by at most one guard, what is held is a committed queued row that its transaction alone sees running, no running row is ever committed, and a row is failed exactly when its attempts are used up. |
| JobQueue.NoJobIsLost | dipper-pgmq/src/job.rs:26-140 | Every pushed job is in the table, queued or failed for good, unless a guard that held it removed it since. |
| JobQueue.FailsOnTheLastAttempt | dipper-pgmq/src/postgres.rs:174-237 | A job's count is its counted failures, never above its maximum, and it is failed exactly when they reach it, however many deferrals and drops come between. |
| JobQueue.RetriesAsAsked | dipper-pgmq/src/queue.rs:150-160 | A job built with k retries fails for good on exactly its (k+1)-th counted failure, capped at the column's limit. |
| JobQueue.NoOvertaking | dipper-pgmq/src/postgres.rs:105-127 | While a job is ready and unlocked, a pop returns it or one of higher priority, or of its priority and created earlier, or then and with a lower id, whatever either went through. |
| JobQueue.LaterJobsWait | dipper-pgmq/src/postgres.rs:112-119 | A ready job is overtaken by a later push only if that has a higher priority. |
| JobQueue.DeferredIsReady | dipper-pgmq/src/postgres.rs:174-208 | A deferred job is ready from the time it was deferred to, and not before. |
| JobQueue.FailedIsReady | dipper-pgmq/src/postgres.rs:174-208 | A failed job is ready from its retry time on if and only if it has an attempt left; one without keeps its old time. |
| JobQueue.DroppedIsReady | dipper-pgmq/src/job.rs:26-35 | A job whose guard is dropped is as ready as it was. |
| JobQueue.PushedIsReady | dipper-pgmq/src/queue.rs:51-79 | A pushed job is ready from the time it is scheduled for, and not before. |
| JobQueue.UnfinishedListsHeld | dipper-pgmq/src/postgres.rs:136-149 | The unfinished jobs include every held one and leave out exactly those that failed for good. |
| JobQueue.PgQueue.Push | dipper-pgmq/src/queue.rs:51-79 | Makes a legal push step with the builder's attempts or the queue's. |
| JobQueue.PgQueue.Pop | dipper-pgmq/src/queue.rs:86-104 | Locks the ready job that precedes every other, running in its transaction and queued to everyone else, or none if none is ready. |
| JobQueue.PgQueue.Remove | dipper-pgmq/src/job.rs:77-86 | Makes the removal step, or the rollback when it fails. |
| JobQueue.PgQueue.MarkAsFailed | dipper-pgmq/src/job.rs:88-121 | Makes the counted-failure step, or the rollback when it fails. |
| JobQueue.PgQueue.Reschedule | dipper-pgmq/src/job.rs:123-139 | Makes the deferral step, or the rollback when it fails. |
| JobQueue.PgQueue.Requeue | dipper-pgmq/src/postgres.rs:177-208 | The shared update of a failed or deferred job, on the row as its transaction sees it. |
| JobQueue.PgQueue.DropGuard | dipper-pgmq/src/job.rs:26-35 | Frees the job and leaves its row alone. |
| AlertThrottle.NothingLost | bin/dipper-service/src/alerts.rs:211-260 | For any calls and any clock, alerts reported plus alerts still held back are the alerts received, event by event. |
| AlertThrottle.AWindowApart | bin/dipper-service/src/alerts.rs:191-230 | Any two messages for one event are at least a window apart. |
| AlertThrottle.PostsWhenItMay | bin/dipper-service/src/alerts.rs:211-243 | An alert is posted if and only if a window has passed since the last message for its event, and at once if there was none. |
| AlertThrottle.NoEmptyMessage | bin/dipper-service/src/alerts.rs:245-259 | Every message accounts for at least one alert. |
| AlertThrottle.FirstHoldBackIsDue | bin/dipper-service/src/alerts.rs:232-259 | Alerts held back for an event with no window are reported by the next check, unless the clock is younger than a window, and then by the first check a window on. |
| AlertThrottle.CheckReportsAll | bin/dipper-service/src/alerts.rs:232-259 | By a check a window after every earlier call, every alert received has been reported. |
| AlertThrottle.Throttle.Admit | bin/dipper-service/src/alerts.rs:211-230 | Posts or holds back as the window says, and returns how many were held back before. |
| AlertThrottle.Throttle.HoldBack | bin/dipper-service/src/alerts.rs:232-243 | Counts dropped alerts in, opening an already ended window if there is none. |
| AlertThrottle.Throttle.Due | bin/dipper-service/src/alerts.rs:245-259 | Lists exactly the overdue events, once each with its count, and starts their next windows. |
| Supervisor.EndsAsItShould | bin/dipper-service/src/supervisor.rs:58-167 | The drain returns Ok if and only if every task was collected, each cleanly and after shutdown was requested; otherwise the error keeps the earliest fatal one, and how many tasks were left. |
| Supervisor.FirstFatalIsFirst | bin/dipper-service/src/supervisor.rs:133-160 | The cause kept is that of the first fatal task collected, and there is none exactly when no task was fatal. |
| Supervisor.DrainIsBounded | bin/dipper-service/src/supervisor.rs:74-115 | From the pass that first sees shutdown requested, the drain takes no longer than the grace, however many tasks finish. |
| Supervisor.GraceIsGiven | bin/dipper-service/src/supervisor.rs:74-115 | A drain is given up only once the whole of the grace has passed. |
| Supervisor.GraceFromRequest | bin/dipper-service/src/supervisor.rs:74-160 | When shutdown is first requested during a wait, by someone else or by a task that exits, the grace counts from that moment, and shutdown stays requested. |
| Supervisor.OnlyTheFirstIsEarly | bin/dipper-service/src/supervisor.rs:133-160 | Of all tasks collected only the first can have exited before shutdown was requested. |
| Supervisor.DrainEnds | bin/dipper-service/src/supervisor.rs:65-167 | Every run of the drain has at most two passes more than there are tasks. |
| Supervisor.Supervise | bin/dipper-service/src/supervisor.rs:65-167 | The loop returns what the pass-by-pass model returns and leaves the shutdown flag as it does. |
| RequestTable.HoldsLastTargets | dipper-pgregistry/src/postgres.rs:338-437 | After any run of calls there is at most one open row per key, and the open rows are exactly each key's last non-zero target. |
| RequestTable.CanceledForGood | dipper-pgregistry/src/postgres.rs:402-415 | A canceled row is never opened or changed again. |
| RequestTable.NoOpExactly | dipper-pgregistry/src/postgres.rs:373-401 | A call leaves the table unchanged if and only if it returns a no-op or fails. |
| RequestTable.FailsExactly | dipper-pgregistry/src/postgres.rs:373-401 | A call fails if and only if it asks for fewer than no indexers, or would insert a row under an id already used. |
| RequestTable.ChangedIsStamped | dipper-pgregistry/src/postgres.rs:386-437 | A call changes no row but the one it names, and stamps that one. |
| RequestTable.Requests.SetIndexingTargetCandidates | dipper-pgregistry/src/postgres.rs:346-437 | Each branch's table and outcome, and that the table stays valid. |
| CancelChecks.SoundRun | dipper-pgregistry/src/postgres.rs:1047-1119 | In every run attempts stay in range, columns of cancelling stay at their defaults until a row is cancelled, and an attempt or an end seen leaves a check time. |
| CancelChecks.AbandonedIsKept | dipper-pgregistry/src/postgres.rs:1047-1073 | The abandoned flag is never cleared, and is set only by the run's one mark. |
| CancelSweep.ReachableIsSound | dipper-pgregistry/src/postgres.rs:1121-1216 | Every table built up from nothing meets what the starvation theorem starts from. |
| CancelSweep.HeadStart | dipper-pgregistry/src/postgres.rs:1163-1170 | In any answer an agreement accepted or past its offer deadline comes before one that is neither, unless that one was touched over an hour earlier, and then after it. |
| CancelSweep.OldestFirst | dipper-pgregistry/src/postgres.rs:1163-1172 | Of two on the same side of that, the one touched longer ago comes first, and of two touched together the one marked longer ago. |
| Reconciliation.OneByOnePointwise | dipper-pgregistry/src/postgres.rs:1257-1294 | While the index refuses none, reconciling items one by one moves each named row as that row alone would, and no other. |
| Registry.PgRegistry.RegisterNewIndexingAgreement | dipper-pgregistry/src/postgres.rs:567-616 | Adds a fresh row if and only if its request exists, the id is free and no agreement of the same indexer and deployment is created or accepted; otherwise changes nothing. |
| Registry.AcceptFitsExactly | dipper-pgregistry/src/postgres.rs:2834-2850 | Accepting a created or expired agreement passes the index if and only if it had not expired or no other agreement of its pair is active. |
| Registry.RefusedExactly | dipper-pgregistry/migrations/20260206100000_remove_accepted_rejected_statuses.sql:12-17 | The index refuses a write if and only if it accepts a created or expired agreement that could not be accepted beside the others. |
| Registry.PgRegistry.ApplyCancelTo | dipper-pgregistry/src/postgres.rs:2699-2707 | Ends one row as a cancel of its kind does, saying whether it did. |
| Registry.PgRegistry.WriteEnd | dipper-pgregistry/src/postgres.rs:1609-1620 | Plain tests for replacing or filling an end agree with the three-valued rule, NULLs included. |
| Registry.PgRegistry.MarkAsUnresponsive | dipper-pgregistry/src/postgres.rs:943-968 | Makes the step; fails if and only if there is no such row in `Created`. |
| Registry.PgRegistry.MarkAsExpired | dipper-pgregistry/src/postgres.rs:1884-1913 | Makes the step; fails if and only if there is no such row in `Created`. |
| Registry.PgRegistry.MarkAsRejected | dipper-pgregistry/src/postgres.rs:1915-1950 | Makes the step; fails if and only if there is no such row in `Created`. |
| Registry.PgRegistry.RecordAcceptedAudit | dipper-pgregistry/src/postgres.rs:1559-1590 | Fills the accept where it is missing and keeps what is there. |
| Dispatch.TruthfulRun | bin/dipper-service/src/cancel_dispatch.rs:201-240 | In every run of honest steps the row, every status it has had and so every caller's copy say accepted only of an accepted agreement, and a call that is confirming has one over on the chain. |
| CancelDispatch.Dispatcher.MarkCancelling | bin/dipper-service/src/cancel_dispatch.rs:145-163 | Takes the call past its mark if and only if the mark for its reason landed. |
| CancelDispatch.Dispatcher.MarkEnded | bin/dipper-service/src/cancel_dispatch.rs:165-183 | Writes the end its reason calls for; unless the write fails, the row is ended. |

## Left out

- The chain listener, cancel retry, worker handlers, liveness checker and reassignment are callers of the registry here, writing anything at any time; their own logic is not modelled.
- HTTP, gRPC, Kafka and RPC clients, the admin server, the command line and configuration: input and output over libraries.
- ABI encoding, agreement ids, signing, gas and fee arithmetic: foreign calls and short formulas.
- Columns no modelled rule reads: sync progress, rejection reasons, terms other than the deadline, and the accepted and expired event markers.
- The other read queries of the registry (counts, lookups by id, status lists), and the pending-cancellations, denylist and listener-state tables, which are plain inserts, updates, deletes and lookups.
- Concurrent first calls that set a target for the same key: the unique index fails one of them, so calls are serial in the model.
- Isolation beyond row locks, clock drift, log output, and the wake-up of the shutdown notification.
- The `clear` of the job queue, which deletes every row; its listener, a notification channel; and the number codes of priorities and statuses.
- Held-back counts of the throttle are unbounded in the model; the code's are 64-bit.
- The time the supervisor's own work takes: only its waits take time in the model.
