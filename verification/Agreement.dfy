/** One row of `dipper_reg_indexing_agreements` and every write the registry makes to it. Each
    write is one guarded `UPDATE` (or one transaction), so it is a function from the row it finds
    to the row it leaves. */
module Agreement {
  import opened Sql

  datatype Status =
    | Created
    | Unresponsive
    | CanceledByRequester
    | CanceledByIndexer
    | Expired
    | AcceptedOnChain
    | Rejected
    | AbandonedByIndexer
    | Cancelling
    | Unknown

  /** Database time, in microseconds. Chain times (`acceptedAt`, `canceledAt`, `deadline`) are in
      seconds, as the chain gives them. */
  type Time = int

  /** The indexer and the deployment an agreement is for. */
  datatype Pair = Pair(indexer: nat, deployment: nat)

  datatype Row = Row(
    pair: Pair,
    status: Status,
    acceptedAt: Option<int>,
    acceptedTx: Option<string>,
    canceledAt: Option<int>,
    canceledBy: Option<string>,
    canceledTx: Option<string>,
    terminatedAt: Option<Time>,
    abandoned: bool,
    replacementPending: bool,
    cancelAttempts: int,
    cancelCheckedAt: Option<Time>,
    endedSeenAt: Option<Time>,
    updatedAt: Time,
    offerTx: Option<string>,
    deadline: int)

  /** The row an INSERT leaves: `Created`, with every other column at its default. */
  function Fresh(pair: Pair, deadline: int, at: Time): Row {
    Row(pair, Created, None, None, None, None, None, None, false, false, 0, None, None, at, None, deadline)
  }

  datatype CancelKind = ByRequester | ByIndexer

  datatype Audit = Audit(
    acceptedAt: Option<u64>,
    acceptedTx: Option<string>,
    canceledAt: Option<u64>,
    canceledBy: Option<string>,
    canceledTx: Option<string>)

  /** The writes, each named after the registry method that makes it. */
  datatype Write =
    | MarkUnresponsive
    | MarkExpired
    | MarkRejected
    | MarkCanceledByRequester
    | MarkAbandonedByIndexer
    | MarkCancelling
    | MarkAbandoning
    | Reopen(seenLive: bool)
    | UpdateOfferTx(hash: string)
    | RecordCheck(failedAttempts: u32, ended: Option<bool>)
    | Reconcile(accept: bool, cancel: Option<CancelKind>)
    | ReconcileItem(applyAccept: bool, kind: Option<CancelKind>, audit: Audit)
    | MarkTerminatedEmitted
    | RecordAccepted(accAt: u64, accTx: string)
    | RecordCancel(endAt: u64, who: string, endTx: Option<string>)
    | RecordAcceptAndCancel(bothAccAt: u64, bothAccTx: string, bothEndAt: u64, bothWho: string, bothEndTx: Option<string>)
    | MarkReplacementQueued

  /** The statuses that say an agreement is over because it was cancelled. */
  predicate Ended(s: Status) {
    s.CanceledByRequester? || s.CanceledByIndexer? || s.AbandonedByIndexer?
  }

  /** The statuses in which an indexer may have one agreement per deployment. */
  predicate Active(s: Status) {
    s.Created? || s.AcceptedOnChain?
  }

  predicate Closing(s: Status) {
    s.Cancelling? || Ended(s)
  }

  /** `CANCEL_BY_REQUESTER_FROM`: the statuses an on-chain cancel by dipper ends. */
  predicate RequesterCancels(s: Status) {
    s.Created? || s.AcceptedOnChain? || s.Rejected? || s.Cancelling?
  }

  /** `CANCEL_BY_INDEXER_FROM`: the statuses an on-chain cancel by the indexer ends. */
  predicate IndexerCancels(s: Status) {
    s.AcceptedOnChain? || s.Cancelling?
  }

  predicate Acceptable(s: Status) {
    s.Created? || s.Expired?
  }

  predicate Markable(s: Status) {
    s.Created? || s.AcceptedOnChain? || s.Rejected? || s.Expired?
  }

  predicate Reopenable(s: Status) {
    s.CanceledByRequester? || s.Rejected?
  }

  predicate TakesOffer(s: Status) {
    s.Created? || s.AcceptedOnChain? || s.Cancelling?
  }

  /** The guarded status write: it moves the row only if its status was among those allowed. */
  function SetStatus(row: Row, to: Status, allowed: bool, at: Time): Row {
    if allowed then row.(status := to, updatedAt := at) else row
  }

  // ----- Reconciliation with the chain -----

  datatype ReconciliationOutcome = ReconciliationOutcome(didAccept: bool, didCancel: bool)

  predicate Cancels(kind: CancelKind, s: Status) {
    match kind
    case ByRequester => RequesterCancels(s)
    case ByIndexer => IndexerCancels(s)
  }

  /** Dipper's own cancel ends a row noted abandoned `AbandonedByIndexer`. */
  function CancelTo(row: Row, kind: CancelKind): Status {
    match kind
    case ByRequester => if row.abandoned then AbandonedByIndexer else CanceledByRequester
    case ByIndexer => CanceledByIndexer
  }

  function ApplyCancel(row: Row, kind: CancelKind, at: Time): Row {
    SetStatus(row, CancelTo(row, kind), Cancels(kind, row.status), at)
  }

  function ApplyAccept(row: Row, accept: bool, at: Time): Row {
    if accept then SetStatus(row, AcceptedOnChain, Acceptable(row.status), at) else row
  }

  predicate DidAccept(row: Row, accept: bool) {
    accept && Acceptable(row.status)
  }

  predicate DidCancel(row: Row, accept: bool, cancel: Option<CancelKind>) {
    cancel.Some? && Cancels(cancel.value, if DidAccept(row, accept) then AcceptedOnChain else row.status)
  }

  function OutcomeOf(row: Row, accept: bool, cancel: Option<CancelKind>): ReconciliationOutcome {
    ReconciliationOutcome(DidAccept(row, accept), DidCancel(row, accept, cancel))
  }

  /** The transaction is undone when its accept landed but the cancel paired with it did not. */
  predicate RollsBack(row: Row, accept: bool, cancel: Option<CancelKind>) {
    DidAccept(row, accept) && cancel.Some? && !DidCancel(row, accept, cancel)
  }

  function Reconciled(row: Row, accept: bool, cancel: Option<CancelKind>, at: Time): Row {
    var accepted := ApplyAccept(row, accept, at);
    if RollsBack(row, accept, cancel) then row
    else if cancel.Some? then ApplyCancel(accepted, cancel.value, at)
    else accepted
  }

  function BindI64(v: Option<u64>): Option<int> {
    if v.Some? then Some(AsI64(v.value)) else None
  }

  function PersistAccept(row: Row, audit: Audit): Row {
    row.(acceptedAt := Coalesce(BindI64(audit.acceptedAt), row.acceptedAt),
         acceptedTx := Coalesce(audit.acceptedTx, row.acceptedTx))
  }

  function PersistCancel(row: Row, audit: Audit): Row {
    row.(canceledAt := Coalesce(BindI64(audit.canceledAt), row.canceledAt),
         canceledBy := Coalesce(audit.canceledBy, row.canceledBy),
         canceledTx := Coalesce(audit.canceledTx, row.canceledTx))
  }

  function PersistAudit(row: Row, outcome: ReconciliationOutcome, audit: Audit): Row {
    var accepted := if outcome.didAccept then PersistAccept(row, audit) else row;
    if outcome.didCancel then PersistCancel(accepted, audit) else accepted
  }

  // ----- Recording an end out of band -----

  /** Whether a new end replaces the one on record, judged against `accepted`. */
  function ReplaceEnd(row: Row, accepted: Option<int>, at: int, tx: Option<string>): Truth {
    And(AtLeast(Some(at), accepted),
        Or(Less(row.canceledAt, accepted), Some(row.canceledTx.None? && tx.Some?)))
  }

  function RecordEnd(row: Row, accepted: Option<int>, at: int, who: string, tx: Option<string>): Row {
    if Holds(ReplaceEnd(row, accepted, at, tx)) then
      row.(canceledAt := Some(at), canceledBy := Some(who), canceledTx := tx, terminatedAt := None)
    else
      row.(canceledAt := Coalesce(row.canceledAt, Some(at)),
           canceledBy := Coalesce(row.canceledBy, Some(who)),
           canceledTx := Coalesce(row.canceledTx, tx))
  }

  function NoteAccept(row: Row, at: int, tx: string): Row {
    row.(acceptedAt := Coalesce(row.acceptedAt, Some(at)),
         acceptedTx := Coalesce(row.acceptedTx, Some(tx)))
  }

  // ----- Checks of a cancelling agreement -----

  function AddAttempts(attempts: int, failed: u32): int {
    if attempts + failed <= I32_MAX then attempts + failed else I32_MAX
  }

  function NoteEnded(seen: Option<Time>, ended: Option<bool>, at: Time): Option<Time> {
    match ended
    case None => seen
    case Some(true) => Coalesce(seen, Some(at))
    case Some(false) => None
  }

  function Checked(row: Row, failed: u32, ended: Option<bool>, at: Time): Row {
    row.(cancelAttempts := AddAttempts(row.cancelAttempts, failed),
         cancelCheckedAt := Some(at),
         endedSeenAt := NoteEnded(row.endedSeenAt, ended, at))
  }

  function Reopened(row: Row, seenLive: bool, at: Time): Row {
    row.(status := Cancelling,
         cancelAttempts := 0,
         cancelCheckedAt := Some(at),
         endedSeenAt := None,
         canceledAt := if seenLive then None else row.canceledAt,
         canceledBy := if seenLive then None else row.canceledBy,
         canceledTx := if seenLive then None else row.canceledTx,
         terminatedAt := if seenLive then None else row.terminatedAt,
         updatedAt := at)
  }

  // ----- Every write -----

  /** Whether a write's guard matches a row in this state, so it affects the row. */
  predicate Matches(row: Row, w: Write) {
    match w
    case MarkUnresponsive => row.status.Created?
    case MarkExpired => row.status.Created?
    case MarkRejected => row.status.Created?
    case MarkCanceledByRequester => RequesterCancels(row.status)
    case MarkAbandonedByIndexer => row.status.Cancelling?
    case MarkCancelling => Markable(row.status)
    case MarkAbandoning => row.status.AcceptedOnChain?
    case Reopen(_) => Reopenable(row.status)
    case UpdateOfferTx(_) => TakesOffer(row.status)
    case RecordCheck(_, _) => row.status.Cancelling?
    case Reconcile(accept, cancel) => DidAccept(row, accept) || DidCancel(row, accept, cancel)
    case ReconcileItem(accept, cancel, _) => DidAccept(row, accept) || DidCancel(row, accept, cancel)
    case _ => true
  }

  /** The row a write leaves when it commits at `at`. */
  function Apply(row: Row, w: Write, at: Time): Row {
    match w
    case MarkUnresponsive => SetStatus(row, Unresponsive, row.status.Created?, at)
    case MarkExpired => SetStatus(row, Expired, row.status.Created?, at)
    case MarkRejected => SetStatus(row, Rejected, row.status.Created?, at)
    case MarkCanceledByRequester =>
      SetStatus(row, CanceledByRequester, RequesterCancels(row.status), at)
    case MarkAbandonedByIndexer => SetStatus(row, AbandonedByIndexer, row.status.Cancelling?, at)
    case MarkCancelling => SetStatus(row, Cancelling, Markable(row.status), at)
    case MarkAbandoning =>
      if row.status.AcceptedOnChain? then
        row.(status := Cancelling, abandoned := true, replacementPending := true, updatedAt := at)
      else row
    case Reopen(seenLive) =>
      if Reopenable(row.status) then Reopened(row, seenLive, at) else row
    case UpdateOfferTx(hash) =>
      if TakesOffer(row.status) then
        row.(offerTx := Some(hash), updatedAt := if row.status.Cancelling? then row.updatedAt else at)
      else row
    case RecordCheck(failed, ended) =>
      if row.status.Cancelling? then Checked(row, failed, ended, at) else row
    case Reconcile(accept, cancel) => Reconciled(row, accept, cancel, at)
    case ReconcileItem(accept, cancel, audit) =>
      if RollsBack(row, accept, cancel) then row
      else PersistAudit(Reconciled(row, accept, cancel, at), OutcomeOf(row, accept, cancel), audit)
    case MarkTerminatedEmitted => row.(terminatedAt := Some(at))
    case RecordAccepted(accAt, tx) => NoteAccept(row, AsI64(accAt), tx)
    case RecordCancel(endAt, who, tx) => RecordEnd(row, row.acceptedAt, AsI64(endAt), who, tx)
    case RecordAcceptAndCancel(accAt, accTx, endAt, who, tx) =>
      var noted := NoteAccept(row, AsI64(accAt), accTx);
      RecordEnd(noted, noted.acceptedAt, AsI64(endAt), who, tx)
    case MarkReplacementQueued => row.(replacementPending := false)
  }

  // ----- Runs -----

  /** A write and the time it committed at. */
  datatype Event = Event(write: Write, at: Time)

  function Step(row: Row, e: Event): Row {
    Apply(row, e.write, e.at)
  }

  /** The row after a run of writes by any callers, in commit order. */
  function After(row: Row, run: seq<Event>): Row {
    if run == [] then row else Step(After(row, run[..|run| - 1]), run[|run| - 1])
  }

  lemma {:induction false} AfterConcat(row: Row, first: seq<Event>, rest: seq<Event>)
    ensures After(row, first + rest) == After(After(row, first), rest)
    decreases |rest|
  {
    if rest == [] {
      assert first + rest == first;
    } else {
      var n := |rest| - 1;
      assert (first + rest)[..|first + rest| - 1] == first + rest[..n];
      AfterConcat(row, first, rest[..n]);
    }
  }
}
