/** The registry as the rest of dipper calls it: each method is one transaction on the agreements
    table, updating it in place. The unique index fails a statement that would break it. */
module Registry {
  import opened Sql
  import opened Agreement
  import opened AgreementTable
  import opened EndAudit
  import opened Reconciliation

  datatype Result<T> = Ok(value: T) | NoRecordsUpdated | DbError

  // ----- One UPDATE over several rows -----

  /** The rows a guarded UPDATE moves, and the table once it has. */
  ghost function Moves(t: Table, ids: seq<Id>, allowedFrom: set<Status>): set<Id> {
    set id | id in ids && id in t && t[id].status in allowedFrom
  }

  function SetIn(t: Table, moved: set<Id>, to: Row -> Status, at: Time): Table {
    map id | id in t :: if id in moved then t[id].(status := to(t[id]), updatedAt := at) else t[id]
  }

  lemma CancelsFit(t: Table, moved: set<Id>, kind: CancelKind, at: Time)
    requires Indexed(t)
    ensures Indexed(CancelledIn(t, moved, kind, at))
  {}

  /** The index lets an agreement be accepted unless it had expired and its pair is taken. */
  lemma AcceptFitsExactly(t: Table, id: Id, at: Time)
    requires Indexed(t) && id in t && Acceptable(t[id].status)
    ensures Indexed(t[id := t[id].(status := AcceptedOnChain, updatedAt := at)])
            <==> !(t[id].status.Expired? && PairTaken(t, id))
  {
    var row := t[id].(status := AcceptedOnChain, updatedAt := at);
    if t[id].status.Expired? && PairTaken(t, id) {
      var j: Id :| SharesPair(t, id, j) && Active(t[j].status);
      var next := t[id := row];
      assert j in next && next[j] == t[j] && next[id] == row;
    } else {
      QuietChange(t, id, row);
    }
  }

  /** So the index refuses a write exactly when it accepts what cannot be accepted beside the rest. */
  lemma RefusedExactly(t: Table, id: Id, w: Write)
    requires Indexed(t) && id in t
    ensures Refused(t, id, w)
            <==> && ((w.Reconcile? && w.accept) || (w.ReconcileItem? && w.applyAccept))
                 && (t[id].status.Created? || t[id].status.Expired?)
                 && !Indexed(t[id := t[id].(status := AcceptedOnChain, updatedAt := 0)])
  {
    if Acceptable(t[id].status) { AcceptFitsExactly(t, id, 0); }
  }

  class PgRegistry {
    var rows: Table

    ghost predicate Valid()
      reads this
    {
      Indexed(rows)
    }

    constructor ()
      ensures Valid() && rows == map[]
    {
      rows := map[];
    }

    /** False when the INSERT fails: the request it refers to does not exist, the primary key is taken,
        or the pair has an active agreement. */
    method RegisterNewIndexingAgreement(id: Id, requestExists: bool, pair: Pair, deadline: int, now: Time)
      returns (inserted: bool)
      requires Valid()
      modifies this
      ensures Valid()
      ensures rows == if requestExists then TableStep(old(rows), Register(id, pair, deadline, now)) else old(rows)
      ensures inserted <==>
                && requestExists && id !in old(rows)
                && forall j :: j in old(rows) && old(rows)[j].pair == pair ==>
                     old(rows)[j].status != Created && old(rows)[j].status != AcceptedOnChain
      ensures inserted ==>
                && rows[id].status == Created && rows[id].pair == pair && rows[id].deadline == deadline
                && rows[id].updatedAt == now
    {
      var next := rows[id := Fresh(pair, deadline, now)];
      inserted := requestExists && id !in rows && Indexed(next);
      assert forall j :: j in rows && j != id ==> next[j] == rows[j];
      assert next[id] == Fresh(pair, deadline, now);
      if inserted {
        rows := next;
      }
    }

    // ----- Status writes -----

    /** `batch_set_status`: one UPDATE over the listed rows, returning those it moved. */
    method BatchSetStatus(ids: seq<Id>, to: Row -> Status, allowedFrom: set<Status>, now: Time)
      returns (r: Result<set<Id>>)
      requires Valid()
      modifies this
      ensures Valid()
      ensures
        var moved := Moves(old(rows), ids, allowedFrom);
        var next := SetIn(old(rows), moved, to, now);
        if Indexed(next) then r == Ok(moved) && rows == next else r == DbError && rows == old(rows)
    {
      var moved := set id | id in ids && id in rows && rows[id].status in allowedFrom;
      var next := SetIn(rows, moved, to, now);
      if ids == [] {
        assert moved == {} && next == rows;
        return Ok({});
      }
      if !Indexed(next) {
        return DbError;
      }
      rows := next;
      r := Ok(moved);
    }

    /** `update_status_from`: the same for one row; true if it moved. */
    method UpdateStatusFrom(id: Id, to: Row -> Status, allowedFrom: set<Status>, now: Time) returns (r: Result<bool>)
      requires Valid()
      modifies this
      ensures Valid()
      ensures
        if id in old(rows) && old(rows)[id].status in allowedFrom then
          var next := old(rows)[id := old(rows)[id].(status := to(old(rows)[id]), updatedAt := now)];
          if Indexed(next) then r == Ok(true) && rows == next else r == DbError && rows == old(rows)
        else
          r == Ok(false) && rows == old(rows)
    {
      ghost var t, moved := rows, Moves(rows, [id], allowedFrom);
      var updated := BatchSetStatus([id], to, allowedFrom, now);
      if id in t && t[id].status in allowedFrom {
        assert moved == {id};
        assert SetIn(t, moved, to, now) == t[id := t[id].(status := to(t[id]), updatedAt := now)];
      } else {
        assert moved == {};
        assert SetIn(t, moved, to, now) == t;
      }
      r := if updated.Ok? then Ok(id in updated.value) else DbError;
    }

    method SetStatusFrom(id: Id, to: Status, allowedFrom: set<Status>, now: Time) returns (r: Result<()>)
      requires Valid()
      modifies this
      ensures Valid()
      ensures
        if id in old(rows) && old(rows)[id].status in allowedFrom then
          var next := old(rows)[id := old(rows)[id].(status := to, updatedAt := now)];
          if Indexed(next) then r == Ok(()) && rows == next else r == DbError && rows == old(rows)
        else
          r == NoRecordsUpdated && rows == old(rows)
    {
      var moved := UpdateStatusFrom(id, _ => to, allowedFrom, now);
      r := if moved.DbError? then DbError else if moved.value then Ok(()) else NoRecordsUpdated;
    }

    method MarkAsUnresponsive(id: Id, now: Time) returns (r: Result<()>)
      requires Valid()
      modifies this
      ensures Valid()
      ensures rows == TableStep(old(rows), On(id, MarkUnresponsive, now))
      ensures r.Ok? <==> id in old(rows) && old(rows)[id].status == Created
      ensures r.Ok? ==> rows[id].status == Unresponsive && rows[id].updatedAt == now
    {
      OnKeepsIndex(rows, id, MarkUnresponsive, now);
      r := SetStatusFrom(id, Unresponsive, {Created}, now);
    }

    method MarkAsExpired(id: Id, now: Time) returns (r: Result<()>)
      requires Valid()
      modifies this
      ensures Valid()
      ensures rows == TableStep(old(rows), On(id, MarkExpired, now))
      ensures r.Ok? <==> id in old(rows) && old(rows)[id].status == Created
      ensures r.Ok? ==> rows[id].status == Expired && rows[id].updatedAt == now
    {
      OnKeepsIndex(rows, id, MarkExpired, now);
      r := SetStatusFrom(id, Expired, {Created}, now);
    }

    method MarkAsRejected(id: Id, now: Time) returns (r: Result<()>)
      requires Valid()
      modifies this
      ensures Valid()
      ensures rows == TableStep(old(rows), On(id, MarkRejected, now))
      ensures r.Ok? <==> id in old(rows) && old(rows)[id].status == Created
      ensures r.Ok? ==> rows[id].status == Rejected && rows[id].updatedAt == now
    {
      OnKeepsIndex(rows, id, MarkRejected, now);
      r := SetStatusFrom(id, Rejected, {Created}, now);
    }

    method MarkAsCanceledByRequester(id: Id, now: Time) returns (r: Result<()>)
      requires Valid()
      modifies this
      ensures Valid()
      ensures rows == TableStep(old(rows), On(id, MarkCanceledByRequester, now))
      ensures r.Ok? <==> id in old(rows) && old(rows)[id].status in {Created, AcceptedOnChain, Rejected, Cancelling}
      ensures r.Ok? ==> rows[id].status == CanceledByRequester && rows[id].updatedAt == now
    {
      OnKeepsIndex(rows, id, MarkCanceledByRequester, now);
      r := SetStatusFrom(id, CanceledByRequester, {Created, AcceptedOnChain, Rejected, Cancelling}, now);
    }

    method MarkAsAbandonedByIndexer(id: Id, now: Time) returns (r: Result<()>)
      requires Valid()
      modifies this
      ensures Valid()
      ensures rows == TableStep(old(rows), On(id, MarkAbandonedByIndexer, now))
      ensures r.Ok? <==> id in old(rows) && old(rows)[id].status == Cancelling
      ensures r.Ok? ==> rows[id].status == AbandonedByIndexer && rows[id].updatedAt == now
    {
      OnKeepsIndex(rows, id, MarkAbandonedByIndexer, now);
      r := SetStatusFrom(id, AbandonedByIndexer, {Cancelling}, now);
    }

    method MarkAsCancelling(id: Id, now: Time) returns (r: Result<()>)
      requires Valid()
      modifies this
      ensures Valid()
      ensures rows == TableStep(old(rows), On(id, MarkCancelling, now))
      ensures r.Ok? <==> id in old(rows) && old(rows)[id].status in {Created, AcceptedOnChain, Rejected, Expired}
      ensures r.Ok? ==> rows[id].status == Cancelling && rows[id].updatedAt == now
    {
      OnKeepsIndex(rows, id, MarkCancelling, now);
      r := SetStatusFrom(id, Cancelling, {Created, AcceptedOnChain, Rejected, Expired}, now);
    }

    method MarkAsAbandoning(id: Id, now: Time) returns (r: Result<()>)
      requires Valid()
      modifies this
      ensures Valid()
      ensures rows == TableStep(old(rows), On(id, MarkAbandoning, now))
      ensures r.Ok? <==> id in old(rows) && old(rows)[id].status == AcceptedOnChain
      ensures r.Ok? ==>
                && rows[id].status == Cancelling && rows[id].updatedAt == now
                && rows[id].abandoned && rows[id].replacementPending
    {
      OnKeepsIndex(rows, id, MarkAbandoning, now);
      if id !in rows || rows[id].status != AcceptedOnChain {
        return NoRecordsUpdated;
      }
      rows := rows[id := rows[id].(status := Cancelling, abandoned := true, replacementPending := true, updatedAt := now)];
      r := Ok(());
    }

    // ----- Cancelling -----

    method ReopenCancel(id: Id, seenLive: bool, now: Time) returns (r: Result<Option<EndCorrection>>)
      requires Valid()
      modifies this
      ensures Valid()
      ensures rows == TableStep(old(rows), On(id, Reopen(seenLive), now))
      ensures r.Ok? <==> id in old(rows) && old(rows)[id].status in {CanceledByRequester, Rejected}
      ensures r.Ok? ==> rows[id].status == Cancelling && rows[id].updatedAt == now
      ensures r.Ok? ==> r.value == Correction(old(rows)[id], Event(Reopen(seenLive), now))
      ensures r.Ok? && seenLive ==> EndOf(rows[id]) == RecordedEnd(None, None, None) && rows[id].terminatedAt.None?
      ensures r.Ok? && !seenLive ==>
                && EndKept(old(rows)[id], rows[id]) && EndKept(rows[id], old(rows)[id])
                && rows[id].terminatedAt == old(rows)[id].terminatedAt
    {
      OnKeepsIndex(rows, id, Reopen(seenLive), now);
      if id !in rows || rows[id].status !in {CanceledByRequester, Rejected} {
        return NoRecordsUpdated;
      }
      var before := rows[id];
      var row := before.(status := Cancelling, cancelAttempts := 0, cancelCheckedAt := Some(now), endedSeenAt := None,
                         updatedAt := now);
      if seenLive {
        row := row.(canceledAt := None, canceledBy := None, canceledTx := None, terminatedAt := None);
      }
      rows := rows[id := row];
      r := Ok(CorrectionOf(before, row));
    }

    method UpdateOfferTxHash(id: Id, hash: string, now: Time) returns (r: Result<()>)
      requires Valid()
      modifies this
      ensures Valid()
      ensures rows == TableStep(old(rows), On(id, UpdateOfferTx(hash), now))
      ensures r.Ok? <==> id in old(rows) && old(rows)[id].status in {Created, AcceptedOnChain, Cancelling}
      ensures r.Ok? ==>
                && rows[id].offerTx == Some(hash)
                && rows[id].updatedAt == if rows[id].status.Cancelling? then old(rows)[id].updatedAt else now
    {
      OnKeepsIndex(rows, id, UpdateOfferTx(hash), now);
      if id !in rows || rows[id].status !in {Created, AcceptedOnChain, Cancelling} {
        return NoRecordsUpdated;
      }
      var row := rows[id].(offerTx := Some(hash));
      if row.status != Cancelling {
        row := row.(updatedAt := now);
      }
      rows := rows[id := row];
      r := Ok(());
    }

    method RecordCancelCheck(id: Id, failedAttempts: u32, ended: Option<bool>, now: Time) returns (r: Result<int>)
      requires Valid()
      modifies this
      ensures Valid()
      ensures rows == TableStep(old(rows), On(id, RecordCheck(failedAttempts, ended), now))
      ensures r.Ok? <==> id in old(rows) && old(rows)[id].status == Cancelling
      ensures r.Ok? ==> r.value == rows[id].cancelAttempts && rows[id].cancelCheckedAt == Some(now)
    {
      OnKeepsIndex(rows, id, RecordCheck(failedAttempts, ended), now);
      if id !in rows || rows[id].status != Cancelling {
        return NoRecordsUpdated;
      }
      var row := rows[id];
      var attempts := row.cancelAttempts + failedAttempts;
      if attempts > I32_MAX {
        attempts := I32_MAX;
      }
      var seen := row.endedSeenAt;
      if ended == Some(false) {
        seen := None;
      } else if ended == Some(true) && seen.None? {
        seen := Some(now);
      }
      rows := rows[id := row.(cancelAttempts := attempts, cancelCheckedAt := Some(now), endedSeenAt := seen)];
      r := Ok(attempts);
    }

    method MarkReplacementAsQueued(id: Id, now: Time)
      requires Valid()
      modifies this
      ensures Valid()
      ensures rows == TableStep(old(rows), On(id, MarkReplacementQueued, now))
    {
      OnKeepsIndex(rows, id, MarkReplacementQueued, now);
      if id in rows {
        rows := rows[id := rows[id].(replacementPending := false)];
      }
    }

    // ----- Audits and announcements -----

    method MarkTerminatedEventEmitted(id: Id, now: Time)
      requires Valid()
      modifies this
      ensures Valid()
      ensures rows == TableStep(old(rows), On(id, MarkTerminatedEmitted, now))
      ensures id in rows ==> rows[id].terminatedAt == Some(now)
    {
      OnKeepsIndex(rows, id, MarkTerminatedEmitted, now);
      if id in rows {
        rows := rows[id := rows[id].(terminatedAt := Some(now))];
      }
    }

    method RecordAcceptedAudit(id: Id, acceptedAt: u64, acceptedTx: string, now: Time)
      requires Valid()
      modifies this
      ensures Valid()
      ensures rows == TableStep(old(rows), On(id, RecordAccepted(acceptedAt, acceptedTx), now))
    {
      OnKeepsIndex(rows, id, RecordAccepted(acceptedAt, acceptedTx), now);
      if id in rows {
        var row := rows[id];
        if row.acceptedAt.None? { row := row.(acceptedAt := Some(AsI64(acceptedAt))); }
        if row.acceptedTx.None? { row := row.(acceptedTx := Some(acceptedTx)); }
        rows := rows[id := row];
      }
    }

    method RecordCancelAudit(id: Id, canceledAt: u64, canceledBy: string, canceledTx: Option<string>, now: Time)
      returns (correction: Option<EndCorrection>)
      requires Valid()
      modifies this
      ensures Valid()
      ensures rows == TableStep(old(rows), On(id, RecordCancel(canceledAt, canceledBy, canceledTx), now))
      ensures correction == if id in old(rows)
                            then Correction(old(rows)[id], Event(RecordCancel(canceledAt, canceledBy, canceledTx), now))
                            else None
      ensures id in old(rows) && Corrects(old(rows)[id], RecordCancel(canceledAt, canceledBy, canceledTx)) ==>
                correction == Some(EndCorrection(EndOf(old(rows)[id]), RecordedEnd(Some(canceledAt), Some(canceledBy), canceledTx)))
    {
      OnKeepsIndex(rows, id, RecordCancel(canceledAt, canceledBy, canceledTx), now);
      if id !in rows {
        return None;
      }
      var before := rows[id];
      var row := WriteEnd(before, AsI64(canceledAt), canceledBy, canceledTx);
      CorrectionReportsTheNewEnd(before, Event(RecordCancel(canceledAt, canceledBy, canceledTx), now));
      rows := rows[id := row];
      correction := CorrectionOf(before, row);
    }

    method RecordAcceptAndCancelAudit(id: Id, acceptedAt: u64, acceptedTx: string, canceledAt: u64, canceledBy: string,
                                      canceledTx: Option<string>, now: Time)
      returns (correction: Option<EndCorrection>)
      requires Valid()
      modifies this
      ensures Valid()
      ensures
        var w := RecordAcceptAndCancel(acceptedAt, acceptedTx, canceledAt, canceledBy, canceledTx);
        && rows == TableStep(old(rows), On(id, w, now))
        && correction == if id in old(rows) then Correction(old(rows)[id], Event(w, now)) else None
    {
      OnKeepsIndex(rows, id, RecordAcceptAndCancel(acceptedAt, acceptedTx, canceledAt, canceledBy, canceledTx), now);
      if id !in rows {
        return None;
      }
      var before := rows[id];
      var row := before;
      if row.acceptedAt.None? { row := row.(acceptedAt := Some(AsI64(acceptedAt))); }
      if row.acceptedTx.None? { row := row.(acceptedTx := Some(acceptedTx)); }
      row := WriteEnd(row, AsI64(canceledAt), canceledBy, canceledTx);
      rows := rows[id := row];
      correction := CorrectionOf(before, row);
    }

    /** The shared `replace_end` rule: the end on record is replaced whole, or its gaps filled. */
    static method WriteEnd(row: Row, at: int, who: string, tx: Option<string>) returns (after: Row)
      ensures after == RecordEnd(row, row.acceptedAt, at, who, tx)
    {
      var reachesAccept := row.acceptedAt.Some? && at >= row.acceptedAt.value;
      var impossible := row.acceptedAt.Some? && row.canceledAt.Some? && row.canceledAt.value < row.acceptedAt.value;
      after := row;
      if reachesAccept && (impossible || (row.canceledTx.None? && tx.Some?)) {
        after := after.(canceledAt := Some(at), canceledBy := Some(who), canceledTx := tx, terminatedAt := None);
        return;
      }
      if after.canceledAt.None? { after := after.(canceledAt := Some(at)); }
      if after.canceledBy.None? { after := after.(canceledBy := Some(who)); }
      if after.canceledTx.None? { after := after.(canceledTx := tx); }
    }

    // ----- Reconciliation -----

    /** `batch_apply_cancel`: record a cancel seen on the chain in each row it ends. */
    method BatchApplyCancel(ids: seq<Id>, kind: CancelKind, now: Time) returns (moved: set<Id>)
      requires Valid()
      modifies this
      ensures Valid()
      ensures moved == CancelMoves(old(rows), (set id | id in ids), kind)
      ensures moved == set id | id in ids && id in old(rows) && old(rows)[id].status in
                         if kind.ByIndexer? then {AcceptedOnChain, Cancelling}
                         else {Created, AcceptedOnChain, Rejected, Cancelling}
      ensures rows == CancelledIn(old(rows), moved, kind, now)
    {
      ghost var all := CancelMoves(rows, (set id | id in ids), kind);
      CancelsFit(rows, all, kind, now);
      match kind
      case ByRequester =>
        var to := (row: Row) => if row.abandoned then AbandonedByIndexer else CanceledByRequester;
        assert all == Moves(rows, ids, {Created, AcceptedOnChain, Rejected, Cancelling});
        assert SetIn(rows, all, to, now) == CancelledIn(rows, all, kind, now);
        var updated := BatchSetStatus(ids, to, {Created, AcceptedOnChain, Rejected, Cancelling}, now);
        moved := updated.value;
      case ByIndexer =>
        assert all == Moves(rows, ids, {AcceptedOnChain, Cancelling});
        assert SetIn(rows, all, _ => CanceledByIndexer, now) == CancelledIn(rows, all, kind, now);
        var updated := BatchSetStatus(ids, _ => CanceledByIndexer, {AcceptedOnChain, Cancelling}, now);
        moved := updated.value;
    }

    /** `apply_cancel`; true if it ended the row. */
    method ApplyCancelTo(id: Id, kind: CancelKind, now: Time) returns (moved: bool)
      requires Valid()
      modifies this
      ensures Valid()
      ensures moved <==> id in old(rows) && Cancels(kind, old(rows)[id].status)
      ensures rows == if id in old(rows) then old(rows)[id := ApplyCancel(old(rows)[id], kind, now)] else old(rows)
    {
      var ids := BatchApplyCancel([id], kind, now);
      moved := id in ids;
      assert ids == if moved then {id} else {};
    }

    /** The accept half of a reconciliation; true if it moved the row. */
    method AcceptOne(id: Id, now: Time) returns (r: Result<bool>)
      requires Valid()
      modifies this
      ensures Valid()
      ensures r == if Refused(old(rows), id, Reconcile(true, None)) then DbError
                   else Ok(id in old(rows) && Acceptable(old(rows)[id].status))
      ensures rows == TableStep(old(rows), On(id, Reconcile(true, None), now))
    {
      if id in rows && Acceptable(rows[id].status) {
        AcceptFitsExactly(rows, id, now);
      }
      r := UpdateStatusFrom(id, _ => AcceptedOnChain, {Created, Expired}, now);
    }

    /** Fails only when the index refuses its accept: the rollback it guards against cannot happen. */
    method ApplyReconciliation(id: Id, accept: bool, cancel: Option<CancelKind>, now: Time)
      returns (r: Result<ReconciliationOutcome>)
      requires Valid()
      modifies this
      ensures Valid()
      ensures rows == TableStep(old(rows), On(id, Reconcile(accept, cancel), now))
      ensures r == if Refused(old(rows), id, Reconcile(accept, cancel)) then DbError
                   else Ok(OutcomeIn(old(rows), id, accept, cancel))
    {
      var didAccept, didCancel := false, false;
      if accept {
        var accepted := AcceptOne(id, now);
        if accepted.DbError? {
          return DbError;
        }
        didAccept := accepted.value;
      }
      if cancel.Some? {
        didCancel := ApplyCancelTo(id, cancel.value, now);
        if didAccept && !didCancel {
          // The transaction would roll back here.
          assert false;
        }
      }
      r := Ok(ReconciliationOutcome(didAccept, didCancel));
    }

    /** `apply_reconciliation_batch`. Ids must be unique, as the code asserts. When the index refuses a
        statement the transaction is rolled back, whatever it had done by then. */
    method ApplyReconciliationBatch(items: seq<Item>, now: Time) returns (r: Result<map<Id, ReconciliationOutcome>>)
      requires Valid() && UniqueIds(items)
      modifies this
      ensures Valid()
      ensures rows == TableStep(old(rows), Batch(items, now))
      ensures r == if BatchRefused(old(rows), items) then DbError else Ok(PartOutcomes(old(rows), items, Ids(items)))
      ensures r.Ok? ==> forall k :: 0 <= k < |items| ==>
                items[k].id in r.value
                && r.value[items[k].id] == OutcomeIn(old(rows), items[k].id, items[k].accept, items[k].cancel)
    {
      var snapshot := rows;
      var outcomes := NoOutcomes(snapshot, items);
      assert rows == Part(snapshot, items, {}, now);
      if items == [] {
        assert rows == TableStep(snapshot, Batch(items, now));
        return Ok(outcomes);
      }
      r := ReconcileShapes(snapshot, items, outcomes, now);
      if r.Ok? {
        PersistAudits(snapshot, items, r.value, now);
        AuditedAll(snapshot, items, now);
        BatchKeepsIndex(snapshot, items, now);
        forall k | 0 <= k < |items|
          ensures r.value[items[k].id] == OutcomeIn(snapshot, items[k].id, items[k].accept, items[k].cancel)
        {
          ItemForUnique(items, k);
        }
      } else {
        rows := snapshot;
      }
    }

    static method NoOutcomes(ghost t: Table, items: seq<Item>) returns (outcomes: map<Id, ReconciliationOutcome>)
      ensures outcomes == PartOutcomes(t, items, {})
    {
      outcomes := map[];
      for k := 0 to |items|
        invariant outcomes == map id | id in Ids(items[..k]) :: NOTHING
      {
        assert items[..k + 1] == items[..k] + [items[k]];
        assert Ids(items[..k + 1]) == Ids(items[..k]) + {items[k].id};
        outcomes := outcomes[items[k].id := NOTHING];
      }
      assert items[..|items|] == items;
    }

    method ReconcileShapes(ghost t: Table, items: seq<Item>, before: map<Id, ReconciliationOutcome>, now: Time)
      returns (r: Result<map<Id, ReconciliationOutcome>>)
      requires UniqueIds(items) && Indexed(t)
      requires rows == t == Part(t, items, {}, now) && before == PartOutcomes(t, items, {})
      modifies this
      ensures r == if BatchRefused(t, items) then DbError else Ok(PartOutcomes(t, items, Ids(items)))
      ensures r.Ok? ==> rows == Part(t, items, Ids(items), now)
    {
      var paired, acceptOnly, byRequester, byIndexer := Partition(items);
      r := ReconcilePaired(t, items, paired, before, now);
      if r.DbError? {
        return;
      }
      ShapedIdsAre(items, AcceptOnly);
      r := ReconcileAcceptOnly(t, items, acceptOnly, r.value, now);
      if r.DbError? {
        return;
      }
      ghost var req, ind := CancelOnly(ByRequester), CancelOnly(ByIndexer);
      ghost var done := Shaped(items, Paired) + Shaped(items, AcceptOnly);
      ShapesDisjoint(items, Paired, req);
      ShapesDisjoint(items, AcceptOnly, req);
      ShapedIdsAre(items, req);
      var outcomes := ReconcileCancelOnly(t, items, done, ByRequester, byRequester, r.value, now);
      done := done + Shaped(items, req);
      ShapesDisjoint(items, Paired, ind);
      ShapesDisjoint(items, AcceptOnly, ind);
      ShapesDisjoint(items, req, ind);
      ShapedIdsAre(items, ind);
      outcomes := ReconcileCancelOnly(t, items, done, ByIndexer, byIndexer, outcomes, now);
      done := done + Shaped(items, ind);
      NeitherIsDone(t, items, done, now);
      ShapesCover(items);
      r := Ok(outcomes);
    }

    /** The single pass that sorts the items into the four shapes that do something. */
    static method Partition(items: seq<Item>)
      returns (paired: seq<Item>, acceptOnly: seq<Id>, byRequester: seq<Id>, byIndexer: seq<Id>)
      ensures paired == Paireds(items)
      ensures acceptOnly == ShapedIds(items, AcceptOnly)
      ensures byRequester == ShapedIds(items, CancelOnly(ByRequester))
      ensures byIndexer == ShapedIds(items, CancelOnly(ByIndexer))
    {
      paired, acceptOnly, byRequester, byIndexer := [], [], [], [];
      for k := 0 to |items|
        invariant paired == Paireds(items[..k])
        invariant acceptOnly == ShapedIds(items[..k], AcceptOnly)
        invariant byRequester == ShapedIds(items[..k], CancelOnly(ByRequester))
        invariant byIndexer == ShapedIds(items[..k], CancelOnly(ByIndexer))
      {
        var item := items[k];
        assert items[..k + 1][..k] == items[..k];
        if item.accept && item.cancel.Some? {
          paired := paired + [item];
        } else if item.accept {
          acceptOnly := acceptOnly + [item.id];
        } else if item.cancel == Some(ByRequester) {
          byRequester := byRequester + [item.id];
        } else if item.cancel == Some(ByIndexer) {
          byIndexer := byIndexer + [item.id];
        }
      }
      assert items[..|items|] == items;
    }

    /** Items that combine an accept and a cancel run row by row. */
    method ReconcilePaired(ghost t: Table, ghost items: seq<Item>, paired: seq<Item>,
                           before: map<Id, ReconciliationOutcome>, now: Time)
      returns (r: Result<map<Id, ReconciliationOutcome>>)
      requires UniqueIds(items) && paired == Paireds(items) && Valid()
      requires rows == Part(t, items, {}, now) && before == PartOutcomes(t, items, {})
      modifies this
      ensures Valid()
      ensures r == if exists k :: 0 <= k < |paired| && RefusesPaired(t, paired, k) then DbError
                   else Ok(PartOutcomes(t, items, Shaped(items, Paired)))
      ensures r.Ok? ==> rows == Part(t, items, Shaped(items, Paired), now)
    {
      var outcomes := before;
      PairedIds(items);
      for k := 0 to |paired|
        invariant Valid()
        invariant rows == Part(t, items, Ids(paired[..k]), now)
        invariant outcomes == PartOutcomes(t, items, Ids(paired[..k]))
        invariant forall i :: 0 <= i < k ==> !RefusesPaired(t, paired, i)
      {
        var next := ReconcileNext(t, items, paired, k, outcomes, now);
        if next.DbError? {
          return DbError;
        }
        outcomes := next.value;
      }
      r := Ok(outcomes);
    }

    method ReconcileNext(ghost t: Table, ghost items: seq<Item>, paired: seq<Item>, k: nat,
                         before: map<Id, ReconciliationOutcome>, now: Time)
      returns (r: Result<map<Id, ReconciliationOutcome>>)
      requires UniqueIds(items) && paired == Paireds(items) && k < |paired| && Valid()
      requires rows == Part(t, items, Ids(paired[..k]), now) && before == PartOutcomes(t, items, Ids(paired[..k]))
      modifies this
      ensures Valid()
      ensures r == if RefusesPaired(t, paired, k) then DbError else Ok(PartOutcomes(t, items, Ids(paired[..k + 1])))
      ensures r.Ok? ==> rows == Part(t, items, Ids(paired[..k + 1]), now)
    {
      var item := paired[k];
      PairedRefused(t, items, k, now);
      PairedStep(t, items, k, now);
      PairedNote(t, items, k, now);
      var outcome := ApplyReconciliation(item.id, item.accept, item.cancel, now);
      r := if outcome.Ok? then Ok(before[item.id := outcome.value]) else DbError;
    }

    method ReconcileAcceptOnly(ghost t: Table, ghost items: seq<Item>, ids: seq<Id>,
                               before: map<Id, ReconciliationOutcome>, now: Time)
      returns (r: Result<map<Id, ReconciliationOutcome>>)
      requires UniqueIds(items) && Indexed(t) && Valid()
      requires (set id | id in ids) == Shaped(items, AcceptOnly)
      requires rows == Part(t, items, Shaped(items, Paired), now) && before == PartOutcomes(t, items, Shaped(items, Paired))
      modifies this
      ensures Valid()
      ensures r == if exists id :: RefusesAcceptOnly(t, items, id) then DbError
                   else Ok(PartOutcomes(t, items, Shaped(items, Paired) + Shaped(items, AcceptOnly)))
      ensures r.Ok? ==> rows == Part(t, items, Shaped(items, Paired) + Shaped(items, AcceptOnly), now)
    {
      AcceptOnlyTurn(t, items, now);
      var moved := BatchAccept(ids, Shaped(items, AcceptOnly), now);
      r := if moved.Ok? then Ok(NoteAccepted(before, moved.value)) else DbError;
    }

    method BatchAccept(ids: seq<Id>, ghost shaped: set<Id>, now: Time) returns (r: Result<set<Id>>)
      requires Valid() && shaped == set id | id in ids
      modifies this
      ensures Valid()
      ensures
        var moved := AcceptMoves(old(rows), shaped);
        var next := AcceptedIn(old(rows), moved, now);
        if Indexed(next) then r == Ok(moved) && rows == next else r == DbError && rows == old(rows)
    {
      ghost var moved := AcceptMoves(rows, shaped);
      assert moved == Moves(rows, ids, {Created, Expired});
      assert SetIn(rows, moved, _ => AcceptedOnChain, now) == AcceptedIn(rows, moved, now);
      r := BatchSetStatus(ids, _ => AcceptedOnChain, {Created, Expired}, now);
    }

    method ReconcileCancelOnly(ghost t: Table, ghost items: seq<Item>, ghost done: set<Id>, kind: CancelKind,
                               ids: seq<Id>, before: map<Id, ReconciliationOutcome>, now: Time)
      returns (outcomes: map<Id, ReconciliationOutcome>)
      requires UniqueIds(items) && done !! Shaped(items, CancelOnly(kind)) && Valid()
      requires (set id | id in ids) == Shaped(items, CancelOnly(kind))
      requires rows == Part(t, items, done, now) && before == PartOutcomes(t, items, done)
      modifies this
      ensures Valid()
      ensures rows == Part(t, items, done + Shaped(items, CancelOnly(kind)), now)
      ensures outcomes == PartOutcomes(t, items, done + Shaped(items, CancelOnly(kind)))
    {
      CancelOnlyStage(t, items, done, kind, now);
      CancelOnlyOutcome(t, items, done, kind, now);
      var moved := BatchApplyCancel(ids, kind, now);
      outcomes := NoteCancelled(before, moved);
    }

    /** The observed payload of every row that moved, in the same transaction. */
    method PersistAudits(ghost t: Table, items: seq<Item>, outcomes: map<Id, ReconciliationOutcome>, now: Time)
      requires UniqueIds(items)
      requires rows == Part(t, items, Ids(items), now) && outcomes == PartOutcomes(t, items, Ids(items))
      modifies this
      ensures rows == Audited(t, items, |items|, now)
    {
      assert rows == Audited(t, items, 0, now);
      for k := 0 to |items|
        invariant rows == Audited(t, items, k, now)
      {
        AuditedNext(t, items, k, now);
        var item := items[k];
        var outcome := outcomes[item.id];
        if item.id in rows {
          var row := rows[item.id];
          if outcome.didAccept {
            row := PersistAccept(row, item.audit);
          }
          if outcome.didCancel {
            row := PersistCancel(row, item.audit);
          }
          rows := rows[item.id := row];
        }
      }
    }
  }
}
