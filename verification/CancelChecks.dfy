/** What the check columns of a cancelling agreement mean, and where one abandoned by its indexer
    is while it waits to be replaced. */
module CancelChecks {
  import opened Sql
  import opened Agreement
  import opened Lifecycle

  /** What every row registered fresh keeps: the columns that belong to cancelling stay at their
      defaults until it is cancelled, and an attempt or an end seen leaves the time of a check. */
  predicate Sound(row: Row) {
    && 0 <= row.cancelAttempts <= I32_MAX
    && (!Closing(row.status) ==> row.cancelCheckedAt.None? && !row.abandoned && !row.replacementPending)
    && (row.cancelCheckedAt.None? ==> row.cancelAttempts == 0 && row.endedSeenAt.None?)
  }

  lemma ReconcileKeepsSound(row: Row, e: Event)
    requires Sound(row) && (e.write.Reconcile? || e.write.ReconcileItem?)
    ensures Sound(Step(row, e))
  {
    match e.write
    case Reconcile(accept, cancel) => ReconcileOnlyMoves(row, accept, cancel, e.at);
    case ReconcileItem(accept, cancel, _) => ReconcileOnlyMoves(row, accept, cancel, e.at);
  }

  lemma RecordKeepsSound(row: Row, e: Event)
    requires Sound(row) && (e.write.RecordAccepted? || e.write.RecordCancel? || e.write.RecordAcceptAndCancel?)
    ensures Sound(Step(row, e))
  {}

  lemma SoundStep(row: Row, e: Event)
    requires Sound(row)
    ensures Sound(Step(row, e))
  {
    if e.write.Reconcile? || e.write.ReconcileItem? {
      ReconcileKeepsSound(row, e);
    } else if e.write.RecordAccepted? || e.write.RecordCancel? || e.write.RecordAcceptAndCancel? {
      RecordKeepsSound(row, e);
    }
  }

  lemma {:induction false} SoundRun(row: Row, run: seq<Event>)
    requires Sound(row)
    ensures Sound(After(row, run))
  {
    if run != [] {
      SoundRun(row, run[..|run| - 1]);
      SoundStep(After(row, run[..|run| - 1]), run[|run| - 1]);
    }
  }

  // ----- The check columns refine the history of checks -----

  datatype Check = Check(at: Time, failed: u32, ended: Option<bool>)

  predicate Enters(row: Row, e: Event) {
    !row.status.Cancelling? && Step(row, e).status.Cancelling?
  }

  predicate Checks(row: Row, e: Event) {
    e.write.RecordCheck? && row.status.Cancelling?
  }

  /** The checks recorded since the row last became `Cancelling`. */
  function History(row: Row, run: seq<Event>): seq<Check> {
    if run == [] then []
    else
      var before, e := run[..|run| - 1], run[|run| - 1];
      if Enters(After(row, before), e) then []
      else if Checks(After(row, before), e) then
        History(row, before) + [Check(e.at, e.write.failedAttempts, e.write.ended)]
      else History(row, before)
  }

  /** When the row last became `Cancelling` or was checked. */
  function Touched(row: Row, run: seq<Event>): Option<Time> {
    if run == [] then None
    else
      var before, e := run[..|run| - 1], run[|run| - 1];
      if Enters(After(row, before), e) || Checks(After(row, before), e) then Some(e.at)
      else Touched(row, before)
  }

  function TotalFailed(h: seq<Check>): nat {
    if h == [] then 0 else TotalFailed(h[..|h| - 1]) + h[|h| - 1].failed
  }

  /** Check `i` found the agreement ended and none since found it live. */
  ghost predicate EndedSince(h: seq<Check>, i: nat)
    requires i < |h|
  {
    h[i].ended == Some(true) && forall j :: i < j < |h| ==> h[j].ended != Some(false)
  }

  /** `seen` is the time of the first ended check after the last live one, unknown ones ignored. */
  ghost predicate SeenEndedBy(h: seq<Check>, seen: Option<Time>) {
    match seen
    case None => forall i :: 0 <= i < |h| ==> !EndedSince(h, i)
    case Some(t) =>
      exists i :: 0 <= i < |h| && EndedSince(h, i) && h[i].at == t && forall j :: 0 <= j < i ==> !EndedSince(h, j)
  }

  ghost predicate ColumnsRefine(row: Row, h: seq<Check>) {
    && row.cancelAttempts == (if TotalFailed(h) <= I32_MAX then TotalFailed(h) else I32_MAX)
    && SeenEndedBy(h, row.endedSeenAt)
  }

  lemma EndedSinceAppend(h: seq<Check>, c: Check, i: nat)
    requires i < |h|
    ensures EndedSince(h + [c], i) <==> EndedSince(h, i) && c.ended != Some(false)
  {
    var g := h + [c];
    assert g[|h|] == c;
    assert forall j :: i < j < |h| ==> g[j] == h[j];
    if EndedSince(g, i) {
      assert g[|h|].ended != Some(false);
      forall j | i < j < |h| ensures h[j].ended != Some(false) { assert g[j] == h[j]; }
    }
  }

  lemma SeenAppend(h: seq<Check>, c: Check, seen: Option<Time>)
    requires SeenEndedBy(h, seen)
    ensures SeenEndedBy(h + [c], NoteEnded(seen, c.ended, c.at))
  {
    var g := h + [c];
    forall i | 0 <= i < |h|
      ensures EndedSince(g, i) <==> EndedSince(h, i) && c.ended != Some(false)
    {
      EndedSinceAppend(h, c, i);
    }
    assert EndedSince(g, |h|) <==> c.ended == Some(true);
    if c.ended != Some(false) {
      match seen
      case Some(t) =>
        var i :| 0 <= i < |h| && EndedSince(h, i) && h[i].at == t && forall j :: 0 <= j < i ==> !EndedSince(h, j);
        assert EndedSince(g, i) && g[i].at == t && forall j :: 0 <= j < i ==> !EndedSince(g, j);
      case None =>
        if c.ended == Some(true) {
          assert EndedSince(g, |h|) && g[|h|].at == c.at && forall j :: 0 <= j < |h| ==> !EndedSince(g, j);
        }
    }
  }

  lemma CheckRefines(row: Row, h: seq<Check>, c: Check)
    requires ColumnsRefine(row, h)
    ensures ColumnsRefine(Checked(row, c.failed, c.ended, c.at), h + [c])
  {
    SeenAppend(h, c, row.endedSeenAt);
    assert (h + [c])[..|h|] == h;
  }

  /** A write that neither enters `Cancelling` nor records a check leaves the check columns. */
  lemma OtherWritesKeepChecks(row: Row, e: Event)
    requires !Enters(row, e) && !Checks(row, e)
    ensures Step(row, e).cancelAttempts == row.cancelAttempts
    ensures Step(row, e).endedSeenAt == row.endedSeenAt
    ensures Step(row, e).cancelCheckedAt == row.cancelCheckedAt
    ensures row.status.Cancelling? && Step(row, e).status.Cancelling? ==> Step(row, e).updatedAt == row.updatedAt
    ensures Step(row, e).status.Cancelling? ==> row.status.Cancelling?
  {
    match e.write
    case Reconcile(accept, cancel) => ReconcileOnlyMoves(row, accept, cancel, e.at);
    case ReconcileItem(accept, cancel, _) => ReconcileOnlyMoves(row, accept, cancel, e.at);
    case _ =>
  }

  /** Reconciling writes no more than the status and when it changed, and never to `Cancelling`. */
  lemma ReconcileOnlyMoves(row: Row, accept: bool, cancel: Option<CancelKind>, at: Time)
    ensures
      var after := Reconciled(row, accept, cancel, at);
      && after == row.(status := after.status, updatedAt := after.updatedAt)
      && (after.status == row.status ==> after == row)
      && (after.status.Cancelling? ==> after == row)
      && (Closing(row.status) ==> Closing(after.status))
  {}

  lemma EnteredBy(row: Row, e: Event)
    requires Enters(row, e)
    ensures (e.write.MarkCancelling? || e.write.MarkAbandoning? || e.write.Reopen?) && Matches(row, e.write)
  {
    match e.write
    case Reconcile(accept, cancel) => ReconcileOnlyMoves(row, accept, cancel, e.at);
    case ReconcileItem(accept, cancel, _) => ReconcileOnlyMoves(row, accept, cancel, e.at);
    case _ =>
  }

  lemma EnteringClearsChecks(row: Row, e: Event)
    requires Sound(row) && Enters(row, e)
    ensures Step(row, e).cancelAttempts == 0 && Step(row, e).endedSeenAt.None?
    ensures Base(Step(row, e)) == e.at
  {
    EnteredBy(row, e);
  }

  /** `COALESCE(cancel_checked_at, updated_at)`, which the retry sweep sorts by. */
  function Base(row: Row): Time {
    if row.cancelCheckedAt.Some? then row.cancelCheckedAt.value else row.updatedAt
  }

  /** Over every run, the columns hold the history of checks since the row last became
      `Cancelling`: the failed attempts, capped, and since when it has been seen ended. */
  lemma {:induction false} ColumnsRefineHistory(row: Row, run: seq<Event>)
    requires Sound(row) && !Closing(row.status)
    ensures ColumnsRefine(After(row, run), History(row, run))
  {
    if run != [] {
      var before, e := run[..|run| - 1], run[|run| - 1];
      var last := After(row, before);
      ColumnsRefineHistory(row, before);
      SoundRun(row, before);
      if Enters(last, e) {
        EnteringClearsChecks(last, e);
      } else if Checks(last, e) {
        CheckRefines(last, History(row, before), Check(e.at, e.write.failedAttempts, e.write.ended));
      } else {
        OtherWritesKeepChecks(last, e);
      }
    }
  }

  /** The sort key of a row being cancelled is when it became so or was last checked: no other
      write moves it. */
  lemma {:induction false} BaseIsLastTouch(row: Row, run: seq<Event>)
    requires Sound(row) && !Closing(row.status)
    ensures After(row, run).status.Cancelling? ==> Touched(row, run) == Some(Base(After(row, run)))
  {
    if run != [] {
      var before, e := run[..|run| - 1], run[|run| - 1];
      var last := After(row, before);
      BaseIsLastTouch(row, before);
      SoundRun(row, before);
      if Enters(last, e) {
        EnteringClearsChecks(last, e);
      } else if !Checks(last, e) {
        OtherWritesKeepChecks(last, e);
      }
    }
  }

  /** Whether the row has been checked, or was reopened, since it last became `Cancelling`. */
  predicate LookedAt(row: Row, run: seq<Event>) {
    run != [] &&
    var before, e := run[..|run| - 1], run[|run| - 1];
    if Enters(After(row, before), e) then e.write.Reopen?
    else Checks(After(row, before), e) || LookedAt(row, before)
  }

  lemma EnteringLooksAt(row: Row, e: Event)
    requires Sound(row) && Enters(row, e)
    ensures Step(row, e).cancelCheckedAt.Some? <==> e.write.Reopen? || row.cancelCheckedAt.Some?
    ensures !e.write.Reopen? ==> row.cancelCheckedAt.None?
  {
    EnteredBy(row, e);
  }

  lemma {:induction false} CheckedIsLookedAt(row: Row, run: seq<Event>)
    requires Sound(row) && !Closing(row.status)
    ensures After(row, run).status.Cancelling? ==> (After(row, run).cancelCheckedAt.Some? <==> LookedAt(row, run))
  {
    if run != [] {
      var before, e := run[..|run| - 1], run[|run| - 1];
      var last := After(row, before);
      CheckedIsLookedAt(row, before);
      SoundRun(row, before);
      if Enters(last, e) {
        EnteringLooksAt(last, e);
      } else if !Checks(last, e) {
        OtherWritesKeepChecks(last, e);
      }
    }
  }

  // ----- Waiting to be replaced -----

  /** `get_abandoned_indexers_holding_slots`. */
  predicate HoldsSlot(row: Row) {
    row.status.Cancelling? && row.replacementPending && row.endedSeenAt.None?
  }

  predicate SeenEnded(row: Row) {
    row.status.Cancelling? && row.replacementPending && row.endedSeenAt.Some?
  }

  /** `get_ended_agreements_awaiting_replacement`. */
  predicate Listed(row: Row) {
    row.replacementPending && !row.status.Cancelling?
  }

  predicate InOnePlace(row: Row) {
    One(HoldsSlot(row)) + One(SeenEnded(row)) + One(Listed(row)) == 1
  }

  ghost predicate NeverQueued(run: seq<Event>) {
    forall i :: 0 <= i < |run| ==> !run[i].write.MarkReplacementQueued?
  }

  /** A row marked abandoning that has not had its replacement queued. */
  predicate Awaiting(row: Row) {
    row.abandoned && row.replacementPending && Closing(row.status)
  }

  /** Marked abandoning, an agreement holds its slot, and from then on is in exactly one of the
      three places until its replacement is queued. The places divide up the rows pending
      replacement; what keeps an agreement from being lost is that nothing else written clears that,
      nor takes it out of being cancelled or ended. */
  lemma {:induction false} NeverLost(row: Row, at: Time, run: seq<Event>)
    requires Sound(row) && Matches(row, MarkAbandoning) && NeverQueued(run)
    ensures
      var marked := Apply(row, MarkAbandoning, at);
      HoldsSlot(marked) && Awaiting(After(marked, run)) && InOnePlace(After(marked, run))
  {
    if run != [] {
      NeverLost(row, at, run[..|run| - 1]);
      AwaitingStep(After(Apply(row, MarkAbandoning, at), run[..|run| - 1]), run[|run| - 1]);
    }
  }

  lemma AwaitingStep(row: Row, e: Event)
    requires Awaiting(row) && !e.write.MarkReplacementQueued?
    ensures Awaiting(Step(row, e))
  {}

  /** How an awaiting agreement moves between the places: only a check that finds it ended or live
      moves it in and out of `SeenEnded`, and only a reopen takes it off the list, to its slot. */
  lemma PlaceMoves(row: Row, e: Event)
    requires Awaiting(row) && Awaiting(Step(row, e))
    ensures HoldsSlot(row) && SeenEnded(Step(row, e)) ==> e.write.RecordCheck? && e.write.ended == Some(true)
    ensures SeenEnded(row) && HoldsSlot(Step(row, e)) ==> e.write.RecordCheck? && e.write.ended == Some(false)
    ensures Listed(row) && !Listed(Step(row, e)) ==> e.write.Reopen? && HoldsSlot(Step(row, e))
    ensures !Listed(row) && Listed(Step(row, e)) ==> Ended(Step(row, e).status)
  {}

  /** Listed for replacement, an agreement stays listed until it is queued or reopened. */
  lemma {:induction false} ListedUntilReopened(row: Row, run: seq<Event>)
    requires Awaiting(row) && Listed(row) && NeverQueued(run)
    requires forall i :: 0 <= i < |run| ==> !run[i].write.Reopen?
    ensures Awaiting(After(row, run)) && Listed(After(row, run))
  {
    if run != [] {
      var last := After(row, run[..|run| - 1]);
      ListedUntilReopened(row, run[..|run| - 1]);
      AwaitingStep(last, run[|run| - 1]);
      PlaceMoves(last, run[|run| - 1]);
    }
  }

  /** Its replacement queued, an agreement never waits for another, and is in none of the places. */
  lemma {:induction false} QueuedForGood(row: Row, at: Time, run: seq<Event>)
    requires Closing(row.status)
    ensures
      var queued := After(Apply(row, MarkReplacementQueued, at), run);
      !queued.replacementPending && !HoldsSlot(queued) && !SeenEnded(queued) && !Listed(queued)
  {
    NotPendingForGood(Apply(row, MarkReplacementQueued, at), run);
  }

  lemma {:induction false} NotPendingForGood(row: Row, run: seq<Event>)
    requires Closing(row.status) && !row.replacementPending
    ensures Closing(After(row, run).status) && !After(row, run).replacementPending
  {
    if run != [] {
      NotPendingForGood(row, run[..|run| - 1]);
      StepStays(After(row, run[..|run| - 1]), run[|run| - 1]);
    }
  }

  lemma {:induction false} AbandonedIsKept(row: Row, run: seq<Event>)
    ensures row.abandoned ==> After(row, run).abandoned
    ensures After(row, run).abandoned && !row.abandoned ==> Marks(row, run) == 1
  {
    if run != [] {
      AbandonedIsKept(row, run[..|run| - 1]);
      AbandonedOnlyByItsMark(After(row, run[..|run| - 1]), run[|run| - 1]);
      MarksAtMostOnce(row, run);
    }
  }

  /** A cancel by dipper, reconciled alone or in a batch. */
  predicate DippersCancel(w: Write) {
    || (w.Reconcile? && w.cancel == Some(ByRequester))
    || (w.ReconcileItem? && w.kind == Some(ByRequester))
  }

  /** A cancel by dipper that reconciliation applies to a row marked abandoning, however much later,
      ends it `AbandonedByIndexer`, and for good. */
  lemma {:induction false} AbandoningEndsAbandoned(row: Row, at: Time, run: seq<Event>, e: Event, rest: seq<Event>)
    requires Matches(row, MarkAbandoning)
    requires DippersCancel(e.write)
    requires Matches(After(Apply(row, MarkAbandoning, at), run), e.write)
    ensures After(Step(After(Apply(row, MarkAbandoning, at), run), e), rest).status.AbandonedByIndexer?
  {
    var marked := Apply(row, MarkAbandoning, at);
    AbandonedIsKept(marked, run);
    ClosingIsClosed(marked, run);
    RunStays(Step(After(marked, run), e), rest);
  }
}
