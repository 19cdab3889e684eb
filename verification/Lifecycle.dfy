/** Which statuses a row can pass through, over every run of registry writes by any callers. */
module Lifecycle {
  import opened Sql
  import opened Agreement

  /** Whether a row in `s` can come to be in `to`. `CanceledByRequester` is not terminal: a reopen
      takes it back to `Cancelling`. Neither is `Expired`: a late accept or a cancel takes it on. */
  predicate Reaches(s: Status, to: Status) {
    || s == to
    || (s.Created? && (to.Unresponsive? || to.Expired? || to.Rejected?))
    || (Acceptable(s) && to.AcceptedOnChain?)
    || ((Markable(s) || s.Cancelling? || s.CanceledByRequester?) && Closing(to))
  }

  lemma StepStays(row: Row, e: Event)
    ensures Reaches(row.status, Step(row, e).status)
  {}

  lemma {:induction false} RunStays(row: Row, run: seq<Event>)
    ensures Reaches(row.status, After(row, run).status)
  {
    if run != [] {
      RunStays(row, run[..|run| - 1]);
      StepStays(After(row, run[..|run| - 1]), run[|run| - 1]);
    }
  }

  lemma RunExtend(row: Row, run: seq<Event>, e: Event)
    ensures After(row, run + [e]) == Step(After(row, run), e)
  {
    assert (run + [e])[..|run + [e]| - 1] == run;
  }

  lemma AfterOne(row: Row, e: Event)
    ensures After(row, [e]) == Step(row, e)
  {
    assert [e][..0] == [];
  }

  lemma ReopenEnters(row: Row)
    requires row.status.CanceledByRequester?
    ensures Step(row, Event(Reopen(true), 0)).status == Cancelling
  {}

  lemma MarkEnters(row: Row)
    requires Markable(row.status)
    ensures Step(row, Event(MarkCancelling, 0)).status == Cancelling
  {}

  /** A run that leaves a row `Cancelling`, where one exists. */
  function ToCancelling(s: Status): seq<Event>
  {
    if s == Cancelling then []
    else if s == CanceledByRequester then [Event(Reopen(true), 0)]
    else [Event(MarkCancelling, 0)]
  }

  lemma ToCancellingWorks(row: Row)
    requires Reaches(row.status, Cancelling)
    ensures After(row, ToCancelling(row.status)).status == Cancelling
  {
    if row.status.CanceledByRequester? {
      AfterOne(row, Event(Reopen(true), 0));
      ReopenEnters(row);
    } else if row.status != Cancelling {
      AfterOne(row, Event(MarkCancelling, 0));
      MarkEnters(row);
    }
  }

  /** The last write on the way to `to`. */
  function LastWrite(to: Status): Write {
    match to
    case Unresponsive => MarkUnresponsive
    case Expired => MarkExpired
    case Rejected => MarkRejected
    case AcceptedOnChain => Reconcile(true, None)
    case CanceledByIndexer => Reconcile(false, Some(ByIndexer))
    case AbandonedByIndexer => MarkAbandonedByIndexer
    case _ => MarkCanceledByRequester
  }

  lemma LastWriteWorks(row: Row, to: Status)
    requires to != row.status && Reaches(row.status, to) && to != Cancelling
    requires Closing(to) ==> row.status == Cancelling
    ensures Step(row, Event(LastWrite(to), 0)).status == to
  {}

  /** A run that takes a row from one status to another it can reach. */
  function Path(s: Status, to: Status): seq<Event> {
    if s == to then []
    else if to == Cancelling then ToCancelling(s)
    else (if Closing(to) then ToCancelling(s) else []) + [Event(LastWrite(to), 0)]
  }

  lemma PathWorks(row: Row, to: Status)
    requires Reaches(row.status, to)
    ensures After(row, Path(row.status, to)).status == to
  {
    if Closing(to) && to != row.status {
      assert Reaches(row.status, Cancelling);
      ToCancellingWorks(row);
    }
    if to != row.status && to != Cancelling {
      var way := if Closing(to) then ToCancelling(row.status) else [];
      RunExtend(row, way, Event(LastWrite(to), 0));
      LastWriteWorks(After(row, way), to);
    }
  }

  /** A run can take a row to a status exactly when `Reaches` says so. */
  lemma {:induction false} ReachableExactly(row: Row, to: Status)
    ensures (exists run :: After(row, run).status == to) <==> Reaches(row.status, to)
  {
    if Reaches(row.status, to) {
      PathWorks(row, to);
    }
    forall run | After(row, run).status == to
      ensures Reaches(row.status, to)
    {
      RunStays(row, run);
    }
  }

  /** Once a row is being cancelled or has ended, it stays so. */
  lemma {:induction false} ClosingIsClosed(row: Row, run: seq<Event>)
    requires Closing(row.status)
    ensures Closing(After(row, run).status)
  {
    RunStays(row, run);
  }

  /** `Unresponsive`, `CanceledByIndexer` and `AbandonedByIndexer`, with the fallback for a status the
      code does not know, are the statuses never left. */
  lemma {:induction false} TerminalExactly(row: Row)
    ensures (forall run :: After(row, run).status == row.status)
            <==> row.status in {Unresponsive, CanceledByIndexer, AbandonedByIndexer, Unknown}
  {
    forall run { RunStays(row, run); }
    var other := if row.status == Cancelling then CanceledByIndexer else Cancelling;
    if row.status !in {Unresponsive, CanceledByIndexer, AbandonedByIndexer, Unknown} {
      PathWorks(row, other);
    }
  }

  // ----- Writes that succeed at most once -----

  /** Whether the event's accept moves the row. */
  predicate IsAccept(row: Row, e: Event) {
    match e.write
    case Reconcile(accept, _) => DidAccept(row, accept)
    case ReconcileItem(accept, _, _) => DidAccept(row, accept)
    case _ => false
  }

  /** Whether the event marks the row `Cancelling`, as an unwanted or an abandoned agreement. */
  predicate IsMark(row: Row, e: Event) {
    (e.write.MarkCancelling? || e.write.MarkAbandoning?) && Matches(row, e.write)
  }

  function Accepts(row: Row, run: seq<Event>): nat {
    if run == [] then 0
    else
      var before := run[..|run| - 1];
      Accepts(row, before) + if IsAccept(After(row, before), run[|run| - 1]) then 1 else 0
  }

  function Marks(row: Row, run: seq<Event>): nat {
    if run == [] then 0
    else
      var before := run[..|run| - 1];
      Marks(row, before) + if IsMark(After(row, before), run[|run| - 1]) then 1 else 0
  }

  function One(b: bool): nat { if b then 1 else 0 }

  lemma AbandonedOnlyByItsMark(row: Row, e: Event)
    ensures Step(row, e).abandoned <==> row.abandoned || (e.write.MarkAbandoning? && row.status.AcceptedOnChain?)
  {}

  /** No step leads back to a status an accept starts from, so an accept lands at most once. */
  lemma {:induction false} AcceptsAtMostOnce(row: Row, run: seq<Event>)
    ensures Accepts(row, run) + One(Acceptable(After(row, run).status)) <= One(Acceptable(row.status))
  {
    if run != [] {
      AcceptsAtMostOnce(row, run[..|run| - 1]);
      StepStays(After(row, run[..|run| - 1]), run[|run| - 1]);
    }
  }

  /** No step leads back to a status a mark starts from, so one mark lands at most, of either kind. */
  lemma {:induction false} MarksAtMostOnce(row: Row, run: seq<Event>)
    ensures Marks(row, run) + One(Markable(After(row, run).status)) <= One(Markable(row.status))
  {
    if run != [] {
      MarksAtMostOnce(row, run[..|run| - 1]);
      StepStays(After(row, run[..|run| - 1]), run[|run| - 1]);
    }
  }

  /** What reconciling a row with the chain does, status by status. */
  lemma ReconciledStatus(row: Row, accept: bool, cancel: Option<CancelKind>, at: Time)
    ensures
      var outcome, after := OutcomeOf(row, accept, cancel), Reconciled(row, accept, cancel, at);
      && (outcome.didAccept <==> accept && (row.status.Created? || row.status.Expired?))
      && (outcome.didCancel <==>
            || (cancel.Some? && outcome.didAccept)
            || (cancel == Some(ByRequester) && (row.status.Created? || row.status.Rejected?))
            || (cancel.Some? && (row.status.AcceptedOnChain? || row.status.Cancelling?)))
      && (outcome.didCancel && cancel == Some(ByIndexer) ==> after.status.CanceledByIndexer?)
      && (outcome.didCancel && cancel == Some(ByRequester) ==>
            after.status == if row.abandoned then AbandonedByIndexer else CanceledByRequester)
      && (outcome.didAccept && !outcome.didCancel ==> after.status.AcceptedOnChain?)
      && (!outcome.didAccept && !outcome.didCancel ==> after == row)
  {}

  /** An accept paired with a cancel never misses the cancel, so nothing is ever rolled back. */
  lemma NeverRollsBack(row: Row, accept: bool, cancel: Option<CancelKind>)
    ensures !RollsBack(row, accept, cancel)
  {}
}
