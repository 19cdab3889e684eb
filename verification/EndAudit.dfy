/** The end recorded on an agreement: when it may be replaced, and what its `terminated`
    announcement promises. */
module EndAudit {
  import opened Sql
  import opened Agreement
  import opened Lifecycle

  // ----- Announcements -----

  /** `TERMINATED_TX_WAIT_MINUTES`, in microseconds. */
  const TERMINATED_TX_WAIT: Time := 60 * 60_000_000

  /** The rows the terminated sweep announces. */
  predicate AwaitsAnnouncement(row: Row, now: Time) {
    && Ended(row.status)
    && row.acceptedAt.Some?
    && row.terminatedAt.None?
    && (row.canceledTx.Some? || row.updatedAt < now - TERMINATED_TX_WAIT)
  }

  /** A set marker says the truth: the agreement was accepted and has ended. */
  predicate AnnouncedTruly(row: Row) {
    row.terminatedAt.Some? ==> Ended(row.status) && row.acceptedAt.Some?
  }

  /** The two writes that can make an announcement false: a mark of a row that is not an accepted,
      ended one, and a reopen without reading the chain of an announced, cancelled one. */
  predicate BreaksAnnouncement(row: Row, w: Write) {
    || (w.MarkTerminatedEmitted? && !(Ended(row.status) && row.acceptedAt.Some?))
    || (w == Reopen(false) && row.status == CanceledByRequester && row.terminatedAt.Some?)
  }

  /** Those two are exactly the writes that do. */
  lemma AnnouncementKeptExactly(row: Row, e: Event)
    requires AnnouncedTruly(row)
    ensures AnnouncedTruly(Step(row, e)) <==> !BreaksAnnouncement(row, e.write)
  {
    if e.write.Reconcile? || e.write.ReconcileItem? {
      ReconcileAnnounces(row, e);
    } else if Ended(row.status) {
      EndedRowMoves(row, e);
    }
  }

  lemma ReconcileAnnounces(row: Row, e: Event)
    requires AnnouncedTruly(row) && (e.write.Reconcile? || e.write.ReconcileItem?)
    ensures AnnouncedTruly(Step(row, e))
  {
    NeverRollsBackAny(row, e);
  }

  lemma NeverRollsBackAny(row: Row, e: Event)
    ensures e.write.Reconcile? ==> !RollsBack(row, e.write.accept, e.write.cancel)
    ensures e.write.ReconcileItem? ==> !RollsBack(row, e.write.applyAccept, e.write.kind)
  {}

  lemma AfterTwo(row: Row, first: Event, second: Event)
    ensures After(row, [first, second]) == Step(Step(row, first), second)
  {
    assert [first, second][..1] == [] + [first];
    RunExtend(row, [], first);
  }

  const NO_AUDIT := Audit(None, None, None, None, None)

  lemma RejectedThenAccepted(row: Row)
    requires row.status.Created? && row.acceptedAt.None? && row.canceledTx.None? && row.terminatedAt.None? && !row.abandoned
    ensures
      var after := After(row, [Event(MarkRejected, 1), Event(RecordAccepted(5, "a"), 2)]);
      && after.status.Rejected? && after.acceptedAt == Some(5)
      && after.canceledTx.None? && after.terminatedAt.None? && !after.abandoned
  {
    AfterTwo(row, Event(MarkRejected, 1), Event(RecordAccepted(5, "a"), 2));
  }

  lemma RejectedThenCancelled(row: Row)
    requires row.status.Rejected? && row.acceptedAt == Some(5)
    requires row.canceledTx.None? && row.terminatedAt.None? && !row.abandoned
    ensures
      var cancel := Event(ReconcileItem(false, Some(ByRequester), NO_AUDIT), 3);
      var after := After(row, [cancel, Event(RecordCancel(6, "m", Some("c")), 4)]);
      after.status.CanceledByRequester? && AwaitsAnnouncement(after, 5)
  {
    AfterTwo(row, Event(ReconcileItem(false, Some(ByRequester), NO_AUDIT), 3), Event(RecordCancel(6, "m", Some("c")), 4));
  }

  lemma AnnouncedThenReopened(row: Row)
    requires row.status.CanceledByRequester?
    ensures !AnnouncedTruly(After(row, [Event(MarkTerminatedEmitted, 5), Event(Reopen(false), 6)]))
  {
    AfterTwo(row, Event(MarkTerminatedEmitted, 5), Event(Reopen(false), 6));
  }

  /** A fresh row, rejected, then seen accepted and cancelled by dipper on the chain, and rightly
      announced, has a false announcement once an unread reopen, decided on a copy that was still
      `Rejected`, finds it. */
  lemma UnreadReopenBreaksIt(pair: Pair)
    ensures
      var ended := [Event(MarkRejected, 1), Event(RecordAccepted(5, "a"), 2)]
                   + [Event(ReconcileItem(false, Some(ByRequester), NO_AUDIT), 3), Event(RecordCancel(6, "m", Some("c")), 4)];
      && AwaitsAnnouncement(After(Fresh(pair, 9, 0), ended), 5)
      && !AnnouncedTruly(After(Fresh(pair, 9, 0), ended + [Event(MarkTerminatedEmitted, 5), Event(Reopen(false), 6)]))
  {
    var row := Fresh(pair, 9, 0);
    var one := [Event(MarkRejected, 1), Event(RecordAccepted(5, "a"), 2)];
    var two := [Event(ReconcileItem(false, Some(ByRequester), NO_AUDIT), 3), Event(RecordCancel(6, "m", Some("c")), 4)];
    RejectedThenAccepted(row);
    AfterConcat(row, one, two);
    RejectedThenCancelled(After(row, one));
    AfterConcat(row, one + two, [Event(MarkTerminatedEmitted, 5), Event(Reopen(false), 6)]);
    AnnouncedThenReopened(After(row, one + two));
  }

  /** So does a row reopened between the sweep's read of it and its mark. */
  lemma LateMarkBreaksIt(row: Row, read: Time, reopened: Time, marked: Time)
    requires row.status.CanceledByRequester? && AwaitsAnnouncement(row, read)
    ensures !AnnouncedTruly(After(row, [Event(Reopen(true), reopened), Event(MarkTerminatedEmitted, marked)]))
  {
    AfterTwo(row, Event(Reopen(true), reopened), Event(MarkTerminatedEmitted, marked));
  }

  /** No non-NULL field of the end on record in `a` differs in `b`. */
  predicate EndKept(a: Row, b: Row) {
    && (a.canceledAt.Some? ==> b.canceledAt == a.canceledAt)
    && (a.canceledBy.Some? ==> b.canceledBy == a.canceledBy)
    && (a.canceledTx.Some? ==> b.canceledTx == a.canceledTx)
  }

  lemma AnnouncedEndKeptByStep(row: Row, e: Event)
    requires AnnouncedTruly(row)
    requires row.terminatedAt.Some? && Step(row, e).terminatedAt.Some?
    ensures EndKept(row, Step(row, e))
  {
    EndedRowMoves(row, e);
  }

  /** The callers behave: the terminated sweep reads, sends and marks as one step, and an unread
      reopen finds no row that is `CanceledByRequester`. */
  ghost predicate Disciplined(row: Row, run: seq<Event>) {
    forall i :: 0 <= i < |run| ==> DisciplinedStep(After(row, run[..i]), run[i])
  }

  predicate DisciplinedStep(row: Row, e: Event) {
    && (e.write.MarkTerminatedEmitted? ==> AwaitsAnnouncement(row, e.at))
    && (e.write == Reopen(false) ==> row.status != CanceledByRequester)
  }

  /** In every run of disciplined callers, whoever else writes, a set marker is true. */
  lemma {:induction false} AnnouncementsStayTrue(row: Row, run: seq<Event>)
    requires AnnouncedTruly(row) && Disciplined(row, run)
    ensures AnnouncedTruly(After(row, run))
  {
    forall i | 0 <= i < |run| ensures !BreaksAt(row, run, i) {
      assert DisciplinedStep(After(row, run[..i]), run[i]);
    }
    TrueExactlyWhenUnbroken(row, run);
    assert run[..|run|] == run;
    assert TrueAt(row, run, |run|);
  }

  /** No write of the run breaks an announcement. */
  ghost predicate Unbroken(row: Row, run: seq<Event>) {
    forall i :: 0 <= i < |run| ==> !BreaksAt(row, run, i)
  }

  predicate BreaksAt(row: Row, run: seq<Event>, i: nat)
    requires i < |run|
  {
    BreaksAnnouncement(After(row, run[..i]), run[i].write)
  }

  predicate TrueAt(row: Row, run: seq<Event>, i: nat)
    requires i <= |run|
  {
    AnnouncedTruly(After(row, run[..i]))
  }

  ghost predicate TrueThroughout(row: Row, run: seq<Event>) {
    forall i :: 0 <= i <= |run| ==> TrueAt(row, run, i)
  }

  lemma UnbrokenLast(row: Row, run: seq<Event>)
    requires run != []
    ensures Unbroken(row, run)
            <==> Unbroken(row, run[..|run| - 1]) && !BreaksAnnouncement(After(row, run[..|run| - 1]), run[|run| - 1].write)
  {
    var before := run[..|run| - 1];
    forall i | 0 <= i < |before| ensures BreaksAt(row, before, i) == BreaksAt(row, run, i) { assert before[..i] == run[..i]; }
    assert BreaksAt(row, run, |run| - 1) == BreaksAnnouncement(After(row, before), run[|run| - 1].write);
  }

  lemma TrueThroughoutLast(row: Row, run: seq<Event>)
    requires run != []
    ensures TrueThroughout(row, run) <==> TrueThroughout(row, run[..|run| - 1]) && AnnouncedTruly(After(row, run))
  {
    var before := run[..|run| - 1];
    forall i | 0 <= i <= |before| ensures TrueAt(row, before, i) == TrueAt(row, run, i) { assert before[..i] == run[..i]; }
    assert run[..|run|] == run;
    assert TrueAt(row, run, |run|) == AnnouncedTruly(After(row, run));
  }

  /** Over a run, a set marker is true throughout if and only if no write of the run is one of the two
      that break it. */
  lemma {:induction false} TrueExactlyWhenUnbroken(row: Row, run: seq<Event>)
    requires AnnouncedTruly(row)
    ensures TrueThroughout(row, run) <==> Unbroken(row, run)
  {
    if run == [] {
      forall i | 0 <= i <= |run| ensures TrueAt(row, run, i) { assert run[..i] == []; }
    } else {
      var before := run[..|run| - 1];
      TrueExactlyWhenUnbroken(row, before);
      UnbrokenLast(row, run);
      TrueThroughoutLast(row, run);
      if Unbroken(row, before) {
        assert before[..|before|] == before && TrueAt(row, before, |before|);
        AnnouncementKeptExactly(After(row, before), run[|run| - 1]);
      }
    }
  }

  /** And while the marker stays set, the end announced does not change. */
  lemma {:induction false} AnnouncedEndStays(row: Row, run: seq<Event>)
    requires AnnouncedTruly(row) && Unbroken(row, run)
    requires forall i :: 0 <= i <= |run| ==> After(row, run[..i]).terminatedAt.Some?
    ensures EndKept(row, After(row, run))
  {
    if run != [] {
      var n := |run| - 1;
      var before := run[..n];
      UnbrokenLast(row, run);
      forall i | 0 <= i <= n
        ensures After(row, before[..i]).terminatedAt.Some?
      {
        assert before[..i] == run[..i];
      }
      AnnouncedEndStays(row, before);
      TrueExactlyWhenUnbroken(row, before);
      assert run[..n + 1] == run && before[..n] == before && TrueAt(row, before, n);
      AnnouncedEndKeptByStep(After(row, before), run[n]);
    }
  }

  // ----- When an end is announced -----

  /** A write that moves a row stamps it, and none moves the stamp of one that has ended. */
  lemma StampedWhenMoved(row: Row, e: Event)
    ensures Step(row, e).status != row.status ==> Step(row, e).updatedAt == e.at
    ensures Ended(row.status) && Step(row, e).status == row.status ==> Step(row, e).updatedAt == row.updatedAt
  {
    if Ended(row.status) {
      EndedRowMoves(row, e);
    } else if e.write.Reconcile? || e.write.ReconcileItem? {
      ReconcileStamps(row, e);
    }
  }

  lemma ReconcileStamps(row: Row, e: Event)
    requires e.write.Reconcile? || e.write.ReconcileItem?
    ensures Step(row, e).status != row.status ==> Step(row, e).updatedAt == e.at
  {
    NeverRollsBackAny(row, e);
  }

  /** When the row last became ended. */
  function EndedAt(row: Row, run: seq<Event>): Option<Time> {
    if run == [] then None
    else
      var before, e := run[..|run| - 1], run[|run| - 1];
      if !Ended(After(row, before).status) && Ended(After(row, run).status) then Some(e.at) else EndedAt(row, before)
  }

  /** No write takes a row from one way of having ended to another. */
  lemma EndedOneWay(row: Row, e: Event)
    requires Ended(row.status) && Ended(Step(row, e).status)
    ensures Step(row, e).status == row.status
  {
    EndedRowMoves(row, e);
  }

  lemma {:induction false} EndedRowIsStamped(row: Row, run: seq<Event>)
    requires !Ended(row.status) && Ended(After(row, run).status)
    ensures EndedAt(row, run) == Some(After(row, run).updatedAt)
  {
    var before, e := run[..|run| - 1], run[|run| - 1];
    StampedWhenMoved(After(row, before), e);
    if Ended(After(row, before).status) {
      EndedRowIsStamped(row, before);
      EndedOneWay(After(row, before), e);
    }
  }

  /** An agreement is up for announcement exactly when it has ended, was accepted, is not yet announced,
      and the transaction that ended it is known or over an hour has passed since. */
  lemma {:induction false} AnnouncedOnceKnownOrLate(row: Row, run: seq<Event>, now: Time)
    requires !Ended(row.status)
    ensures
      var end, at := After(row, run), EndedAt(row, run);
      AwaitsAnnouncement(end, now)
      <==> && Ended(end.status) && end.acceptedAt.Some? && end.terminatedAt.None?
           && (end.canceledTx.Some? || (at.Some? && now - at.value > 3_600_000_000))
  {
    if Ended(After(row, run).status) { EndedRowIsStamped(row, run); }
  }

  // ----- Corrections -----

  datatype RecordedEnd = RecordedEnd(canceledAt: Option<u64>, canceledBy: Option<string>, canceledTx: Option<string>)
  datatype EndCorrection = EndCorrection(was: RecordedEnd, now: RecordedEnd)

  /** `u64::try_from(at).ok()`: a wrapped time reads as none. */
  function ReadTime(at: Option<int>): Option<u64> {
    if at.Some? && 0 <= at.value < I64_SPAN then Some(at.value) else None
  }

  function EndOf(row: Row): RecordedEnd {
    RecordedEnd(ReadTime(row.canceledAt), row.canceledBy, row.canceledTx)
  }

  /** `end_correction`, of a row before and after a write: the announcement it cleared, if any. */
  function CorrectionOf(before: Row, after: Row): Option<EndCorrection> {
    if before.terminatedAt.Some? && after.terminatedAt.None?
    then Some(EndCorrection(EndOf(before), EndOf(after)))
    else None
  }

  /** What the writes that can replace an end return about a row they found. */
  function Correction(row: Row, e: Event): Option<EndCorrection> {
    if (e.write.Reopen? && Matches(row, e.write)) || e.write.RecordCancel? || e.write.RecordAcceptAndCancel?
    then CorrectionOf(row, Step(row, e))
    else None
  }

  /** No write clears an announcement without returning the correction. */
  lemma ClearedExactlyWhenCorrected(row: Row, e: Event)
    ensures Correction(row, e).Some? <==> row.terminatedAt.Some? && Step(row, e).terminatedAt.None?
  {
    NeverRollsBackAny(row, e);
  }

  /** What happens to an agreement: a registry write, or an announcement sent whose marker could not be
      stamped. A marker is stamped only after a send. */
  datatype Happening = Wrote(event: Event) | SentUnstamped

  function Now(row: Row, run: seq<Happening>): Row {
    if run == [] then row
    else
      var last, before := run[|run| - 1], Now(row, run[..|run| - 1]);
      if last.Wrote? then Step(before, last.event) else before
  }

  predicate Sends(h: Happening) {
    h.SentUnstamped? || h.event.write.MarkTerminatedEmitted?
  }

  /** A send that leaves no announcement standing, or repeats one that was. */
  predicate Repeats(row: Row, h: Happening) {
    h.SentUnstamped? || (h.event.write.MarkTerminatedEmitted? && row.terminatedAt.Some?)
  }

  function Emissions(run: seq<Happening>): nat {
    if run == [] then 0 else Emissions(run[..|run| - 1]) + One(Sends(run[|run| - 1]))
  }

  function Repetitions(row: Row, run: seq<Happening>): nat {
    if run == [] then 0
    else
      var before := run[..|run| - 1];
      Repetitions(row, before) + One(Repeats(Now(row, before), run[|run| - 1]))
  }

  function Corrections(row: Row, run: seq<Happening>): nat {
    if run == [] then 0
    else
      var before, last := run[..|run| - 1], run[|run| - 1];
      Corrections(row, before) + One(last.Wrote? && Correction(Now(row, before), last.event).Some?)
  }

  /** In every run, whatever the callers do, the announcements sent are the corrections returned, the
      one that still stands if any, and the repetitions: sends whose stamp failed and sends of an
      agreement already announced. */
  lemma {:induction false} AnnouncementsBalance(row: Row, run: seq<Happening>)
    ensures Emissions(run) + One(row.terminatedAt.Some?)
         == Corrections(row, run) + One(Now(row, run).terminatedAt.Some?) + Repetitions(row, run)
  {
    if run != [] {
      var last, before := run[|run| - 1], Now(row, run[..|run| - 1]);
      AnnouncementsBalance(row, run[..|run| - 1]);
      if last.Wrote? {
        ClearedExactlyWhenCorrected(before, last.event);
        MarkerSetOnlyByEmission(before, last.event);
      }
    }
  }

  lemma MarkerSetOnlyByEmission(row: Row, e: Event)
    ensures e.write.MarkTerminatedEmitted? ==> Step(row, e).terminatedAt.Some?
    ensures row.terminatedAt.None? && Step(row, e).terminatedAt.Some? ==> e.write.MarkTerminatedEmitted?
  {}

  // ----- Replacing the end on record -----

  /** The writes that change a row that has ended; every other one leaves it as it is. */
  lemma EndedRowMoves(row: Row, e: Event)
    requires Ended(row.status)
    ensures || e.write.Reopen? || e.write.MarkTerminatedEmitted? || e.write.RecordAccepted? || e.write.RecordCancel?
            || e.write.RecordAcceptAndCancel? || e.write.MarkReplacementQueued? || Step(row, e) == row
  {}

  predicate Replaces(row: Row, w: Write) {
    match w
    case RecordCancel(at, _, tx) => Holds(ReplaceEnd(row, row.acceptedAt, AsI64(at), tx))
    case RecordAcceptAndCancel(accAt, _, at, _, tx) =>
      Holds(ReplaceEnd(row, Coalesce(row.acceptedAt, Some(AsI64(accAt))), AsI64(at), tx))
    case _ => false
  }

  /** The end on record after a write of one, in plain conditions: replaced whole, and its announcement
      cleared, by an end from the accept on when the one there came before the accept, or lacks the
      transaction the new one has; otherwise kept, its gaps filled with what was given. */
  lemma EndOnRecord(row: Row, accepted: Option<int>, at: int, who: string, tx: Option<string>)
    ensures
      var after := RecordEnd(row, accepted, at, who, tx);
      var replaced := && accepted.Some? && at >= accepted.value
                      && ((row.canceledAt.Some? && row.canceledAt.value < accepted.value)
                          || (row.canceledTx.None? && tx.Some?));
      && after.acceptedAt == row.acceptedAt && after.acceptedTx == row.acceptedTx
      && after.canceledAt == (if !replaced && row.canceledAt.Some? then row.canceledAt else Some(at))
      && after.canceledBy == (if !replaced && row.canceledBy.Some? then row.canceledBy else Some(who))
      && after.canceledTx == (if !replaced && row.canceledTx.Some? then row.canceledTx else tx)
      && after.terminatedAt == (if replaced then None else row.terminatedAt)
  {}

  /** The writes that record an accept fill its gaps alone, and the one that records both judges the end
      by the accept then on record. */
  lemma AcceptOnRecord(row: Row, e: Event)
    requires e.write.RecordAccepted? || e.write.RecordAcceptAndCancel?
    ensures
      var at, tx := if e.write.RecordAccepted? then e.write.accAt else e.write.bothAccAt,
                    if e.write.RecordAccepted? then e.write.accTx else e.write.bothAccTx;
      var after := Step(row, e);
      && after.acceptedAt == (if row.acceptedAt.Some? then row.acceptedAt else Some(AsI64(at)))
      && after.acceptedTx == (if row.acceptedTx.Some? then row.acceptedTx else Some(tx))
      && (e.write.RecordAcceptAndCancel? ==>
            after == RecordEnd(row.(acceptedAt := after.acceptedAt, acceptedTx := after.acceptedTx), after.acceptedAt,
                               AsI64(e.write.bothEndAt), e.write.bothWho, e.write.bothEndTx))
  {}

  /** How far the end on record is from final: 2 if it is missing or before the accept, and 1 if
      its transaction is missing. */
  function Unsettled(row: Row): nat
    requires row.acceptedAt.Some?
  {
    2 * One(row.canceledAt.None? || row.canceledAt.value < row.acceptedAt.value) + One(row.canceledTx.None?)
  }

  predicate EndedAndAccepted(row: Row) {
    Ended(row.status) && row.acceptedAt.Some?
  }

  /** While a row stays ended, no write raises the measure, and a replacement lowers it to 1 or 0. */
  lemma ReplacementLowers(row: Row, e: Event)
    requires EndedAndAccepted(row) && Ended(Step(row, e).status)
    ensures Step(row, e).acceptedAt == row.acceptedAt
    ensures Unsettled(Step(row, e)) <= Unsettled(row)
    ensures Replaces(row, e.write) ==> Unsettled(Step(row, e)) < Unsettled(row) && Unsettled(Step(row, e)) <= 1
  {
    EndedRowMoves(row, e);
    match e.write
    case RecordCancel(at, who, tx) => RecordEndLowers(row, AsI64(at), who, tx);
    case RecordAcceptAndCancel(accAt, accTx, at, who, tx) =>
      RecordEndLowers(NoteAccept(row, AsI64(accAt), accTx), AsI64(at), who, tx);
    case _ =>
  }

  lemma RecordEndLowers(row: Row, at: int, who: string, tx: Option<string>)
    requires row.acceptedAt.Some?
    ensures
      var after := RecordEnd(row, row.acceptedAt, at, who, tx);
      && after.acceptedAt == row.acceptedAt
      && Unsettled(after) <= Unsettled(row)
      && (Holds(ReplaceEnd(row, row.acceptedAt, at, tx)) ==> Unsettled(after) < Unsettled(row) && Unsettled(after) <= 1)
  {}

  ghost predicate StaysEnded(row: Row, run: seq<Event>) {
    forall i :: 0 <= i <= |run| ==> Ended(After(row, run[..i]).status)
  }

  function Replacements(row: Row, run: seq<Event>): nat {
    if run == [] then 0
    else
      var before := run[..|run| - 1];
      Replacements(row, before) + One(Replaces(After(row, before), run[|run| - 1].write))
  }

  lemma StaysEndedPrefix(row: Row, run: seq<Event>)
    requires run != [] && StaysEnded(row, run)
    ensures StaysEnded(row, run[..|run| - 1])
    ensures Ended(After(row, run).status)
  {
    var before := run[..|run| - 1];
    forall i | 0 <= i <= |before|
      ensures Ended(After(row, before[..i]).status)
    {
      assert before[..i] == run[..i];
    }
    assert run[..|run|] == run;
  }

  /** An ended, accepted agreement's end is replaced at most twice, and no more than its measure. */
  lemma {:induction false} ReplacedAtMostTwice(row: Row, run: seq<Event>)
    requires EndedAndAccepted(row) && StaysEnded(row, run)
    ensures EndedAndAccepted(After(row, run))
    ensures Replacements(row, run) + Unsettled(After(row, run)) <= Unsettled(row)
    ensures Replacements(row, run) > 0 ==> Replacements(row, run) + Unsettled(After(row, run)) <= 2
  {
    if run != [] {
      StaysEndedPrefix(row, run);
      ReplacedAtMostTwice(row, run[..|run| - 1]);
      ReplacementLowers(After(row, run[..|run| - 1]), run[|run| - 1]);
    }
  }

  /** A complete end, from the accept on. */
  predicate Settled(row: Row) {
    EndedAndAccepted(row) && Unsettled(row) == 0 && row.canceledBy.Some?
  }

  /** Once settled, an end is never changed while the row stays ended, nor its announcement cleared. */
  lemma {:induction false} SettledEndIsFinal(row: Row, run: seq<Event>)
    requires Settled(row) && StaysEnded(row, run)
    ensures Settled(After(row, run)) && EndKept(row, After(row, run))
    ensures row.terminatedAt.Some? ==> After(row, run).terminatedAt.Some?
  {
    if run != [] {
      StaysEndedPrefix(row, run);
      SettledEndIsFinal(row, run[..|run| - 1]);
      SettledStep(After(row, run[..|run| - 1]), run[|run| - 1]);
    }
  }

  lemma SettledStep(row: Row, e: Event)
    requires Settled(row) && Ended(Step(row, e).status)
    ensures Settled(Step(row, e)) && EndKept(row, Step(row, e))
    ensures row.terminatedAt.Some? ==> Step(row, e).terminatedAt.Some?
  {
    EndedRowMoves(row, e);
    ReplacementLowers(row, e);
  }

  /** Replaces an announced end, of an agreement accepted at a time that has not wrapped. */
  predicate Corrects(row: Row, w: Write) {
    w.RecordCancel? && Replaces(row, w) && row.acceptedAt.Some? && row.acceptedAt.value >= 0 && row.terminatedAt.Some?
  }

  /** A correction that replaced an end reports the new time as given, even though the column is
      signed: an end from a non-negative accept on cannot have wrapped. */
  lemma CorrectionReportsTheNewEnd(row: Row, e: Event)
    ensures Corrects(row, e.write) ==>
              Correction(row, e) == Some(EndCorrection(
                EndOf(row), RecordedEnd(Some(e.write.endAt), Some(e.write.who), e.write.endTx)))
  {}
}
