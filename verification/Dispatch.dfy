/** The on-chain cancel protocol as a state machine: any number of `start_cancel` and
    `start_cancel_seen_live` calls for one agreement, each a few steps apart, interleaved with every
    other writer of its row and with whatever happens on the chain. Registry writes, chain reads and
    cancel transactions may each fail. */
module Dispatch {
  import opened Sql
  import opened Agreement
  import opened Lifecycle

  // ----- The chain -----

  /** The bits of an agreement's on-chain state that a read looks at. */
  datatype Chain = Chain(registered: bool, accepted: bool, noticeGiven: bool, settled: bool, byProvider: bool)

  datatype AgreementOnChain = Live | EndedByIndexer | NotLive

  predicate StillLive(c: Chain) {
    || (c.registered && !c.accepted && !c.settled)
    || (c.accepted && !c.noticeGiven)
  }

  function OnChain(c: Chain): AgreementOnChain {
    if StillLive(c) then Live else if c.byProvider then EndedByIndexer else NotLive
  }

  /** Accepted, and its end has been given notice. */
  predicate Over(c: Chain) {
    c.accepted && c.noticeGiven
  }

  /** Nothing takes back an accept, an end or who ended it. */
  predicate Permanent(c: Chain, d: Chain) {
    && (c.accepted ==> d.accepted)
    && (Over(c) ==> Over(d) && d.byProvider == c.byProvider)
  }

  // ----- Calls -----

  datatype CancelReason = NotWanted | Abandoned

  /** `NothingLive` is the code's `NotLive`. */
  datatype CancelStarted = Ended | NothingLive | MayBeLive

  /** Where a call is: what it does next, or what it returned. `Failed` is the registry error that
      stops it at its mark. */
  datatype Pc =
    | Marking(seenLive: bool)
    | Reading
    | Sending
    | ReadingBack(tx: Option<string>)
    | Recording(hash: string)
    | MarkingEnded
    | Failed
    | Returned(result: CancelStarted)

  /** `copy` is the status in the caller's copy of the row; `hashLen` the length of its stored terms
      hash, if it has one. */
  datatype Call = Call(reason: CancelReason, copy: Status, hashLen: Option<nat>, pc: Pc)

  /** A cancel can only be sent with a 32-byte terms hash. */
  predicate HasCancelHash(hashLen: Option<nat>) {
    hashLen == Some(32)
  }

  function MarkOf(reason: CancelReason): Write {
    match reason
    case NotWanted => MarkCancelling
    case Abandoned => MarkAbandoning
  }

  /** The mark for `CancelReason::ended_status`. */
  function EndOfReason(reason: CancelReason): Write {
    match reason
    case NotWanted => MarkCanceledByRequester
    case Abandoned => MarkAbandonedByIndexer
  }

  type CallId = nat

  /** One agreement: its row, its chain state, the calls made for it, which of them read the chain and
      sent a cancel, and the statuses the row has had. */
  datatype World = World(
    row: Row,
    chain: Chain,
    calls: map<CallId, Call>,
    looked: seq<CallId>,
    sent: seq<CallId>,
    had: set<Status>)

  /** What a step's registry or chain request comes back with: whether it failed, the database and
      wall-clock times, and for a cancel its transaction and how it left the chain. */
  datatype Reply = Reply(fails: bool, at: Time, clock: u64, tx: Option<string>, chain: Chain)

  datatype Action =
    | Others(event: Event)
    | ChainMoves(to: Chain)
    | Begin(newId: CallId, reason: CancelReason, copy: Status, seenLive: bool, hashLen: Option<nat>)
    | Advance(id: CallId, reply: Reply)

  const MANAGER := "manager"

  function Goto(w: World, id: CallId, pc: Pc): World
    requires id in w.calls
  {
    w.(calls := w.calls[id := w.calls[id].(pc := pc)])
  }

  /** `finish_marked_cancel` once the read after the cancel says the agreement is not live: only one
      the caller knew accepted is confirmed. */
  function AfterEnded(copy: Status, tx: Option<string>): Pc {
    if copy != AcceptedOnChain then Returned(NothingLive)
    else if tx.Some? then Recording(tx.value)
    else MarkingEnded
  }

  function AdvanceCall(w: World, id: CallId, r: Reply): World
    requires id in w.calls
  {
    var call := w.calls[id];
    match call.pc
    case Marking(seenLive) =>
      var mark := MarkOf(call.reason);
      if r.fails || !Matches(w.row, mark) then Goto(w, id, Failed)
      else Goto(w.(row := Apply(w.row, mark, r.at)), id, if seenLive then Sending else Reading)
    case Reading =>
      Goto(w.(looked := w.looked + [id]), id,
           if r.fails then Returned(MayBeLive)
           else if OnChain(w.chain) == Live then Sending
           else Returned(NothingLive))
    case Sending =>
      if !HasCancelHash(call.hashLen) then Goto(w, id, Returned(MayBeLive))
      else
        var out := w.(chain := r.chain, sent := w.sent + [id]);
        Goto(out, id, if r.fails then Returned(MayBeLive) else ReadingBack(r.tx))
    case ReadingBack(tx) =>
      Goto(w.(looked := w.looked + [id]), id,
           if r.fails then Returned(MayBeLive)
           else match OnChain(w.chain)
                case NotLive => AfterEnded(call.copy, tx)
                case EndedByIndexer => Returned(NothingLive)
                case Live => Returned(MayBeLive))
    case Recording(hash) =>
      var row := if r.fails then w.row else Apply(w.row, RecordCancel(r.clock, MANAGER, Some(hash)), r.at);
      Goto(w.(row := row), id, MarkingEnded)
    case MarkingEnded =>
      if r.fails then Goto(w, id, Returned(NothingLive))
      // A mark that finds nothing to do counts as ended.
      else Goto(w.(row := Apply(w.row, EndOfReason(call.reason), r.at)), id, Returned(CancelStarted.Ended))
    case Failed => w
    case Returned(_) => w
  }

  function Perform(w: World, a: Action): World {
    match a
    case Others(e) => w.(row := Step(w.row, e))
    case ChainMoves(to) => w.(chain := to)
    case Begin(id, reason, copy, seenLive, hashLen) =>
      if id in w.calls then w
      else w.(calls := w.calls[id := Call(reason, copy, hashLen, Marking(seenLive))])
    case Advance(id, r) => if id in w.calls then AdvanceCall(w, id, r) else w
  }

  function Act(w: World, a: Action): World {
    var next := Perform(w, a);
    next.(had := next.had + {next.row.status})
  }

  function Run(w: World, run: seq<Action>): World {
    if run == [] then w else Act(Run(w, run[..|run| - 1]), run[|run| - 1])
  }

  /** No call has been made yet. */
  predicate Idle(w: World) {
    w.calls == map[] && w.looked == [] && w.sent == []
  }

  // ----- One call at most gets past its mark -----

  predicate PastMark(pc: Pc) {
    !pc.Marking? && !pc.Failed?
  }

  /** Past the send, or past the point where one would be. */
  predicate PastSend(pc: Pc) {
    PastMark(pc) && !pc.Reading? && !pc.Sending?
  }

  predicate Confirming(pc: Pc) {
    pc.Recording? || pc.MarkingEnded?
  }

  /** At most one call is past its mark, and only once the row has left the statuses a mark starts
      from; a cancel was sent by that call alone, once. */
  ghost predicate OneMark(w: World) {
    && (forall id :: id in w.calls && PastMark(w.calls[id].pc) ==> Closing(w.row.status))
    && (forall i, j :: i in w.calls && j in w.calls && PastMark(w.calls[i].pc) && PastMark(w.calls[j].pc) ==> i == j)
    && (forall id :: id in w.looked ==> id in w.calls && PastMark(w.calls[id].pc))
    && (w.sent != [] ==> |w.sent| == 1 && w.sent[0] in w.calls && PastSend(w.calls[w.sent[0]].pc))
    && (forall id :: id in w.calls && (w.calls[id].pc.ReadingBack? || Confirming(w.calls[id].pc)) ==> w.sent == [id])
  }

  lemma MarkCloses(row: Row, reason: CancelReason, at: Time)
    requires Matches(row, MarkOf(reason))
    ensures !Closing(row.status) && Apply(row, MarkOf(reason), at).status.Cancelling?
  {}

  lemma WriteKeepsClosing(row: Row, e: Event)
    requires Closing(row.status)
    ensures Closing(Step(row, e).status)
  {
    StepStays(row, e);
  }

  lemma AdvanceKeepsOthers(w: World, id: CallId, r: Reply)
    requires id in w.calls
    ensures
      var next := AdvanceCall(w, id, r);
      && next.calls.Keys == w.calls.Keys
      && (forall i :: i in w.calls && i != id ==> next.calls[i] == w.calls[i])
      && next.calls[id].copy == w.calls[id].copy && next.calls[id].reason == w.calls[id].reason
      && next.calls[id].hashLen == w.calls[id].hashLen
      && (Closing(w.row.status) ==> Closing(next.row.status))
      && (PastMark(w.calls[id].pc) ==> PastMark(next.calls[id].pc))
      && (PastMark(next.calls[id].pc) && !PastMark(w.calls[id].pc) ==>
            !Closing(w.row.status) && Closing(next.row.status) && !PastSend(next.calls[id].pc))
  {
    var call := w.calls[id];
    match call.pc
    case Marking(_) =>
      if !r.fails && Matches(w.row, MarkOf(call.reason)) { MarkCloses(w.row, call.reason, r.at); }
    case Recording(hash) =>
      if Closing(w.row.status) { WriteKeepsClosing(w.row, Event(RecordCancel(r.clock, MANAGER, Some(hash)), r.at)); }
    case MarkingEnded =>
      if Closing(w.row.status) { WriteKeepsClosing(w.row, Event(EndOfReason(call.reason), r.at)); }
    case _ =>
  }

  lemma AdvanceSends(w: World, id: CallId, r: Reply)
    requires id in w.calls
    ensures
      var before, after := w.calls[id].pc, AdvanceCall(w, id, r).calls[id].pc;
      && (AdvanceCall(w, id, r).sent == w.sent
          || (AdvanceCall(w, id, r).sent == w.sent + [id] && before.Sending? && PastSend(after)))
      && (AdvanceCall(w, id, r).looked == w.looked
          || (AdvanceCall(w, id, r).looked == w.looked + [id] && PastMark(before)))
      && (after.ReadingBack? ==> AdvanceCall(w, id, r).sent == w.sent + [id] && before.Sending?)
      && (Confirming(after) ==> before.ReadingBack? || Confirming(before))
      && (PastSend(before) ==> PastSend(after))
  {}

  lemma OneMarkAdvance(w: World, id: CallId, r: Reply)
    requires OneMark(w) && id in w.calls
    ensures OneMark(AdvanceCall(w, id, r))
  {
    AdvanceKeepsOthers(w, id, r);
    AdvanceSends(w, id, r);
  }

  lemma OneMarkStep(w: World, a: Action)
    requires OneMark(w)
    ensures OneMark(Act(w, a))
  {
    match a
    case Others(e) =>
      if Closing(w.row.status) { WriteKeepsClosing(w.row, e); }
    case Advance(id, r) =>
      if id in w.calls { OneMarkAdvance(w, id, r); }
    case _ =>
  }

  lemma {:induction false} OneMarkRun(w: World, run: seq<Action>)
    requires Idle(w)
    ensures OneMark(Run(w, run))
  {
    if run != [] {
      OneMarkRun(w, run[..|run| - 1]);
      OneMarkStep(Run(w, run[..|run| - 1]), run[|run| - 1]);
    }
  }

  /** In every run, however calls interleave, at most one cancel goes out, at most one call gets past
      its mark, and the cancel is that call's. */
  lemma {:induction false} AtMostOneCancel(w: World, run: seq<Action>)
    requires Idle(w)
    ensures
      var end := Run(w, run);
      && |end.sent| <= 1
      && (forall i, j :: i in end.calls && j in end.calls && PastMark(end.calls[i].pc) && PastMark(end.calls[j].pc) ==> i == j)
      && (forall i :: i in end.sent ==> i in end.calls && PastMark(end.calls[i].pc))
  {
    OneMarkRun(w, run);
  }

  /** A call whose mark fails has made no chain call and sent nothing. */
  lemma {:induction false} FailedMarkSendsNothing(w: World, run: seq<Action>, id: CallId)
    requires Idle(w) && id in Run(w, run).calls && !PastMark(Run(w, run).calls[id].pc)
    ensures id !in Run(w, run).looked && id !in Run(w, run).sent
  {
    OneMarkRun(w, run);
  }

  // ----- `Ended` is true when it is returned -----

  /** The step at which a call returns `Ended` leaves the row ended, also when its mark found nothing
      to do: its own earlier mark put the row where only an end can have come between. */
  lemma {:induction false} EndedIsEnded(w: World, run: seq<Action>, id: CallId, r: Reply)
    requires Idle(w)
    requires
      var before := Run(w, run);
      id in before.calls && before.calls[id].pc.MarkingEnded?
      && Act(before, Advance(id, r)).calls[id].pc == Returned(CancelStarted.Ended)
    ensures Agreement.Ended(Act(Run(w, run), Advance(id, r)).row.status)
    ensures
      var before := Run(w, run);
      before.row.status.Cancelling? ==>
        Act(before, Advance(id, r)).row.status
        == if before.calls[id].reason.NotWanted? then CanceledByRequester else AbandonedByIndexer
  {
    OneMarkRun(w, run);
  }

  // ----- Dispatch books only real ends -----

  /** What the rest of the system must keep to: the chain takes nothing back, an accept is only
      written to the row once the chain has it, and the status in a caller's copy of the row, however
      old, is one the row has had. */
  predicate Honest(w: World, a: Action) {
    match a
    case Others(e) => IsAccept(w.row, e) ==> w.chain.accepted
    case ChainMoves(to) => Permanent(w.chain, to)
    case Begin(_, _, copy, _, _) => copy in w.had
    case Advance(id, r) => id in w.calls && w.calls[id].pc.Sending? ==> Permanent(w.chain, r.chain)
  }

  ghost predicate HonestRun(w: World, run: seq<Action>) {
    forall i :: 0 <= i < |run| ==> Honest(Run(w, run[..i]), run[i])
  }

  lemma HonestPrefix(w: World, run: seq<Action>)
    requires run != [] && HonestRun(w, run)
    ensures HonestRun(w, run[..|run| - 1])
    ensures Honest(Run(w, run[..|run| - 1]), run[|run| - 1])
  {
    var before := run[..|run| - 1];
    forall i | 0 <= i < |before| ensures Honest(Run(w, before[..i]), before[i]) {
      assert before[..i] == run[..i];
    }
  }

  /** The row, whatever it has been and every caller's copy say accepted only of an accepted agreement,
      and a call that is confirming its cancel has an agreement over on the chain, not by the
      indexer. */
  ghost predicate Truthful(w: World) {
    && (w.row.status.AcceptedOnChain? ==> w.chain.accepted)
    && (AcceptedOnChain in w.had ==> w.chain.accepted)
    && (forall id :: id in w.calls && w.calls[id].copy.AcceptedOnChain? ==> w.chain.accepted)
    && (forall id :: id in w.calls && Confirming(w.calls[id].pc) ==>
          w.calls[id].copy.AcceptedOnChain? && Over(w.chain) && !w.chain.byProvider)
  }

  lemma AcceptedOnlyByAccept(row: Row, e: Event)
    requires Step(row, e).status.AcceptedOnChain?
    ensures row.status.AcceptedOnChain? || IsAccept(row, e)
  {}

  lemma ReadBackIsOver(c: Chain)
    requires c.accepted && OnChain(c) == NotLive
    ensures Over(c) && !c.byProvider
  {}

  lemma DispatchNeverAccepts(w: World, id: CallId, r: Reply)
    requires id in w.calls && AdvanceCall(w, id, r).row.status.AcceptedOnChain?
    ensures w.row.status.AcceptedOnChain?
  {}

  lemma TruthfulAdvance(w: World, id: CallId, r: Reply)
    requires Truthful(w) && Honest(w, Advance(id, r)) && id in w.calls
    ensures Permanent(w.chain, AdvanceCall(w, id, r).chain)
    ensures Truthful(AdvanceCall(w, id, r))
  {
    AdvanceKeepsOthers(w, id, r);
    var next := AdvanceCall(w, id, r);
    if next.row.status.AcceptedOnChain? { DispatchNeverAccepts(w, id, r); }
    if Confirming(next.calls[id].pc) {
      StartsConfirming(w, Advance(id, r), id);
      if !Confirming(w.calls[id].pc) { ReadBackIsOver(w.chain); }
    }
  }

  lemma TruthfulStep(w: World, a: Action)
    requires Truthful(w) && Honest(w, a)
    ensures Truthful(Act(w, a)) && Permanent(w.chain, Act(w, a).chain)
  {
    match a
    case Others(e) =>
      if Step(w.row, e).status.AcceptedOnChain? { AcceptedOnlyByAccept(w.row, e); }
    case Advance(id, r) =>
      if id in w.calls { TruthfulAdvance(w, id, r); }
    case _ =>
  }

  lemma {:induction false} TruthfulRun(w: World, run: seq<Action>)
    requires Truthful(w) && HonestRun(w, run)
    ensures Truthful(Run(w, run)) && Permanent(w.chain, Run(w, run).chain)
  {
    if run != [] {
      HonestPrefix(w, run);
      TruthfulRun(w, run[..|run| - 1]);
      TruthfulStep(Run(w, run[..|run| - 1]), run[|run| - 1]);
    }
  }

  /** A call about to mark the row ended has an agreement over on the chain, not by the indexer, which
      stays so whatever anyone does next. */
  lemma {:induction false} MarkingIsOver(w: World, run: seq<Action>, id: CallId, r: Reply, rest: seq<Action>)
    requires Truthful(w) && HonestRun(w, run)
    requires id in Run(w, run).calls && Run(w, run).calls[id].pc.MarkingEnded?
    requires HonestRun(Act(Run(w, run), Advance(id, r)), rest)
    ensures
      var before, after := Run(w, run), Act(Run(w, run), Advance(id, r));
      && before.calls[id].copy.AcceptedOnChain?
      && Over(before.chain) && !before.chain.byProvider
      && Over(Run(after, rest).chain) && OnChain(Run(after, rest).chain) == NotLive
  {
    var before, after := Run(w, run), Act(Run(w, run), Advance(id, r));
    TruthfulRun(w, run);
    TruthfulStep(before, Advance(id, r));
    TruthfulRun(after, rest);
  }

  /** Only the step that marks it ended changes the row's status to an ended one on dispatch's behalf. */
  lemma OnlyTheMarkEnds(w: World, id: CallId, r: Reply)
    requires id in w.calls && !Agreement.Ended(w.row.status)
    ensures Agreement.Ended(AdvanceCall(w, id, r).row.status) ==> w.calls[id].pc.MarkingEnded?
  {}

  /** On a chain where ends are permanent, whatever step of a call ends a row, the agreement was known
      accepted and is over on the chain, not by the indexer, and stays so whatever anyone does next. */
  lemma {:induction false} BooksOnlyRealEnds(w: World, run: seq<Action>, id: CallId, r: Reply, rest: seq<Action>)
    requires Truthful(w) && HonestRun(w, run)
    requires
      var before, after := Run(w, run), Act(Run(w, run), Advance(id, r));
      !Agreement.Ended(before.row.status) && Agreement.Ended(after.row.status) && HonestRun(after, rest)
    ensures
      var before, after := Run(w, run), Act(Run(w, run), Advance(id, r));
      && id in before.calls && before.calls[id].copy.AcceptedOnChain?
      && Over(before.chain) && !before.chain.byProvider
      && Over(Run(after, rest).chain) && OnChain(Run(after, rest).chain) == NotLive
  {
    OnlyTheMarkEnds(Run(w, run), id, r);
    MarkingIsOver(w, run, id, r, rest);
  }

  /** Step `k` of the run was this call's read after its cancel, and the chain showed it not live. */
  ghost predicate ConfirmedAt(w: World, run: seq<Action>, id: CallId, k: nat)
    requires k < |run|
  {
    var found := Run(w, run[..k]);
    && run[k].Advance? && run[k].id == id && !run[k].reply.fails
    && id in found.calls && found.calls[id].pc.ReadingBack?
    && found.sent == [id] && OnChain(found.chain) == NotLive && found.calls[id].copy.AcceptedOnChain?
  }

  /** The step at which a call starts confirming its cancel. */
  lemma StartsConfirming(w: World, a: Action, id: CallId)
    requires id in Act(w, a).calls && Confirming(Act(w, a).calls[id].pc)
    ensures id in w.calls
    ensures Confirming(w.calls[id].pc) || (
        && a.Advance? && a.id == id && !a.reply.fails && w.calls[id].pc.ReadingBack?
        && OnChain(w.chain) == NotLive && w.calls[id].copy.AcceptedOnChain?)
  {
    if a.Advance? && a.id in w.calls { AdvanceKeepsOthers(w, a.id, a.reply); }
  }

  /** A call reaches its final mark only after it sent its cancel and then read the agreement as not
      live, and only when the caller knew it accepted. */
  lemma {:induction false} ConfirmedFirst(w: World, run: seq<Action>, id: CallId)
    requires Idle(w) && id in Run(w, run).calls && Confirming(Run(w, run).calls[id].pc)
    ensures exists k :: 0 <= k < |run| && ConfirmedAt(w, run, id, k)
  {
    var n := |run| - 1;
    var before, a := run[..n], run[n];
    var found := Run(w, before);
    OneMarkRun(w, before);
    StartsConfirming(found, a, id);
    if Confirming(found.calls[id].pc) {
      ConfirmedFirst(w, before, id);
      var k :| 0 <= k < |before| && ConfirmedAt(w, before, id, k);
      assert before[..k] == run[..k] && before[k] == run[k];
      assert ConfirmedAt(w, run, id, k);
    } else {
      assert ConfirmedAt(w, run, id, n);
    }
  }

  /** Only the mark at its end returns `Ended`. */
  lemma ReturnsEnded(w: World, a: Action, id: CallId)
    requires id in Act(w, a).calls && Act(w, a).calls[id].pc == Returned(CancelStarted.Ended)
    requires !(id in w.calls && w.calls[id].pc == Returned(CancelStarted.Ended))
    ensures a.Advance? && a.id == id && id in w.calls && w.calls[id].pc.MarkingEnded?
  {
    if a.Advance? && a.id in w.calls { AdvanceKeepsOthers(w, a.id, a.reply); }
  }

  /** A call that returned `Ended` did so at a step that left the row ended, and that was its own. */
  lemma {:induction false} EndedWasMarked(w: World, run: seq<Action>, id: CallId)
    requires Idle(w) && id in Run(w, run).calls && Run(w, run).calls[id].pc == Returned(CancelStarted.Ended)
    ensures exists k :: 0 <= k < |run| && MarkedAt(w, run, id, k)
  {
    var n := |run| - 1;
    var before, a := run[..n], run[n];
    var found := Run(w, before);
    if id in found.calls && found.calls[id].pc == Returned(CancelStarted.Ended) {
      EndedWasMarked(w, before, id);
      var k :| 0 <= k < |before| && MarkedAt(w, before, id, k);
      MarkedAtPrefix(w, run, n, id, k);
    } else {
      ReturnsEnded(found, a, id);
      EndedIsEnded(w, before, id, a.reply);
      assert run[..n + 1] == run;
      assert MarkedAt(w, run, id, n);
    }
  }

  lemma MarkedAtPrefix(w: World, run: seq<Action>, n: nat, id: CallId, k: nat)
    requires k < n <= |run|
    ensures MarkedAt(w, run[..n], id, k) == MarkedAt(w, run, id, k)
  {
    assert run[..n][..k] == run[..k] && run[..n][..k + 1] == run[..k + 1];
  }

  ghost predicate MarkedAt(w: World, run: seq<Action>, id: CallId, k: nat)
    requires k < |run|
  {
    var found := Run(w, run[..k]);
    && run[k].Advance? && run[k].id == id && id in found.calls && found.calls[id].pc.MarkingEnded?
    && Agreement.Ended(Run(w, run[..k + 1]).row.status)
  }

  // ----- What a call returns, and why -----

  /** Nothing is live: an accepted agreement has been given notice, and one not accepted is not on
      offer. */
  predicate Gone(c: Chain) {
    if c.accepted then c.noticeGiven else !c.registered || c.settled
  }

  predicate Decided(pc: Pc) {
    Confirming(pc) || pc == Returned(CancelStarted.Ended) || pc == Returned(NothingLive)
  }

  predicate IsRead(pc: Pc) {
    pc.Reading? || pc.ReadingBack?
  }

  /** Step `k` of the run was a read of this call's own that went through and found nothing live. */
  ghost predicate ReadGoneAt(w: World, run: seq<Action>, id: CallId, k: nat)
    requires k < |run|
  {
    var found := Run(w, run[..k]);
    && run[k].Advance? && run[k].id == id && !run[k].reply.fails
    && id in found.calls && IsRead(found.calls[id].pc) && Gone(found.chain)
  }

  lemma GetsDecided(w: World, a: Action, id: CallId)
    requires id in Act(w, a).calls && Decided(Act(w, a).calls[id].pc)
    ensures id in w.calls
    ensures Decided(w.calls[id].pc)
            || (a.Advance? && a.id == id && !a.reply.fails && IsRead(w.calls[id].pc) && Gone(w.chain))
  {
    if a.Advance? && a.id in w.calls { AdvanceKeepsOthers(w, a.id, a.reply); }
  }

  lemma ReadGoneInPrefix(w: World, run: seq<Action>, n: nat, id: CallId, k: nat)
    requires k < n <= |run|
    ensures ReadGoneAt(w, run[..n], id, k) == ReadGoneAt(w, run, id, k)
  {
    assert run[..n][..k] == run[..k];
  }

  /** A call that is confirming its cancel, or that returned that the agreement ended or that nothing
      is live, has read the chain and found nothing live. */
  lemma {:induction false} DecidedSawItGone(w: World, run: seq<Action>, id: CallId)
    requires Idle(w) && id in Run(w, run).calls && Decided(Run(w, run).calls[id].pc)
    ensures exists k :: 0 <= k < |run| && ReadGoneAt(w, run, id, k)
  {
    var n := |run| - 1;
    var before := run[..n];
    GetsDecided(Run(w, before), run[n], id);
    if Decided(Run(w, before).calls[id].pc) {
      DecidedSawItGone(w, before, id);
      var k :| 0 <= k < |before| && ReadGoneAt(w, before, id, k);
      ReadGoneInPrefix(w, run, n, id, k);
    } else {
      assert ReadGoneAt(w, run, id, n);
    }
  }

  /** Why a request that came back like this, to a call in this state, makes it return what it does. */
  predicate Explains(call: Call, chain: Chain, r: Reply, result: CancelStarted) {
    match result
    case Ended => call.pc.MarkingEnded? && !r.fails
    case NothingLive =>
      || (call.pc.Reading? && !r.fails && Gone(chain))
      || (call.pc.ReadingBack? && !r.fails && Gone(chain) && (chain.byProvider || call.copy != AcceptedOnChain))
      || (call.pc.MarkingEnded? && r.fails)
    case MayBeLive =>
      || (r.fails && (IsRead(call.pc) || call.pc.Sending?))
      || (call.pc.Sending? && call.hashLen != Some(32))
      || (call.pc.ReadingBack? && !Gone(chain))
  }

  ghost predicate ReturnsAt(w: World, run: seq<Action>, id: CallId, k: nat, result: CancelStarted)
    requires k < |run|
  {
    var found := Run(w, run[..k]);
    && run[k].Advance? && run[k].id == id && id in found.calls
    && Explains(found.calls[id], found.chain, run[k].reply, result)
    && (found.calls[id].pc.ReadingBack? || found.calls[id].pc.MarkingEnded? ==> found.sent == [id])
  }

  lemma ReturnStep(w: World, a: Action, id: CallId)
    requires id in Act(w, a).calls && Act(w, a).calls[id].pc.Returned?
    requires !(id in w.calls && w.calls[id].pc == Act(w, a).calls[id].pc)
    ensures a.Advance? && a.id == id && id in w.calls
    ensures Explains(w.calls[id], w.chain, a.reply, Act(w, a).calls[id].pc.result)
  {
    if a.Advance? && a.id in w.calls { AdvanceKeepsOthers(w, a.id, a.reply); }
  }

  lemma ReturnsInPrefix(w: World, run: seq<Action>, n: nat, id: CallId, k: nat, result: CancelStarted)
    requires k < n <= |run|
    ensures ReturnsAt(w, run[..n], id, k, result) == ReturnsAt(w, run, id, k, result)
  {
    assert run[..n][..k] == run[..k];
  }

  /** Every result has its cause at a step of the call's own: ended, that its last mark went through;
      nothing live, that a read found it so, and if it was the read after its cancel that the indexer
      ended it or the caller did not know it accepted, or that its last mark failed; maybe live, that a
      request failed, that it had no 32-byte hash, or that the read after its cancel found it live. */
  lemma {:induction false} ReturnsForCause(w: World, run: seq<Action>, id: CallId)
    requires Idle(w) && id in Run(w, run).calls && Run(w, run).calls[id].pc.Returned?
    ensures exists k :: 0 <= k < |run| && ReturnsAt(w, run, id, k, Run(w, run).calls[id].pc.result)
  {
    var n := |run| - 1;
    var before, result := run[..n], Run(w, run).calls[id].pc.result;
    var found := Run(w, before);
    if id in found.calls && found.calls[id].pc == Run(w, run).calls[id].pc {
      ReturnsForCause(w, before, id);
      var k :| 0 <= k < |before| && ReturnsAt(w, before, id, k, result);
      ReturnsInPrefix(w, run, n, id, k, result);
    } else {
      ReturnStep(found, run[n], id);
      OneMarkRun(w, before);
      assert ReturnsAt(w, run, id, n, result);
    }
  }

  // ----- What a cancel is sent for -----

  ghost predicate BeganSeenLive(run: seq<Action>, id: CallId) {
    exists k :: 0 <= k < |run| && run[k].Begin? && run[k].newId == id && run[k].seenLive
  }

  ghost predicate ReadLiveAt(w: World, run: seq<Action>, id: CallId, k: nat)
    requires k < |run|
  {
    var found := Run(w, run[..k]);
    && run[k].Advance? && run[k].id == id && !run[k].reply.fails
    && id in found.calls && found.calls[id].pc.Reading? && !Gone(found.chain)
  }

  /** The caller had seen the agreement live, or the call's own read found it so. */
  ghost predicate KnownLive(w: World, run: seq<Action>, id: CallId) {
    BeganSeenLive(run, id) || exists k :: 0 <= k < |run| && ReadLiveAt(w, run, id, k)
  }

  lemma KnownLiveInLonger(w: World, run: seq<Action>, id: CallId)
    requires run != [] && KnownLive(w, run[..|run| - 1], id)
    ensures KnownLive(w, run, id)
    ensures BeganSeenLive(run[..|run| - 1], id) ==> BeganSeenLive(run, id)
  {
    var before := run[..|run| - 1];
    if BeganSeenLive(before, id) {
      var k :| 0 <= k < |before| && before[k].Begin? && before[k].newId == id && before[k].seenLive;
      assert run[k] == before[k];
    } else {
      var k :| 0 <= k < |before| && ReadLiveAt(w, before, id, k);
      assert before[..k] == run[..k];
      assert ReadLiveAt(w, run, id, k);
    }
  }

  /** About to send, or past it. */
  predicate MaySend(w: World, id: CallId)
    requires id in w.calls
  {
    w.calls[id].pc.Sending? || id in w.sent
  }

  lemma SendStep(w: World, a: Action, id: CallId)
    requires OneMark(w) && id in Act(w, a).calls
    ensures Act(w, a).calls[id].pc == Marking(true) ==>
              (id in w.calls && w.calls[id].pc == Marking(true)) || (a.Begin? && a.newId == id && a.seenLive)
    ensures MaySend(Act(w, a), id) ==>
              id in w.calls && (
                || MaySend(w, id)
                || w.calls[id].pc == Marking(true)
                || (a.Advance? && a.id == id && !a.reply.fails && w.calls[id].pc.Reading? && !Gone(w.chain)))
    ensures id in Act(w, a).sent && id !in w.sent ==> id in w.calls && w.calls[id].hashLen == Some(32)
  {
    if a.Advance? && a.id in w.calls {
      AdvanceKeepsOthers(w, a.id, a.reply);
      AdvanceSends(w, a.id, a.reply);
    }
  }

  lemma LiveReadCounts(w: World, run: seq<Action>, id: CallId)
    requires run != [] && id in Run(w, run[..|run| - 1]).calls
    ensures
      var found, a := Run(w, run[..|run| - 1]), run[|run| - 1];
      a.Advance? && a.id == id && !a.reply.fails && found.calls[id].pc.Reading? && !Gone(found.chain) ==>
        KnownLive(w, run, id)
  {
    var n := |run| - 1;
    if ReadLiveAt(w, run, id, n) { assert KnownLive(w, run, id); }
  }

  /** A cancel goes out only with a 32-byte hash, and only for an agreement its caller had seen live or
      its own read found so. */
  lemma {:induction false} SendsOnlyForLive(w: World, run: seq<Action>, id: CallId)
    requires Idle(w) && id in Run(w, run).calls
    ensures Run(w, run).calls[id].pc == Marking(true) ==> BeganSeenLive(run, id)
    ensures MaySend(Run(w, run), id) ==> KnownLive(w, run, id)
    ensures id in Run(w, run).sent ==> Run(w, run).calls[id].hashLen == Some(32)
  {
    var n := |run| - 1;
    var before, a := run[..n], run[n];
    var found := Run(w, before);
    OneMarkRun(w, before);
    SendStep(found, a, id);
    if a.Advance? && a.id in found.calls { AdvanceKeepsOthers(found, a.id, a.reply); }
    if id in found.calls {
      SendsOnlyForLive(w, before, id);
      if KnownLive(w, before, id) { KnownLiveInLonger(w, run, id); }
      LiveReadCounts(w, run, id);
    }
  }

  // ----- The cancel is recorded as it was sent -----

  ghost predicate SentAt(w: World, run: seq<Action>, id: CallId, k: nat, tx: Option<string>)
    requires k < |run|
  {
    var found := Run(w, run[..k]);
    && run[k].Advance? && run[k].id == id && !run[k].reply.fails && run[k].reply.tx == tx
    && id in found.calls && found.calls[id].pc.Sending?
  }

  ghost predicate RecordsAt(w: World, run: seq<Action>, id: CallId, k: nat, hash: string)
    requires k < |run|
  {
    var found := Run(w, run[..k]);
    run[k].Advance? && run[k].id == id && id in found.calls && found.calls[id].pc == Recording(hash)
  }

  ghost predicate WasSent(w: World, run: seq<Action>, id: CallId, tx: Option<string>) {
    exists k :: 0 <= k < |run| && SentAt(w, run, id, k, tx)
  }

  ghost predicate WasRecorded(w: World, run: seq<Action>, id: CallId, hash: string) {
    exists k :: 0 <= k < |run| && RecordsAt(w, run, id, k, hash)
  }

  lemma KeptInLonger(w: World, run: seq<Action>, id: CallId)
    requires run != []
    ensures forall tx :: WasSent(w, run[..|run| - 1], id, tx) ==> WasSent(w, run, id, tx)
    ensures forall hash :: WasRecorded(w, run[..|run| - 1], id, hash) ==> WasRecorded(w, run, id, hash)
  {
    var before := run[..|run| - 1];
    forall tx | WasSent(w, before, id, tx) ensures WasSent(w, run, id, tx) {
      var k :| 0 <= k < |before| && SentAt(w, before, id, k, tx);
      assert before[..k] == run[..k];
      assert SentAt(w, run, id, k, tx);
    }
    forall hash | WasRecorded(w, before, id, hash) ensures WasRecorded(w, run, id, hash) {
      var k :| 0 <= k < |before| && RecordsAt(w, before, id, k, hash);
      assert before[..k] == run[..k];
      assert RecordsAt(w, run, id, k, hash);
    }
  }

  /** What a call knows of the transaction it sent. */
  ghost predicate KnowsItsCancel(w: World, run: seq<Action>, id: CallId, pc: Pc) {
    match pc
    case ReadingBack(tx) => WasSent(w, run, id, tx)
    case Recording(hash) => WasSent(w, run, id, Some(hash))
    case MarkingEnded => WasSentAndRecorded(w, run, id)
    case Returned(result) => result.Ended? ==> WasSentAndRecorded(w, run, id)
    case _ => true
  }

  ghost predicate WasSentAndRecorded(w: World, run: seq<Action>, id: CallId) {
    exists tx :: WasSent(w, run, id, tx) && (tx.Some? ==> WasRecorded(w, run, id, tx.value))
  }

  lemma KnownInLonger(w: World, run: seq<Action>, id: CallId, pc: Pc)
    requires run != [] && KnowsItsCancel(w, run[..|run| - 1], id, pc)
    ensures KnowsItsCancel(w, run, id, pc)
  {
    KeptInLonger(w, run, id);
  }

  /** The transaction a call records is the one its own cancel went out in, and it marks the row ended
      only after recording that, if it was told one. */
  lemma {:induction false} RecordsItsOwnCancel(w: World, run: seq<Action>, id: CallId)
    requires Idle(w) && id in Run(w, run).calls
    ensures KnowsItsCancel(w, run, id, Run(w, run).calls[id].pc)
  {
    var n := |run| - 1;
    var before, a := run[..n], run[n];
    var found := Run(w, before);
    if a.Advance? && a.id in found.calls { AdvanceKeepsOthers(found, a.id, a.reply); }
    if id in found.calls {
      RecordsItsOwnCancel(w, before, id);
      KnownInLonger(w, run, id, found.calls[id].pc);
      if a.Advance? && a.id == id { RecordsStep(w, run, id); }
    }
  }

  lemma RecordsStep(w: World, run: seq<Action>, id: CallId)
    requires run != [] && run[|run| - 1].Advance? && run[|run| - 1].id == id && id in Run(w, run[..|run| - 1]).calls
    requires KnowsItsCancel(w, run, id, Run(w, run[..|run| - 1]).calls[id].pc)
    ensures KnowsItsCancel(w, run, id, Run(w, run).calls[id].pc)
  {
    var n := |run| - 1;
    match Run(w, run[..n]).calls[id].pc
    case Sending =>
      if !run[n].reply.fails { assert SentAt(w, run, id, n, run[n].reply.tx); }
    case Recording(hash) =>
      assert RecordsAt(w, run, id, n, hash);
    case _ =>
  }

  /** The step that records it leaves an end on the row, and this one if there was none. */
  lemma RecordingWrites(w: World, id: CallId, r: Reply)
    requires id in w.calls && w.calls[id].pc.Recording? && !r.fails
    ensures
      var before, after, hash := w.row, AdvanceCall(w, id, r).row, w.calls[id].pc.hash;
      && after.canceledAt.Some? && after.canceledBy.Some? && after.canceledTx.Some?
      && (before.canceledTx.None? ==> after.canceledTx == Some(hash))
      && (before.canceledAt.None? ==> after.canceledAt == Some(AsI64(r.clock)))
      && (before.canceledBy.None? ==> after.canceledBy == Some(MANAGER))
  {}

  // ----- Why it was cancelled is kept -----

  /** The row is noted abandoned exactly when the call past its mark abandoned it. */
  ghost predicate ReasonNoted(w: World) {
    && (w.row.abandoned ==> Closing(w.row.status))
    && (forall id :: id in w.calls && PastMark(w.calls[id].pc) ==>
          Closing(w.row.status) && (w.row.abandoned <==> w.calls[id].reason.Abandoned?))
  }

  lemma ReasonStep(w: World, a: Action)
    requires OneMark(w) && ReasonNoted(w)
    ensures ReasonNoted(Act(w, a))
  {
    match a
    case Others(e) =>
      AbandonedOnlyByItsMark(w.row, e);
      if Closing(w.row.status) { WriteKeepsClosing(w.row, e); }
    case Advance(id, r) => if id in w.calls { ReasonAdvance(w, id, r); }
    case _ =>
  }

  lemma ReasonAdvance(w: World, id: CallId, r: Reply)
    requires OneMark(w) && ReasonNoted(w) && id in w.calls
    ensures ReasonNoted(AdvanceCall(w, id, r))
  {
    AdvanceKeepsOthers(w, id, r);
    match w.calls[id].pc
    case Recording(hash) => AbandonedOnlyByItsMark(w.row, Event(RecordCancel(r.clock, MANAGER, Some(hash)), r.at));
    case MarkingEnded => AbandonedOnlyByItsMark(w.row, Event(EndOfReason(w.calls[id].reason), r.at));
    case _ =>
  }

  /** In every run, the row of a call past its mark is noted abandoned if and only if that was its
      reason. */
  lemma {:induction false} ReasonIsKept(w: World, run: seq<Action>)
    requires Idle(w) && !w.row.abandoned
    ensures ReasonNoted(Run(w, run))
  {
    if run != [] {
      ReasonIsKept(w, run[..|run| - 1]);
      OneMarkRun(w, run[..|run| - 1]);
      ReasonStep(Run(w, run[..|run| - 1]), run[|run| - 1]);
    }
  }

  lemma RunExtends(w: World, run: seq<Action>, a: Action)
    ensures Run(w, run + [a]) == Act(Run(w, run), a)
  {
    assert (run + [a])[..|run + [a]| - 1] == run;
  }
}
