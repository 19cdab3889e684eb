/** The dispatcher's functions as they run: each takes its steps in order on an agreement whose row
    and chain state others change between any two of them. What they return is what the state
    machine of module Dispatch returns. */
module CancelDispatch {
  import opened Sql
  import opened Agreement
  import opened EndAudit
  import D = Dispatch
  import opened Dispatch

  /** What anyone else does to the agreement: a registry write, or something on the chain. Other
      cancel calls for it act as such writers too. */
  type Env = a: Action | a.Others? || a.ChainMoves? witness ChainMoves(Chain(false, false, false, false, false))

  /** What happens around a call's n-th request: what others do before it, and how it comes back. */
  datatype Scenario = Scenario(others: nat -> seq<Env>, reply: nat -> Reply)

  datatype LiveCancel =
    | NotLive(byIndexer: bool)
    | CancelEnded(tx: Option<string>)
    | ReadFailed
    | Unconfirmed(unread: Option<string>)
    | CancelFailed

  datatype Result<T> = Ok(value: T) | RegistryError

  /** Where `finish_marked_cancel` takes a call that found this. */
  function Finish(copy: Status, live: LiveCancel): Pc {
    match live
    case CancelEnded(tx) => AfterEnded(copy, tx)
    case NotLive(_) => Returned(NothingLive)
    case _ => Returned(MayBeLive)
  }

  datatype ReopenResult = Reopened | Left | Unread | ReopenFailed

  class Dispatcher {
    var row: Row
    var chain: Chain

    /** The state machine's view: the run so far, from a world with no calls. */
    ghost const start: World
    ghost var log: seq<Action>

    ghost function World(): World
      reads this
    {
      Run(start, log)
    }

    ghost predicate Valid()
      reads this
    {
      Idle(start) && World().row == row && World().chain == chain
    }

    ghost predicate At(me: CallId, call: Call)
      reads this
    {
      Valid() && me in World().calls && World().calls[me] == call
    }

    constructor (row: Row, chain: Chain)
      ensures Valid() && this.row == row && this.chain == chain && log == []
    {
      this.row := row;
      this.chain := chain;
      start := D.World(row, chain, map[], [], [], {row.status});
      log := [];
    }

    ghost method Log(a: Action)
      modifies `log
      ensures log == old(log) + [a] && World() == Act(old(World()), a)
    {
      RunExtends(start, log, a);
      log := log + [a];
    }

    /** Others change the row and the chain, but not where a call is. */
    method Others(script: seq<Env>)
      requires Valid()
      modifies this
      ensures Valid() && old(log) <= log
      ensures World().calls == old(World().calls) && World().sent == old(World().sent)
    {
      for k := 0 to |script|
        invariant Valid() && old(log) <= log
        invariant World().calls == old(World().calls) && World().sent == old(World().sent)
      {
        match script[k] {
          case Others(e) => row := Step(row, e);
          case ChainMoves(to) => chain := to;
        }
        Log(script[k]);
      }
    }

    /** `mark_cancelling`. */
    method MarkCancelling(ghost me: CallId, ghost call: Call, reason: CancelReason, s: Scenario, n: nat)
      returns (marked: bool)
      requires At(me, call) && call.pc.Marking? && call.reason == reason
      modifies this
      ensures old(log) <= log
      ensures At(me, call.(pc := if !marked then Failed else if call.pc.seenLive then Sending else Reading))
    {
      Others(s.others(n));
      var r := s.reply(n);
      marked := false;
      if !r.fails {
        match reason {
          case NotWanted => marked := Markable(row.status);
          case Abandoned => marked := row.status == AcceptedOnChain;
        }
        row := match reason
               case NotWanted => Apply(row, Write.MarkCancelling, r.at)
               case Abandoned => Apply(row, MarkAbandoning, r.at);
      }
      Log(Advance(me, r));
    }

    /** `cancel_agreement_on_chain`: send, then read back. */
    method CancelAgreementOnChain(ghost me: CallId, ghost call: Call, hashLen: Option<nat>, s: Scenario, n: nat)
      returns (live: LiveCancel)
      requires At(me, call) && call.pc.Sending? && call.hashLen == hashLen
      modifies this
      ensures old(log) <= log
      ensures At(me, call.(pc := Finish(call.copy, live)))
      ensures live ==
                if hashLen != Some(32) || s.reply(n).fails then CancelFailed
                else if s.reply(n + 1).fails then Unconfirmed(s.reply(n).tx)
                else if !Gone(chain) then CancelFailed
                else if chain.byProvider then LiveCancel.NotLive(true)
                else CancelEnded(s.reply(n).tx)
    {
      Others(s.others(n));
      var sent := s.reply(n);
      if !HasCancelHash(hashLen) {
        Log(Advance(me, sent));
        return CancelFailed;
      }
      chain := sent.chain;
      Log(Advance(me, sent));
      if sent.fails {
        return CancelFailed;
      }
      Others(s.others(n + 1));
      var back := s.reply(n + 1);
      Log(Advance(me, back));
      if back.fails {
        return Unconfirmed(sent.tx);
      }
      match OnChain(chain) {
        case NotLive => live := CancelEnded(sent.tx);
        case EndedByIndexer => live := LiveCancel.NotLive(true);
        case Live => live := CancelFailed;
      }
    }

    /** `cancel_if_live`. */
    method CancelIfLive(ghost me: CallId, ghost call: Call, hashLen: Option<nat>, s: Scenario, n: nat)
      returns (live: LiveCancel)
      requires At(me, call) && call.pc.Reading? && call.hashLen == hashLen
      modifies this
      ensures old(log) <= log
      ensures At(me, call.(pc := Finish(call.copy, live)))
      ensures live.ReadFailed? <==> s.reply(n).fails
      ensures live.NotLive? || live.CancelEnded? ==> Gone(chain)
      ensures live.NotLive? ==> live.byIndexer == chain.byProvider
      ensures live.CancelEnded? ==> !chain.byProvider
    {
      Others(s.others(n));
      var r := s.reply(n);
      Log(Advance(me, r));
      if r.fails {
        return ReadFailed;
      }
      match OnChain(chain) {
        case Live => live := CancelAgreementOnChain(me, call.(pc := Sending), hashLen, s, n + 1);
        case EndedByIndexer => live := LiveCancel.NotLive(true);
        case NotLive => live := LiveCancel.NotLive(false);
      }
    }

    /** `confirm_cancelled`: record the cancel if its transaction is known, then mark ended. A mark
        that finds no row to move counts as ended. */
    method ConfirmCancelled(ghost me: CallId, ghost call: Call, reason: CancelReason, tx: Option<string>, s: Scenario, n: nat)
      returns (confirmed: bool)
      requires At(me, call) && call.reason == reason
      requires call.pc == if tx.Some? then Recording(tx.value) else MarkingEnded
      modifies this
      ensures old(log) <= log
      ensures At(me, call.(pc := Returned(if confirmed then CancelStarted.Ended else NothingLive)))
      ensures confirmed ==> Agreement.Ended(row.status)
    {
      if tx.Some? {
        Others(s.others(n));
        var recorded := s.reply(n);
        if !recorded.fails {
          row := Apply(row, RecordCancel(recorded.clock, MANAGER, tx), recorded.at);
        }
        Log(Advance(me, recorded));
      }
      confirmed := MarkEnded(me, call.(pc := MarkingEnded), reason, s, n + 1);
    }

    /** `mark_ended`, and how `confirm_cancelled` reads its result. */
    method MarkEnded(ghost me: CallId, ghost call: Call, reason: CancelReason, s: Scenario, n: nat) returns (confirmed: bool)
      requires At(me, call) && call.reason == reason && call.pc.MarkingEnded?
      modifies this
      ensures old(log) <= log
      ensures At(me, call.(pc := Returned(if confirmed then CancelStarted.Ended else NothingLive)))
      ensures confirmed ==> Agreement.Ended(row.status)
    {
      Others(s.others(n));
      var r := s.reply(n);
      if !r.fails {
        row := match reason
               case NotWanted => Apply(row, MarkCanceledByRequester, r.at)
               case Abandoned => Apply(row, MarkAbandonedByIndexer, r.at);
        EndedIsEnded(start, log, me, r);
      }
      Log(Advance(me, r));
      confirmed := !r.fails;
    }

    /** `finish_marked_cancel`. */
    method FinishMarkedCancel(ghost me: CallId, ghost call: Call, copy: Status, reason: CancelReason, live: LiveCancel,
                              s: Scenario, n: nat)
      returns (result: CancelStarted)
      requires At(me, call.(pc := Finish(copy, live))) && call.copy == copy && call.reason == reason
      modifies this
      ensures old(log) <= log
      ensures At(me, call.(pc := Returned(result)))
      ensures result == CancelStarted.Ended ==> Agreement.Ended(row.status)
    {
      match live
      case NotLive(_) => return NothingLive;
      case ReadFailed => return MayBeLive;
      case CancelFailed => return MayBeLive;
      case Unconfirmed(_) => return MayBeLive;
      case CancelEnded(tx) =>
        if copy != AcceptedOnChain {
          return NothingLive;
        }
        var confirmed := ConfirmCancelled(me, call.(pc := Finish(copy, live)), reason, tx, s, n);
        result := if confirmed then CancelStarted.Ended else NothingLive;
    }

    /** `start_cancel`. */
    method StartCancel(ghost me: CallId, copy: Status, reason: CancelReason, hashLen: Option<nat>, s: Scenario)
      returns (r: Result<CancelStarted>)
      requires Valid() && me !in World().calls
      modifies this
      ensures Valid() && old(log) <= log
      ensures At(me, Call(reason, copy, hashLen, if r.Ok? then Returned(r.value) else Failed))
      ensures r == Ok(CancelStarted.Ended) ==> Agreement.Ended(row.status) && copy == AcceptedOnChain
      ensures r.RegistryError? ==> me !in World().looked && me !in World().sent
      ensures |World().sent| <= 1
    {
      Log(Begin(me, reason, copy, false, hashLen));
      ghost var call := Call(reason, copy, hashLen, Marking(false));
      var marked := MarkCancelling(me, call, reason, s, 0);
      if !marked {
        Settled(me);
        return RegistryError;
      }
      call := call.(pc := Reading);
      var live := CancelIfLive(me, call, hashLen, s, 1);
      var result := FinishMarkedCancel(me, call, copy, reason, live, s, 4);
      Settled(me);
      r := Ok(result);
    }

    /** `start_cancel_seen_live`: the caller has just read the agreement live. */
    method StartCancelSeenLive(ghost me: CallId, copy: Status, reason: CancelReason, hashLen: Option<nat>, s: Scenario)
      returns (r: Result<CancelStarted>)
      requires Valid() && me !in World().calls
      modifies this
      ensures Valid() && old(log) <= log
      ensures At(me, Call(reason, copy, hashLen, if r.Ok? then Returned(r.value) else Failed))
      ensures r == Ok(CancelStarted.Ended) ==> Agreement.Ended(row.status) && copy == AcceptedOnChain
      ensures r.RegistryError? ==> me !in World().looked && me !in World().sent
      ensures |World().sent| <= 1
    {
      Log(Begin(me, reason, copy, true, hashLen));
      ghost var call := Call(reason, copy, hashLen, Marking(true));
      var marked := MarkCancelling(me, call, reason, s, 0);
      if !marked {
        Settled(me);
        return RegistryError;
      }
      call := call.(pc := Sending);
      var live := CancelAgreementOnChain(me, call, hashLen, s, 1);
      var result := FinishMarkedCancel(me, call, copy, reason, live, s, 3);
      Settled(me);
      r := Ok(result);
    }

    lemma Settled(me: CallId)
      requires Valid() && me in World().calls
      ensures |World().sent| <= 1
      ensures World().calls[me].pc.Failed? ==> me !in World().looked && me !in World().sent
      ensures World().calls[me].pc == Returned(CancelStarted.Ended) ==> World().calls[me].copy.AcceptedOnChain?
    {
      OneMarkRun(start, log);
      if World().calls[me].pc == Returned(CancelStarted.Ended) {
        EndedOnlyIfAccepted(start, log, me);
      }
    }

    /** `reopen_if_live`. An unread chain reopens only an agreement the caller's copy has rejected. */
    method ReopenIfLive(copy: Status, s: Scenario) returns (result: ReopenResult)
      requires Valid()
      modifies this
      ensures Valid() && old(log) <= log
      ensures result.Unread? <==> s.reply(0).fails && copy != Rejected
      ensures result.ReopenFailed? ==> s.reply(1).fails
      ensures result.Left? ==>
                || (!s.reply(0).fails && exists k :: |old(log)| <= k <= |log| && Gone(Run(start, log[..k]).chain))
                || row.status !in {CanceledByRequester, Rejected}
      ensures result.Reopened? ==> row.status == Cancelling && (s.reply(0).fails ==> copy == Rejected)
      ensures result.Reopened? ==> log != [] && ReopensLast(start, log, !s.reply(0).fails)
      ensures result.Reopened? && !s.reply(0).fails ==>
                exists k :: |old(log)| <= k <= |log| && !Gone(Run(start, log[..k]).chain)
    {
      Others(s.others(0));
      var read := s.reply(0);
      if !read.fails && OnChain(chain) != Live {
        assert log[..|log|] == log;
        return Left;
      }
      if read.fails && copy != Rejected {
        return Unread;
      }
      var seenLive := !read.fails;
      ghost var k, atRead := |log|, log;
      Others(s.others(1));
      var r := s.reply(1);
      if r.fails {
        return ReopenFailed;
      }
      if !Reopenable(row.status) {
        return Left;
      }
      ReopenIsLast(start, log, seenLive, r.at);
      row := Apply(row, Reopen(seenLive), r.at);
      Log(Action.Others(Event(Reopen(seenLive), r.at)));
      assert log[..k] == atRead;
      result := Reopened;
    }
  }

  /** The last thing done was a reopen that found a row it applies to. Of a true announcement it
      leaves a false one exactly when the chain went unread and the row had since been cancelled and
      announced. */
  ghost predicate ReopensLast(start: World, log: seq<Action>, seenLive: bool)
    requires log != []
  {
    var found, last := Run(start, log[..|log| - 1]).row, log[|log| - 1];
    && last.Others? && last.event.write == Reopen(seenLive)
    && Matches(found, Reopen(seenLive))
    && (AnnouncedTruly(found) ==>
          (AnnouncedTruly(Run(start, log).row)
           <==> !(!seenLive && found.status.CanceledByRequester? && found.terminatedAt.Some?)))
  }

  lemma ReopenIsLast(start: World, log: seq<Action>, seenLive: bool, at: Time)
    requires Matches(Run(start, log).row, Reopen(seenLive))
    ensures ReopensLast(start, log + [Action.Others(Event(Reopen(seenLive), at))], seenLive)
  {
    var e := Event(Reopen(seenLive), at);
    var found := Run(start, log).row;
    RunExtends(start, log, Action.Others(e));
    assert (log + [Action.Others(e)])[..|log|] == log;
    if AnnouncedTruly(found) { AnnouncementKeptExactly(found, e); }
  }

  /** A call returns `Ended` only when the caller's copy was accepted. */
  lemma {:induction false} EndedOnlyIfAccepted(w: World, run: seq<Action>, id: CallId)
    requires Idle(w) && id in Run(w, run).calls
    requires
      var pc := Run(w, run).calls[id].pc;
      pc == Returned(CancelStarted.Ended) || Confirming(pc)
    ensures Run(w, run).calls[id].copy.AcceptedOnChain?
  {
    var n := |run| - 1;
    var before, a := run[..n], run[n];
    var found := Run(w, before);
    if a.Advance? && a.id in found.calls { AdvanceKeepsOthers(found, a.id, a.reply); }
    if id in found.calls && (found.calls[id].pc == Returned(CancelStarted.Ended) || Confirming(found.calls[id].pc)) {
      EndedOnlyIfAccepted(w, before, id);
    }
  }
}
