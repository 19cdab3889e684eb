/** The cancel retry's query, `get_cancelling_agreements`, and why no cancelling agreement starves. */
module CancelSweep {
  import opened Sql
  import opened Agreement
  import opened AgreementTable
  import opened CancelChecks

  const MINUTE: Time := 60_000_000
  const HOUR: Time := 60 * MINUTE

  datatype Query = Query(batch: nat, maxAttempts: u32, minAgeMinutes: int)

  predicate Eligible(row: Row, q: Query, now: Time) {
    && row.status.Cancelling?
    && Holds(Or(Some(row.cancelAttempts < ClampI32(q.maxAttempts)), Less(row.cancelCheckedAt, Some(now - HOUR))))
    && (row.cancelCheckedAt.Some? || row.updatedAt < now - q.minAgeMinutes * MINUTE)
  }

  /** What the query selects, in terms of what happened to the row: one being cancelled, under the
      failure limit or last looked at over an hour ago, and past the minimum age since its mark unless
      it has been looked at. */
  lemma {:induction false} EligibleExactly(row: Row, run: seq<Event>, q: Query, now: Time)
    requires Sound(row) && !Closing(row.status) && After(row, run).status.Cancelling?
    ensures Touched(row, run).Some?
    ensures
      var touched, failed := Touched(row, run).value, TotalFailed(History(row, run));
      Eligible(After(row, run), q, now)
      <==> && (failed < ClampI32(q.maxAttempts) || (LookedAt(row, run) && now - touched > 3_600_000_000))
           && (LookedAt(row, run) || now - touched > q.minAgeMinutes * 60_000_000)
  {
    ColumnsRefineHistory(row, run);
    BaseIsLastTouch(row, run);
    CheckedIsLookedAt(row, run);
  }

  /** Accepted, or past the offer deadline, which only an accepted one outlives. */
  predicate MayBePaying(row: Row, now: Time) {
    row.acceptedAt.Some? || row.deadline * 1_000_000 < now
  }

  function SortKey(row: Row, now: Time): Time {
    Base(row) - if MayBePaying(row, now) then HOUR else 0
  }

  predicate Before(a: Row, b: Row, now: Time) {
    SortKey(a, now) < SortKey(b, now) || (SortKey(a, now) == SortKey(b, now) && a.updatedAt < b.updatedAt)
  }

  ghost predicate Distinct(ids: seq<Id>) {
    forall i, j :: 0 <= i < j < |ids| ==> ids[i] != ids[j]
  }

  ghost predicate EligibleId(t: Table, q: Query, now: Time, id: Id) {
    id in t && Eligible(t[id], q, now)
  }

  ghost predicate Sorted(t: Table, now: Time, ids: seq<Id>) {
    && (forall i :: 0 <= i < |ids| ==> ids[i] in t)
    && (forall i, j :: 0 <= i < j < |ids| ==> !Before(t[ids[j]], t[ids[i]], now))
  }

  /** `ids` is an answer to the query: the first `batch` eligible rows in order, ties in any order. */
  ghost predicate Answers(t: Table, q: Query, now: Time, ids: seq<Id>) {
    && Distinct(ids) && Sorted(t, now, ids)
    && |ids| <= q.batch
    && (forall i :: 0 <= i < |ids| ==> EligibleId(t, q, now, ids[i]))
    && (forall id :: EligibleId(t, q, now, id) && id !in ids ==>
          |ids| == q.batch && forall i :: 0 <= i < |ids| ==> !Before(t[id], t[ids[i]], now))
  }

  /** An agreement that may be paying its indexer, accepted or past the offer deadline that only an
      accepted one outlives, has an hour's head start, and no more: it is answered before one that is
      neither, unless that one was touched over an hour earlier, and then the other way round. */
  lemma HeadStart(t: Table, q: Query, now: Time, ids: seq<Id>, paying: Id, other: Id)
    requires Answers(t, q, now, ids) && EligibleId(t, q, now, paying) && EligibleId(t, q, now, other)
    requires t[paying].acceptedAt.Some? || t[paying].deadline * 1_000_000 < now
    requires t[other].acceptedAt.None? && t[other].deadline * 1_000_000 >= now
    ensures Base(t[paying]) < Base(t[other]) + 3_600_000_000 && other in ids ==> ComesFirst(ids, paying, other)
    ensures Base(t[other]) + 3_600_000_000 < Base(t[paying]) && paying in ids ==> ComesFirst(ids, other, paying)
  {
    if Base(t[paying]) < Base(t[other]) + HOUR && other in ids { AnsweredFirst(t, q, now, ids, paying, other); }
    if Base(t[other]) + HOUR < Base(t[paying]) && paying in ids { AnsweredFirst(t, q, now, ids, other, paying); }
  }

  /** Of two that both may be paying, or that both are not, the one touched longer ago is answered
      first, and of two touched together the one marked longer ago. */
  lemma OldestFirst(t: Table, q: Query, now: Time, ids: seq<Id>, a: Id, b: Id)
    requires Answers(t, q, now, ids) && EligibleId(t, q, now, a) && b in ids
    requires (t[a].acceptedAt.Some? || t[a].deadline * 1_000_000 < now)
             == (t[b].acceptedAt.Some? || t[b].deadline * 1_000_000 < now)
    requires Base(t[a]) < Base(t[b]) || (Base(t[a]) == Base(t[b]) && t[a].updatedAt < t[b].updatedAt)
    ensures ComesFirst(ids, a, b)
  {
    AnsweredFirst(t, q, now, ids, a, b);
  }

  ghost predicate ComesFirst(ids: seq<Id>, a: Id, b: Id) {
    exists i, j :: 0 <= i < j < |ids| && ids[i] == a && ids[j] == b
  }

  lemma AnsweredFirst(t: Table, q: Query, now: Time, ids: seq<Id>, a: Id, b: Id)
    requires Answers(t, q, now, ids) && EligibleId(t, q, now, a) && b in ids && b in t && Before(t[a], t[b], now)
    ensures ComesFirst(ids, a, b)
  {
    var j :| 0 <= j < |ids| && ids[j] == b;
    assert a in ids;
    var i :| 0 <= i < |ids| && ids[i] == a;
    assert i < j;
  }

  // ----- An answer always exists -----

  lemma {:induction false} FirstExists(t: Table, now: Time, s: set<Id>) returns (first: Id)
    requires s != {} && s <= t.Keys
    ensures first in s
    ensures forall id :: id in s ==> !Before(t[id], t[first], now)
    decreases |s|
  {
    first :| first in s;
    var rest := s - {first};
    assert s == rest + {first};
    if rest != {} {
      var other := FirstExists(t, now, rest);
      if Before(t[other], t[first], now) { first := other; }
    }
  }

  lemma {:induction false} ListInOrder(t: Table, now: Time, s: set<Id>) returns (ids: seq<Id>)
    requires s <= t.Keys
    ensures Distinct(ids) && Sorted(t, now, ids)
    ensures forall id :: id in ids <==> id in s
    decreases |s|
  {
    if s == {} { return []; }
    var first := FirstExists(t, now, s);
    var rest := ListInOrder(t, now, s - {first});
    ids := [first] + rest;
    forall j | 0 < j < |ids| ensures ids[j] in s && ids[j] != first {
      assert ids[j] == rest[j - 1] && rest[j - 1] in rest;
    }
  }

  lemma AnswerExists(t: Table, q: Query, now: Time)
    ensures exists ids :: Answers(t, q, now, ids)
  {
    var all := ListInOrder(t, now, set id | id in t && Eligible(t[id], q, now));
    var ids := if |all| <= q.batch then all else all[..q.batch];
    forall id | EligibleId(t, q, now, id) && id !in ids
      ensures |ids| == q.batch && forall i :: 0 <= i < |ids| ==> !Before(t[id], t[ids[i]], now)
    {
      assert id in all;
      var k :| 0 <= k < |all| && all[k] == id;
    }
    forall i | 0 <= i < |ids| ensures EligibleId(t, q, now, ids[i]) { assert all[i] in all; }
    assert Answers(t, q, now, ids);
  }

  lemma Members(ids: seq<Id>)
    requires Distinct(ids)
    ensures |set id | id in ids| == |ids|
  {
    DistinctCount(ids, |ids|);
    assert (set id | id in ids) == set k | 0 <= k < |ids| :: ids[k];
  }

  /** An answer lists every eligible agreement, or as many as the limit allows. */
  lemma AnswerIsFull(t: Table, q: Query, now: Time, ids: seq<Id>)
    requires Answers(t, q, now, ids)
    ensures
      var eligible := |set id | id in t && Eligible(t[id], q, now)|;
      |ids| == if eligible <= q.batch then eligible else q.batch
  {
    var all, listed := set id | id in t && Eligible(t[id], q, now), set id | id in ids;
    Members(ids);
    forall id | id in listed ensures id in all {
      var i :| 0 <= i < |ids| && ids[i] == id;
      assert EligibleId(t, q, now, ids[i]);
    }
    SubsetCount(listed, all);
    if id :| id in all && id !in listed {
      assert EligibleId(t, q, now, id);
    } else {
      assert listed == all;
    }
  }

  // ----- Sweeps -----

  /** One sweep: when it asked, the answer, how many of those agreements it got through before its
      time ran out, and every write to the table until the next sweep asks. */
  datatype Sweep = Sweep(at: Time, answer: seq<Id>, taken: nat, writes: seq<TableWrite>)

  function Stamp(w: TableWrite): Time {
    match w
    case On(_, _, at) => at
    case Register(_, _, _, at) => at
    case Batch(_, at) => at
  }

  /** Some write checked the agreement, or left it no longer cancelling. */
  ghost predicate DealtWith(t: Table, writes: seq<TableWrite>, id: Id) {
    exists i :: 0 <= i < |writes| && DealsWith(TableAfter(t, writes[..i]), writes[i], id)
  }

  ghost predicate DealsWith(t: Table, w: TableWrite, id: Id) {
    id in t && (|| (w.On? && w.id == id && w.write.RecordCheck?)
                || !TableStep(t, w)[id].status.Cancelling?)
  }

  /** The sweep gets through at least `pace` of its agreements, or all of them. */
  ghost predicate SweepRuns(t: Table, q: Query, pace: nat, s: Sweep) {
    && Answers(t, q, s.at, s.answer)
    && s.taken <= |s.answer| && (s.taken >= pace || s.taken == |s.answer|)
    && (forall i :: 0 <= i < |s.writes| ==> Stamp(s.writes[i]) >= s.at)
    && (forall k :: 0 <= k < s.taken ==> DealtWith(t, s.writes, s.answer[k]))
  }

  /** Sweeps one after another, each finding the table as the writes since the last one left it. */
  ghost predicate SweepsRun(t: Table, q: Query, pace: nat, sweeps: seq<Sweep>)
    decreases |sweeps|
  {
    sweeps != [] ==>
      && SweepRuns(t, q, pace, sweeps[0])
      && (|sweeps| > 1 ==> sweeps[0].at <= sweeps[1].at)
      && SweepsRun(TableAfter(t, sweeps[0].writes), q, pace, sweeps[1..])
  }

  /** Some sweep gets through the agreement, or finds it touched since it was `row`. */
  ghost predicate GotTo(t: Table, sweeps: seq<Sweep>, id: Id, row: Row)
    decreases |sweeps|
  {
    sweeps != [] &&
    (|| id in Taken(sweeps[0])
     || !Untouched(t, id, row)
     || GotTo(TableAfter(t, sweeps[0].writes), sweeps[1..], id, row))
  }

  function Taken(s: Sweep): seq<Id> {
    if s.taken <= |s.answer| then s.answer[..s.taken] else s.answer
  }

  /** Still cancelling, not checked or marked again since it was `row`. */
  ghost predicate Untouched(t: Table, id: Id, row: Row) {
    && id in t && t[id].status.Cancelling?
    && t[id].cancelCheckedAt == row.cancelCheckedAt && t[id].updatedAt == row.updatedAt
  }

  // ----- The agreements that can still go first -----

  /** The cancelling agreements other than `id` last touched no later than `cut`. */
  function Ahead(t: Table, id: Id, cut: Time): set<Id> {
    set p | p in t && p != id && t[p].status.Cancelling? && Base(t[p]) <= cut
  }

  ghost predicate SoundTable(t: Table) {
    forall id :: id in t ==> Sound(t[id])
  }

  /** No write after `cut` puts a row among those touched no later than `cut`. */
  lemma NoneJoins(row: Row, e: Event, cut: Time)
    requires Sound(row) && e.at > cut
    requires Step(row, e).status.Cancelling? && Base(Step(row, e)) <= cut
    ensures row.status.Cancelling? && Base(row) == Base(Step(row, e))
  {
    if Enters(row, e) {
      EnteringClearsChecks(row, e);
    } else if !Checks(row, e) {
      OtherWritesKeepChecks(row, e);
    }
  }

  /** What one table write does to a row is nothing, or one write to it, stamped the same. */
  lemma StepIsRowStep(t: Table, w: TableWrite, id: Id) returns (e: Option<Event>)
    requires id in t
    ensures id in TableStep(t, w)
    ensures e.None? ==> TableStep(t, w)[id] == t[id]
    ensures e.Some? ==> e.value.at == Stamp(w) && TableStep(t, w)[id] == Step(t[id], e.value)
  {
    var events := ProjectStep(t, w, id);
    StepProjects(t, w, id);
    if events == [] {
      e := None;
    } else {
      assert events[..0] == [];
      e := Some(events[0]);
    }
  }

  lemma SoundTableStep(t: Table, w: TableWrite)
    requires SoundTable(t)
    ensures SoundTable(TableStep(t, w))
  {
    forall id | id in TableStep(t, w) ensures Sound(TableStep(t, w)[id]) {
      if id in t {
        var e := StepIsRowStep(t, w, id);
        if e.Some? { SoundStep(t[id], e.value); }
      }
    }
  }

  lemma AheadStep(t: Table, w: TableWrite, id: Id, cut: Time)
    requires SoundTable(t) && Stamp(w) > cut
    ensures Ahead(TableStep(t, w), id, cut) <= Ahead(t, id, cut)
  {
    forall p | p in Ahead(TableStep(t, w), id, cut) ensures p in Ahead(t, id, cut) {
      if p in t {
        var e := StepIsRowStep(t, w, p);
        if e.Some? { NoneJoins(t[p], e.value, cut); }
      }
    }
  }

  /** Every table built up from nothing is sound. */
  lemma {:induction false} ReachableIsSound(run: seq<TableWrite>)
    ensures SoundTable(TableAfter(map[], run))
  {
    if run != [] {
      ReachableIsSound(run[..|run| - 1]);
      SoundTableStep(TableAfter(map[], run[..|run| - 1]), run[|run| - 1]);
    }
  }

  ghost predicate StampedAfter(writes: seq<TableWrite>, cut: Time) {
    forall i :: 0 <= i < |writes| ==> Stamp(writes[i]) > cut
  }

  lemma {:induction false} SoundTableRun(t: Table, writes: seq<TableWrite>)
    requires SoundTable(t)
    ensures SoundTable(TableAfter(t, writes))
  {
    if writes != [] {
      SoundTableRun(t, writes[..|writes| - 1]);
      SoundTableStep(TableAfter(t, writes[..|writes| - 1]), writes[|writes| - 1]);
    }
  }

  lemma AheadLast(t: Table, writes: seq<TableWrite>, id: Id, cut: Time)
    requires SoundTable(t) && StampedAfter(writes, cut) && writes != []
    ensures Ahead(TableAfter(t, writes), id, cut) <= Ahead(TableAfter(t, writes[..|writes| - 1]), id, cut)
  {
    SoundTableRun(t, writes[..|writes| - 1]);
    AheadStep(TableAfter(t, writes[..|writes| - 1]), writes[|writes| - 1], id, cut);
  }

  lemma {:induction false} AheadShrinks(t: Table, writes: seq<TableWrite>, n: nat, id: Id, cut: Time)
    requires SoundTable(t) && StampedAfter(writes, cut) && n <= |writes|
    ensures SoundTable(TableAfter(t, writes[..n]))
    ensures Ahead(TableAfter(t, writes), id, cut) <= Ahead(TableAfter(t, writes[..n]), id, cut)
    decreases |writes|
  {
    SoundTableRun(t, writes[..n]);
    if n == |writes| {
      assert writes[..n] == writes;
    } else {
      var before := writes[..|writes| - 1];
      AheadLast(t, writes, id, cut);
      AheadShrinks(t, before, n, id, cut);
      assert before[..n] == writes[..n];
    }
  }

  lemma DealingLeaves(t: Table, w: TableWrite, p: Id, id: Id, cut: Time)
    requires SoundTable(t) && Stamp(w) > cut && DealsWith(t, w, p)
    ensures p !in Ahead(TableStep(t, w), id, cut)
  {
    if p in Ahead(TableStep(t, w), id, cut) {
      NoneJoins(t[p], Event(w.write, w.at), cut);
    }
  }

  lemma DealingLeavesAt(t: Table, writes: seq<TableWrite>, i: nat, p: Id, id: Id, cut: Time)
    requires SoundTable(t) && StampedAfter(writes, cut)
    requires i < |writes| && DealsWith(TableAfter(t, writes[..i]), writes[i], p)
    ensures p !in Ahead(TableAfter(t, writes[..i + 1]), id, cut)
  {
    SoundTableRun(t, writes[..i]);
    DealingLeaves(TableAfter(t, writes[..i]), writes[i], p, id, cut);
    assert writes[..i + 1] == writes[..i] + [writes[i]];
    TableAfterNext(t, writes[..i], writes[i]);
  }

  /** An agreement dealt with is no longer ahead. */
  lemma DealtWithLeaves(t: Table, writes: seq<TableWrite>, p: Id, id: Id, cut: Time)
    requires SoundTable(t) && StampedAfter(writes, cut) && DealtWith(t, writes, p)
    ensures p !in Ahead(TableAfter(t, writes), id, cut)
  {
    var i :| 0 <= i < |writes| && DealsWith(TableAfter(t, writes[..i]), writes[i], p);
    DealingLeavesAt(t, writes, i, p, id, cut);
    AheadShrinks(t, writes, i + 1, id, cut);
  }

  // ----- No starvation -----

  /** Unchecked for over an hour and, if never checked, past the minimum age. */
  predicate Overdue(row: Row, q: Query, now: Time) {
    && row.status.Cancelling?
    && Base(row) < now - HOUR
    && (row.cancelCheckedAt.Some? || row.updatedAt < now - q.minAgeMinutes * MINUTE)
  }

  lemma OverdueIsEligible(row: Row, q: Query, now: Time)
    requires Sound(row) && Overdue(row, q, now) && q.maxAttempts >= 1
    ensures Eligible(row, q, now)
  {}

  /** Whatever goes before a row in the order was last touched within an hour after it, at most. */
  lemma OnlyAheadGoFirst(p: Row, r: Row, now: Time)
    requires !Before(r, p, now)
    ensures Base(p) <= Base(r) + HOUR
  {}

  /** A sweep that does not get to `id` gets through `pace` agreements that were ahead of it. */
  lemma TakenWereAhead(t: Table, q: Query, pace: nat, s: Sweep, id: Id)
    requires SweepRuns(t, q, pace, s) && EligibleId(t, q, s.at, id)
    requires pace <= q.batch && id !in Taken(s)
    ensures s.taken >= pace
    ensures forall k :: 0 <= k < s.taken ==> s.answer[k] in Ahead(t, id, Base(t[id]) + HOUR)
  {
    forall k | 0 <= k < s.taken
      ensures s.answer[k] in Ahead(t, id, Base(t[id]) + HOUR)
    {
      var p := s.answer[k];
      assert p in Taken(s);
      assert EligibleId(t, q, s.at, p);
      if id in s.answer {
        var j :| 0 <= j < |s.answer| && s.answer[j] == id;
        assert j >= s.taken;
      }
      OnlyAheadGoFirst(t[p], t[id], s.at);
    }
    if s.taken == |s.answer| { assert Taken(s) == s.answer; }
  }

  lemma {:induction false} DistinctCount(ids: seq<Id>, n: nat)
    requires Distinct(ids) && n <= |ids|
    ensures |set k | 0 <= k < n :: ids[k]| == n
  {
    if n > 0 {
      DistinctCount(ids, n - 1);
      assert (set k | 0 <= k < n :: ids[k]) == (set k | 0 <= k < n - 1 :: ids[k]) + {ids[n - 1]};
    }
  }

  /** So the number ahead drops by at least `pace`. */
  lemma SweepProgress(t: Table, q: Query, pace: nat, s: Sweep, id: Id)
    requires SoundTable(t) && SweepRuns(t, q, pace, s) && pace <= q.batch
    requires EligibleId(t, q, s.at, id) && Base(t[id]) + HOUR < s.at
    requires id !in Taken(s)
    ensures |Ahead(TableAfter(t, s.writes), id, Base(t[id]) + HOUR)| + pace <= |Ahead(t, id, Base(t[id]) + HOUR)|
  {
    var cut := Base(t[id]) + HOUR;
    var was, left := Ahead(t, id, cut), Ahead(TableAfter(t, s.writes), id, cut);
    var done := set k | 0 <= k < s.taken :: s.answer[k];
    TakenWereAhead(t, q, pace, s, id);
    DistinctCount(s.answer, s.taken);
    AheadShrinks(t, s.writes, 0, id, cut);
    forall p | p in done ensures p !in left {
      DealtWithLeaves(t, s.writes, p, id, cut);
    }
    assert left <= was - done;
    SubsetCount(left, was - done);
  }

  lemma {:induction false} SubsetCount<T>(a: set<T>, b: set<T>)
    requires a <= b
    ensures |a| <= |b|
  {
    if a != {} {
      var x :| x in a;
      SubsetCount(a - {x}, b - {x});
    }
  }

  lemma OneFewer(n: nat, pace: nat)
    requires n > 0
    ensures n * pace == (n - 1) * pace + pace
    ensures n == 1 ==> n * pace == pace
  {}

  lemma Quotient(k: nat, pace: nat)
    requires pace > 0
    ensures k < (k / pace + 1) * pace
  {}

  lemma UntouchedIsEligible(t: Table, q: Query, now: Time, id: Id, row: Row)
    requires SoundTable(t) && Untouched(t, id, row) && Overdue(row, q, now) && q.maxAttempts >= 1
    ensures EligibleId(t, q, now, id) && Base(t[id]) == Base(row) && Base(row) + HOUR < now
  {
    OverdueIsEligible(t[id], q, now);
  }

  /** A sweep that does not get to an overdue agreement, untouched so far, leaves `pace` fewer ahead. */
  lemma OneSweep(t: Table, q: Query, pace: nat, s: Sweep, id: Id, row: Row)
    requires SoundTable(t) && SweepRuns(t, q, pace, s) && pace <= q.batch && q.maxAttempts >= 1
    requires id !in Taken(s) && Untouched(t, id, row) && Overdue(row, q, s.at)
    ensures |Ahead(TableAfter(t, s.writes), id, Base(row) + HOUR)| + pace <= |Ahead(t, id, Base(row) + HOUR)|
  {
    UntouchedIsEligible(t, q, s.at, id, row);
    SweepProgress(t, q, pace, s, id);
  }

  lemma {:induction false} DrainsBeforeIt(t: Table, q: Query, pace: nat, sweeps: seq<Sweep>, id: Id, row: Row)
    requires SoundTable(t) && SweepsRun(t, q, pace, sweeps) && pace <= q.batch && q.maxAttempts >= 1
    requires id in t && |Ahead(t, id, Base(row) + HOUR)| < |sweeps| * pace
    requires Overdue(row, q, sweeps[0].at)
    ensures GotTo(t, sweeps, id, row)
    decreases |sweeps|
  {
    var s, rest := sweeps[0], sweeps[1..];
    if id !in Taken(s) && Untouched(t, id, row) {
      OneSweep(t, q, pace, s, id, row);
      SoundTableRun(t, s.writes);
      RunProjects(t, s.writes, id);
      OneFewer(|sweeps|, pace);
      DrainsBeforeIt(TableAfter(t, s.writes), q, pace, rest, id, row);
    }
  }

  /** No starvation: an overdue agreement with `k` agreements ahead of it is got to within
      `k / pace + 1` sweeps, unless someone else checks or ends it first. */
  lemma {:induction false} NoStarvation(t: Table, q: Query, pace: nat, sweeps: seq<Sweep>, id: Id)
    requires SoundTable(t) && SweepsRun(t, q, pace, sweeps) && 1 <= pace <= q.batch && q.maxAttempts >= 1
    requires id in t && |sweeps| == |Ahead(t, id, Base(t[id]) + HOUR)| / pace + 1
    requires Overdue(t[id], q, sweeps[0].at)
    ensures GotTo(t, sweeps, id, t[id])
  {
    var k := |Ahead(t, id, Base(t[id]) + HOUR)|;
    Quotient(k, pace);
    DrainsBeforeIt(t, q, pace, sweeps, id, t[id]);
  }
}
