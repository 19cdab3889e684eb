/** The job queue as the database sees it: the committed rows, and the open transactions that each
    hold one job locked. A run is any sequence of pushes, pops and guards finishing, by any workers. */
module JobQueue {
  import opened Sql

  type JobId = nat
  type Time = int

  /** An open transaction, which is a `JobGuard` not yet consumed or dropped. */
  type Guard = nat

  datatype Status = Queued | Running | Failed

  datatype Job = Job(
    createdAt: Time,
    scheduledFor: Time,
    status: Status,
    maxAttempts: int,
    attemptCount: int,
    priority: int)

  /** The job an open transaction has locked, and that job's row as the transaction has written it,
      which nobody else sees until it commits. */
  datatype Tx = Tx(id: JobId, job: Job)

  /** The committed rows and the open transactions. */
  datatype Queue = Queue(jobs: map<JobId, Job>, held: map<Guard, Tx>)

  /** How a guard ends: its job removed, failed, deferred, or the guard dropped, by a crash or an
      error too, which rolls its transaction back. */
  datatype Finish = Remove | Fail(retryAt: Time) | Defer(runAt: Time) | Drop

  datatype Action =
    | Push(id: JobId, maxAttempts: int, priority: int, createdAt: Time, scheduledFor: Time)
    | Pop(guard: Guard, now: Time, got: Option<JobId>)
    | End(done: Guard, how: Finish)

  /** `value.saturating_add(1).try_into().unwrap_or(i32::MAX)`. */
  function MaxAttempts(retries: u32): int {
    var attempts: u32 := if retries < U32_MAX then retries + 1 else U32_MAX;
    ClampI32(attempts)
  }

  /** `requeue`: a counted failure goes `Failed` at `max_attempts`; a deferral never does. */
  function Requeued(job: Job, at: Time, count: bool): Job {
    var increment := if count then 1 else 0;
    job.(attemptCount := job.attemptCount + increment,
         status := if count && job.attemptCount + 1 >= job.maxAttempts then Failed else Queued,
         scheduledFor := if !count || job.attemptCount + 1 < job.maxAttempts then at else job.scheduledFor)
  }

  // ----- Popping -----

  ghost predicate Locked(q: Queue, id: JobId) {
    exists g :: g in q.held && q.held[g].id == id
  }

  /** Queued, due, and in no other transaction's hands. */
  ghost predicate Ready(q: Queue, now: Time, id: JobId) {
    id in q.jobs && q.jobs[id].status.Queued? && q.jobs[id].scheduledFor <= now && !Locked(q, id)
  }

  /** `ORDER BY priority DESC, created_at, id`. */
  predicate Precedes(a: Job, aId: JobId, b: Job, bId: JobId) {
    || a.priority > b.priority
    || (a.priority == b.priority && (a.createdAt < b.createdAt || (a.createdAt == b.createdAt && aId < bId)))
  }

  /** What `pop` may answer: the ready job that precedes every other, or none if none is ready. */
  ghost predicate Pops(q: Queue, now: Time, got: Option<JobId>) {
    match got
    case None => forall id :: !Ready(q, now, id)
    case Some(p) => Ready(q, now, p) && forall id :: Ready(q, now, id) && id != p ==> Precedes(q.jobs[p], p, q.jobs[id], id)
  }

  // ----- Runs -----

  /** Popping writes the row `Running`, inside the transaction. */
  function Started(job: Job): Job {
    job.(status := Running)
  }

  /** What an ending transaction commits is its own row, as its last statement left it. */
  function Ended(q: Queue, g: Guard, how: Finish): Queue
    requires g in q.held
  {
    var tx := q.held[g];
    var free := q.(held := q.held - {g});
    match how
    case Remove => free.(jobs := q.jobs - {tx.id})
    case Fail(at) => free.(jobs := q.jobs[tx.id := Requeued(tx.job, at, true)])
    case Defer(at) => free.(jobs := q.jobs[tx.id := Requeued(tx.job, at, false)])
    case Drop => free
  }

  function Act(q: Queue, a: Action): Queue {
    match a
    case Push(id, max, priority, createdAt, scheduledFor) =>
      if id in q.jobs then q
      else q.(jobs := q.jobs[id := Job(createdAt, scheduledFor, Queued, max, 0, priority)])
    case Pop(g, _, got) =>
      if got.Some? && got.value in q.jobs && g !in q.held
      then q.(held := q.held[g := Tx(got.value, Started(q.jobs[got.value]))])
      else q
    case End(g, how) => if g in q.held then Ended(q, g, how) else q
  }

  /** Jobs get the attempts the builder gives them, and every pop answers as the query does. */
  ghost predicate Legal(q: Queue, a: Action) {
    match a
    case Push(_, max, _, _, _) => 1 <= max <= I32_MAX
    case Pop(g, now, got) => g !in q.held && Pops(q, now, got)
    case End(g, _) => g in q.held
  }

  function Run(q: Queue, run: seq<Action>): Queue {
    if run == [] then q else Act(Run(q, run[..|run| - 1]), run[|run| - 1])
  }

  ghost predicate LegalRun(q: Queue, run: seq<Action>) {
    forall i :: 0 <= i < |run| ==> Legal(Run(q, run[..i]), run[i])
  }

  lemma LegalPrefix(q: Queue, run: seq<Action>)
    requires run != [] && LegalRun(q, run)
    ensures LegalRun(q, run[..|run| - 1]) && Legal(Run(q, run[..|run| - 1]), run[|run| - 1])
  {
    var before := run[..|run| - 1];
    forall i | 0 <= i < |before| ensures Legal(Run(q, before[..i]), before[i]) {
      assert before[..i] == run[..i];
    }
  }

  const EMPTY := Queue(map[], map[])

  // ----- Ownership -----

  /** No two guards hold one job, what a guard holds is a queued row that it alone sees running, no
      committed row is `Running`, and a row is failed for good exactly when its attempts are used up. */
  ghost predicate Owned(q: Queue) {
    && (forall g, h :: g in q.held && h in q.held && q.held[g].id == q.held[h].id ==> g == h)
    && (forall g :: g in q.held ==> Mirrors(q, q.held[g]))
    && (forall id :: id in q.jobs ==> Counted(q.jobs[id]))
  }

  /** The transaction's row is the committed one but for being `Running`. */
  predicate Mirrors(q: Queue, tx: Tx) {
    tx.id in q.jobs && q.jobs[tx.id].status.Queued? && tx.job == Started(q.jobs[tx.id])
  }

  predicate Counted(job: Job) {
    && !job.status.Running?
    && 0 <= job.attemptCount <= job.maxAttempts <= I32_MAX
    && (job.status.Failed? <==> job.attemptCount == job.maxAttempts)
  }

  /** Either arm of `requeue` overwrites the `Running` its transaction would otherwise commit. */
  lemma RequeuedIsCounted(job: Job, at: Time, count: bool)
    requires Counted(job) && job.status.Queued?
    ensures Counted(Requeued(Started(job), at, count))
  {}

  lemma EndKeepsOwned(q: Queue, g: Guard, how: Finish)
    requires Owned(q) && g in q.held
    ensures Owned(Ended(q, g, how))
  {
    var tx := q.held[g];
    assert Mirrors(q, tx);
    match how
    case Fail(at) => RequeuedIsCounted(q.jobs[tx.id], at, true);
    case Defer(at) => RequeuedIsCounted(q.jobs[tx.id], at, false);
    case _ =>
  }

  lemma OwnedStep(q: Queue, a: Action)
    requires Owned(q) && Legal(q, a)
    ensures Owned(Act(q, a))
  {
    match a
    case Pop(g, now, got) =>
      if got.Some? {
        assert Ready(q, now, got.value);
        forall h | h in q.held ensures q.held[h].id != got.value { assert !Locked(q, got.value); }
      }
    case End(g, how) => EndKeepsOwned(q, g, how);
    case _ =>
  }

  /** Over any interleaving of workers, crashes and dropped guards. */
  lemma {:induction false} AlwaysOwned(run: seq<Action>)
    requires LegalRun(EMPTY, run)
    ensures Owned(Run(EMPTY, run))
  {
    if run != [] {
      LegalPrefix(EMPTY, run);
      AlwaysOwned(run[..|run| - 1]);
      OwnedStep(Run(EMPTY, run[..|run| - 1]), run[|run| - 1]);
    }
  }

  // ----- Durability -----

  /** The step removes the job, and by a guard that holds it. */
  ghost predicate RemovesAt(q: Queue, run: seq<Action>, id: JobId, k: nat)
    requires k < |run|
  {
    var found := Run(q, run[..k]);
    run[k].End? && run[k].how.Remove? && run[k].done in found.held && found.held[run[k].done].id == id
  }

  ghost predicate PushesAt(run: seq<Action>, id: JobId, k: nat)
    requires k < |run|
  {
    run[k].Push? && run[k].id == id
  }

  lemma LeavesOnlyByRemove(q: Queue, a: Action, id: JobId)
    requires id in q.jobs && id !in Act(q, a).jobs
    ensures a.End? && a.how.Remove? && a.done in q.held && q.held[a.done].id == id
  {}

  lemma RemovesInPrefix(q: Queue, run: seq<Action>, n: nat, id: JobId, m: nat)
    requires m < n <= |run|
    ensures RemovesAt(q, run[..n], id, m) == RemovesAt(q, run, id, m)
  {
    assert run[..n][..m] == run[..m];
  }

  lemma {:induction false} StaysUntilRemoved(q: Queue, run: seq<Action>, id: JobId, k: nat)
    requires k < |run| && PushesAt(run, id, k)
    ensures id in Run(q, run).jobs || exists m :: k < m < |run| && RemovesAt(q, run, id, m)
  {
    var n := |run| - 1;
    var before := run[..n];
    if k < n {
      StaysUntilRemoved(q, before, id, k);
      if id in Run(q, before).jobs {
        if id !in Run(q, run).jobs {
          LeavesOnlyByRemove(Run(q, before), run[n], id);
          assert RemovesAt(q, run, id, n);
        }
      } else {
        var m :| k < m < |before| && RemovesAt(q, before, id, m);
        RemovesInPrefix(q, run, n, id, m);
      }
    }
  }

  /** A job once pushed is in the table, queued or failed for good, unless a worker that held it
      removed it since. */
  lemma {:induction false} NoJobIsLost(q: Queue, run: seq<Action>, id: JobId, k: nat)
    requires Owned(q) && LegalRun(q, run) && k < |run| && PushesAt(run, id, k)
    ensures (id in Run(q, run).jobs && !Run(q, run).jobs[id].status.Running?)
            || exists m :: k < m < |run| && RemovesAt(q, run, id, m)
  {
    StaysUntilRemoved(q, run, id, k);
    OwnedRun(q, run);
  }

  lemma {:induction false} OwnedRun(q: Queue, run: seq<Action>)
    requires Owned(q) && LegalRun(q, run)
    ensures Owned(Run(q, run))
  {
    if run != [] {
      LegalPrefix(q, run);
      OwnedRun(q, run[..|run| - 1]);
      OwnedStep(Run(q, run[..|run| - 1]), run[|run| - 1]);
    }
  }

  // ----- Attempts -----

  predicate Fails(q: Queue, a: Action, id: JobId) {
    a.End? && a.how.Fail? && a.done in q.held && q.held[a.done].id == id
  }

  /** Failures counted against a job, however many deferrals and drops came between. */
  function Failures(q: Queue, run: seq<Action>, id: JobId): nat {
    if run == [] then 0
    else
      var before := run[..|run| - 1];
      Failures(q, before, id) + if Fails(Run(q, before), run[|run| - 1], id) then 1 else 0
  }

  ghost predicate NotRemoved(q: Queue, run: seq<Action>, id: JobId) {
    forall m :: 0 <= m < |run| ==> !RemovesAt(q, run, id, m)
  }

  lemma NotRemovedPrefix(q: Queue, run: seq<Action>, id: JobId)
    requires run != [] && NotRemoved(q, run, id)
    ensures NotRemoved(q, run[..|run| - 1], id)
    ensures !RemovesAt(q, run, id, |run| - 1)
  {
    var before := run[..|run| - 1];
    forall m | 0 <= m < |before| ensures !RemovesAt(q, before, id, m) {
      RemovesInPrefix(q, run, |run| - 1, id, m);
    }
  }

  lemma CountStep(q: Queue, a: Action, id: JobId)
    requires Owned(q) && id in q.jobs && !(a.End? && a.how.Remove? && a.done in q.held && q.held[a.done].id == id)
    ensures id in Act(q, a).jobs && Act(q, a).jobs[id].maxAttempts == q.jobs[id].maxAttempts
    ensures Act(q, a).jobs[id].attemptCount == q.jobs[id].attemptCount + if Fails(q, a, id) then 1 else 0
    ensures Act(q, a).jobs[id].priority == q.jobs[id].priority && Act(q, a).jobs[id].createdAt == q.jobs[id].createdAt
  {
    if a.End? && a.done in q.held { assert Mirrors(q, q.held[a.done]); }
  }

  /** Its count goes up by its failures alone, and its place in line never changes, however often it
      is deferred or fails. */
  lemma {:induction false} CountsFailures(q: Queue, run: seq<Action>, id: JobId)
    requires Owned(q) && LegalRun(q, run) && id in q.jobs && NotRemoved(q, run, id)
    ensures id in Run(q, run).jobs && Run(q, run).jobs[id].maxAttempts == q.jobs[id].maxAttempts
    ensures Run(q, run).jobs[id].attemptCount == q.jobs[id].attemptCount + Failures(q, run, id)
    ensures Run(q, run).jobs[id].priority == q.jobs[id].priority && Run(q, run).jobs[id].createdAt == q.jobs[id].createdAt
  {
    if run != [] {
      NotRemovedPrefix(q, run, id);
      LegalPrefix(q, run);
      CountsFailures(q, run[..|run| - 1], id);
      OwnedRun(q, run[..|run| - 1]);
      CountStep(Run(q, run[..|run| - 1]), run[|run| - 1], id);
    }
  }

  /** A job's count is the failures counted since it was pushed, and it is failed for good exactly
      when they reach what it was pushed with. */
  lemma {:induction false} FailsOnTheLastAttempt(q: Queue, run: seq<Action>, id: JobId)
    requires Owned(q) && LegalRun(q, run) && id in q.jobs && NotRemoved(q, run, id)
    ensures id in Run(q, run).jobs
    ensures
      var was, job := q.jobs[id], Run(q, run).jobs[id];
      && job.maxAttempts == was.maxAttempts
      && job.attemptCount == was.attemptCount + Failures(q, run, id)
      && (job.status.Failed? <==> was.attemptCount + Failures(q, run, id) == was.maxAttempts)
      && was.attemptCount + Failures(q, run, id) <= was.maxAttempts
  {
    CountsFailures(q, run, id);
    OwnedRun(q, run);
  }

  /** A job built with `max_retries = k` fails for good on exactly its (k+1)-th counted failure,
      capped at what fits the column. */
  lemma {:induction false} RetriesAsAsked(q: Queue, id: JobId, retries: u32, priority: int, at: Time, due: Time, run: seq<Action>)
    requires Owned(q) && id !in q.jobs
    requires
      var pushed := Act(q, Push(id, MaxAttempts(retries), priority, at, due));
      LegalRun(pushed, run) && NotRemoved(pushed, run, id)
    ensures
      var pushed := Act(q, Push(id, MaxAttempts(retries), priority, at, due));
      var limit := if retries < I32_MAX then retries + 1 else I32_MAX;
      && id in Run(pushed, run).jobs
      && Failures(pushed, run, id) <= limit
      && (Run(pushed, run).jobs[id].status.Failed? <==> Failures(pushed, run, id) == limit)
  {
    var push := Push(id, MaxAttempts(retries), priority, at, due);
    OwnedStep(q, push);
    FailsOnTheLastAttempt(Act(q, push), run, id);
  }

  // ----- No overtaking -----

  /** While a job waits ready, whatever is popped had its place before it when the job was pushed or
      took one before it since: never a job of lower priority, nor one of equal priority later in
      line, whatever either went through before. */
  lemma {:induction false} NoOvertaking(q: Queue, run: seq<Action>, id: JobId, a: Action)
    requires Owned(q) && LegalRun(q, run) && id in q.jobs && NotRemoved(q, run, id)
    requires Legal(Run(q, run), a) && a.Pop? && Ready(Run(q, run), a.now, id)
    ensures a.got.Some?
    ensures
      var popped, job := Run(q, run).jobs[a.got.value], q.jobs[id];
      || a.got.value == id
      || popped.priority > job.priority
      || (popped.priority == job.priority && popped.createdAt < job.createdAt)
      || (popped.priority == job.priority && popped.createdAt == job.createdAt && a.got.value < id)
  {
    CountsFailures(q, run, id);
  }

  /** The job was pushed at step `k` of the run, and at no other. */
  ghost predicate PushedOnceAt(q: Queue, run: seq<Action>, id: JobId, k: nat) {
    && id !in q.jobs && k < |run| && PushesAt(run, id, k)
    && forall m :: 0 <= m < |run| && PushesAt(run, id, m) ==> m == k
  }

  lemma JoinsOnlyByPush(q: Queue, a: Action, id: JobId)
    requires Owned(q) && id !in q.jobs
    ensures id in Act(q, a).jobs ==>
              && a.Push? && a.id == id
              && Act(q, a).jobs[id].priority == a.priority && Act(q, a).jobs[id].createdAt == a.createdAt
  {
    if a.End? && a.done in q.held { assert Mirrors(q, q.held[a.done]); }
  }

  lemma {:induction false} PlaceFromPush(q: Queue, run: seq<Action>, id: JobId)
    requires Owned(q) && LegalRun(q, run) && id !in q.jobs && id in Run(q, run).jobs
    requires forall i, j :: 0 <= i < |run| && 0 <= j < |run| && PushesAt(run, id, i) && PushesAt(run, id, j) ==> i == j
    ensures exists k :: 0 <= k < |run| && PushesAt(run, id, k)
              && Run(q, run).jobs[id].priority == run[k].priority && Run(q, run).jobs[id].createdAt == run[k].createdAt
  {
    var n := |run| - 1;
    var before := run[..n];
    assert forall m :: 0 <= m < n && PushesAt(before, id, m) ==> PushesAt(run, id, m);
    LegalPrefix(q, run);
    OwnedRun(q, before);
    if id in Run(q, before).jobs {
      PlaceFromPush(q, before, id);
      var k :| 0 <= k < |before| && PushesAt(before, id, k) && Run(q, before).jobs[id].priority == before[k].priority
               && Run(q, before).jobs[id].createdAt == before[k].createdAt;
      CountStep(Run(q, before), run[n], id);
      assert PushesAt(run, id, k);
    } else {
      JoinsOnlyByPush(Run(q, before), run[n], id);
      assert PushesAt(run, id, n);
    }
  }

  /** A job ready all along is not overtaken by one pushed after it, by a clock and ids that go up,
      unless that one has a higher priority. */
  lemma {:induction false} LaterJobsWait(q: Queue, run: seq<Action>, id: JobId, k: nat, a: Action)
    requires Owned(q) && LegalRun(q, run) && id in q.jobs && NotRemoved(q, run, id)
    requires Legal(Run(q, run), a) && a.Pop? && Ready(Run(q, run), a.now, id)
    requires a.got.Some? && PushedOnceAt(q, run, a.got.value, k)
    requires run[k].createdAt >= q.jobs[id].createdAt && a.got.value > id
    ensures run[k].priority > q.jobs[id].priority
  {
    NoOvertaking(q, run, id, a);
    PlaceFromPush(q, run, a.got.value);
  }

  // ----- When a job is ready -----

  lemma FreedWith(q: Queue, g: Guard, how: Finish)
    requires Owned(q) && g in q.held
    ensures !Locked(Ended(q, g, how), q.held[g].id)
  {}

  /** A deferred job is ready from the time it was deferred to, and not before. */
  lemma DeferredIsReady(q: Queue, g: Guard, at: Time, now: Time)
    requires Owned(q) && g in q.held
    ensures Ready(Act(q, End(g, Defer(at))), now, q.held[g].id) <==> at <= now
  {
    FreedWith(q, g, Defer(at));
    assert Mirrors(q, q.held[g]);
  }

  /** A failed one is ready from its retry time on, if it has an attempt left, and otherwise keeps its
      old one. */
  lemma FailedIsReady(q: Queue, g: Guard, at: Time, now: Time)
    requires Owned(q) && g in q.held
    ensures Ready(Act(q, End(g, Fail(at))), now, q.held[g].id)
            <==> at <= now && q.jobs[q.held[g].id].attemptCount + 1 < q.jobs[q.held[g].id].maxAttempts
    ensures
      var was, job := q.jobs[q.held[g].id], Act(q, End(g, Fail(at))).jobs[q.held[g].id];
      job.status.Failed? ==> job.scheduledFor == was.scheduledFor
  {
    FreedWith(q, g, Fail(at));
    assert Mirrors(q, q.held[g]);
  }

  /** One whose guard is dropped is as ready as it was when it was popped. */
  lemma DroppedIsReady(q: Queue, g: Guard, now: Time)
    requires Owned(q) && g in q.held
    ensures Ready(Act(q, End(g, Drop)), now, q.held[g].id) <==> q.jobs[q.held[g].id].scheduledFor <= now
  {
    FreedWith(q, g, Drop);
    assert Mirrors(q, q.held[g]);
  }

  /** A pushed one from the time it is scheduled for. */
  lemma PushedIsReady(q: Queue, id: JobId, max: int, priority: int, createdAt: Time, due: Time, now: Time)
    requires Owned(q) && id !in q.jobs
    ensures Ready(Act(q, Push(id, max, priority, createdAt, due)), now, id) <==> due <= now
  {
    forall g | g in q.held ensures q.held[g].id != id { assert Mirrors(q, q.held[g]); }
  }

  // ----- Unfinished jobs -----

  /** `unfinished_descriptors`: the committed rows that are queued or running. */
  function Unfinished(q: Queue): set<JobId> {
    set id | id in q.jobs && (q.jobs[id].status.Queued? || q.jobs[id].status.Running?)
  }

  /** It lists every job a worker holds, and leaves out exactly those that failed for good. */
  lemma {:induction false} UnfinishedListsHeld(run: seq<Action>, g: Guard)
    requires LegalRun(EMPTY, run)
    ensures
      var q := Run(EMPTY, run);
      && (g in q.held ==> q.held[g].id in Unfinished(q))
      && Unfinished(q) == set id | id in q.jobs && q.jobs[id].attemptCount < q.jobs[id].maxAttempts
  {
    AlwaysOwned(run);
  }

  // ----- The queue as it is called -----

  const DEFAULT_MAX_ATTEMPTS := 3

  class PgQueue {
    var jobs: map<JobId, Job>
    /** The open transactions: each guard handed out and not yet consumed or dropped. */
    var held: map<Guard, Tx>
    const maxAttempts: int

    ghost function State(): Queue
      reads this
    {
      Queue(jobs, held)
    }

    ghost predicate Valid()
      reads this
    {
      Owned(State()) && 1 <= maxAttempts <= I32_MAX
    }

    /** `new`, or `with_max_retries`. */
    constructor (retries: Option<u32>)
      ensures Valid() && State() == EMPTY
      ensures maxAttempts == if retries.Some? then MaxAttempts(retries.value) else 3
    {
      jobs, held := map[], map[];
      maxAttempts := if retries.Some? then MaxAttempts(retries.value) else DEFAULT_MAX_ATTEMPTS;
    }

    method Push(id: JobId, retries: Option<u32>, schedule: Option<Time>, priority: int, now: Time) returns (r: bool)
      requires Valid()
      modifies this
      ensures Valid()
      ensures r <==> id !in old(jobs)
      ensures
        var max := if retries.Some? then MaxAttempts(retries.value) else maxAttempts;
        var a := Action.Push(id, max, priority, now, if schedule.Some? then schedule.value else now);
        Legal(old(State()), a) && State() == Act(old(State()), a)
    {
      var attempts := if retries.Some? then MaxAttempts(retries.value) else maxAttempts;
      r := id !in jobs;
      if r {
        var due := if schedule.Some? then schedule.value else now;
        OwnedStep(State(), Action.Push(id, attempts, priority, now, due));
        jobs := jobs[id := Job(now, due, Queued, attempts, 0, priority)];
      }
    }

    /** Opens a transaction, locks the next ready job in it and starts the job there. */
    method Pop(g: Guard, now: Time) returns (got: Option<JobId>)
      requires Valid() && g !in held
      modifies this
      ensures Valid()
      ensures Pops(old(State()), now, got)
      ensures State() == Act(old(State()), Action.Pop(g, now, got))
    {
      var locked := set g | g in held :: held[g].id;
      var left := set id | id in jobs && jobs[id].status.Queued? && jobs[id].scheduledFor <= now && id !in locked;
      ghost var ready := left;
      assert forall id :: id in ready <==> Ready(State(), now, id) by {
        forall id ensures Locked(State(), id) <==> id in locked { }
      }
      got := None;
      while left != {}
        invariant left <= ready
        invariant got.None? ==> left == ready
        invariant got.Some? ==> got.value in ready && got.value !in left
        invariant got.Some? ==> forall id :: id in ready - left && id != got.value ==>
                    Precedes(jobs[got.value], got.value, jobs[id], id)
        decreases left
      {
        var id :| id in left;
        if got.None? || Precedes(jobs[id], id, jobs[got.value], got.value) {
          got := Some(id);
        }
        left := left - {id};
      }
      if got.Some? {
        OwnedStep(State(), Action.Pop(g, now, got));
        held := held[g := Tx(got.value, jobs[got.value].(status := Running))];
      }
    }

    /** `JobGuard::remove`. A request that fails leaves its transaction to roll back, as a dropped
        guard's does. */
    method Remove(g: Guard, fails: bool)
      requires Valid() && g in held
      modifies this
      ensures Valid() && State() == Act(old(State()), End(g, if fails then Drop else Finish.Remove))
    {
      OwnedStep(State(), End(g, if fails then Drop else Finish.Remove));
      if !fails {
        jobs := jobs - {held[g].id};
      }
      held := held - {g};
    }

    /** `JobGuard::mark_as_failed`, and `mark_as_failed_and_reschedule` when given a time. */
    method MarkAsFailed(g: Guard, schedule: Option<Time>, now: Time, fails: bool)
      requires Valid() && g in held
      modifies this
      ensures
        var at := if schedule.Some? then schedule.value else now;
        Valid() && State() == Act(old(State()), End(g, if fails then Drop else Fail(at)))
    {
      var at := if schedule.Some? then schedule.value else now;
      OwnedStep(State(), End(g, if fails then Drop else Fail(at)));
      if fails {
        held := held - {g};
      } else {
        Requeue(g, at, true);
        Commit(g);
      }
    }

    /** `JobGuard::reschedule`. */
    method Reschedule(g: Guard, at: Time, fails: bool)
      requires Valid() && g in held
      modifies this
      ensures Valid() && State() == Act(old(State()), End(g, if fails then Drop else Defer(at)))
    {
      OwnedStep(State(), End(g, if fails then Drop else Defer(at)));
      if fails {
        held := held - {g};
      } else {
        Requeue(g, at, false);
        Commit(g);
      }
    }

    /** The UPDATE that failing and deferring share, inside the transaction. */
    method Requeue(g: Guard, at: Time, count: bool)
      requires g in held
      modifies `held
      ensures held == old(held)[g := old(held)[g].(job := Requeued(old(held)[g].job, at, count))]
    {
      var job := held[g].job;
      var last := count && job.attemptCount + 1 >= job.maxAttempts;
      if count {
        job := job.(attemptCount := job.attemptCount + 1);
      }
      if last {
        job := job.(status := Failed);
      } else {
        job := job.(status := Queued, scheduledFor := at);
      }
      held := held[g := held[g].(job := job)];
    }

    method Commit(g: Guard)
      requires g in held
      modifies this
      ensures jobs == old(jobs)[old(held)[g].id := old(held)[g].job] && held == old(held) - {g}
    {
      jobs := jobs[held[g].id := held[g].job];
      held := held - {g};
    }

    /** A guard dropped unconsumed: the transaction rolls back and the job is free again. */
    method DropGuard(g: Guard)
      requires Valid() && g in held
      modifies `held
      ensures Valid() && State() == Act(old(State()), End(g, Drop))
    {
      OwnedStep(State(), End(g, Drop));
      held := held - {g};
    }
  }
}
