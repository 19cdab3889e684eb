/** The supervisor's drain of the task tree. Each pass of its loop is one step; tasks finish, and
    others request shutdown, whenever they like. The loop's own work takes no time; its waits do. */
module Supervisor {
  import opened Sql

  type TaskId = nat
  type Instant = nat

  datatype Exit = Clean | Error | Panic

  /** Why the process must restart, naming the task. */
  datatype Failure = TaskFailed(task: TaskId) | TaskPanicked(task: TaskId) | ExitedEarly(task: TaskId)

  datatype Result = Ok | Died(cause: Failure) | GraceExceeded(remaining: nat, after: Option<Failure>)

  /** What ends a pass's wait: a task collected, the tree found empty, shutdown requested, or the
      teardown deadline. `othersByCheck` says whether someone else requested shutdown by the time the
      collected task is looked at. */
  datatype Wake =
    | Joined(task: TaskId, exit: Exit, at: Instant, othersByCheck: bool)
    | Empty
    | Requested(requestedAt: Instant)
    | Elapsed(elapsedAt: Instant)

  /** `othersByTop`: whether someone else has requested shutdown by the start of the pass. */
  datatype Pass = Pass(othersByTop: bool, wake: Wake)

  datatype State = State(
    tasks: set<TaskId>,
    requested: bool,
    deadline: Option<Instant>,
    firstFailure: Option<Failure>,
    now: Instant,
    result: Option<Result>)

  function Initial(tasks: set<TaskId>, requested: bool, now: Instant): State {
    State(tasks, requested, None, None, now, None)
  }

  function Top(s: State, p: Pass, grace: nat): State {
    var requested := s.requested || p.othersByTop;
    s.(requested := requested, deadline := if requested && s.deadline.None? then Some(s.now + grace) else s.deadline)
  }

  function FailureOf(task: TaskId, exit: Exit): Option<Failure> {
    match exit
    case Clean => None
    case Error => Some(TaskFailed(task))
    case Panic => Some(TaskPanicked(task))
  }

  function Collect(s: State, task: TaskId, exit: Exit, at: Instant, othersByCheck: bool): State {
    var failure := Coalesce(s.firstFailure, FailureOf(task, exit));
    var asked := s.requested || othersByCheck;
    s.(tasks := s.tasks - {task},
       requested := true,
       firstFailure := if asked then failure else Coalesce(failure, Some(ExitedEarly(task))),
       now := at)
  }

  function Step(s: State, p: Pass, grace: nat): State {
    var top := Top(s, p, grace);
    match p.wake
    case Joined(task, exit, at, others) => Collect(top, task, exit, at, others)
    case Empty => top.(result := Some(if top.firstFailure.Some? then Died(top.firstFailure.value) else Ok))
    case Requested(at) => top.(requested := true, now := at)
    case Elapsed(at) => top.(result := Some(GraceExceeded(|top.tasks|, top.firstFailure)), now := at)
  }

  function Max(a: Instant, b: Instant): Instant { if a >= b then a else b }

  /** The waits the runtime can give: unbounded until shutdown is requested, and after that no longer
      than to the deadline, a task that is ready being collected first. */
  predicate Legal(s: State, p: Pass, grace: nat) {
    var top := Top(s, p, grace);
    && s.result.None?
    && match p.wake
       case Joined(task, _, at, _) =>
         task in s.tasks && at >= s.now && (top.requested ==> at <= Max(top.deadline.value, s.now))
       case Empty => s.tasks == {}
       case Requested(at) => !top.requested && at >= s.now
       case Elapsed(at) => top.requested && s.tasks != {} && at == Max(top.deadline.value, s.now)
  }

  function Run(s: State, passes: seq<Pass>, grace: nat): State {
    if passes == [] then s else Step(Run(s, passes[..|passes| - 1], grace), passes[|passes| - 1], grace)
  }

  ghost predicate LegalRun(s: State, passes: seq<Pass>, grace: nat) {
    forall i :: 0 <= i < |passes| ==> Legal(Run(s, passes[..i], grace), passes[i], grace)
  }

  lemma LegalPrefix(s: State, passes: seq<Pass>, grace: nat)
    requires passes != [] && LegalRun(s, passes, grace)
    ensures LegalRun(s, passes[..|passes| - 1], grace)
    ensures Legal(Run(s, passes[..|passes| - 1], grace), passes[|passes| - 1], grace)
  {
    var before := passes[..|passes| - 1];
    forall i | 0 <= i < |before|
      ensures Legal(Run(s, before[..i], grace), before[i], grace)
    {
      assert before[..i] == passes[..i];
    }
  }

  // ----- What was collected -----

  /** A task collected, how it exited, and whether shutdown had been requested by then. */
  datatype Collected = Collected(task: TaskId, exit: Exit, asked: bool)

  /** Any failure or panic, and any exit before shutdown was requested. */
  predicate Fatal(c: Collected) {
    c.exit != Clean || !c.asked
  }

  function CauseOf(c: Collected): Failure {
    match c.exit
    case Clean => ExitedEarly(c.task)
    case Error => TaskFailed(c.task)
    case Panic => TaskPanicked(c.task)
  }

  /** The cause of the earliest fatal one. */
  function FirstFatal(h: seq<Collected>): Option<Failure> {
    if h == [] then None
    else Coalesce(FirstFatal(h[..|h| - 1]), if Fatal(h[|h| - 1]) then Some(CauseOf(h[|h| - 1])) else None)
  }

  lemma {:induction false} FirstFatalIsFirst(h: seq<Collected>)
    ensures FirstFatal(h).None? <==> forall i :: 0 <= i < |h| ==> !Fatal(h[i])
    ensures FirstFatal(h).Some? ==>
              exists i :: && 0 <= i < |h| && Fatal(h[i]) && FirstFatal(h).value == CauseOf(h[i])
                          && forall j :: 0 <= j < i ==> !Fatal(h[j])
  {
    if h != [] {
      var n := |h| - 1;
      FirstFatalIsFirst(h[..n]);
      if FirstFatal(h[..n]).Some? {
        var i :| 0 <= i < n && Fatal(h[..n][i]) && FirstFatal(h[..n]).value == CauseOf(h[..n][i])
                 && forall j :: 0 <= j < i ==> !Fatal(h[..n][j]);
        assert Fatal(h[i]) && forall j :: 0 <= j < i ==> !Fatal(h[j]) by {
          forall j | 0 <= j < i ensures !Fatal(h[j]) { assert !Fatal(h[..n][j]); }
        }
      } else {
        forall j | 0 <= j < n ensures !Fatal(h[j]) { assert !Fatal(h[..n][j]); }
      }
    }
  }

  ghost function Tasks(h: seq<Collected>): set<TaskId> {
    set i | 0 <= i < |h| :: h[i].task
  }

  lemma TasksExtend(h: seq<Collected>, c: Collected)
    ensures Tasks(h + [c]) == Tasks(h) + {c.task}
  {
    var more := h + [c];
    assert more[|h|] == c;
    forall t | t in Tasks(h) ensures t in Tasks(more) {
      var i :| 0 <= i < |h| && h[i].task == t;
      assert more[i] == h[i];
    }
  }

  /** What one pass adds to the history. */
  function Gains(s: State, p: Pass, grace: nat): seq<Collected> {
    match p.wake
    case Joined(task, exit, _, others) => [Collected(task, exit, Top(s, p, grace).requested || others)]
    case _ => []
  }

  function History(s: State, passes: seq<Pass>, grace: nat): seq<Collected> {
    if passes == [] then []
    else
      var before := passes[..|passes| - 1];
      History(s, before, grace) + Gains(Run(s, before, grace), passes[|passes| - 1], grace)
  }

  /** A pass keeps the cause of the earliest fatal task. */
  lemma PassKeepsFirst(s: State, p: Pass, grace: nat, h: seq<Collected>)
    requires s.firstFailure == FirstFatal(h)
    ensures Step(s, p, grace).firstFailure == FirstFatal(h + Gains(s, p, grace))
  {
    if p.wake.Joined? {
      assert (h + Gains(s, p, grace))[..|h|] == h;
    } else {
      assert h + [] == h;
    }
  }

  lemma TasksOfOne(c: Collected)
    ensures Tasks([c]) == {c.task}
  {
    assert [c][0] == c;
  }

  /** A pass drops from the tree exactly the task it collects. */
  lemma PassKeepsTasks(s: State, p: Pass, grace: nat, h: seq<Collected>)
    requires Legal(s, p, grace)
    ensures Step(s, p, grace).tasks == s.tasks - Tasks(Gains(s, p, grace)) && Tasks(Gains(s, p, grace)) <= s.tasks
    ensures Tasks(h + Gains(s, p, grace)) == Tasks(h) + Tasks(Gains(s, p, grace))
  {
    if p.wake.Joined? {
      var c := Gains(s, p, grace)[0];
      TasksOfOne(c);
      TasksExtend(h, c);
    } else {
      assert h + [] == h;
    }
  }

  /** The loop keeps the earliest fatal cause and exactly the tasks not yet collected. */
  lemma {:induction false} KeepsHistory(s: State, passes: seq<Pass>, grace: nat)
    requires s.firstFailure.None? && LegalRun(s, passes, grace)
    ensures
      var end, h := Run(s, passes, grace), History(s, passes, grace);
      && end.firstFailure == FirstFatal(h)
      && end.tasks == s.tasks - Tasks(h) && Tasks(h) <= s.tasks
  {
    if passes != [] {
      var n := |passes| - 1;
      LegalPrefix(s, passes, grace);
      KeepsHistory(s, passes[..n], grace);
      PassKeepsFirst(Run(s, passes[..n], grace), passes[n], grace, History(s, passes[..n], grace));
      PassKeepsTasks(Run(s, passes[..n], grace), passes[n], grace, History(s, passes[..n], grace));
    }
  }

  lemma AllGone(tasks: set<TaskId>, gone: set<TaskId>)
    requires gone <= tasks
    ensures tasks - gone == {} <==> gone == tasks
  {
    assert tasks == (tasks - gone) + gone;
  }

  /** How the drain ends: `Ok` exactly when every task was collected, each returned cleanly, and each
      after shutdown was requested. Otherwise the error keeps the earliest fatal one, if there was one. */
  lemma {:induction false} EndsAsItShould(tasks: set<TaskId>, requested: bool, now: Instant, passes: seq<Pass>, grace: nat)
    requires LegalRun(Initial(tasks, requested, now), passes, grace)
    requires Run(Initial(tasks, requested, now), passes, grace).result.Some?
    ensures
      var s := Initial(tasks, requested, now);
      var result, h := Run(s, passes, grace).result.value, History(s, passes, grace);
      && (result == Ok <==> Tasks(h) == tasks && forall i :: 0 <= i < |h| ==> !Fatal(h[i]))
      && (result.Died? ==> Some(result.cause) == FirstFatal(h) && Tasks(h) == tasks)
      && (result.GraceExceeded? ==> result.after == FirstFatal(h) && result.remaining == |tasks - Tasks(h)| > 0)
  {
    var s := Initial(tasks, requested, now);
    var n := |passes| - 1;
    LegalPrefix(s, passes, grace);
    KeepsHistory(s, passes[..n], grace);
    KeepsHistory(s, passes, grace);
    FirstFatalIsFirst(History(s, passes, grace));
    AllGone(tasks, Tasks(History(s, passes, grace)));
  }

  // ----- The deadline -----

  /** A deadline is set only once shutdown was requested. */
  predicate WellFormed(s: State) {
    s.deadline.Some? ==> s.requested
  }

  /** The deadline, once set, is never moved, and the clock never passes it. */
  lemma {:induction false} DeadlineHolds(s: State, passes: seq<Pass>, grace: nat)
    requires WellFormed(s) && LegalRun(s, passes, grace) && s.deadline.Some? && s.now <= s.deadline.value
    ensures Run(s, passes, grace).deadline == s.deadline
    ensures Run(s, passes, grace).now <= s.deadline.value
    ensures WellFormed(Run(s, passes, grace))
  {
    if passes != [] {
      LegalPrefix(s, passes, grace);
      DeadlineHolds(s, passes[..|passes| - 1], grace);
    }
  }

  /** However many tasks finish after the pass that first saw shutdown requested, that pass and all
      that follow take no longer than the grace. */
  lemma {:induction false} DrainIsBounded(s: State, p: Pass, rest: seq<Pass>, grace: nat)
    requires WellFormed(s) && s.deadline.None? && Top(s, p, grace).requested
    requires Legal(s, p, grace) && LegalRun(Step(s, p, grace), rest, grace)
    ensures Run(Step(s, p, grace), rest, grace).now <= s.now + grace
  {
    DeadlineHolds(Step(s, p, grace), rest, grace);
  }

  /** And the whole of the grace: only once it has passed is the drain given up. */
  lemma {:induction false} GraceIsGiven(s: State, p: Pass, rest: seq<Pass>, grace: nat)
    requires WellFormed(s) && s.deadline.None? && Top(s, p, grace).requested
    requires Legal(s, p, grace) && LegalRun(Step(s, p, grace), rest, grace)
    ensures
      var end := Run(Step(s, p, grace), rest, grace);
      end.result.Some? && end.result.value.GraceExceeded? ==> end.now == s.now + grace
  {
    if rest != [] {
      var first, before := Step(s, p, grace), rest[..|rest| - 1];
      LegalPrefix(first, rest, grace);
      DeadlineHolds(first, before, grace);
    }
  }

  lemma {:induction false} RunFront(s: State, p: Pass, rest: seq<Pass>, grace: nat)
    ensures Run(s, [p] + rest, grace) == Run(Step(s, p, grace), rest, grace)
    decreases |rest|
  {
    if rest == [] {
      assert [p] + rest == [p] && [p][..0] == [];
      assert Run(s, [p], grace) == Step(Run(s, [], grace), p, grace);
    } else {
      var n := |rest| - 1;
      assert ([p] + rest)[..|rest|] == [p] + rest[..n];
      RunFront(s, p, rest[..n], grace);
    }
  }

  lemma LegalFront(s: State, passes: seq<Pass>, grace: nat)
    requires passes != [] && LegalRun(s, passes, grace)
    ensures Legal(s, passes[0], grace) && LegalRun(Step(s, passes[0], grace), passes[1..], grace)
  {
    var p, rest := passes[0], passes[1..];
    assert passes[..0] == [];
    assert Legal(Run(s, passes[..0], grace), passes[0], grace);
    forall i | 0 <= i < |rest| ensures Legal(Run(Step(s, p, grace), rest[..i], grace), rest[i], grace) {
      RunFront(s, p, rest[..i], grace);
      assert passes[..i + 1] == [p] + rest[..i];
      assert Legal(Run(s, passes[..i + 1], grace), passes[i + 1], grace);
    }
  }

  /** Shutdown first requested while a pass waits, by someone else or by the exit of a task, gives the
      drain the grace from that moment: no longer, and no less before it is given up. */
  lemma {:induction false} GraceFromRequest(s: State, p: Pass, at: Instant, rest: seq<Pass>, grace: nat)
    requires WellFormed(s) && !Top(s, p, grace).requested && Legal(s, p, grace)
    requires p.wake == Requested(at) || (p.wake.Joined? && p.wake.at == at)
    requires LegalRun(Step(s, p, grace), rest, grace)
    ensures
      var end := Run(Step(s, p, grace), rest, grace);
      && end.requested && at <= end.now <= at + grace
      && (end.result.Some? && end.result.value.GraceExceeded? ==> end.now == at + grace)
  {
    var next := Step(s, p, grace);
    if rest != [] {
      LegalFront(next, rest, grace);
      RunFront(next, rest[0], rest[1..], grace);
      assert [rest[0]] + rest[1..] == rest;
      DrainIsBounded(next, rest[0], rest[1..], grace);
      GraceIsGiven(next, rest[0], rest[1..], grace);
      NeverBack(next, rest, grace);
    }
  }

  /** The clock and the request to shut down never go back. */
  lemma {:induction false} NeverBack(s: State, passes: seq<Pass>, grace: nat)
    requires LegalRun(s, passes, grace)
    ensures Run(s, passes, grace).now >= s.now
    ensures s.requested ==> Run(s, passes, grace).requested
  {
    if passes != [] {
      LegalPrefix(s, passes, grace);
      NeverBack(s, passes[..|passes| - 1], grace);
    }
  }

  /** Of all tasks collected only the first can have exited before shutdown was requested. */
  lemma {:induction false} OnlyTheFirstIsEarly(s: State, passes: seq<Pass>, grace: nat, i: nat)
    requires LegalRun(s, passes, grace) && 0 < i < |History(s, passes, grace)|
    ensures History(s, passes, grace)[i].asked
  {
    var n := |passes| - 1;
    var before := passes[..n];
    LegalPrefix(s, passes, grace);
    if i < |History(s, before, grace)| {
      OnlyTheFirstIsEarly(s, before, grace, i);
    } else {
      CollectedRequests(s, before, grace);
    }
  }

  lemma {:induction false} CollectedRequests(s: State, passes: seq<Pass>, grace: nat)
    requires LegalRun(s, passes, grace)
    ensures History(s, passes, grace) != [] ==> Run(s, passes, grace).requested
  {
    if passes != [] {
      LegalPrefix(s, passes, grace);
      CollectedRequests(s, passes[..|passes| - 1], grace);
    }
  }

  /** What is left to do: a pass for each task, one for a request to shut down, and the last. */
  function Left(s: State): nat {
    |s.tasks| + (if s.requested then 0 else 1) + (if s.result.None? then 1 else 0)
  }

  lemma PassUses(s: State, p: Pass, grace: nat)
    requires Legal(s, p, grace)
    ensures Left(Step(s, p, grace)) < Left(s)
  {
    if p.wake.Joined? { assert s.tasks == (s.tasks - {p.wake.task}) + {p.wake.task}; }
  }

  /** The drain ends: every run of it has at most two passes more than there are tasks. */
  lemma {:induction false} DrainEnds(s: State, passes: seq<Pass>, grace: nat)
    requires LegalRun(s, passes, grace)
    ensures |passes| + Left(Run(s, passes, grace)) <= Left(s) <= |s.tasks| + 2
  {
    if passes != [] {
      LegalPrefix(s, passes, grace);
      DrainEnds(s, passes[..|passes| - 1], grace);
      PassUses(Run(s, passes[..|passes| - 1], grace), passes[|passes| - 1], grace);
    }
  }

  // ----- As it runs -----

  class Shutdown {
    var requested: bool

    constructor ()
      ensures !requested
    {
      requested := false;
    }

    method Request()
      modifies this
      ensures requested
    {
      requested := true;
    }
  }

  lemma RunNext(s: State, passes: seq<Pass>, k: nat, grace: nat)
    requires k < |passes|
    ensures Run(s, passes[..k + 1], grace) == Step(Run(s, passes[..k], grace), passes[k], grace)
  {
    assert passes[..k + 1][..k] == passes[..k];
  }

  /** The pass that has a result is the last. */
  lemma ReturnsLast(s: State, passes: seq<Pass>, k: nat, grace: nat)
    requires LegalRun(s, passes, grace) && k < |passes|
    ensures Run(s, passes[..k + 1], grace).result.Some? ==> k + 1 == |passes|
  {
    if k + 1 < |passes| { assert Legal(Run(s, passes[..k + 1], grace), passes[k + 1], grace); }
  }

  /** What the loop does with a task it collected: keep the first cause, and request shutdown if the
      task exited before anyone had. */
  method NoteExit(shutdown: Shutdown, before: Option<Failure>, task: TaskId, exit: Exit, others: bool)
    returns (firstFailure: Option<Failure>)
    modifies shutdown
    ensures shutdown.requested
    ensures
      var failure := Coalesce(before, FailureOf(task, exit));
      firstFailure == if old(shutdown.requested) || others then failure else Coalesce(failure, Some(ExitedEarly(task)))
  {
    firstFailure := before;
    if exit == Error && firstFailure.None? {
      firstFailure := Some(TaskFailed(task));
    } else if exit == Panic && firstFailure.None? {
      firstFailure := Some(TaskPanicked(task));
    }
    if others {
      shutdown.Request();
    }
    if !shutdown.requested {
      if firstFailure.None? {
        firstFailure := Some(ExitedEarly(task));
      }
      shutdown.Request();
    }
  }

  /** One pass of the loop: set the deadline if shutdown is requested, wait, and act on what ended the
      wait. */
  method OnePass(shutdown: Shutdown, before: State, p: Pass, grace: nat) returns (after: State)
    requires shutdown.requested == before.requested
    modifies shutdown
    ensures after == Step(before, p, grace) && shutdown.requested == after.requested
  {
    if p.othersByTop {
      shutdown.Request();
    }
    after := before.(requested := shutdown.requested);
    if shutdown.requested && after.deadline.None? {
      after := after.(deadline := Some(after.now + grace));
    }
    match p.wake {
      case Elapsed(at) =>
        after := after.(now := at, result := Some(GraceExceeded(|after.tasks|, after.firstFailure)));
      case Requested(at) =>
        shutdown.Request();
        after := after.(now := at, requested := true);
      case Empty =>
        after := after.(result := Some(if after.firstFailure.Some? then Died(after.firstFailure.value) else Ok));
      case Joined(task, exit, at, others) =>
        var failure := NoteExit(shutdown, after.firstFailure, task, exit, others);
        after := after.(tasks := after.tasks - {task}, requested := true, firstFailure := failure, now := at);
    }
  }

  /** `supervise`, over the passes the runtime gives it; `None` while it is still running. */
  method Supervise(tasks: set<TaskId>, shutdown: Shutdown, grace: nat, now: Instant, passes: seq<Pass>)
    returns (result: Option<Result>)
    requires LegalRun(Initial(tasks, shutdown.requested, now), passes, grace)
    modifies shutdown
    ensures result == Run(Initial(tasks, old(shutdown.requested), now), passes, grace).result
    ensures shutdown.requested == Run(Initial(tasks, old(shutdown.requested), now), passes, grace).requested
  {
    ghost var s := Initial(tasks, shutdown.requested, now);
    var state := Initial(tasks, shutdown.requested, now);
    for k := 0 to |passes|
      invariant state == Run(s, passes[..k], grace) && state.requested == shutdown.requested && state.result.None?
    {
      RunNext(s, passes, k, grace);
      state := OnePass(shutdown, state, passes[k], grace);
      if state.result.Some? {
        ReturnsLast(s, passes, k, grace);
        assert passes[..k + 1] == passes;
        return state.result;
      }
    }
    assert passes[..|passes|] == passes;
    result := None;
  }
}
