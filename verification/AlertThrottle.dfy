/** The alert throttle: at most one message per event in each window, and every alert counted in
    exactly one message. */
module AlertThrottle {
  import opened Sql

  /** A reading of the monotonic clock, and a length of time on it. */
  type Instant = nat
  type Duration = nat

  datatype Window = Window(started: Instant, heldBack: nat)

  type Windows = map<string, Window>

  /** `now.duration_since(earlier)`, which is zero when `earlier` is later. */
  function Since(now: Instant, earlier: Instant): Duration {
    if now >= earlier then now - earlier else 0
  }

  predicate Open(w: Window, now: Instant, length: Duration) {
    Since(now, w.started) < length
  }

  datatype Call =
    | Admit(event: string, now: Instant)
    | HoldBack(dropped: string, count: nat, at: Instant)
    | Due(checkedAt: Instant)

  /** A message posted for an event, and how many alerts it accounts for. */
  datatype Message = Message(at: Instant, alerts: nat)

  predicate Overdue(w: Window, now: Instant, length: Duration) {
    w.heldBack > 0 && !Open(w, now, length)
  }

  // ----- What each call does -----

  function Admitted(s: Windows, length: Duration, event: string, now: Instant): Windows {
    if event in s && Open(s[event], now, length) then s[event := s[event].(heldBack := s[event].heldBack + 1)]
    else s[event := Window(now, 0)]
  }

  /** A first window starts a whole window back, so that its count is due at the next check. */
  function FirstStart(now: Instant, length: Duration): Instant {
    if now >= length then now - length else now
  }

  function Held(s: Windows, length: Duration, event: string, count: nat, now: Instant): Windows {
    var w := if event in s then s[event] else Window(FirstStart(now, length), 0);
    s[event := w.(heldBack := w.heldBack + count)]
  }

  function Reported(s: Windows, length: Duration, now: Instant): Windows {
    map event | event in s :: if Overdue(s[event], now, length) then Window(now, 0) else s[event]
  }

  function After(s: Windows, length: Duration, c: Call): Windows {
    match c
    case Admit(event, now) => Admitted(s, length, event, now)
    case HoldBack(event, count, now) => Held(s, length, event, count, now)
    case Due(now) => Reported(s, length, now)
  }

  /** The message a call posts for an event, if any. */
  function Posts(s: Windows, length: Duration, c: Call, event: string): Option<Message> {
    match c
    case Admit(e, now) =>
      if e != event || (e in s && Open(s[e], now, length)) then None
      else Some(Message(now, 1 + if e in s then s[e].heldBack else 0))
    case HoldBack(_, _, _) => None
    case Due(now) =>
      if event in s && Overdue(s[event], now, length) then Some(Message(now, s[event].heldBack)) else None
  }

  /** The alerts of an event a call brings in. */
  function Received(c: Call, event: string): nat {
    match c
    case Admit(e, _) => if e == event then 1 else 0
    case HoldBack(e, count, _) => if e == event then count else 0
    case Due(_) => 0
  }

  // ----- Runs -----

  function Run(length: Duration, calls: seq<Call>): Windows {
    if calls == [] then map[] else After(Run(length, calls[..|calls| - 1]), length, calls[|calls| - 1])
  }

  function Messages(length: Duration, calls: seq<Call>, event: string): seq<Message> {
    if calls == [] then []
    else
      var before := calls[..|calls| - 1];
      var posted := Posts(Run(length, before), length, calls[|calls| - 1], event);
      Messages(length, before, event) + if posted.Some? then [posted.value] else []
  }

  function TotalReceived(calls: seq<Call>, event: string): nat {
    if calls == [] then 0 else TotalReceived(calls[..|calls| - 1], event) + Received(calls[|calls| - 1], event)
  }

  function TotalReported(messages: seq<Message>): nat {
    if messages == [] then 0 else TotalReported(messages[..|messages| - 1]) + messages[|messages| - 1].alerts
  }

  function StillHeld(s: Windows, event: string): nat {
    if event in s then s[event].heldBack else 0
  }

  lemma StepBalances(s: Windows, length: Duration, c: Call, event: string)
    ensures
      var posted := Posts(s, length, c, event);
      (if posted.Some? then posted.value.alerts else 0) + StillHeld(After(s, length, c), event)
      == StillHeld(s, event) + Received(c, event)
  {}

  /** Alerts reported plus alerts still held back are the alerts received, event by event, for any
      sequence of calls and any clock. */
  lemma {:induction false} NothingLost(length: Duration, calls: seq<Call>, event: string)
    ensures TotalReported(Messages(length, calls, event)) + StillHeld(Run(length, calls), event)
         == TotalReceived(calls, event)
  {
    if calls != [] {
      var before := calls[..|calls| - 1];
      NothingLost(length, before, event);
      var was := Messages(length, before, event);
      var posted := Posts(Run(length, before), length, calls[|calls| - 1], event);
      StepBalances(Run(length, before), length, calls[|calls| - 1], event);
      if posted.Some? {
        assert (was + [posted.value])[..|was|] == was;
      } else {
        assert was + [] == was;
      }
    }
  }

  /** Once an event has been posted, its window starts at its last message. */
  lemma {:induction false} WindowStartsAtLastMessage(length: Duration, calls: seq<Call>, event: string)
    ensures
      var messages, s := Messages(length, calls, event), Run(length, calls);
      messages != [] ==> event in s && s[event].started == messages[|messages| - 1].at
  {
    if calls != [] {
      WindowStartsAtLastMessage(length, calls[..|calls| - 1], event);
    }
  }

  /** Any two messages for one event are at least a window apart. */
  lemma {:induction false} AWindowApart(length: Duration, calls: seq<Call>, event: string, i: nat, j: nat)
    requires i < j < |Messages(length, calls, event)|
    ensures Since(Messages(length, calls, event)[j].at, Messages(length, calls, event)[i].at) >= length
  {
    var before := calls[..|calls| - 1];
    var was := Messages(length, before, event);
    if j < |was| {
      AWindowApart(length, before, event, i, j);
    } else {
      WindowStartsAtLastMessage(length, before, event);
      if i < |was| - 1 {
        AWindowApart(length, before, event, i, |was| - 1);
      }
    }
  }

  /** Every message accounts for an alert. */
  lemma {:induction false} NoEmptyMessage(length: Duration, calls: seq<Call>, event: string, i: nat)
    requires i < |Messages(length, calls, event)|
    ensures Messages(length, calls, event)[i].alerts > 0
  {
    var before := calls[..|calls| - 1];
    if i < |Messages(length, before, event)| {
      NoEmptyMessage(length, before, event, i);
    }
  }

  // ----- And no later than that -----

  /** The clock reading is a window or more past `earlier`. */
  predicate WindowPast(now: Instant, earlier: Instant, length: Duration) {
    length == 0 || now >= earlier + length
  }

  /** Until an event is first posted its window, if it has one, was opened by a hold-back. */
  lemma {:induction false} OpenedByHoldBack(length: Duration, calls: seq<Call>, event: string)
    requires Messages(length, calls, event) == [] && event in Run(length, calls)
    ensures exists k :: && 0 <= k < |calls| && calls[k].HoldBack? && calls[k].dropped == event
                        && Run(length, calls)[event].started == FirstStart(calls[k].at, length)
  {
    var n := |calls| - 1;
    var before, c := calls[..n], calls[n];
    if event in Run(length, before) {
      OpenedByHoldBack(length, before, event);
      var k :| && 0 <= k < |before| && before[k].HoldBack? && before[k].dropped == event
               && Run(length, before)[event].started == FirstStart(before[k].at, length);
      assert calls[k] == before[k];
    }
  }

  /** An alert is posted exactly when a window has passed since the last message for its event, and at
      once if there was none and whatever was held back came a window or more into the clock's life. */
  lemma {:induction false} PostsWhenItMay(length: Duration, calls: seq<Call>, event: string, now: Instant)
    ensures
      var posted, messages := Posts(Run(length, calls), length, Admit(event, now), event), Messages(length, calls, event);
      && (messages != [] ==> (posted.Some? <==> WindowPast(now, messages[|messages| - 1].at, length)))
      && (messages == [] && (forall k :: 0 <= k < |calls| && calls[k].HoldBack? ==> length <= calls[k].at <= now)
          ==> posted.Some?)
  {
    WindowStartsAtLastMessage(length, calls, event);
    if Messages(length, calls, event) == [] && event in Run(length, calls) {
      OpenedByHoldBack(length, calls, event);
    }
  }

  /** Alerts held back for an event with no window yet are reported by the next check, unless the clock
      is younger than a window, and then by the first check a window on. */
  lemma FirstHoldBackIsDue(s: Windows, length: Duration, event: string, count: nat, at: Instant, now: Instant)
    requires event !in s && count > 0
    ensures Posts(After(s, length, HoldBack(event, count, at)), length, Due(now), event)
            == if (if at >= length then length == 0 || now >= at else now >= at + length)
               then Some(Message(now, count)) else None
  {}

  function TimeOf(c: Call): Instant {
    match c
    case Admit(_, now) => now
    case HoldBack(_, _, now) => now
    case Due(now) => now
  }

  lemma {:induction false} StartedBy(length: Duration, calls: seq<Call>, event: string, now: Instant)
    requires forall k :: 0 <= k < |calls| ==> TimeOf(calls[k]) <= now
    ensures event in Run(length, calls) ==> Run(length, calls)[event].started <= now
  {
    if calls != [] {
      StartedBy(length, calls[..|calls| - 1], event, now);
      assert TimeOf(calls[|calls| - 1]) <= now;
    }
  }

  /** A check a window or more after every earlier call leaves nothing held back: by then every alert
      received has been reported. */
  lemma {:induction false} CheckReportsAll(length: Duration, calls: seq<Call>, event: string, last: Instant, now: Instant)
    requires forall k :: 0 <= k < |calls| ==> TimeOf(calls[k]) <= last
    requires now >= last + length
    ensures TotalReported(Messages(length, calls + [Due(now)], event)) == TotalReceived(calls, event)
  {
    var all := calls + [Due(now)];
    assert all[..|all| - 1] == calls;
    StartedBy(length, calls, event, last);
    NothingLost(length, all, event);
  }

  // ----- The throttle as it is called -----

  class Throttle {
    const window: Duration
    var events: Windows

    constructor (window: Duration)
      ensures this.window == window && events == map[]
    {
      this.window := window;
      events := map[];
    }

    method Admit(event: string, now: Instant) returns (r: Option<nat>)
      modifies this
      ensures events == After(old(events), window, Call.Admit(event, now))
      ensures
        var posted := Posts(old(events), window, Call.Admit(event, now), event);
        if r.Some? then posted == Some(Message(now, 1 + r.value)) else posted == None
    {
      if event in events && Since(now, events[event].started) < window {
        events := events[event := events[event].(heldBack := events[event].heldBack + 1)];
        return None;
      }
      var heldBack := if event in events then events[event].heldBack else 0;
      events := events[event := Window(now, 0)];
      r := Some(heldBack);
    }

    method HoldBack(event: string, count: nat, now: Instant)
      modifies this
      ensures events == After(old(events), window, Call.HoldBack(event, count, now))
    {
      if event !in events {
        events := events[event := Window(if now >= window then now - window else now, 0)];
      }
      events := events[event := events[event].(heldBack := events[event].heldBack + count)];
    }

    method Due(now: Instant) returns (due: seq<(string, nat)>)
      modifies this
      ensures events == After(old(events), window, Call.Due(now))
      ensures forall i, j :: 0 <= i < j < |due| ==> due[i].0 != due[j].0
      ensures forall event, n: nat :: (event, n) in due <==>
                Posts(old(events), window, Call.Due(now), event) == Some(Message(now, n))
    {
      due := [];
      var left := events.Keys;
      ghost var before := events;
      while left != {}
        invariant left <= before.Keys
        invariant events == map event | event in before ::
                              if event !in left && Overdue(before[event], now, window) then Window(now, 0) else before[event]
        invariant forall i, j :: 0 <= i < j < |due| ==> due[i].0 != due[j].0
        invariant forall i :: 0 <= i < |due| ==> due[i].0 in before.Keys - left
        invariant forall event, n: nat :: (event, n) in due <==>
                    event in before.Keys - left && Overdue(before[event], now, window) && n == before[event].heldBack
        decreases left
      {
        var event :| event in left;
        var w := events[event];
        if w.heldBack > 0 && Since(now, w.started) >= window {
          due := due + [(event, w.heldBack)];
          events := events[event := Window(now, 0)];
        }
        left := left - {event};
      }
    }
  }
}
