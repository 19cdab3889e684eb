/** The indexing requests table, which `set_indexing_target_candidates` keeps as a map from each
    requester, deployment and chain to the number of indexers it last asked for. */
module RequestTable {
  import opened Sql

  type Id = nat
  type Time = int

  /** `(requested_by, deployment_id, deployment_chain_id)`. */
  datatype Key = Key(requestedBy: string, deployment: string, chain: nat)

  datatype Status = Open | Canceled

  datatype Request = Request(status: Status, key: Key, candidates: int, updatedAt: Time)

  type Table = map<Id, Request>

  datatype Outcome =
    | NoOpAlreadyEmpty
    | Inserted(id: Id)
    | NoOp(id: Id)
    | Ended(id: Id)
    | Updated(id: Id, candidates: int)
    | DatabaseError

  datatype Call = Call(key: Key, candidates: int, newId: Id, at: Time)

  predicate OpenFor(t: Table, id: Id, key: Key) {
    id in t && t[id].status.Open? && t[id].key == key
  }

  /** At most one open row per key, which the table's unique index enforces, and none asking for no
      indexers. */
  ghost predicate Valid(t: Table) {
    && (forall i, j, key :: OpenFor(t, i, key) && OpenFor(t, j, key) ==> i == j)
    && (forall id, key :: OpenFor(t, id, key) ==> t[id].candidates > 0)
  }

  /** The table stands for the map: its open rows are the map's keys, each with its target. */
  ghost predicate StandsFor(t: Table, m: map<Key, int>) {
    && (forall id, key :: OpenFor(t, id, key) ==> key in m && m[key] == t[id].candidates)
    && (forall key :: key in m ==> exists id :: OpenFor(t, id, key))
  }

  /** The whole of the method: what it leaves in the table, and what it returns. */
  ghost predicate Sets(t: Table, c: Call, after: Table, outcome: Outcome) {
    match outcome
    case NoOpAlreadyEmpty => after == t && c.candidates == 0 && forall id :: !OpenFor(t, id, c.key)
    case Inserted(id) =>
      && id == c.newId && id !in t && c.candidates > 0 && (forall i :: !OpenFor(t, i, c.key))
      && after == t[id := Request(Open, c.key, c.candidates, c.at)]
    case NoOp(id) => after == t && OpenFor(t, id, c.key) && t[id].candidates == c.candidates
    case Ended(id) =>
      && OpenFor(t, id, c.key) && c.candidates == 0 && t[id].candidates != 0
      && after == t[id := t[id].(status := Canceled, updatedAt := c.at)]
    case Updated(id, n) =>
      && OpenFor(t, id, c.key) && n == c.candidates && n > 0 && t[id].candidates != n
      && after == t[id := t[id].(candidates := n, updatedAt := c.at)]
    case DatabaseError => after == t && Errs(t, c)
  }

  /** A count below zero breaks the column's check, and an id already used breaks the primary key. */
  ghost predicate Errs(t: Table, c: Call) {
    || (c.candidates < 0 && forall id :: OpenFor(t, id, c.key) ==> t[id].candidates != c.candidates)
    || (c.candidates > 0 && c.newId in t && forall id :: !OpenFor(t, id, c.key))
  }

  /** The map with a key set to a target, zero taking it out. */
  function Assign(m: map<Key, int>, key: Key, n: int): map<Key, int> {
    if n == 0 then m - {key} else m[key := n]
  }

  lemma SetsKeepsOthers(t: Table, c: Call, after: Table, outcome: Outcome, id: Id, key: Key)
    requires Sets(t, c, after, outcome) && (key != c.key || outcome.DatabaseError?)
    ensures OpenFor(after, id, key) <==> OpenFor(t, id, key)
    ensures OpenFor(t, id, key) ==> after[id].candidates == t[id].candidates
  {}

  lemma SetsItsKey(t: Table, c: Call, after: Table, outcome: Outcome, id: Id)
    requires Valid(t) && Sets(t, c, after, outcome) && !outcome.DatabaseError?
    ensures OpenFor(after, id, c.key) ==> after[id].candidates == c.candidates > 0
    ensures OpenFor(after, id, c.key) <==> c.candidates != 0 && id == RowOf(outcome)
  {
    var row := RowOf(outcome);
    assert outcome.NoOp? || outcome.Ended? || outcome.Updated? ==> OpenFor(t, row, c.key);
    assert OpenFor(after, id, c.key) && (id != row || outcome.NoOpAlreadyEmpty?) ==> OpenFor(t, id, c.key);
  }

  /** The row an outcome names. */
  function RowOf(outcome: Outcome): Id {
    match outcome
    case NoOpAlreadyEmpty => 0
    case Inserted(id) => id
    case NoOp(id) => id
    case Ended(id) => id
    case Updated(id, _) => id
    case DatabaseError => 0
  }

  lemma SetsKeepsValid(t: Table, c: Call, after: Table, outcome: Outcome)
    requires Valid(t) && Sets(t, c, after, outcome)
    ensures Valid(after)
  {
    forall i, key | OpenFor(after, i, key)
      ensures after[i].candidates > 0
    {
      if key != c.key || outcome.DatabaseError? { SetsKeepsOthers(t, c, after, outcome, i, key); }
      else { SetsItsKey(t, c, after, outcome, i); }
    }
    forall i, j, key | OpenFor(after, i, key) && OpenFor(after, j, key)
      ensures i == j
    {
      if key != c.key || outcome.DatabaseError? {
        SetsKeepsOthers(t, c, after, outcome, i, key);
        SetsKeepsOthers(t, c, after, outcome, j, key);
      } else {
        SetsItsKey(t, c, after, outcome, i);
        SetsItsKey(t, c, after, outcome, j);
      }
    }
  }

  /** A call that returns an outcome sets the key's target to what it asked for and touches no other
      key; one that fails changes nothing. */
  lemma SetsAssigns(t: Table, c: Call, after: Table, outcome: Outcome, m: map<Key, int>)
    requires Valid(t) && StandsFor(t, m) && Sets(t, c, after, outcome)
    ensures Valid(after)
    ensures StandsFor(after, if outcome.DatabaseError? then m else Assign(m, c.key, c.candidates))
  {
    SetsKeepsValid(t, c, after, outcome);
    var now := if outcome.DatabaseError? then m else Assign(m, c.key, c.candidates);
    forall id, key | OpenFor(after, id, key)
      ensures key in now && now[key] == after[id].candidates
    {
      if key != c.key || outcome.DatabaseError? { SetsKeepsOthers(t, c, after, outcome, id, key); }
      else { SetsItsKey(t, c, after, outcome, id); }
    }
    forall key | key in now
      ensures exists id :: OpenFor(after, id, key)
    {
      if key != c.key || outcome.DatabaseError? {
        var id :| OpenFor(t, id, key);
        SetsKeepsOthers(t, c, after, outcome, id, key);
      } else {
        SetsItsKey(t, c, after, outcome, RowOf(outcome));
      }
    }
  }

  /** A call fails exactly when it asks for fewer than no indexers, or would insert a row under an id
      already used. */
  lemma FailsExactly(t: Table, c: Call, after: Table, outcome: Outcome)
    requires Valid(t) && Sets(t, c, after, outcome)
    ensures outcome.DatabaseError?
            <==> c.candidates < 0 || (c.candidates > 0 && c.newId in t && forall id :: !OpenFor(t, id, c.key))
  {
    if outcome.NoOp? || outcome.Updated? || outcome.Ended? { assert OpenFor(t, RowOf(outcome), c.key); }
  }

  /** A call that did nothing says so, and one that says so did nothing. */
  lemma NoOpExactly(t: Table, c: Call, after: Table, outcome: Outcome)
    requires Valid(t) && Sets(t, c, after, outcome)
    ensures after == t <==> outcome.NoOpAlreadyEmpty? || outcome.NoOp? || outcome.DatabaseError?
  {
    if outcome.Ended? {
      assert after[outcome.id].status != t[outcome.id].status;
    }
    if outcome.Updated? {
      assert after[outcome.id].candidates != t[outcome.id].candidates;
    }
    if outcome.Inserted? {
      assert outcome.id in after;
    }
  }

  /** A call changes no row but the one it names, and stamps that one. */
  lemma ChangedIsStamped(t: Table, c: Call, after: Table, outcome: Outcome, id: Id)
    requires Sets(t, c, after, outcome) && id in after && !(id in t && after[id] == t[id])
    ensures id == RowOf(outcome) && after[id].updatedAt == c.at && after[id].key == c.key
  {}

  // ----- Runs of calls -----

  datatype Done = Done(call: Call, after: Table, outcome: Outcome)

  function TableAt(run: seq<Done>): Table {
    if run == [] then map[] else run[|run| - 1].after
  }

  ghost predicate IsRun(run: seq<Done>) {
    forall i :: 0 <= i < |run| ==> Sets(TableAt(run[..i]), run[i].call, run[i].after, run[i].outcome)
  }

  /** Each key's last target asked for by a call that did not fail. */
  function LastTargets(run: seq<Done>): map<Key, int> {
    if run == [] then map[]
    else
      var before, last := LastTargets(run[..|run| - 1]), run[|run| - 1];
      if last.outcome.DatabaseError? then before else Assign(before, last.call.key, last.call.candidates)
  }

  lemma RunPrefix(run: seq<Done>)
    requires run != [] && IsRun(run)
    ensures IsRun(run[..|run| - 1])
  {
    var before := run[..|run| - 1];
    forall i | 0 <= i < |before| ensures Sets(TableAt(before[..i]), before[i].call, before[i].after, before[i].outcome) {
      assert before[..i] == run[..i];
    }
  }

  /** After any run of calls, the table holds exactly each key's last target. */
  lemma {:induction false} HoldsLastTargets(run: seq<Done>)
    requires IsRun(run)
    ensures Valid(TableAt(run)) && StandsFor(TableAt(run), LastTargets(run))
  {
    if run != [] {
      var n := |run| - 1;
      RunPrefix(run);
      HoldsLastTargets(run[..n]);
      SetsAssigns(TableAt(run[..n]), run[n].call, run[n].after, run[n].outcome, LastTargets(run[..n]));
    }
  }

  lemma CanceledIsKept(t: Table, c: Call, after: Table, outcome: Outcome, id: Id)
    requires Sets(t, c, after, outcome) && id in t && t[id].status.Canceled?
    ensures id in after && after[id] == t[id]
  {}

  /** A canceled row is never opened again, nor changed at all. */
  lemma {:induction false} CanceledForGood(run: seq<Done>, k: nat, id: Id)
    requires IsRun(run) && k <= |run| && id in TableAt(run[..k]) && TableAt(run[..k])[id].status.Canceled?
    ensures id in TableAt(run) && TableAt(run)[id] == TableAt(run[..k])[id]
  {
    var n := |run| - 1;
    if k <= n {
      RunPrefix(run);
      assert run[..n][..k] == run[..k];
      CanceledForGood(run[..n], k, id);
      CanceledIsKept(TableAt(run[..n]), run[n].call, run[n].after, run[n].outcome, id);
    } else {
      assert run[..k] == run;
    }
  }

  // ----- As it is called -----

  class Requests {
    var rows: Table

    constructor ()
      ensures rows == map[] && Valid(rows)
    {
      rows := map[];
    }

    method SetIndexingTargetCandidates(key: Key, candidates: int, newId: Id, now: Time) returns (outcome: Outcome)
      requires Valid(rows)
      modifies this
      ensures Valid(rows) && Sets(old(rows), Call(key, candidates, newId, now), rows, outcome)
    {
      ghost var t, c := rows, Call(key, candidates, newId, now);
      var existing := set id | id in rows && OpenFor(rows, id, key);
      if existing == {} {
        assert forall id :: !OpenFor(rows, id, key) by {
          forall id ensures !OpenFor(rows, id, key) { assert id !in existing; }
        }
        if candidates == 0 {
          return NoOpAlreadyEmpty;
        }
        if candidates < 0 || newId in rows {
          return DatabaseError;
        }
        rows := rows[newId := Request(Open, key, candidates, now)];
        outcome := Inserted(newId);
        SetsKeepsValid(t, c, rows, outcome);
        return;
      }
      var id :| id in existing;
      if rows[id].candidates == candidates {
        return NoOp(id);
      }
      if candidates == 0 {
        rows := rows[id := rows[id].(status := Canceled, updatedAt := now)];
        outcome := Ended(id);
        SetsKeepsValid(t, c, rows, outcome);
        return;
      }
      if candidates < 0 {
        return DatabaseError;
      }
      rows := rows[id := rows[id].(candidates := candidates, updatedAt := now)];
      outcome := Updated(id, candidates);
      SetsKeepsValid(t, c, rows, outcome);
    }
  }
}
