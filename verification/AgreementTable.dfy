/** The agreements table, with its unique index: an indexer has at most one active agreement per
    deployment. Every write to the table moves each row by the row's own writes, or is refused, so
    what holds of every run of one row holds of every row in every run of the table. */
module AgreementTable {
  import opened Sql
  import opened Agreement

  type Id = nat
  type Table = map<Id, Row>

  datatype Item = Item(id: Id, accept: bool, cancel: Option<CancelKind>, audit: Audit)

  datatype TableWrite =
    | On(id: Id, write: Write, at: Time)
    | Register(newId: Id, pair: Pair, deadline: int, registeredAt: Time)
    | Batch(items: seq<Item>, batchAt: Time)

  ghost predicate UniqueIds(items: seq<Item>) {
    forall i, j :: 0 <= i < j < |items| ==> items[i].id != items[j].id
  }

  /** The first item for `id`, which is the only one when ids are unique. */
  function ItemFor(items: seq<Item>, id: Id): (found: Option<Item>)
    ensures found.Some? ==> found.value in items && found.value.id == id
    ensures found.None? ==> forall i :: 0 <= i < |items| ==> items[i].id != id
  {
    if items == [] then None
    else if items[0].id == id then Some(items[0])
    else ItemFor(items[1..], id)
  }

  function ItemEvent(item: Item, at: Time): Event {
    Event(ReconcileItem(item.accept, item.cancel, item.audit), at)
  }

  /** What a batch does to the row with this id. */
  function BatchRow(row: Row, items: seq<Item>, id: Id, at: Time): Row {
    var item := ItemFor(items, id);
    if item.Some? then Step(row, ItemEvent(item.value, at)) else row
  }

  // ----- The unique index -----

  /** `idx_unique_active_agreement_per_indexer_deployment`. */
  predicate Indexed(t: Table) {
    forall i, j :: i in t && j in t && Active(t[i].status) && Active(t[j].status) && t[i].pair == t[j].pair ==> i == j
  }

  ghost predicate SharesPair(t: Table, i: Id, j: Id) {
    i in t && j in t && i != j && t[i].pair == t[j].pair
  }

  /** Another agreement of the same indexer and deployment is active. */
  ghost predicate PairTaken(t: Table, id: Id) {
    exists j :: SharesPair(t, id, j) && Active(t[j].status)
  }

  predicate AsksAccept(w: Write) {
    (w.Reconcile? && w.accept) || (w.ReconcileItem? && w.applyAccept)
  }

  /** The index refuses to accept an expired agreement while its pair is taken, whatever follows the
      accept in the same transaction. */
  ghost predicate Refused(t: Table, id: Id, w: Write) {
    id in t && AsksAccept(w) && t[id].status.Expired? && PairTaken(t, id)
  }

  /** The four kinds of item a batch tells apart, and those that ask for nothing. */
  datatype Shape = Paired | AcceptOnly | CancelOnly(kind: CancelKind) | Neither

  function ShapeOf(item: Item): Shape {
    if item.accept then (if item.cancel.Some? then Paired else AcceptOnly)
    else if item.cancel.Some? then CancelOnly(item.cancel.value)
    else Neither
  }

  ghost function Shaped(items: seq<Item>, shape: Shape): set<Id> {
    set k | 0 <= k < |items| && ShapeOf(items[k]) == shape :: items[k].id
  }

  ghost function Ids(items: seq<Item>): set<Id> {
    set k | 0 <= k < |items| :: items[k].id
  }

  function Paireds(items: seq<Item>): seq<Item> {
    if items == [] then []
    else
      var n := |items| - 1;
      Paireds(items[..n]) + if ShapeOf(items[n]) == Paired then [items[n]] else []
  }

  /** A paired item's accept meets an active agreement that no earlier paired item has ended. */
  ghost predicate RefusesPaired(t: Table, paired: seq<Item>, k: nat)
    requires k < |paired|
  {
    var id := paired[k].id;
    id in t && t[id].status.Expired? && exists j :: SharesPair(t, id, j) && Active(t[j].status) && j !in Ids(paired[..k])
  }

  /** An accept alone meets an agreement that is active once the paired items are through, or another
      that the same statement accepts. Cancels alone come too late to make room. */
  ghost predicate RefusesAcceptOnly(t: Table, items: seq<Item>, id: Id) {
    && id in Shaped(items, AcceptOnly) && id in t && t[id].status.Expired?
    && exists j :: SharesPair(t, id, j) && ActiveByThen(t, items, j)
  }

  ghost predicate ActiveByThen(t: Table, items: seq<Item>, j: Id)
    requires j in t
  {
    || (Active(t[j].status) && j !in Shaped(items, Paired))
    || (t[j].status.Expired? && j in Shaped(items, AcceptOnly))
  }

  /** The index refuses the batch, which then leaves nothing behind. */
  ghost predicate BatchRefused(t: Table, items: seq<Item>) {
    || (exists k :: 0 <= k < |Paireds(items)| && RefusesPaired(t, Paireds(items), k))
    || (exists id :: RefusesAcceptOnly(t, items, id))
  }

  // ----- Runs -----

  /** An INSERT needs its id free and its pair without an active agreement. */
  ghost predicate Insertable(t: Table, id: Id, pair: Pair) {
    id !in t && forall j :: j in t && t[j].pair == pair ==> !Active(t[j].status)
  }

  /** A write the database refuses leaves the table alone. */
  ghost function TableStep(t: Table, w: TableWrite): Table {
    match w
    case On(id, write, at) => if id in t && !Refused(t, id, write) then t[id := Apply(t[id], write, at)] else t
    case Register(id, pair, deadline, at) => if Insertable(t, id, pair) then t[id := Fresh(pair, deadline, at)] else t
    case Batch(items, at) =>
      if BatchRefused(t, items) then t else map id | id in t :: BatchRow(t[id], items, id, at)
  }

  ghost function TableAfter(t: Table, run: seq<TableWrite>): Table {
    if run == [] then t else TableStep(TableAfter(t, run[..|run| - 1]), run[|run| - 1])
  }

  lemma TableAfterNext(t: Table, run: seq<TableWrite>, w: TableWrite)
    ensures TableAfter(t, run + [w]) == TableStep(TableAfter(t, run), w)
  {
    assert (run + [w])[..|run|] == run;
  }

  /** What a table write does to the row with this id, as writes to that row. */
  ghost function ProjectStep(t: Table, w: TableWrite, id: Id): seq<Event> {
    match w
    case On(i, write, at) => if i == id && !Refused(t, id, write) then [Event(write, at)] else []
    case Register(_, _, _, _) => []
    case Batch(items, at) =>
      var item := ItemFor(items, id);
      if item.Some? && !BatchRefused(t, items) then [ItemEvent(item.value, at)] else []
  }

  ghost function Project(t: Table, run: seq<TableWrite>, id: Id): seq<Event> {
    if run == [] then []
    else
      var before := run[..|run| - 1];
      Project(t, before, id) + ProjectStep(TableAfter(t, before), run[|run| - 1], id)
  }

  lemma StepProjects(t: Table, w: TableWrite, id: Id)
    requires id in t
    ensures id in TableStep(t, w)
    ensures TableStep(t, w)[id] == After(t[id], ProjectStep(t, w, id))
  {
    var events := ProjectStep(t, w, id);
    if events != [] {
      assert events[..0] == [];
      assert After(t[id], events) == Step(t[id], events[0]);
    }
  }

  /** A row in the table is never removed, and runs of the table are runs of the row. */
  lemma {:induction false} RunProjects(t: Table, run: seq<TableWrite>, id: Id)
    requires id in t
    ensures id in TableAfter(t, run)
    ensures TableAfter(t, run)[id] == After(t[id], Project(t, run, id))
  {
    if run != [] {
      var before, last := run[..|run| - 1], run[|run| - 1];
      RunProjects(t, before, id);
      StepProjects(TableAfter(t, before), last, id);
      AfterConcat(t[id], Project(t, before, id), ProjectStep(TableAfter(t, before), last, id));
    }
  }

  /** Every row of a table built up from nothing is a fresh row after a run of its own writes. */
  lemma {:induction false} EveryRowHasARun(run: seq<TableWrite>, id: Id)
    requires id in TableAfter(map[], run)
    ensures exists pair, deadline, at, events :: TableAfter(map[], run)[id] == After(Fresh(pair, deadline, at), events)
  {
    var before, last := run[..|run| - 1], run[|run| - 1];
    var t := TableAfter(map[], before);
    if id in t {
      EveryRowHasARun(before, id);
      var pair, deadline, at, events :| t[id] == After(Fresh(pair, deadline, at), events);
      StepProjects(t, last, id);
      AfterConcat(Fresh(pair, deadline, at), events, ProjectStep(t, last, id));
    } else {
      assert last.Register?;
      assert TableAfter(map[], run)[id] == After(Fresh(last.pair, last.deadline, last.registeredAt), []);
    }
  }

  // ----- The index holds -----

  /** A write never changes whose agreement a row is, and makes it active only by accepting an
      expired one. */
  lemma WriteActivates(row: Row, e: Event)
    ensures Step(row, e).pair == row.pair
    ensures Active(Step(row, e).status) ==> Active(row.status) || (row.status.Expired? && AsksAccept(e.write))
  {
    match e.write
    case Reconcile(accept, cancel) => ReconcileActivates(row, accept, cancel, e.at);
    case ReconcileItem(accept, cancel, _) => ReconcileActivates(row, accept, cancel, e.at);
    case _ =>
  }

  lemma ReconcileActivates(row: Row, accept: bool, cancel: Option<CancelKind>, at: Time)
    ensures
      var after := Reconciled(row, accept, cancel, at);
      && after.pair == row.pair
      && (Active(after.status) ==> Active(row.status) || (row.status.Expired? && accept))
  {}

  lemma QuietChange(t: Table, id: Id, row: Row)
    requires Indexed(t) && id in t && row.pair == t[id].pair
    requires Active(row.status) ==> Active(t[id].status) || !PairTaken(t, id)
    ensures Indexed(t[id := row])
  {
    forall j | j in t && j != id && t[j].pair == row.pair && Active(row.status) && Active(t[j].status)
      ensures false
    {
      assert SharesPair(t, id, j);
    }
  }

  lemma OnKeepsIndex(t: Table, id: Id, w: Write, at: Time)
    requires Indexed(t)
    ensures Indexed(TableStep(t, On(id, w, at)))
  {
    if id in t && !Refused(t, id, w) {
      WriteActivates(t[id], Event(w, at));
      QuietChange(t, id, Apply(t[id], w, at));
    }
  }
}
