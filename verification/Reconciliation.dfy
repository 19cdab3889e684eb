/** Reconciling many agreements at once, and when it does what reconciling them one by one would. */
module Reconciliation {
  import opened Sql
  import opened Agreement
  import opened AgreementTable
  import opened Lifecycle

  function OutcomeIn(t: Table, id: Id, accept: bool, cancel: Option<CancelKind>): ReconciliationOutcome {
    if id in t then OutcomeOf(t[id], accept, cancel) else ReconciliationOutcome(false, false)
  }

  /** `apply_reconciliation` for each item in turn, at the given times. */
  ghost function OneByOne(t: Table, items: seq<Item>, times: seq<Time>): Table
    requires |times| == |items|
  {
    if items == [] then t
    else
      var n := |items| - 1;
      TableStep(OneByOne(t, items[..n], times[..n]), On(items[n].id, Reconcile(items[n].accept, items[n].cancel), times[n]))
  }

  /** What a caller gets back for an item: which transitions applied, or the index's refusal. */
  datatype Answer = Answered(outcome: ReconciliationOutcome) | RefusedByIndex

  ghost function AnswerIn(t: Table, item: Item): Answer {
    if Refused(t, item.id, Reconcile(item.accept, item.cancel)) then RefusedByIndex
    else Answered(OutcomeIn(t, item.id, item.accept, item.cancel))
  }

  ghost function AnswerAt(t: Table, order: seq<Item>, times: seq<Time>, k: nat): Answer
    requires |times| == |order| && k < |order|
  {
    AnswerIn(OneByOne(t, order[..k], times[..k]), order[k])
  }

  /** A batch the index refuses answers none of its items. */
  ghost function BatchAnswer(t: Table, items: seq<Item>, item: Item): Answer {
    if BatchRefused(t, items) then RefusedByIndex else Answered(OutcomeIn(t, item.id, item.accept, item.cancel))
  }

  lemma {:induction false} ItemForExtend(items: seq<Item>, item: Item, id: Id)
    ensures ItemFor(items + [item], id)
         == if ItemFor(items, id).Some? then ItemFor(items, id) else if item.id == id then Some(item) else None
  {
    if items != [] {
      assert (items + [item])[1..] == items[1..] + [item];
      ItemForExtend(items[1..], item, id);
    }
  }

  lemma ItemForUnique(items: seq<Item>, k: nat)
    requires UniqueIds(items) && k < |items|
    ensures ItemFor(items, items[k].id) == Some(items[k])
  {}

  lemma {:induction false} KeysKept(t: Table, items: seq<Item>, times: seq<Time>)
    requires |times| == |items|
    ensures OneByOne(t, items, times).Keys == t.Keys
  {
    if items != [] {
      KeysKept(t, items[..|items| - 1], times[..|items| - 1]);
    }
  }

  ghost predicate AllAnswered(t: Table, order: seq<Item>, times: seq<Time>)
    requires |times| == |order|
  {
    forall k :: 0 <= k < |order| ==> AnswerAt(t, order, times, k).Answered?
  }

  lemma AnswerInPrefix(t: Table, order: seq<Item>, times: seq<Time>, n: nat, k: nat)
    requires |times| == |order| && k < n <= |order|
    ensures AnswerAt(t, order[..n], times[..n], k) == AnswerAt(t, order, times, k)
  {
    assert order[..n][..k] == order[..k] && times[..n][..k] == times[..k];
  }

  lemma AnsweredPrefix(t: Table, order: seq<Item>, times: seq<Time>)
    requires |times| == |order| && order != [] && AllAnswered(t, order, times)
    ensures AllAnswered(t, order[..|order| - 1], times[..|order| - 1])
    ensures AnswerAt(t, order, times, |order| - 1).Answered?
  {
    var before, earlier := order[..|order| - 1], times[..|order| - 1];
    forall k | 0 <= k < |before| ensures AnswerAt(t, before, earlier, k).Answered? {
      AnswerInPrefix(t, order, times, |order| - 1, k);
    }
  }

  /** While none is refused, an item leaves the row it names as reconciling that row alone would, and
      no other row. */
  lemma {:induction false} OneByOnePointwise(t: Table, items: seq<Item>, times: seq<Time>, id: Id)
    requires UniqueIds(items) && |times| == |items| && AllAnswered(t, items, times) && id in t
    ensures id in OneByOne(t, items, times)
    ensures
      var item := ItemFor(items, id);
      && (item.None? ==> OneByOne(t, items, times)[id] == t[id])
      && (item.Some? ==>
            exists at :: OneByOne(t, items, times)[id] == Reconciled(t[id], item.value.accept, item.value.cancel, at))
  {
    KeysKept(t, items, times);
    if items != [] {
      var n := |items| - 1;
      AnsweredPrefix(t, items, times);
      OneByOnePointwise(t, items[..n], times[..n], id);
      assert items == items[..n] + [items[n]];
      ItemForExtend(items[..n], items[n], id);
      if items[n].id == id {
        assert OneByOne(t, items, times)[id] == Reconciled(t[id], items[n].accept, items[n].cancel, times[n]);
      }
    }
  }

  lemma StatusIgnoresTime(row: Row, accept: bool, cancel: Option<CancelKind>, a: Time, b: Time)
    ensures Reconciled(row, accept, cancel, a).status == Reconciled(row, accept, cancel, b).status
  {}

  // ----- When the batch is one by one -----

  /** The same items, in any order. */
  ghost predicate IsOrder(items: seq<Item>, order: seq<Item>) {
    UniqueIds(order) && forall item :: item in order <==> item in items
  }

  /** The batch leaves every row in the status reconciling one by one leaves it in, and answers every
      item the same. */
  ghost predicate Agrees(t: Table, items: seq<Item>, at: Time, order: seq<Item>, times: seq<Time>)
    requires |times| == |order|
  {
    && (forall id :: id in t ==>
          && id in OneByOne(t, order, times)
          && TableStep(t, Batch(items, at))[id].status == OneByOne(t, order, times)[id].status)
    && (forall k :: 0 <= k < |order| ==> AnswerAt(t, order, times, k) == BatchAnswer(t, items, order[k]))
  }

  ghost predicate AgreesAlways(t: Table, items: seq<Item>, at: Time) {
    forall order, times :: IsOrder(items, order) && |times| == |order| ==> Agrees(t, items, at, order, times)
  }

  /** The item accepts an expired agreement. */
  predicate Revives(t: Table, item: Item) {
    item.accept && item.id in t && t[item.id].status.Expired?
  }

  ghost predicate ReviveTogether(t: Table, item: Item, other: Item) {
    && Revives(t, item) && Revives(t, other) && ShapeOf(other) == AcceptOnly
    && SharesPair(t, item.id, other.id)
  }

  /** No accept of an expired agreement shares its pair with an active one, nor with another expired
      one that the batch accepts without cancelling. */
  ghost predicate Compatible(t: Table, items: seq<Item>) {
    && (forall item :: item in items && Revives(t, item) ==> !PairTaken(t, item.id))
    && (forall item, other :: item in items && other in items ==> !ReviveTogether(t, item, other))
  }

  /** Every item accepts an expired agreement whose pair is taken, so none can apply. */
  ghost predicate NoneCanApply(t: Table, items: seq<Item>) {
    items != [] && forall item :: item in items ==> Revives(t, item) && PairTaken(t, item.id)
  }

  lemma SameItem(items: seq<Item>, order: seq<Item>, id: Id)
    requires UniqueIds(items) && IsOrder(items, order)
    ensures ItemFor(items, id) == ItemFor(order, id)
  {
    var a, b := ItemFor(items, id), ItemFor(order, id);
    if a.Some? {
      assert a.value in order;
      var k :| 0 <= k < |order| && order[k] == a.value;
      ItemForUnique(order, k);
    }
    if b.Some? {
      assert b.value in items;
    }
  }

  /** What a reconciled row is when it ends up active. */
  lemma ActiveAfter(row: Row, item: Item, at: Time)
    ensures
      var after := Reconciled(row, item.accept, item.cancel, at);
      && after.pair == row.pair
      && (ShapeOf(item) == Paired ==> !Active(after.status))
      && (ShapeOf(item) == AcceptOnly ==> (Active(after.status) <==> Active(row.status) || row.status.Expired?))
      && (Active(after.status) ==> Active(row.status) || (ShapeOf(item) == AcceptOnly && row.status.Expired?))
  {}

  /** Compatible items never refuse one another, whatever the order. */
  lemma {:induction false} CompatibleAnswers(t: Table, order: seq<Item>, times: seq<Time>)
    requires UniqueIds(order) && |times| == |order| && Compatible(t, order)
    ensures AllAnswered(t, order, times)
  {
    if order != [] {
      var n := |order| - 1;
      var before := order[..n];
      assert forall item :: item in before ==> item in order;
      CompatibleAnswers(t, before, times[..n]);
      forall k | 0 <= k < n ensures AnswerAt(t, order, times, k).Answered? {
        AnswerInPrefix(t, order, times, n, k);
        assert AnswerAt(t, before, times[..n], k).Answered?;
      }
      LastAnswers(t, order, times);
    }
  }

  lemma LastAnswers(t: Table, order: seq<Item>, times: seq<Time>)
    requires UniqueIds(order) && |times| == |order| && order != [] && Compatible(t, order)
    requires AllAnswered(t, order[..|order| - 1], times[..|order| - 1])
    ensures AnswerAt(t, order, times, |order| - 1).Answered?
  {
    var n := |order| - 1;
    var before, item := order[..n], order[n];
    var found := OneByOne(t, before, times[..n]);
    KeysKept(t, before, times[..n]);
    if item.id in t && item.accept && found[item.id].status.Expired? {
      OneByOnePointwise(t, before, times[..n], item.id);
      assert ItemFor(before, item.id).None?;
      assert item in order && Revives(t, item);
      forall j | SharesPair(found, item.id, j) ensures !Active(found[j].status) {
        OneByOnePointwise(t, before, times[..n], j);
        var other := ItemFor(before, j);
        if other.Some? {
          var at :| found[j] == Reconciled(t[j], other.value.accept, other.value.cancel, at);
          ActiveAfter(t[j], other.value, at);
          assert other.value in order;
          assert !ReviveTogether(t, item, other.value);
        }
        assert SharesPair(t, item.id, j);
      }
    }
  }

  lemma {:induction false} PairedMembers(items: seq<Item>, item: Item)
    ensures item in Paireds(items) <==> item in items && ShapeOf(item) == Paired
  {
    if items != [] {
      var n := |items| - 1;
      PairedMembers(items[..n], item);
      assert items == items[..n] + [items[n]];
    }
  }

  lemma {:induction false} PairedsUnique(items: seq<Item>)
    requires UniqueIds(items)
    ensures UniqueIds(Paireds(items))
  {
    if items != [] {
      var n := |items| - 1;
      var before := Paireds(items[..n]);
      PairedsUnique(items[..n]);
      forall i | 0 <= i < |before| ensures before[i].id != items[n].id {
        PairedMembers(items[..n], before[i]);
        var j :| 0 <= j < n && items[..n][j] == before[i];
        assert items[j].id != items[n].id;
      }
    }
  }

  lemma PairedsAre(items: seq<Item>)
    ensures forall item :: item in Paireds(items) <==> item in items && ShapeOf(item) == Paired
    ensures UniqueIds(items) ==> UniqueIds(Paireds(items))
  {
    forall item { PairedMembers(items, item); }
    if UniqueIds(items) { PairedsUnique(items); }
  }

  lemma ShapedHas(items: seq<Item>, shape: Shape, id: Id) returns (item: Item)
    requires id in Shaped(items, shape)
    ensures item in items && item.id == id && ShapeOf(item) == shape
  {
    var k :| 0 <= k < |items| && ShapeOf(items[k]) == shape && items[k].id == id;
    item := items[k];
  }

  lemma CompatibleBatch(t: Table, items: seq<Item>)
    requires Compatible(t, items)
    ensures !BatchRefused(t, items)
  {
    var paired := Paireds(items);
    PairedsAre(items);
    forall k | 0 <= k < |paired| ensures !RefusesPaired(t, paired, k) {
      assert paired[k] in items;
      if Revives(t, paired[k]) { assert !PairTaken(t, paired[k].id); }
    }
    forall id ensures !RefusesAcceptOnly(t, items, id) {
      if RefusesAcceptOnly(t, items, id) {
        var item := ShapedHas(items, AcceptOnly, id);
        var j :| SharesPair(t, id, j) && ActiveByThen(t, items, j);
        assert Revives(t, item) && !PairTaken(t, id);
        var other := ShapedHas(items, AcceptOnly, j);
        assert ReviveTogether(t, item, other);
      }
    }
  }

  /** The batch and an order in which none is refused leave a row in the same status. */
  lemma StatusesAgree(t: Table, items: seq<Item>, at: Time, order: seq<Item>, times: seq<Time>, id: Id)
    requires UniqueIds(items) && IsOrder(items, order) && |times| == |order|
    requires !BatchRefused(t, items) && AllAnswered(t, order, times) && id in t
    ensures id in OneByOne(t, order, times)
    ensures TableStep(t, Batch(items, at))[id].status == OneByOne(t, order, times)[id].status
  {
    OneByOnePointwise(t, order, times, id);
    SameItem(items, order, id);
    BatchRowStatus(t[id], items, id, at);
    var item := ItemFor(items, id);
    if item.Some? {
      var when :| OneByOne(t, order, times)[id] == Reconciled(t[id], item.value.accept, item.value.cancel, when);
      StatusIgnoresTime(t[id], item.value.accept, item.value.cancel, at, when);
    }
  }

  /** Compatible items: the batch and every order of them do the same. */
  lemma CompatibleAgrees(t: Table, items: seq<Item>, at: Time, order: seq<Item>, times: seq<Time>)
    requires UniqueIds(items) && Compatible(t, items) && IsOrder(items, order) && |times| == |order|
    ensures Agrees(t, items, at, order, times)
  {
    CompatibleBatch(t, items);
    CompatibleAnswers(t, order, times);
    forall id | id in t
      ensures id in OneByOne(t, order, times)
      ensures TableStep(t, Batch(items, at))[id].status == OneByOne(t, order, times)[id].status
    {
      StatusesAgree(t, items, at, order, times, id);
    }
    forall k | 0 <= k < |order|
      ensures AnswerAt(t, order, times, k) == BatchAnswer(t, items, order[k])
    {
      AnswersAsBatch(t, order, times, k);
    }
  }

  lemma {:induction false} PrefixAnswered(t: Table, order: seq<Item>, times: seq<Time>, k: nat)
    requires |times| == |order| && k <= |order| && AllAnswered(t, order, times)
    ensures AllAnswered(t, order[..k], times[..k])
  {
    forall i | 0 <= i < k ensures AnswerAt(t, order[..k], times[..k], i).Answered? {
      AnswerInPrefix(t, order, times, k, i);
      assert AnswerAt(t, order, times, i).Answered?;
    }
  }

  lemma AnswersAsBatch(t: Table, order: seq<Item>, times: seq<Time>, k: nat)
    requires UniqueIds(order) && |times| == |order| && k < |order| && AllAnswered(t, order, times)
    ensures AnswerAt(t, order, times, k) == Answered(OutcomeIn(t, order[k].id, order[k].accept, order[k].cancel))
  {
    var before, id := order[..k], order[k].id;
    assert AnswerAt(t, order, times, k).Answered?;
    PrefixAnswered(t, order, times, k);
    KeysKept(t, before, times[..k]);
    if id in t {
      OneByOnePointwise(t, before, times[..k], id);
      assert forall i :: 0 <= i < k ==> before[i] == order[i];
      assert ItemFor(before, id).None?;
    }
  }

  lemma {:induction false} NoneApplies(t: Table, order: seq<Item>, times: seq<Time>)
    requires |times| == |order|
    requires forall item :: item in order ==> Revives(t, item) && PairTaken(t, item.id)
    ensures OneByOne(t, order, times) == t
  {
    if order != [] {
      var n := |order| - 1;
      assert forall item :: item in order[..n] ==> item in order;
      NoneApplies(t, order[..n], times[..n]);
      assert order[n] in order;
    }
  }

  lemma NoneApplyBatch(t: Table, items: seq<Item>)
    requires NoneCanApply(t, items)
    ensures BatchRefused(t, items)
  {
    PairedsAre(items);
    var paired := Paireds(items);
    if paired != [] {
      assert paired[0] in items;
      var j :| SharesPair(t, paired[0].id, j) && Active(t[j].status);
      assert Ids(paired[..0]) == {};
      assert RefusesPaired(t, paired, 0);
    } else {
      var item := items[0];
      assert item in items;
      var j :| SharesPair(t, item.id, j) && Active(t[j].status);
      assert forall other :: other in items ==> ShapeOf(other) != Paired;
      assert ShapeOf(items[0]) == AcceptOnly;
      assert ActiveByThen(t, items, j);
      assert RefusesAcceptOnly(t, items, item.id);
    }
  }

  lemma NoneCanApplyAgrees(t: Table, items: seq<Item>, at: Time, order: seq<Item>, times: seq<Time>)
    requires NoneCanApply(t, items) && IsOrder(items, order) && |times| == |order|
    ensures Agrees(t, items, at, order, times)
  {
    NoneApplyBatch(t, items);
    NoneApplies(t, order, times);
    forall k | 0 <= k < |order|
      ensures AnswerAt(t, order, times, k) == RefusedByIndex
    {
      assert forall item :: item in order[..k] ==> item in order;
      NoneApplies(t, order[..k], times[..k]);
      assert order[k] in order;
    }
  }

  /** The items with the `k`-th put first. */
  function Front(items: seq<Item>, k: nat): seq<Item>
    requires k < |items|
  {
    [items[k]] + items[..k] + items[k + 1..]
  }

  lemma FrontIsOrder(items: seq<Item>, k: nat)
    requires UniqueIds(items) && k < |items|
    ensures IsOrder(items, Front(items, k)) && |Front(items, k)| == |items|
  {
    var order := Front(items, k);
    assert order[0] == items[k];
    assert forall i :: 0 < i <= k ==> order[i] == items[i - 1];
    assert forall i :: k < i < |items| ==> order[i] == items[i];
    forall item | item in items ensures item in order {
      var i :| 0 <= i < |items| && items[i] == item;
      assert item == order[if i == k then 0 else if i < k then i + 1 else i];
    }
  }

  lemma FirstAnswer(t: Table, order: seq<Item>, times: seq<Time>)
    requires |times| == |order| && order != []
    ensures AnswerAt(t, order, times, 0) == AnswerIn(t, order[0])
  {
    assert order[..0] == [] && times[..0] == [];
  }

  /** An item that would be answered alone but not by the batch, or the other way round, tells the
      two apart when it comes first. */
  lemma FirstTellsApart(t: Table, items: seq<Item>, at: Time, k: nat)
    requires UniqueIds(items) && k < |items| && AnswerIn(t, items[k]) != BatchAnswer(t, items, items[k])
    ensures !AgreesAlways(t, items, at)
  {
    var order, times := Front(items, k), seq(|items|, i => at);
    FrontIsOrder(items, k);
    FirstAnswer(t, order, times);
    assert !Agrees(t, items, at, order, times);
  }

  lemma OneIsStep(t: Table, item: Item, at: Time)
    ensures OneByOne(t, [item], [at]) == TableStep(t, On(item.id, Reconcile(item.accept, item.cancel), at))
  {
    var none: seq<Item>, never: seq<Time> := [], [];
    assert [item][..0] == none && [at][..0] == never;
    assert OneByOne(t, none, never) == t;
  }

  lemma SecondRefused(t: Table, order: seq<Item>, times: seq<Time>)
    requires |times| == |order| >= 2 && ReviveTogether(t, order[1], order[0]) && !PairTaken(t, order[0].id)
    ensures AnswerAt(t, order, times, 1) == RefusedByIndex
  {
    var first, second := order[0], order[1];
    assert order[..1] == [first] && times[..1] == [times[0]];
    var found := OneByOne(t, [first], [times[0]]);
    OneIsStep(t, first, times[0]);
    assert found[first.id].status == AcceptedOnChain && found[second.id] == t[second.id];
    assert SharesPair(found, second.id, first.id);
    assert PairTaken(found, second.id);
  }

  lemma TogetherTellsApart(t: Table, items: seq<Item>, at: Time, i: nat, j: nat)
    requires UniqueIds(items) && i < |items| && j < |items| && !BatchRefused(t, items)
    requires ReviveTogether(t, items[i], items[j]) && !PairTaken(t, items[j].id)
    ensures !AgreesAlways(t, items, at)
  {
    var once := Front(items, i);
    FrontIsOrder(items, i);
    assert items[j] in once;
    var k :| 0 <= k < |once| && once[k] == items[j];
    var order, times := Front(once, k), seq(|once|, n => at);
    FrontIsOrder(once, k);
    assert k > 0;
    assert order[0] == items[j] && order[1] == items[i];
    SecondRefused(t, order, times);
    assert IsOrder(items, order);
    assert !Agrees(t, items, at, order, times);
  }

  /** The batch and reconciling one by one agree in every order, on every status and every answer, if
      and only if the items are compatible or none of them can apply. */
  lemma {:induction false} BatchIsOneByOneExactly(t: Table, items: seq<Item>, at: Time)
    requires UniqueIds(items)
    ensures AgreesAlways(t, items, at) <==> Compatible(t, items) || NoneCanApply(t, items)
  {
    if Compatible(t, items) {
      forall order, times | IsOrder(items, order) && |times| == |order| ensures Agrees(t, items, at, order, times) {
        CompatibleAgrees(t, items, at, order, times);
      }
    } else if NoneCanApply(t, items) {
      forall order, times | IsOrder(items, order) && |times| == |order| ensures Agrees(t, items, at, order, times) {
        NoneCanApplyAgrees(t, items, at, order, times);
      }
    } else {
      SomeOrderDiffers(t, items, at);
    }
  }

  lemma SomeOrderDiffers(t: Table, items: seq<Item>, at: Time)
    requires UniqueIds(items) && !Compatible(t, items) && !NoneCanApply(t, items)
    ensures !AgreesAlways(t, items, at)
  {
    if BatchRefused(t, items) {
      NotEmptyIfRefused(t, items);
      var item :| item in items && !(Revives(t, item) && PairTaken(t, item.id));
      var k :| 0 <= k < |items| && items[k] == item;
      FirstTellsApart(t, items, at, k);
    } else if item :| item in items && Revives(t, item) && PairTaken(t, item.id) {
      var k :| 0 <= k < |items| && items[k] == item;
      FirstTellsApart(t, items, at, k);
    } else {
      var item, other :| item in items && other in items && ReviveTogether(t, item, other);
      var i :| 0 <= i < |items| && items[i] == item;
      var j :| 0 <= j < |items| && items[j] == other;
      TogetherTellsApart(t, items, at, i, j);
    }
  }

  lemma NotEmptyIfRefused(t: Table, items: seq<Item>)
    requires BatchRefused(t, items)
    ensures items != []
  {}

  /** A lagging accept of an expired agreement arrives with the end of the newer one. */
  ghost predicate LaggingAccept(t: Table, earlier: Item, newer: Item) {
    && SharesPair(t, earlier.id, newer.id) && Indexed(t)
    && t[earlier.id].status.Expired? && t[newer.id].status.AcceptedOnChain?
    && ShapeOf(earlier) == AcceptOnly && newer.cancel.Some? && !newer.accept
  }

  lemma LaggingBatch(t: Table, earlier: Item, newer: Item)
    requires LaggingAccept(t, earlier, newer)
    ensures BatchRefused(t, [earlier, newer])
  {
    var items := [earlier, newer];
    assert items[0] == earlier && items[1] == newer;
    assert earlier.id in Shaped(items, AcceptOnly);
    assert newer.id !in Shaped(items, Paired);
    assert ActiveByThen(t, items, newer.id);
    assert RefusesAcceptOnly(t, items, earlier.id);
  }

  lemma LaggingOrder(t: Table, earlier: Item, newer: Item, a: Time, b: Time)
    requires LaggingAccept(t, earlier, newer)
    ensures
      var after := OneByOne(t, [newer, earlier], [a, b]);
      && after.Keys == t.Keys
      && after[newer.id].status == CancelTo(t[newer.id], newer.cancel.value)
      && after[earlier.id].status.AcceptedOnChain?
  {
    var order, times := [newer, earlier], [a, b];
    assert order[..1] == [newer] && times[..1] == [a];
    var once := OneByOne(t, [newer], [a]);
    OneIsStep(t, newer, a);
    forall j | SharesPair(once, earlier.id, j) ensures !Active(once[j].status) {
      assert j != newer.id ==> SharesPair(t, earlier.id, j);
    }
    assert OneByOne(t, order, times) == TableStep(once, On(earlier.id, Reconcile(earlier.accept, earlier.cancel), b));
  }

  /** The batch accepts before it cancels, so the index refuses it whole, though both items apply one
      by one if the end comes first, and the accept alone is refused if it does not. */
  lemma BatchRefusesWhatAnOrderTakes(t: Table, earlier: Item, newer: Item, a: Time, b: Time, at: Time)
    requires LaggingAccept(t, earlier, newer)
    ensures TableStep(t, Batch([earlier, newer], at)) == t && BatchAnswer(t, [earlier, newer], newer) == RefusedByIndex
    ensures
      var after := OneByOne(t, [newer, earlier], [a, b]);
      && after.Keys == t.Keys
      && after[newer.id].status == CancelTo(t[newer.id], newer.cancel.value)
      && after[earlier.id].status.AcceptedOnChain?
    ensures AnswerIn(t, earlier) == RefusedByIndex && AnswerIn(t, newer) == Answered(ReconciliationOutcome(false, true))
  {
    LaggingBatch(t, earlier, newer);
    LaggingOrder(t, earlier, newer, a, b);
  }

  /** Such a table comes about: an agreement expires, and its indexer accepts the one that replaces it. */
  lemma LaggingAcceptArises(earlier: Item, newer: Item, pair: Pair, deadline: int, at: Time)
    requires earlier.id != newer.id && ShapeOf(earlier) == AcceptOnly && newer.cancel.Some? && !newer.accept
    ensures LaggingAccept(TableAfter(map[], LaggingRun(earlier.id, newer.id, pair, deadline, at)), earlier, newer)
  {
    var a, b := earlier.id, newer.id;
    var w1, w2 := Register(a, pair, deadline, at), On(a, MarkExpired, at);
    var w3, w4 := Register(b, pair, deadline, at), On(b, Reconcile(true, None), at);
    assert [w1, w2] + [w3] == [w1, w2, w3] && [w1, w2, w3] + [w4] == [w1, w2, w3, w4];
    ExpiredAlone(a, pair, deadline, at);
    TableAfterNext(map[], [w1, w2], w3);
    TableAfterNext(map[], [w1, w2, w3], w4);
    AlwaysIndexed([w1, w2, w3, w4]);
  }

  lemma ExpiredAlone(id: Id, pair: Pair, deadline: int, at: Time)
    ensures TableAfter(map[], [Register(id, pair, deadline, at), On(id, MarkExpired, at)])
         == map[id := Fresh(pair, deadline, at).(status := Expired)]
  {
    var w1, w2 := Register(id, pair, deadline, at), On(id, MarkExpired, at);
    assert [] + [w1] == [w1] && [w1] + [w2] == [w1, w2];
    TableAfterNext(map[], [], w1);
    TableAfterNext(map[], [w1], w2);
  }

  function LaggingRun(a: Id, b: Id, pair: Pair, deadline: int, at: Time): seq<TableWrite> {
    [Register(a, pair, deadline, at), On(a, MarkExpired, at), Register(b, pair, deadline, at), On(b, Reconcile(true, None), at)]
  }

  lemma MovedOrSame(row: Row, item: Item, at: Time)
    ensures Step(row, ItemEvent(item, at)).status == row.status ==> Step(row, ItemEvent(item, at)) == row
  {
    NeverRollsBack(row, item.accept, item.cancel);
  }

  /** The audits of a row the batch did not move stay as they were. */
  lemma AuditsOnlyWhereMoved(t: Table, items: seq<Item>, at: Time, id: Id)
    requires id in t && TableStep(t, Batch(items, at))[id].status == t[id].status
    ensures TableStep(t, Batch(items, at))[id] == t[id]
  {
    var item := ItemFor(items, id);
    if item.Some? { MovedOrSame(t[id], item.value, at); }
  }

  /** `seen` where there is one, and otherwise what was there. */
  predicate Recorded<T(==)>(after: Option<T>, before: Option<T>, seen: Option<T>) {
    after == if seen.Some? then seen else before
  }

  function SeenTime(at: Option<u64>): Option<int> {
    if at.Some? then Some(AsI64(at.value)) else None
  }

  lemma ItemRecordsAccept(row: Row, item: Item, at: Time)
    requires item.accept && (row.status.Created? || row.status.Expired?)
    ensures
      var after := Step(row, ItemEvent(item, at));
      && Recorded(after.acceptedAt, row.acceptedAt, SeenTime(item.audit.acceptedAt))
      && Recorded(after.acceptedTx, row.acceptedTx, item.audit.acceptedTx)
  {
    NeverRollsBack(row, item.accept, item.cancel);
  }

  lemma ItemRecordsEnd(row: Row, item: Item, at: Time)
    requires !Ended(row.status) && Ended(Step(row, ItemEvent(item, at)).status)
    ensures
      var after := Step(row, ItemEvent(item, at));
      && Recorded(after.canceledAt, row.canceledAt, SeenTime(item.audit.canceledAt))
      && Recorded(after.canceledBy, row.canceledBy, item.audit.canceledBy)
      && Recorded(after.canceledTx, row.canceledTx, item.audit.canceledTx)
  {
    NeverRollsBack(row, item.accept, item.cancel);
  }

  /** What a batch leaves on record of the accepts and ends it applies: the observed value where there
      is one, and otherwise what was there. */
  lemma BatchRecordsWhatItSaw(t: Table, items: seq<Item>, at: Time, k: nat)
    requires UniqueIds(items) && !BatchRefused(t, items) && k < |items| && items[k].id in t
    ensures
      var item, row, after := items[k], t[items[k].id], TableStep(t, Batch(items, at))[items[k].id];
      && (item.accept && (row.status.Created? || row.status.Expired?) ==>
            && Recorded(after.acceptedAt, row.acceptedAt, SeenTime(item.audit.acceptedAt))
            && Recorded(after.acceptedTx, row.acceptedTx, item.audit.acceptedTx))
      && (!Ended(row.status) && Ended(after.status) ==>
            && Recorded(after.canceledAt, row.canceledAt, SeenTime(item.audit.canceledAt))
            && Recorded(after.canceledBy, row.canceledBy, item.audit.canceledBy)
            && Recorded(after.canceledTx, row.canceledTx, item.audit.canceledTx))
  {
    var item, row := items[k], t[items[k].id];
    ItemForUnique(items, k);
    assert TableStep(t, Batch(items, at))[item.id] == Step(row, ItemEvent(item, at));
    if item.accept && (row.status.Created? || row.status.Expired?) { ItemRecordsAccept(row, item, at); }
    if !Ended(row.status) && Ended(Step(row, ItemEvent(item, at)).status) { ItemRecordsEnd(row, item, at); }
  }

  // ----- The index holds -----

  lemma BatchRowStatus(row: Row, items: seq<Item>, id: Id, at: Time)
    ensures
      var item := ItemFor(items, id);
      var after := BatchRow(row, items, id, at);
      && after.pair == row.pair
      && after.status == if item.Some? then Reconciled(row, item.value.accept, item.value.cancel, at).status else row.status
  {
    var item := ItemFor(items, id);
    if item.Some? {
      NeverRollsBack(row, item.value.accept, item.value.cancel);
      ActiveAfter(row, item.value, at);
    }
  }

  /** A row a batch leaves active was active by the time of its accepts. */
  lemma ActiveInBatch(t: Table, items: seq<Item>, id: Id, at: Time)
    requires UniqueIds(items) && id in t && Active(BatchRow(t[id], items, id, at).status)
    ensures ActiveByThen(t, items, id)
  {
    var item := ItemFor(items, id);
    BatchRowStatus(t[id], items, id, at);
    ShapedItem(items, Paired, id);
    ShapedItem(items, AcceptOnly, id);
    if item.Some? { ActiveAfter(t[id], item.value, at); }
  }

  /** Two rows of one pair that are active by then are what an accept is refused for. */
  lemma TwoActive(t: Table, items: seq<Item>, i: Id, j: Id)
    requires Indexed(t) && SharesPair(t, i, j) && ActiveByThen(t, items, i) && ActiveByThen(t, items, j)
    ensures RefusesAcceptOnly(t, items, i) || RefusesAcceptOnly(t, items, j)
  {
    assert SharesPair(t, j, i);
  }

  lemma BatchKeepsIndex(t: Table, items: seq<Item>, at: Time)
    requires Indexed(t) && UniqueIds(items)
    ensures Indexed(TableStep(t, Batch(items, at)))
  {
    var after := TableStep(t, Batch(items, at));
    if !BatchRefused(t, items) {
      forall i, j | i in after && j in after && Active(after[i].status) && Active(after[j].status)
                    && after[i].pair == after[j].pair
        ensures i == j
      {
        ActiveInBatch(t, items, i, at);
        ActiveInBatch(t, items, j, at);
        BatchRowStatus(t[i], items, i, at);
        BatchRowStatus(t[j], items, j, at);
        if i != j { TwoActive(t, items, i, j); }
      }
    }
  }

  /** In every run an indexer has at most one active agreement per deployment. */
  lemma {:induction false} AlwaysIndexed(run: seq<TableWrite>)
    requires forall i :: 0 <= i < |run| && run[i].Batch? ==> UniqueIds(run[i].items)
    ensures Indexed(TableAfter(map[], run))
  {
    if run != [] {
      var before, last := run[..|run| - 1], run[|run| - 1];
      AlwaysIndexed(before);
      match last
      case On(id, w, at) => OnKeepsIndex(TableAfter(map[], before), id, w, at);
      case Register(_, _, _, _) =>
      case Batch(items, at) => BatchKeepsIndex(TableAfter(map[], before), items, at);
    }
  }

  // ----- The batch, part done -----

  const NOTHING := ReconciliationOutcome(false, false)

  ghost function PartRow(row: Row, items: seq<Item>, id: Id, done: set<Id>, at: Time): Row {
    var item := ItemFor(items, id);
    if id in done && item.Some? then Reconciled(row, item.value.accept, item.value.cancel, at) else row
  }

  /** The table once the items for `done` are reconciled, their audits not yet written. */
  ghost function Part(t: Table, items: seq<Item>, done: set<Id>, at: Time): Table {
    map id | id in t :: PartRow(t[id], items, id, done, at)
  }

  ghost function PartOutcome(t: Table, items: seq<Item>, id: Id, done: set<Id>): ReconciliationOutcome {
    var item := ItemFor(items, id);
    if id in done && item.Some? then OutcomeIn(t, id, item.value.accept, item.value.cancel) else NOTHING
  }

  ghost function PartOutcomes(t: Table, items: seq<Item>, done: set<Id>): map<Id, ReconciliationOutcome> {
    map id | id in Ids(items) :: PartOutcome(t, items, id, done)
  }

  lemma ShapedItem(items: seq<Item>, shape: Shape, id: Id)
    requires UniqueIds(items)
    ensures id in Shaped(items, shape) <==> ItemFor(items, id).Some? && ShapeOf(ItemFor(items, id).value) == shape
  {
    var found := ItemFor(items, id);
    if found.Some? {
      var k :| 0 <= k < |items| && items[k] == found.value;
    }
    if id in Shaped(items, shape) {
      var k :| 0 <= k < |items| && ShapeOf(items[k]) == shape && items[k].id == id;
      ItemForUnique(items, k);
    }
  }

  lemma ShapedExtend(items: seq<Item>, item: Item, shape: Shape)
    ensures Shaped(items + [item], shape) == Shaped(items, shape) + if ShapeOf(item) == shape then {item.id} else {}
  {
    var more := items + [item];
    forall id | id in Shaped(items, shape) ensures id in Shaped(more, shape) {
      var k :| 0 <= k < |items| && ShapeOf(items[k]) == shape && items[k].id == id;
      assert more[k] == items[k];
    }
    assert more[|items|] == item;
  }

  function ShapedIds(items: seq<Item>, shape: Shape): seq<Id> {
    if items == [] then []
    else
      var n := |items| - 1;
      ShapedIds(items[..n], shape) + if ShapeOf(items[n]) == shape then [items[n].id] else []
  }

  lemma {:induction false} ShapedIdsAre(items: seq<Item>, shape: Shape)
    ensures (set id | id in ShapedIds(items, shape)) == Shaped(items, shape)
  {
    if items != [] {
      var n := |items| - 1;
      ShapedIdsAre(items[..n], shape);
      ShapedExtend(items[..n], items[n], shape);
      assert items == items[..n] + [items[n]];
    }
  }

  /** Items that ask for nothing change nothing, so they may count as done. */
  lemma NeitherIsDone(t: Table, items: seq<Item>, done: set<Id>, at: Time)
    requires UniqueIds(items)
    ensures Part(t, items, done, at) == Part(t, items, done + Shaped(items, Neither), at)
    ensures PartOutcomes(t, items, done) == PartOutcomes(t, items, done + Shaped(items, Neither))
  {
    forall id
      ensures id in Shaped(items, Neither) ==> ItemFor(items, id).Some? && ShapeOf(ItemFor(items, id).value) == Neither
    {
      ShapedItem(items, Neither, id);
    }
  }

  lemma PairedStage(t: Table, items: seq<Item>, done: set<Id>, n: nat, at: Time)
    requires UniqueIds(items) && n < |items| && items[n].id !in done
    ensures
      var item, part := items[n], Part(t, items, done, at);
      Part(t, items, done + {item.id}, at)
      == if item.id in t then part[item.id := Reconciled(part[item.id], item.accept, item.cancel, at)] else part
  {
    ItemForUnique(items, n);
    var id, part, now := items[n].id, Part(t, items, done, at), Part(t, items, done + {items[n].id}, at);
    assert forall i :: i in t && i != id ==> now[i] == part[i];
  }

  lemma PairedOutcomeAt(t: Table, items: seq<Item>, done: set<Id>, n: nat, id: Id, at: Time)
    requires UniqueIds(items) && n < |items| && items[n].id !in done
    ensures
      var item, part := items[n], Part(t, items, done, at);
      PartOutcome(t, items, id, done + {item.id})
      == if id == item.id then OutcomeIn(part, id, item.accept, item.cancel) else PartOutcome(t, items, id, done)
  {
    ItemForUnique(items, n);
    assert id == items[n].id && id in t ==> Part(t, items, done, at)[id] == t[id];
  }

  lemma PairedOutcome(t: Table, items: seq<Item>, done: set<Id>, n: nat, at: Time)
    requires UniqueIds(items) && n < |items| && items[n].id !in done
    ensures
      var item, part := items[n], Part(t, items, done, at);
      PartOutcomes(t, items, done + {item.id})
      == PartOutcomes(t, items, done)[item.id := OutcomeIn(part, item.id, item.accept, item.cancel)]
  {
    forall id { PairedOutcomeAt(t, items, done, n, id, at); }
  }

  lemma AcceptOnlyRow(row: Row, item: Item, at: Time)
    requires ShapeOf(item) == AcceptOnly
    ensures Reconciled(row, item.accept, item.cancel, at)
         == if Acceptable(row.status) then row.(status := AcceptedOnChain, updatedAt := at) else row
    ensures OutcomeOf(row, item.accept, item.cancel) == ReconciliationOutcome(Acceptable(row.status), false)
  {}

  lemma CancelOnlyRow(row: Row, item: Item, kind: CancelKind, at: Time)
    requires ShapeOf(item) == CancelOnly(kind)
    ensures Reconciled(row, item.accept, item.cancel, at)
         == if Cancels(kind, row.status) then row.(status := CancelTo(row, kind), updatedAt := at) else row
    ensures OutcomeOf(row, item.accept, item.cancel) == ReconciliationOutcome(false, Cancels(kind, row.status))
  {}

  /** The rows an accept moves, and the table once it has. */
  ghost function AcceptMoves(t: Table, ids: set<Id>): set<Id> {
    set id | id in t && id in ids && Acceptable(t[id].status)
  }

  ghost function AcceptedIn(t: Table, moved: set<Id>, at: Time): Table {
    map id | id in t :: if id in moved then t[id].(status := AcceptedOnChain, updatedAt := at) else t[id]
  }

  /** `did_accept` noted for the rows that moved. */
  function NoteAccepted(outcomes: map<Id, ReconciliationOutcome>, moved: set<Id>): map<Id, ReconciliationOutcome> {
    map id | id in outcomes :: if id in moved then outcomes[id].(didAccept := true) else outcomes[id]
  }

  lemma AcceptOnlyStage(t: Table, items: seq<Item>, done: set<Id>, at: Time)
    requires UniqueIds(items) && done !! Shaped(items, AcceptOnly)
    ensures
      var shaped, part := Shaped(items, AcceptOnly), Part(t, items, done, at);
      var moved := AcceptMoves(part, shaped);
      Part(t, items, done + shaped, at) == AcceptedIn(part, moved, at)
  {
    var shaped, part := Shaped(items, AcceptOnly), Part(t, items, done, at);
    var moved := AcceptMoves(part, shaped);
    forall id | id in t
      ensures PartRow(t[id], items, id, done + shaped, at) == AcceptedIn(part, moved, at)[id]
    {
      ShapedItem(items, AcceptOnly, id);
      if id in shaped { AcceptOnlyRow(t[id], ItemFor(items, id).value, at); }
    }
  }

  lemma AcceptOnlyOutcomeAt(t: Table, items: seq<Item>, done: set<Id>, id: Id, at: Time)
    requires UniqueIds(items) && done !! Shaped(items, AcceptOnly)
    ensures
      var shaped, was := Shaped(items, AcceptOnly), PartOutcome(t, items, id, done);
      PartOutcome(t, items, id, done + shaped)
      == if id in AcceptMoves(Part(t, items, done, at), shaped) then was.(didAccept := true) else was
  {
    ShapedItem(items, AcceptOnly, id);
    if id in Shaped(items, AcceptOnly) && id in t {
      assert Part(t, items, done, at)[id] == t[id];
      AcceptOnlyRow(t[id], ItemFor(items, id).value, at);
    }
  }

  lemma AcceptOnlyOutcome(t: Table, items: seq<Item>, done: set<Id>, at: Time)
    requires UniqueIds(items) && done !! Shaped(items, AcceptOnly)
    ensures
      var shaped, part := Shaped(items, AcceptOnly), Part(t, items, done, at);
      PartOutcomes(t, items, done + shaped) == NoteAccepted(PartOutcomes(t, items, done), AcceptMoves(part, shaped))
  {
    forall id { AcceptOnlyOutcomeAt(t, items, done, id, at); }
  }

  // ----- The batch and the index -----

  /** A paired item meets another active agreement of its pair exactly when no earlier one ended it. */
  lemma PairedTaken(t: Table, items: seq<Item>, k: nat, at: Time)
    requires UniqueIds(items) && k < |Paireds(items)| && Paireds(items)[k].id in t
    ensures
      var id, done := Paireds(items)[k].id, Ids(Paireds(items)[..k]);
      && Part(t, items, done, at)[id] == t[id]
      && (PairTaken(Part(t, items, done, at), id) <==> exists j :: SharesPair(t, id, j) && Active(t[j].status) && j !in done)
  {
    var paired := Paireds(items);
    var id, done := paired[k].id, Ids(paired[..k]);
    var part := Part(t, items, done, at);
    PairedsAre(items);
    assert id !in done;
    forall j | j in t
      ensures part[j].pair == t[j].pair
      ensures Active(part[j].status) <==> Active(t[j].status) && j !in done
    {
      PairedPart(t, items, k, j, at);
    }
    assert forall j :: SharesPair(part, id, j) <==> SharesPair(t, id, j);
  }

  lemma PairedPart(t: Table, items: seq<Item>, k: nat, j: Id, at: Time)
    requires UniqueIds(items) && k <= |Paireds(items)| && j in t
    ensures
      var done := Ids(Paireds(items)[..k]);
      var row := PartRow(t[j], items, j, done, at);
      row.pair == t[j].pair && (Active(row.status) <==> Active(t[j].status) && j !in done)
  {
    if j in Ids(Paireds(items)[..k]) {
      var item := PairedItem(items, k, j);
      ActiveAfter(t[j], item, at);
    }
  }

  lemma PairedItem(items: seq<Item>, k: nat, j: Id) returns (item: Item)
    requires UniqueIds(items) && k <= |Paireds(items)| && j in Ids(Paireds(items)[..k])
    ensures ItemFor(items, j) == Some(item) && ShapeOf(item) == Paired
  {
    var paired := Paireds(items);
    PairedsAre(items);
    var n :| 0 <= n < k && paired[..k][n].id == j;
    item := paired[n];
    assert item in items;
    var i :| 0 <= i < |items| && items[i] == item;
    ItemForUnique(items, i);
  }

  /** Once the accepts are through too, the rows active are those `ActiveByThen` names. */
  lemma AcceptedPart(t: Table, items: seq<Item>, j: Id, at: Time)
    requires UniqueIds(items) && j in t
    ensures
      var part := Part(t, items, Shaped(items, Paired) + Shaped(items, AcceptOnly), at);
      part[j].pair == t[j].pair && (Active(part[j].status) <==> ActiveByThen(t, items, j))
  {
    var item := ItemFor(items, j);
    ShapedItem(items, Paired, j);
    ShapedItem(items, AcceptOnly, j);
    if item.Some? { ActiveAfter(t[j], item.value, at); }
  }

  /** The statement that accepts passes the index exactly when it meets no agreement active by then. */
  lemma AcceptsFitExactly(t: Table, items: seq<Item>, at: Time)
    requires UniqueIds(items) && Indexed(t)
    ensures Indexed(Part(t, items, Shaped(items, Paired) + Shaped(items, AcceptOnly), at))
            <==> forall id :: !RefusesAcceptOnly(t, items, id)
  {
    var part := Part(t, items, Shaped(items, Paired) + Shaped(items, AcceptOnly), at);
    forall j | j in t
      ensures part[j].pair == t[j].pair && (Active(part[j].status) <==> ActiveByThen(t, items, j))
    {
      AcceptedPart(t, items, j, at);
    }
    if id :| RefusesAcceptOnly(t, items, id) {
      var j :| SharesPair(t, id, j) && ActiveByThen(t, items, j);
      assert ActiveByThen(t, items, id);
    } else {
      forall i, j | i in part && j in part && Active(part[i].status) && Active(part[j].status) && part[i].pair == part[j].pair
        ensures i == j
      {
        if i != j { TwoActive(t, items, i, j); }
      }
    }
  }

  /** The statement that accepts, as a step from the paired items done to the accepts done too. */
  lemma AcceptOnlyTurn(t: Table, items: seq<Item>, at: Time)
    requires UniqueIds(items) && Indexed(t)
    ensures
      var paired, shaped := Shaped(items, Paired), Shaped(items, AcceptOnly);
      var moves := AcceptMoves(Part(t, items, paired, at), shaped);
      var next := AcceptedIn(Part(t, items, paired, at), moves, at);
      && Part(t, items, paired + shaped, at) == next
      && PartOutcomes(t, items, paired + shaped) == NoteAccepted(PartOutcomes(t, items, paired), moves)
      && (Indexed(next) <==> forall id :: !RefusesAcceptOnly(t, items, id))
  {
    ShapesDisjoint(items, Paired, AcceptOnly);
    AcceptOnlyStage(t, items, Shaped(items, Paired), at);
    AcceptOnlyOutcome(t, items, Shaped(items, Paired), at);
    AcceptsFitExactly(t, items, at);
  }

  /** Where the `k`-th paired item stands among the items. */
  lemma PairedPlace(items: seq<Item>, k: nat) returns (n: nat)
    requires UniqueIds(items) && k < |Paireds(items)|
    ensures n < |items| && items[n] == Paireds(items)[k]
    ensures items[n].id !in Ids(Paireds(items)[..k])
    ensures Ids(Paireds(items)[..k + 1]) == Ids(Paireds(items)[..k]) + {items[n].id}
  {
    var paired := Paireds(items);
    PairedsAre(items);
    assert paired[k] in items;
    n :| 0 <= n < |items| && items[n] == paired[k];
    assert paired[..k + 1] == paired[..k] + [paired[k]];
  }

  /** Each paired item in turn is refused exactly as `RefusesPaired` says. */
  lemma PairedRefused(t: Table, items: seq<Item>, k: nat, at: Time)
    requires UniqueIds(items) && k < |Paireds(items)|
    ensures
      var item := Paireds(items)[k];
      Refused(Part(t, items, Ids(Paireds(items)[..k]), at), item.id, Reconcile(item.accept, item.cancel))
      <==> RefusesPaired(t, Paireds(items), k)
  {
    var item := Paireds(items)[k];
    PairedsAre(items);
    assert item in Paireds(items);
    if item.id in t { PairedTaken(t, items, k, at); }
  }

  /** And is otherwise one reconciliation of the table so far. */
  lemma PairedStep(t: Table, items: seq<Item>, k: nat, at: Time)
    requires UniqueIds(items) && k < |Paireds(items)|
    ensures
      var item, part := Paireds(items)[k], Part(t, items, Ids(Paireds(items)[..k]), at);
      var write := Reconcile(item.accept, item.cancel);
      !Refused(part, item.id, write) ==>
        Part(t, items, Ids(Paireds(items)[..k + 1]), at) == TableStep(part, On(item.id, write, at))
  {
    var n := PairedPlace(items, k);
    PairedStage(t, items, Ids(Paireds(items)[..k]), n, at);
    OnReconciles(Part(t, items, Ids(Paireds(items)[..k]), at), items[n], at);
  }

  lemma OnReconciles(t: Table, item: Item, at: Time)
    ensures
      var write := Reconcile(item.accept, item.cancel);
      !Refused(t, item.id, write) ==>
        TableStep(t, On(item.id, write, at))
        == if item.id in t then t[item.id := Reconciled(t[item.id], item.accept, item.cancel, at)] else t
  {}

  lemma PairedNote(t: Table, items: seq<Item>, k: nat, at: Time)
    requires UniqueIds(items) && k < |Paireds(items)|
    ensures
      var item, part := Paireds(items)[k], Part(t, items, Ids(Paireds(items)[..k]), at);
      PartOutcomes(t, items, Ids(Paireds(items)[..k + 1]))
      == PartOutcomes(t, items, Ids(Paireds(items)[..k]))[item.id := OutcomeIn(part, item.id, item.accept, item.cancel)]
  {
    var n := PairedPlace(items, k);
    PairedOutcome(t, items, Ids(Paireds(items)[..k]), n, at);
  }

  /** The rows a cancel by `kind` ends, and the table once it has. */
  ghost function CancelMoves(t: Table, ids: set<Id>, kind: CancelKind): set<Id> {
    set id | id in t && id in ids && Cancels(kind, t[id].status)
  }

  ghost function CancelledIn(t: Table, moved: set<Id>, kind: CancelKind, at: Time): Table {
    map id | id in t :: if id in moved then t[id].(status := CancelTo(t[id], kind), updatedAt := at) else t[id]
  }

  /** `did_cancel` noted for the rows that moved. */
  function NoteCancelled(outcomes: map<Id, ReconciliationOutcome>, moved: set<Id>): map<Id, ReconciliationOutcome> {
    map id | id in outcomes :: if id in moved then outcomes[id].(didCancel := true) else outcomes[id]
  }

  lemma CancelOnlyStage(t: Table, items: seq<Item>, done: set<Id>, kind: CancelKind, at: Time)
    requires UniqueIds(items) && done !! Shaped(items, CancelOnly(kind))
    ensures
      var shaped, part := Shaped(items, CancelOnly(kind)), Part(t, items, done, at);
      var moved := CancelMoves(part, shaped, kind);
      Part(t, items, done + shaped, at) == CancelledIn(part, moved, kind, at)
  {
    var shaped, part := Shaped(items, CancelOnly(kind)), Part(t, items, done, at);
    var moved := CancelMoves(part, shaped, kind);
    forall id | id in t
      ensures PartRow(t[id], items, id, done + shaped, at) == CancelledIn(part, moved, kind, at)[id]
    {
      ShapedItem(items, CancelOnly(kind), id);
      if id in shaped { CancelOnlyRow(t[id], ItemFor(items, id).value, kind, at); }
    }
  }

  lemma CancelOnlyOutcome(t: Table, items: seq<Item>, done: set<Id>, kind: CancelKind, at: Time)
    requires UniqueIds(items) && done !! Shaped(items, CancelOnly(kind))
    ensures
      var shaped, part := Shaped(items, CancelOnly(kind)), Part(t, items, done, at);
      PartOutcomes(t, items, done + shaped) == NoteCancelled(PartOutcomes(t, items, done), CancelMoves(part, shaped, kind))
  {
    var shaped, part := Shaped(items, CancelOnly(kind)), Part(t, items, done, at);
    var moved := CancelMoves(part, shaped, kind);
    forall id | id in Ids(items)
      ensures PartOutcome(t, items, id, done + shaped) == NoteCancelled(PartOutcomes(t, items, done), moved)[id]
    {
      ShapedItem(items, CancelOnly(kind), id);
      if id in shaped && id in t { CancelOnlyRow(t[id], ItemFor(items, id).value, kind, at); }
    }
  }

  lemma PairedIds(items: seq<Item>)
    ensures Ids(Paireds(items)[..0]) == {}
    ensures Ids(Paireds(items)[..|Paireds(items)|]) == Shaped(items, Paired)
  {
    var paired := Paireds(items);
    PairedsAre(items);
    assert paired[..|paired|] == paired;
    forall id | id in Shaped(items, Paired) ensures id in Ids(paired) {
      var n :| 0 <= n < |items| && ShapeOf(items[n]) == Paired && items[n].id == id;
      assert items[n] in paired;
    }
    forall id | id in Ids(paired) ensures id in Shaped(items, Paired) {
      var n :| 0 <= n < |paired| && paired[n].id == id;
      assert paired[n] in items;
    }
  }

  lemma ShapesDisjoint(items: seq<Item>, a: Shape, b: Shape)
    requires UniqueIds(items) && a != b
    ensures Shaped(items, a) !! Shaped(items, b)
  {
    forall id | id in Shaped(items, a) ensures id !in Shaped(items, b) {
      ShapedItem(items, a, id);
      ShapedItem(items, b, id);
    }
  }

  lemma ShapesCover(items: seq<Item>)
    ensures Ids(items) == Shaped(items, Paired) + Shaped(items, AcceptOnly) + Shaped(items, CancelOnly(ByRequester))
                        + Shaped(items, CancelOnly(ByIndexer)) + Shaped(items, Neither)
  {
    var all := Shaped(items, Paired) + Shaped(items, AcceptOnly) + Shaped(items, CancelOnly(ByRequester))
               + Shaped(items, CancelOnly(ByIndexer)) + Shaped(items, Neither);
    forall id | id in Ids(items) ensures id in all {
      var k :| 0 <= k < |items| && items[k].id == id;
      var shape := ShapeOf(items[k]);
      assert id in Shaped(items, shape);
      match items[k].cancel { case Some(ByRequester) => case Some(ByIndexer) => case None => }
      assert shape == Paired || shape == AcceptOnly || shape == CancelOnly(ByRequester)
             || shape == CancelOnly(ByIndexer) || shape == Neither;
    }
  }

  /** The row once the audits of the first `n` items are written too. */
  ghost function AuditedRow(t: Table, items: seq<Item>, id: Id, n: nat, at: Time): Row
    requires id in t && n <= |items|
  {
    var item := ItemFor(items, id);
    var row := PartRow(t[id], items, id, Ids(items), at);
    if ItemFor(items[..n], id).Some? && item.Some?
    then PersistAudit(row, PartOutcome(t, items, id, Ids(items)), item.value.audit)
    else row
  }

  ghost function Audited(t: Table, items: seq<Item>, n: nat, at: Time): Table
    requires n <= |items|
  {
    map id | id in t :: AuditedRow(t, items, id, n, at)
  }

  lemma AuditedAll(t: Table, items: seq<Item>, at: Time)
    requires !BatchRefused(t, items)
    ensures Audited(t, items, |items|, at) == TableStep(t, Batch(items, at))
  {
    assert items[..|items|] == items;
    forall id | id in t
      ensures AuditedRow(t, items, id, |items|, at) == BatchRow(t[id], items, id, at)
    {
      var item := ItemFor(items, id);
      if item.Some? {
        var k :| 0 <= k < |items| && items[k] == item.value;
        NeverRollsBack(t[id], item.value.accept, item.value.cancel);
      }
    }
  }

  lemma AuditedNext(t: Table, items: seq<Item>, n: nat, at: Time)
    requires UniqueIds(items) && n < |items|
    ensures
      var id, now := items[n].id, Audited(t, items, n, at);
      Audited(t, items, n + 1, at)
      == if id in t then now[id := PersistAudit(now[id], PartOutcome(t, items, id, Ids(items)), items[n].audit)] else now
  {
    ItemForUnique(items, n);
    assert items[..n + 1] == items[..n] + [items[n]];
    forall id { ItemForExtend(items[..n], items[n], id); }
    assert ItemFor(items[..n], items[n].id).None?;
  }
}
