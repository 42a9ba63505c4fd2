/** Per-strategy order tracking in 64 reusable slots. */
module OrderTracker {
  import opened MachineInts
  import opened ArrayBook

  const MAX_TRACKED_ORDERS: nat := 64

  datatype OrderState = Pending | Sending | Live | CancelPending | Filled | Cancelled | Rejected

  datatype Order = Order(
    clientId: nat, exchangeId: nat, strategyId: nat, instrument: nat, side: Side, price: int,
    originalQty: int, filledQty: int, state: OrderState, createdAt: nat, ackedAt: nat)
  {
    predicate IsActive() { state.Pending? || state.Sending? || state.Live? || state.CancelPending? }
    function Remaining(): int { originalQty - filledQty }
  }

  type Slots = seq<Option<Order>>

  datatype Tracker = Tracker(orders: Slots, activeCount: nat)

  datatype Event =
    | Intent(order: Order)
    | Ack(id: nat, exchangeId: nat, at: nat)
    | Reject(id: nat)
    | Fill(id: nat, qty: int)
    | CancelAck(id: nat)

  function EmptyTracker(): Tracker { Tracker(seq(MAX_TRACKED_ORDERS, _ => None), 0) }

  // ---- Lookups ----

  predicate Carries(slot: Option<Order>, id: nat) { slot.Some? && slot.value.clientId == id }

  predicate Reusable(slot: Option<Order>) { slot.None? || !slot.value.IsActive() }

  /** The first slot that carries the id, or the number of slots. */
  function Find(orders: Slots, id: nat): (i: nat)
    ensures i <= |orders|
    ensures i < |orders| ==> Carries(orders[i], id)
    ensures forall j :: 0 <= j < i ==> !Carries(orders[j], id)
  {
    if orders == [] then 0 else if Carries(orders[0], id) then 0 else 1 + Find(orders[1..], id)
  }

  lemma FindUnique(orders: Slots, id: nat, i: nat)
    requires i <= |orders| && (i < |orders| ==> Carries(orders[i], id))
    requires forall j :: 0 <= j < i ==> !Carries(orders[j], id)
    ensures Find(orders, id) == i
  {
    var k := Find(orders, id);
    assert k < |orders| ==> Carries(orders[k], id);
  }

  /** The first slot a new order may take, or the number of slots. */
  function FirstReusable(orders: Slots): (i: nat)
    ensures i <= |orders|
    ensures i < |orders| ==> Reusable(orders[i])
    ensures forall j :: 0 <= j < i ==> !Reusable(orders[j])
  {
    if orders == [] then 0 else if Reusable(orders[0]) then 0 else 1 + FirstReusable(orders[1..])
  }

  // ---- Transitions on values ----

  function SaturatingDec(n: nat): nat { if n == 0 then 0 else n - 1 }

  function OrderAfterFill(o: Order, qty: int): Order {
    if o.filledQty + qty >= o.originalQty then o.(filledQty := o.originalQty, state := Filled)
    else o.(filledQty := o.filledQty + qty)
  }

  /** The tracker after an event, and whether an intent was accepted. */
  function Step(t: Tracker, e: Event): (Tracker, bool) {
    match e
    case Intent(o) =>
      var i := FirstReusable(t.orders);
      if i == |t.orders| then (t, false) else (Tracker(t.orders[i := Some(o)], t.activeCount + 1), true)
    case Ack(id, exchangeId, at) =>
      var i := Find(t.orders, id);
      if i == |t.orders| then (t, true)
      else
        var o := t.orders[i].value;
        (t.(orders := t.orders[i := Some(o.(state := Live, exchangeId := exchangeId, ackedAt := at))]), true)
    case Reject(id) => (Close(t, id, Rejected), true)
    case CancelAck(id) => (Close(t, id, Cancelled), true)
    case Fill(id, qty) =>
      var i := Find(t.orders, id);
      if i == |t.orders| || !t.orders[i].value.IsActive() then (t, true)
      else
        var o := OrderAfterFill(t.orders[i].value, qty);
        (Tracker(t.orders[i := Some(o)], if o.IsActive() then t.activeCount else SaturatingDec(t.activeCount)), true)
  }

  /** Reject and cancel-ack: the state is overwritten without asking what it was. */
  function Close(t: Tracker, id: nat, state: OrderState): Tracker {
    var i := Find(t.orders, id);
    if i == |t.orders| then t
    else Tracker(t.orders[i := Some(t.orders[i].value.(state := state))], SaturatingDec(t.activeCount))
  }

  // ---- The tracker as an object ----

  class OrderTracker {
    const orders: array<Option<Order>>
    var activeCount: nat

    function Value(): Tracker
      reads this, orders
    {
      Tracker(orders[..], activeCount)
    }

    constructor ()
      ensures Value() == EmptyTracker() && fresh(orders)
    {
      orders := new Option<Order>[MAX_TRACKED_ORDERS](_ => None);
      activeCount := 0;
    }

    method FindSlot(id: nat) returns (i: nat)
      ensures i == Find(orders[..], id)
    {
      i := 0;
      while i < orders.Length
        invariant i <= orders.Length && forall j :: 0 <= j < i ==> !Carries(orders[j], id)
      {
        if Carries(orders[i], id) {
          break;
        }
        i := i + 1;
      }
      FindUnique(orders[..], id, i);
    }

    method OnIntentSent(order: Order) returns (ok: bool)
      modifies this, orders
      ensures (Value(), ok) == Step(old(Value()), Intent(order))
    {
      for i := 0 to orders.Length
        invariant forall j :: 0 <= j < i ==> !Reusable(orders[j])
      {
        if Reusable(orders[i]) {
          assert FirstReusable(orders[..]) == i by { ReusableUnique(orders[..], i); }
          orders[i] := Some(order);
          activeCount := activeCount + 1;
          return true;
        }
      }
      ReusableUnique(orders[..], orders.Length);
      ok := false;
    }

    method OnAck(id: nat, exchangeId: nat, at: nat)
      modifies this, orders
      ensures Value() == Step(old(Value()), Ack(id, exchangeId, at)).0
    {
      var i := FindSlot(id);
      if i < orders.Length {
        orders[i] := Some(orders[i].value.(state := Live, exchangeId := exchangeId, ackedAt := at));
      }
    }

    method OnReject(id: nat)
      modifies this, orders
      ensures Value() == Step(old(Value()), Reject(id)).0
    {
      var i := FindSlot(id);
      if i < orders.Length {
        orders[i] := Some(orders[i].value.(state := Rejected));
        activeCount := SaturatingDec(activeCount);
      }
    }

    method OnFill(id: nat, qty: int)
      modifies this, orders
      ensures Value() == Step(old(Value()), Fill(id, qty)).0
    {
      var i := FindSlot(id);
      if i < orders.Length {
        var order := orders[i].value;
        if !order.IsActive() {
          return;
        }
        order := order.(filledQty := order.filledQty + qty);
        if order.filledQty >= order.originalQty {
          order := order.(filledQty := order.originalQty, state := Filled);
          activeCount := SaturatingDec(activeCount);
        }
        orders[i] := Some(order);
      }
    }

    method OnCancelAck(id: nat)
      modifies this, orders
      ensures Value() == Step(old(Value()), CancelAck(id)).0
    {
      var i := FindSlot(id);
      if i < orders.Length {
        orders[i] := Some(orders[i].value.(state := Cancelled));
        activeCount := SaturatingDec(activeCount);
      }
    }

    /** Unfilled quantity of the active orders of one instrument and side, in wrapping signed words. */
    method OpenQuantity(instrument: nat, side: Side) returns (total: int)
      ensures total == WrapI64(OpenQty(orders[..], instrument, side))
    {
      total := 0;
      for i := 0 to orders.Length
        invariant total == WrapI64(OpenQty(orders[..i], instrument, side))
      {
        assert orders[..i + 1][..i] == orders[..i];
        WrapOfSum(OpenQty(orders[..i], instrument, side), OpenIn(orders[i], instrument, side));
        if orders[i].Some? && orders[i].value.IsActive()
           && orders[i].value.instrument == instrument && orders[i].value.side == side {
          WrapOfSum(orders[i].value.Remaining(), total);
          total := WrapI64(total + WrapI64(orders[i].value.Remaining()));
        }
      }
      assert orders[..orders.Length] == orders[..];
    }
  }

  lemma ReusableUnique(orders: Slots, i: nat)
    requires i <= |orders| && (i < |orders| ==> Reusable(orders[i]))
    requires forall j :: 0 <= j < i ==> !Reusable(orders[j])
    ensures FirstReusable(orders) == i
  {
    var k := FirstReusable(orders);
    assert k < |orders| ==> Reusable(orders[k]);
  }

  // ---- Sums over the slots ----

  function ActiveIn(slot: Option<Order>): nat { if slot.Some? && slot.value.IsActive() then 1 else 0 }

  function CountActive(orders: Slots): (n: nat)
    ensures n <= |orders|
  {
    if orders == [] then 0 else CountActive(orders[..|orders| - 1]) + ActiveIn(orders[|orders| - 1])
  }

  function OpenIn(slot: Option<Order>, instrument: nat, side: Side): int {
    if slot.Some? && slot.value.IsActive() && slot.value.instrument == instrument && slot.value.side == side
    then slot.value.Remaining() else 0
  }

  function OpenQty(orders: Slots, instrument: nat, side: Side): int {
    if orders == [] then 0
    else OpenQty(orders[..|orders| - 1], instrument, side) + OpenIn(orders[|orders| - 1], instrument, side)
  }

  lemma {:induction false} CountAfterUpdate(orders: Slots, i: nat, slot: Option<Order>)
    requires i < |orders|
    ensures CountActive(orders[i := slot]) == CountActive(orders) - ActiveIn(orders[i]) + ActiveIn(slot)
  {
    var init, upd := orders[..|orders| - 1], orders[i := slot];
    if i < |init| {
      CountAfterUpdate(init, i, slot);
      assert upd[..|upd| - 1] == init[i := slot];
    } else {
      assert upd[..|upd| - 1] == init;
    }
  }

  lemma {:induction false} OpenAfterUpdate(orders: Slots, i: nat, slot: Option<Order>, instrument: nat, side: Side)
    requires i < |orders|
    ensures OpenQty(orders[i := slot], instrument, side)
         == OpenQty(orders, instrument, side) - OpenIn(orders[i], instrument, side) + OpenIn(slot, instrument, side)
  {
    var init, upd := orders[..|orders| - 1], orders[i := slot];
    if i < |init| {
      OpenAfterUpdate(init, i, slot, instrument, side);
      assert upd[..|upd| - 1] == init[i := slot];
    } else {
      assert upd[..|upd| - 1] == init;
    }
  }

  /** All slots are active exactly when none is reusable. */
  lemma {:induction false} FullIffNoneReusable(orders: Slots)
    ensures CountActive(orders) == |orders| <==> forall i :: 0 <= i < |orders| ==> !Reusable(orders[i])
  {
    if orders != [] {
      var init := orders[..|orders| - 1];
      FullIffNoneReusable(init);
      assert forall i :: 0 <= i < |init| ==> init[i] == orders[i];
      if CountActive(orders) == |orders| {
        assert forall i :: 0 <= i < |init| ==> !Reusable(init[i]);
      }
    }
  }

  // ---- What every legal run keeps ----

  /** The fills each order has received while it was active. */
  type History = map<nat, int>

  function Min(a: int, b: int): int { if a < b then a else b }

  /** A slot whose order is accounted for. */
  ghost predicate SlotOk(slot: Option<Order>, h: History) {
    slot.Some? ==>
      var o := slot.value;
      && o.clientId in h && h[o.clientId] >= 0 && o.originalQty >= 0
      && o.filledQty == Min(o.originalQty, h[o.clientId])
      && (o.state.Filled? ==> o.filledQty == o.originalQty)
      && (o.IsActive() && o.originalQty > 0 ==> o.Remaining() > 0)
  }

  ghost predicate Distinct(orders: Slots) {
    forall i, j :: 0 <= i < j < |orders| && orders[i].Some? && orders[j].Some? ==>
      orders[i].value.clientId != orders[j].value.clientId
  }

  ghost predicate Inv(t: Tracker, h: History) {
    && |t.orders| == MAX_TRACKED_ORDERS && t.activeCount == CountActive(t.orders)
    && Distinct(t.orders) && forall i :: 0 <= i < |t.orders| ==> SlotOk(t.orders[i], h)
  }

  /** The order an id refers to is gone or still active. */
  predicate AbsentOrActive(t: Tracker, id: nat) {
    var i := Find(t.orders, id); i == |t.orders| || t.orders[i].value.IsActive()
  }

  /** No slot carries the id, except perhaps the one that a new order would take over. */
  predicate IdIsFree(t: Tracker, id: nat) {
    forall j :: 0 <= j < |t.orders| && Carries(t.orders[j], id) ==> j == FirstReusable(t.orders)
  }

  /** A refused intent is harmless; an accepted one must be active, unfilled and under a free id. No
      reject or cancel-ack to a finished order, unless the count is zero anyway, and no ack to one;
      no negative fill of an active order. */
  predicate Legal(t: Tracker, e: Event) {
    match e
    case Intent(o) =>
      FirstReusable(t.orders) == |t.orders| ||
      (IdIsFree(t, o.clientId) && o.IsActive() && o.filledQty == 0 && o.originalQty >= 0)
    case Ack(id, _, _) => AbsentOrActive(t, id)
    case Reject(id) => AbsentOrActive(t, id) || t.activeCount == 0
    case CancelAck(id) => AbsentOrActive(t, id) || t.activeCount == 0
    case Fill(id, qty) => qty >= 0 || !FoundActive(t, id)
  }

  predicate FoundActive(t: Tracker, id: nat) {
    var i := Find(t.orders, id); i < |t.orders| && t.orders[i].value.IsActive()
  }

  function Record(t: Tracker, h: History, e: Event): History {
    match e
    case Intent(o) => if FirstReusable(t.orders) == |t.orders| then h else h[o.clientId := 0]
    case Fill(id, qty) => if FoundActive(t, id) && id in h then h[id := h[id] + qty] else h
    case _ => h
  }

  /** Overwriting slot `i` keeps the invariant if the new order is accounted for and its id is its own. */
  lemma UpdateKeeps(t: Tracker, h: History, h': History, i: nat, o: Order, count: nat)
    requires Inv(t, h) && i < |t.orders| && SlotOk(Some(o), h')
    requires count == t.activeCount - ActiveIn(t.orders[i]) + ActiveIn(Some(o))
    requires forall j :: 0 <= j < |t.orders| && j != i ==> !Carries(t.orders[j], o.clientId)
    requires forall j :: 0 <= j < |t.orders| && j != i ==> SlotOk(t.orders[j], h) ==> SlotOk(t.orders[j], h')
    ensures Inv(Tracker(t.orders[i := Some(o)], count), h')
  {
    CountAfterUpdate(t.orders, i, Some(o));
    var orders' := t.orders[i := Some(o)];
    forall a, b | 0 <= a < b < |orders'| && orders'[a].Some? && orders'[b].Some?
      ensures orders'[a].value.clientId != orders'[b].value.clientId
    {
      if a == i {
        assert !Carries(t.orders[b], o.clientId);
      } else if b == i {
        assert !Carries(t.orders[a], o.clientId);
      }
    }
  }

  /** In a tracker with distinct ids only the found slot carries the id. */
  lemma OnlyFound(t: Tracker, h: History, id: nat)
    requires Inv(t, h) && Find(t.orders, id) < |t.orders|
    ensures forall j :: 0 <= j < |t.orders| && j != Find(t.orders, id) ==> !Carries(t.orders[j], id)
  {}

  lemma ActiveCounts(orders: Slots, i: nat)
    requires i < |orders|
    ensures CountActive(orders) >= ActiveIn(orders[i])
  {
    CountAfterUpdate(orders, i, None);
  }

  lemma IntentKeeps(t: Tracker, h: History, o: Order)
    requires Inv(t, h) && Legal(t, Intent(o))
    ensures Inv(Step(t, Intent(o)).0, Record(t, h, Intent(o)))
  {
    var i, h' := FirstReusable(t.orders), Record(t, h, Intent(o));
    if i < |t.orders| {
      assert forall j :: 0 <= j < |t.orders| && j != i ==> !Carries(t.orders[j], o.clientId);
      UpdateKeeps(t, h, h', i, o, t.activeCount + 1);
    }
  }

  lemma AnswerKeeps(t: Tracker, h: History, e: Event)
    requires Inv(t, h) && Legal(t, e) && (e.Ack? || e.Reject? || e.CancelAck?)
    ensures Inv(Step(t, e).0, h)
  {
    var i := Find(t.orders, e.id);
    if i < |t.orders| {
      OnlyFound(t, h, e.id);
      ActiveCounts(t.orders, i);
      assert SlotOk(t.orders[i], h);
      var t' := Step(t, e).0;
      UpdateKeeps(t, h, h, i, t'.orders[i].value, t'.activeCount);
    }
  }

  lemma FillKeeps(t: Tracker, h: History, id: nat, qty: int)
    requires Inv(t, h) && Legal(t, Fill(id, qty))
    ensures Inv(Step(t, Fill(id, qty)).0, Record(t, h, Fill(id, qty)))
  {
    var i := Find(t.orders, id);
    if FoundActive(t, id) {
      OnlyFound(t, h, id);
      ActiveCounts(t.orders, i);
      assert SlotOk(t.orders[i], h);
      var o := OrderAfterFill(t.orders[i].value, qty);
      UpdateKeeps(t, h, Record(t, h, Fill(id, qty)), i, o, Step(t, Fill(id, qty)).0.activeCount);
    }
  }

  lemma StepKeeps(t: Tracker, h: History, e: Event)
    requires Inv(t, h) && Legal(t, e)
    ensures Inv(Step(t, e).0, Record(t, h, e))
  {
    match e
    case Intent(o) => IntentKeeps(t, h, o);
    case Fill(id, qty) => FillKeeps(t, h, id, qty);
    case _ => AnswerKeeps(t, h, e);
  }

  /** An intent keeps the accounting exactly when it is legal. */
  lemma IntentKeepsIff(t: Tracker, h: History, o: Order)
    requires Inv(t, h)
    ensures Inv(Step(t, Intent(o)).0, Record(t, h, Intent(o))) <==> Legal(t, Intent(o))
  {
    if Legal(t, Intent(o)) {
      IntentKeeps(t, h, o);
    } else {
      var i, t' := FirstReusable(t.orders), Step(t, Intent(o)).0;
      CountAfterUpdate(t.orders, i, Some(o));
      if SlotOk(t'.orders[i], Record(t, h, Intent(o))) && o.IsActive() {
        var j :| 0 <= j < |t.orders| && Carries(t.orders[j], o.clientId) && j != i;
        assert t'.orders[j] == t.orders[j];
      }
    }
  }

  /** So does an answer from the exchange. */
  lemma AnswerKeepsIff(t: Tracker, h: History, e: Event)
    requires Inv(t, h) && (e.Ack? || e.Reject? || e.CancelAck?)
    ensures Inv(Step(t, e).0, h) <==> Legal(t, e)
  {
    if Legal(t, e) {
      AnswerKeeps(t, h, e);
    } else {
      match e
      case Ack(id, exchangeId, at) => AckKeepsCountIff(t, id, exchangeId, at);
      case Reject(id) => CloseKeepsCountIff(t, id, Rejected);
      case CancelAck(id) => CloseKeepsCountIff(t, id, Cancelled);
    }
  }

  datatype Run = Run(tracker: Tracker, history: History)

  function Execute(events: seq<Event>): Run {
    if events == [] then Run(EmptyTracker(), map[])
    else
      var r, e := Execute(events[..|events| - 1]), events[|events| - 1];
      Run(Step(r.tracker, e).0, Record(r.tracker, r.history, e))
  }

  predicate LegalRun(events: seq<Event>) {
    events != [] ==>
      && LegalRun(events[..|events| - 1])
      && Legal(Execute(events[..|events| - 1]).tracker, events[|events| - 1])
  }

  lemma {:induction false} NoneActive(n: nat)
    ensures CountActive(seq(n, _ => None)) == 0
  {
    if n > 0 {
      NoneActive(n - 1);
      var s: Slots := seq(n, _ => None);
      assert s[..n - 1] == seq(n - 1, _ => None);
    }
  }

  /** Over every legal run, the count is the number of active slots, and each tracked order is
      filled by exactly what was delivered to it while active, capped at its size, however many
      overfills and late fills there were. A filled order is full and an active one is not. */
  lemma {:induction false} RunKeeps(events: seq<Event>)
    requires LegalRun(events)
    ensures Inv(Execute(events).tracker, Execute(events).history)
  {
    if events == [] {
      NoneActive(MAX_TRACKED_ORDERS);
    } else {
      RunKeeps(events[..|events| - 1]);
      var r := Execute(events[..|events| - 1]);
      StepKeeps(r.tracker, r.history, events[|events| - 1]);
    }
  }

  /** A new intent is refused exactly when 64 orders are active. */
  lemma IntentRefusedIff(t: Tracker, h: History, o: Order)
    requires Inv(t, h)
    ensures !Step(t, Intent(o)).1 <==> t.activeCount == MAX_TRACKED_ORDERS
  {
    FullIffNoneReusable(t.orders);
  }

  /** On legal runs no order is overfilled, so the running open quantity is never negative and only grows. */
  lemma {:induction false} OpenIsNonNegative(orders: Slots, h: History, instrument: nat, side: Side, k: nat)
    requires k <= |orders| && forall i :: 0 <= i < |orders| ==> SlotOk(orders[i], h)
    ensures 0 <= OpenQty(orders[..k], instrument, side) <= OpenQty(orders, instrument, side)
    decreases |orders|
  {
    if orders != [] {
      var init := orders[..|orders| - 1];
      assert SlotOk(orders[|orders| - 1], h);
      if k < |orders| {
        OpenIsNonNegative(init, h, instrument, side, k);
        assert init[..k] == orders[..k];
      } else {
        OpenIsNonNegative(init, h, instrument, side, 0);
        assert orders[..k] == orders;
      }
    }
  }

  /** So `open_qty` is exact, with no running sum overflowing on the way, exactly when the sum fits. */
  lemma OpenExactIff(t: Tracker, h: History, instrument: nat, side: Side)
    requires Inv(t, h)
    ensures var open := OpenQty(t.orders, instrument, side);
            && (WrapI64(open) == open <==> open <= I64_MAX)
            && (open <= I64_MAX <==> forall k :: 0 <= k <= |t.orders| ==> InI64(OpenQty(t.orders[..k], instrument, side)))
  {
    WrapExactIff(OpenQty(t.orders, instrument, side));
    assert t.orders[..|t.orders|] == t.orders;
    forall k | 0 <= k <= |t.orders|
      ensures 0 <= OpenQty(t.orders[..k], instrument, side) <= OpenQty(t.orders, instrument, side)
    {
      OpenIsNonNegative(t.orders, h, instrument, side, k);
    }
  }

  // ---- Each tracked order is what the events say ----

  predicate Tracked(t: Tracker, id: nat) { Find(t.orders, id) < |t.orders| }

  /** The event is an intent under `id` that the tracker accepts. */
  predicate Opens(t: Tracker, e: Event, id: nat) { e.Intent? && e.order.clientId == id && Step(t, e).1 }

  /** The order as it was sent: the latest accepted intent under the id. */
  function SentAs(events: seq<Event>, id: nat): Option<Order> {
    if events == [] then None
    else
      var init, e := events[..|events| - 1], events[|events| - 1];
      if Opens(Execute(init).tracker, e, id) then Some(e.order) else SentAs(init, id)
  }

  /** The state that the events put the order in: by its intent, by the latest answer to it, or Filled
      by the fill that brought what was delivered to its size. */
  function StateBy(events: seq<Event>, id: nat): Option<OrderState> {
    if events == [] then None
    else
      var init, e := events[..|events| - 1], events[|events| - 1];
      var t := Execute(init).tracker;
      match e
      case Intent(o) => if Opens(t, e, id) then Some(o.state) else StateBy(init, id)
      case Ack(i, _, _) => if i == id && Tracked(t, id) then Some(Live) else StateBy(init, id)
      case Reject(i) => if i == id && Tracked(t, id) then Some(Rejected) else StateBy(init, id)
      case CancelAck(i) => if i == id && Tracked(t, id) then Some(Cancelled) else StateBy(init, id)
      case Fill(i, _) =>
        if i == id && FoundActive(t, id) && Completes(events, id) then Some(Filled) else StateBy(init, id)
  }

  /** As much has been delivered to the order as was asked for. */
  predicate Completes(events: seq<Event>, id: nat) {
    var h, sent := Execute(events).history, SentAs(events, id);
    id in h && sent.Some? && h[id] >= sent.value.originalQty
  }

  /** Exchange id and time of the latest ack since the order was sent. */
  function AckedAs(events: seq<Event>, id: nat): Option<(nat, nat)> {
    if events == [] then None
    else
      var init, e := events[..|events| - 1], events[|events| - 1];
      var t := Execute(init).tracker;
      if Opens(t, e, id) then None
      else if e.Ack? && e.id == id && Tracked(t, id) then Some((e.exchangeId, e.at))
      else AckedAs(init, id)
  }

  /** The order is the one sent, with the state, the fills and the acknowledgement the events say. */
  ghost predicate Follows(events: seq<Event>, o: Order) {
    var id, h := o.clientId, Execute(events).history;
    var sent, ack := SentAs(events, id), AckedAs(events, id);
    && sent.Some? && id in h && StateBy(events, id) == Some(o.state)
    && o == sent.value.(state := o.state, filledQty := Min(sent.value.originalQty, h[id]),
                        exchangeId := if ack.Some? then ack.value.0 else sent.value.exchangeId,
                        ackedAt := if ack.Some? then ack.value.1 else sent.value.ackedAt)
  }

  ghost predicate AllFollow(events: seq<Event>, orders: Slots) {
    forall i :: 0 <= i < |orders| && orders[i].Some? ==> Follows(events, orders[i].value)
  }

  /** An event that neither opens the order nor addresses it changes nothing the events say of it. */
  lemma OthersKeepFollowing(init: seq<Event>, e: Event, o: Order)
    requires Follows(init, o)
    requires if e.Intent? then !Opens(Execute(init).tracker, e, o.clientId) else e.id != o.clientId
    ensures Follows(init + [e], o)
  {
    assert (init + [e])[..|init|] == init;
    ExecuteNext(init, e);
  }

  /** A late fill changes nothing either. */
  lemma LateFillKeepsFollowing(init: seq<Event>, id: nat, qty: int, o: Order)
    requires Follows(init, o) && !FoundActive(Execute(init).tracker, id)
    ensures Follows(init + [Fill(id, qty)], o)
  {
    assert (init + [Fill(id, qty)])[..|init|] == init;
    ExecuteNext(init, Fill(id, qty));
  }

  lemma OpenedFollows(init: seq<Event>, o: Order)
    requires Legal(Execute(init).tracker, Intent(o)) && Step(Execute(init).tracker, Intent(o)).1
    ensures Follows(init + [Intent(o)], o)
  {
    assert (init + [Intent(o)])[..|init|] == init;
    ExecuteNext(init, Intent(o));
    assert o.filledQty == 0 && o.originalQty >= 0;
  }

  lemma AnsweredFollows(init: seq<Event>, e: Event, o: Order)
    requires (e.Ack? || e.Reject? || e.CancelAck?) && e.id == o.clientId
    requires Follows(init, o) && Tracked(Execute(init).tracker, o.clientId)
    ensures Follows(init + [e], if e.Ack? then o.(state := Live, exchangeId := e.exchangeId, ackedAt := e.at)
                                else o.(state := if e.Reject? then Rejected else Cancelled))
  {
    assert (init + [e])[..|init|] == init;
    ExecuteNext(init, e);
  }

  lemma FilledFollows(init: seq<Event>, qty: int, o: Order)
    requires Follows(init, o) && FoundActive(Execute(init).tracker, o.clientId) && qty >= 0
    requires o.IsActive() && SlotOk(Some(o), Execute(init).history)
    ensures Follows(init + [Fill(o.clientId, qty)], OrderAfterFill(o, qty))
  {
    var e := Fill(o.clientId, qty);
    assert (init + [e])[..|init|] == init;
    ExecuteNext(init, e);
    assert o.originalQty > 0 ==> o.filledQty == Execute(init).history[o.clientId];
  }

  lemma IntentFollows(init: seq<Event>, o: Order)
    requires Inv(Execute(init).tracker, Execute(init).history) && Legal(Execute(init).tracker, Intent(o))
    requires AllFollow(init, Execute(init).tracker.orders)
    ensures AllFollow(init + [Intent(o)], Execute(init + [Intent(o)]).tracker.orders)
  {
    var t := Execute(init).tracker;
    var i := FirstReusable(t.orders);
    ExecuteNext(init, Intent(o));
    if i < |t.orders| { OpenedFollows(init, o); }
    forall j | 0 <= j < |t.orders| && j != i && t.orders[j].Some?
      ensures Follows(init + [Intent(o)], t.orders[j].value)
    {
      assert i < |t.orders| ==> !Carries(t.orders[j], o.clientId);
      OthersKeepFollowing(init, Intent(o), t.orders[j].value);
    }
  }

  lemma AddressedFollows(init: seq<Event>, e: Event)
    requires Inv(Execute(init).tracker, Execute(init).history) && Legal(Execute(init).tracker, e) && !e.Intent?
    requires AllFollow(init, Execute(init).tracker.orders)
    ensures AllFollow(init + [e], Execute(init + [e]).tracker.orders)
  {
    var t, h := Execute(init).tracker, Execute(init).history;
    var i := Find(t.orders, e.id);
    ExecuteNext(init, e);
    if i < |t.orders| {
      OnlyFound(t, h, e.id);
      assert SlotOk(t.orders[i], h);
      if !e.Fill? {
        AnsweredFollows(init, e, t.orders[i].value);
      } else if FoundActive(t, e.id) {
        FilledFollows(init, e.qty, t.orders[i].value);
      } else {
        LateFillKeepsFollowing(init, e.id, e.qty, t.orders[i].value);
      }
    }
    forall j | 0 <= j < |t.orders| && j != i && t.orders[j].Some?
      ensures Follows(init + [e], t.orders[j].value)
    {
      assert !Carries(t.orders[j], e.id);
      OthersKeepFollowing(init, e, t.orders[j].value);
    }
  }

  /** Over every legal run each tracked order is exactly what the events addressed to it say: the order
      that was sent, Filled if and only if a fill completed it, otherwise in the state of the latest
      answer, with the exchange id and time of its ack. */
  lemma {:induction false} OrdersFollowEvents(events: seq<Event>)
    requires LegalRun(events)
    ensures AllFollow(events, Execute(events).tracker.orders)
  {
    if events != [] {
      var init, e := events[..|events| - 1], events[|events| - 1];
      OrdersFollowEvents(init);
      RunKeeps(init);
      assert events == init + [e];
      match e
      case Intent(o) => IntentFollows(init, o);
      case _ => AddressedFollows(init, e);
    }
  }

  predicate ActiveState(s: Option<OrderState>) {
    s == Some(Pending) || s == Some(Sending) || s == Some(Live) || s == Some(CancelPending)
  }

  /** No active order is lost: while the events say that an order is active, a slot carries it. */
  lemma {:induction false} ActiveIsTracked(events: seq<Event>, id: nat)
    requires LegalRun(events) && ActiveState(StateBy(events, id))
    ensures Tracked(Execute(events).tracker, id)
  {
    var init, e := events[..|events| - 1], events[|events| - 1];
    var t := Execute(init).tracker;
    assert events == init + [e];
    ExecuteNext(init, e);
    RunKeeps(init);
    OrdersFollowEvents(init);
    if ActiveState(StateBy(init, id)) { ActiveIsTracked(init, id); }
    StaysTracked(t, e, id);
  }

  /** Only a slot whose order is finished is taken over. */
  lemma StaysTracked(t: Tracker, e: Event, id: nat)
    ensures Opens(t, e, id) ==> Tracked(Step(t, e).0, id)
    ensures Tracked(t, id) && (e.Intent? ==> t.orders[Find(t.orders, id)].value.IsActive()) ==> Tracked(Step(t, e).0, id)
  {
    var t' := Step(t, e).0;
    var i := Find(t.orders, id);
    if Opens(t, e, id) { assert Carries(t'.orders[FirstReusable(t.orders)], id); }
    if Tracked(t, id) && (e.Intent? ==> t.orders[i].value.IsActive()) { assert Carries(t'.orders[i], id); }
  }

  // ---- Answers to finished orders ----

  /** The count survives an ack exactly if the order is gone or active: an ack revives a finished one. */
  lemma AckKeepsCountIff(t: Tracker, id: nat, exchangeId: nat, at: nat)
    requires t.activeCount == CountActive(t.orders)
    ensures var t' := Step(t, Ack(id, exchangeId, at)).0;
            t'.activeCount == CountActive(t'.orders) <==> AbsentOrActive(t, id)
  {
    var i := Find(t.orders, id);
    if i < |t.orders| {
      CountAfterUpdate(t.orders, i, Step(t, Ack(id, exchangeId, at)).0.orders[i]);
    }
  }

  /** A reject or cancel-ack of a finished order still lowers the count, unless it is zero already. */
  lemma CloseKeepsCountIff(t: Tracker, id: nat, state: OrderState)
    requires t.activeCount == CountActive(t.orders) && (state == Rejected || state == Cancelled)
    ensures var t' := Close(t, id, state);
            t'.activeCount == CountActive(t'.orders) <==> AbsentOrActive(t, id) || t.activeCount == 0
  {
    var i := Find(t.orders, id);
    if i < |t.orders| {
      ActiveCounts(t.orders, i);
      CountAfterUpdate(t.orders, i, Close(t, id, state).orders[i]);
    }
  }

  // ---- Runs that break the count ----

  /** A pending order of five lots. */
  function Sample(id: nat): Order { Order(id, 0, 0, 1, Bid, 0, 5, 0, Pending, 0, 0) }

  lemma ExecuteNext(events: seq<Event>, e: Event)
    ensures var r := Execute(events);
            Execute(events + [e]) == Run(Step(r.tracker, e).0, Record(r.tracker, r.history, e))
    ensures LegalRun(events + [e]) <==> LegalRun(events) && Legal(Execute(events).tracker, e)
  {
    assert (events + [e])[..|events|] == events;
  }

  /** The tracker after one sample intent: legal, accepted in slot 0. */
  lemma AfterOneIntent(id: nat)
    ensures LegalRun([Intent(Sample(id))])
    ensures var t := Execute([Intent(Sample(id))]).tracker;
            |t.orders| == MAX_TRACKED_ORDERS && t.activeCount == 1 && t.orders[0] == Some(Sample(id))
            && forall i :: 0 < i < |t.orders| ==> t.orders[i].None?
  {
    var e := Intent(Sample(id));
    ExecuteNext([], e);
    assert [] + [e] == [e];
    ReusableUnique(EmptyTracker().orders, 0);
  }

  /** An ack after the last fill revives the order in its slot and not in the count. */
  lemma LateAckBreaksCount()
    ensures var t := Execute([Intent(Sample(7)), Fill(7, 5), Ack(7, 9, 2)]).tracker;
            t.activeCount != CountActive(t.orders)
  {
    var one, two := [Intent(Sample(7))], [Intent(Sample(7)), Fill(7, 5)];
    AfterOneIntent(7);
    FindUnique(Execute(one).tracker.orders, 7, 0);
    ExecuteNext(one, Fill(7, 5));
    assert one + [Fill(7, 5)] == two;
    RunKeeps(two);
    var t := Execute(two).tracker;
    FindUnique(t.orders, 7, 0);
    AckKeepsCountIff(t, 7, 9, 2);
    ExecuteNext(two, Ack(7, 9, 2));
    assert two + [Ack(7, 9, 2)] == [Intent(Sample(7)), Fill(7, 5), Ack(7, 9, 2)];
  }

  /** A second cancel-ack takes another order out of the count. */
  lemma SecondCancelAckBreaksCount()
    ensures var t := Execute([Intent(Sample(7)), Intent(Sample(8)), CancelAck(7), CancelAck(7)]).tracker;
            t.activeCount != CountActive(t.orders)
  {
    var one := [Intent(Sample(7))];
    var two, three := one + [Intent(Sample(8))], one + [Intent(Sample(8))] + [CancelAck(7)];
    AfterOneIntent(7);
    ReusableUnique(Execute(one).tracker.orders, 1);
    ExecuteNext(one, Intent(Sample(8)));
    FindUnique(Execute(two).tracker.orders, 7, 0);
    ExecuteNext(two, CancelAck(7));
    RunKeeps(three);
    var t := Execute(three).tracker;
    FindUnique(t.orders, 7, 0);
    CloseKeepsCountIff(t, 7, Cancelled);
    ExecuteNext(three, CancelAck(7));
    assert three + [CancelAck(7)] == [Intent(Sample(7)), Intent(Sample(8)), CancelAck(7), CancelAck(7)];
  }
}
