/** Worst-case exposure, composed of the position and the open orders. */
module Exposure {
  import opened Arithmetic
  import opened MachineInts
  import opened ArrayBook
  import P = Position
  import T = OrderTracker

  /** Index of the first position of an instrument, or the number of positions. */
  function FindPosition(positions: seq<P.State>, instrument: nat): (i: nat)
    ensures i <= |positions|
    ensures i < |positions| ==> positions[i].instrument == instrument
    ensures forall j :: 0 <= j < i ==> positions[j].instrument != instrument
  {
    if positions == [] then 0
    else if positions[0].instrument == instrument then 0
    else 1 + FindPosition(positions[1..], instrument)
  }

  function CurrentQty(positions: seq<P.State>, instrument: nat): int {
    var i := FindPosition(positions, instrument);
    if i < |positions| then positions[i].qty else 0
  }

  /** Position if every open order of the side fills. */
  function WorstCaseQty(positions: seq<P.State>, orders: T.Slots, instrument: nat, side: Side): int {
    var open := T.OpenQty(orders, instrument, side);
    CurrentQty(positions, instrument) + (if side == Bid then open else 0 - open)
  }

  /** With no order the worst case is the position, and with no position it is what is open: the
      sum of the remaining quantities on the bid side, its negative on the ask side. */
  lemma WorstCaseStarts(positions: seq<P.State>, orders: T.Slots, instrument: nat, side: Side)
    ensures forall i :: 0 <= i < |positions| && positions[i].instrument == instrument
                        && (forall j :: 0 <= j < i ==> positions[j].instrument != instrument) ==>
              WorstCaseQty(positions, T.EmptyTracker().orders, instrument, side) == positions[i].qty
    ensures (forall i :: 0 <= i < |positions| ==> positions[i].instrument != instrument) ==>
              && WorstCaseQty(positions, T.EmptyTracker().orders, instrument, side) == 0
              && WorstCaseQty(positions, orders, instrument, Bid) == T.OpenQty(orders, instrument, Bid)
              && WorstCaseQty(positions, orders, instrument, Ask) == 0 - T.OpenQty(orders, instrument, Ask)
  {
    NothingOpen(T.MAX_TRACKED_ORDERS, instrument, side);
  }

  lemma {:induction false} NothingOpen(n: nat, instrument: nat, side: Side)
    ensures T.OpenQty(seq(n, _ => None), instrument, side) == 0
  {
    if n > 0 {
      NothingOpen(n - 1, instrument, side);
      var s: T.Slots := seq(n, _ => None);
      assert s[..n - 1] == seq(n - 1, _ => None);
    }
  }

  lemma UpdatedPosition(positions: seq<P.State>, k: nat, p: P.State, instrument: nat)
    requires k < |positions| && k == FindPosition(positions, p.instrument) && p.instrument == positions[k].instrument
    ensures CurrentQty(positions[k := p], instrument)
         == if instrument == p.instrument then p.qty else CurrentQty(positions, instrument)
  {
    var upd := positions[k := p];
    var i, j := FindPosition(positions, instrument), FindPosition(upd, instrument);
    assert forall x :: 0 <= x < |positions| ==> upd[x].instrument == positions[x].instrument;
    assert i < |positions| ==> upd[i].instrument == instrument;
    assert j < |upd| ==> positions[j].instrument == instrument;
  }

  /** A fill takes itself from the open quantity, and never more than was open. */
  lemma FillTakesOpen(t: T.Tracker, id: nat, q: int, instrument: nat, side: Side)
    requires T.FoundActive(t, id)
    ensures var o := t.orders[T.Find(t.orders, id)].value;
            T.OpenQty(T.Step(t, T.Fill(id, q)).0.orders, instrument, side)
            == T.OpenQty(t.orders, instrument, side)
               - (if instrument == o.instrument && side == o.side then T.Min(q, o.Remaining()) else 0)
  {
    var i := T.Find(t.orders, id);
    T.OpenAfterUpdate(t.orders, i, Some(T.OrderAfterFill(t.orders[i].value, q)), instrument, side);
  }

  /** Tracker and positions after both have seen a fill of order `o`. */
  function HeldAfter(positions: seq<P.State>, instrument: nat, fill: P.Fill): seq<P.State>
    requires var k := FindPosition(positions, instrument); k < |positions| && P.Fillable(positions[k], fill)
  {
    var k := FindPosition(positions, instrument);
    positions[k := P.Filled(positions[k], fill)]
  }

  lemma FillMovesPosition(positions: seq<P.State>, owner: nat, fill: P.Fill, instrument: nat)
    requires var k := FindPosition(positions, owner); k < |positions| && P.Fillable(positions[k], fill)
    ensures CurrentQty(HeldAfter(positions, owner, fill), instrument)
         == CurrentQty(positions, instrument) + (if instrument == owner then P.Delta(fill) else 0)
  {
    var k := FindPosition(positions, owner);
    UpdatedPosition(positions, k, P.Filled(positions[k], fill), instrument);
  }

  /** A fill of an active order, applied to tracker and position, moves lots from open to held. The
      worst case of its own side moves by the signed excess over the remaining quantity, the opposite
      one by the whole signed quantity, and no other instrument is touched. */
  lemma FillMovesExposure(positions: seq<P.State>, t: T.Tracker, id: nat, q: i64, price: i64, instrument: nat, side: Side)
    requires T.FoundActive(t, id)
    requires var o := t.orders[T.Find(t.orders, id)].value;
             var k := FindPosition(positions, o.instrument);
             k < |positions| && P.Fillable(positions[k], P.Fill(o.side, q, price))
    ensures var o := t.orders[T.Find(t.orders, id)].value;
            var fill := P.Fill(o.side, q, price);
            var excess := q - T.Min(q, o.Remaining());
            var before := WorstCaseQty(positions, t.orders, instrument, side);
            var after := WorstCaseQty(HeldAfter(positions, o.instrument, fill), T.Step(t, T.Fill(id, q)).0.orders, instrument, side);
            && after - before == (if instrument != o.instrument then 0
                                  else if side != o.side then P.Delta(fill)
                                  else if side == Bid then excess else 0 - excess)
            && (instrument == o.instrument && side == o.side ==> (after == before <==> q <= o.Remaining()))
  {
    var o := t.orders[T.Find(t.orders, id)].value;
    FillTakesOpen(t, id, q, instrument, side);
    FillMovesPosition(positions, o.instrument, P.Fill(o.side, q, price), instrument);
  }

  /** An accepted intent widens the worst case of its own instrument and side by its size, and
      nothing else, provided the slot it takes was not open. */
  lemma IntentWidensExposure(positions: seq<P.State>, t: T.Tracker, o: T.Order, instrument: nat, side: Side)
    requires o.IsActive() && T.Step(t, T.Intent(o)).1
    ensures var orders := T.Step(t, T.Intent(o)).0.orders;
            WorstCaseQty(positions, orders, instrument, side) - WorstCaseQty(positions, t.orders, instrument, side)
            == if instrument == o.instrument && side == o.side
               then (if side == Bid then o.Remaining() else 0 - o.Remaining()) else 0
  {
    T.OpenAfterUpdate(t.orders, T.FirstReusable(t.orders), Some(o), instrument, side);
  }
}
