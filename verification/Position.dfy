/** Signed position with average entry price and profit accounting, in raw fixed-point units. */
module Position {
  import opened Arithmetic
  import opened MachineInts
  import opened FixedPoint
  import opened ArrayBook

  /** Quantity in lots, prices and money as raw `FixedI64<6>` values. */
  datatype State = State(instrument: nat, qty: i64, avgEntry: i64, realized: i64, fillCount: nat)

  datatype Fill = Fill(side: Side, qty: i64, price: i64)

  /** Signed change of the position. */
  function Delta(f: Fill): int { if f.side == Bid then f.qty else 0 - f.qty }

  /** Ranges the plain operators of the source need: no negation or sum leaves the signed word. */
  predicate Fillable(p: State, f: Fill) {
    f.qty != I64_MIN && InI64(p.qty + Delta(f)) && p.qty != I64_MIN && p.qty + Delta(f) != I64_MIN
  }

  predicate Increasing(p: State, f: Fill) {
    p.qty == 0 || (p.qty > 0 && Delta(f) > 0) || (p.qty < 0 && Delta(f) < 0)
  }

  function Signum(x: int): i64 { if x > 0 then 1 else if x < 0 then -1 else 0 }

  function CheckedAdd(a: i64, b: i64): Option<i64> { Checked(a + b) }
  function CheckedSub(a: i64, b: i64): Option<i64> { Checked(a - b) }

  /** Cost of the whole position after an increase; an overflowing term silently counts as zero. */
  function TotalCost(p: State, f: Fill): i64
    requires Fillable(p, f)
  {
    var oldCost := CheckedMulInt(p.avgEntry, Abs(p.qty)).UnwrapOr(0);
    var newCost := CheckedMulInt(f.price, Abs(Delta(f))).UnwrapOr(0);
    CheckedAdd(oldCost, newCost).UnwrapOr(0)
  }

  /** Profit of the lots a fill closes; an overflowing step silently counts as zero. */
  function FillPnl(p: State, f: Fill): i64
    requires Fillable(p, f)
  {
    var closed := if Abs(Delta(f)) < Abs(p.qty) then Abs(Delta(f)) else Abs(p.qty);
    var perLot := CheckedMulInt(CheckedSub(f.price, p.avgEntry).UnwrapOr(0), Signum(p.qty)).UnwrapOr(0);
    CheckedMulInt(perLot, closed).UnwrapOr(0)
  }

  /** `on_fill` on values. */
  function Filled(p: State, f: Fill): State
    requires Fillable(p, f)
  {
    var qty := p.qty + Delta(f);
    var count := if p.fillCount >= 0xFFFF_FFFF then p.fillCount else p.fillCount + 1;
    if Increasing(p, f) then
      var avg := CheckedDivInt(TotalCost(p, f), Abs(qty)).UnwrapOr(0);
      State(p.instrument, qty, if qty == 0 then 0 else avg, p.realized, count)
    else
      var realized := CheckedAdd(p.realized, FillPnl(p, f)).UnwrapOr(p.realized);
      var avg := if qty != 0 && Signum(qty) != Signum(p.qty) then f.price else p.avgEntry;
      State(p.instrument, qty, if qty == 0 then 0 else avg, realized, count)
  }

  class PositionBook {
    const instrument: nat
    var qty: i64
    var avgEntry: i64
    var realized: i64
    var fillCount: nat

    function Value(): State
      reads this
    {
      State(instrument, qty, avgEntry, realized, fillCount)
    }

    constructor (instrument: nat)
      ensures Value() == State(instrument, 0, 0, 0, 0)
    {
      this.instrument := instrument;
      qty, avgEntry, realized, fillCount := 0, 0, 0, 0;
    }

    method OnFill(side: Side, fillQty: i64, price: i64)
      requires Fillable(Value(), Fill(side, fillQty, price))
      modifies this
      ensures Value() == Filled(old(Value()), Fill(side, fillQty, price))
    {
      var delta := if side == Bid then fillQty else 0 - fillQty;
      var oldQty := qty;
      var newQty := oldQty + delta;
      var increasing := oldQty == 0 || (oldQty > 0 && delta > 0) || (oldQty < 0 && delta < 0);
      if increasing {
        var oldCost := CheckedMulInt(avgEntry, Abs(oldQty)).UnwrapOr(0);
        var newCost := CheckedMulInt(price, Abs(delta)).UnwrapOr(0);
        var totalCost := CheckedAdd(oldCost, newCost).UnwrapOr(0);
        avgEntry := CheckedDivInt(totalCost, Abs(newQty)).UnwrapOr(0);
      } else {
        var closed := if Abs(delta) < Abs(oldQty) then Abs(delta) else Abs(oldQty);
        var direction := Signum(oldQty);
        var perLot := CheckedMulInt(CheckedSub(price, avgEntry).UnwrapOr(0), direction).UnwrapOr(0);
        var fillPnl := CheckedMulInt(perLot, closed).UnwrapOr(0);
        realized := CheckedAdd(realized, fillPnl).UnwrapOr(realized);
        if Abs(newQty) > 0 && Signum(newQty) != Signum(oldQty) {
          avgEntry := price;
        }
      }
      qty := newQty;
      if fillCount < 0xFFFF_FFFF { fillCount := fillCount + 1; }
      if qty == 0 { avgEntry := 0; }
    }
  }

  function UnrealizedPnl(p: State, mid: i64): i64 {
    if p.qty == 0 then 0 else CheckedMulInt(CheckedSub(mid, p.avgEntry).UnwrapOr(0), p.qty).UnwrapOr(0)
  }

  function TotalPnl(p: State, mid: i64): i64 {
    CheckedAdd(p.realized, UnrealizedPnl(p, mid)).UnwrapOr(p.realized)
  }

  // ---- Conservation of money ----

  /** No checked operation of the fill overflows. */
  predicate NoOverflow(p: State, f: Fill) {
    && Fillable(p, f) && f.price >= 0
    && (Increasing(p, f) ==>
          && InI64(p.avgEntry * Abs(p.qty)) && InI64(f.price * Abs(Delta(f)))
          && InI64(p.avgEntry * Abs(p.qty) + f.price * Abs(Delta(f))))
    && (!Increasing(p, f) ==>
          var closed := if Abs(Delta(f)) < Abs(p.qty) then Abs(Delta(f)) else Abs(p.qty);
          && InI64(f.price - p.avgEntry) && InI64((f.price - p.avgEntry) * Signum(p.qty))
          && InI64((f.price - p.avgEntry) * Signum(p.qty) * closed)
          && InI64(p.realized + (f.price - p.avgEntry) * Signum(p.qty) * closed))
  }

  /** Money received by a fill: selling brings the price, buying pays it. */
  function CashFlow(f: Fill): int { 0 - Delta(f) * f.price }

  /** What the average-price division of an increasing fill drops. */
  function VwapRemainder(p: State, f: Fill): int
    requires Fillable(p, f)
  {
    if Increasing(p, f) && p.qty + Delta(f) != 0 then ExactCost(p, f) % Abs(p.qty + Delta(f)) else 0
  }

  /** Realized profit minus cash minus the position at its entry price: the rounding so far. */
  function Drift(p: State, cash: int): int { p.realized - cash - p.qty * p.avgEntry }

  /** The whole position at cost after an increase, before any overflow. */
  function ExactCost(p: State, f: Fill): int { p.avgEntry * Abs(p.qty) + f.price * Abs(Delta(f)) }

  /** Profit of the closed lots, before any overflow. */
  function ExactPnl(p: State, f: Fill): int {
    (f.price - p.avgEntry) * Signum(p.qty) * (if Abs(Delta(f)) < Abs(p.qty) then Abs(Delta(f)) else Abs(p.qty))
  }

  lemma CostsAreNonNegative(p: State, f: Fill)
    requires Fillable(p, f) && p.avgEntry >= 0 && f.price >= 0
    ensures p.avgEntry * Abs(p.qty) >= 0 && f.price * Abs(Delta(f)) >= 0
    ensures 0 <= TotalCost(p, f) <= ExactCost(p, f)
    ensures TotalCost(p, f) == ExactCost(p, f) || TotalCost(p, f) + I64_MAX < ExactCost(p, f)
    ensures TotalCost(p, f) == ExactCost(p, f) <==> InI64(ExactCost(p, f))
  {
    ProductSign(p.avgEntry, Abs(p.qty));
    ProductSign(f.price, Abs(Delta(f)));
  }

  /** An increase moves the drift by what the new average leaves of the exact cost. */
  lemma IncreaseMoves(p: State, f: Fill, cash: int)
    requires Fillable(p, f) && Increasing(p, f) && p.avgEntry >= 0 && f.price >= 0 && p.qty + Delta(f) != 0
    ensures var n := Abs(p.qty + Delta(f));
            var left := ExactCost(p, f) - TotalCost(p, f) / n * n;
            && Filled(p, f).avgEntry == TotalCost(p, f) / n >= 0
            && Drift(Filled(p, f), cash + CashFlow(f)) - Drift(p, cash) == (if p.qty + Delta(f) > 0 then left else 0 - left)
  {
    var n, cost := Abs(p.qty + Delta(f)), TotalCost(p, f);
    CostsAreNonNegative(p, f);
    DivSmallerNat(cost, n);
    var avg := cost / n;
    var left := ExactCost(p, f) - avg * n;
    if p.qty + Delta(f) > 0 {
      LongIncrease(p.qty, p.avgEntry, Delta(f), f.price, avg, left);
    } else {
      ShortIncrease(p.qty, p.avgEntry, Delta(f), f.price, avg, left);
    }
  }

  lemma IncreaseConserves(p: State, f: Fill, cash: int)
    requires NoOverflow(p, f) && Increasing(p, f) && p.avgEntry >= 0
    ensures Filled(p, f).avgEntry >= 0
    ensures Drift(Filled(p, f), cash + CashFlow(f)) - Drift(p, cash)
         == (if p.qty + Delta(f) > 0 then VwapRemainder(p, f) else 0 - VwapRemainder(p, f))
    ensures 0 <= VwapRemainder(p, f)
    ensures if Filled(p, f).qty == 0 then VwapRemainder(p, f) == 0 else VwapRemainder(p, f) < Abs(Filled(p, f).qty)
  {
    if p.qty + Delta(f) != 0 {
      CostsAreNonNegative(p, f);
      IncreaseMoves(p, f, cash);
      DivIdentity(ExactCost(p, f), Abs(p.qty + Delta(f)));
    }
  }

  lemma DivSmallerNat(a: nat, b: nat)
    requires b > 0
    ensures 0 <= a / b <= a
  {
    DivBounds(a, b);
    MulMono(1, b, a / b);
  }

  lemma LongIncrease(q: int, avg: int, d: int, price: int, avg': int, rem: int)
    requires avg * q + price * d == avg' * (q + d) + rem
    ensures 0 - (q + d) * avg' - (0 - d * price) - (0 - q * avg) == rem
  {}

  lemma ShortIncrease(q: int, avg: int, d: int, price: int, avg': int, rem: int)
    requires avg * (0 - q) + price * (0 - d) == avg' * (0 - (q + d)) + rem
    ensures 0 - (q + d) * avg' - (0 - d * price) - (0 - q * avg) == 0 - rem
  {}

  /** A close or flip moves the drift by the profit that was booked less the profit that was made. */
  lemma ReduceMoves(p: State, f: Fill, cash: int)
    requires Fillable(p, f) && !Increasing(p, f)
    ensures Drift(Filled(p, f), cash + CashFlow(f)) - Drift(p, cash)
         == Filled(p, f).realized - p.realized - ExactPnl(p, f)
  {
    var d := Delta(f);
    if Abs(d) <= Abs(p.qty) {
      ClosePart(p.qty, p.avgEntry, d, f.price, Signum(p.qty), Abs(d));
      if p.qty + d == 0 { Zero(p.avgEntry, Filled(p, f).avgEntry); }
    } else {
      Flip(p.qty, p.avgEntry, d, f.price, Signum(p.qty), Abs(p.qty));
    }
  }

  lemma Zero(a: int, b: int)
    ensures 0 * a == 0 * b == 0
  {}

  /** The booked profit is the made profit if every step fits, and nothing otherwise. */
  lemma BookedProfit(p: State, f: Fill)
    requires Fillable(p, f) && !Increasing(p, f) && p.avgEntry >= 0 && f.price >= 0
    ensures Filled(p, f).realized - p.realized == (if NoOverflow(p, f) then ExactPnl(p, f) else 0)
    ensures !NoOverflow(p, f) ==> ExactPnl(p, f) != 0
  {
    assert InI64(f.price - p.avgEntry) && InI64((f.price - p.avgEntry) * Signum(p.qty));
  }

  lemma ReduceConserves(p: State, f: Fill, cash: int)
    requires NoOverflow(p, f) && !Increasing(p, f) && p.avgEntry >= 0
    ensures Filled(p, f).avgEntry >= 0
    ensures Drift(Filled(p, f), cash + CashFlow(f)) == Drift(p, cash)
  {
    ReduceMoves(p, f, cash);
    BookedProfit(p, f);
  }

  /** What rounding the average may cost a fill. */
  function RoundingOf(p: State, f: Fill): nat {
    if Increasing(p, f) && p.qty + Delta(f) != 0 then Abs(p.qty + Delta(f)) - 1 else 0
  }

  /** Every fill, of any kind, conserves money up to the rounding of its average exactly when no
      checked operation overflows: an overflowing step silently counts as zero and is lost. */
  lemma FillConservesIff(p: State, f: Fill, cash: int)
    requires Fillable(p, f) && p.avgEntry >= 0 && f.price >= 0
    ensures Abs(Drift(Filled(p, f), cash + CashFlow(f)) - Drift(p, cash)) <= RoundingOf(p, f) <==> NoOverflow(p, f)
  {
    if Increasing(p, f) {
      IncreaseConservesIff(p, f, cash);
    } else {
      ReduceMoves(p, f, cash);
      BookedProfit(p, f);
    }
  }

  lemma IncreaseConservesIff(p: State, f: Fill, cash: int)
    requires Fillable(p, f) && Increasing(p, f) && p.avgEntry >= 0 && f.price >= 0
    ensures Abs(Drift(Filled(p, f), cash + CashFlow(f)) - Drift(p, cash)) <= RoundingOf(p, f) <==> NoOverflow(p, f)
  {
    CostsAreNonNegative(p, f);
    if NoOverflow(p, f) {
      IncreaseConserves(p, f, cash);
    } else if p.qty + Delta(f) != 0 {
      IncreaseMoves(p, f, cash);
      DivBounds(TotalCost(p, f), Abs(p.qty + Delta(f)));
    } else {
      Zero(p.avgEntry, f.price);
    }
  }

  lemma ClosePart(q: int, avg: int, d: int, price: int, sign: int, closed: int)
    requires sign * closed == 0 - d
    ensures (price - avg) * sign * closed - (0 - d * price) - ((q + d) * avg - q * avg) == 0
  {
    Associate(price - avg, sign, closed);
  }

  lemma Flip(q: int, avg: int, d: int, price: int, sign: int, closed: int)
    requires sign * closed == q
    ensures (price - avg) * sign * closed - (0 - d * price) - ((q + d) * price - q * avg) == 0
  {
    Associate(price - avg, sign, closed);
  }

  // ---- Runs of fills ----

  function AfterFills(instrument: nat, fills: seq<Fill>): (p: State)
    requires RunOk(instrument, fills)
    decreases |fills|, 1
  {
    if fills == [] then State(instrument, 0, 0, 0, 0)
    else Filled(AfterFills(instrument, fills[..|fills| - 1]), fills[|fills| - 1])
  }

  /** Every fill of the run meets a state in which nothing overflows. */
  predicate RunOk(instrument: nat, fills: seq<Fill>)
    decreases |fills|, 0
  {
    fills != [] ==>
      && RunOk(instrument, fills[..|fills| - 1])
      && NoOverflow(AfterFills(instrument, fills[..|fills| - 1]), fills[|fills| - 1])
  }

  function Cash(fills: seq<Fill>): int {
    if fills == [] then 0 else Cash(fills[..|fills| - 1]) + CashFlow(fills[|fills| - 1])
  }

  /** The position is the sum of the signed fills. */
  function Net(fills: seq<Fill>): int {
    if fills == [] then 0 else Net(fills[..|fills| - 1]) + Delta(fills[|fills| - 1])
  }

  /** Sum of |new quantity| - 1 over the increasing fills; an empty fill of a flat position adds nothing. */
  function RoundingBudget(instrument: nat, fills: seq<Fill>): nat
    requires RunOk(instrument, fills)
  {
    if fills == [] then 0
    else
      var p, f := AfterFills(instrument, fills[..|fills| - 1]), fills[|fills| - 1];
      RoundingBudget(instrument, fills[..|fills| - 1]) + RoundingOf(p, f)
  }

  /** Every average-price division of the run is exact. */
  predicate AllExact(instrument: nat, fills: seq<Fill>)
    requires RunOk(instrument, fills)
  {
    fills != [] ==>
      && AllExact(instrument, fills[..|fills| - 1])
      && VwapRemainder(AfterFills(instrument, fills[..|fills| - 1]), fills[|fills| - 1]) == 0
  }

  /** Over every run, realized profit is cash plus the position at its entry price, up to the
      remainders of the average-price divisions, through increases, closes and flips alike. */
  lemma {:induction false} ProfitIsConserved(instrument: nat, fills: seq<Fill>)
    requires RunOk(instrument, fills)
    ensures var p := AfterFills(instrument, fills);
            && p.instrument == instrument && p.fillCount == (if |fills| < 0xFFFF_FFFF then |fills| else 0xFFFF_FFFF)
            && p.qty == Net(fills) && p.avgEntry >= 0 && (p.qty == 0 ==> p.avgEntry == 0)
            && Abs(Drift(p, Cash(fills))) <= RoundingBudget(instrument, fills)
            && (AllExact(instrument, fills) ==> p.realized == Cash(fills) + p.qty * p.avgEntry)
  {
    if fills != [] {
      var init, f := fills[..|fills| - 1], fills[|fills| - 1];
      ProfitIsConserved(instrument, init);
      var p := AfterFills(instrument, init);
      if Increasing(p, f) {
        IncreaseConserves(p, f, Cash(init));
      } else {
        ReduceConserves(p, f, Cash(init));
      }
    }
  }

  /** The three checked steps of `total_pnl` succeed. */
  predicate MarkFits(p: State, mid: i64) {
    && InI64(mid - p.avgEntry) && InI64((mid - p.avgEntry) * p.qty)
    && InI64(p.realized + (mid - p.avgEntry) * p.qty)
  }

  /** Total profit is realized plus unrealized profit exactly when the position is flat or every step
      fits; otherwise only the realized part is reported. */
  lemma MarkExactIff(p: State, mid: i64)
    ensures TotalPnl(p, mid) == p.realized + (mid - p.avgEntry) * p.qty <==> p.qty == 0 || MarkFits(p, mid)
    ensures p.qty == 0 || !MarkFits(p, mid) ==> TotalPnl(p, mid) == p.realized
  {
    ProductSign(mid - p.avgEntry, p.qty);
    NonZeroProduct(mid - p.avgEntry, p.qty);
  }

  lemma NonZeroProduct(a: int, b: int)
    ensures a * b == 0 <==> a == 0 || b == 0
  {}

  /** Over every run, total profit at a mid price is cash plus the position at that price, up to the
      error of the run, for every mark that fits. */
  lemma TotalProfit(instrument: nat, fills: seq<Fill>, mid: i64)
    requires RunOk(instrument, fills)
    ensures var p := AfterFills(instrument, fills);
            p.qty == 0 || MarkFits(p, mid) ==>
              && Abs(TotalPnl(p, mid) - (Cash(fills) + p.qty * mid)) <= RoundingBudget(instrument, fills)
              && (AllExact(instrument, fills) ==> TotalPnl(p, mid) == Cash(fills) + p.qty * mid)
  {
    var p := AfterFills(instrument, fills);
    ProfitIsConserved(instrument, fills);
    MarkToMarket(p.qty, p.avgEntry, mid);
    MarkExactIff(p, mid);
  }

  lemma MarkToMarket(q: int, avg: int, mid: int)
    ensures (mid - avg) * q + q * avg == q * mid
  {}

  /** A flat book has realized exactly its cash, up to rounding: nothing is left in the position. */
  lemma FlatMeansCash(instrument: nat, fills: seq<Fill>)
    requires RunOk(instrument, fills) && Net(fills) == 0
    ensures Abs(AfterFills(instrument, fills).realized - Cash(fills)) <= RoundingBudget(instrument, fills)
  {
    ProfitIsConserved(instrument, fills);
  }

  /** An opening fill conserves money exactly when its cost fits; otherwise its whole cost is lost. */
  lemma OpeningConservesIff(p: State, f: Fill, cash: int)
    requires p.qty == 0 && p.avgEntry == 0 && Fillable(p, f) && f.price >= 0
    ensures Drift(Filled(p, f), cash + CashFlow(f)) == Drift(p, cash) <==> InI64(f.price * Abs(f.qty))
    ensures !InI64(f.price * Abs(f.qty)) ==>
              && Filled(p, f).avgEntry == 0
              && Abs(Drift(Filled(p, f), cash + CashFlow(f)) - Drift(p, cash)) == f.price * Abs(f.qty)
  {
    var n := Abs(Delta(f));
    FillConservesIff(p, f, cash);
    CostsAreNonNegative(p, f);
    Zero(Abs(p.qty), n);
    if n > 0 {
      IncreaseMoves(p, f, cash);
      DivModUnique(f.price * n, n, f.price, 0);
      DivModUnique(0, n, 0, 0);
    }
  }

  /** Two lots at the highest price: the cost overflows, enters the average as zero, and is lost. */
  lemma OverflowLosesMoney()
    ensures var f := Fill(Bid, 2, I64_MAX);
            var p := Filled(State(1, 0, 0, 0, 0), f);
            Fillable(State(1, 0, 0, 0, 0), f) && p.avgEntry == 0 && p.qty == 2 && Drift(p, CashFlow(f)) == 2 * I64_MAX
  {}
}
