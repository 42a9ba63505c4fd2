/** Carry chains and three-limb accumulators over `w`-bit limbs. */
module ExtendedPrecision {
  import opened Arithmetic
  import opened Bits
  import opened ConstantTime

  /** Sum with carry: the low word and the carry out. */
  function AddC(w: nat, x: nat, y: nat, carryIn: nat): (r: (nat, nat))
    requires IsWord(w, x) && IsWord(w, y) && IsCtBool(carryIn)
    ensures IsWord(w, r.0) && IsCtBool(r.1)
    ensures r.0 + r.1 * Pow2(w) == x + y + carryIn
  {
    var wide := x + y + carryIn;
    ModOfWord(wide, Pow2(w));
    SplitWord(wide, Pow2(w));
    (wide % Pow2(w), wide / Pow2(w))
  }

  lemma SplitWord(x: nat, m: nat)
    requires m > 0
    ensures x == x % m + (x / m) * m && 0 <= x % m < m && x / m >= 0
    ensures x < m ==> x / m == 0
    ensures m <= x < 2 * m ==> x / m == 1
  {
    DivBounds(x, m);
    if x < m { DivModUnique(x, m, 0, x); }
    if m <= x < 2 * m { DivModUnique(x, m, 1, x - m); }
  }

  /** Difference with borrow, computed in a double word whose high half is all ones on borrow;
      the borrow is the lowest bit of that half. */
  function SubB(w: nat, x: nat, y: nat, borrowIn: nat): (r: (nat, nat))
    requires w > 0 && IsWord(w, x) && IsWord(w, y) && IsCtBool(borrowIn)
    ensures IsWord(w, r.0) && IsCtBool(r.1)
    ensures r.0 - r.1 * Pow2(w) == x - y - borrowIn
  {
    var m := Pow2(w);
    var wide := Sub(2 * w, Sub(2 * w, x, y), borrowIn);
    BorrowWord(w, x, y, borrowIn);
    (wide % m, (wide / m) % 2)
  }

  lemma BorrowWord(w: nat, x: nat, y: nat, borrowIn: nat)
    requires w > 0 && IsWord(w, x) && IsWord(w, y) && IsCtBool(borrowIn)
    ensures var m := Pow2(w);
            var wide := Sub(2 * w, Sub(2 * w, x, y), borrowIn);
            var diff := x - y - borrowIn;
            if diff >= 0
            then wide % m == diff && wide / m == 0
            else wide % m == diff + m && (wide / m) % 2 == 1
  {
    Pow2Add(w, w);
    var m := Pow2(w);
    assert m == 2 * Pow2(w - 1);
    MulMono(2, m, m);
    NestedSub(x, y, borrowIn, m * m);
    BorrowSplit(x - y - borrowIn, m, Pow2(w - 1), Sub(2 * w, Sub(2 * w, x, y), borrowIn));
  }

  lemma BorrowSplit(diff: int, m: nat, half: nat, wide: int)
    requires m == 2 * half > 0 && 0 - m <= diff < m && wide == if diff >= 0 then diff else diff + m * m
    ensures if diff >= 0
            then wide % m == diff && wide / m == 0
            else wide % m == diff + m && (wide / m) % 2 == 1
  {
    if diff >= 0 {
      DivModUnique(diff, m, 0, diff);
    } else {
      AllOnesHigh(diff, m);
      DivModUnique(m - 1, 2, half - 1, 1);
    }
  }

  lemma NestedSub(x: nat, y: nat, b: nat, mm: nat)
    requires x < mm && y + b < mm
    ensures ((x - y) % mm - b) % mm == if x - y - b >= 0 then x - y - b else x - y - b + mm
  {
    ModOfWord(x - y, mm);
    ModOfWord((x - y) % mm - b, mm);
  }

  lemma AllOnesHigh(diff: int, m: nat)
    requires m > 0 && 0 <= diff + m < m
    ensures (diff + m * m) / m == m - 1 && (diff + m * m) % m == diff + m
  {
    assert diff + m * m == (m - 1) * m + (diff + m);
    DivModUnique(diff + m * m, m, m - 1, diff + m);
  }

  /** Subtracting what was added, with the same carry, gives back the word and the carry. */
  lemma SubUndoesAdd(w: nat, x: nat, y: nat, carryIn: nat)
    requires w > 0 && IsWord(w, x) && IsWord(w, y) && IsCtBool(carryIn)
    ensures var s := AddC(w, x, y, carryIn); SubB(w, s.0, y, carryIn) == (x, s.1)
  {
    var s := AddC(w, x, y, carryIn);
    var e := SubB(w, s.0, y, carryIn);
    assert e.0 - e.1 * Pow2(w) == x - s.1 * Pow2(w);
  }

  function WideMul(w: nat, a: nat, b: nat): (r: (nat, nat))
    requires IsWord(w, a) && IsWord(w, b)
    ensures IsWord(w, r.0) && IsWord(w, r.1)
    ensures r.0 * Pow2(w) + r.1 == a * b
  {
    ProductSplit(a, b, Pow2(w));
    ((a * b) / Pow2(w), (a * b) % Pow2(w))
  }

  lemma ProductSplit(a: nat, b: nat, m: nat)
    requires a < m && b < m
    ensures 0 <= (a * b) / m < m && 0 <= (a * b) % m < m
    ensures ((a * b) / m) * m + (a * b) % m == a * b
  {
    MulAddFits(a, b, 0, 0, m);
    SplitWord(a * b, m);
  }

  /** Multiply and add two limbs: the exact value still fits two limbs. */
  function MulAdd2(w: nat, a: nat, b: nat, c1: nat, c2: nat): (r: (nat, nat))
    requires IsWord(w, a) && IsWord(w, b) && IsWord(w, c1) && IsWord(w, c2)
    ensures IsWord(w, r.0) && IsWord(w, r.1)
    ensures r.0 * Pow2(w) + r.1 == a * b + c1 + c2
  {
    var m := Pow2(w);
    MulAddFits(a, b, c1, c2, m);
    SplitWord(a * b + c1 + c2, m);
    ((a * b + c1 + c2) / m, (a * b + c1 + c2) % m)
  }

  lemma MulAddFits(a: nat, b: nat, c1: nat, c2: nat, m: nat)
    requires a < m && b < m && c1 < m && c2 < m
    ensures (a * b + c1 + c2) / m < m
  {
    var n := a * b + c1 + c2;
    MulMono(a, m - 1, b);
    MulMono(b, m - 1, m - 1);
    SquareBelow(m);
    QuotientBelow(n, m, m);
  }

  lemma SquareBelow(m: int)
    ensures (m - 1) * (m - 1) + 2 * (m - 1) == m * m - 1
  {}

  /** Three limbs, least significant last. */
  datatype Limbs = Limbs(t: nat, u: nat, v: nat)

  predicate IsLimbs(w: nat, a: Limbs) { IsWord(w, a.t) && IsWord(w, a.u) && IsWord(w, a.v) }

  function Value(w: nat, a: Limbs): nat { (a.t * Pow2(w) + a.u) * Pow2(w) + a.v }

  /** The modulus of three limbs. */
  function Modulus(w: nat): (m: nat)
    ensures m > 0
  {
    ProductSign(Pow2(w), Pow2(w));
    ProductSign(Pow2(w) * Pow2(w), Pow2(w));
    Pow2(w) * Pow2(w) * Pow2(w)
  }

  lemma LimbsDetermineValue(w: nat, a: Limbs, b: Limbs)
    requires IsLimbs(w, a) && IsLimbs(w, b) && Value(w, a) == Value(w, b)
    ensures a == b
  {
    var m := Pow2(w);
    DivModUnique(Value(w, a), m, a.t * m + a.u, a.v);
    DivModUnique(Value(w, a), m, b.t * m + b.u, b.v);
    DivModUnique(a.t * m + a.u, m, a.t, a.u);
    DivModUnique(a.t * m + a.u, m, b.t, b.u);
  }

  lemma ValueBound(w: nat, a: Limbs)
    requires IsLimbs(w, a)
    ensures Value(w, a) < Modulus(w)
  {
    var m := Pow2(w);
    MulMono(a.t + 1, m, m);
    assert (a.t + 1) * m == a.t * m + m;
    MulMono(a.t * m + a.u + 1, m * m, m);
    assert (a.t * m + a.u + 1) * m == (a.t * m + a.u) * m + m;
  }

  /** Adding a two-limb number into three limbs, the top limb wrapping. */
  function AddPair(w: nat, a: Limbs, hi: nat, lo: nat): (r: Limbs)
    requires IsLimbs(w, a) && IsWord(w, hi) && IsWord(w, lo)
    ensures IsLimbs(w, r)
  {
    var low := AddC(w, a.v, lo, 0);
    var mid := AddC(w, a.u, hi, low.1);
    Limbs(Add(w, a.t, mid.1), mid.0, low.0)
  }

  lemma AddPairValue(w: nat, a: Limbs, hi: nat, lo: nat)
    requires IsLimbs(w, a) && IsWord(w, hi) && IsWord(w, lo)
    ensures Value(w, AddPair(w, a, hi, lo)) == (Value(w, a) + hi * Pow2(w) + lo) % Modulus(w)
  {
    var m := Pow2(w);
    var low := AddC(w, a.v, lo, 0);
    var mid := AddC(w, a.u, hi, low.1);
    var r := AddPair(w, a, hi, lo);
    var over := (a.t + mid.1) / m;
    SplitWord(a.t + mid.1, m);
    CarryOut(m, a.t, a.u, a.v, hi, lo, low.0, low.1, mid.0, mid.1, r.t, over);
    ValueBound(w, r);
    DivModUnique(Value(w, a) + hi * m + lo, Modulus(w), over, Value(w, r));
  }

  lemma CarryOut(m: nat, t: nat, u: nat, v: nat, hi: nat, lo: nat,
                 v': nat, c: nat, u': nat, e: nat, t': nat, over: nat)
    requires v' + c * m == v + lo && u' + e * m == u + hi + c && t' + over * m == t + e
    ensures (t * m + u) * m + v + hi * m + lo == over * (m * m * m) + ((t' * m + u') * m + v')
  {
    calc {
      (t * m + u) * m + v + hi * m + lo;
      (t * m + u + hi + c) * m + v';
      (t * m + u' + e * m) * m + v';
      ((t + e) * m + u') * m + v';
      ((t' + over * m) * m + u') * m + v';
      over * (m * m * m) + ((t' * m + u') * m + v');
    }
  }

  /** `(t, u, v) += a * b`. */
  function MulAccumulate(w: nat, acc: Limbs, a: nat, b: nat): (r: Limbs)
    requires IsLimbs(w, acc) && IsWord(w, a) && IsWord(w, b)
    ensures IsLimbs(w, r)
  {
    var uv := WideMul(w, a, b);
    AddPair(w, acc, uv.0, uv.1)
  }

  /** `(t, u, v) += 2 * a * b`, by doubling the product first. */
  function MulDoubleAccumulate(w: nat, acc: Limbs, a: nat, b: nat): (r: Limbs)
    requires IsLimbs(w, acc) && IsWord(w, a) && IsWord(w, b)
    ensures IsLimbs(w, r)
  {
    var uv := WideMul(w, a, b);
    var lo := AddC(w, uv.1, uv.1, 0);
    var hi := AddC(w, uv.0, uv.0, lo.1);
    AddPair(w, acc.(t := Add(w, acc.t, hi.1)), hi.0, lo.0)
  }

  lemma MulAccumulateAdds(w: nat, acc: Limbs, a: nat, b: nat)
    requires IsLimbs(w, acc) && IsWord(w, a) && IsWord(w, b)
    ensures Value(w, MulAccumulate(w, acc, a, b)) == (Value(w, acc) + a * b) % Modulus(w)
  {
    var uv := WideMul(w, a, b);
    AddPairValue(w, acc, uv.0, uv.1);
  }

  lemma MulDoubleAccumulateAdds(w: nat, acc: Limbs, a: nat, b: nat)
    requires IsLimbs(w, acc) && IsWord(w, a) && IsWord(w, b)
    ensures Value(w, MulDoubleAccumulate(w, acc, a, b)) == (Value(w, acc) + 2 * (a * b)) % Modulus(w)
  {
    var uv := WideMul(w, a, b);
    var lo := AddC(w, uv.1, uv.1, 0);
    var hi := AddC(w, uv.0, uv.0, lo.1);
    var acc' := acc.(t := Add(w, acc.t, hi.1));
    AddPairValue(w, acc', hi.0, lo.0);
    DoubledPair(w, acc, uv.0, uv.1);
  }

  lemma DoubledPair(w: nat, acc: Limbs, h: nat, l: nat)
    requires IsLimbs(w, acc) && IsWord(w, h) && IsWord(w, l)
    ensures var lo := AddC(w, l, l, 0);
            var hi := AddC(w, h, h, lo.1);
            var acc' := acc.(t := Add(w, acc.t, hi.1));
            var doubled := Value(w, acc') + hi.0 * Pow2(w) + lo.0;
            doubled % Modulus(w) == (Value(w, acc) + 2 * (h * Pow2(w) + l)) % Modulus(w)
  {
    var m := Pow2(w);
    var lo := AddC(w, l, l, 0);
    var hi := AddC(w, h, h, lo.1);
    var over := (acc.t + hi.1) / m;
    var acc' := acc.(t := Add(w, acc.t, hi.1));
    var doubled, exact := Value(w, acc') + hi.0 * m + lo.0, Value(w, acc) + 2 * (h * m + l);
    assert exact == doubled + over * Modulus(w) by {
      SplitWord(acc.t + hi.1, m);
      DoubledCarry(m, h, l, lo.0, lo.1, hi.0, hi.1, acc.t, acc.u, acc.v, acc'.t, over);
    }
    ModShift(doubled, over, Modulus(w));
  }

  lemma DoubledCarry(m: nat, h: nat, l: nat, l2: nat, c: nat, h2: nat, e: nat,
                     t: nat, u: nat, v: nat, t': nat, over: nat)
    requires l2 + c * m == l + l && h2 + e * m == h + h + c && t' + over * m == t + e
    ensures (t * m + u) * m + v + 2 * (h * m + l)
         == ((t' * m + u) * m + v + h2 * m + l2) + over * (m * m * m)
  {
    DoubledLow(m, h, l, l2, c, h2, e);
    DoubledTop(m, t, u, e, t', over);
  }

  lemma DoubledLow(m: int, h: int, l: int, l2: int, c: int, h2: int, e: int)
    requires l2 + c * m == l + l && h2 + e * m == h + h + c
    ensures 2 * (h * m + l) == h2 * m + (e * m) * m + l2
  {
    Distribute(h + h, c, m);
    Distribute(h2, e * m, m);
    Associate(2, h, m);
  }

  lemma DoubledTop(m: int, t: int, u: int, e: int, t': int, over: int)
    requires t' + over * m == t + e
    ensures (t * m + u) * m + (e * m) * m == (t' * m + u) * m + over * (m * m * m)
  {
    calc {
      (t * m + u) * m + (e * m) * m;
      ((t + e) * m + u) * m;
      ((t' + over * m) * m + u) * m;
      (t' * m + u) * m + over * (m * m * m);
    }
  }

  lemma AddAfterMod(n: int, k: int, m: nat)
    requires m > 0
    ensures (n % m + k) % m == (n + k) % m
  {
    var q := n / m;
    assert n % m + k == (n + k) + (-q) * m;
    ModShift(n + k, -q, m);
  }

  /** The doubling form equals two single accumulations, from every accumulator. */
  lemma DoubleIsTwice(w: nat, acc: Limbs, a: nat, b: nat)
    requires IsLimbs(w, acc) && IsWord(w, a) && IsWord(w, b)
    ensures MulDoubleAccumulate(w, acc, a, b) == MulAccumulate(w, MulAccumulate(w, acc, a, b), a, b)
  {
    TwiceValue(w, acc, a, b);
    MulDoubleAccumulateAdds(w, acc, a, b);
    LimbsDetermineValue(w, MulDoubleAccumulate(w, acc, a, b), MulAccumulate(w, MulAccumulate(w, acc, a, b), a, b));
  }

  lemma TwiceValue(w: nat, acc: Limbs, a: nat, b: nat)
    requires IsLimbs(w, acc) && IsWord(w, a) && IsWord(w, b)
    ensures Value(w, MulAccumulate(w, MulAccumulate(w, acc, a, b), a, b)) == (Value(w, acc) + 2 * (a * b)) % Modulus(w)
  {
    ChainValue(w, acc, MulAccumulate(w, acc, a, b), a, b);
    MulAccumulateAdds(w, acc, a, b);
  }

  lemma ChainValue(w: nat, acc: Limbs, once: Limbs, a: nat, b: nat)
    requires IsLimbs(w, acc) && IsLimbs(w, once) && IsWord(w, a) && IsWord(w, b)
    ensures Value(w, once) == (Value(w, acc) + a * b) % Modulus(w) ==>
              Value(w, MulAccumulate(w, once, a, b)) == (Value(w, acc) + 2 * (a * b)) % Modulus(w)
  {
    MulAccumulateAdds(w, once, a, b);
    AddAfterMod(Value(w, acc) + a * b, a * b, Modulus(w));
  }

  /** The accumulator that the source passes as three mutable limbs. */
  class Accumulator {
    const w: nat
    var t: nat
    var u: nat
    var v: nat

    function State(): Limbs
      reads this
    {
      Limbs(t, u, v)
    }

    ghost predicate Valid()
      reads this
    {
      IsLimbs(w, State())
    }

    constructor (w: nat)
      ensures Valid() && this.w == w && Value(w, State()) == 0
    {
      this.w, t, u, v := w, 0, 0, 0;
    }

    method MulAcc(a: nat, b: nat)
      requires Valid() && IsWord(w, a) && IsWord(w, b)
      modifies this
      ensures Valid() && State() == MulAccumulate(w, old(State()), a, b)
      ensures Value(w, State()) == (old(Value(w, State())) + a * b) % Modulus(w)
    {
      MulAccumulateAdds(w, State(), a, b);
      var uv := WideMul(w, a, b);
      var low := AddC(w, v, uv.1, 0);
      v := low.0;
      var mid := AddC(w, u, uv.0, low.1);
      u := mid.0;
      t := Add(w, t, mid.1);
    }

    method MulDoubleAcc(a: nat, b: nat)
      requires Valid() && IsWord(w, a) && IsWord(w, b)
      modifies this
      ensures Valid() && State() == MulDoubleAccumulate(w, old(State()), a, b)
      ensures Value(w, State()) == (old(Value(w, State())) + 2 * (a * b)) % Modulus(w)
    {
      MulDoubleAccumulateAdds(w, State(), a, b);
      var uv := WideMul(w, a, b);
      var lo := AddC(w, uv.1, uv.1, 0);
      var hi := AddC(w, uv.0, uv.0, lo.1);
      t := Add(w, t, hi.1);
      var low := AddC(w, v, lo.0, 0);
      v := low.0;
      var mid := AddC(w, u, hi.0, low.1);
      u := mid.0;
      t := Add(w, t, mid.1);
    }
  }
}
