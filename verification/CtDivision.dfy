/** Branch-free division of a double word by a word. One loop, generic in the
    width `w`, stands for the 64-bit and the 32-bit variant of the source. */
module CtDivision {
  import opened Arithmetic
  import opened Bits
  import opened ConstantTime

  /** The number held by a high and a low word. */
  function Wide(w: nat, hi: nat, lo: nat): nat { hi * Pow2(w) + lo }

  /** The word `(hi << j) | (lo >> k)` is the low word of the double word shifted right by `k`;
      what it misses is `hi >> k`. */
  lemma Window(w: nat, k: nat, hi: nat, lo: nat)
    requires 0 < k < w && IsWord(w, hi) && IsWord(w, lo)
    ensures Wide(w, hi, lo) / Pow2(k)
         == (hi / Pow2(k)) * Pow2(w) + Bitwise(Or, w, Shl(w, hi, w - k), Shr(w, lo, k))
  {
    JoinedHalves(w, k, hi, lo);
    WindowValue(w, k, hi, lo);
  }

  lemma JoinedHalves(w: nat, k: nat, hi: nat, lo: nat)
    requires 0 < k < w && IsWord(w, hi) && IsWord(w, lo)
    ensures Bitwise(Or, w, Shl(w, hi, w - k), Shr(w, lo, k)) == (hi % Pow2(k)) * Pow2(w - k) + lo / Pow2(k)
  {
    ShiftedHalves(w, k, hi, lo);
    OrOfDisjoint(w, w - k, hi % Pow2(k), lo / Pow2(k));
  }

  lemma WindowValue(w: nat, k: nat, hi: nat, lo: nat)
    requires 0 < k < w
    ensures Wide(w, hi, lo) / Pow2(k) == (hi / Pow2(k)) * Pow2(w) + ((hi % Pow2(k)) * Pow2(w - k) + lo / Pow2(k))
  {
    Pow2Add(k, w - k);
    WindowSum(hi, lo, Pow2(k), Pow2(w - k), Pow2(w));
  }

  lemma ShiftedHalves(w: nat, k: nat, hi: nat, lo: nat)
    requires 0 < k < w && IsWord(w, hi) && IsWord(w, lo)
    ensures Shl(w, hi, w - k) == (hi % Pow2(k)) * Pow2(w - k) && IsWord(w, (hi % Pow2(k)) * Pow2(w - k))
    ensures Shr(w, lo, k) == lo / Pow2(k) < Pow2(w - k)
  {
    Pow2Add(k, w - k);
    ModOfWord(k, w);
    ModOfWord(w - k, w);
    HighPart(hi, Pow2(k), Pow2(w - k));
    QuotientBelow(lo, Pow2(k), Pow2(w - k));
  }

  lemma HighPart(hi: nat, p: nat, s: nat)
    requires p > 0 && s > 0
    ensures (hi * s) % (p * s) == (hi % p) * s < p * s
  {
    assert hi == (hi / p) * p + hi % p;
    assert hi * s == (hi / p) * (p * s) + (hi % p) * s;
    MulStrict(hi % p, p, s);
    DivModUnique(hi * s, p * s, hi / p, (hi % p) * s);
  }

  lemma WindowSum(hi: nat, lo: nat, p: nat, s: nat, m: nat)
    requires p > 0 && s > 0 && m == p * s
    ensures (hi * m + lo) / p == (hi / p) * m + ((hi % p) * s + lo / p)
  {
    DivIdentity(hi, p);
    DivIdentity(lo, p);
    var q := hi * s + lo / p;
    Distribute(hi * s, lo / p, p);
    assert hi * s * p == hi * m by { Associate(hi, s, p); }
    DivModUnique(hi * m + lo, p, q, lo % p);
    Distribute((hi / p) * p, hi % p, s);
    Associate(hi / p, p, s);
  }

  /** Comparing against the divisor shifted left is comparing the shifted value. */
  lemma ShiftedCompare(n: nat, d: nat, p: nat)
    requires p > 0
    ensures n / p >= d <==> n >= d * p
  {
    DivBounds(n, p);
    if n / p >= d { MulMono(d, n / p, p); } else { MulMono(n / p + 1, d, p); }
  }

  /** After subtracting `d` from the window, its top part and the wrapped low word
      hold the double word minus the shifted divisor. */
  lemma Subtracted(n: nat, d: nat, p: nat, s: nat)
    requires p > 0 && s > 0 && n >= d * p
    ensures n / p >= d
    ensures n - d * p == ((n / p - d) / s) * (p * s) + (n - d * p) % (p * s)
  {
    ShiftedCompare(n, d, p);
    var u, e := n / p - d, n % p;
    assert n - d * p == u * p + e;
    var t := (u % s) * p + e;
    assert u == (u / s) * s + u % s;
    assert u * p == (u / s) * (p * s) + (u % s) * p;
    MulMono(u % s + 1, s, p);
    DivModUnique(n - d * p, p * s, u / s, t);
  }

  /** The word the loop compares with the divisor at position `k`. */
  function WindowWord(w: nat, k: nat, hi: nat, lo: nat): (win: nat)
    requires 0 < k < w && IsWord(w, hi) && IsWord(w, lo)
    ensures IsWord(w, win)
  {
    Bitwise(Or, w, Shl(w, hi, w - k), Shr(w, lo, k))
  }

  /** The branch-free control bit says whether the shifted divisor fits. */
  lemma TurnControl(w: nat, k: nat, hi: nat, lo: nat, d: nat)
    requires 0 < k < w && IsWord(w, hi) && IsWord(w, lo) && IsWord(w, d)
    ensures (WindowWord(w, k, hi, lo) >= d || Shr(w, hi, k) != 0) <==> Wide(w, hi, lo) >= d * Pow2(k)
  {
    var n, p := Wide(w, hi, lo), Pow2(k);
    ModOfWord(k, w);
    Window(w, k, hi, lo);
    ShiftedCompare(n, d, p);
    DivSmaller(hi, p);
    if hi / p >= 1 {
      MulMono(1, hi / p, Pow2(w));
    } else {
      assert (hi / p) * Pow2(w) == 0;
    }
  }

  /** Wrapping subtraction from the window is exact: the lost top part cancels. */
  lemma WindowMinus(w: nat, k: nat, hi: nat, lo: nat, d: nat)
    requires 0 < k < w && IsWord(w, hi) && IsWord(w, lo) && IsWord(w, d)
    requires d * Pow2(k) <= Wide(w, hi, lo) < d * Pow2(k + 1)
    ensures Sub(w, WindowWord(w, k, hi, lo), d) == Wide(w, hi, lo) / Pow2(k) - d
  {
    Window(w, k, hi, lo);
    DivSmaller(hi, Pow2(k));
    ShiftedRange(Wide(w, hi, lo), d, Pow2(k));
    CancelTop(Wide(w, hi, lo) / Pow2(k), hi / Pow2(k), Pow2(w), WindowWord(w, k, hi, lo), d);
  }

  lemma ShiftedRange(n: nat, d: nat, p: nat)
    requires p > 0 && d * p <= n < d * (2 * p)
    ensures d <= n / p < 2 * d
  {
    ShiftedCompare(n, d, p);
    ShiftedCompare(n, 2 * d, p);
    assert (2 * d) * p == d * (2 * p);
  }

  lemma CancelTop(v: nat, a: nat, m: nat, win: nat, d: nat)
    requires v == a * m + win && d <= v < 2 * d && d < m
    ensures (win - d) % m == v - d
  {
    assert win - d == (v - d) + (0 - a) * m;
    ModShift(v - d, 0 - a, m);
    ModOfWord(v - d, m);
  }

  /** When the control bit is set, the new words hold the old number minus the shifted divisor. */
  lemma TurnSubtract(w: nat, k: nat, hi: nat, lo: nat, d: nat)
    requires 0 < k < w && IsWord(w, hi) && IsWord(w, lo) && IsWord(w, d)
    requires d * Pow2(k) <= Wide(w, hi, lo) < d * Pow2(k + 1)
    ensures Wide(w, Shr(w, Sub(w, WindowWord(w, k, hi, lo), d), w - k), Sub(w, lo, Shl(w, d, k)))
         == Wide(w, hi, lo) - d * Pow2(k)
  {
    Pow2Add(k, w - k);
    ModOfWord(k, w);
    ModOfWord(w - k, w);
    WindowMinus(w, k, hi, lo, d);
    Subtracted(Wide(w, hi, lo), d, Pow2(k), Pow2(w - k));
    LowWord(Wide(w, hi, lo), lo, d * Pow2(k), hi, Pow2(w));
  }

  lemma LowWord(n: nat, lo: nat, sd: nat, hi: nat, m: nat)
    requires m > 0 && n == hi * m + lo
    ensures (lo - sd % m) % m == (n - sd) % m
  {
    assert n - sd == (lo - sd % m) + (hi - sd / m) * m;
    ModShift(lo - sd % m, hi - sd / m, m);
  }

  /** Setting bit `k` of a quotient whose lower bits are clear adds `2^k`. */
  lemma QuotientBit(w: nat, k: nat, turns: nat, ctl: nat)
    requires 0 < k < w && IsCtBool(ctl) && IsWord(w, turns * Pow2(k + 1))
    ensures Bitwise(Or, w, turns * Pow2(k + 1), Shl(w, ctl, k)) == (2 * turns + ctl) * Pow2(k)
  {
    Pow2Add(k + 1, w - 1 - k);
    MulMono(1, Pow2(w - 1 - k), Pow2(k + 1));
    ModOfWord(k, w);
    BitTimes(ctl, Pow2(k));
    ModOfWord(ctl * Pow2(k), Pow2(w));
    OrOfDisjoint(w, k + 1, turns, ctl * Pow2(k));
    Regroup(turns, ctl, Pow2(k));
  }

  lemma BitTimes(ctl: nat, p: nat)
    requires IsCtBool(ctl)
    ensures ctl * p == if ctl == 1 then p else 0
  {}

  lemma Regroup(turns: nat, ctl: nat, p: nat)
    ensures turns * (2 * p) + ctl * p == (2 * turns + ctl) * p
  {}

  lemma QuotientGrows(turns: nat, ctl: nat, p: nat, d: nat)
    requires IsCtBool(ctl)
    ensures (2 * turns + ctl) * p * d == turns * (2 * p) * d + (if ctl == 1 then d * p else 0)
  {
    Regroup(turns, ctl, p);
    BitTimes(ctl, p);
    Distribute(turns * (2 * p), ctl * p, d);
  }

  /** One turn of the loop at position `k`: subtract the shifted divisor if it fits, and
      record that in the quotient, whose bits so far are `turns`. */
  method Turn(w: nat, k: nat, hi: nat, lo: nat, d: nat, q: nat, ghost turns: nat)
    returns (hi': nat, lo': nat, q': nat, ghost turns': nat)
    requires 0 < k < w && IsWord(w, hi) && IsWord(w, lo) && IsWord(w, d) && IsWord(w, q)
    requires q == turns * Pow2(k + 1)
    requires Wide(w, hi, lo) < d * Pow2(k + 1)
    ensures IsWord(w, hi') && IsWord(w, lo') && IsWord(w, q') && q' == turns' * Pow2(k)
    ensures Wide(w, hi', lo') < d * Pow2(k)
    ensures q' * d + Wide(w, hi', lo') == q * d + Wide(w, hi, lo)
  {
    var j := w - k;
    var win := WindowWord(w, k, hi, lo); // (hi << j) | (lo >> k)
    var wGeD := CtNot(w, CtLt(w, win, d));
    var hiBit := IsNonZero(w, Shr(w, hi, k));
    var ctl := CtOr(w, wGeD, hiBit);
    var hi2 := Shr(w, Sub(w, win, d), j);
    var lo2 := Sub(w, lo, Shl(w, d, k));
    hi' := Mux(w, ctl, hi2, hi);
    lo' := Mux(w, ctl, lo2, lo);
    q' := Bitwise(Or, w, q, Shl(w, ctl, k));
    turns' := 2 * turns + ctl;
    QuotientBit(w, k, turns, ctl);
    QuotientGrows(turns, ctl, Pow2(k), d);
    TurnControl(w, k, hi, lo, d);
    if ctl == 1 { TurnSubtract(w, k, hi, lo, d); }
    DoubleStep(d, k);
  }

  lemma DoubleStep(d: nat, k: nat)
    ensures d * Pow2(k + 1) == 2 * (d * Pow2(k))
  {}

  /** The turn at position 0, whose subtraction leaves the remainder. */
  method FinalTurn(w: nat, hi: nat, lo: nat, d: nat, q: nat, ghost turns: nat) returns (q': nat, r: nat)
    requires w > 0 && IsWord(w, hi) && IsWord(w, lo) && IsWord(w, d) && IsWord(w, q)
    requires q == turns * Pow2(1)
    requires Wide(w, hi, lo) < d * Pow2(1)
    ensures IsWord(w, q') && r < d
    ensures q' * d + r == q * d + Wide(w, hi, lo)
  {
    var carry := CtOr(w, CtNot(w, CtLt(w, lo, d)), IsNonZero(w, hi));
    FinalRemainder(w, hi, lo, d);
    LowBit(w, turns, carry);
    q' := Bitwise(Or, w, q, carry);
    r := Mux(w, carry, Sub(w, lo, d), lo);
    FinalSum(q, carry, d, Wide(w, hi, lo));
  }

  /** The last control says whether the divisor still fits, and the last choice takes it off if so. */
  lemma FinalRemainder(w: nat, hi: nat, lo: nat, d: nat)
    requires w > 0 && IsWord(w, hi) && IsWord(w, lo) && IsWord(w, d)
    requires Wide(w, hi, lo) < d * Pow2(1)
    ensures var carry := CtOr(w, CtNot(w, CtLt(w, lo, d)), IsNonZero(w, hi));
            var r := Mux(w, carry, Sub(w, lo, d), lo);
            r == (if carry == 1 then Wide(w, hi, lo) - d else Wide(w, hi, lo)) < d
  {
    LastTurn(w, hi, lo, d);
    assert Pow2(1) == 2;
  }

  lemma FinalSum(q: int, carry: int, d: int, n: int)
    requires IsCtBool(carry)
    ensures (q + carry) * d + (if carry == 1 then n - d else n) == q * d + n
  {
    Distribute(q, carry, d);
  }

  lemma StartBound(w: nat, hi: nat, lo: nat, d: nat)
    requires hi < d && IsWord(w, lo)
    ensures Wide(w, hi, lo) < d * Pow2(w)
  {
    MulMono(hi + 1, d, Pow2(w));
  }

  /** Shift-and-subtract division. The divisor need not be normalised: for every
      non-zero divisor above the high word, quotient and remainder are exact. When the
      high word equals the divisor, the quotient is the true one modulo the word. */
  method Div2n1n(w: nat, nHi: nat, nLo: nat, d: nat) returns (q: nat, r: nat)
    requires w > 0 && IsWord(w, nHi) && IsWord(w, nLo) && IsWord(w, d)
    requires 0 < d && nHi <= d
    ensures IsWord(w, q) && r < d
    ensures nHi < d ==> Wide(w, nHi, nLo) == q * d + r
    ensures nHi == d ==> Wide(w, nHi, nLo) == (Pow2(w) + q) * d + r
  {
    q := 0;
    var hiEqD := CtEq(w, nHi, d);
    OneIsWord(w);
    var hi := Mux(w, hiEqD, 0, nHi);
    var lo := nLo;
    ghost var total := Wide(w, hi, lo);
    ghost var turns := 0; // the quotient bits so far, without their trailing zeros
    StartBound(w, hi, lo, d);
    for k := w downto 1
      invariant IsWord(w, hi) && IsWord(w, lo) && IsWord(w, q)
      invariant q == turns * Pow2(k) && turns >= 0
      invariant q * d + Wide(w, hi, lo) == total
      invariant Wide(w, hi, lo) < d * Pow2(k)
    {
      hi, lo, q, turns := Turn(w, k, hi, lo, d, q, turns);
    }
    q, r := FinalTurn(w, hi, lo, d, q, turns);
    Distribute(Pow2(w), q, d);
  }

  lemma LowBit(w: nat, turns: nat, carry: nat)
    requires w > 0 && IsCtBool(carry) && IsWord(w, turns * Pow2(1))
    ensures IsWord(w, carry)
    ensures Bitwise(Or, w, turns * Pow2(1), carry) == turns * Pow2(1) + carry
  {
    assert Pow2(1) == 2;
    OrOfDisjoint(w, 1, turns, carry);
  }

  lemma LastTurn(w: nat, hi: nat, lo: nat, d: nat)
    requires w > 0 && IsWord(w, hi) && IsWord(w, lo) && IsWord(w, d)
    requires Wide(w, hi, lo) < d * Pow2(1)
    ensures Wide(w, hi, lo) >= d <==> lo >= d || hi != 0
    ensures Wide(w, hi, lo) >= d ==> Sub(w, lo, d) == Wide(w, hi, lo) - d
    ensures Wide(w, hi, lo) < d ==> Wide(w, hi, lo) == lo
  {
    var m := Pow2(w);
    assert Pow2(1) == 2;
    if hi >= 1 { MulMono(1, hi, m); }
    if hi >= 2 { MulMono(2, hi, m); }
    ModOfWord(lo - d, m);
  }

  /** A quotient that fits the word exists exactly when the high word is below the divisor. */
  lemma QuotientFits(w: nat, nHi: nat, nLo: nat, d: nat)
    requires IsWord(w, nHi) && IsWord(w, nLo) && 0 < d
    ensures nHi < d <==> IsWord(w, Wide(w, nHi, nLo) / d)
  {
    FitsBelow(Wide(w, nHi, nLo), nHi, nLo, Pow2(w), d);
  }

  lemma FitsBelow(n: nat, hi: nat, lo: nat, m: nat, d: nat)
    requires lo < m && 0 < d && n == hi * m + lo
    ensures hi < d <==> 0 <= n / d < m
  {
    DivBounds(n, d);
    if hi < d {
      MulMono(hi + 1, d, m);
      Distribute(hi, 1, m);
      QuotientBelow(n, d, m);
    } else {
      MulMono(d, hi, m);
      if n / d < m { MulMono(n / d + 1, m, d); }
    }
  }
}
