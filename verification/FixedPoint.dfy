/** Multiplication, division and rescaling of `FixedI64<D>`, whose raw value is an
    `i64` scaled by 10^D with D at most 18. */
module FixedPoint {
  import opened Arithmetic
  import opened MachineInts
  import opened WideDivision

  /** The number of decimal places, bounded by the power table. */
  type Scale = d: nat | d <= 18

  lemma ScaleRange(d: Scale)
    ensures 1 <= Pow10(d) <= 1_000_000_000_000_000_000
  {
    Pow10Monotone(d, 18);
    Pow10Eighteen();
  }

  /** The product of two `i64` values, with room for a rounding bias, splits into signed words. */
  lemma ProductWords(a: i64, b: i64, bias: int)
    requires Abs(bias) <= 0x7FFF_FFFF_FFFF_FFFF
    ensures InI64((a * b + bias) / WORD) && 0 <= (a * b + bias) % WORD < WORD
    ensures ((a * b + bias) / WORD) * WORD + (a * b + bias) % WORD == a * b + bias
  {
    var n := a * b + bias;
    ProductSign(a, b);
    MulMono(Abs(a), 0x8000_0000_0000_0000, Abs(b));
    assert Abs(n) <= 0x8000_0000_0000_0000 * 0x8000_0000_0000_0000 + 0x7FFF_FFFF_FFFF_FFFF;
  }

  // ---- Multiplication ----

  /** Splits an `i128` into words, divides them by the scale and narrows the quotient. */
  function NarrowQuotient(n: int, scale: i64): (r: Option<i64>)
    requires InI64(n / WORD) && scale > 0
    ensures r == Checked(TruncDiv(n, scale))
  {
    DivIdentity(n, WORD);
    DivWideByConstIsTruncDiv(n / WORD, n % WORD, scale);
    Checked(DivWideByConst(n / WORD, n % WORD, scale).0)
  }

  function CheckedMulTrunc(d: Scale, a: i64, b: i64): (r: Option<i64>) {
    ScaleRange(d);
    ProductWords(a, b, 0);
    NarrowQuotient(a * b, Pow10(d))
  }

  function CheckedMulRound(d: Scale, a: i64, b: i64): (r: Option<i64>) {
    ScaleRange(d);
    ProductWords(a, b, Biased(a * b, Pow10(d)) - a * b);
    NarrowQuotient(Biased(a * b, Pow10(d)), Pow10(d))
  }

  function SaturatingMulTrunc(d: Scale, a: i64, b: i64): (r: i64) {
    match CheckedMulTrunc(d, a, b)
    case Some(v) => v
    case None => if (a >= 0) == (b >= 0) then I64_MAX else I64_MIN
  }

  /** The product cut toward zero, or `None` exactly when that does not fit. */
  lemma MulTruncExact(d: Scale, a: i64, b: i64, q: int)
    requires IsTruncated(a * b, Pow10(d), q)
    ensures CheckedMulTrunc(d, a, b) == Checked(q)
  {
    TruncDivIsTruncated(a * b, Pow10(d));
    TruncatedUnique(a * b, Pow10(d), q, TruncDiv(a * b, Pow10(d)));
  }

  /** The product rounded to nearest, ties away from zero, or `None` exactly when that does not fit. */
  lemma MulRoundNearest(d: Scale, a: i64, b: i64, q: int)
    requires IsRounded(a * b, Pow10(d), q)
    ensures CheckedMulRound(d, a, b) == Checked(q)
  {
    BiasedTruncIsRounded(a * b, Pow10(d));
    RoundedUnique(a * b, Pow10(d), q, TruncDiv(Biased(a * b, Pow10(d)), Pow10(d)));
  }

  /** `r` is at least as near to `q` as `v` is. */
  predicate IsNearer(r: i64, v: i64, q: int) { Abs(r - q) <= Abs(v - q) }

  /** Saturation is the clamp of the same exact quotient, although its direction is read
      from the signs of the operands. */
  lemma SaturatingMulClamps(d: Scale, a: i64, b: i64, q: int)
    requires IsTruncated(a * b, Pow10(d), q)
    ensures SaturatingMulTrunc(d, a, b) == Clamp(q)
    ensures forall v: i64 :: IsNearer(SaturatingMulTrunc(d, a, b), v, q)
  {
    MulTruncExact(d, a, b, q);
    ProductSign(a, b);
    if q != 0 { MulMono(1, Abs(q), Pow10(d)); }
  }

  // ---- Division ----

  function CheckedDivTrunc(d: Scale, a: i64, b: i64): (r: Option<i64>) {
    if b == 0 then None else Checked(TruncDiv(a * Pow10(d), b))
  }

  function CheckedDivRound(d: Scale, a: i64, b: i64): (r: Option<i64>) {
    if b == 0 then None else
      var wide := a * Pow10(d);
      var half := if b < 0 then (0 - b) / 2 else b / 2;
      Checked(TruncDiv(if wide >= 0 then wide + half else wide - half, b))
  }

  lemma DivTruncExact(d: Scale, a: i64, b: i64, q: int)
    requires b != 0 ==> IsTruncated(a * Pow10(d), b, q)
    ensures CheckedDivTrunc(d, a, b) == if b == 0 then None else Checked(q)
  {
    if b != 0 {
      TruncDivIsTruncated(a * Pow10(d), b);
      TruncatedUnique(a * Pow10(d), b, q, TruncDiv(a * Pow10(d), b));
    }
  }

  lemma DivRoundNearest(d: Scale, a: i64, b: i64, q: int)
    requires b != 0 ==> IsRounded(a * Pow10(d), b, q)
    ensures CheckedDivRound(d, a, b) == if b == 0 then None else Checked(q)
  {
    if b != 0 {
      BiasedTruncIsRounded(a * Pow10(d), b);
      RoundedUnique(a * Pow10(d), b, q, TruncDiv(Biased(a * Pow10(d), b), b));
    }
  }

  /** Both reference quotients exist for every dividend and non-zero divisor, so the lemmas
      above speak about every call. */
  lemma QuotientsExist(n: int, d: int)
    requires d != 0
    ensures exists q :: IsTruncated(n, d, q)
    ensures exists q :: IsRounded(n, d, q)
  {
    TruncDivIsTruncated(n, d);
    BiasedTruncIsRounded(n, d);
  }

  function CheckedMulInt(a: i64, k: i64): (r: Option<i64>) { Checked(a * k) }

  /** `None` on zero. The one overflowing pair is left to the caller, as in the source. */
  function CheckedDivInt(a: i64, k: i64): (r: Option<i64>)
    requires !(a == I64_MIN && k == -1)
  {
    if k == 0 then None else Checked(TruncDiv(a, k))
  }

  /** The forms with an integer operand: the exact product, and the quotient cut toward zero for every
      sign, each if and only if it fits. */
  lemma IntFormsExact(a: i64, k: i64, q: int)
    requires !(a == I64_MIN && k == -1) && (k != 0 ==> IsTruncated(a, k, q))
    ensures CheckedMulInt(a, k) == Checked(a * k)
    ensures CheckedDivInt(a, k) == if k == 0 then None else Some(q)
  {
    if k != 0 {
      TruncDivIsTruncated(a, k);
      TruncatedUnique(a, k, q, TruncDiv(a, k));
      MulMono(1, Abs(k), Abs(q));
    }
  }

  /** Multiplying by one and dividing by one both give the number back. */
  lemma OneIsNeutral(d: Scale, a: i64)
    ensures Pow10(d) <= I64_MAX
    ensures CheckedMulTrunc(d, a, Pow10(d)) == Some(a) == CheckedDivTrunc(d, a, Pow10(d))
    ensures CheckedMulRound(d, a, Pow10(d)) == Some(a) == CheckedDivRound(d, a, Pow10(d))
  {
    ScaleRange(d);
    ExactQuotient(a, Pow10(d));
    MulTruncExact(d, a, Pow10(d), a);
    MulRoundNearest(d, a, Pow10(d), a);
    DivTruncExact(d, a, Pow10(d), a);
    DivRoundNearest(d, a, Pow10(d), a);
  }

  lemma ExactQuotient(q: int, d: int)
    requires d > 0
    ensures IsTruncated(q * d, d, q) && IsRounded(q * d, d, q)
  {
    ProductSign(q, d);
    assert (Abs(q) + 1) * d == Abs(q) * d + d;
  }

  // ---- Rescaling from D to D2 decimal places ----

  function RescaleTrunc(d: Scale, d2: Scale, raw: i64): (r: Option<i64>) {
    if d2 == d then Some(raw)
    else if d2 > d then Checked(raw * Pow10(d2 - d))
    else Checked(TruncDiv(raw, Pow10(d - d2)))
  }

  function RescaleRound(d: Scale, d2: Scale, raw: i64): (r: Option<i64>) {
    if d2 == d then Some(raw)
    else if d2 > d then Checked(raw * Pow10(d2 - d))
    else
      var factor := Pow10(d - d2);
      var half := factor / 2;
      Checked(TruncDiv(if raw >= 0 then raw + half else raw - half, factor))
  }

  function CheckedRescaleExact(d: Scale, d2: Scale, raw: i64): (r: Option<i64>) {
    if d2 == d then Some(raw)
    else if d2 > d then Checked(raw * Pow10(d2 - d))
    else
      var factor := Pow10(d - d2);
      if raw - TruncDiv(raw, factor) * factor != 0 then None // Rust's signed `%`
      else Checked(TruncDiv(raw, factor))
  }

  /** `raw` at scale `d` and `r` at scale `d2` are the same number. */
  predicate SameNumber(d: Scale, raw: i64, d2: Scale, r: i64) { r * Pow10(d) == raw * Pow10(d2) }

  /** Exact rescaling finds the raw value of the same number, and only that. */
  lemma RescaleExactIffSameNumber(d: Scale, d2: Scale, raw: i64, r: i64)
    ensures CheckedRescaleExact(d, d2, raw) == Some(r) <==> SameNumber(d, raw, d2, r)
  {
    if d2 >= d {
      Pow10Add(d2 - d, d);
      CancelFactor(r, raw * Pow10(d2 - d), Pow10(d));
      Associate(raw, Pow10(d2 - d), Pow10(d));
    } else {
      Pow10Add(d - d2, d2);
      CancelFactor(r * Pow10(d - d2), raw, Pow10(d2));
      Associate(r, Pow10(d - d2), Pow10(d2));
      ExactIffMultiple(raw, Pow10(d - d2), r);
    }
  }

  /** And nothing exactly when no raw value at the new scale is the same number. */
  lemma RescaleExactRefusedIff(d: Scale, d2: Scale, raw: i64)
    ensures CheckedRescaleExact(d, d2, raw).None? <==> forall r: i64 :: !SameNumber(d, raw, d2, r)
  {
    forall r: i64
      ensures CheckedRescaleExact(d, d2, raw) == Some(r) <==> SameNumber(d, raw, d2, r)
    {
      RescaleExactIffSameNumber(d, d2, raw, r);
    }
    if CheckedRescaleExact(d, d2, raw).Some? {
      assert SameNumber(d, raw, d2, CheckedRescaleExact(d, d2, raw).value);
    }
  }

  /** To the same or a finer scale all three modes return the same number, or nothing exactly when
      no raw value is. */
  lemma WideningKeepsNumber(d: Scale, d2: Scale, raw: i64, r: i64)
    requires d2 >= d
    ensures RescaleTrunc(d, d2, raw) == Some(r) <==> SameNumber(d, raw, d2, r)
    ensures RescaleRound(d, d2, raw) == Some(r) <==> SameNumber(d, raw, d2, r)
    ensures CheckedRescaleExact(d, d2, raw) == Some(r) <==> SameNumber(d, raw, d2, r)
    ensures RescaleTrunc(d, d2, raw).None? <==> forall x: i64 :: !SameNumber(d, raw, d2, x)
    ensures RescaleRound(d, d2, raw).None? <==> forall x: i64 :: !SameNumber(d, raw, d2, x)
  {
    RescaleExactIffSameNumber(d, d2, raw, r);
    RescaleExactRefusedIff(d, d2, raw);
  }

  lemma ExactIffMultiple(n: int, f: nat, r: int)
    requires f > 0
    ensures n - TruncDiv(n, f) * f == 0 && TruncDiv(n, f) == r <==> r * f == n
  {
    TruncDivIsTruncated(n, f);
    if r * f == n {
      ExactQuotient(r, f);
      TruncatedUnique(n, f, r, TruncDiv(n, f));
    }
  }

  lemma CancelFactor(x: int, y: int, c: nat)
    requires c > 0
    ensures x * c == y * c <==> x == y
  {
    if x < y { MulStrict(x, y, c); }
    if y < x { MulStrict(y, x, c); }
  }

  /** Narrowing rounds the exact number, and never overflows. */
  lemma NarrowingRounds(d: Scale, d2: Scale, raw: i64)
    requires d2 < d
    ensures RescaleTrunc(d, d2, raw).Some? && IsTruncated(raw, Pow10(d - d2), RescaleTrunc(d, d2, raw).value)
    ensures RescaleRound(d, d2, raw).Some? && IsRounded(raw, Pow10(d - d2), RescaleRound(d, d2, raw).value)
  {
    var f := Pow10(d - d2);
    TruncDivIsTruncated(raw, f);
    BiasedTruncIsRounded(raw, f);
    assert f >= 10;
    TruncShrinks(raw, f, TruncDiv(raw, f));
    RoundShrinks(raw, f, TruncDiv(Biased(raw, f), f));
  }

  lemma TruncShrinks(n: int, d: nat, q: int)
    requires d > 0 && IsTruncated(n, d, q)
    ensures Abs(q) <= Abs(n)
  {
    MulMono(1, d, Abs(q));
  }

  lemma RoundShrinks(n: int, d: nat, q: int)
    requires d >= 10 && IsRounded(n, d, q)
    ensures Abs(q) <= Abs(n)
  {
    ProductSign(q, d);
    if q != 0 {
      MulMono(10, d, 2 * Abs(q) - 1);
      assert (2 * Abs(q) - 1) * d == 2 * (Abs(q) * d) - d;
    }
  }

  /** Widening that succeeds loses nothing: every narrowing mode returns the original. */
  lemma WidenThenNarrow(d: Scale, d2: Scale, raw: i64)
    requires d2 > d && RescaleTrunc(d, d2, raw).Some?
    ensures var w := RescaleTrunc(d, d2, raw).value;
            && RescaleTrunc(d2, d, w) == Some(raw)
            && RescaleRound(d2, d, w) == Some(raw)
            && CheckedRescaleExact(d2, d, w) == Some(raw)
  {
    var f := Pow10(d2 - d);
    var w := raw * f;
    ExactQuotient(raw, f);
    NarrowingRounds(d2, d, w);
    TruncatedUnique(w, f, raw, RescaleTrunc(d2, d, w).value);
    RoundedUnique(w, f, raw, RescaleRound(d2, d, w).value);
  }
}
