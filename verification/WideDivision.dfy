/** The hand-rolled 128-by-64-bit division under fixed-point multiplication: three
    digit steps on half words, between a two's-complement absolute value and a sign. */
module WideDivision {
  import opened Arithmetic
  import opened Bits
  import opened MachineInts

  // ---- Long division of a double word by a word, in half-word digits ----

  /** One step of long division: a running remainder and the next digit, widened. */
  function DivDigit(h: nat, r: nat, digit: nat, d: nat): (qr: (nat, nat))
    requires h > 0 && digit < Pow2(h) && r < d && IsWord(2 * h, d)
    ensures qr.0 < Pow2(h) && qr.1 < d
    ensures r * Pow2(h) + digit == qr.0 * d + qr.1
  {
    DigitIsWord(h, r, digit, d);
    OrOfDisjoint(4 * h, h, r, digit);
    var num := Bitwise(Or, 4 * h, r * Pow2(h), digit);
    QuotientDigit(h, num, d);
    DivIdentity(num, d);
    ((num / d) % Pow2(2 * h), (num % d) % Pow2(2 * h))
  }

  /** `hi:lo / d` as quotient words and remainder. Words have 2h bits. */
  function DivWideByWord(h: nat, hi: nat, lo: nat, d: nat): (r: (nat, nat, nat))
    requires h > 0 && IsWord(2 * h, hi) && IsWord(2 * h, lo) && IsWord(2 * h, d) && d > 0
    ensures IsWord(2 * h, r.0) && IsWord(2 * h, r.1) && r.2 < d
  {
    var w := 2 * h;
    DivSmaller(hi, d);
    HalvesAreWords(h, lo);
    Halves(h, lo);
    var loUpper, loLower := Shr(w, lo, h), Bitwise(And, w, lo, Pow2(h) - 1);
    var mid := DivDigit(h, hi % d, loUpper, d);
    var low := DivDigit(h, mid.1, loLower, d);
    JoinDigits(h, mid.0, low.0);
    (hi / d, Bitwise(Or, w, Shl(w, mid.0, h), low.0), low.1)
  }

  lemma DivWideByWordExact(h: nat, hi: nat, lo: nat, d: nat)
    requires h > 0 && IsWord(2 * h, hi) && IsWord(2 * h, lo) && IsWord(2 * h, d) && d > 0
    ensures var r := DivWideByWord(h, hi, lo, d);
            hi * Pow2(2 * h) + lo == (r.0 * Pow2(2 * h) + r.1) * d + r.2
  {
    HalvesAreWords(h, lo);
    Halves(h, lo);
    var up, low := Shr(2 * h, lo, h), Bitwise(And, 2 * h, lo, Pow2(h) - 1);
    var m := DivDigit(h, hi % d, up, d);
    var l := DivDigit(h, m.1, low, d);
    var r := DivWideByWord(h, hi, lo, d);
    assert r.0 == hi / d && r.2 == l.1;
    assert r.1 == m.0 * Pow2(h) + l.0 by { JoinDigits(h, m.0, l.0); }
    Pow2Add(h, h);
    DivIdentity(hi, d);
    Schoolbook(Pow2(h), Pow2(2 * h), hi, up, low, d, r.0, hi % d, m.0, m.1, l.0, l.1);
  }

  lemma HalvesAreWords(h: nat, lo: nat)
    requires h > 0
    ensures IsWord(2 * h, Pow2(h) - 1)
  {
    Pow2Monotone(h, 2 * h);
  }

  /** Shifting and masking split a word into its digits. */
  lemma Halves(h: nat, lo: nat)
    requires h > 0 && IsWord(2 * h, lo) && IsWord(2 * h, Pow2(h) - 1)
    ensures Shr(2 * h, lo, h) == lo / Pow2(h) < Pow2(h)
    ensures Bitwise(And, 2 * h, lo, Pow2(h) - 1) == lo % Pow2(h) < Pow2(h)
    ensures lo == Shr(2 * h, lo, h) * Pow2(h) + Bitwise(And, 2 * h, lo, Pow2(h) - 1)
  {
    Pow2Add(h, h);
    ModOfWord(h, 2 * h);
    AndLowMask(2 * h, h, lo);
    QuotientBelow(lo, Pow2(h), Pow2(h));
    DivIdentity(lo, Pow2(h));
  }

  /** A running remainder followed by a digit fits four digits. */
  lemma DigitIsWord(h: nat, r: nat, digit: nat, d: nat)
    requires h > 0 && digit < Pow2(h) && r < d && IsWord(2 * h, d)
    ensures IsWord(4 * h, r * Pow2(h)) && IsWord(4 * h, digit)
    ensures r * Pow2(h) + digit < Pow2(h) * d
  {
    DigitBound(r, digit, d, Pow2(h), Pow2(2 * h));
    Pow2Add(2 * h, h);
    Pow2Monotone(3 * h, 4 * h);
    Pow2Monotone(h, 4 * h);
  }

  lemma DigitBound(r: nat, digit: nat, d: nat, p: nat, w: nat)
    requires r < d <= w && digit < p
    ensures 0 <= r * p <= r * p + digit < p * d <= w * p
  {
    MulMono(r + 1, d, p);
    MulMono(d, w, p);
  }

  lemma QuotientDigit(h: nat, n: nat, d: nat)
    requires d > 0 && n < Pow2(h) * d && IsWord(2 * h, d)
    ensures 0 <= n / d == (n / d) % Pow2(2 * h) < Pow2(h)
    ensures 0 <= n % d == (n % d) % Pow2(2 * h) < d
  {
    QuotientBelow(n, d, Pow2(h));
    Pow2Monotone(h, 2 * h);
    ModOfWord(n / d, Pow2(2 * h));
    ModOfWord(n % d, Pow2(2 * h));
  }

  lemma JoinDigits(h: nat, a: nat, b: nat)
    requires h > 0 && a < Pow2(h) && b < Pow2(h)
    ensures IsWord(2 * h, b)
    ensures Bitwise(Or, 2 * h, Shl(2 * h, a, h), b) == a * Pow2(h) + b
  {
    Pow2Add(h, h);
    DigitBound(a, b, Pow2(h), Pow2(h), Pow2(h));
    ModOfWord(h, 2 * h);
    ModOfWord(a * Pow2(h), Pow2(2 * h));
    OrOfDisjoint(2 * h, h, a, b);
  }

  /** The schoolbook identity behind the three division steps. */
  lemma Schoolbook(p: nat, pp: nat, hi: nat, up: nat, low: nat, d: nat,
                   qHi: nat, rHi: nat, qMid: nat, rMid: nat, qLow: nat, rem: nat)
    requires pp == p * p
    requires hi == qHi * d + rHi
    requires rHi * p + up == qMid * d + rMid
    requires rMid * p + low == qLow * d + rem
    ensures hi * pp + (up * p + low) == (qHi * pp + (qMid * p + qLow)) * d + rem
  {
    Distribute(qHi * d, rHi, pp);
    Associate(rHi, p, p);
    Distribute(rHi * p, up, p);
    Distribute(qMid * d, rMid, p);
    assert hi * pp + (up * p + low) == qHi * d * pp + qMid * d * p + (qLow * d + rem);
    Reorder(qHi, d, pp);
    Reorder(qMid, d, p);
    Distribute(qMid * p, qLow, d);
    Distribute(qHi * pp, qMid * p + qLow, d);
  }

  lemma Reorder(a: int, b: int, c: int)
    ensures a * b * c == a * c * b
  {}

  // ---- Signed division of an i128, held as a signed high and an unsigned low word ----

  const WORD: int := 0x1_0000_0000_0000_0000
  const HALF_RANGE: int := 0x8000_0000_0000_0000 * WORD

  /** Reading a number modulo 2^128 as an `i128`. */
  function WrapI128(x: int): (r: int)
    requires -HALF_RANGE <= x <= HALF_RANGE
    ensures -HALF_RANGE <= r < HALF_RANGE
    ensures x < HALF_RANGE ==> r == x
    ensures x == HALF_RANGE ==> r == -HALF_RANGE
  {
    if x == HALF_RANGE then -HALF_RANGE else x
  }

  /** Absolute value by two's-complement negation of the two words. */
  function AbsWords(hi: i64, lo: nat): (r: (nat, nat))
    requires lo < WORD
    ensures r.0 < WORD && r.1 < WORD
    ensures r.0 * WORD + r.1 == Abs(hi * WORD + lo)
  {
    if hi < 0 then
      var sum := (WORD - 1 - lo) + 1;
      var carry := if sum >= WORD then 1 else 0;
      ModOfWord(sum, WORD);
      ModOfWord(0 - hi - 1 + carry, WORD);
      ((0 - hi - 1 + carry) % WORD, sum % WORD)
    else
      (hi, lo)
  }

  /** Unsigned quotient, joined from its words, and remainder. */
  function DivAbs(hi: nat, lo: nat, d: nat): (r: (nat, nat))
    requires hi < WORD && lo < WORD && 0 < d < WORD
    ensures r.0 == (hi * WORD + lo) / d && r.1 == (hi * WORD + lo) % d
  {
    Pow2Words();
    var q := DivWideByWord(32, hi, lo, d);
    DivWideByWordExact(32, hi, lo, d);
    JoinWords(q.0, q.1);
    DivModUnique(hi * WORD + lo, d, q.0 * WORD + q.1, q.2);
    (Bitwise(Or, 128, q.0 * WORD, q.1), q.2)
  }

  /** Truncating division by a positive constant, as quotient and remainder. */
  function DivWideByConst(hi: i64, lo: nat, d: i64): (r: (int, int))
    requires lo < WORD && d > 0
  {
    WideRange(hi, lo);
    var abs := AbsWords(hi, lo);
    var q := DivAbs(abs.0, abs.1, d);
    DivSmaller(abs.0 * WORD + abs.1, d);
    Resign(hi < 0, q.0, q.1)
  }

  /** Puts the sign back, by way of the `i128` cast and its negation. */
  function Resign(negative: bool, q: nat, r: nat): (qr: (int, int))
    requires q <= HALF_RANGE
    ensures q < HALF_RANGE || negative ==> qr == if negative then (0 - q, 0 - r) else (q, r)
  {
    if negative then (WrapI128(0 - WrapI128(q)), 0 - r) else (WrapI128(q), r)
  }

  lemma JoinWords(a: nat, b: nat)
    requires a < WORD && b < WORD
    ensures IsWord(128, a * WORD) && IsWord(128, b)
    ensures Bitwise(Or, 128, a * WORD, b) == a * WORD + b
  {
    Pow2Words();
    MulMono(a + 1, WORD, WORD);
    OrOfDisjoint(128, 64, a, b);
  }

  lemma WideRange(hi: i64, lo: nat)
    requires lo < WORD
    ensures -HALF_RANGE <= hi * WORD + lo < HALF_RANGE
  {}

  /** The two words, the carries and the digit steps together are Rust's `i128 / d` and `%`. */
  lemma DivWideByConstIsTruncDiv(hi: i64, lo: nat, d: i64)
    requires lo < WORD && d > 0
    ensures var v := hi * WORD + lo;
            DivWideByConst(hi, lo, d) == (TruncDiv(v, d), v - TruncDiv(v, d) * d)
  {
    var v := hi * WORD + lo;
    WideRange(hi, lo);
    var abs := AbsWords(hi, lo);
    var q := DivAbs(abs.0, abs.1, d);
    assert q.0 == Abs(v) / d && q.1 == Abs(v) % d;
    ResignedQuotient(v, d, q.0, q.1);
  }

  lemma ResignedQuotient(v: int, d: nat, q: nat, r: nat)
    requires d > 0 && -HALF_RANGE <= v < HALF_RANGE && q == Abs(v) / d && r == Abs(v) % d
    ensures q <= HALF_RANGE
    ensures Resign(v < 0, q, r) == (TruncDiv(v, d), v - TruncDiv(v, d) * d)
  {
    DivSmaller(Abs(v), d);
    SignedQuotient(v, d);
  }

  lemma SignedQuotient(v: int, d: nat)
    requires d > 0
    ensures var q := Abs(v) / d;
            var r := Abs(v) % d;
            if v < 0
            then TruncDiv(v, d) == -q && v - TruncDiv(v, d) * d == -r
            else TruncDiv(v, d) == q && v - TruncDiv(v, d) * d == r
  {
    var q := Abs(v) / d;
    DivIdentity(Abs(v), d);
    assert (-q) * d == -(q * d);
  }
}
