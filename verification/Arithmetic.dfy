/** Integer facts shared by the models: powers, division with remainder,
    and the two signed division modes of Rust's fixed-point code. */
module Arithmetic {

  function Pow2(n: nat): (p: nat)
    ensures p > 0
  {
    if n == 0 then 1 else 2 * Pow2(n - 1)
  }

  function Pow10(n: nat): (p: nat)
    ensures p > 0
  {
    if n == 0 then 1 else 10 * Pow10(n - 1)
  }

  lemma {:induction false} Pow2Add(a: nat, b: nat)
    ensures Pow2(a + b) == Pow2(a) * Pow2(b)
  {
    if a > 0 { Pow2Add(a - 1, b); }
  }

  lemma {:induction false} Pow2Monotone(a: nat, b: nat)
    requires a <= b
    ensures Pow2(a) <= Pow2(b)
  {
    if a < b { Pow2Monotone(a, b - 1); }
  }

  lemma {:induction false} Pow10Add(a: nat, b: nat)
    ensures Pow10(a + b) == Pow10(a) * Pow10(b)
  {
    if a > 0 { Pow10Add(a - 1, b); }
  }

  lemma {:induction false} Pow10Monotone(a: nat, b: nat)
    requires a <= b
    ensures Pow10(a) <= Pow10(b)
  {
    if a < b { Pow10Monotone(a, b - 1); }
  }

  lemma Pow10Eighteen()
    ensures Pow10(18) == 1_000_000_000_000_000_000
    ensures Pow10(19) == 10_000_000_000_000_000_000
  {
    assert Pow10(6) == 1_000_000;
    assert Pow10(12) == 1_000_000_000_000 by { Pow10Add(6, 6); }
    Pow10Add(6, 12);
    Pow10Add(1, 18);
  }

  lemma Pow2Half()
    ensures Pow2(32) == 0x1_0000_0000
  {
    assert Pow2(8) == 0x100;
    assert Pow2(16) == 0x1_0000 by { Pow2Add(8, 8); }
    Pow2Add(16, 16);
  }

  lemma Pow2Words()
    ensures Pow2(64) == 0x1_0000_0000_0000_0000
    ensures Pow2(128) == 0x1_0000_0000_0000_0000 * 0x1_0000_0000_0000_0000
  {
    assert Pow2(64) == 0x1_0000_0000_0000_0000 by {
      Pow2Half();
      Pow2Add(32, 32);
    }
    Pow2Add(64, 64);
  }

  lemma MulMono(a: int, b: int, c: int)
    requires a <= b && 0 <= c
    ensures a * c <= b * c
  {}

  lemma MulStrict(a: int, b: int, c: int)
    requires a < b && 0 < c
    ensures a * c < b * c
  {}

  lemma Distribute(a: int, b: int, c: int)
    ensures (a + b) * c == a * c + b * c
  {}

  lemma Associate(a: int, b: int, c: int)
    ensures a * b * c == a * (b * c)
  {}

  lemma NegTimes(a: int, b: int)
    ensures (-a) * b == -(a * b)
  {}

  /** The quotient and remainder of a division are determined by their defining equation. */
  lemma DivModUnique(n: int, d: int, q: int, r: int)
    requires 0 < d && 0 <= r < d && n == q * d + r
    ensures q == n / d && r == n % d
  {
    var q', r' := n / d, n % d;
    assert n == q' * d + r' && 0 <= r' < d;
    assert (q - q') * d == r' - r;
    if q < q' {
      MulMono(q - q', -1, d);
    } else if q > q' {
      MulMono(1, q - q', d);
    }
  }

  lemma DivIdentity(n: int, d: int)
    requires d > 0
    ensures n == (n / d) * d + n % d
  {}

  lemma DivBounds(a: nat, b: nat)
    requires b > 0
    ensures a / b >= 0 && (a / b) * b <= a < (a / b + 1) * b
  {
    DivIdentity(a, b);
  }

  lemma QuotientBelow(n: nat, d: nat, k: nat)
    requires d > 0 && n < k * d
    ensures 0 <= n / d < k
  {
    DivBounds(n, d);
    if n / d >= k { MulMono(k, n / d, d); }
  }

  lemma ModShift(n: int, k: int, d: int)
    requires 0 < d
    ensures (n + k * d) % d == n % d && (n + k * d) / d == n / d + k
  {
    assert n + k * d == (n / d + k) * d + n % d;
    DivModUnique(n + k * d, d, n / d + k, n % d);
  }

  function Abs(x: int): nat { if x < 0 then -x else x }

  /** Sign and magnitude of a product. */
  lemma ProductSign(a: int, b: int)
    ensures Abs(a * b) == Abs(a) * Abs(b)
    ensures a * b >= 0 <==> a == 0 || b == 0 || (a > 0 <==> b > 0)
  {
    if a >= 0 && b >= 0 {
    } else if a < 0 && b < 0 {
      assert a * b == (-a) * (-b);
    } else if a < 0 {
      assert a * b == -((-a) * b);
    } else {
      assert a * b == -(a * (-b));
    }
  }

  /** `q` is `n / d` cut toward zero. */
  ghost predicate IsTruncated(n: int, d: int, q: int)
    requires d != 0
  {
    && Abs(q) * Abs(d) <= Abs(n) < (Abs(q) + 1) * Abs(d)
    && (q > 0 ==> (n > 0 <==> d > 0))
    && (q < 0 ==> (n > 0 <==> d < 0))
  }

  /** `q` is the integer nearest to `n / d`, with ties going away from zero. */
  ghost predicate IsRounded(n: int, d: int, q: int)
    requires d != 0
  {
    && 2 * Abs(n - q * d) <= Abs(d)
    && (2 * Abs(n - q * d) == Abs(d) ==> Abs(q * d) >= Abs(n))
  }

  /** Rust's signed `/`: the quotient of the magnitudes under the sign of the exact quotient. */
  function TruncDiv(n: int, d: int): (q: int)
    requires d != 0
  {
    var m := Abs(n) / Abs(d);
    if (n < 0) == (d < 0) then m else -m
  }

  lemma TruncDivIsTruncated(n: int, d: int)
    requires d != 0
    ensures IsTruncated(n, d, TruncDiv(n, d))
  {
    DivBounds(Abs(n), Abs(d));
    assert Abs(TruncDiv(n, d)) == Abs(n) / Abs(d);
    if n == 0 { DivModUnique(0, Abs(d), 0, 0); }
  }

  lemma TruncatedUnique(n: int, d: int, p: int, q: int)
    requires d != 0 && IsTruncated(n, d, p) && IsTruncated(n, d, q)
    ensures p == q
  {
    if Abs(p) < Abs(q) {
      MulMono(Abs(p) + 1, Abs(q), Abs(d));
    } else if Abs(q) < Abs(p) {
      MulMono(Abs(q) + 1, Abs(p), Abs(d));
    }
  }

  lemma RoundedUnique(n: int, d: int, p: int, q: int)
    requires d != 0 && IsRounded(n, d, p) && IsRounded(n, d, q)
    ensures p == q
  {
    if p != q {
      MultipleSize(p, d);
      MultipleSize(q, d);
      MultipleSize(p - q, d);
      assert p * d - q * d == (p - q) * d;
      NoTwoTies(n, d, p * d, q * d);
    }
  }

  lemma MultipleSize(q: int, d: int)
    ensures q != 0 ==> Abs(q * d) >= Abs(d)
    ensures q == 0 ==> q * d == 0
  {
    ProductSign(q, d);
    if q != 0 { MulMono(1, Abs(q), Abs(d)); }
  }

  /** Two distinct multiples of `d` cannot both be tied for `n` on the far side from zero. */
  lemma NoTwoTies(n: int, d: int, x: int, y: int)
    requires d != 0 && 2 * Abs(n - x) <= Abs(d) && 2 * Abs(n - y) <= Abs(d)
    requires x == 0 || Abs(x) >= Abs(d)
    requires y == 0 || Abs(y) >= Abs(d)
    requires 2 * Abs(n - x) == Abs(d) ==> Abs(x) >= Abs(n)
    requires 2 * Abs(n - y) == Abs(d) ==> Abs(y) >= Abs(n)
    ensures Abs(x - y) < Abs(d)
  {}

  /** The dividend moved away from zero by half of the divisor's magnitude. */
  function Biased(n: int, d: int): int {
    if n >= 0 then n + Abs(d) / 2 else n - Abs(d) / 2
  }

  /** Cutting the biased dividend toward zero rounds to nearest, ties away. */
  lemma BiasedTruncIsRounded(n: int, d: int)
    requires d != 0
    ensures IsRounded(n, d, TruncDiv(Biased(n, d), d))
  {
    var h, b, q := Abs(d) / 2, Abs(d), TruncDiv(Biased(n, d), d);
    TruncDivIsTruncated(Biased(n, d), d);
    var k := Abs(q) * b;
    assert (Abs(q) + 1) * b == k + b;
    assert k <= Abs(n) + h < k + b;
    ProductSign(q, d);
    assert Abs(q * d) == k;
    assert q * d == if n >= 0 then k else -k;
  }
}
