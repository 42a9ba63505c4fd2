/** Unsigned machine words of `w` bits, as naturals below 2^w, with Rust's wrapping
    arithmetic, masked shifts and bitwise operators. Every result here holds at every
    width, so `u8`, `u16`, `u32`, `u64`, `u128` and `usize` are all instances. */
module Bits {
  import opened Arithmetic

  datatype BitOp = And | Or | Xor

  predicate Apply(op: BitOp, a: bool, b: bool) {
    match op
    case And => a && b
    case Or => a || b
    case Xor => a != b
  }

  predicate IsWord(w: nat, x: int) { 0 <= x < Pow2(w) }

  /** What is left of `x` below the bit of weight `h`. */
  function Below(x: nat, h: nat): nat { if x >= h then x - h else x }

  /** Bitwise operator on words, from the most significant bit down. */
  function Bitwise(op: BitOp, w: nat, x: nat, y: nat): (r: nat)
    requires IsWord(w, x) && IsWord(w, y)
    ensures IsWord(w, r)
  {
    if w == 0 then 0 else
      var h := Pow2(w - 1);
      (if Apply(op, x >= h, y >= h) then h else 0) + Bitwise(op, w - 1, Below(x, h), Below(y, h))
  }

  function Not(w: nat, x: nat): (r: nat)
    requires IsWord(w, x)
    ensures IsWord(w, r)
  {
    Pow2(w) - 1 - x
  }

  function Add(w: nat, x: nat, y: nat): (r: nat)
    ensures IsWord(w, r)
  {
    (x + y) % Pow2(w)
  }

  function Sub(w: nat, x: nat, y: nat): (r: nat)
    ensures IsWord(w, r)
  {
    (x - y) % Pow2(w)
  }

  function Neg(w: nat, x: nat): (r: nat)
    ensures IsWord(w, r)
  {
    (0 - x) % Pow2(w)
  }

  /** `wrapping_shl`: the shift amount is taken modulo the width. */
  function Shl(w: nat, x: nat, k: nat): (r: nat)
    requires w > 0
    ensures IsWord(w, r)
  {
    (x * Pow2(k % w)) % Pow2(w)
  }

  /** `wrapping_shr`: the shift amount is taken modulo the width. */
  function Shr(w: nat, x: nat, k: nat): (r: nat)
    requires w > 0 && IsWord(w, x)
    ensures IsWord(w, r)
  {
    DivSmaller(x, Pow2(k % w));
    x / Pow2(k % w)
  }

  lemma DivSmaller(x: nat, d: nat)
    requires d > 0
    ensures 0 <= x / d <= x
  {
    DivBounds(x, d);
    MulMono(1, d, x / d);
  }

  lemma ModOfWord(x: int, m: nat)
    requires m > 0
    ensures 0 <= x < m ==> x % m == x
    ensures 0 <= x + m < m ==> x % m == x + m
    ensures m <= x < 2 * m ==> x % m == x - m
  {
    if 0 <= x < m { DivModUnique(x, m, 0, x); }
    if 0 <= x + m < m { DivModUnique(x, m, -1, x + m); }
    if m <= x < 2 * m { DivModUnique(x, m, 1, x - m); }
  }

  /** Dropping the top bit of a multiple of 2^j leaves a multiple of 2^j. */
  lemma BelowOfMultiple(w: nat, j: nat, a: nat) returns (a': nat)
    requires j < w
    ensures Pow2(j) <= Pow2(w - 1)
    ensures Below(a * Pow2(j), Pow2(w - 1)) == a' * Pow2(j)
  {
    var p, h, m := Pow2(j), Pow2(w - 1), Pow2(w - 1 - j);
    Pow2Add(w - 1 - j, j);
    MulMono(1, m, p);
    if a * p >= h {
      if a < m { MulStrict(a, m, p); }
      a' := a - m;
      assert a' * p == a * p - m * p;
    } else {
      a' := a;
    }
  }

  /** The sum of a multiple of 2^j and something below 2^j is also their bitwise or. */
  lemma {:induction false} OrOfDisjoint(w: nat, j: nat, a: nat, b: nat)
    requires j <= w && b < Pow2(j) && IsWord(w, a * Pow2(j))
    ensures IsWord(w, b) && Bitwise(Or, w, a * Pow2(j), b) == a * Pow2(j) + b
    decreases w
  {
    if j == w {
      if a > 0 { MulMono(1, a, Pow2(j)); }
      OrZeroLeft(w, b);
    } else {
      var a' := BelowOfMultiple(w, j, a);
      OrOfDisjoint(w - 1, j, a', b);
    }
  }

  lemma {:induction false} OrZeroLeft(w: nat, b: nat)
    requires IsWord(w, b)
    ensures Bitwise(Or, w, 0, b) == b
  {
    if w > 0 { OrZeroLeft(w - 1, Below(b, Pow2(w - 1))); }
  }

  /** Or is symmetric, so the disjoint sum may be written in either order. */
  lemma {:induction false} BitwiseSymmetric(op: BitOp, w: nat, x: nat, y: nat)
    requires IsWord(w, x) && IsWord(w, y)
    ensures Bitwise(op, w, x, y) == Bitwise(op, w, y, x)
  {
    if w > 0 {
      var h := Pow2(w - 1);
      BitwiseSymmetric(op, w - 1, Below(x, h), Below(y, h));
    }
  }

  lemma {:induction false} XorSelfInverse(w: nat, x: nat, y: nat)
    requires IsWord(w, x) && IsWord(w, y)
    ensures Bitwise(Xor, w, y, Bitwise(Xor, w, x, y)) == x
  {
    if w > 0 {
      var h := Pow2(w - 1);
      XorSelfInverse(w - 1, Below(x, h), Below(y, h));
    }
  }

  lemma {:induction false} XorZeroIffEqual(w: nat, x: nat, y: nat)
    requires IsWord(w, x) && IsWord(w, y)
    ensures Bitwise(Xor, w, x, y) == 0 <==> x == y
  {
    if w > 0 {
      var h := Pow2(w - 1);
      XorZeroIffEqual(w - 1, Below(x, h), Below(y, h));
    }
  }

  lemma {:induction false} XorZeroRight(w: nat, x: nat)
    requires IsWord(w, x)
    ensures Bitwise(Xor, w, x, 0) == x
  {
    if w > 0 { XorZeroRight(w - 1, Below(x, Pow2(w - 1))); }
  }

  lemma {:induction false} AndMask(w: nat, x: nat)
    requires IsWord(w, x)
    ensures Bitwise(And, w, Pow2(w) - 1, x) == x
    ensures Bitwise(And, w, 0, x) == 0
  {
    if w > 0 {
      var h := Pow2(w - 1);
      assert Below(Pow2(w) - 1, h) == h - 1;
      AndMask(w - 1, Below(x, h));
    }
  }

  /** Masking with 2^k - 1 is reduction modulo 2^k. */
  lemma {:induction false} AndLowMask(w: nat, k: nat, x: nat)
    requires k <= w && IsWord(w, x)
    ensures IsWord(w, Pow2(k) - 1)
    ensures Bitwise(And, w, x, Pow2(k) - 1) == x % Pow2(k)
    decreases w
  {
    if k == w {
      BitwiseSymmetric(And, w, x, Pow2(w) - 1);
      AndMask(w, x);
      ModOfWord(x, Pow2(w));
    } else {
      var h := Pow2(w - 1);
      var m := Pow2(w - 1 - k);
      Pow2Add(w - 1 - k, k);
      MulMono(1, m, Pow2(k));
      AndLowMask(w - 1, k, Below(x, h));
      if x >= h { ModShift(x - h, m, Pow2(k)); }
    }
  }
}
