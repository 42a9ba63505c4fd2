/** Branch-free comparisons and selection on `w`-bit words. A constant-time
    boolean is the word 0 or 1. Each bit trick is proved to compute the ordinary
    comparison or choice that its name promises. */
module ConstantTime {
  import opened Arithmetic
  import opened Bits

  function Truth(b: bool): nat { if b then 1 else 0 }

  predicate IsCtBool(c: int) { c == 0 || c == 1 }

  lemma OneIsWord(w: nat)
    requires w > 0
    ensures IsWord(w, 0) && IsWord(w, 1)
  {}

  lemma {:induction false} BitwiseOnBools(op: BitOp, w: nat, a: nat, b: nat)
    requires w > 0 && IsCtBool(a) && IsCtBool(b)
    ensures IsWord(w, a) && IsWord(w, b)
    ensures Bitwise(op, w, a, b) == Truth(Apply(op, a == 1, b == 1))
  {
    if w == 1 {
      assert Pow2(0) == 1;
      assert Bitwise(op, 0, Below(a, 1), Below(b, 1)) == 0;
    } else {
      BitwiseOnBools(op, w - 1, a, b);
    }
  }

  function CtNot(w: nat, c: nat): (r: nat)
    requires w > 0 && IsCtBool(c)
    ensures r == 1 - c
  {
    BitwiseOnBools(Xor, w, c, 1);
    Bitwise(Xor, w, c, 1)
  }

  function CtOr(w: nat, c: nat, e: nat): (r: nat)
    requires w > 0 && IsCtBool(c) && IsCtBool(e)
    ensures r == Truth(c == 1 || e == 1)
  {
    BitwiseOnBools(Or, w, c, e);
    Bitwise(Or, w, c, e)
  }

  lemma TopBit(w: nat, x: nat)
    requires w > 0 && IsWord(w, x)
    ensures Shr(w, x, w - 1) == Truth(x >= Pow2(w - 1))
  {
    var h := Pow2(w - 1);
    ModOfWord(w - 1, w);
    if x >= h {
      DivModUnique(x, h, 1, x - h);
    } else {
      DivModUnique(x, h, 0, x);
    }
  }

  function IsMsbSet(w: nat, x: nat): (r: nat)
    requires w > 0 && IsWord(w, x)
    ensures r == Truth(x >= Pow2(w - 1))
  {
    TopBit(w, x);
    Shr(w, x, w - 1)
  }

  /** The top bit of `z | -z` is set exactly when `z` is not zero. */
  function IsNonZero(w: nat, z: nat): (r: nat)
    requires w > 0 && IsWord(w, z)
    ensures r == Truth(z != 0)
  {
    ModOfWord(0 - z, Pow2(w));
    IsMsbSet(w, Bitwise(Or, w, z, Neg(w, z)))
  }

  function CtNe(w: nat, x: nat, y: nat): (r: nat)
    requires w > 0 && IsWord(w, x) && IsWord(w, y)
    ensures r == Truth(x != y)
  {
    XorZeroIffEqual(w, x, y);
    var z := Bitwise(Xor, w, x, y);
    ModOfWord(0 - z, Pow2(w));
    IsMsbSet(w, Bitwise(Or, w, z, Neg(w, z)))
  }

  function CtEq(w: nat, x: nat, y: nat): (r: nat)
    requires w > 0 && IsWord(w, x) && IsWord(w, y)
    ensures r == Truth(x == y)
  {
    CtNot(w, CtNe(w, x, y))
  }

  /** Unsigned `<` from the borrow hidden in the top bits of `x`, `y` and `x - y`. */
  function CtLt(w: nat, x: nat, y: nat): (r: nat)
    requires w > 0 && IsWord(w, x) && IsWord(w, y)
    ensures r == Truth(x < y)
  {
    ModOfWord(x - y, Pow2(w));
    var outer := Bitwise(Or, w, Bitwise(Xor, w, x, y), Bitwise(Xor, w, Sub(w, x, y), y));
    IsMsbSet(w, Bitwise(Xor, w, x, outer))
  }

  function CtLe(w: nat, x: nat, y: nat): (r: nat)
    requires w > 0 && IsWord(w, x) && IsWord(w, y)
    ensures r == Truth(x <= y)
  {
    CtNot(w, CtLt(w, y, x))
  }

  lemma {:induction false} XorOnes(w: nat, x: nat)
    requires IsWord(w, x)
    ensures Bitwise(Xor, w, x, Pow2(w) - 1) == Not(w, x)
  {
    if w > 0 {
      var h := Pow2(w - 1);
      assert Below(Pow2(w) - 1, h) == h - 1;
      XorOnes(w - 1, Below(x, h));
    }
  }

  /** The mask `-ctl` is all ones or zero. */
  lemma ControlMask(w: nat, ctl: nat)
    requires w > 0 && IsCtBool(ctl)
    ensures Neg(w, ctl) == if ctl == 1 then Pow2(w) - 1 else 0
  {
    ModOfWord(0 - ctl, Pow2(w));
  }

  /** Conditional negation, modulo the word. */
  function CondNeg(w: nat, x: nat, ctl: nat): (r: nat)
    requires w > 0 && IsWord(w, x) && IsCtBool(ctl)
    ensures r == if ctl == 1 then Neg(w, x) else x
  {
    ControlMask(w, ctl);
    XorOnes(w, x);
    XorZeroRight(w, x);
    ModOfWord(0 - x, Pow2(w));
    ModOfWord(Not(w, x) + 1, Pow2(w));
    ModOfWord(x, Pow2(w));
    Add(w, Bitwise(Xor, w, x, Neg(w, ctl)), ctl)
  }

  /** The portable multiplexer `y ^ (-ctl & (x ^ y))` chooses `x` or `y`. */
  function Mux(w: nat, ctl: nat, x: nat, y: nat): (r: nat)
    requires w > 0 && IsCtBool(ctl) && IsWord(w, x) && IsWord(w, y)
    ensures r == if ctl == 1 then x else y
  {
    ControlMask(w, ctl);
    var z := Bitwise(Xor, w, x, y);
    AndMask(w, z);
    XorSelfInverse(w, x, y);
    XorZeroRight(w, y);
    Bitwise(Xor, w, y, Bitwise(And, w, Neg(w, ctl), z))
  }

  /** The full-scan lookup finds the indexed entry, or zero when the index is out of range. */
  method SecretLookup(w: nat, table: seq<nat>, index: nat) returns (val: nat)
    requires w > 0 && IsWord(w, index) && |table| <= Pow2(w)
    requires forall i :: 0 <= i < |table| ==> IsWord(w, table[i])
    ensures val == if index < |table| then table[index] else 0
  {
    val := 0;
    for i := 0 to |table|
      invariant val == if index < i then table[index] else 0
    {
      var selector := CtEq(w, i, index);
      val := Mux(w, selector, table[i], val);
    }
  }
}
