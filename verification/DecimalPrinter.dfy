/** `Display` for `FixedI64<D>`, and its round trip through the parser. */
module DecimalPrinter {
  import opened Arithmetic
  import opened MachineInts
  import opened FixedPoint
  import opened DecimalParser

  /** Rust's `{}` of an unsigned number: no leading zeros, and "0" for zero. */
  function Decimal(n: nat): seq<byte> {
    if n < 10 then [48 + n] else Decimal(n / 10) + [48 + n % 10]
  }

  function Zeros(k: nat): seq<byte> {
    if k == 0 then [] else Zeros(k - 1) + [ZERO]
  }

  /** `{:0>width$}`: fill on the left, never cut. */
  function PadLeft(width: nat, s: seq<byte>): seq<byte> {
    if |s| >= width then s else Zeros(width - |s|) + s
  }

  /** The digits printed for a magnitude at scale `d`. */
  function Magnitude(d: Scale, n: nat): seq<byte> {
    DivBounds(n, Pow10(d));
    if d == 0 then Decimal(n)
    else Decimal(n / Pow10(d)) + [DOT] + PadLeft(d, Decimal(n % Pow10(d)))
  }

  /** The printed form, magnitude taken outside `i64` so that the minimum prints too. */
  function Display(d: Scale, raw: i64): seq<byte> {
    (if raw < 0 then [MINUS] else []) + Magnitude(d, Abs(raw))
  }

  predicate AllDigits(s: seq<byte>) { forall i :: 0 <= i < |s| ==> IsDigit(s[i]) }

  /** Appending digits shifts the mantissa and, after a dot, counts them as fractional. */
  lemma {:induction false} AppendDigits(s: seq<byte>, t: seq<byte>)
    requires AllDigits(t)
    ensures Mantissa(s + t) == Mantissa(s) * Pow10(|t|) + Mantissa(t)
    ensures FracDigits(s + t) == FracDigits(s) + (if HasDot(s) then |t| else 0)
    ensures HasDot(s + t) == HasDot(s)
  {
    if t == [] {
      assert s + t == s;
    } else {
      var init, last := t[..|t| - 1], t[|t| - 1];
      assert (s + t)[..|s + t| - 1] == s + init && (s + t)[|s + t| - 1] == last;
      AppendDigits(s, init);
      ShiftDigit(Mantissa(s), Pow10(|init|), Mantissa(init), last - 48);
    }
  }

  lemma ShiftDigit(m: nat, p: nat, k: nat, digit: nat)
    ensures 10 * (m * p + k) + digit == m * (10 * p) + (10 * k + digit)
  {}

  lemma {:induction false} DecimalSpells(n: nat)
    ensures AllDigits(Decimal(n)) && Decimal(n) != [] && Mantissa(Decimal(n)) == n
  {
    if n < 10 {
      var s := Decimal(n);
      assert s[..|s| - 1] == [];
    } else {
      DecimalSpells(n / 10);
      var s := Decimal(n);
      assert s[..|s| - 1] == Decimal(n / 10);
    }
  }

  lemma {:induction false} DecimalLength(n: nat, k: nat)
    requires k > 0 && n < Pow10(k)
    ensures |Decimal(n)| <= k
  {
    if n >= 10 {
      assert Pow10(1) == 10;
      DecimalLength(n / 10, k - 1);
    }
  }

  lemma {:induction false} ZerosSpellNothing(k: nat)
    ensures |Zeros(k)| == k && AllDigits(Zeros(k)) && Mantissa(Zeros(k)) == 0
  {
    if k > 0 {
      ZerosSpellNothing(k - 1);
      var s := Zeros(k);
      assert s[..|s| - 1] == Zeros(k - 1);
    }
  }

  lemma PadLeftSpells(width: nat, n: nat)
    requires 0 < width && n < Pow10(width)
    ensures var s := PadLeft(width, Decimal(n)); |s| == width && AllDigits(s) && Mantissa(s) == n
  {
    DecimalSpells(n);
    DecimalLength(n, width);
    var gap := width - |Decimal(n)|;
    ZerosSpellNothing(gap);
    AppendDigits(Zeros(gap), Decimal(n));
    if gap == 0 { assert Zeros(gap) + Decimal(n) == Decimal(n); }
  }

  lemma DigitsHaveNoDot(s: seq<byte>)
    requires AllDigits(s)
    ensures !HasDot(s) && IsBody(s) && (s != [] ==> HasDigit(s))
  {
    if s != [] { assert IsDigit(s[0]); }
  }

  /** Digits, a dot and digits form one decimal body. */
  lemma JoinedIsBody(whole: seq<byte>, frac: seq<byte>)
    requires AllDigits(whole) && AllDigits(frac) && whole != []
    ensures var s := whole + [DOT] + frac; IsDigit(s[0]) && IsBody(s) && HasDigit(s)
  {
    var s := whole + [DOT] + frac;
    assert IsDigit(s[0]);
  }

  lemma JoinedSpells(whole: seq<byte>, frac: seq<byte>)
    requires AllDigits(whole) && AllDigits(frac)
    ensures Mantissa(whole + [DOT] + frac) == Mantissa(whole) * Pow10(|frac|) + Mantissa(frac)
    ensures FracDigits(whole + [DOT] + frac) == |frac|
  {
    var head := whole + [DOT];
    assert head[..|head| - 1] == whole && head[|head| - 1] == DOT;
    AppendDigits([], whole);
    assert [] + whole == whole;
    AppendDigits(head, frac);
  }

  /** Whole digits, a dot and `d` padded digits spell `whole * 10^d + frac`. */
  lemma PointSpells(d: Scale, whole: nat, frac: nat)
    requires d > 0 && frac < Pow10(d)
    ensures var s := Decimal(whole) + [DOT] + PadLeft(d, Decimal(frac));
            && IsDigit(s[0]) && IsBody(s) && HasDigit(s)
            && Mantissa(s) == whole * Pow10(d) + frac && FracDigits(s) == d
  {
    DecimalSpells(whole);
    PadLeftSpells(d, frac);
    JoinedIsBody(Decimal(whole), PadLeft(d, Decimal(frac)));
    JoinedSpells(Decimal(whole), PadLeft(d, Decimal(frac)));
  }

  predicate Spells(s: seq<byte>, d: Scale, n: nat) {
    s != [] && IsDigit(s[0]) && IsBody(s) && HasDigit(s) && Mantissa(s) == n && FracDigits(s) == d
  }

  /** The printed magnitude is a decimal body with `d` fractional digits that spells `n`. */
  lemma MagnitudeSpells(d: Scale, n: nat)
    ensures Spells(Magnitude(d, n), d, n)
  {
    if d == 0 {
      DecimalSpells(n);
      DigitsHaveNoDot(Decimal(n));
      AppendDigits([], Decimal(n));
      assert [] + Decimal(n) == Decimal(n);
    } else {
      DivBounds(n, Pow10(d));
      PointSpells(d, n / Pow10(d), n % Pow10(d));
      DivIdentity(n, Pow10(d));
    }
  }

  lemma SignedText(d: Scale, raw: i64)
    ensures Body(Display(d, raw)) == Magnitude(d, Abs(raw))
    ensures IsNegative(Display(d, raw)) <==> raw < 0
  {
    var m, s := Magnitude(d, Abs(raw)), Display(d, raw);
    assert m != [] && IsDigit(m[0]) by { MagnitudeSpells(d, Abs(raw)); }
    if raw < 0 {
      assert s[0] == MINUS && s[1..] == m;
    } else {
      assert s == m;
    }
  }

  /** Parsing the printed form returns the original, for every raw value including the minimum. */
  lemma DisplayThenParse(d: Scale, raw: i64)
    ensures Parse(d, Display(d, raw)) == Ok(raw)
  {
    var s := Display(d, raw);
    MagnitudeSpells(d, Abs(raw));
    SignedText(d, raw);
    SpelledIsExact(d, s, raw);
    ParseIffAccepts(d, s);
  }

  lemma SpelledIsExact(d: Scale, s: seq<byte>, raw: i64)
    requires Spells(Body(s), d, Abs(raw)) && (IsNegative(s) <==> raw < 0)
    ensures Accepts(d, s) && ExactRaw(d, s) == raw
  {
    assert Pow10(0) == 1;
  }

  lemma DisplayInjective(d: Scale, x: i64, y: i64)
    requires Display(d, x) == Display(d, y)
    ensures x == y
  {
    DisplayThenParse(d, x);
    DisplayThenParse(d, y);
  }

  // ---- The printed form is the canonical one ----

  predicate StartsWithMinus(t: seq<byte>) { t != [] && t[0] == MINUS }

  function WithoutMinus(t: seq<byte>): seq<byte> { if StartsWithMinus(t) then t[1..] else t }

  /** A number without leading zeros; zero is a single digit. */
  predicate IsNumeral(s: seq<byte>) { s != [] && AllDigits(s) && (|s| == 1 || s[0] != ZERO) }

  /** A numeral and, exactly if `d` is positive, a dot followed by exactly `d` digits. */
  predicate IsPlain(d: Scale, s: seq<byte>) {
    if d == 0 then IsNumeral(s)
    else |s| >= d + 1 && s[|s| - d - 1] == DOT && IsNumeral(s[..|s| - d - 1]) && AllDigits(s[|s| - d..])
  }

  /** A minus sign exactly on negatives, no plus sign, and a plain magnitude. */
  predicate IsCanonical(d: Scale, t: seq<byte>, negative: bool) {
    (StartsWithMinus(t) <==> negative) && IsPlain(d, WithoutMinus(t))
  }

  lemma {:induction false} DecimalIsNumeral(n: nat)
    ensures IsNumeral(Decimal(n)) && (Decimal(n)[0] == ZERO <==> n == 0)
  {
    if n >= 10 { DecimalIsNumeral(n / 10); }
  }

  /** A numeral is the printed form of the number it spells. */
  lemma {:induction false} NumeralUnique(s: seq<byte>)
    requires IsNumeral(s)
    ensures s == Decimal(Mantissa(s))
  {
    var init, last := s[..|s| - 1], s[|s| - 1];
    if init == [] {
      assert Mantissa(s) == last - 48;
    } else {
      NumeralUnique(init);
      DecimalIsNumeral(Mantissa(init));
      var m, digit := Mantissa(init), last - 48;
      DivModUnique(10 * m + digit, 10, m, digit);
      assert s == init + [last];
    }
  }

  /** Equally long digit strings that spell the same number are equal. */
  lemma {:induction false} SameWidthUnique(s: seq<byte>, t: seq<byte>)
    requires AllDigits(s) && AllDigits(t) && |s| == |t| && Mantissa(s) == Mantissa(t)
    ensures s == t
  {
    if s != [] {
      var a, b := s[..|s| - 1], t[..|t| - 1];
      SameWidthUnique(a, b);
      assert s == a + [s[|s| - 1]] && t == b + [t[|t| - 1]];
    }
  }

  lemma {:induction false} MantissaBelow(s: seq<byte>)
    requires AllDigits(s)
    ensures Mantissa(s) < Pow10(|s|)
  {
    if s != [] { MantissaBelow(s[..|s| - 1]); }
  }

  /** Numeral, dot and `d` digits that spell `n` are the printed magnitude of `n`. */
  lemma PointUnique(d: Scale, whole: seq<byte>, frac: seq<byte>, n: nat)
    requires d > 0 && |frac| == d && IsNumeral(whole) && AllDigits(frac) && Mantissa(whole + [DOT] + frac) == n
    ensures whole + [DOT] + frac == Magnitude(d, n)
  {
    JoinedSpells(whole, frac);
    MantissaBelow(frac);
    DivModUnique(n, Pow10(d), Mantissa(whole), Mantissa(frac));
    NumeralUnique(whole);
    PadLeftSpells(d, Mantissa(frac));
    SameWidthUnique(frac, PadLeft(d, Decimal(Mantissa(frac))));
  }

  lemma JoinedIsPlain(d: Scale, whole: seq<byte>, frac: seq<byte>)
    requires d > 0 && |frac| == d && IsNumeral(whole) && AllDigits(frac)
    ensures IsPlain(d, whole + [DOT] + frac)
  {
    var s := whole + [DOT] + frac;
    assert |s| == |whole| + 1 + d && s[..|s| - d - 1] == whole && s[|s| - d..] == frac;
  }

  lemma MagnitudeIsPlain(d: Scale, n: nat)
    ensures IsPlain(d, Magnitude(d, n))
  {
    DivBounds(n, Pow10(d));
    DecimalIsNumeral(n);
    DecimalIsNumeral(n / Pow10(d));
    if d > 0 {
      PadLeftSpells(d, n % Pow10(d));
      JoinedIsPlain(d, Decimal(n / Pow10(d)), PadLeft(d, Decimal(n % Pow10(d))));
    }
  }

  lemma DisplayIsCanonical(d: Scale, raw: i64)
    ensures IsCanonical(d, Display(d, raw), raw < 0)
  {
    SignedText(d, raw);
    MagnitudeIsPlain(d, Abs(raw));
    assert raw < 0 ==> Display(d, raw)[1..] == Magnitude(d, Abs(raw));
  }

  /** A plain magnitude starts with a digit, has `d` fractional digits, and is printed from its value. */
  lemma PlainUnique(d: Scale, s: seq<byte>)
    requires IsPlain(d, s)
    ensures s != [] && IsDigit(s[0]) && FracDigits(s) == d && s == Magnitude(d, Mantissa(s))
  {
    if d == 0 {
      AppendDigits([], s);
      assert [] + s == s;
      NumeralUnique(s);
    } else {
      var whole, frac := s[..|s| - d - 1], s[|s| - d..];
      assert s[0] == whole[0];
      assert s == whole + [DOT] + frac;
      JoinedSpells(whole, frac);
      PointUnique(d, whole, frac, Mantissa(s));
    }
  }

  lemma CanonicalUnique(d: Scale, t: seq<byte>, raw: i64)
    requires IsCanonical(d, t, raw < 0) && Parse(d, t) == Ok(raw)
    ensures t == Display(d, raw)
  {
    var s := WithoutMinus(t);
    PlainUnique(d, s);
    UnsignedBody(t);
    ParsedMantissa(d, t, raw);
    assert s == Magnitude(d, Abs(raw));
    assert t == (if raw < 0 then [MINUS] else []) + s;
  }

  lemma UnsignedBody(t: seq<byte>)
    requires var s := WithoutMinus(t); s != [] && IsDigit(s[0])
    ensures Body(t) == WithoutMinus(t) && (IsNegative(t) <==> StartsWithMinus(t))
  {}

  lemma ParsedMantissa(d: Scale, t: seq<byte>, raw: i64)
    requires FracDigits(Body(t)) == d && Parse(d, t) == Ok(raw) && (IsNegative(t) <==> raw < 0)
    ensures Mantissa(Body(t)) == Abs(raw)
  {
    ParseIffAccepts(d, t);
    Unscaled(d, t, raw);
  }

  lemma Unscaled(d: Scale, t: seq<byte>, raw: i64)
    requires FracDigits(Body(t)) == d && ExactRaw(d, t) == raw && (IsNegative(t) <==> raw < 0)
    ensures Mantissa(Body(t)) == Abs(raw)
  {
    assert Pow10(0) == 1;
  }

  /** The printed form of a value is its one canonical text: of all texts that parse to it, the one
      with no plus sign, no superfluous zero and exactly `d` digits after the dot. */
  lemma DisplayIsTheCanonicalText(d: Scale, t: seq<byte>, raw: i64)
    ensures t == Display(d, raw) <==> IsCanonical(d, t, raw < 0) && Parse(d, t) == Ok(raw)
  {
    DisplayIsCanonical(d, raw);
    DisplayThenParse(d, raw);
    if IsCanonical(d, t, raw < 0) && Parse(d, t) == Ok(raw) { CanonicalUnique(d, t, raw); }
  }

  /** The bytes of sign, digits and dot, on one text. */
  lemma DisplaySample()
    ensures Display(2, -150) == Text("-1.50") && Parse(2, Text("-1.50")) == Ok(-150)
  {
    assert Pow10(1) == 10 && Pow10(2) == 100;
    assert Decimal(150 / 100) == [49];
    assert Decimal(5) == [53];
    assert PadLeft(2, Decimal(150 % 100)) == [53, 48];
    assert Magnitude(2, 150) == [49] + [46] + [53, 48];
    assert Display(2, -150) == [45, 49, 46, 53, 48];
    assert Text("-1.50") == [45, 49, 46, 53, 48];
    DisplayThenParse(2, -150);
  }
}
