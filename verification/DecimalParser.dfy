/** The single-pass decimal parser of `FixedI64<D>`: one 64-bit mantissa accumulated in
    negative space, against a grammar and an exact value that know no machine integers. */
module DecimalParser {
  import opened Arithmetic
  import opened MachineInts
  import opened FixedPoint

  type byte = x: int | 0 <= x < 256

  const MINUS: byte := 45
  const PLUS: byte := 43
  const DOT: byte := 46
  const ZERO: byte := 48

  datatype ParseError = InvalidFormat | Overflow | ExcessPrecision
  datatype Result<T> = Ok(value: T) | Err(error: ParseError)

  predicate IsDigit(b: byte) { 48 <= b <= 57 }

  // ---- What a text means ----

  /** The text after the optional sign. */
  function Body(bytes: seq<byte>): seq<byte> {
    if bytes != [] && (bytes[0] == MINUS || bytes[0] == PLUS) then bytes[1..] else bytes
  }

  predicate IsNegative(bytes: seq<byte>) { bytes != [] && bytes[0] == MINUS }

  predicate HasDot(s: seq<byte>) { DOT in s }

  predicate HasDigit(s: seq<byte>) { exists i :: 0 <= i < |s| && IsDigit(s[i]) }

  /** Digits with at most one dot. */
  predicate IsBody(s: seq<byte>) {
    && (forall i :: 0 <= i < |s| ==> IsDigit(s[i]) || s[i] == DOT)
    && (forall i, j :: 0 <= i < j < |s| ==> !(s[i] == DOT && s[j] == DOT))
  }

  /** The number spelled by the digits of `s`, its dot ignored. */
  function Mantissa(s: seq<byte>): nat {
    if s == [] then 0
    else
      var init, last := s[..|s| - 1], s[|s| - 1];
      if IsDigit(last) then 10 * Mantissa(init) + (last - 48) else Mantissa(init)
  }

  /** How many digits follow the first dot. */
  function FracDigits(s: seq<byte>): nat {
    if s == [] then 0
    else
      var init, last := s[..|s| - 1], s[|s| - 1];
      if IsDigit(last) && HasDot(init) then FracDigits(init) + 1 else FracDigits(init)
  }

  predicate IsDecimal(bytes: seq<byte>) { IsBody(Body(bytes)) && HasDigit(Body(bytes)) }

  /** The written number times 10^d, which is an integer when at most d digits follow the dot. */
  function ExactRaw(d: Scale, bytes: seq<byte>): int
    requires FracDigits(Body(bytes)) <= d
  {
    var magnitude := Mantissa(Body(bytes)) * Pow10(d - FracDigits(Body(bytes)));
    if IsNegative(bytes) then -magnitude else magnitude
  }

  predicate Accepts(d: Scale, bytes: seq<byte>) {
    IsDecimal(bytes) && FracDigits(Body(bytes)) <= d && InI64(ExactRaw(d, bytes))
  }

  // ---- The accumulator ----

  datatype Accumulator = Accumulator(mantissa: i64, totalDigits: nat, fracDigits: nat, sawDot: bool, sawAnyDigit: bool)

  const Fresh: Accumulator := Accumulator(0, 0, 0, false, false)

  /** The mantissa has exactly `totalDigits` significant digits, at most 19. */
  predicate Consistent(a: Accumulator) {
    && a.totalDigits <= 19 && a.fracDigits <= 255
    && a.mantissa <= 0
    && (a.mantissa == 0 <==> a.totalDigits == 0)
    && 0 - a.mantissa < Pow10(a.totalDigits)
    && (a.totalDigits > 0 ==> Pow10(a.totalDigits - 1) <= 0 - a.mantissa)
  }

  /** `u8::saturating_add(1)`. */
  function SaturatingInc(n: nat): nat { if n >= 255 then 255 else n + 1 }

  /** Up to 18 digits the unchecked step stays inside `i64`. */
  lemma UncheckedStepFits(a: Accumulator, digit: int)
    requires Consistent(a) && a.totalDigits <= 17 && 0 <= digit <= 9
    ensures InI64(a.mantissa * 10 - digit)
  {
    Pow10Monotone(a.totalDigits + 1, 18);
    Pow10Eighteen();
  }

  function Feed(a: Accumulator, b: byte): (r: Result<Accumulator>)
    requires Consistent(a)
  {
    if IsDigit(b) then
      var digit := b - ZERO;
      if digit == 0 && a.mantissa == 0 then
        Ok(a.(fracDigits := if a.sawDot then SaturatingInc(a.fracDigits) else a.fracDigits, sawAnyDigit := true))
      else
        var total := a.totalDigits + 1;
        if total > 19 then Err(Overflow)
        else if total <= 18 then
          UncheckedStepFits(a, digit);
          Ok(Counted(a, a.mantissa * 10 - digit, total))
        else if !InI64(a.mantissa * 10) || !InI64(a.mantissa * 10 - digit) then Err(Overflow)
        else Ok(Counted(a, a.mantissa * 10 - digit, total))
    else if b == DOT then
      if a.sawDot then Err(InvalidFormat) else Ok(a.(sawDot := true))
    else Err(InvalidFormat)
  }

  function Counted(a: Accumulator, mantissa: i64, total: nat): Accumulator {
    a.(mantissa := mantissa, totalDigits := total,
       fracDigits := if a.sawDot then SaturatingInc(a.fracDigits) else a.fracDigits, sawAnyDigit := true)
  }

  lemma FeedKeepsConsistent(a: Accumulator, b: byte)
    requires Consistent(a) && Feed(a, b).Ok?
    ensures Consistent(Feed(a, b).value)
  {}

  function FeedAll(s: seq<byte>): (r: Result<Accumulator>)
    ensures r.Ok? ==> Consistent(r.value)
  {
    if s == [] then Ok(Fresh)
    else
      match FeedAll(s[..|s| - 1])
      case Err(e) => Err(e)
      case Ok(a) =>
        var r := Feed(a, s[|s| - 1]);
        if r.Ok? then FeedKeepsConsistent(a, s[|s| - 1]); r else r
  }

  /** What the accumulator holds after a text, or why the text was refused. */
  predicate Means(s: seq<byte>, r: Result<Accumulator>) {
    match r
    case Ok(a) =>
      && IsBody(s) && a.mantissa == 0 - Mantissa(s) && a.sawDot == HasDot(s) && a.sawAnyDigit == HasDigit(s)
      && a.fracDigits == (if FracDigits(s) <= 255 then FracDigits(s) else 255)
    case Err(e) => e != ExcessPrecision && (e == InvalidFormat ==> !IsBody(s)) && (e == Overflow ==> Mantissa(s) > -I64_MIN)
  }

  lemma {:induction false} FeedAllMeaning(s: seq<byte>)
    ensures Means(s, FeedAll(s))
  {
    if s == [] {
    } else {
      var init, last := s[..|s| - 1], s[|s| - 1];
      assert s == init + [last];
      FeedAllMeaning(init);
      if FeedAll(init).Ok? {
        FeedMeaning(init, last, FeedAll(init).value);
      }
    }
  }

  lemma FeedMeaning(init: seq<byte>, last: byte, a: Accumulator)
    requires Consistent(a) && Means(init, Ok(a))
    ensures Means(init + [last], Feed(a, last))
  {
    var s := init + [last];
    assert s[..|s| - 1] == init && s[|init|] == last;
    assert HasDigit(s) <==> HasDigit(init) || IsDigit(last) by {
      if IsDigit(last) { assert IsDigit(s[|init|]); }
      if HasDigit(init) { var i :| 0 <= i < |init| && IsDigit(init[i]); assert IsDigit(s[i]); }
    }
    if a.totalDigits == 19 && IsDigit(last) { Pow10Eighteen(); }
    assert IsBody(s) <==> IsDigit(last) || (last == DOT && !a.sawDot) by {
      if last == DOT && a.sawDot {
        var i :| 0 <= i < |init| && init[i] == DOT;
        assert s[i] == DOT && s[|init|] == DOT;
      }
      if last != DOT && !IsDigit(last) { assert !IsDigit(s[|init|]) && s[|init|] != DOT; }
    }
  }

  // ---- The whole parser ----

  function Finish(d: Scale, negative: bool, a: Accumulator): (r: Result<i64>) {
    if !a.sawAnyDigit then Err(InvalidFormat)
    else if a.fracDigits > d then Err(ExcessPrecision)
    else
      var pad := d - a.fracDigits; // at most 18, so inside the power table
      if !negative && a.mantissa == I64_MIN then Err(Overflow)
      else
        var signed := if negative then a.mantissa else 0 - a.mantissa;
        if pad == 0 then Ok(signed)
        else if InI64(signed * Pow10(pad)) then Ok(signed * Pow10(pad)) else Err(Overflow)
  }

  /** The parser as a function of its input; `ParseDecimalBytes` computes it with a loop. */
  function Parse(d: Scale, bytes: seq<byte>): (r: Result<i64>) {
    match FeedAll(Body(bytes))
    case Err(e) => Err(e)
    case Ok(a) => Finish(d, IsNegative(bytes), a)
  }

  /** The parser accepts exactly the decimals with at most `d` fractional digits whose scaled
      value fits, whatever their length and leading zeros, and returns that value. */
  lemma ParseIffAccepts(d: Scale, bytes: seq<byte>)
    ensures Parse(d, bytes).Ok? <==> Accepts(d, bytes)
    ensures Accepts(d, bytes) ==> Parse(d, bytes).value == ExactRaw(d, bytes)
  {
    if FeedAll(Body(bytes)).Err? {
      RefusedBody(d, bytes);
    } else {
      FinishedBody(d, bytes, FeedAll(Body(bytes)).value);
    }
  }

  /** What the scan refuses is no decimal, or too large at every scale. */
  lemma RefusedBody(d: Scale, bytes: seq<byte>)
    requires FeedAll(Body(bytes)).Err?
    ensures !Accepts(d, bytes)
  {
    var s := Body(bytes);
    FeedAllMeaning(s);
    if FracDigits(s) <= d { MulMono(1, Pow10(d - FracDigits(s)), Mantissa(s)); }
  }

  lemma FinishedBody(d: Scale, bytes: seq<byte>, a: Accumulator)
    requires FeedAll(Body(bytes)) == Ok(a)
    ensures Finish(d, IsNegative(bytes), a).Ok? <==> Accepts(d, bytes)
    ensures Accepts(d, bytes) ==> Finish(d, IsNegative(bytes), a).value == ExactRaw(d, bytes)
  {
    FeedAllMeaning(Body(bytes));
    var frac := FracDigits(Body(bytes));
    if frac <= d { Rescaled(Mantissa(Body(bytes)), Pow10(d - frac)); }
  }

  lemma Rescaled(m: nat, p: nat)
    requires p > 0
    ensures (0 - m) * p == 0 - m * p && m * p >= m && (p == 1 ==> m * p == m)
  {
    MulMono(1, p, m);
    NegTimes(m, p);
  }

  /** Each error names a fault that the text really has. */
  lemma ErrorsAreTruthful(d: Scale, bytes: seq<byte>)
    requires Parse(d, bytes).Err? && IsDecimal(bytes)
    ensures Parse(d, bytes).error != InvalidFormat
    ensures Parse(d, bytes).error == ExcessPrecision ==> FracDigits(Body(bytes)) > d
    ensures Parse(d, bytes).error == Overflow ==>
              var frac := FracDigits(Body(bytes));
              var magnitude := Mantissa(Body(bytes)) * (if frac <= d then Pow10(d - frac) else 1);
              !InI64(if IsNegative(bytes) then -magnitude else magnitude)
  {
    var s := Body(bytes);
    FeedAllMeaning(s);
    var frac := FracDigits(s);
    if frac <= d {
      var m, p := Mantissa(s), Pow10(d - frac);
      MulMono(1, p, m);
      NegTimes(m, p);
    }
  }

  /** Some well-formed prefix already spells more than any signed word holds. */
  ghost predicate OverflowsEarly(s: seq<byte>) {
    exists i :: 0 <= i <= |s| && IsBody(s[..i]) && Mantissa(s[..i]) > -I64_MIN
  }

  lemma OverflowsNext(init: seq<byte>, last: byte)
    ensures var s := init + [last];
            OverflowsEarly(s) <==> OverflowsEarly(init) || (IsBody(s) && Mantissa(s) > -I64_MIN)
  {
    var s := init + [last];
    assert forall i :: 0 <= i <= |init| ==> s[..i] == init[..i];
    assert s[..|s|] == s;
    if OverflowsEarly(s) {
      var i :| 0 <= i <= |s| && IsBody(s[..i]) && Mantissa(s[..i]) > -I64_MIN;
      if i < |s| { assert init[..i] == s[..i]; }
    }
    if OverflowsEarly(init) {
      var i :| 0 <= i <= |init| && IsBody(init[..i]) && Mantissa(init[..i]) > -I64_MIN;
      assert s[..i] == init[..i];
    }
  }

  lemma BodyNext(init: seq<byte>, last: byte)
    ensures IsBody(init + [last]) ==> IsBody(init)
    ensures IsBody(init) && IsDigit(last) ==> IsBody(init + [last])
  {
    var s := init + [last];
    assert forall i :: 0 <= i < |init| ==> s[i] == init[i];
  }

  /** Which of the two faults the scan reports: the one it meets first. */
  lemma {:induction false} ScanErrorExact(s: seq<byte>)
    ensures FeedAll(s) == Err(Overflow) <==> OverflowsEarly(s)
    ensures FeedAll(s) == Err(InvalidFormat) <==> !OverflowsEarly(s) && !IsBody(s)
  {
    FeedAllMeaning(s);
    if s == [] {
      assert forall i :: 0 <= i <= 0 ==> s[..i] == [];
    } else {
      var init, last := s[..|s| - 1], s[|s| - 1];
      assert s == init + [last];
      ScanErrorExact(init);
      OverflowsNext(init, last);
      BodyNext(init, last);
    }
  }

  /** Exactly which error every refused text gets. */
  lemma ErrorIsExact(d: Scale, bytes: seq<byte>)
    ensures var s := Body(bytes);
            && (Parse(d, bytes) == Err(InvalidFormat) <==> !OverflowsEarly(s) && !IsDecimal(bytes))
            && (Parse(d, bytes) == Err(ExcessPrecision) <==> !OverflowsEarly(s) && IsDecimal(bytes) && FracDigits(s) > d)
            && (Parse(d, bytes) == Err(Overflow) <==>
                  OverflowsEarly(s) || (IsDecimal(bytes) && FracDigits(s) <= d && !InI64(ExactRaw(d, bytes))))
  {
    ScanErrorExact(Body(bytes));
    FeedAllMeaning(Body(bytes));
    ParseIffAccepts(d, bytes);
  }

  /** Bytes of an ASCII text. */
  function Text(s: string): seq<byte>
    requires forall i :: 0 <= i < |s| ==> s[i] < 128 as char
  {
    seq(|s|, i requires 0 <= i < |s| => s[i] as int)
  }

  /** A plus sign changes nothing, and a minus sign negates. */
  lemma SignsMean(d: Scale, t: seq<byte>)
    requires t == [] || (t[0] != '+' as int && t[0] != '-' as int)
    ensures Parse(d, Text("+") + t) == Parse(d, t)
    ensures Parse(d, t).Ok? ==> Parse(d, t).value >= 0 && Parse(d, Text("-") + t) == Ok(0 - Parse(d, t).value)
  {
    var plus, minus := Text("+") + t, Text("-") + t;
    assert plus[0] == PLUS && plus[1..] == t && minus[0] == MINUS && minus[1..] == t;
    assert Body(plus) == t && Body(t) == t && IsNegative(plus) == IsNegative(t);
    if Parse(d, t).Ok? { MinusNegates(d, t, minus); }
  }

  lemma MinusNegates(d: Scale, t: seq<byte>, minus: seq<byte>)
    requires Body(minus) == Body(t) && IsNegative(minus) && !IsNegative(t) && Parse(d, t).Ok?
    ensures Parse(d, t).value >= 0 && Parse(d, minus) == Ok(0 - Parse(d, t).value)
  {
    ParseIffAccepts(d, t);
    ExactRawNegates(d, t, minus);
    ParseIffAccepts(d, minus);
  }

  lemma ExactRawNegates(d: Scale, t: seq<byte>, minus: seq<byte>)
    requires Body(minus) == Body(t) && IsNegative(minus) && !IsNegative(t) && FracDigits(Body(t)) <= d
    ensures ExactRaw(d, t) >= 0 && ExactRaw(d, minus) == 0 - ExactRaw(d, t)
  {
    ProductSign(Mantissa(Body(t)), Pow10(d - FracDigits(Body(t))));
  }

  lemma {:induction false} ErrorSticks(s: seq<byte>, i: nat)
    requires i <= |s| && FeedAll(s[..i]).Err?
    ensures FeedAll(s) == FeedAll(s[..i])
    decreases |s| - i
  {
    if i < |s| {
      assert s[..i + 1][..i] == s[..i];
      ErrorSticks(s, i + 1);
    } else {
      assert s[..i] == s;
    }
  }

  /** The single scan over the bytes. */
  method ParseDecimalBytes(d: Scale, bytes: seq<byte>) returns (r: Result<i64>)
    ensures r == Parse(d, bytes)
    ensures r.Ok? <==> Accepts(d, bytes)
    ensures r.Ok? ==> r.value == ExactRaw(d, bytes)
  {
    ParseIffAccepts(d, bytes);
    if |bytes| == 0 {
      return Err(InvalidFormat);
    }
    var negative := bytes[0] == MINUS;
    var start := if bytes[0] == MINUS || bytes[0] == PLUS then 1 else 0;
    if start >= |bytes| {
      return Err(InvalidFormat);
    }
    assert Body(bytes) == bytes[start..];
    var scanned := Scan(bytes, start);
    match scanned
    case Err(e) => r := Err(e);
    case Ok(acc) => r := Finish(d, negative, acc);
  }

  /** The loop: feeds the bytes from `start` one by one and stops at the first error. */
  method Scan(bytes: seq<byte>, start: nat) returns (r: Result<Accumulator>)
    requires start <= |bytes|
    ensures r == FeedAll(bytes[start..])
  {
    ghost var body := bytes[start..];
    var acc := Fresh;
    var i := start;
    while i < |bytes|
      invariant start <= i <= |bytes|
      invariant FeedAll(body[..i - start]) == Ok(acc)
    {
      FedPrefix(body, i - start);
      match Feed(acc, bytes[i])
      case Err(e) =>
        ErrorSticks(body, i + 1 - start);
        return Err(e);
      case Ok(a) =>
        acc := a;
        i := i + 1;
    }
    assert body[..i - start] == body;
    r := Ok(acc);
  }

  /** A longer prefix feeds one byte more. */
  lemma FedPrefix(s: seq<byte>, i: nat)
    requires i < |s| && FeedAll(s[..i]).Ok?
    ensures FeedAll(s[..i + 1]) == Feed(FeedAll(s[..i]).value, s[i])
  {
    assert s[..i + 1][..i] == s[..i];
  }
}
