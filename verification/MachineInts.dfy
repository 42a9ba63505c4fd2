/** Rust's signed 64-bit range and the option type of its checked operations. */
module MachineInts {
  import Arithmetic

  datatype Option<T> = None | Some(value: T) {
    function UnwrapOr(default: T): T {
      match this
      case Some(v) => v
      case None => default
    }
  }

  const I64_MAX: int := 0x7FFF_FFFF_FFFF_FFFF
  const I64_MIN: int := -0x8000_0000_0000_0000

  predicate InI64(x: int) { I64_MIN <= x <= I64_MAX }

  type i64 = x: int | -0x8000_0000_0000_0000 <= x <= 0x7FFF_FFFF_FFFF_FFFF

  /** A value that the checked operations return only when it is representable. */
  function Checked(x: int): (r: Option<i64>)
    ensures r.Some? <==> InI64(x)
    ensures r.Some? ==> r.value == x
  {
    if InI64(x) then Some(x) else None
  }

  function Clamp(x: int): (r: i64) {
    if x > I64_MAX then I64_MAX else if x < I64_MIN then I64_MIN else x
  }

  /** What a plain operator leaves of an exact result when overflow is not checked. */
  function WrapI64(x: int): (r: int)
    ensures InI64(r)
  {
    (x - I64_MIN) % 0x1_0000_0000_0000_0000 + I64_MIN
  }

  /** Wrapping moves by whole turns of the word. */
  lemma WrapIsCongruent(x: int)
    ensures (x - WrapI64(x)) % 0x1_0000_0000_0000_0000 == 0
  {}

  lemma WrapExactIff(x: int)
    ensures WrapI64(x) == x <==> InI64(x)
  {}

  /** Wrapping the running value early makes no difference. */
  lemma WrapOfSum(a: int, b: int)
    ensures WrapI64(WrapI64(a) + b) == WrapI64(a + b)
  {
    var m := 0x1_0000_0000_0000_0000;
    var k := (a - I64_MIN) / m;
    assert WrapI64(a) == a - k * m;
    Arithmetic.ModShift(a + b - I64_MIN, 0 - k, m);
  }
}
