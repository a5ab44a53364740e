// Machine integers of a 64-bit target, and the few operations on them that the
// other modules share.
module Machine {

  const TWO64 := 0x1_0000_0000_0000_0000
  const U64_MAX := TWO64 - 1
  const I64_MAX := 0x7FFF_FFFF_FFFF_FFFF
  const I64_MIN := -0x8000_0000_0000_0000
  const U32_MAX := 0xFFFF_FFFF
  const U128_MAX := TWO64 * TWO64 - 1

  type u32 = x: int | 0 <= x <= U32_MAX
  type u64 = x: int | 0 <= x < TWO64
  type usize = x: int | 0 <= x < TWO64
  type u128 = x: int | 0 <= x <= U128_MAX
  type i64 = x: int | I64_MIN <= x <= I64_MAX

  type byte = bv8

  datatype Option<+T> = None | Some(value: T)

  function Min(a: int, b: int): int {
    if a <= b then a else b
  }

  function Max(a: int, b: int): int {
    if a <= b then b else a
  }

  // `wrapping_add` on a 64-bit word; also what `fetch_add` does to an atomic.
  function WrappingAdd(a: u64, b: u64): u64 {
    (a + b) % TWO64
  }

  function WrappingMul(a: u64, b: u64): u64 {
    (a * b) % TWO64
  }

  // The bounds, digit by digit.
  lemma Widths()
    ensures TWO64 == 18_446_744_073_709_551_616
    ensures I64_MIN == -9_223_372_036_854_775_808 && I64_MAX == 9_223_372_036_854_775_807
    ensures U32_MAX == 4_294_967_295 && U64_MAX == 18_446_744_073_709_551_615
    ensures U128_MAX == 340_282_366_920_938_463_463_374_607_431_768_211_455
  {
  }

  // A wrapped sum is the sum, or the sum less the one carry that does not fit.
  lemma WrappedSum(a: u64, b: u64)
    ensures WrappingAdd(a, b) == if a + b <= U64_MAX then a + b else a + b - 18_446_744_073_709_551_616
  {
  }

  lemma ModSuccessor(a: int, b: int)
    ensures (a % TWO64 + b) % TWO64 == (a + b) % TWO64
  {
    var q := a / TWO64;
    assert a == q * TWO64 + a % TWO64;
    ModShift(a % TWO64 + b, q);
  }

  lemma ModIdentity(a: int)
    requires 0 <= a < TWO64
    ensures a % TWO64 == a
  {
  }

  lemma ModShift(a: int, q: int)
    ensures (a + q * TWO64) % TWO64 == a % TWO64
  {
  }
}
