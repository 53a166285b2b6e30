/** Types and small facts every other module shares. */
module Prelude {

  datatype Option<+T> = None | Some(value: T)

  datatype Result<+T, +E> = Ok(value: T) | Err(error: E)

  /** Whether a partner owes payments for its statements. */
  datatype BillingMode = Invoice | Reconciliation

  /** One octet. */
  type byte = x: int | 0 <= x < 256

  /** Rust's `u32`: arithmetic on it is written with an explicit wrap. */
  type u32 = x: int | 0 <= x < 0x1_0000_0000

  const I64_MAX: int := 0x7FFF_FFFF_FFFF_FFFF
  const I64_MIN: int := -0x8000_0000_0000_0000

  predicate FitsI64(v: int) {
    I64_MIN <= v <= I64_MAX
  }

  function Min(a: int, b: int): int {
    if a <= b then a else b
  }

  function Max(a: int, b: int): int {
    if a >= b then a else b
  }

  function Sum(s: seq<int>): int {
    if s == [] then 0 else Sum(s[..|s| - 1]) + s[|s| - 1]
  }

  lemma MultipleGrows(m: int, d: int)
    requires m > 0
    ensures d > 0 ==> m * d >= m
    ensures d < 0 ==> m * d <= -m
  {
  }

  /** Division with remainder has one answer. */
  lemma DivModUnique(n: int, m: int, q: int, r: int)
    requires 0 <= r < m && n == m * q + r
    ensures n / m == q && n % m == r
  {
    var d := n / m - q;
    assert m * d == r - n % m;
    MultipleGrows(m, d);
  }
}
