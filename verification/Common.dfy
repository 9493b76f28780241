/** Types shared by the models: failure-carrying results, bytes and machine bounds. */
module Common {

  datatype Option<+T> = None | Some(value: T)

  datatype Result<+T, +E> = Ok(value: T) | Err(error: E)

  type byte = x: int | 0 <= x < 256

  type Bytes = seq<byte>

  /** A 64-bit float, with exact reals for the finite ones. */
  datatype Float = Finite(value: real) | Infinity | NegativeInfinity | NaN

  /** `f64::total_cmp` says not greater, on floats without a sign of zero or of NaN. */
  predicate AtMost(a: Float, b: Float) {
    match (a, b)
    case (Finite(x), Finite(y)) => x <= y
    case _ => a == b || a.NegativeInfinity? || b.NaN? || (a.Finite? && b.Infinity?)
  }

  /** The largest `u64`, which is also the largest `usize` of the 64-bit targets. */
  const U64_MAX: nat := 0xFFFF_FFFF_FFFF_FFFF

  type u64 = n: int | 0 <= n <= U64_MAX

  type u32 = n: int | 0 <= n < 0x1_0000_0000

  ghost predicate Distinct<T(!new)>(s: seq<T>) {
    forall i, j :: 0 <= i < j < |s| ==> s[i] != s[j]
  }

  function Min(a: int, b: int): int {
    if a <= b then a else b
  }

  function Max(a: int, b: int): int {
    if a <= b then b else a
  }
}
