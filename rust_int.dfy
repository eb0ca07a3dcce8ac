/**
 * The fixed-width integer semantics of Rust that the position resolver relies
 * on: `u32` subtraction (wrapping in a release build, panicking in a debug
 * build), the `as i32` reinterpretation of a `u32`, `i32` subtraction, and
 * `i32` division, which truncates toward zero (Dafny's `/` is Euclidean).
 */
module RustInt {
  import opened Wrappers

  const TWO_32: int := 0x1_0000_0000
  const TWO_31: int := 0x8000_0000

  type U32 = x: int | 0 <= x < 0x1_0000_0000
  type I32 = x: int | -0x8000_0000 <= x < 0x8000_0000

  /** `a - b` on `u32` in a release build: the difference modulo 2^32. */
  function WrappingSubU32(a: U32, b: U32): (r: U32)
    ensures b <= a ==> r == a - b
    ensures a < b ==> r == TWO_32 - (b - a)
  {
    (a - b) % TWO_32
  }

  /** `a - b` on `u32` in a debug build: `None` stands for the overflow panic. */
  function CheckedSubU32(a: U32, b: U32): (r: Option<U32>)
    ensures r.Some? <==> b <= a
    ensures r.Some? ==> r.value == a - b && r.value == WrappingSubU32(a, b)
  {
    if b <= a then Some(a - b) else None
  }

  /** `v as i32` for a `u32`: the same 32 bits read as two's complement. */
  function CastU32ToI32(v: U32): (r: I32)
    ensures (v - r) % TWO_32 == 0
    ensures v < TWO_31 ==> r == v
    ensures TWO_31 <= v ==> r < 0
  {
    if v < TWO_31 then v else v - TWO_32
  }

  /** The `i32` that is congruent to `x` modulo 2^32. */
  function WrapI32(x: int): (r: I32)
    ensures (x - r) % TWO_32 == 0
    ensures -TWO_31 <= x < TWO_31 ==> r == x
  {
    var m := x % TWO_32;
    if m < TWO_31 then m else m - TWO_32
  }

  /** `a - b` on `i32` in a release build. */
  function WrappingSubI32(a: I32, b: I32): (r: I32)
    ensures -TWO_31 <= a - b < TWO_31 ==> r == a - b
    ensures a - b < -TWO_31 ==> r == a - b + TWO_32
    ensures TWO_31 <= a - b ==> r == a - b - TWO_32
  {
    WrapI32(a - b)
  }

  /** `a - b` on `i32` in a debug build: `None` stands for the overflow panic. */
  function CheckedSubI32(a: I32, b: I32): (r: Option<I32>)
    ensures r.Some? <==> -TWO_31 <= a - b < TWO_31
    ensures r.Some? ==> r.value == a - b && r.value == WrappingSubI32(a, b)
  {
    if -TWO_31 <= a - b < TWO_31 then Some(a - b) else None
  }

  /**
   * `n / 2` as Rust computes it: the quotient is rounded toward zero, so the
   * remainder has the sign of `n`.
   */
  function TruncDiv2(n: int): (q: int)
    ensures 0 <= n ==> 0 <= n - 2 * q <= 1
    ensures n < 0 ==> -1 <= n - 2 * q <= 0
  {
    if 0 <= n then n / 2 else -((-n) / 2)
  }

  /** The quotient is never farther from zero than the dividend. */
  lemma TruncDiv2Bounds(n: int)
    ensures 0 <= n ==> 0 <= TruncDiv2(n) <= n
    ensures n < 0 ==> n <= TruncDiv2(n) <= 0
  {
  }

  /**
   * Truncating and Euclidean division agree on non-negative dividends and
   * differ by one on negative odd dividends.
   */
  lemma TruncDiv2VersusEuclidean(n: int)
    ensures 0 <= n ==> TruncDiv2(n) == n / 2
    ensures n < 0 && n % 2 == 1 ==> TruncDiv2(n) == n / 2 + 1
    ensures n < 0 && n % 2 == 0 ==> TruncDiv2(n) == n / 2
  {
  }
}
