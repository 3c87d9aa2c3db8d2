/** Numeric conventions shared by the model: the unsigned machine word, and the
    f64 operations the source uses, stated over Dafny's exact `real`. */
module Numeric {

  datatype Option<T> = None | Some(value: T)

  /** `usize::MAX` on a 64-bit target. */
  const USIZE_MAX: nat := 0xFFFF_FFFF_FFFF_FFFF

  /** f64 division. A zero divisor, for which IEEE 754 yields an infinity or
      NaN, is given the value 0: the model has no non-finite numbers. */
  function Div(a: real, b: real): real
  {
    if b == 0.0 then 0.0 else a / b
  }

  /** `ceilf64` on an exact real. */
  function Ceil(x: real): (c: int)
    ensures x <= c as real < x + 1.0
  {
    -((-x).Floor)
  }

  /** The Rust cast `x as usize` of an f64: it truncates toward zero and
      saturates, so a negative value becomes 0 and an overlarge one `usize::MAX`. */
  function ToUsize(x: real): (n: nat)
    ensures n <= USIZE_MAX
    ensures x <= 0.0 ==> n == 0
    ensures 0.0 <= x ==> n as real <= x
    ensures 0.0 <= x && x < USIZE_MAX as real + 1.0 ==> x < n as real + 1.0
  {
    if x <= 0.0 then 0 else if x.Floor > USIZE_MAX then USIZE_MAX else x.Floor
  }

  /** The cast never turns a smaller value into a larger one. */
  lemma ToUsizeMonotonic(x: real, y: real)
    requires x <= y
    ensures ToUsize(x) <= ToUsize(y)
  {
    if 0.0 < x {
      assert x.Floor <= y.Floor by {
        assert x.Floor as real <= x <= y < y.Floor as real + 1.0;
      }
    }
  }

  /** A whole number inside the range of `usize` survives the cast unchanged. */
  lemma ToUsizeOfWhole(n: int)
    requires 0 <= n <= USIZE_MAX
    ensures ToUsize(n as real) == n
  {
  }

  /** The product of two non-negative reals is non-negative. */
  lemma ProductNonNegative(x: real, y: real)
    requires 0.0 <= x && 0.0 <= y
    ensures 0.0 <= x * y
  {
  }
}
