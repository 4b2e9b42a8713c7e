/** Signals: buffers of `N` element values. The routines only ever copy
    elements and combine them with `+`, `-` and `*`; the model takes the
    values as exact integers, so every identity proved about them is a
    ring identity that holds for exact complex arithmetic as well.
    Floating-point rounding is not part of the model. */
module Signals {

  /** The signal `a*x + b*y`, component by component. */
  function Mix(a: int, x: seq<int>, b: int, y: seq<int>): (z: seq<int>)
    requires |x| == |y|
    ensures |z| == |x|
  {
    seq(|x|, j requires 0 <= j < |x| => a * x[j] + b * y[j])
  }

  /** The signal of length `n` that is `c` at index 0 and zero elsewhere. */
  function Impulse(n: nat, c: int): (z: seq<int>)
    ensures |z| == n
  {
    seq(n, j => if j == 0 then c else 0)
  }

  /** The signal of length `n` that is `c` everywhere. */
  function Constant(n: nat, c: int): (z: seq<int>)
    ensures |z| == n
  {
    seq(n, j => c)
  }
}
