/** What the stage loop computes, for every rotation factor `omega(k, N)`:
    every stage, and so the whole transform, is linear in the input, and a
    unit impulse at index 0 spreads to a constant signal. Both hold because
    the twiddle depends only on the butterfly offset and the length, never
    on the data. */
module StageLaws {
  import opened Arith
  import opened Signals
  import opened Butterfly

  // ---------------------------------------------------------------------
  // Linearity.

  /** Every index of a stage of stride `s` is the sum or the difference
      output of exactly one butterfly `(i, p)`. */
  lemma StageSlot(n: nat, s: nat, j: nat) returns (i: nat, p: nat, upper: bool)
    requires StageShape(n, s) && j < n
    ensures i < s && Multiple(p, s) && p < n / 2
    ensures j == Dest(i, p) + (if upper then n / 2 else 0)
  {
    upper := j >= n / 2;
    i, p := Decompose(if upper then j - n / 2 else j, s);
  }

  /** A stage maps `a*x + b*y` to `a*Stage(x) + b*Stage(y)`. */
  lemma StageLinear(omega: (nat, nat) -> int, a: int, x: seq<int>, b: int, y: seq<int>, s: nat)
    requires |x| == |y| && StageShape(|x|, s)
    ensures Stage(omega, Mix(a, x, b, y), s) == Mix(a, Stage(omega, x, s), b, Stage(omega, y, s))
  {
    forall j | 0 <= j < |x|
      ensures Stage(omega, Mix(a, x, b, y), s)[j] == Mix(a, Stage(omega, x, s), b, Stage(omega, y, s))[j]
    {
      var i, p, upper := StageSlot(|x|, s, j);
      StageLinearAt(omega, a, x, b, y, s, i, p, upper);
    }
  }

  /** The output of butterfly `(i, p)` in either half of a stage is linear
      in the stage input. */
  lemma StageLinearAt(omega: (nat, nat) -> int, a: int, x: seq<int>, b: int, y: seq<int>, s: nat, i: nat, p: nat, upper: bool)
    requires |x| == |y| && StageShape(|x|, s) && i < s && Multiple(p, s) && p < |x| / 2
    ensures var j := i + p + (if upper then |x| / 2 else 0);
      && j < |x|
      && Stage(omega, Mix(a, x, b, y), s)[j] == a * Stage(omega, x, s)[j] + b * Stage(omega, y, s)[j]
  {
    var z := Mix(a, x, b, y);
    var k, o := 2 * p, omega(2 * p, |x|);
    StageAtButterfly(omega, x, s, i, p);
    StageAtButterfly(omega, y, s, i, p);
    StageAtButterfly(omega, z, s, i, p);
    assert z[i + k] == a * x[i + k] + b * y[i + k] && z[i + k + s] == a * x[i + k + s] + b * y[i + k + s];
    BflyLinear(o, a, b, x[i + k], x[i + k + s], y[i + k], y[i + k + s], upper);
  }

  /** The butterfly of a mixed pair is the mix of the butterflies. */
  lemma BflyLinear(o: int, a: int, b: int, x0: int, x1: int, y0: int, y1: int, upper: bool)
    ensures Bfly(a * x0 + b * y0, a * x1 + b * y1, o, upper) == a * Bfly(x0, x1, o, upper) + b * Bfly(y0, y1, o, upper)
  {
  }

  /** The first `t` stages are linear. */
  lemma {:induction false} AfterLinear(omega: (nat, nat) -> int, a: int, x: seq<int>, b: int, y: seq<int>, t: nat)
    requires |x| == |y| && IsPow2(|x|) && t <= Log2(|x|)
    ensures After(omega, Mix(a, x, b, y), t) == Mix(a, After(omega, x, t), b, After(omega, y, t))
  {
    if t > 0 {
      AfterLinear(omega, a, x, b, y, t - 1);
      AfterStep(omega, x, t - 1);
      AfterStep(omega, y, t - 1);
      AfterStep(omega, Mix(a, x, b, y), t - 1);
      StageLinear(omega, a, After(omega, x, t - 1), b, After(omega, y, t - 1), Pow2(Log2(|x|) - t));
    }
  }

  /** The transform is linear: T(a*x + b*y) == a*T(x) + b*T(y). */
  lemma TransformLinear(omega: (nat, nat) -> int, a: int, x: seq<int>, b: int, y: seq<int>)
    requires |x| == |y| && IsPow2(|x|)
    ensures Transform(omega, Mix(a, x, b, y)) == Mix(a, Transform(omega, x), b, Transform(omega, y))
  {
    AfterLinear(omega, a, x, b, y, Log2(|x|));
  }

  /** The reversed copy-back keeps an earlier stage, so it is linear too. */
  lemma ReversedCopyBackLinear(omega: (nat, nat) -> int, a: int, x: seq<int>, b: int, y: seq<int>)
    requires |x| == |y| && IsPow2(|x|)
    ensures ReversedCopyBack(omega, Mix(a, x, b, y)) == Mix(a, ReversedCopyBack(omega, x), b, ReversedCopyBack(omega, y))
  {
    var L := Log2(|x|);
    if L % 2 == 1 {
      AfterLinear(omega, a, x, b, y, L - 1);
    } else {
      AfterLinear(omega, a, x, b, y, L);
    }
  }

  // ---------------------------------------------------------------------
  // The unit impulse.

  /** The signal after `t` stages of an impulse `c` at index 0: `c` at every
      multiple of `d = N / 2^t`, zero elsewhere. */
  ghost function Comb(n: nat, d: nat, c: int): (z: seq<int>)
    ensures |z| == n
  {
    seq(n, j requires 0 <= j < n => if Multiple(j, d) then c else 0)
  }

  /** A stage of stride `s` turns the comb of spacing `2s` into the comb of
      spacing `s`: the read at `i + 2p + s` always hits a zero, and the read
      at `i + 2p` hits `c` exactly when `i == 0`. */
  lemma StageComb(omega: (nat, nat) -> int, n: nat, s: nat, c: int)
    requires StageShape(n, s)
    ensures Stage(omega, Comb(n, 2 * s, c), s) == Comb(n, s, c)
  {
    var x := Comb(n, 2 * s, c);
    forall j | 0 <= j < n
      ensures Stage(omega, x, s)[j] == Comb(n, s, c)[j]
    {
      var i, p, upper := StageSlot(n, s, j);
      StageAtButterfly(omega, x, s, i, p);
      CombReads(s, i, p);
      CombWrites(n, s, i, p);
    }
  }

  /** The two reads of butterfly `(i, p)` against the spacing `2s`: the
      first is a multiple of `2s` exactly in column 0, the second never. */
  lemma CombReads(s: nat, i: nat, p: nat)
    requires i < s && Multiple(p, s)
    ensures Multiple(i + 2 * p, 2 * s) <==> i == 0
    ensures !Multiple(i + 2 * p + s, 2 * s)
  {
    MultipleDouble(p, s);
    MultipleOffset(i, 2 * p, 2 * s);
    MultipleOffset(i + s, 2 * p, 2 * s);
  }

  /** The two writes of butterfly `(i, p)` against the spacing `s`: both
      are multiples of `s` exactly in column 0. */
  lemma CombWrites(n: nat, s: nat, i: nat, p: nat)
    requires StageShape(n, s) && i < s && Multiple(p, s)
    ensures Multiple(i + p, s) <==> i == 0
    ensures Multiple(i + p + n / 2, s) <==> i == 0
  {
    MultipleOffset(i, p, s);
    MultipleAdd(p, n / 2, s);
    MultipleOffset(i, p + n / 2, s);
  }

  /** After `t` stages an impulse `c` is the comb of spacing `N / 2^t`. */
  lemma {:induction false} AfterImpulse(omega: (nat, nat) -> int, n: nat, c: int, t: nat)
    requires IsPow2(n) && t <= Log2(n)
    ensures After(omega, Impulse(n, c), t) == Comb(n, Pow2(Log2(n) - t), c)
  {
    var L := Log2(n);
    if t == 0 {
      assert Impulse(n, c) == Comb(n, n, c) by {
        forall j | 0 <= j < n ensures Impulse(n, c)[j] == Comb(n, n, c)[j] {
          MultipleZero(n);
          MultipleOffset(j, 0, n);
        }
      }
    } else {
      AfterImpulse(omega, n, c, t - 1);
      AfterStep(omega, Impulse(n, c), t - 1);
      assert Pow2(L - (t - 1)) == 2 * Pow2(L - t);
      StageComb(omega, n, Pow2(L - t), c);
    }
  }

  /** The unit impulse `c, 0, ..., 0` transforms to `c, c, ..., c`. */
  lemma TransformImpulse(omega: (nat, nat) -> int, n: nat, c: int)
    requires IsPow2(n)
    ensures Transform(omega, Impulse(n, c)) == Constant(n, c)
  {
    AfterImpulse(omega, n, c, Log2(n));
    forall j | 0 <= j < n ensures Comb(n, 1, c)[j] == c {
      var _, _ := Decompose(j, 1);
    }
  }

  /** With the copy-back reversed and an odd stage count, the impulse result
      is the comb of spacing 2: bin 1 stays zero instead of `c`. */
  lemma ReversedCopyBackImpulse(omega: (nat, nat) -> int, n: nat, c: int)
    requires IsPow2(n) && Log2(n) % 2 == 1
    ensures n >= 2
    ensures ReversedCopyBack(omega, Impulse(n, c)) == Comb(n, 2, c)
    ensures ReversedCopyBack(omega, Impulse(n, c))[1] == 0
  {
    AfterImpulse(omega, n, c, Log2(n) - 1);
    MultipleZero(2);
    MultipleOffset(1, 0, 2);
  }

  /** The concrete input that separates the two: N = 32 (five stages) and a
      unit impulse. The full stage loop gives 1 in every bin; the reversed
      copy-back leaves 0 in bin 1. */
  lemma ImpulseN32Differs(omega: (nat, nat) -> int)
    ensures IsPow2(32) && Log2(32) == 5
    ensures Transform(omega, Impulse(32, 1))[1] == 1
    ensures ReversedCopyBack(omega, Impulse(32, 1))[1] == 0
  {
    assert IsPow2(32) && Log2(32) == 5;
    TransformImpulse(omega, 32, 1);
    ReversedCopyBackImpulse(omega, 32, 1);
  }
}
