/** `CooleyTukey::fft(v, spectrum)` of the engine API: `v` is weighted by a
    window function into `spectrum`, the stage loop ping-pongs between
    `spectrum` and a freshly allocated swap buffer, and when the stage
    count is odd one buffer is copied into the other.

    As written, that copy runs from `new` (then `spectrum`) into `old`
    (then the swap buffer), so `spectrum` keeps the buffer from before the
    last stage: `FftAsWritten`. `Fft` is the routine with the copy the
    other way round, which leaves the complete transform in `spectrum`. */
module CooleyTukey {
  import opened Arith
  import opened Signals
  import opened Butterfly
  import opened StageLaws
  import opened Allocators

  /** `v` weighted by the window: `x * W::calculate(i, N)` at index `i`. */
  function Windowed(window: (nat, nat) -> int, v: seq<int>): (x: seq<int>)
    ensures |x| == |v|
    ensures (forall i :: 0 <= i < |v| ==> window(i, |v|) == 1) ==> x == v
  {
    seq(|v|, i requires 0 <= i < |v| => v[i] * window(i, |v|))
  }

  /** The windowing pass: `spectrum[i] = v[i] * W(i, N)` for every `i < N`. */
  method ApplyWindow(window: (nat, nat) -> int, v: array<int>, spectrum: array<int>)
    requires v != spectrum && v.Length == spectrum.Length
    modifies spectrum
    ensures spectrum[..] == Windowed(window, v[..])
  {
    var n := v.Length;
    for i := 0 to n
      invariant forall j :: 0 <= j < i ==> spectrum[j] == v[j] * window(j, n)
    {
      spectrum[i] := v[i] * window(i, n);
    }
  }

  /** The routine as written: for an odd number of stages `spectrum` ends
      with the windowed input after all stages but the last. */
  method FftAsWritten(omega: (nat, nat) -> int, window: (nat, nat) -> int, v: array<int>, spectrum: array<int>)
    requires v != spectrum && spectrum.Length == v.Length && (v.Length == 0 || IsPow2(v.Length))
    modifies spectrum
    ensures IsPow2(v.Length) ==> spectrum[..] == ReversedCopyBack(omega, Windowed(window, v[..]))
  {
    var swapBuffer := BoxedAllocate(v.Length, 0);
    ApplyWindow(window, v, spectrum);
    var old', new', swapped := StageLoop(omega, spectrum, swapBuffer);
    if swapped {
      CopyFrom(old', new');
    }
  }

  /** The routine with the copy-back from the last-written buffer into
      `spectrum`: `spectrum` ends with the complete transform of the
      windowed input. */
  method Fft(omega: (nat, nat) -> int, window: (nat, nat) -> int, v: array<int>, spectrum: array<int>)
    requires v != spectrum && spectrum.Length == v.Length && (v.Length == 0 || IsPow2(v.Length))
    modifies spectrum
    ensures IsPow2(v.Length) ==> spectrum[..] == Transform(omega, Windowed(window, v[..]))
  {
    var swapBuffer := BoxedAllocate(v.Length, 0);
    ApplyWindow(window, v, spectrum);
    var old', new', swapped := StageLoop(omega, spectrum, swapBuffer);
    if swapped {
      CopyFrom(new', old');
    }
  }

  /** Windowing is linear. */
  lemma WindowedLinear(window: (nat, nat) -> int, a: int, x: seq<int>, b: int, y: seq<int>)
    requires |x| == |y|
    ensures Windowed(window, Mix(a, x, b, y)) == Mix(a, Windowed(window, x), b, Windowed(window, y))
  {
  }

  /** The windowed transform is linear in `v`, for every window and every
      rotation factor. */
  lemma FftLinear(omega: (nat, nat) -> int, window: (nat, nat) -> int, a: int, x: seq<int>, b: int, y: seq<int>)
    requires |x| == |y| && IsPow2(|x|)
    ensures Transform(omega, Windowed(window, Mix(a, x, b, y)))
      == Mix(a, Transform(omega, Windowed(window, x)), b, Transform(omega, Windowed(window, y)))
  {
    WindowedLinear(window, a, x, b, y);
    TransformLinear(omega, a, Windowed(window, x), b, Windowed(window, y));
  }

  /** The routine as written is linear too: the reversed copy keeps an
      earlier stage, and every stage is linear. */
  lemma FftAsWrittenLinear(omega: (nat, nat) -> int, window: (nat, nat) -> int, a: int, x: seq<int>, b: int, y: seq<int>)
    requires |x| == |y| && IsPow2(|x|)
    ensures ReversedCopyBack(omega, Windowed(window, Mix(a, x, b, y)))
      == Mix(a, ReversedCopyBack(omega, Windowed(window, x)), b, ReversedCopyBack(omega, Windowed(window, y)))
  {
    WindowedLinear(window, a, x, b, y);
    ReversedCopyBackLinear(omega, a, Windowed(window, x), b, Windowed(window, y));
  }

  /** A windowed impulse is an impulse weighted by `W(0, N)`, so it
      transforms to the constant `c * W(0, N)`; with the rectangular window
      (`W = 1`) that is `c` in every bin. */
  lemma FftImpulse(omega: (nat, nat) -> int, window: (nat, nat) -> int, n: nat, c: int)
    requires IsPow2(n)
    ensures Transform(omega, Windowed(window, Impulse(n, c))) == Constant(n, c * window(0, n))
  {
    assert Windowed(window, Impulse(n, c)) == Impulse(n, c * window(0, n));
    TransformImpulse(omega, n, c * window(0, n));
  }

  /** The impulse test with the rectangular window and `N = 32`: the
      routine as written leaves 0 in bin 1, where the transform has 1. */
  lemma FftAsWrittenImpulseN32(omega: (nat, nat) -> int, window: (nat, nat) -> int)
    requires forall i :: window(i, 32) == 1
    ensures IsPow2(32)
    ensures Transform(omega, Windowed(window, Impulse(32, 1)))[1] == 1
    ensures ReversedCopyBack(omega, Windowed(window, Impulse(32, 1)))[1] == 0
  {
    assert Windowed(window, Impulse(32, 1)) == Impulse(32, 1);
    ImpulseN32Differs(omega);
  }
}
