/** The engine API: an `Engine<T, N, I, A>` carries nothing but its type
    parameters, the implementation `I` and the allocator `A`, and its `fft`
    hands the call to `I::fft`. The type parameters become the fields of a
    value; the implementations are the Cooley-Tukey routine, copy-back
    direction included, and the naive transform. The window `W` of the Cooley-Tukey routine and the matrix
    entry of the naive one are parameters of the call. */
module Engines {
  import opened Arith
  import opened Butterfly
  import CooleyTukey
  import Naive

  datatype Implementation = CooleyTukeyImpl | NaiveImpl

  datatype Allocator = BoxedAllocator | ArrayAllocator

  /** `Engine<T, N, I, A>`: `PhantomData` markers only. */
  datatype Engine = Engine(impl: Implementation, alloc: Allocator)

  /** `Engine::new()`. */
  function New(impl: Implementation, alloc: Allocator): (e: Engine)
    ensures e.impl == impl && e.alloc == alloc
  {
    Engine(impl, alloc)
  }

  /** `Engine::default()`: the Cooley-Tukey implementation, with the boxed
      allocator when the `alloc` feature is on and the array allocator
      otherwise. */
  function Default(allocFeature: bool): (e: Engine)
    ensures e.impl == CooleyTukeyImpl
    ensures e.alloc == BoxedAllocator <==> allocFeature
  {
    Engine(CooleyTukeyImpl, if allocFeature then BoxedAllocator else ArrayAllocator)
  }

  /** `Default::default` and `Engine::new` build the same value. */
  lemma DefaultIsNew(allocFeature: bool)
    ensures Default(allocFeature) == New(CooleyTukeyImpl, if allocFeature then BoxedAllocator else ArrayAllocator)
  {
  }

  /** What `engine.fft(v, spectrum)` leaves in a `spectrum` that held `s0`. */
  ghost function Result(e: Engine, omega: (nat, nat) -> int, window: (nat, nat) -> int, kernel: (nat, nat) -> int,
                        v: seq<int>, s0: seq<int>): (s: seq<int>)
    requires |s0| == |v| && (e.impl == CooleyTukeyImpl ==> |v| == 0 || IsPow2(|v|))
    ensures |s| == |v|
    ensures |v| == 0 ==> s == s0
  {
    match e.impl
    case CooleyTukeyImpl => if |v| == 0 then s0 else ReversedCopyBack(omega, CooleyTukey.Windowed(window, v))
    case NaiveImpl => Naive.Accumulated(s0, Naive.Dft(kernel, v))
  }

  /** `Engine::fft`: exactly `I::fft(v, spectrum)`. */
  method Fft(e: Engine, omega: (nat, nat) -> int, window: (nat, nat) -> int, kernel: (nat, nat) -> int,
             v: array<int>, spectrum: array<int>)
    requires v != spectrum && spectrum.Length == v.Length && (e.impl == CooleyTukeyImpl ==> v.Length == 0 || IsPow2(v.Length))
    modifies spectrum
    ensures spectrum[..] == Result(e, omega, window, kernel, v[..], old(spectrum[..]))
  {
    match e.impl
    case CooleyTukeyImpl =>
      CooleyTukey.FftAsWritten(omega, window, v, spectrum);
    case NaiveImpl =>
      var ok := Naive.Fft(kernel, v.Length, v[..], spectrum);
      assert Naive.Padded(v[..], v.Length) == v[..];
  }

  /** The allocator only provides scratch space: two engines with the same
      implementation give the same result from the same input and the same
      initial spectrum. */
  lemma ResultIgnoresAllocator(e1: Engine, e2: Engine, omega: (nat, nat) -> int, window: (nat, nat) -> int,
                               kernel: (nat, nat) -> int, v: seq<int>, s0: seq<int>)
    requires e1.impl == e2.impl && |s0| == |v| && (e1.impl == CooleyTukeyImpl ==> |v| == 0 || IsPow2(|v|))
    ensures Result(e1, omega, window, kernel, v, s0) == Result(e2, omega, window, kernel, v, s0)
  {
  }
}
