/** The free function `fft<N>(v)`: the stage loop over a copy of `v` and a
    zero buffer, with the final stage copied back into the copy of `v` when
    the stage count is odd. */
module FftFn {
  import opened Arith
  import opened Butterfly

  /** `fft(v)` returns a fresh array holding the complete transform of `v`
      (for `N = 1`, `v` itself); `v` is only read. */
  method Fft(omega: (nat, nat) -> int, v: array<int>) returns (r: array<int>)
    requires v.Length == 0 || IsPow2(v.Length)
    ensures fresh(r) && r.Length == v.Length
    ensures IsPow2(v.Length) ==> r[..] == Transform(omega, v[..])
    ensures v.Length == 1 ==> r[..] == v[..]
  {
    var n := v.Length;
    var clonedV := new int[n](i requires 0 <= i < n reads v => v[i]);
    var zeroV := new int[n](_ => 0);
    assert clonedV[..] == v[..];
    var _, _, swapped := StageLoop(omega, clonedV, zeroV);
    if swapped {
      CopyFrom(clonedV, zeroV);
    }
    r := clonedV;
  }
}
