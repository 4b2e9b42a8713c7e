/** `CooleyTukey::fft(v)` of the allocator-returning API: the stage loop
    ping-pongs between two freshly allocated buffers `vec1` (holding a copy
    of `v`) and `vec2`, and the one the last stage wrote is returned. */
module ReturningCooleyTukey {
  import opened Arith
  import opened Butterfly
  import opened Allocators

  /** Returns a fresh buffer holding the complete transform of `v`: `vec2`
      after an odd number of stages, `vec1` otherwise (for `N = 1`, a copy
      of `v`). */
  method Fft(omega: (nat, nat) -> int, v: array<int>) returns (r: array<int>)
    requires v.Length == 0 || IsPow2(v.Length)
    ensures fresh(r) && r.Length == v.Length
    ensures IsPow2(v.Length) ==> r[..] == Transform(omega, v[..])
    ensures v.Length == 1 ==> r[..] == v[..]
  {
    var vec1 := BoxedAllocate(v.Length, 0);
    var vec2 := BoxedAllocate(v.Length, 0);
    CopyFrom(vec1, v);
    var _, _, swapped := StageLoop(omega, vec1, vec2);
    if swapped {
      return vec2;
    }
    r := vec1;
  }
}
