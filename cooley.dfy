/** `Cooley::fft(v)`, the `f32` routine of the allocator-returning API: the
    stage loop over two freshly allocated buffers, `vec1` holding a copy of
    `v`, and `vec1` is always returned.

    As written, after an odd number of stages the copy runs from `new`
    (then `vec1`) into `old` (then `vec2`), so the returned `vec1` holds
    the buffer from before the last stage: `FftAsWritten`. `Fft` copies
    the other way round and returns the complete transform. */
module Cooley {
  import opened Arith
  import opened Butterfly
  import opened Allocators

  /** The routine as written. */
  method FftAsWritten(omega: (nat, nat) -> int, v: array<int>) returns (r: array<int>)
    requires v.Length == 0 || IsPow2(v.Length)
    ensures fresh(r) && r.Length == v.Length
    ensures IsPow2(v.Length) ==> r[..] == ReversedCopyBack(omega, v[..])
    ensures v.Length == 1 ==> r[..] == v[..]
  {
    var vec1 := BoxedZeroAllocate(v.Length);
    var vec2 := BoxedZeroAllocate(v.Length);
    CopyFrom(vec1, v);
    var old', new', swapped := StageLoop(omega, vec1, vec2);
    if swapped {
      CopyFrom(old', new');
    }
    r := vec1;
  }

  /** The routine with the copy-back from the last-written buffer into
      `vec1`. */
  method Fft(omega: (nat, nat) -> int, v: array<int>) returns (r: array<int>)
    requires v.Length == 0 || IsPow2(v.Length)
    ensures fresh(r) && r.Length == v.Length
    ensures IsPow2(v.Length) ==> r[..] == Transform(omega, v[..])
    ensures v.Length == 1 ==> r[..] == v[..]
  {
    var vec1 := BoxedZeroAllocate(v.Length);
    var vec2 := BoxedZeroAllocate(v.Length);
    CopyFrom(vec1, v);
    var old', new', swapped := StageLoop(omega, vec1, vec2);
    if swapped {
      CopyFrom(new', old');
    }
    r := vec1;
  }
}
