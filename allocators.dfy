/** The allocators: each hands out a buffer of length `N` filled with the
    element type's default value. The element type's `T::default()` is the
    parameter `d`; for `f32` it is `0.0`, which the integer model writes
    as `0`. */
module Allocators {

  /** `ArrayAllocator::allocate`: the array value `[T::default(); N]`. An
      array is a value, so every call yields an independent copy. */
  function ArrayAllocate<T>(n: nat, d: T): (r: seq<T>)
    ensures |r| == n
    ensures forall i :: 0 <= i < n ==> r[i] == d
  {
    seq(n, _ => d)
  }

  /** `BoxedAllocator::allocate` over any `T: Default`: a fresh heap buffer
      of `N` copies of `T::default()`. */
  method BoxedAllocate<T>(n: nat, d: T) returns (r: array<T>)
    ensures fresh(r) && r.Length == n
    ensures forall i :: 0 <= i < n ==> r[i] == d
  {
    r := new T[n](_ => d);
  }

  /** `BoxedAllocator::allocate` for `f32`: a fresh heap buffer of `N`
      zeros. */
  method BoxedZeroAllocate(n: nat) returns (r: array<int>)
    ensures fresh(r) && r.Length == n
    ensures r[..] == ArrayAllocate(n, 0)
  {
    r := new int[n](_ => 0);
  }

  /** Allocation takes no input: two default-filled buffers of one length
      have equal contents. */
  lemma AllocateDeterministic<T>(n: nat, d: T, x: seq<T>, y: seq<T>)
    requires |x| == n && forall i :: 0 <= i < n ==> x[i] == d
    requires |y| == n && forall i :: 0 <= i < n ==> y[i] == d
    ensures x == y && x == ArrayAllocate(n, d)
  {
  }
}
