/** `Naive::fft(v, spectrum)`: the items of `v` are written into a freshly
    allocated buffer, then an N x N double loop adds
    `buffer[j] * exp(unit * omega)` into `spectrum[i]`, with
    `omega = -2 pi i j / N`. `spectrum` is accumulated into, not cleared.

    The exponent depends on `i` and `j` only through the product `i * j`,
    so the matrix entry is `kernel(i * j, N)` for an arbitrary function
    `kernel`; the exponential itself is not part of the model. */
module Naive {
  import opened Signals
  import opened Allocators

  /** The matrix entry `E(i, j)` of a length-`n` transform. The first row
      and the first column hold the entry of exponent 0. */
  function Entry(kernel: (nat, nat) -> int, n: nat, i: nat, j: nat): (e: int)
    ensures i == 0 || j == 0 ==> e == kernel(0, n)
  {
    kernel(i * j, n)
  }

  /** The matrix is symmetric. */
  lemma EntrySymmetric(kernel: (nat, nat) -> int, n: nat, i: nat, j: nat)
    ensures Entry(kernel, n, i, j) == Entry(kernel, n, j, i)
  {
  }

  /** `sum_{j < m} x[j] * E(i, j)`. */
  function RowSum(kernel: (nat, nat) -> int, n: nat, x: seq<int>, i: nat, m: nat): int
    requires m <= |x|
  {
    if m == 0 then 0 else RowSum(kernel, n, x, i, m - 1) + x[m - 1] * Entry(kernel, n, i, m - 1)
  }

  /** The discrete transform of `x` with matrix `E`: bin `i` is the full
      row sum of row `i`. */
  function Dft(kernel: (nat, nat) -> int, x: seq<int>): (y: seq<int>)
    ensures |y| == |x|
    ensures forall i :: 0 <= i < |x| ==> y[i] == RowSum(kernel, |x|, x, i, |x|)
  {
    seq(|x|, i requires 0 <= i < |x| => RowSum(kernel, |x|, x, i, |x|))
  }

  /** `s0` with `d` added into its first `min(|s0|, |d|)` entries. */
  function Accumulated(s0: seq<int>, d: seq<int>): (s: seq<int>)
    ensures |s| == |s0|
    ensures forall i :: |d| <= i < |s0| ==> s[i] == s0[i]
    ensures (forall i :: 0 <= i < |d| ==> d[i] == 0) ==> s == s0
  {
    seq(|s0|, i requires 0 <= i < |s0| => if i < |d| then s0[i] + d[i] else s0[i])
  }

  /** The buffer after the items are written over the allocator's zeros. */
  function Padded(items: seq<int>, n: nat): (x: seq<int>)
    requires |items| <= n
    ensures |x| == n
    ensures x[..|items|] == items
    ensures forall j :: |items| <= j < n ==> x[j] == 0
  {
    items + ArrayAllocate(n - |items|, 0)
  }

  /** `for (idx, x) in v.into_iter().enumerate() { buffer[idx] = x }`. An
      item past the end of the buffer is an out-of-bounds index, which
      panics: the result is false and nothing after it runs. */
  method Materialize(items: seq<int>, buffer: array<int>) returns (ok: bool)
    modifies buffer
    ensures ok <==> |items| <= buffer.Length
    ensures ok ==> forall j :: 0 <= j < buffer.Length ==> buffer[j] == if j < |items| then items[j] else old(buffer[j])
  {
    var idx := 0;
    while idx < |items|
      invariant idx <= |items| && idx <= buffer.Length
      invariant forall j :: 0 <= j < buffer.Length ==> buffer[j] == if j < idx then items[j] else old(buffer[j])
    {
      if idx >= buffer.Length {
        return false;
      }
      buffer[idx] := items[idx];
      idx := idx + 1;
    }
    return true;
  }

  /** The double loop over `spectrum.iter_mut().take(N)` and
      `buffer.iter().take(N)`: each of the first `min(|spectrum|, N)`
      entries gets its row sum added, one term per step in increasing `j`,
      `N` steps per entry; the remaining entries are untouched. */
  method Accumulate(kernel: (nat, nat) -> int, buffer: array<int>, spectrum: array<int>) returns (ghost steps: nat)
    requires buffer != spectrum
    modifies spectrum
    ensures spectrum[..] == Accumulated(old(spectrum[..]), Dft(kernel, buffer[..]))
    ensures steps == (if spectrum.Length < buffer.Length then spectrum.Length else buffer.Length) * buffer.Length
  {
    var n := buffer.Length;
    var rows := if spectrum.Length < n then spectrum.Length else n;
    steps := 0;
    for i := 0 to rows
      invariant forall r :: 0 <= r < spectrum.Length ==>
        spectrum[r] == if r < i then old(spectrum[r]) + RowSum(kernel, n, buffer[..], r, n) else old(spectrum[r])
      invariant steps == i * n
    {
      for j := 0 to n
        invariant forall r :: 0 <= r < spectrum.Length && r != i ==>
          spectrum[r] == if r < i then old(spectrum[r]) + RowSum(kernel, n, buffer[..], r, n) else old(spectrum[r])
        invariant spectrum[i] == old(spectrum[i]) + RowSum(kernel, n, buffer[..], i, j)
        invariant steps == i * n + j
      {
        spectrum[i] := spectrum[i] + buffer[j] * Entry(kernel, n, i, j);
        steps := steps + 1;
      }
      assert i * n + n == (i + 1) * n;
    }
  }

  /** `Naive::fft` for a length-`n` transform over the items of `v`: false
      (a panic, `spectrum` untouched) when there are more than `n` items;
      otherwise the items, padded with zeros to `n`, are transformed and
      added into `spectrum`. */
  method Fft(kernel: (nat, nat) -> int, n: nat, items: seq<int>, spectrum: array<int>) returns (ok: bool)
    modifies spectrum
    ensures ok <==> |items| <= n
    ensures !ok ==> spectrum[..] == old(spectrum[..])
    ensures ok ==> spectrum[..] == Accumulated(old(spectrum[..]), Dft(kernel, Padded(items, n)))
  {
    var buffer := BoxedAllocate(n, 0);
    ok := Materialize(items, buffer);
    if ok {
      assert buffer[..] == Padded(items, n);
      var _ := Accumulate(kernel, buffer, spectrum);
    }
  }

  /** Each row sum is linear in the buffer. */
  lemma {:induction false} RowSumLinear(kernel: (nat, nat) -> int, n: nat, a: int, x: seq<int>, b: int, y: seq<int>, i: nat, m: nat)
    requires |x| == |y| && m <= |x|
    ensures RowSum(kernel, n, Mix(a, x, b, y), i, m) == a * RowSum(kernel, n, x, i, m) + b * RowSum(kernel, n, y, i, m)
  {
    if m > 0 {
      RowSumLinear(kernel, n, a, x, b, y, i, m - 1);
      assert Mix(a, x, b, y)[m - 1] == a * x[m - 1] + b * y[m - 1];
      TermLinear(a, x[m - 1], b, y[m - 1], Entry(kernel, n, i, m - 1));
    }
  }

  /** A zero prefix sums to zero in every row. */
  lemma {:induction false} RowSumZero(kernel: (nat, nat) -> int, n: nat, x: seq<int>, i: nat, m: nat)
    requires m <= |x| && forall j :: 0 <= j < m ==> x[j] == 0
    ensures RowSum(kernel, n, x, i, m) == 0
  {
    if m > 0 {
      RowSumZero(kernel, n, x, i, m - 1);
    }
  }

  /** A zero signal transforms to zero. */
  lemma DftZero(kernel: (nat, nat) -> int, x: seq<int>)
    requires forall j :: 0 <= j < |x| ==> x[j] == 0
    ensures forall i :: 0 <= i < |x| ==> Dft(kernel, x)[i] == 0
  {
    forall i | 0 <= i < |x| ensures Dft(kernel, x)[i] == 0 {
      RowSumZero(kernel, |x|, x, i, |x|);
    }
  }

  /** One term of a row sum is linear in the buffer entry. */
  lemma TermLinear(a: int, p: int, b: int, q: int, e: int)
    ensures (a * p + b * q) * e == a * (p * e) + b * (q * e)
  {
  }

  /** The transform is linear. */
  lemma DftLinear(kernel: (nat, nat) -> int, a: int, x: seq<int>, b: int, y: seq<int>)
    requires |x| == |y|
    ensures Dft(kernel, Mix(a, x, b, y)) == Mix(a, Dft(kernel, x), b, Dft(kernel, y))
  {
    forall i | 0 <= i < |x|
      ensures Dft(kernel, Mix(a, x, b, y))[i] == Mix(a, Dft(kernel, x), b, Dft(kernel, y))[i]
    {
      RowSumLinear(kernel, |x|, a, x, b, y, i, |x|);
    }
  }

  /** An impulse `c` at index 0 contributes `c * E(i, 0)` to every row and
      nothing else. */
  lemma {:induction false} RowSumImpulse(kernel: (nat, nat) -> int, n: nat, c: int, i: nat, m: nat)
    requires 1 <= m <= n
    ensures RowSum(kernel, n, Impulse(n, c), i, m) == c * kernel(0, n)
  {
    if m > 1 {
      RowSumImpulse(kernel, n, c, i, m - 1);
    } else {
      assert RowSum(kernel, n, Impulse(n, c), i, 0) == 0;
    }
  }

  /** Starting from a zero spectrum, an impulse `c` gives `c * exp(0)` in
      every bin: all ones for `c = 1`, since `exp(0) = 1`. */
  lemma DftImpulse(kernel: (nat, nat) -> int, n: nat, c: int)
    ensures Accumulated(ArrayAllocate(n, 0), Dft(kernel, Impulse(n, c))) == Constant(n, c * kernel(0, n))
  {
    forall i | 0 <= i < n
      ensures Accumulated(ArrayAllocate(n, 0), Dft(kernel, Impulse(n, c)))[i] == c * kernel(0, n)
    {
      RowSumImpulse(kernel, n, c, i, n);
    }
  }

  /** Starting from a zero spectrum, the routine's result is linear in the
      (padded) input. */
  lemma FftLinear(kernel: (nat, nat) -> int, a: int, x: seq<int>, b: int, y: seq<int>)
    requires |x| == |y|
    ensures Accumulated(ArrayAllocate(|x|, 0), Dft(kernel, Mix(a, x, b, y)))
      == Mix(a, Accumulated(ArrayAllocate(|x|, 0), Dft(kernel, x)), b, Accumulated(ArrayAllocate(|x|, 0), Dft(kernel, y)))
  {
    DftLinear(kernel, a, x, b, y);
  }
}
