# fft-rs: radix-2 stage loops, naive DFT and engine, modelled in Dafny

fft-rs computes the discrete Fourier transform of fixed-length signals. This
project models the array and index machinery of its routines and proves
properties about them:

- **Radix-2 routines.** There are four near-identical copies from different
  API revisions:
  - the free function `fft<N>` in `src/fft.rs`;
  - `CooleyTukey::fft` of the engine API;
  - `CooleyTukey::fft` and `Cooley::fft` of the allocator-returning API.

  Each copies its input into a buffer (windowing it, in the engine version).
  It then runs a `while sublen < N` loop. Each pass halves `stride`, writes
  one Stockham butterfly stage from `old` into `new` with rotation factor
  `omega(k, N)`, and swaps the two references. A `swapped` flag decides which
  buffer holds the result.
- **Naive DFT.** It writes an iterator into a scratch buffer. It then adds
  `buffer[j] * E(i, j)` into `spectrum[i]` in an N x N double loop.
- **Allocators.** Each hands out a buffer of `N` default values.
- **Engine.** It carries only its type parameters and delegates `fft` to its
  implementation.

**Modelling choices.**

- Element values are exact integers. The routines only copy elements and
  combine them with `+`, `-` and `*`. Every law proved here (linearity, the
  impulse response) is therefore a ring identity, and holds for exact real or
  complex arithmetic too.
- The rotation factor `omega(k, N)`, the window weight `W(i, N)` and the naive
  matrix entry `exp(unit * omega)` are arbitrary functions. The naive entry
  takes `(i * j, N)`.
- Buffers that the code writes in place are Dafny arrays. The stage loops are
  methods proved against the defining functions `Butterfly.Stage`,
  `Butterfly.After` and `Butterfly.Transform`.

**Stage structure.** The code has no bit-reversal pass and no twiddle table.
Each stage is a self-sorting Stockham butterfly, and `omega` is recomputed for
every butterfly. The code does not check that `N` is a power of two. The
model of the radix-2 routines accepts `N = 0` (no stage runs) and every power
of two, and requires nothing else.

Modules:
- `Arith`: powers of two and multiples of a stride.
- `Signals`: linear combinations, impulses and constants.
- `Butterfly`: one stage, the stage loop and the functions that define them.
- `StageLaws`: linearity and the impulse response.
- `Allocators`.
- `FftFn`, `CooleyTukey`, `ReturningCooleyTukey`, `Cooley`: the four
  routines.
- `Naive`.
- `Engines`.

## Model

| member | source | states |
|---|---|---|
| Arith.Pow2Less | src/implementations/cooley_tukey.rs:31-47 | `2^a < 2^b` exactly when `a < b`: with `sublen = 2^t`, the loop `while sublen < N` runs while fewer than log2 N stages are done |
| Arith.Log2 | src/implementations/cooley_tukey.rs:31-47 | the stage count of a power of two `N`: `2^Log2(N) == N`, at least 1 when `N >= 2` |
| Arith.MultipleGap | src/implementations/cooley_tukey.rs:35-41 | consecutive multiples of the stride are a full stride apart, so `k < N` and `k` a multiple of `2*stride` give `i + k + stride < N` for `i < stride` |
| Arith.SlotUnique | src/implementations/cooley_tukey.rs:35-43 | a column `i < stride` plus a multiple of `stride` determines both: two butterflies of one stage never write the same index |
| Arith.Decompose | src/fft/implementations/cooley_tukey.rs:30-37 | every index is a column below `stride` plus a multiple of `stride`: some butterfly writes it |
| Butterfly.StageUnique | src/implementations/cooley_tukey.rs:35-43 | the butterfly formula of one pass fixes every index of `new`: two buffers that both satisfy it for the same `old` and `stride` are equal |
| Butterfly.StageAtButterfly | src/implementations/cooley_tukey.rs:35-43 | butterfly `(i, k/2)` reads and writes in bounds and leaves `old[i+k] + omega(k,N) old[i+k+s]` at `i + k/2` and `old[i+k] - omega(k,N) old[i+k+s]` at `i + k/2 + N/2` |
| Butterfly.Stage | src/fft/implementations/cooley_tukey.rs:29-38 | a stage's output exists and is fixed at every index by the butterfly formula (each index written by exactly one butterfly) |
| Butterfly.After | src/implementations/cooley_tukey.rs:31-47 | the buffer after `t` passes of the `while sublen < N` body has length `N`, and before the first pass it is the loop's input |
| Butterfly.AfterStep | src/implementations/cooley_tukey.rs:33-46 | stage `t+1` runs on the output of stage `t` with `stride` halved: strides N/2, N/4, ..., 1 |
| Butterfly.Transform | src/fft/implementations/cooley_tukey.rs:25-28 | the result of all log2 N stages; for `N = 1` no stage runs and the input is returned |
| Butterfly.ReversedCopyBack | src/implementations/cooley_tukey.rs:49-51 | the buffer a caller keeps when the copy after the loop runs from `new` into `old`; for an even stage count it is the full transform |
| Butterfly.Butterfly | src/implementations/cooley_tukey.rs:38-40 | one loop body: only `new[i + k/2]` and `new[i + k/2 + h]` change, to the sum and difference outputs |
| Butterfly.RunColumn | src/implementations/cooley_tukey.rs:36-42 | the `while k < N` loop for one `i` finishes column `i` of the stage output and keeps earlier columns |
| Butterfly.RunStage | src/implementations/cooley_tukey.rs:35-43 | the nested loops leave in `new` exactly the stage output of `old`, and `old` is unchanged |
| Butterfly.DoneAll | src/fft/implementations/cooley_tukey.rs:30-37 | once all `stride` columns are done, every index of `new` holds its stage output |
| Butterfly.StageRound | src/implementations/cooley_tukey.rs:33-46 | one pass of the `while sublen < N` body: `stride` halves, `sublen` doubles, `new` gets the next stage |
| Butterfly.PingPong | src/implementations/cooley_tukey.rs:31-47 | the loop runs log2 N times; `swapped` is the parity of that count; `old` ends with the full transform and `new` with the stage before |
| Butterfly.StageLoop | src/fft/implementations/cooley_tukey.rs:25-42 | the loop for `N = 0` (no stage, not swapped) and every power of two |
| Butterfly.CopyFrom | src/implementations/cooley_tukey.rs:50 | `copy_from_slice`: the destination ends equal to the source |
| StageLaws.BflyLinear | src/fft/implementations/cooley.rs:29-30 | a butterfly of `a*x + b*y` is `a` times the butterfly of `x` plus `b` times that of `y` |
| StageLaws.StageLinear | src/implementations/cooley_tukey.rs:38-40 | each stage is linear in its input, since `omega` depends only on `k` and `N` |
| StageLaws.AfterLinear | src/implementations/cooley_tukey.rs:33-47 | the first `t` stages are linear, by induction on `t` |
| StageLaws.TransformLinear | src/fft.rs:56-73 | `fft(a*v + b*e) == a*fft(v) + b*fft(e)` for every `omega` |
| StageLaws.ReversedCopyBackLinear | src/fft/implementations/cooley.rs:38-42 | the reversed copy-back keeps an earlier stage, so it is linear too |
| StageLaws.StageComb | src/fft/implementations/cooley_tukey.rs:33-36 | a stage maps the comb of spacing `2s` to the comb of spacing `s`: `omega` only ever multiplies zeros |
| StageLaws.AfterImpulse | src/fft/implementations/cooley_tukey.rs:28-42 | after `t` stages an impulse `c` is `c` at every multiple of `N/2^t` and 0 elsewhere |
| StageLaws.TransformImpulse | src/fft.rs:77-80 | the impulse `c, 0, ..., 0` transforms to `c` in every bin, for every `omega` |
| StageLaws.ReversedCopyBackImpulse | src/fft/implementations/cooley.rs:38-42 | with an odd stage count the reversed copy-back turns an impulse into the comb of spacing 2, so bin 1 is 0 |
| StageLaws.ImpulseN32Differs | src/test.rs:86-97 | for N = 32 and a unit impulse, the full loop gives 1 in bin 1 and the reversed copy-back gives 0 |
| Allocators.ArrayAllocate | src/fft/allocators/array.rs:10-12 | `[T::default(); N]`: length N, every element the default |
| Allocators.BoxedAllocate | src/allocators/boxed.rs:11-13 | a fresh buffer of length N, every element `T::default()` |
| Allocators.BoxedZeroAllocate | src/fft/allocators/boxed.rs:8-10 | a fresh buffer of N zeros |
| Allocators.AllocateDeterministic | src/fft/allocators/array.rs:10-12 | allocation takes no input: any two allocations of one length have equal contents |
| FftFn.Fft | src/fft.rs:7-34 | returns a fresh array holding the full transform of `v` (the copy-back from `zero_v` when swapped); for N = 1, `v` itself; `v` is only read |
| CooleyTukey.Windowed | src/implementations/cooley_tukey.rs:27-29 | the windowed input has length `N`, and a window of all ones leaves `v` unchanged |
| CooleyTukey.ApplyWindow | src/implementations/cooley_tukey.rs:26-29 | before the stage loop `spectrum[i] == v[i] * W(i, N)` for every `i < N` |
| CooleyTukey.FftAsWritten | src/implementations/cooley_tukey.rs:20-52 | the routine as written leaves in `spectrum` the windowed input after all stages but the last when the stage count is odd, and the full transform otherwise |
| CooleyTukey.Fft | src/implementations/cooley_tukey.rs:20-52 | with the copy-back reversed, `spectrum` holds the full transform of the windowed input |
| CooleyTukey.WindowedLinear | src/implementations/cooley_tukey.rs:27-29 | windowing is linear in `v` |
| CooleyTukey.FftLinear | src/test.rs:60-84 | the windowed transform is linear in `v` for every window and `omega` |
| CooleyTukey.FftAsWrittenLinear | src/implementations/cooley_tukey.rs:20-52 | the routine as written is also linear, so the linearity test cannot reveal the copy direction |
| CooleyTukey.FftImpulse | src/test.rs:86-97 | an impulse `c` transforms to `c * W(0, N)` in every bin; all ones for the rectangular window and `c = 1` |
| CooleyTukey.FftAsWrittenImpulseN32 | src/implementations/cooley_tukey.rs:49-51 | with the rectangular window and N = 32, the routine as written leaves 0 in bin 1 of a unit impulse, where the test expects 1 |
| ReturningCooleyTukey.Fft | src/fft/implementations/cooley_tukey.rs:19-49 | returns a fresh buffer (`vec2` when swapped, else `vec1`) holding the full transform of `v`; for N = 1 a copy of `v` |
| Cooley.FftAsWritten | src/fft/implementations/cooley.rs:14-43 | the routine as written returns `vec1`, which holds the stage before the last when the stage count is odd |
| Cooley.Fft | src/fft/implementations/cooley.rs:14-43 | with the copy-back reversed, `vec1` holds the full transform of `v` |
| Naive.Entry | src/implementations/naive.rs:29-30 | the matrix entry for `(i, j)`; in row 0 and column 0 it is the entry of exponent 0, `exp(0)` |
| Naive.EntrySymmetric | src/implementations/naive.rs:29 | the exponent `i * j` is symmetric in `i` and `j`, so the matrix is |
| Naive.Dft | src/implementations/naive.rs:27-31 | the transform has length `N`, and bin `i` is the row sum of row `i` over all `N` buffer entries |
| Naive.RowSumZero | src/implementations/naive.rs:27-31 | the inner loop adds nothing to a row while the buffer entries it has read are zero |
| Naive.DftZero | src/implementations/naive.rs:27-31 | a zero buffer transforms to zero in every bin |
| Naive.Accumulated | src/implementations/naive.rs:27 | adding into `spectrum.iter_mut().take(N)`: the length is kept, entries at or past `N` are untouched, and adding a zero transform changes nothing |
| Naive.Padded | src/implementations/naive.rs:18-24 | the buffer after the items are written over the allocator's zeros: length `N`, the items as prefix, zero after them |
| Naive.Materialize | src/implementations/naive.rs:22-24 | `buffer[idx]` becomes the `idx`-th item and other entries keep their value; more items than the buffer holds is a panic |
| Naive.Accumulate | src/implementations/naive.rs:26-32 | each of the first `min(len, N)` entries of `spectrum` gets its row sum added and the rest are untouched, in `min(len, N) * N` steps |
| Naive.Fft | src/implementations/naive.rs:16-33 | more than N items panics with `spectrum` untouched; otherwise `spectrum` gains the transform of the zero-padded items |
| Naive.RowSumLinear | src/implementations/naive.rs:27-31 | each row sum is linear in the buffer, by induction over `j` |
| Naive.DftLinear | src/implementations/naive.rs:46-48 | the naive transform is linear |
| Naive.RowSumImpulse | src/implementations/naive.rs:27-31 | an impulse `c` contributes `c * E(i, 0)` to every row sum |
| Naive.DftImpulse | src/implementations/naive.rs:41-43 | from a zero `spectrum`, an impulse `c` gives `c * exp(0)` in every bin |
| Naive.FftLinear | src/implementations/naive.rs:46-48 | from a zero `spectrum`, the result is linear in the input |
| Engines.New | src/lib.rs:64-70 | `Engine::new` builds the engine of the chosen implementation and allocator |
| Engines.Default | src/lib.rs:40-56 | the default engine is Cooley-Tukey, with the boxed allocator exactly when the `alloc` feature is on |
| Engines.DefaultIsNew | src/lib.rs:48-70 | `Default::default` and `Engine::new` build the same value |
| Engines.Result | src/lib.rs:72-74 | what `engine.fft` leaves in `spectrum`: for Cooley-Tukey the routine as written (the stage before the last when the stage count is odd, see Findings), for the naive implementation the accumulated transform; length `N` for either; an empty input leaves `spectrum` as it was; the power-of-two requirement applies to the Cooley-Tukey implementation only |
| Engines.Fft | src/lib.rs:72-74 | `engine.fft(v, spectrum)` leaves exactly what its implementation's `fft` leaves, including the copy-back of the Cooley-Tukey routine as written |
| Engines.ResultIgnoresAllocator | src/lib.rs:29-38 | an engine holds no state: engines with one implementation give equal results from equal inputs and equal initial `spectrum` |

## Left out

- Floating point: `f32` and `Complex32` rounding, `exp`, `PI`, and the window formulas of `src/windows` are not modelled. Element values are exact integers, and `omega`, `W` and the naive matrix entry are arbitrary integer-valued functions. The `TMul` scalar type of the engine routine is the element type. Equivalence with a true DFT, or between the naive and Cooley-Tukey routines, is not claimed: the code's `omega` is a real exponential, not a root of unity.
- StageLaws.TransformLinear: proved over the integers rather than over an arbitrary commutative ring. The same holds for the other linearity and impulse lemmas; each uses only ring identities.
- Radix-2 lengths that are neither 0 nor a power of two are excluded by a precondition. Such a length runs to completion, with a buffer that is not a transform, exactly when `2 * stride` divides `N` at every pass with `stride >= 1` (N = 6, 12, 20, 24, 40, ...); a pass with `stride == 0` has an empty `for i in 0..stride` loop. Every other such length, for example odd `N >= 3` or `N = 10`, indexes past the end of the buffer and panics. Neither case is modelled. The naive routine accepts every `N`.
- CooleyTukey.FftAsWritten: `spectrum` must have length `N`. A boxed slice of another length makes the code panic or leave entries past `N`, and that case is not modelled.
- Naive.Fft: an out-of-bounds index is a `false` result with `spectrum` untouched. Unwinding itself is not modelled.
- Engines.Fft: the window and the naive matrix entry are call parameters, because the API revisions differ in their type parameters.
- Engines.Default: the `alloc` feature is a boolean parameter. `no_std`, heap exhaustion and the `micromath` imports are left out.
- The traits `Allocator` and `Implementation` become the datatypes `Engines.Allocator` and `Engines.Implementation`. `AsMut`/`AsRef` slice views are the arrays themselves.
- `milion_test` and `time_shift_holds` are left out. They assert exact floating-point values, or an equality of spectra that is not a general law.
- Benchmarks and test helpers are left out.

## Findings

| source | as written | input that shows it | evidently intended | confidence | as-written member | corrected member |
|---|---|---|---|---|---|---|
| src/implementations/cooley_tukey.rs:49-51 | `old.copy_from_slice(new)` after an odd number of stages copies `spectrum` into the swap buffer, so `spectrum` keeps the stage before the last | rectangular window, N = 32, unit impulse: bin 1 is 0 instead of 1 | `new.copy_from_slice(old)`: the last stage's output copied into `spectrum` | not executed | CooleyTukey.FftAsWritten, CooleyTukey.FftAsWrittenImpulseN32 | CooleyTukey.Fft, CooleyTukey.FftImpulse |
| src/fft/implementations/cooley.rs:38-42 | `old.copy_from_slice(new)` after an odd number of stages copies `vec1` into `vec2`, and `vec1` is returned holding the stage before the last | N = 32, unit impulse: bin 1 is 0 instead of 1 | `new.copy_from_slice(old)`, so that the returned `vec1` holds the last stage | not executed | Cooley.FftAsWritten, StageLaws.ReversedCopyBackImpulse | Cooley.Fft, StageLaws.TransformImpulse |
