/** The radix-2 stage loop that all four Cooley-Tukey routines share: a
    `while sublen < N` loop whose body halves `stride`, runs a Stockham
    butterfly from one buffer (`old`) into the other (`new`), swaps the two
    references and flips `swapped`.

    The specification is the function `After(x, t)`, the contents produced
    by the first `t` stages; the methods `RunStage` and `PingPong` are the
    loops themselves, proved against it. The rotation factor
    `omega(k, N)` is an arbitrary function of the butterfly offset `k` and
    the length `N`. Element values are integers, so `omega * x` (the f32
    routines) and `x * omega` (the generic ones) are the same product.

    Butterfly `(i, p)` of a stage of stride `s` is the one the loops visit
    with `i < s` and `k = 2p` (so `p` is the source's `k >> 1`, a multiple
    of `s` below `N/2`). It reads `old[i + k]` and `old[i + k + s]` and
    writes `new[i + p]` and `new[i + p + N/2]`. */
module Butterfly {
  import opened Arith

  /** One butterfly output: the sum `a + omega b` for the lower half of the
      destination, the difference `a - omega b` for the upper half. */
  function Bfly(a: int, b: int, omega: int, upper: bool): int {
    if upper then a - omega * b else a + omega * b
  }


  /** A stage of stride `s` fits a buffer of length `n` when each half of
      the buffer splits into whole blocks of `s`. */
  ghost predicate StageShape(n: nat, s: nat) {
    s >= 1 && n % 2 == 0 && Multiple(n / 2, s)
  }

  // ---------------------------------------------------------------------
  // The specification of one stage.

  /** The lower-half index butterfly `(i, p)` writes. */
  function Dest(i: nat, p: nat): nat {
    i + p
  }

  /** `y` is what one stage of stride `s` produces from buffer `x`: every
      butterfly `(i, p)` has left `x[i + 2p] + omega x[i + 2p + s]` at
      index `i + p` and `x[i + 2p] - omega x[i + 2p + s]` at
      `i + p + N/2`, with `omega = omega(2p, N)`. */
  ghost predicate IsStage(omega: (nat, nat) -> int, x: seq<int>, s: nat, y: seq<int>)
    requires StageShape(|x|, s)
  {
    && |y| == |x|
    && forall i: nat, p: nat {:trigger Dest(i, p)} :: i < s && Multiple(p, s) && p + s <= |x| / 2 ==>
         && y[Dest(i, p)] == Bfly(x[Dest(i, p) + p], x[Dest(i, p) + p + s], omega(2 * p, |x|), false)
         && y[Dest(i, p) + |x| / 2] == Bfly(x[Dest(i, p) + p], x[Dest(i, p) + p + s], omega(2 * p, |x|), true)
  }

  /** Output `j` of a stage of stride `s`. Index `d = j mod N/2` splits
      into its column `c < s` and the multiple `p` of `s` below it; it is
      written by butterfly `(c, p)`, which keeps the sum in the lower half
      and the difference in the upper half. */
  ghost function StageOut(omega: (nat, nat) -> int, x: seq<int>, s: nat, j: nat): int
    requires StageShape(|x|, s) && j < |x|
  {
    var h := |x| / 2;
    var upper := j >= h;
    var d := if upper then j - h else j;
    var c := Column(d, s);
    var p := d - c;
    MultipleGap(p, h, s);
    Bfly(x[c + 2 * p], x[c + 2 * p + s], omega(2 * p, |x|), upper)
  }

  /** A stage output is unique: two buffers that both satisfy the butterfly
      formula of stride `s` agree everywhere, since every index is written by
      some butterfly. */
  lemma StageUnique(omega: (nat, nat) -> int, x: seq<int>, s: nat, y1: seq<int>, y2: seq<int>)
    requires StageShape(|x|, s) && IsStage(omega, x, s, y1) && IsStage(omega, x, s, y2)
    ensures y1 == y2
  {
    forall j | 0 <= j < |x|
      ensures y1[j] == y2[j]
    {
      var h := |x| / 2;
      var d := if j >= h then j - h else j;
      var i, p := Decompose(d, s);
      MultipleGap(p, h, s);
      assert Dest(i, p) == d;
    }
  }

  /** Every buffer has a stage output: the outputs `StageOut(j)` in order. */
  lemma StageExists(omega: (nat, nat) -> int, x: seq<int>, s: nat)
    requires StageShape(|x|, s)
    ensures exists y :: IsStage(omega, x, s, y)
  {
    var y := seq(|x|, j requires 0 <= j < |x| => StageOut(omega, x, s, j));
    forall i: nat, p: nat | i < s && Multiple(p, s) && p + s <= |x| / 2
      ensures y[Dest(i, p)] == Bfly(x[Dest(i, p) + p], x[Dest(i, p) + p + s], omega(2 * p, |x|), false)
      ensures y[Dest(i, p) + |x| / 2] == Bfly(x[Dest(i, p) + p], x[Dest(i, p) + p + s], omega(2 * p, |x|), true)
    {
      ColumnOf(i, p, s);
    }
    assert IsStage(omega, x, s, y);
  }

  /** The buffer one stage of stride `s` produces from buffer `x`. */
  ghost function Stage(omega: (nat, nat) -> int, x: seq<int>, s: nat): (y: seq<int>)
    requires StageShape(|x|, s)
    ensures |y| == |x| && IsStage(omega, x, s, y)
  {
    StageExists(omega, x, s);
    var y :| IsStage(omega, x, s, y); y
  }

  /** What butterfly `(i, p)` of a stage leaves in the two indices it
      writes, for every multiple `p` of `s` below `N/2`. */
  lemma StageAtButterfly(omega: (nat, nat) -> int, x: seq<int>, s: nat, i: nat, p: nat)
    requires StageShape(|x|, s) && i < s && Multiple(p, s) && p < |x| / 2
    ensures i + p + |x| / 2 < |x| && i + 2 * p + s < |x|
    ensures Stage(omega, x, s)[i + p] == x[i + 2 * p] + omega(2 * p, |x|) * x[i + 2 * p + s]
    ensures Stage(omega, x, s)[i + p + |x| / 2] == x[i + 2 * p] - omega(2 * p, |x|) * x[i + 2 * p + s]
  {
    MultipleGap(p, |x| / 2, s);
    assert Dest(i, p) == i + p;
  }

  // ---------------------------------------------------------------------
  // The specification of the stage loop.

  /** Stage `t` (counting from 1) of a length-`n` transform has stride
      `n / 2^t`, and that stride fits the buffer. */
  lemma StageShapeAt(n: nat, t: nat)
    requires IsPow2(n) && 1 <= t <= Log2(n)
    ensures StageShape(n, Pow2(Log2(n) - t))
  {
    var L := Log2(n);
    Pow2Half(L);
    Pow2Multiple(L - t, t - 1);
    assert L - t + (t - 1) == L - 1;
  }

  /** The buffer after the first `t` stages. */
  ghost function After(omega: (nat, nat) -> int, x: seq<int>, t: nat): (y: seq<int>)
    requires IsPow2(|x|) && t <= Log2(|x|)
    ensures |y| == |x|
    ensures t == 0 ==> y == x
  {
    if t == 0 then x
    else
      var prev := After(omega, x, t - 1);
      StageShapeAt(|x|, t);
      Stage(omega, prev, Pow2(Log2(|x|) - t))
  }

  /** Stage `t + 1` applied to the buffer after `t` stages, with its stride
      `N / 2^(t+1)` written as the half of the previous stride. */
  lemma AfterStep(omega: (nat, nat) -> int, x: seq<int>, t: nat)
    requires IsPow2(|x|) && t < Log2(|x|)
    ensures Pow2(Log2(|x|) - t) / 2 == Pow2(Log2(|x|) - (t + 1))
    ensures StageShape(|x|, Pow2(Log2(|x|) - (t + 1)))
    ensures After(omega, x, t + 1) == Stage(omega, After(omega, x, t), Pow2(Log2(|x|) - (t + 1)))
  {
    Pow2Half(Log2(|x|) - t);
    StageShapeAt(|x|, t + 1);
  }

  /** The result of the complete stage loop: log2 N stages. For N = 1 no
      stage runs and the input is returned unchanged. */
  ghost function Transform(omega: (nat, nat) -> int, x: seq<int>): (y: seq<int>)
    requires IsPow2(|x|)
    ensures |y| == |x|
    ensures |x| == 1 ==> y == x
  {
    After(omega, x, Log2(|x|))
  }

  /** What a caller holds when, after an odd number of stages, it copies the
      `new` buffer into the `old` one instead of the other way round: the
      buffer as it was before the last stage. */
  ghost function ReversedCopyBack(omega: (nat, nat) -> int, x: seq<int>): (y: seq<int>)
    requires IsPow2(|x|)
    ensures |y| == |x|
    ensures Log2(|x|) % 2 == 0 ==> y == Transform(omega, x)
  {
    var L := Log2(|x|);
    if L % 2 == 1 then After(omega, x, L - 1) else After(omega, x, L)
  }

  // ---------------------------------------------------------------------
  // The loops.

  /** `y` already agrees with the stage output `z` at both indices of every
      butterfly `(c, q)` that the loops visit before `(i, p)`: every column
      `c < i`, and in column `i` the blocks `q < p`. */
  ghost predicate DoneUpTo<T>(z: seq<T>, y: seq<T>, s: nat, i: nat, p: nat)
    requires |y| == |z|
  {
    forall c: nat, q: nat :: c < s && Multiple(q, s) && Dest(c, q) < |z| / 2 && (c < i || (c == i && q < p)) ==>
      y[Dest(c, q)] == z[Dest(c, q)] && y[Dest(c, q) + |z| / 2] == z[Dest(c, q) + |z| / 2]
  }

  /** Writing both outputs of butterfly `(i, p)` extends the finished
      region to `(i, p + s)`. */
  lemma DoneStep<T>(z: seq<T>, pre: seq<T>, post: seq<T>, s: nat, i: nat, p: nat)
    requires |pre| == |z| && i < s && Multiple(p, s) && i + p < |z| / 2
    requires DoneUpTo(z, pre, s, i, p)
    requires post == pre[i + p := z[i + p]][i + p + |z| / 2 := z[i + p + |z| / 2]]
    ensures DoneUpTo(z, post, s, i, p + s)
  {
    var h := |z| / 2;
    forall c: nat, q: nat | c < s && Multiple(q, s) && Dest(c, q) < h && (c < i || (c == i && q < p + s))
      ensures post[Dest(c, q)] == z[Dest(c, q)] && post[Dest(c, q) + h] == z[Dest(c, q) + h]
    {
      SlotUnique(c, q, i, p, s);
      MultipleBelow(q, p, s);
    }
  }

  /** With `p` and `q` multiples of `s`, `q < p + s` leaves `q <= p`. */
  lemma MultipleBelow(q: nat, p: nat, s: nat)
    requires Multiple(q, s) && Multiple(p, s)
    ensures q < p + s ==> q <= p
  {
    if p < q {
      MultipleGap(p, q, s);
    }
  }

  /** Once every block of column `i` is written, column `i + 1` starts. */
  lemma DoneColumn<T>(z: seq<T>, y: seq<T>, s: nat, i: nat, p: nat)
    requires |y| == |z| && p >= |z| / 2
    requires DoneUpTo(z, y, s, i, p)
    ensures DoneUpTo(z, y, s, i + 1, 0)
  {
  }

  /** After all `s` columns, every index is written. */
  lemma DoneAll<T>(z: seq<T>, y: seq<T>, s: nat)
    requires |y| == |z| && s >= 1 && |z| % 2 == 0
    requires DoneUpTo(z, y, s, s, 0)
    ensures y == z
  {
    var h := |z| / 2;
    forall j | 0 <= j < |z| ensures y[j] == z[j] {
      var c, q := Decompose(if j < h then j else j - h, s);
      assert Dest(c, q) + (if j < h then 0 else h) == j;
    }
  }

  /** One pass of the nested `for i in 0..stride` / `k = 0, 2*stride, ...`
      loops: reads only `src`, and leaves in `dst` exactly the next stage. */
  method RunStage(omega: (nat, nat) -> int, src: array<int>, dst: array<int>, s: nat)
    requires src != dst && src.Length == dst.Length && StageShape(src.Length, s)
    modifies dst
    ensures src[..] == old(src[..])
    ensures dst[..] == Stage(omega, src[..], s)
  {
    var i := 0;
    while i < s
      invariant 0 <= i <= s
      invariant DoneUpTo(Stage(omega, src[..], s), dst[..], s, i, 0)
    {
      RunColumn(omega, src, dst, s, i);
      i := i + 1;
    }
    DoneAll(Stage(omega, src[..], s), dst[..], s);
  }

  /** The inner loop for one `i < stride`: the butterflies at
      `k = 0, 2*stride, 4*stride, ...`, each writing `new[i + k/2]` and
      `new[i + k/2 + N/2]` from `old[i + k]` and `old[i + k + stride]`. */
  method RunColumn(omega: (nat, nat) -> int, src: array<int>, dst: array<int>, s: nat, i: nat)
    requires src != dst && src.Length == dst.Length && StageShape(src.Length, s) && i < s
    requires DoneUpTo(Stage(omega, src[..], s), dst[..], s, i, 0)
    modifies dst
    ensures DoneUpTo(Stage(omega, src[..], s), dst[..], s, i + 1, 0)
  {
    var n := src.Length;
    ghost var h := n / 2;
    ghost var z := Stage(omega, src[..], s);
    var k := 0;
    ghost var p := 0;
    MultipleZero(s);
    while k < n
      invariant k == 2 * p && Multiple(p, s) && p <= h
      invariant DoneUpTo(z, dst[..], s, i, p)
    {
      MultipleGap(p, h, s);
      ghost var pre := dst[..];
      Butterfly(omega, src, dst, s, i, k);
      assert k / 2 == p;
      ColumnStep(omega, src[..], pre, dst[..], s, i, p);
      MultipleNext(p, s);
      k := k + 2 * s;
      p := p + s;
    }
    DoneColumn(z, dst[..], s, i, p);
  }

  /** The body of the inner loop: one butterfly with rotation factor
      `omega(k, N)`. */
  method Butterfly(omega: (nat, nat) -> int, src: array<int>, dst: array<int>, s: nat, i: nat, k: nat)
    requires src != dst && src.Length == dst.Length
    requires i + k + s < src.Length && i + k / 2 + src.Length / 2 < src.Length
    modifies dst
    ensures var a, b, o := src[i + k], src[i + k + s], omega(k, src.Length);
      dst[..] == old(dst[..])[i + k / 2 := Bfly(a, b, o, false)][i + k / 2 + src.Length / 2 := Bfly(a, b, o, true)]
  {
    var n := src.Length;
    var o := omega(k, n);
    dst[i + k / 2] := src[i + k] + o * src[i + k + s];
    dst[i + k / 2 + n / 2] := src[i + k] - o * src[i + k + s];
  }

  /** Writing butterfly `(i, p)` as the loop body does extends the finished
      region of the stage output by one block. */
  lemma ColumnStep(omega: (nat, nat) -> int, x: seq<int>, pre: seq<int>, post: seq<int>, s: nat, i: nat, p: nat)
    requires StageShape(|x|, s) && |pre| == |x| && i < s && Multiple(p, s) && p < |x| / 2
    requires DoneUpTo(Stage(omega, x, s), pre, s, i, p)
    requires i + p + |x| / 2 < |x| && i + 2 * p + s < |x|
    requires var a, b, o := x[i + 2 * p], x[i + 2 * p + s], omega(2 * p, |x|);
      post == pre[i + p := Bfly(a, b, o, false)][i + p + |x| / 2 := Bfly(a, b, o, true)]
    ensures DoneUpTo(Stage(omega, x, s), post, s, i, p + s)
  {
    StageAtButterfly(omega, x, s, i, p);
    DoneStep(Stage(omega, x, s), pre, post, s, i, p);
  }

  /** The body of the `while sublen < N` loop, short of the swap: halve
      `stride`, run the stage from `src` (holding the first `t` stages)
      into `dst`, double `sublen`. */
  method StageRound(omega: (nat, nat) -> int, src: array<int>, dst: array<int>,
                    sublen: nat, stride: nat, ghost x: seq<int>, ghost t: nat)
      returns (sublen': nat, stride': nat)
    requires src != dst && src.Length == dst.Length == |x| && IsPow2(|x|) && t <= Log2(|x|)
    requires sublen == Pow2(t) && stride == Pow2(Log2(|x|) - t) && sublen < |x|
    requires src[..] == After(omega, x, t)
    modifies dst
    ensures t < Log2(|x|)
    ensures sublen' == Pow2(t + 1) && stride' == Pow2(Log2(|x|) - (t + 1))
    ensures src[..] == old(src[..])
    ensures dst[..] == After(omega, x, t + 1)
  {
    Pow2Less(t, Log2(|x|));
    AfterStep(omega, x, t);
    stride' := stride / 2;
    RunStage(omega, src, dst, stride');
    sublen' := sublen * 2;
  }

  /** The `while sublen < N` loop. Starting from `a` as `old` and `b` as
      `new`, it returns the final `old` and `new` references and the
      `swapped` flag: `old` holds the last stage, `new` the one before, and
      `swapped` is set exactly when the stage count log2 N is odd. */
  method PingPong(omega: (nat, nat) -> int, a: array<int>, b: array<int>)
      returns (src: array<int>, dst: array<int>, swapped: bool, ghost stages: nat)
    requires a != b && a.Length == b.Length && IsPow2(a.Length)
    modifies a, b
    ensures stages == Log2(a.Length) && swapped == (stages % 2 == 1)
    ensures src == (if swapped then b else a) && dst == (if swapped then a else b)
    ensures src[..] == Transform(omega, old(a[..]))
    ensures stages >= 1 ==> dst[..] == After(omega, old(a[..]), stages - 1)
  {
    var n := a.Length;
    ghost var L := Log2(n);
    ghost var x := a[..];
    src, dst := a, b;
    var sublen, stride := 1, n;
    swapped := false;
    stages := 0;
    while sublen < n
      invariant stages <= L && sublen == Pow2(stages) && stride == Pow2(L - stages)
      invariant swapped == (stages % 2 == 1)
      invariant src == (if swapped then b else a) && dst == (if swapped then a else b)
      invariant src[..] == After(omega, x, stages)
      invariant stages >= 1 ==> dst[..] == After(omega, x, stages - 1)
      decreases L - stages
    {
      ghost var cur := src[..];
      sublen, stride := StageRound(omega, src, dst, sublen, stride, x, stages);
      src, dst := dst, src;
      swapped := !swapped;
      stages := stages + 1;
      assert dst[..] == cur;
    }
    Pow2Less(stages, L);
  }

  /** The stage loop for every length the routines accept. With `N = 0`
      the condition `sublen < N` fails at once, no stage runs and `swapped`
      stays false; with `N` a power of two it is `PingPong`. */
  method StageLoop(omega: (nat, nat) -> int, a: array<int>, b: array<int>)
      returns (src: array<int>, dst: array<int>, swapped: bool)
    requires a != b && a.Length == b.Length && (a.Length == 0 || IsPow2(a.Length))
    modifies a, b
    ensures src == (if swapped then b else a) && dst == (if swapped then a else b)
    ensures a.Length == 0 ==> !swapped
    ensures IsPow2(a.Length) ==> swapped == (Log2(a.Length) % 2 == 1)
    ensures IsPow2(a.Length) ==> src[..] == Transform(omega, old(a[..]))
    ensures IsPow2(a.Length) && Log2(a.Length) >= 1 ==> dst[..] == After(omega, old(a[..]), Log2(a.Length) - 1)
  {
    if a.Length == 0 {
      src, dst, swapped := a, b, false;
    } else {
      ghost var stages;
      src, dst, swapped, stages := PingPong(omega, a, b);
    }
  }

  /** `dst.copy_from_slice(src)`. */
  method CopyFrom<T>(dst: array<T>, src: array<T>)
    requires dst.Length == src.Length
    modifies dst
    ensures dst[..] == old(src[..])
  {
    forall i | 0 <= i < dst.Length {
      dst[i] := src[i];
    }
  }
}
