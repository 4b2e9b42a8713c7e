/** Index arithmetic shared by the radix-2 routines: powers of two, their
    logarithm, and multiples of a stride.

    A stage of stride `s` visits butterfly `(i, p)` for every column
    `i < s` and every block offset `p` that is a multiple of `s` (the
    source's `k >> 1`). Multiples are defined by repeated addition, so
    that every fact below is proved by induction with linear steps only. */
module Arith {

  /** 2^e. */
  function Pow2(e: nat): (p: nat)
    ensures p >= 1
  {
    if e == 0 then 1 else 2 * Pow2(e - 1)
  }

  /** A transform length the radix-2 stage loop accepts: 1, 2, 4, 8, ... */
  predicate IsPow2(n: nat)
    decreases n
  {
    n >= 1 && (n == 1 || (n % 2 == 0 && IsPow2(n / 2)))
  }

  /** The number of halvings that take a power of two down to 1. */
  function Log2(n: nat): (e: nat)
    requires IsPow2(n)
    ensures Pow2(e) == n
    ensures n >= 2 ==> e >= 1
    decreases n
  {
    if n == 1 then 0 else 1 + Log2(n / 2)
  }

  /** Halving `stride` (`stride >>= 1`) steps one exponent down. */
  lemma Pow2Half(e: nat)
    requires e >= 1
    ensures Pow2(e) / 2 == Pow2(e - 1) && Pow2(e) % 2 == 0
  {
  }

  /** Pow2 is strictly increasing, so `sublen < N` holds exactly while fewer
      than log2 N stages have run. */
  lemma {:induction false} Pow2Less(a: nat, b: nat)
    ensures Pow2(a) < Pow2(b) <==> a < b
    decreases a + b
  {
    if a > 0 && b > 0 {
      Pow2Less(a - 1, b - 1);
    } else if a == 0 && b > 0 {
      Pow2Less(0, b - 1);
    } else if a > 0 && b == 0 {
      Pow2Less(a - 1, 0);
    }
  }

  // ---------------------------------------------------------------------
  // Multiples of a stride.

  /** m * s, by repeated addition. */
  function Times(m: nat, s: nat): nat {
    if m == 0 then 0 else Times(m - 1, s) + s
  }

  /** `p` is one of 0, s, 2s, 3s, ... */
  ghost predicate Multiple(p: nat, s: nat) {
    exists m: nat :: Times(m, s) == p
  }

  lemma {:induction false} TimesAdd(a: nat, b: nat, s: nat)
    ensures Times(a + b, s) == Times(a, s) + Times(b, s)
    decreases b
  {
    if b > 0 {
      TimesAdd(a, b - 1, s);
      assert a + b - 1 == a + (b - 1);
    }
  }

  /** For a positive stride, `Times` is strictly increasing in `m`. */
  lemma {:induction false} TimesLess(a: nat, b: nat, s: nat)
    requires s >= 1
    ensures Times(a, s) < Times(b, s) <==> a < b
  {
    if a < b {
      TimesAdd(a, b - a, s);
      assert a + (b - a) == b;
      TimesPositive(b - a, s);
    } else {
      TimesAdd(b, a - b, s);
      assert b + (a - b) == a;
    }
  }

  lemma TimesPositive(m: nat, s: nat)
    requires m >= 1 && s >= 1
    ensures Times(m, s) >= s
  {
  }

  lemma MultipleZero(s: nat)
    ensures Multiple(0, s)
  {
    assert Times(0, s) == 0;
  }

  /** The multiple after `p`. */
  lemma MultipleNext(p: nat, s: nat)
    requires Multiple(p, s)
    ensures Multiple(p + s, s)
  {
    var m: nat :| Times(m, s) == p;
    assert Times(m + 1, s) == p + s;
  }

  /** The sum of two multiples is a multiple. */
  lemma MultipleAdd(a: nat, b: nat, s: nat)
    requires Multiple(a, s) && Multiple(b, s)
    ensures Multiple(a + b, s)
  {
    var m: nat :| Times(m, s) == a;
    var n: nat :| Times(n, s) == b;
    TimesAdd(m, n, s);
  }

  /** Consecutive multiples are `s` apart: below a multiple `h`, the next
      multiple after `p` is at most `h`. */
  lemma MultipleGap(p: nat, h: nat, s: nat)
    requires Multiple(p, s) && Multiple(h, s) && p < h
    ensures p + s <= h
  {
    var m: nat :| Times(m, s) == p;
    var n: nat :| Times(n, s) == h;
    if s >= 1 {
      TimesLess(m, n, s);
      TimesLess(n, m + 1, s);
    }
  }

  /** A column `c < s` plus a multiple of `s` determines both: distinct
      butterflies of one stage write distinct indices. */
  lemma SlotUnique(c: nat, q: nat, i: nat, p: nat, s: nat)
    requires c < s && i < s && Multiple(q, s) && Multiple(p, s)
    ensures c + q == i + p ==> c == i && q == p
  {
    if q < p {
      MultipleGap(q, p, s);
    } else if p < q {
      MultipleGap(p, q, s);
    }
  }

  /** Every index splits into a column below `s` and a multiple of `s`. */
  lemma {:induction false} Decompose(j: nat, s: nat) returns (c: nat, q: nat)
    requires s >= 1
    ensures c < s && Multiple(q, s) && j == c + q
    decreases j
  {
    if j < s {
      c, q := j, 0;
      MultipleZero(s);
    } else {
      c, q := Decompose(j - s, s);
      MultipleNext(q, s);
      q := q + s;
    }
  }

  /** `c` is the column of index `j` in a stage of stride `s`: `j` is `c`
      plus a multiple of `s`. */
  ghost predicate IsColumn(j: nat, s: nat, c: nat) {
    c < s && c <= j && Multiple(j - c, s)
  }

  lemma ColumnExists(j: nat, s: nat)
    requires s >= 1
    ensures exists c :: IsColumn(j, s, c)
  {
    var c, q := Decompose(j, s);
    assert IsColumn(j, s, c);
  }

  /** The column of index `j`: what is left of `j` after taking away the
      largest multiple of `s` not above it. */
  ghost function Column(j: nat, s: nat): (c: nat)
    requires s >= 1
    ensures IsColumn(j, s, c)
  {
    ColumnExists(j, s);
    var c :| IsColumn(j, s, c); c
  }

  /** Column `c` plus a multiple of `s` lies in column `c`. */
  lemma ColumnOf(c: nat, q: nat, s: nat)
    requires c < s && Multiple(q, s)
    ensures Column(c + q, s) == c
  {
    var d := Column(c + q, s);
    SlotUnique(d, c + q - d, c, q, s);
  }

  /** A column plus a multiple is itself a multiple only in column 0. */
  lemma MultipleOffset(c: nat, q: nat, s: nat)
    requires c < s && Multiple(q, s)
    ensures Multiple(c + q, s) <==> c == 0
  {
    MultipleZero(s);
    if Multiple(c + q, s) {
      SlotUnique(c, q, 0, c + q, s);
    }
  }

  lemma {:induction false} TimesDouble(m: nat, s: nat)
    ensures Times(m, 2 * s) == 2 * Times(m, s)
  {
    if m > 0 {
      TimesDouble(m - 1, s);
    }
  }

  /** Doubling a multiple of `s` gives a multiple of `2s`. */
  lemma MultipleDouble(q: nat, s: nat)
    requires Multiple(q, s)
    ensures Multiple(2 * q, 2 * s)
  {
    var m: nat :| Times(m, s) == q;
    TimesDouble(m, s);
  }

  lemma {:induction false} TimesPow2(a: nat, b: nat)
    ensures Times(Pow2(b), Pow2(a)) == Pow2(a + b)
    decreases b
  {
    if b > 0 {
      TimesPow2(a, b - 1);
      TimesAdd(Pow2(b - 1), Pow2(b - 1), Pow2(a));
      assert Pow2(a + b) == 2 * Pow2(a + (b - 1));
    }
  }

  /** A power of two is a multiple of every smaller power of two. */
  lemma Pow2Multiple(a: nat, b: nat)
    ensures Multiple(Pow2(a + b), Pow2(a))
  {
    TimesPow2(a, b);
  }
}
