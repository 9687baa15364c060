/** Index arithmetic shared by the reshaping kernels: the minimum of two counts,
    the extent of a strided buffer, and multiplication, quotient and remainder on
    naturals, with the facts that let a flat index be decoded back into (row,
    offset) or (pixel, channel).

    `Mul`, `Quot` and `Rem` are defined by repeated addition and subtraction, the
    way the kernels' pointers move: `Mul(k, step)` is where a pointer lands after
    `k` advances by `step`. `MulIsProduct` and `QuotRemAreDivision` show they are
    `*`, `/` and `%` on naturals (the C++ operators on `size_t`). */
module Arith {

  /** The ordinary minimum on naturals (the `min` the kernels call). */
  function Min(a: nat, b: nat): (m: nat)
    ensures m <= a && m <= b
    ensures m == a || m == b
  {
    if a <= b then a else b
  }

  /** `k` advances by `step`. */
  function Mul(k: nat, step: nat): nat
  {
    if k == 0 then 0 else Mul(k - 1, step) + step
  }

  /** How many whole groups of `d` fit into `n`. */
  function Quot(n: nat, d: nat): nat
    requires d > 0
    decreases n
  {
    if n < d then 0 else 1 + Quot(n - d, d)
  }

  /** What is left of `n` after the whole groups of `d`. */
  function Rem(n: nat, d: nat): nat
    requires d > 0
    decreases n
  {
    if n < d then n else Rem(n - d, d)
  }

  /** Number of elements a buffer must hold so that `rows` rows, `stride` elements
      apart, each of which uses its first `used` elements, stay in bounds. */
  function Extent(rows: nat, stride: nat, used: nat): nat
  {
    if rows == 0 then 0 else Mul(rows - 1, stride) + used
  }

  lemma {:induction false} MulIsProduct(k: nat, step: nat)
    ensures Mul(k, step) == k * step
  {
    if k > 0 {
      MulIsProduct(k - 1, step);
    }
  }

  /** `n` is `Quot(n, d)` whole groups of `d` plus a remainder below `d`. */
  lemma {:induction false} QuotRem(n: nat, d: nat)
    requires d > 0
    ensures Mul(Quot(n, d), d) + Rem(n, d) == n && Rem(n, d) < d
  {
    if n >= d {
      QuotRem(n - d, d);
    }
  }

  lemma {:induction false} QuotRemAreDivision(n: nat, d: nat)
    requires d > 0
    ensures Quot(n, d) == n / d && Rem(n, d) == n % d
  {
    QuotRem(n, d);
    MulIsProduct(Quot(n, d), d);
    DivModUnique(n, d, Quot(n, d), Rem(n, d));
  }

  /** Euclidean division of naturals has one quotient and one remainder. */
  lemma DivModUnique(n: nat, d: nat, q: nat, r: nat)
    requires d > 0 && r < d && q * d + r == n
    ensures n / d == q && n % d == r
  {
    var a, b := n / d, n % d;
    assert a * d + b == q * d + r;
    if a > q {
      ProductMono(1, a - q, d);
    } else if a < q {
      ProductMono(1, q - a, d);
    }
  }

  lemma ProductMono(a: nat, b: nat, m: nat)
    requires a <= b
    ensures a * m <= b * m
  {
  }

  lemma {:induction false} MulZero(k: nat)
    ensures Mul(k, 0) == 0
  {
    if k > 0 {
      MulZero(k - 1);
    }
  }

  /** More advances never land earlier. */
  lemma {:induction false} MulMono(a: nat, b: nat, step: nat)
    requires a <= b
    ensures Mul(a, step) <= Mul(b, step)
  {
    if a < b {
      MulMono(a, b - 1, step);
    }
  }

  /** Element `k` of group `q`, for `q` below `count`, lies inside `count` groups. */
  lemma {:induction false} GroupBound(q: nat, count: nat, d: nat, k: nat)
    requires q < count && k < d
    ensures Mul(q, d) + k < Mul(count, d)
  {
    MulMono(q + 1, count, d);
  }

  /** Dividing `Mul(q, d) + k` by `d` gives back `q` with remainder `k`. */
  lemma {:induction false} QuotRemOfOffset(q: nat, d: nat, k: nat)
    requires k < d
    ensures Quot(Mul(q, d) + k, d) == q
    ensures Rem(Mul(q, d) + k, d) == k
  {
    if q > 0 {
      QuotRemOfOffset(q - 1, d, k);
      assert Mul(q, d) + k - d == Mul(q - 1, d) + k;
    }
  }

  /** An index below `w` groups of `d` belongs to one of the first `w` groups. */
  lemma {:induction false} QuotBelow(k: nat, w: nat, d: nat)
    requires k < Mul(w, d)
    ensures d > 0 && Quot(k, d) < w && Rem(k, d) < d
  {
    if d == 0 {
      MulZero(w);
    } else {
      QuotRem(k, d);
      if Quot(k, d) >= w {
        MulMono(w, Quot(k, d), d);
      }
    }
  }

  /** An index at or past `h` groups of `d` lies in group `h` or later. */
  lemma {:induction false} QuotAtLeast(k: nat, h: nat, d: nat)
    requires d > 0 && Mul(h, d) <= k
    ensures h <= Quot(k, d)
  {
    QuotRem(k, d);
    if Quot(k, d) < h {
      MulMono(Quot(k, d) + 1, h, d);
    }
  }

  /** Bytes counted in whole components never exceed the components that hold them. */
  lemma {:induction false} QuotAtMost(bytes: nat, size: nat, elements: nat)
    requires size > 0 && bytes <= Mul(elements, size)
    ensures Quot(bytes, size) <= elements
  {
    QuotRem(bytes, size);
    if Quot(bytes, size) > elements {
      MulMono(elements + 1, Quot(bytes, size), size);
    }
  }
}

/** Progress of a loop that overwrites a buffer front to back with a known target. */
module Progress {

  /** `out` agrees with `target` below `k` and still holds `before` from `k` on. */
  ghost predicate WrittenUpTo<T>(out: seq<T>, target: seq<T>, before: seq<T>, k: nat)
  {
    && |out| == |target| == |before|
    && forall i | 0 <= i < |out| :: out[i] == if i < k then target[i] else before[i]
  }

  /** Writing the target value at `k` extends the written prefix by one. */
  lemma WriteNext<T>(out: seq<T>, target: seq<T>, before: seq<T>, k: nat)
    requires WrittenUpTo(out, target, before, k) && k < |out|
    ensures WrittenUpTo(out[k := target[k]], target, before, k + 1)
  {
  }

  /** Positions where the target equals the old contents count as written. */
  lemma SkipUnchanged<T>(out: seq<T>, target: seq<T>, before: seq<T>, k: nat, k': nat)
    requires WrittenUpTo(out, target, before, k) && k <= k'
    requires forall i | k <= i < k' && i < |target| :: target[i] == before[i]
    ensures WrittenUpTo(out, target, before, k')
  {
  }

  /** A fully written buffer is the target. */
  lemma Complete<T>(out: seq<T>, target: seq<T>, before: seq<T>, k: nat)
    requires WrittenUpTo(out, target, before, k) && |out| <= k
    ensures out == target
  {
  }
}
