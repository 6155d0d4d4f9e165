/** Facts about the integer index arithmetic of the kernels: division and
    remainder (the source's `/` and `%` on `size_t`, which agree with Dafny's on
    naturals) and bounds of row-major index expressions. */
module IndexMath {

  /** `size_t` is 64 bits wide on the benchmarks' targets. */
  const SizeModulus: nat := 0x1_0000_0000_0000_0000

  /** `--k` on a `size_t`: zero wraps around to the largest value. */
  function Decrement(k: nat): (r: nat)
    requires k < SizeModulus
    ensures r < SizeModulus
    ensures r == if k == 0 then SizeModulus - 1 else k - 1
  {
    (k + SizeModulus - 1) % SizeModulus
  }

  lemma MulAtLeast(a: int, d: int)
    requires a >= 1 && d > 0
    ensures a * d >= d
  {
  }

  /** Quotient and remainder are unique. */
  lemma DivModUnique(x: int, d: int, q: int, r: int)
    requires d > 0 && 0 <= r < d && x == q * d + r
    ensures x / d == q && x % d == r
  {
    var q', r' := x / d, x % d;
    assert x == q' * d + r';
    assert (q - q') * d == r' - r by {
      assert q * d - q' * d == (q - q') * d;
    }
    if q > q' {
      MulAtLeast(q - q', d);
    } else if q < q' {
      MulAtLeast(q' - q, d);
    }
  }

  /** A two-level index `i*m + j` with `i < n`, `j < m` stays below `n*m`. */
  lemma IndexBound(i: nat, n: nat, j: nat, m: nat)
    requires i < n && j < m
    ensures i * m + j < n * m
    ensures i * m + m <= n * m
  {
    assert i * m <= (n - 1) * m;
  }

  /** `a * b` by repeated addition. Index proofs over SIMD blocks use it in
      place of `*`, so that the solver reasons about the indices linearly;
      `MulIsTimes` connects the two where a contract speaks of `*`. */
  function Mul(a: nat, b: nat): nat
  {
    if a == 0 then 0 else Mul(a - 1, b) + b
  }

  lemma {:induction false} MulIsTimes(a: nat, b: nat)
    ensures Mul(a, b) == a * b
  {
    if a > 0 {
      MulIsTimes(a - 1, b);
    }
  }

  /** Block `i` of `n` blocks of width `w` ends inside the `n*w` elements. */
  lemma {:induction false} SlotBound(i: nat, n: nat, w: nat)
    requires i < n
    ensures Mul(i, w) + w <= Mul(n, w)
    decreases n
  {
    if i + 1 < n {
      SlotBound(i, n - 1, w);
    }
  }

  /** `DivModUnique` for a quotient given by `Mul`. */
  lemma DivModMul(x: int, d: nat, q: nat, r: int)
    requires d > 0 && 0 <= r < d && x == Mul(q, d) + r
    ensures x / d == q && x % d == r
  {
    MulIsTimes(q, d);
    DivModUnique(x, d, q, r);
  }

  lemma MulMono(a: nat, b: nat, c: nat)
    requires a <= b
    ensures a * c <= b * c
  {
  }

  /** Every natural below `q*d` splits as `(x/d)*d + x%d` with `x/d < q`. */
  lemma DivBelow(x: nat, d: nat, q: nat)
    requires d > 0 && x < q * d
    ensures x / d < q
  {
    if x / d >= q {
      MulMono(q, x / d, d);
    }
  }

  /** `Mul` is monotone in its first argument. */
  lemma {:induction false} MulMonoLeft(a: nat, b: nat, w: nat)
    requires a <= b
    ensures Mul(a, w) <= Mul(b, w)
    decreases b
  {
    if a < b {
      MulMonoLeft(a, b - 1, w);
    }
  }

  /** Every natural splits into whole blocks of `w` and a remainder. */
  lemma RowSplit(m: nat, w: nat)
    requires w > 0
    ensures Mul(m / w, w) + m % w == m
  {
    MulIsTimes(m / w, w);
  }

  /** Doubling the block width doubles the extent of `g` blocks. */
  lemma MulDouble(g: nat, w: nat)
    ensures Mul(g, 2 * w) == 2 * Mul(g, w) == Mul(2 * g, w)
  {
    MulIsTimes(g, 2 * w);
    MulIsTimes(g, w);
    MulIsTimes(2 * g, w);
  }

  /** An index below `n` blocks of `w` lies in a block `i < n`. */
  lemma BlockBelow(x: nat, w: nat, n: nat)
    requires w > 0 && x < Mul(n, w)
    ensures x / w < n
  {
    RowSplit(x, w);
    if x / w >= n {
      MulMonoLeft(n, x / w, w);
    }
  }

  /** `x / d` on naturals, as a natural: the source's `size_t` division. Naming
      it keeps the solver from re-deriving that a quotient by a product such as
      `2 * mr` is non-negative. */
  function Quot(x: nat, d: nat): (q: nat)
    requires d > 0
    ensures q == x / d
  {
    x / d
  }

  /** A sum of two multiples of `d` is a multiple of `d`. */
  lemma MultipleSum(a: nat, b: nat, d: nat)
    requires d > 0 && a % d == 0 && b % d == 0
    ensures (a + b) % d == 0
  {
    DivModUnique(a, d, a / d, 0);
    DivModUnique(b, d, b / d, 0);
    assert a + b == (a / d + b / d) * d;
    DivModUnique(a + b, d, a / d + b / d, 0);
  }
}
