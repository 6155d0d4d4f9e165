/** Error-free transformations and double-double values, in exact arithmetic.

    A double is modelled as a `real`. An error-free transformation returns a head
    chosen by an arbitrary rounding function `rnd` (standing in for IEEE
    round-to-nearest, which is not modelled) and a tail equal to the exact
    residual, so head + tail is the exact result whatever `rnd` does. The
    double-double operations `ddadd`/`ddmul` are modelled by the only property the
    kernels rely on: the value of the result is the exact sum/product of the values
    of the operands, stored as a rounded head plus an exact tail. */
module DoubleDouble {
  import opened Sums

  /** An unevaluated sum `hi + lo` of two doubles (`doubledouble` in the source). */
  datatype DD = DD(hi: real, lo: real)

  /** The number a double-double stands for. */
  function Value(x: DD): real
  {
    x.hi + x.lo
  }

  /** Rounding of an exact result to the head double. */
  type Rounding = real -> real

  /** `{ 0.0, 0.0 }`. */
  const Zero: DD := DD(0.0, 0.0)

  /** `{ 1.0, 0.0 }`. */
  const One: DD := DD(1.0, 0.0)

  /** `efadd(a, b, &e)`: two-sum; the head is the rounded sum, the tail its error. */
  function EfAdd(rnd: Rounding, a: real, b: real): (r: DD)
    ensures r.hi == rnd(a + b)
    ensures Value(r) == a + b
  {
    DD(rnd(a + b), (a + b) - rnd(a + b))
  }

  /** `efaddord(a, b, &e)`: the fast two-sum. With its magnitude precondition
      `|a| >= |b|` it computes what `efadd` does; the precondition is not
      modelled, so here it is `efadd`. */
  function EfAddOrd(rnd: Rounding, a: real, b: real): (r: DD)
    ensures r.hi == rnd(a + b)
    ensures Value(r) == a + b
  {
    EfAdd(rnd, a, b)
  }

  /** `efmul(a, b, &e)`: two-product. */
  function EfMul(rnd: Rounding, a: real, b: real): (r: DD)
    ensures r.hi == rnd(a * b)
    ensures Value(r) == a * b
  {
    DD(rnd(a * b), a * b - rnd(a * b))
  }

  /** A double-double holding exactly `v`, with a rounded head. */
  function Normalize(rnd: Rounding, v: real): (r: DD)
    ensures Value(r) == v
  {
    DD(rnd(v), v - rnd(v))
  }

  /** `ddadd(a, b)`: double-double addition. */
  function DDAdd(rnd: Rounding, x: DD, y: DD): (r: DD)
    ensures Value(r) == Value(x) + Value(y)
  {
    Normalize(rnd, Value(x) + Value(y))
  }

  /** `ddmul(a, b)`: double-double multiplication. */
  function DDMul(rnd: Rounding, x: DD, y: DD): (r: DD)
    ensures Value(r) == Value(x) * Value(y)
  {
    Normalize(rnd, Value(x) * Value(y))
  }

  /** The lane values of a double-double register. */
  function Values(v: seq<DD>): (r: seq<real>)
    ensures |r| == |v|
  {
    seq(|v|, i requires 0 <= i < |v| => Value(v[i]))
  }

  /** The sum of all lanes of a double-double register. */
  function LaneTotal(v: seq<DD>): real
  {
    Sum(Values(v))
  }

  /** The all-zero double-double register (`_mm256_setzero_pdd()`). */
  function DDZeros(w: nat): (v: seq<DD>)
    ensures |v| == w
    ensures Values(v) == Zeros(w)
  {
    seq(w, _ => Zero)
  }

  /** Lane-wise `ddadd` on registers (`_mm256_add_pdd`). */
  function DDVecAdd(rnd: Rounding, x: seq<DD>, y: seq<DD>): (r: seq<DD>)
    requires |x| == |y|
    ensures |r| == |x|
    ensures Values(r) == VecAdd(Values(x), Values(y))
  {
    seq(|x|, i requires 0 <= i < |x| => DDAdd(rnd, x[i], y[i]))
  }

  /** `DDVecAdd` made total: registers of unequal width are left alone. */
  function DDVecAddT(rnd: Rounding, x: seq<DD>, y: seq<DD>): seq<DD>
  {
    if |x| == |y| then DDVecAdd(rnd, x, y) else x
  }

  /** Adding registers adds their lane totals. */
  lemma LaneTotalAdd(rnd: Rounding, x: seq<DD>, y: seq<DD>)
    requires |x| == |y|
    ensures LaneTotal(DDVecAdd(rnd, x, y)) == LaneTotal(x) + LaneTotal(y)
  {
    SumVecAdd(Values(x), Values(y));
  }
}
