/** The dot-product kernels emitted by src/dot/dot.py, for a SIMD width `w`
    (4 for AVX, 8 for Xeon Phi) and an unroll factor `u`:
    `dot_product_muladd_unroll{u}`, `dot_product_fma_unroll{u}` and
    `compensated_dot_product_efmuladd_unroll{u}`.

    Each kernel consumes `w*u` elements per trip of its vector loop into `u`
    accumulator registers, folds the registers with the pairwise tree, sums the
    lanes of `vsum0`, and finishes the last `n mod (w*u)` elements in a scalar
    loop. The plain kernels are modelled in exact arithmetic (where `muladd`
    and `fma` coincide); the compensated kernel is modelled with error-free
    transformations whose heads are rounded by an arbitrary `rnd`. */
module DotKernels {
  import opened Sums
  import opened IndexMath
  import opened DoubleDouble
  import opened ReductionTree
  import DDArrays

  /** Which plain kernel: multiply then add, or fused multiply-add. */
  datatype Variant = MulAdd | Fma

  /** The scalar tail step: `sum += (*a++) * (*b++)` or `sum = fma(*a++, *b++, sum)`. */
  function MulAcc(v: Variant, x: real, y: real, acc: real): (r: real)
    ensures r == acc + x * y
  {
    match v
    case MulAdd => acc + x * y
    case Fma => x * y + acc
  }

  /** The measure the reduction tree keeps for a register: the sum of its lanes.
      A function of its own, so that only the tree sees `Sum` as a value. */
  function RegisterSum(x: seq<real>): real
  {
    Sum(x)
  }

  /** The same measure for a double-double register: the exact total of its lanes. */
  function RegisterSumDD(x: seq<DD>): real
  {
    LaneTotal(x)
  }

  /** The `u` registers of `w` lanes held in the flat lane vector `acc`:
      register `i` is `acc[i*w .. i*w + w]`. */
  function Registers<T>(acc: seq<T>, u: nat, w: nat): (r: seq<seq<T>>)
    requires |acc| == Mul(u, w)
    ensures |r| == u && forall i :: 0 <= i < u ==> |r[i]| == w
    decreases u
  {
    if u == 0 then []
    else Registers(acc[..Mul(u - 1, w)], u - 1, w) + [acc[Mul(u - 1, w)..]]
  }

  /** Lane `j` of register `i` is element `i*w + j` of the lane vector. */
  lemma {:induction false} RegisterLane<T>(acc: seq<T>, u: nat, w: nat, i: nat, j: nat)
    requires |acc| == Mul(u, w) && i < u && j < w
    ensures Mul(i, w) + j < |acc|
    ensures Registers(acc, u, w)[i][j] == acc[Mul(i, w) + j]
    decreases u
  {
    SlotBound(i, u, w);
    if i < u - 1 {
      SlotBound(i, u - 1, w);
      RegisterLane(acc[..Mul(u - 1, w)], u - 1, w, i, j);
    }
  }

  /** The registers together hold every lane once. */
  lemma {:induction false} RegistersTotal(acc: seq<real>, u: nat, w: nat)
    requires |acc| == Mul(u, w)
    ensures SumOf(Registers(acc, u, w), RegisterSum) == Sum(acc)
    decreases u
  {
    if u > 0 {
      var m := Mul(u - 1, w);
      RegistersTotal(acc[..m], u - 1, w);
      assert acc == acc[..m] + acc[m..];
      SumAppend(acc[..m], acc[m..]);
    }
  }

  /** The same for double-double registers, measured by their lane totals. */
  lemma {:induction false} RegistersTotalDD(acc: seq<DD>, u: nat, w: nat)
    requires |acc| == Mul(u, w)
    ensures SumOf(Registers(acc, u, w), RegisterSumDD) == LaneTotal(acc)
    decreases u
  {
    if u > 0 {
      var m := Mul(u - 1, w);
      RegistersTotalDD(acc[..m], u - 1, w);
      assert Values(acc) == Values(acc[..m]) + Values(acc[m..]);
      SumAppend(Values(acc[..m]), Values(acc[m..]));
    }
  }

  /** One trip of the vector loop: register `i` loads `a + pos + i*w` and
      `b + pos + i*w`, so lane `l` of the lane vector gains `a[pos+l]*b[pos+l]`. */
  function VectorTrip(v: Variant, acc: seq<real>, a: seq<real>, b: seq<real>, pos: nat): (r: seq<real>)
    requires |a| == |b| && pos + |acc| <= |a|
    ensures |r| == |acc|
  {
    seq(|acc|, l requires 0 <= l < |acc| => MulAcc(v, a[pos + l], b[pos + l], acc[l]))
  }

  lemma TripLane(v: Variant, acc: seq<real>, a: seq<real>, b: seq<real>, pos: nat, l: nat)
    requires |a| == |b| && pos + |acc| <= |a| && l < |acc|
    ensures VectorTrip(v, acc, a, b, pos)[l] == acc[l] + Products(a, b)[pos + l]
  {
  }

  /** What lane `off` of the lane vector holds after `blocks` trips: the
      products at `k*stride + off` for `k < blocks`. */
  function LaneSum(p: seq<real>, stride: nat, off: nat, blocks: nat): real
    requires off < stride && Mul(blocks, stride) <= |p|
  {
    if blocks == 0 then 0.0
    else LaneSum(p, stride, off, blocks - 1) + p[Mul(blocks - 1, stride) + off]
  }

  /** A trip adds the next `|acc|` products to the lanes. */
  lemma TripIsVecAdd(v: Variant, acc: seq<real>, a: seq<real>, b: seq<real>, pos: nat)
    requires |a| == |b| && pos + |acc| <= |a|
    ensures VectorTrip(v, acc, a, b, pos) == VecAdd(acc, Products(a, b)[pos..pos + |acc|])
  {
    var t := VectorTrip(v, acc, a, b, pos);
    var s := VecAdd(acc, Products(a, b)[pos..pos + |acc|]);
    forall l | 0 <= l < |acc| ensures t[l] == s[l] {
      TripLane(v, acc, a, b, pos, l);
    }
  }

  /** A trip extends the consumed prefix by `|acc|` products. */
  lemma TotalStep(v: Variant, acc: seq<real>, a: seq<real>, b: seq<real>, pos: nat)
    requires |a| == |b| && pos + |acc| <= |a|
    requires Sum(acc) == Sum(Products(a, b)[..pos])
    ensures Sum(VectorTrip(v, acc, a, b, pos)) == Sum(Products(a, b)[..pos + |acc|])
  {
    TripIsVecAdd(v, acc, a, b, pos);
    SumVecAddPrefix(acc, Products(a, b), pos);
  }

  /** A trip extends every lane by one more block. */
  lemma LanesStep(v: Variant, acc: seq<real>, a: seq<real>, b: seq<real>, pos: nat, blocks: nat)
    requires |a| == |b| && pos + |acc| <= |a| && pos == Mul(blocks, |acc|)
    requires forall l :: 0 <= l < |acc| ==> acc[l] == LaneSum(Products(a, b), |acc|, l, blocks)
    ensures forall l :: 0 <= l < |acc| ==>
      VectorTrip(v, acc, a, b, pos)[l] == LaneSum(Products(a, b), |acc|, l, blocks + 1)
  {
    forall l | 0 <= l < |acc|
      ensures VectorTrip(v, acc, a, b, pos)[l] == LaneSum(Products(a, b), |acc|, l, blocks + 1)
    {
      TripLane(v, acc, a, b, pos, l);
    }
  }

  /** The body of the vector loop: every lane gains one more block and the
      lanes' total one more stretch of products. */
  method Trip(v: Variant, acc: seq<real>, a: seq<real>, b: seq<real>, pos: nat, next: nat,
              ghost p: seq<real>, ghost stride: nat, ghost blocks: nat) returns (r: seq<real>)
    requires |a| == |b| && p == Products(a, b)
    requires |acc| == stride && next == pos + stride && next <= |a| && pos == Mul(blocks, stride)
    requires forall l :: 0 <= l < stride ==> acc[l] == LaneSum(p, stride, l, blocks)
    requires Sum(acc) == Sum(p[..pos])
    ensures |r| == stride
    ensures forall l :: 0 <= l < stride ==> r[l] == LaneSum(p, stride, l, blocks + 1)
    ensures Sum(r) == Sum(p[..next])
  {
    TotalStep(v, acc, a, b, pos);
    LanesStep(v, acc, a, b, pos, blocks);
    r := VectorTrip(v, acc, a, b, pos);
  }

  /** The vector loop `for (; n >= w*u; n -= w*u) { ... a += w*u; b += w*u; }`:
      it stops with fewer than `w*u` elements left; lane `l` (lane `l mod w` of
      register `l / w`) holds the products at the positions congruent to `l`
      modulo `w*u`; together the lanes hold the sum of the products consumed. */
  method VectorPhase(v: Variant, w: nat, u: nat, a: seq<real>, b: seq<real>)
    returns (acc: seq<real>, pos: nat, blocks: nat)
    requires w > 0 && u > 0 && |a| == |b|
    ensures pos == Mul(blocks, Mul(u, w)) && pos <= |a| && |a| - pos < Mul(u, w)
    ensures |acc| == Mul(u, w)
    ensures forall l :: 0 <= l < |acc| ==> acc[l] == LaneSum(Products(a, b), Mul(u, w), l, blocks)
    ensures Sum(acc) == Sum(Products(a, b)[..pos])
  {
    var stride := Mul(u, w);
    SlotBound(0, u, w);
    ghost var p := Products(a, b);
    acc := Zeros(stride);
    pos := 0;
    blocks := 0;
    var n: nat := |a|;
    while n >= stride
      invariant pos + n == |a| && pos == Mul(blocks, stride) && |acc| == stride
      invariant forall l :: 0 <= l < stride ==> acc[l] == LaneSum(p, stride, l, blocks)
      invariant Sum(acc) == Sum(p[..pos])
    {
      var next := pos + stride;
      acc := Trip(v, acc, a, b, pos, next, p, stride, blocks);
      n := n - stride;
      pos := next;
      blocks := blocks + 1;
    }
  }

  /** The register addition used by the tree adds lane totals. */
  lemma VecAddAdditive(w: nat)
    ensures Additive(VecAddT, RegisterSum, (x: seq<real>) => |x| == w)
  {
    forall x: seq<real>, y: seq<real> | |x| == w && |y| == w
      ensures |VecAddT(x, y)| == w && Sum(VecAddT(x, y)) == Sum(x) + Sum(y)
    {
      SumVecAdd(x, y);
    }
  }

  /** The element counts of the two phases: `n / (w*u)` vector trips and
      `n mod (w*u)` scalar ones. */
  lemma PhaseCounts(len: nat, w: nat, u: nat, blocks: nat, tail: nat)
    requires w > 0 && u > 0 && tail < Mul(u, w) && len == Mul(blocks, Mul(u, w)) + tail
    ensures blocks == len / (w * u) && tail == len % (w * u)
  {
    MulIsTimes(u, w);
    DivModMul(len, Mul(u, w), blocks, tail);
  }

  /** The end of the vector phase: the tree folds the `u` registers into
      `vsum0` and the horizontal sum adds its lanes; every lane is counted once. */
  method ReduceRegisters(lanes: seq<real>, u: nat, w: nat) returns (sum: real)
    requires w == 4 || w == 8
    requires u >= 1 && |lanes| == Mul(u, w)
    ensures sum == Sum(lanes)
  {
    var vsum := Registers(lanes, u, w);
    RegistersTotal(lanes, u, w);
    VecAddAdditive(w);
    var reduced, pairs := ReduceAccumulators(vsum, VecAddT, RegisterSum, (x: seq<real>) => |x| == w);
    sum := HorizontalSum(reduced[0]);
  }

  /** One trip of the scalar tail extends the consumed prefix by one product. */
  lemma TailStep(v: Variant, sum: real, a: seq<real>, b: seq<real>, pos: nat)
    requires |a| == |b| && pos < |a| && sum == Sum(Products(a, b)[..pos])
    ensures MulAcc(v, a[pos], b[pos], sum) == Sum(Products(a, b)[..pos + 1])
  {
    SumPrefixStep(Products(a, b), pos);
  }

  /** The scalar tail `while (n--) sum += (*a++) * (*b++);` (or its `fma`
      form) from element `pos` on. */
  method ScalarTail(v: Variant, sum0: real, a: seq<real>, b: seq<real>, pos0: nat) returns (sum: real, trips: nat)
    requires |a| == |b| && pos0 <= |a|
    requires sum0 == Sum(Products(a, b)[..pos0])
    ensures sum == Dot(a, b) && trips == |a| - pos0
  {
    ghost var p := Products(a, b);
    sum := sum0;
    var pos := pos0;
    var n: nat := |a| - pos;
    trips := 0;
    while n != 0
      invariant pos + n == |a| && pos == pos0 + trips
      invariant sum == Sum(p[..pos])
    {
      TailStep(v, sum, a, b, pos);
      n := n - 1;
      sum := MulAcc(v, a[pos], b[pos], sum);
      pos := pos + 1;
      trips := trips + 1;
    }
    assert p[..pos] == p;
  }

  /** `dot_product_{muladd,fma}_unroll{u}`: in exact arithmetic both return the
      dot product, for every length (only the scalar tail runs when `n < w*u`,
      and nothing runs when `n = 0`). The vector loop makes `n / (w*u)` trips
      and the tail `n mod (w*u)`. */
  method DotProduct(v: Variant, w: nat, u: nat, a: seq<real>, b: seq<real>)
    returns (sum: real, blocks: nat, tail: nat)
    requires w == 4 || w == 8
    requires u >= 1
    requires |a| == |b|
    ensures blocks == |a| / (w * u) && tail == |a| % (w * u)
    ensures sum == Dot(a, b)
  {
    var lanes, pos;
    lanes, pos, blocks := VectorPhase(v, w, u, a, b);
    sum := ReduceRegisters(lanes, u, w);
    sum, tail := ScalarTail(v, sum, a, b, pos);
    PhaseCounts(|a|, w, u, blocks, tail);
  }

  /** One compensated multiply-accumulate, as in the scalar tail:
      `product = efmul(a, b, &product_error)`,
      `sum.hi = efadd(sum.hi, product, &sum_error)`,
      `sum.lo += sum_error + product_error`.
      Under the error-free contract, `hi + lo` grows by exactly `x*y`. */
  function CompensatedStep(rnd: Rounding, acc: DD, x: real, y: real): (r: DD)
    ensures Value(r) == Value(acc) + x * y
  {
    var product := EfMul(rnd, x, y);
    var s := EfAdd(rnd, acc.hi, product.hi);
    DD(s.hi, acc.lo + (s.lo + product.lo))
  }

  /** The compensated scalar tail extends the consumed prefix by one product. */
  lemma TailStepDD(rnd: Rounding, sum: DD, a: seq<real>, b: seq<real>, pos: nat)
    requires |a| == |b| && pos < |a| && Value(sum) == Sum(Products(a, b)[..pos])
    ensures Value(CompensatedStep(rnd, sum, a[pos], b[pos])) == Sum(Products(a, b)[..pos + 1])
  {
    SumPrefixStep(Products(a, b), pos);
  }

  /** One trip of the compensated vector loop: the same step on every lane. */
  function VectorTripDD(rnd: Rounding, acc: seq<DD>, a: seq<real>, b: seq<real>, pos: nat): (r: seq<DD>)
    requires |a| == |b| && pos + |acc| <= |a|
    ensures |r| == |acc|
  {
    seq(|acc|, l requires 0 <= l < |acc| => CompensatedStep(rnd, acc[l], a[pos + l], b[pos + l]))
  }

  lemma TripLaneDD(rnd: Rounding, acc: seq<DD>, a: seq<real>, b: seq<real>, pos: nat, l: nat)
    requires |a| == |b| && pos + |acc| <= |a| && l < |acc|
    ensures Value(VectorTripDD(rnd, acc, a, b, pos)[l]) == Value(acc[l]) + Products(a, b)[pos + l]
  {
  }

  /** In value terms a compensated trip adds the next `|acc|` products to the lanes. */
  lemma TripDDIsVecAdd(rnd: Rounding, acc: seq<DD>, a: seq<real>, b: seq<real>, pos: nat)
    requires |a| == |b| && pos + |acc| <= |a|
    ensures Values(VectorTripDD(rnd, acc, a, b, pos))
         == VecAdd(Values(acc), Products(a, b)[pos..pos + |Values(acc)|])
  {
    var l := Values(VectorTripDD(rnd, acc, a, b, pos));
    var r := VecAdd(Values(acc), Products(a, b)[pos..pos + |acc|]);
    forall k | 0 <= k < |acc| ensures l[k] == r[k] {
      TripLaneDD(rnd, acc, a, b, pos, k);
    }
  }

  /** Lanes `r` holding the values of `acc` plus the next `|acc|` products total
      the longer prefix. */
  lemma TripDDTotal(acc: seq<DD>, r: seq<DD>, p: seq<real>, pos: nat)
    requires pos + |acc| <= |p|
    requires Values(r) == VecAdd(Values(acc), p[pos..pos + |Values(acc)|])
    requires LaneTotal(acc) == Sum(p[..pos])
    ensures LaneTotal(r) == Sum(p[..pos + |acc|])
  {
    SumVecAddPrefix(Values(acc), p, pos);
  }

  /** A compensated trip extends the consumed prefix by `|acc|` products. */
  lemma TotalStepDD(rnd: Rounding, acc: seq<DD>, a: seq<real>, b: seq<real>, pos: nat)
    requires |a| == |b| && pos + |acc| <= |a|
    requires LaneTotal(acc) == Sum(Products(a, b)[..pos])
    ensures LaneTotal(VectorTripDD(rnd, acc, a, b, pos)) == Sum(Products(a, b)[..pos + |acc|])
  {
    TripDDIsVecAdd(rnd, acc, a, b, pos);
    TripDDTotal(acc, VectorTripDD(rnd, acc, a, b, pos), Products(a, b), pos);
  }

  lemma LanesStepDD(rnd: Rounding, acc: seq<DD>, a: seq<real>, b: seq<real>, pos: nat, blocks: nat)
    requires |a| == |b| && pos + |acc| <= |a| && pos == Mul(blocks, |acc|)
    requires forall l :: 0 <= l < |acc| ==> Value(acc[l]) == LaneSum(Products(a, b), |acc|, l, blocks)
    ensures forall l :: 0 <= l < |acc| ==>
      Value(VectorTripDD(rnd, acc, a, b, pos)[l]) == LaneSum(Products(a, b), |acc|, l, blocks + 1)
  {
    forall l | 0 <= l < |acc|
      ensures Value(VectorTripDD(rnd, acc, a, b, pos)[l]) == LaneSum(Products(a, b), |acc|, l, blocks + 1)
    {
      TripLaneDD(rnd, acc, a, b, pos, l);
    }
  }

  /** The body of the compensated vector loop. */
  method TripDD(rnd: Rounding, acc: seq<DD>, a: seq<real>, b: seq<real>, pos: nat, next: nat,
                ghost p: seq<real>, ghost stride: nat, ghost blocks: nat) returns (r: seq<DD>)
    requires |a| == |b| && p == Products(a, b)
    requires |acc| == stride && next == pos + stride && next <= |a| && pos == Mul(blocks, stride)
    requires forall l :: 0 <= l < stride ==> Value(acc[l]) == LaneSum(p, stride, l, blocks)
    requires LaneTotal(acc) == Sum(p[..pos])
    ensures |r| == stride
    ensures forall l :: 0 <= l < stride ==> Value(r[l]) == LaneSum(p, stride, l, blocks + 1)
    ensures LaneTotal(r) == Sum(p[..next])
  {
    TotalStepDD(rnd, acc, a, b, pos);
    LanesStepDD(rnd, acc, a, b, pos, blocks);
    r := VectorTripDD(rnd, acc, a, b, pos);
  }

  /** The vector loop of the compensated kernel: the lane values evolve as in
      `VectorPhase`. */
  method VectorPhaseDD(rnd: Rounding, w: nat, u: nat, a: seq<real>, b: seq<real>)
    returns (acc: seq<DD>, pos: nat, blocks: nat)
    requires w > 0 && u > 0 && |a| == |b|
    ensures pos == Mul(blocks, Mul(u, w)) && pos <= |a| && |a| - pos < Mul(u, w)
    ensures |acc| == Mul(u, w)
    ensures forall l :: 0 <= l < |acc| ==> Value(acc[l]) == LaneSum(Products(a, b), Mul(u, w), l, blocks)
    ensures LaneTotal(acc) == Sum(Products(a, b)[..pos])
  {
    var stride := Mul(u, w);
    SlotBound(0, u, w);
    ghost var p := Products(a, b);
    acc := DDZeros(stride);
    pos := 0;
    blocks := 0;
    var n: nat := |a|;
    while n >= stride
      invariant pos + n == |a| && pos == Mul(blocks, stride) && |acc| == stride
      invariant forall l :: 0 <= l < stride ==> Value(acc[l]) == LaneSum(p, stride, l, blocks)
      invariant LaneTotal(acc) == Sum(p[..pos])
    {
      var next := pos + stride;
      acc := TripDD(rnd, acc, a, b, pos, next, p, stride, blocks);
      n := n - stride;
      pos := next;
      blocks := blocks + 1;
    }
  }

  /** The register `ddadd` used by the tree adds lane totals. */
  lemma DDVecAddAdditive(rnd: Rounding, w: nat)
    ensures Additive((x: seq<DD>, y: seq<DD>) => DDVecAddT(rnd, x, y), RegisterSumDD, (x: seq<DD>) => |x| == w)
  {
    forall x: seq<DD>, y: seq<DD> | |x| == w && |y| == w
      ensures |DDVecAddT(rnd, x, y)| == w && LaneTotal(DDVecAddT(rnd, x, y)) == LaneTotal(x) + LaneTotal(y)
    {
      LaneTotalAdd(rnd, x, y);
    }
  }

  /** The end of the compensated vector phase: the tree of register `ddadd`s,
      then the horizontal double-double sum of `vsum0`, modelled as a `ddadd`
      over its lanes (its body is not part of this model). */
  method ReduceRegistersDD(rnd: Rounding, lanes: seq<DD>, u: nat, w: nat) returns (sum: DD)
    requires w == 4 || w == 8
    requires u >= 1 && |lanes| == Mul(u, w)
    ensures Value(sum) == LaneTotal(lanes)
  {
    var vsum := Registers(lanes, u, w);
    RegistersTotalDD(lanes, u, w);
    DDVecAddAdditive(rnd, w);
    var reduced, pairs := ReduceAccumulators(vsum, (x: seq<DD>, y: seq<DD>) => DDVecAddT(rnd, x, y),
      RegisterSumDD, (x: seq<DD>) => |x| == w);
    sum := DDArrays.AddFold(rnd, Zero, reduced[0]);
    DDArrays.AddFoldValue(rnd, Zero, reduced[0]);
  }

  /** The compensated scalar tail `while (n--) { ... }` from element `pos` on. */
  method ScalarTailDD(rnd: Rounding, sum0: DD, a: seq<real>, b: seq<real>, pos0: nat) returns (sum: DD, trips: nat)
    requires |a| == |b| && pos0 <= |a|
    requires Value(sum0) == Sum(Products(a, b)[..pos0])
    ensures Value(sum) == Dot(a, b) && trips == |a| - pos0
  {
    ghost var p := Products(a, b);
    sum := sum0;
    var pos := pos0;
    var n: nat := |a| - pos;
    trips := 0;
    while n != 0
      invariant pos + n == |a| && pos == pos0 + trips
      invariant Value(sum) == Sum(p[..pos])
    {
      TailStepDD(rnd, sum, a, b, pos);
      n := n - 1;
      sum := CompensatedStep(rnd, sum, a[pos], b[pos]);
      pos := pos + 1;
      trips := trips + 1;
    }
    assert p[..pos] == p;
  }

  /** `compensated_dot_product_efmuladd_unroll{u}`: under the error-free
      contract the returned `hi + lo` is exactly the dot product, and the final
      `efaddord` normalisation leaves a head equal to the rounded value. The
      vector loop makes `n / (w*u)` trips and the tail `n mod (w*u)`. */
  method CompensatedDotProduct(rnd: Rounding, w: nat, u: nat, a: seq<real>, b: seq<real>)
    returns (sum: DD, blocks: nat, tail: nat)
    requires w == 4 || w == 8
    requires u >= 1
    requires |a| == |b|
    ensures blocks == |a| / (w * u) && tail == |a| % (w * u)
    ensures Value(sum) == Dot(a, b)
    ensures sum.hi == rnd(Dot(a, b))
  {
    var lanes, pos;
    lanes, pos, blocks := VectorPhaseDD(rnd, w, u, a, b);
    sum := ReduceRegistersDD(rnd, lanes, u, w);
    sum, tail := ScalarTailDD(rnd, sum, a, b, pos);
    PhaseCounts(|a|, w, u, blocks, tail);
    sum := EfAddOrd(rnd, sum.hi, sum.lo);
  }
}
