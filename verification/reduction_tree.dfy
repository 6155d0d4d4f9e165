/** The end-of-loop reductions of the generated dot-product kernels
    (src/dot/dot.py): the pairwise tree that folds the `U` unrolled accumulators
    into `vsum0`, and the horizontal sum of one AVX register. */
module ReductionTree {
  import opened Sums
  import opened IndexMath

  function Min(a: int, b: int): int
  {
    if a <= b then a else b
  }

  lemma ModOfMultiple(q: nat, d: nat, t: nat)
    requires d > 0 && q % d == 0
    ensures (q + t * d) % d == 0
  {
    DivModUnique(q, d, q / d, 0);
    DivModUnique(q + t * d, d, q / d + t, 0);
  }

  /** Two multiples of `d` less than `d` apart are equal. */
  lemma MultipleInWindow(q: nat, i: nat, d: nat)
    requires d > 0 && q % d == 0 && i % d == 0 && i <= q < i + d
    ensures q == i
  {
    DivModUnique(i, d, i / d, 0);
    DivModUnique(q, d, i / d, q - i);
  }

  lemma ModHalf(q: nat, off: nat)
    requires off > 0 && q % (2 * off) == 0
    ensures q % off == 0
  {
    DivModUnique(q, 2 * off, q / (2 * off), 0);
    DivModUnique(q, off, 2 * (q / (2 * off)), 0);
  }

  /** The offsets of the tree's rounds: 1, 2, 4, ... */
  predicate PowerOfTwo(d: nat)
  {
    d == 1 || (d > 1 && d % 2 == 0 && PowerOfTwo(d / 2))
  }

  /** After the round with offset `off`, every accumulator whose index is a
      multiple of `off` measures the sum of the `off` original accumulators
      starting at it (fewer at the end). */
  ghost predicate Reduced<T>(acc: seq<T>, r: seq<T>, off: nat, val: T -> real, wf: T -> bool)
    requires off > 0 && |r| == |acc|
  {
    forall q :: 0 <= q < |acc| && q % off == 0 ==>
      wf(r[q]) && val(r[q]) == SumOf(acc[q..Min(q + off, |acc|)], val)
  }

  ghost predicate Additive<T(!new)>(add: (T, T) -> T, val: T -> real, wf: T -> bool)
  {
    forall x, y :: wf(x) && wf(y) ==> wf(add(x, y)) && val(add(x, y)) == val(x) + val(y)
  }

  /** Within a round: the heads below `i` (multiples of `2*off`) are combined... */
  ghost predicate Combined<T>(acc: seq<T>, r: seq<T>, i: nat, off: nat, val: T -> real, wf: T -> bool)
    requires off > 0 && |r| == |acc|
  {
    forall q :: 0 <= q < i && q < |acc| && q % (2 * off) == 0 ==>
      wf(r[q]) && val(r[q]) == SumOf(acc[q..Min(q + 2 * off, |acc|)], val)
  }

  /** ... and the heads from `i` on (multiples of `off`) are as the previous round left them. */
  ghost predicate Pending<T>(acc: seq<T>, r: seq<T>, i: nat, off: nat, val: T -> real, wf: T -> bool)
    requires off > 0 && |r| == |acc|
  {
    forall q :: i <= q < |acc| && q % off == 0 ==>
      wf(r[q]) && val(r[q]) == SumOf(acc[q..Min(q + off, |acc|)], val)
  }

  /** One emitted statement `vsum{i} = add(vsum{i}, vsum{i+off})` moves the
      boundary between combined and pending heads by `2*off`. */
  lemma RoundStep<T(!new)>(acc: seq<T>, r: seq<T>, i: nat, off: nat, add: (T, T) -> T, val: T -> real, wf: T -> bool)
    requires off > 0 && |r| == |acc| && i % (2 * off) == 0 && i + off < |acc|
    requires Additive(add, val, wf)
    requires Combined(acc, r, i, off, val, wf) && Pending(acc, r, i, off, val, wf)
    ensures Combined(acc, r[i := add(r[i], r[i + off])], i + 2 * off, off, val, wf)
    ensures Pending(acc, r[i := add(r[i], r[i + off])], i + 2 * off, off, val, wf)
  {
    var u := |acc|;
    var c := add(r[i], r[i + off]);
    assert wf(c) && val(c) == SumOf(acc[i..Min(i + 2 * off, u)], val) by {
      ModHalf(i, off);
      ModOfMultiple(i, off, 1);
      assert Min(i + off, u) == i + off;
      CombineStep(acc, i, off, val);
    }
    CombinedStep(acc, r, i, off, c, val, wf);
    var r' := r[i := c];
    forall q | i + 2 * off <= q < u && q % off == 0
      ensures wf(r'[q]) && val(r'[q]) == SumOf(acc[q..Min(q + off, u)], val)
    {
      assert r'[q] == r[q];
    }
  }

  lemma CombinedStep<T>(acc: seq<T>, r: seq<T>, i: nat, off: nat, c: T, val: T -> real, wf: T -> bool)
    requires off > 0 && |r| == |acc| && i % (2 * off) == 0 && i < |acc|
    requires Combined(acc, r, i, off, val, wf)
    requires wf(c) && val(c) == SumOf(acc[i..Min(i + 2 * off, |acc|)], val)
    ensures Combined(acc, r[i := c], i + 2 * off, off, val, wf)
  {
    var u := |acc|;
    var step := 2 * off;
    var r' := r[i := c];
    forall q | 0 <= q < i + step && q < u && q % step == 0
      ensures wf(r'[q]) && val(r'[q]) == SumOf(acc[q..Min(q + step, u)], val)
    {
      if q >= i {
        MultipleInWindow(q, i, step);
      }
    }
  }

  /** The pairs a round has emitted before reaching `i`: the `j`-th is
      `(2*off*j, 2*off*j + off)`, inside the `u` accumulators. */
  ghost predicate RoundPairs(pairs: seq<(nat, nat)>, i: nat, off: nat, u: nat)
    requires off > 0
  {
    && i % (2 * off) == 0 && i == Mul(|pairs|, 2 * off)
    && (forall p :: p in pairs ==> p.1 == p.0 + off && p.0 % (2 * off) == 0 && p.1 < u)
    && (forall j :: 0 <= j < |pairs| ==> pairs[j].0 == Mul(j, 2 * off))
  }

  /** One generated round: `for i in range(0, U - off, 2*off): vsum{i} += vsum{i+off}`. */
  method ReduceRound<T(!new)>(acc: seq<T>, r0: seq<T>, off: nat, add: (T, T) -> T, ghost val: T -> real, ghost wf: T -> bool)
    returns (r: seq<T>, pairs: seq<(nat, nat)>)
    requires off > 0 && |r0| == |acc|
    requires Additive(add, val, wf)
    requires Reduced(acc, r0, off, val, wf)
    ensures |r| == |acc|
    ensures Reduced(acc, r, 2 * off, val, wf)
    ensures forall p :: p in pairs ==> p.1 == p.0 + off && p.0 % (2 * off) == 0 && p.1 < |acc|
    ensures forall j :: 0 <= j < |pairs| ==> pairs[j].0 == Mul(j, 2 * off)
    ensures Mul(|pairs|, 2 * off) + off >= |acc|
  {
    var u := |acc|;
    r := r0;
    pairs := [];
    var i := 0;
    while i < u - off
      invariant |r| == u && RoundPairs(pairs, i, off, u)
      invariant Combined(acc, r, i, off, val, wf) && Pending(acc, r, i, off, val, wf)
      decreases u - i
    {
      RoundStep(acc, r, i, off, add, val, wf);
      PairsStep(pairs, i, off, u);
      r := r[i := add(r[i], r[i + off])];
      pairs := pairs + [(i, i + off)];
      i := i + 2 * off;
    }
    RoundEnd(acc, r, i, off, val, wf);
  }

  /** Emitting `(i, i + off)` keeps the round's pairs in the shape of
      `range(0, U - off, 2*off)`. */
  lemma PairsStep(pairs: seq<(nat, nat)>, i: nat, off: nat, u: nat)
    requires off > 0 && i + off < u && RoundPairs(pairs, i, off, u)
    ensures RoundPairs(pairs + [(i, i + off)], i + 2 * off, off, u)
  {
    ModOfMultiple(i, 2 * off, 1);
  }

  /** When the round stops (`i + off >= U`), every head of the next round is combined. */
  lemma RoundEnd<T>(acc: seq<T>, r: seq<T>, i: nat, off: nat, val: T -> real, wf: T -> bool)
    requires off > 0 && |r| == |acc| && i + off >= |acc|
    requires Combined(acc, r, i, off, val, wf) && Pending(acc, r, i, off, val, wf)
    ensures Reduced(acc, r, 2 * off, val, wf)
  {
    var u := |acc|;
    forall q | 0 <= q < u && q % (2 * off) == 0
      ensures wf(r[q]) && val(r[q]) == SumOf(acc[q..Min(q + 2 * off, u)], val)
    {
      if q >= i {
        ModHalf(q, off);
        assert Min(q + off, u) == u == Min(q + 2 * off, u);
      }
    }
  }

  lemma CombineStep<T>(acc: seq<T>, i: nat, off: nat, val: T -> real)
    requires i + off < |acc|
    ensures SumOf(acc[i..Min(i + 2 * off, |acc|)], val)
      == SumOf(acc[i..Min(i + off, |acc|)], val) + SumOf(acc[i + off..Min(i + off + off, |acc|)], val)
  {
    var u := |acc|;
    assert acc[i..Min(i + 2 * off, u)] == acc[i..i + off] + acc[i + off..Min(i + 2 * off, u)];
    SumOfAppend(acc[i..i + off], acc[i + off..Min(i + 2 * off, u)], val);
  }

  /** The pairwise tree as generated:

        reduction_offset = 1
        while reduction_offset <= U:
          for i in range(0, U - reduction_offset, 2 * reduction_offset):
            vsum{i} = add(vsum{i}, vsum{i + reduction_offset})
          reduction_offset *= 2

      run on the accumulators `acc`. `pairs` lists the (i, i + offset) pairs in
      the order the statements are emitted: every pair is `(i, i + off)` for
      a power-of-two offset `off` and an `i` that is a multiple of `2*off`. For any additive measure `val` of the
      accumulators (the lane total, or any single lane), `vsum0` ends up measuring
      the sum over all `U` accumulators, each counted once. */
  method ReduceAccumulators<T(!new)>(acc: seq<T>, add: (T, T) -> T, ghost val: T -> real, ghost wf: T -> bool)
    returns (r: seq<T>, pairs: seq<(nat, nat)>)
    requires |acc| >= 1
    requires forall k :: 0 <= k < |acc| ==> wf(acc[k])
    requires Additive(add, val, wf)
    ensures |r| == |acc|
    ensures wf(r[0]) && val(r[0]) == SumOf(acc, val)
    ensures forall p :: p in pairs ==>
      p.0 < p.1 < |acc| && PowerOfTwo(p.1 - p.0) && p.0 % (2 * (p.1 - p.0)) == 0
  {
    var u := |acc|;
    r := acc;
    pairs := [];
    var off := 1;
    forall q | 0 <= q < u && q % off == 0
      ensures wf(r[q]) && val(r[q]) == SumOf(acc[q..Min(q + off, u)], val)
    {
      assert acc[q..q + 1][..0] == [];
    }
    while off <= u
      invariant 1 <= off && PowerOfTwo(off) && |r| == u
      invariant forall p :: p in pairs ==>
        p.0 < p.1 < u && PowerOfTwo(p.1 - p.0) && p.0 % (2 * (p.1 - p.0)) == 0
      invariant Reduced(acc, r, off, val, wf)
      decreases u - off
    {
      var roundPairs;
      r, roundPairs := ReduceRound(acc, r, off, add, val, wf);
      pairs := pairs + roundPairs;
      off := 2 * off;
    }
    DivModUnique(0, off, 0, 0);
    assert acc[0..Min(off, u)] == acc;
  }

  /** `_mm256_reduce_add_pd(x)`: add the high 128-bit half to the low half, then
      add the two remaining lanes: `(x0 + x2) + (x1 + x3)`. */
  function ReduceAddAvx(x: seq<real>): (r: real)
    requires |x| == 4
    ensures r == Sum(x)
  {
    var xLo := x[..2];
    var xHi := x[2..];
    var s := VecAdd(xLo, xHi);
    assert Sum(x) == x[0] + x[1] + x[2] + x[3] by {
      assert x[..3][..2] == x[..2] && x[..2][..1] == x[..1] && x[..1][..0] == [];
      assert Sum(x[..1]) == x[0];
      assert Sum(x[..2]) == x[0] + x[1];
      assert Sum(x[..3]) == x[0] + x[1] + x[2];
    }
    s[0] + s[1]
  }

  /** The horizontal sum of `vsum0`: `_mm256_reduce_add_pd` for AVX (4 lanes);
      for Xeon Phi (8 lanes) the compiler intrinsic `_mm512_reduce_add_pd`,
      whose body is not part of this model and is taken to add all lanes. */
  function HorizontalSum(x: seq<real>): (r: real)
    requires |x| == 4 || |x| == 8
    ensures r == Sum(x)
  {
    if |x| == 4 then ReduceAddAvx(x) else Sum(x)
  }
}
