/** Exact sums over sequences of reals, and lane-wise vector arithmetic.
    A SIMD register of `w` doubles is modelled as a `seq<real>` of `w` lanes. */
module Sums {

  /** Left-to-right sum of a sequence. */
  function Sum(s: seq<real>): real
  {
    if |s| == 0 then 0.0 else Sum(s[..|s| - 1]) + s[|s| - 1]
  }

  /** Sum of `f` over the elements of `s`, left to right. */
  function SumOf<T>(s: seq<T>, f: T -> real): real
  {
    if |s| == 0 then 0.0 else SumOf(s[..|s| - 1], f) + f(s[|s| - 1])
  }

  lemma {:induction false} SumAppend(a: seq<real>, b: seq<real>)
    ensures Sum(a + b) == Sum(a) + Sum(b)
    decreases |b|
  {
    if |b| == 0 {
      assert a + b == a;
    } else {
      assert (a + b)[..|a + b| - 1] == a + b[..|b| - 1];
      SumAppend(a, b[..|b| - 1]);
    }
  }

  /** Extending a prefix by one element adds that element. */
  lemma SumPrefixStep(s: seq<real>, j: nat)
    requires j < |s|
    ensures Sum(s[..j + 1]) == Sum(s[..j]) + s[j]
  {
    assert s[..j + 1][..j] == s[..j];
  }

  /** Splitting a slice `s[lo..hi]` at `mid`. */
  lemma SumSlices(s: seq<real>, lo: nat, mid: nat, hi: nat)
    requires lo <= mid <= hi <= |s|
    ensures Sum(s[lo..hi]) == Sum(s[lo..mid]) + Sum(s[mid..hi])
  {
    assert s[lo..hi] == s[lo..mid] + s[mid..hi];
    SumAppend(s[lo..mid], s[mid..hi]);
  }

  /** Extending the prefix `s[..lo]` to `s[..hi]` adds the slice between. */
  lemma SumPrefixExtend(s: seq<real>, lo: nat, hi: nat)
    requires lo <= hi <= |s|
    ensures Sum(s[..hi]) == Sum(s[..lo]) + Sum(s[lo..hi])
  {
    assert s[..hi] == s[..lo] + s[lo..hi];
    SumAppend(s[..lo], s[lo..hi]);
  }

  lemma {:induction false} SumOfAppend<T>(a: seq<T>, b: seq<T>, f: T -> real)
    ensures SumOf(a + b, f) == SumOf(a, f) + SumOf(b, f)
    decreases |b|
  {
    if |b| == 0 {
      assert a + b == a;
    } else {
      assert (a + b)[..|a + b| - 1] == a + b[..|b| - 1];
      SumOfAppend(a, b[..|b| - 1], f);
    }
  }

  /** Two measures that agree element-wise have the same sum. */
  lemma {:induction false} SumOfCongruent<T, U>(s: seq<T>, t: seq<U>, f: T -> real, g: U -> real)
    requires |s| == |t|
    requires forall i :: 0 <= i < |s| ==> f(s[i]) == g(t[i])
    ensures SumOf(s, f) == SumOf(t, g)
    decreases |s|
  {
    if |s| > 0 {
      SumOfCongruent(s[..|s| - 1], t[..|t| - 1], f, g);
    }
  }

  /** The all-zero register of `w` lanes. */
  function Zeros(w: nat): (v: seq<real>)
    ensures |v| == w && Sum(v) == 0.0
    ensures forall i :: 0 <= i < w ==> v[i] == 0.0
  {
    if w == 0 then [] else
      var v := Zeros(w - 1) + [0.0];
      assert v[..w - 1] == Zeros(w - 1);
      v
  }

  /** Lane-wise addition of two registers of equal width. */
  function VecAdd(x: seq<real>, y: seq<real>): (r: seq<real>)
    requires |x| == |y|
    ensures |r| == |x|
  {
    seq(|x|, i requires 0 <= i < |x| => x[i] + y[i])
  }

  /** Lane-wise addition made total: registers of unequal width are left alone.
      Only registers of equal width ever meet in the kernels. */
  function VecAddT(x: seq<real>, y: seq<real>): seq<real>
  {
    if |x| == |y| then VecAdd(x, y) else x
  }

  /** Lane-wise multiplication of two registers of equal width. */
  function VecMul(x: seq<real>, y: seq<real>): (r: seq<real>)
    requires |x| == |y|
    ensures |r| == |x|
  {
    seq(|x|, i requires 0 <= i < |x| => x[i] * y[i])
  }

  /** The element-wise products `a[i]*b[i]` of the two whole arrays, whose sum is
      the dot product. */
  function Products(a: seq<real>, b: seq<real>): (p: seq<real>)
    requires |a| == |b|
    ensures |p| == |a| && forall i :: 0 <= i < |a| ==> p[i] == a[i] * b[i]
  {
    VecMul(a, b)
  }

  /** The exact dot product. */
  function Dot(a: seq<real>, b: seq<real>): real
    requires |a| == |b|
  {
    Sum(Products(a, b))
  }

  /** Lane-wise addition distributes over the horizontal sum. */
  lemma {:induction false} SumVecAdd(x: seq<real>, y: seq<real>)
    requires |x| == |y|
    ensures Sum(VecAdd(x, y)) == Sum(x) + Sum(y)
    decreases |x|
  {
    if |x| > 0 {
      var n := |x| - 1;
      assert VecAdd(x, y)[..n] == VecAdd(x[..n], y[..n]);
      SumVecAdd(x[..n], y[..n]);
    }
  }

  /** If `acc` totals the prefix `p[..lo]`, adding the next `|acc|` elements of
      `p` lane-wise to it gives a vector that totals the longer prefix. */
  lemma SumVecAddPrefix(acc: seq<real>, p: seq<real>, lo: nat)
    requires lo + |acc| <= |p|
    requires Sum(acc) == Sum(p[..lo])
    ensures Sum(VecAdd(acc, p[lo..lo + |acc|])) == Sum(p[..lo + |acc|])
  {
    SumVecAdd(acc, p[lo..lo + |acc|]);
    SumPrefixExtend(p, lo, lo + |acc|);
  }

  /** Products of slices are slices of products. */
  lemma VecMulSlice(a: seq<real>, b: seq<real>, lo: nat, hi: nat)
    requires |a| == |b| && lo <= hi <= |a|
    ensures VecMul(a[lo..hi], b[lo..hi]) == Products(a, b)[lo..hi]
  {
    var v, p := VecMul(a[lo..hi], b[lo..hi]), Products(a, b)[lo..hi];
    assert |v| == |p|;
    forall i | 0 <= i < |v| ensures v[i] == p[i] {
      assert v[i] == a[lo + i] * b[lo + i];
    }
  }
}
