/** The double-double array loops of the low-level benchmark: the chained sum and
    product (`vsum`, `vprod`) and the element-wise maps by a constant (`vaddc`,
    `vmulc`), in the generic variant and in the Xeon Phi (`__KNC__`) variant.

    A Xeon Phi element is a register of eight double-doubles on which `ddadd` and
    `ddmul` act lane by lane; every lane behaves like the scalar loop, so one
    double-double stands for the register here. */
module DDArrays {
  import opened Sums
  import opened DoubleDouble
  import opened IndexMath

  /** `ELEMENTS_PER_TUPLE` of a Xeon Phi build: a `__m512dd` register holds
      eight double-doubles, and the benchmark passes `repeats / 8` registers. */
  const ElementsPerTuple: nat := 8

  /** Left fold of `ddadd` over `s`, starting from `init`. */
  function AddFold(rnd: Rounding, init: DD, s: seq<DD>): DD
  {
    if |s| == 0 then init else DDAdd(rnd, AddFold(rnd, init, s[..|s| - 1]), s[|s| - 1])
  }

  /** Left fold of `ddmul` over `s`, starting from `init`. */
  function MulFold(rnd: Rounding, init: DD, s: seq<DD>): DD
  {
    if |s| == 0 then init else DDMul(rnd, MulFold(rnd, init, s[..|s| - 1]), s[|s| - 1])
  }

  /** Exact product of a sequence of reals. */
  function Product(s: seq<real>): real
  {
    if |s| == 0 then 1.0 else Product(s[..|s| - 1]) * s[|s| - 1]
  }

  /** The `ddadd` fold computes the exact sum of the values, plus the start value. */
  lemma {:induction false} AddFoldValue(rnd: Rounding, init: DD, s: seq<DD>)
    ensures Value(AddFold(rnd, init, s)) == Value(init) + Sum(Values(s))
    decreases |s|
  {
    if |s| > 0 {
      assert Values(s)[..|s| - 1] == Values(s[..|s| - 1]);
      AddFoldValue(rnd, init, s[..|s| - 1]);
    }
  }

  /** The `ddmul` fold computes the exact product of the values, times the start value. */
  lemma {:induction false} MulFoldValue(rnd: Rounding, init: DD, s: seq<DD>)
    ensures Value(MulFold(rnd, init, s)) == Value(init) * Product(Values(s))
    decreases |s|
  {
    if |s| > 0 {
      assert Values(s)[..|s| - 1] == Values(s[..|s| - 1]);
      MulFoldValue(rnd, init, s[..|s| - 1]);
    }
  }

  /** `vsum`: `sum = {0,0}; do sum = ddadd(sum, *array++); while (--array_elements);`.
      The `do`-`while` reads past the end when started with no elements (the
      count wraps around), so at least one element is required. */
  method VSum(rnd: Rounding, arr: seq<DD>) returns (sum: DD)
    requires |arr| >= 1
    ensures sum == AddFold(rnd, Zero, arr)
    ensures Value(sum) == Sum(Values(arr))
  {
    sum := Zero;
    var elements := |arr|;
    var i := 0;
    while true
      invariant 0 <= i < |arr| && i + elements == |arr| && elements >= 1
      invariant sum == AddFold(rnd, Zero, arr[..i])
      decreases elements
    {
      assert arr[..i + 1][..i] == arr[..i];
      sum := DDAdd(rnd, sum, arr[i]);
      i := i + 1;
      elements := elements - 1;
      if elements == 0 {
        break;
      }
    }
    assert arr[..i] == arr;
    AddFoldValue(rnd, Zero, arr);
  }

  /** `vprod` (generic): the `ddmul` fold starting from `{1,0}`. */
  method VProd(rnd: Rounding, arr: seq<DD>) returns (prod: DD)
    requires |arr| >= 1
    ensures prod == MulFold(rnd, One, arr)
    ensures Value(prod) == Product(Values(arr))
  {
    prod := One;
    var elements := |arr|;
    var i := 0;
    while true
      invariant 0 <= i < |arr| && i + elements == |arr| && elements >= 1
      invariant prod == MulFold(rnd, One, arr[..i])
      decreases elements
    {
      assert arr[..i + 1][..i] == arr[..i];
      prod := DDMul(rnd, prod, arr[i]);
      i := i + 1;
      elements := elements - 1;
      if elements == 0 {
        break;
      }
    }
    assert arr[..i] == arr;
    MulFoldValue(rnd, One, arr);
  }

  /** `vprod` (Xeon Phi) as written: the fold starts from the zero register
      (`_mm512_setzero_pdd()`), so every lane of the result is zero. */
  method VProdKncAsWritten(rnd: Rounding, arr: seq<DD>) returns (prod: DD)
    requires |arr| >= 1
    ensures prod == MulFold(rnd, Zero, arr)
    ensures Value(prod) == 0.0
  {
    prod := Zero;
    var elements := |arr|;
    var i := 0;
    while true
      invariant 0 <= i < |arr| && i + elements == |arr| && elements >= 1
      invariant prod == MulFold(rnd, Zero, arr[..i])
      decreases elements
    {
      assert arr[..i + 1][..i] == arr[..i];
      prod := DDMul(rnd, prod, arr[i]);
      i := i + 1;
      elements := elements - 1;
      if elements == 0 {
        break;
      }
    }
    assert arr[..i] == arr;
    MulFoldValue(rnd, Zero, arr);
  }

  /** Whenever the product of the elements is not zero (for instance the single
      element `{2,0}`), the Xeon Phi product differs from the generic one. */
  lemma VProdKncCounterexample(rnd: Rounding, arr: seq<DD>)
    requires Product(Values(arr)) != 0.0
    ensures Value(MulFold(rnd, Zero, arr)) == 0.0
    ensures Value(MulFold(rnd, One, arr)) == Product(Values(arr))
    ensures MulFold(rnd, Zero, arr) != MulFold(rnd, One, arr)
  {
    MulFoldValue(rnd, Zero, arr);
    MulFoldValue(rnd, One, arr);
  }

  /** `vprod` (Xeon Phi) corrected to start from the one register, as the generic
      variant does; it then computes the same product. */
  method VProdKnc(rnd: Rounding, arr: seq<DD>) returns (prod: DD)
    requires |arr| >= 1
    ensures Value(prod) == Product(Values(arr))
  {
    prod := VProd(rnd, arr);
  }

  /** `vsum` (Xeon Phi): the same fold as the generic variant, from the zero register. */
  method VSumKnc(rnd: Rounding, arr: seq<DD>) returns (sum: DD)
    requires |arr| >= 1
    ensures Value(sum) == Sum(Values(arr))
  {
    sum := VSum(rnd, arr);
  }

  /** A Xeon Phi run with `-r 1` to `-r 7` passes `repeats / 8 == 0` registers
      to `vsum` and `vprod`. Their `do { ... } while (--array_elements)` runs a
      first trip on an empty array and decrements 0 to `2^64 - 1`. */
  lemma KncZeroRegisters(repeats: nat)
    requires 1 <= repeats < ElementsPerTuple
    ensures repeats / ElementsPerTuple == 0
    ensures Decrement(repeats / ElementsPerTuple) == SizeModulus - 1
  {
  }

  /** `vsum` (Xeon Phi) as evidently intended, a `while` loop that also accepts
      no registers: the fold from the zero register, whose value is the exact sum. */
  method VSumKncAnyLength(rnd: Rounding, arr: seq<DD>) returns (sum: DD)
    ensures sum == AddFold(rnd, Zero, arr)
    ensures Value(sum) == Sum(Values(arr))
  {
    sum := Zero;
    var i := 0;
    while i < |arr|
      invariant 0 <= i <= |arr| && sum == AddFold(rnd, Zero, arr[..i])
    {
      assert arr[..i + 1][..i] == arr[..i];
      sum := DDAdd(rnd, sum, arr[i]);
      i := i + 1;
    }
    assert arr[..i] == arr;
    AddFoldValue(rnd, Zero, arr);
  }

  /** `vprod` (Xeon Phi) corrected both ways: from the one register, and as a
      `while` loop that also accepts no registers. */
  method VProdKncAnyLength(rnd: Rounding, arr: seq<DD>) returns (prod: DD)
    ensures prod == MulFold(rnd, One, arr)
    ensures Value(prod) == Product(Values(arr))
  {
    prod := One;
    var i := 0;
    while i < |arr|
      invariant 0 <= i <= |arr| && prod == MulFold(rnd, One, arr[..i])
    {
      assert arr[..i + 1][..i] == arr[..i];
      prod := DDMul(rnd, prod, arr[i]);
      i := i + 1;
    }
    assert arr[..i] == arr;
    MulFoldValue(rnd, One, arr);
  }

  /** `vaddc` (generic): `augend[i] = ddadd(augend[i], addend)` for every `i`. */
  method VAddC(rnd: Rounding, augend: seq<DD>, addend: DD) returns (r: seq<DD>)
    ensures |r| == |augend|
    ensures forall i :: 0 <= i < |r| ==> r[i] == DDAdd(rnd, augend[i], addend)
    ensures forall i :: 0 <= i < |r| ==> Value(r[i]) == Value(augend[i]) + Value(addend)
  {
    r := augend;
    var i := 0;
    while i < |augend|
      invariant 0 <= i <= |augend| && |r| == |augend|
      invariant forall j :: 0 <= j < i ==> r[j] == DDAdd(rnd, augend[j], addend)
      invariant forall j :: i <= j < |r| ==> r[j] == augend[j]
    {
      r := r[i := DDAdd(rnd, r[i], addend)];
      i := i + 1;
    }
  }

  /** `vmulc` (generic): `multiplicand[i] = ddmul(multiplicand[i], multiplier)`. */
  method VMulC(rnd: Rounding, multiplicand: seq<DD>, multiplier: DD) returns (r: seq<DD>)
    ensures |r| == |multiplicand|
    ensures forall i :: 0 <= i < |r| ==> r[i] == DDMul(rnd, multiplicand[i], multiplier)
    ensures forall i :: 0 <= i < |r| ==> Value(r[i]) == Value(multiplicand[i]) * Value(multiplier)
  {
    r := multiplicand;
    var i := 0;
    while i < |multiplicand|
      invariant 0 <= i <= |multiplicand| && |r| == |multiplicand|
      invariant forall j :: 0 <= j < i ==> r[j] == DDMul(rnd, multiplicand[j], multiplier)
      invariant forall j :: i <= j < |r| ==> r[j] == multiplicand[j]
    {
      r := r[i := DDMul(rnd, r[i], multiplier)];
      i := i + 1;
    }
  }

  /** The indices the Xeon Phi loops `for (i = start; i < n; i += 2)` write:
      `i` and `i+1` on every trip. */
  function KncWrites(start: nat, n: nat): set<nat>
    decreases n - start
  {
    if start >= n then {} else {start, start + 1} + KncWrites(start + 2, n)
  }

  /** The Xeon Phi loops write exactly `[0, n)` when `n` is even, and one index
      past the end, `n` itself, when `n` is odd. */
  lemma {:induction false} KncWritesRange(start: nat, n: nat)
    requires start % 2 == 0
    ensures n % 2 == 0 ==> forall j: nat :: j in KncWrites(start, n) <==> start <= j < n
    ensures n % 2 == 1 && start <= n ==> forall j: nat :: j in KncWrites(start, n) <==> start <= j <= n
    decreases n - start
  {
    if start < n {
      KncWritesRange(start + 2, n);
    }
  }

  /** `vaddc` (Xeon Phi): unrolled by two. It stays in bounds only for even
      lengths, where it gives the generic result. */
  method VAddCKnc(rnd: Rounding, augend: seq<DD>, addend: DD) returns (r: seq<DD>)
    requires |augend| % 2 == 0
    ensures |r| == |augend|
    ensures forall i :: 0 <= i < |r| ==> r[i] == DDAdd(rnd, augend[i], addend)
  {
    r := augend;
    var i := 0;
    while i < |augend|
      invariant 0 <= i <= |augend| && i % 2 == 0 && |r| == |augend|
      invariant forall j :: 0 <= j < i ==> r[j] == DDAdd(rnd, augend[j], addend)
      invariant forall j :: i <= j < |r| ==> r[j] == augend[j]
    {
      r := r[i := DDAdd(rnd, r[i], addend)];
      r := r[i + 1 := DDAdd(rnd, r[i + 1], addend)];
      i := i + 2;
    }
  }

  /** `vmulc` (Xeon Phi): unrolled by two, even lengths only. */
  method VMulCKnc(rnd: Rounding, multiplicand: seq<DD>, multiplier: DD) returns (r: seq<DD>)
    requires |multiplicand| % 2 == 0
    ensures |r| == |multiplicand|
    ensures forall i :: 0 <= i < |r| ==> r[i] == DDMul(rnd, multiplicand[i], multiplier)
  {
    r := multiplicand;
    var i := 0;
    while i < |multiplicand|
      invariant 0 <= i <= |multiplicand| && i % 2 == 0 && |r| == |multiplicand|
      invariant forall j :: 0 <= j < i ==> r[j] == DDMul(rnd, multiplicand[j], multiplier)
      invariant forall j :: i <= j < |r| ==> r[j] == multiplicand[j]
    {
      r := r[i := DDMul(rnd, r[i], multiplier)];
      r := r[i + 1 := DDMul(rnd, r[i + 1], multiplier)];
      i := i + 2;
    }
  }

  /** A Xeon Phi run whose `repeats / 8` registers are odd in number (`-r 8`
      gives one) has the unrolled `vaddc` and `vmulc` write register
      `repeats / 8`, one past the end of the buffer. */
  lemma KncOddOverrun(repeats: nat)
    requires (repeats / ElementsPerTuple) % 2 == 1
    ensures repeats / ElementsPerTuple in KncWrites(0, repeats / ElementsPerTuple)
  {
    KncWritesRange(0, repeats / ElementsPerTuple);
  }

  /** `vaddc` (Xeon Phi) as evidently intended: unrolled by two, with an odd
      last register finished by a single step, so it is the generic map for
      every length. */
  method VAddCKncAnyLength(rnd: Rounding, augend: seq<DD>, addend: DD) returns (r: seq<DD>)
    ensures |r| == |augend|
    ensures forall i :: 0 <= i < |r| ==> r[i] == DDAdd(rnd, augend[i], addend)
  {
    r := augend;
    var i := 0;
    while i + 1 < |augend|
      invariant 0 <= i <= |augend| && i % 2 == 0 && |r| == |augend|
      invariant forall j :: 0 <= j < i ==> r[j] == DDAdd(rnd, augend[j], addend)
      invariant forall j :: i <= j < |r| ==> r[j] == augend[j]
    {
      r := r[i := DDAdd(rnd, r[i], addend)];
      r := r[i + 1 := DDAdd(rnd, r[i + 1], addend)];
      i := i + 2;
    }
    if i < |augend| {
      r := r[i := DDAdd(rnd, r[i], addend)];
    }
  }

  /** `vmulc` (Xeon Phi) as evidently intended, for every length. */
  method VMulCKncAnyLength(rnd: Rounding, multiplicand: seq<DD>, multiplier: DD) returns (r: seq<DD>)
    ensures |r| == |multiplicand|
    ensures forall i :: 0 <= i < |r| ==> r[i] == DDMul(rnd, multiplicand[i], multiplier)
  {
    r := multiplicand;
    var i := 0;
    while i + 1 < |multiplicand|
      invariant 0 <= i <= |multiplicand| && i % 2 == 0 && |r| == |multiplicand|
      invariant forall j :: 0 <= j < i ==> r[j] == DDMul(rnd, multiplicand[j], multiplier)
      invariant forall j :: i <= j < |r| ==> r[j] == multiplicand[j]
    {
      r := r[i := DDMul(rnd, r[i], multiplier)];
      r := r[i + 1 := DDMul(rnd, r[i + 1], multiplier)];
      i := i + 2;
    }
    if i < |multiplicand| {
      r := r[i := DDMul(rnd, r[i], multiplier)];
    }
  }
}
