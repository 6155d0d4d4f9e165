/** The generated microkernel `ddgemm{mr}x{nr}(k, a, b, c)` (src/ddgemm/ddgemm.py):
    it multiplies a packed `mr` x `k` double-double panel of A by a `k` x `nr`
    panel of B and adds the product into the `mr` x `nr` block of C.

    For every column `n < nr` and register group `g < mr/w` the kernel keeps an
    accumulator `va{g}b{n}` of `w` double-doubles. The accumulators of column
    `n`, taken over all groups, hold rows `0 .. mr-1`; here they form one
    sequence `acc[n]` of `mr` double-doubles, row `g*w + j` being lane `j` of
    `va{g}b{n}`. */
module GemmKernel {
  import opened Sums
  import opened IndexMath
  import opened DoubleDouble
  import opened Panels

  /** The load `va{g} = { load(a + off), load(a + off + w) }`: lane `j` has its hi
      word at `off + j` and its lo word at `off + w + j`. */
  function GroupLoad(a: seq<real>, off: nat, w: nat): (r: seq<DD>)
    requires off + 2 * w <= |a|
    ensures |r| == w
  {
    seq(w, j requires 0 <= j < w => DD(a[off + j], a[off + w + j]))
  }

  /** The loads of one step at `a + base`, groups `0 .. groups-1` in order: group
      `g` reads hi words from `(2*g)*w` and lo words from `(2*g + 1)*w`. */
  function LoadA(a: seq<real>, base: nat, groups: nat, w: nat): (r: seq<DD>)
    requires base + Mul(2 * groups, w) <= |a|
    ensures |r| == Mul(groups, w)
    decreases groups
  {
    if groups == 0 then [] else
      MulDouble(groups, w);
      MulDouble(groups - 1, w);
      LoadA(a, base, groups - 1, w) + GroupLoad(a, base + Mul(2 * (groups - 1), w), w)
  }

  /** Row `g*w + j` of a step's loads comes from `base + (2*g)*w + j` (hi) and
      `base + (2*g + 1)*w + j` (lo), both inside the `2*groups*w` doubles read. */
  lemma {:induction false} LoadALane(a: seq<real>, base: nat, groups: nat, w: nat, g: nat, j: nat)
    requires base + Mul(2 * groups, w) <= |a|
    requires g < groups && j < w
    ensures Mul(g, w) + j < Mul(groups, w)
    ensures base + Mul(2 * g + 1, w) + j < base + Mul(2 * groups, w)
    ensures LoadA(a, base, groups, w)[Mul(g, w) + j] == DD(a[base + Mul(2 * g, w) + j], a[base + Mul(2 * g + 1, w) + j])
    decreases groups
  {
    SlotBound(g, groups, w);
    SlotBound(2 * g + 1, 2 * groups, w);
    MulDouble(groups, w);
    MulDouble(groups - 1, w);
    var front := LoadA(a, base, groups - 1, w);
    var last := GroupLoad(a, base + Mul(2 * (groups - 1), w), w);
    assert LoadA(a, base, groups, w) == front + last;
    if g < groups - 1 {
      LoadALane(a, base, groups - 1, w, g, j);
      SlotBound(g, groups - 1, w);
      assert (front + last)[Mul(g, w) + j] == front[Mul(g, w) + j];
    } else {
      assert (front + last)[Mul(g, w) + j] == last[j];
    }
  }

  /** The kernel's loads of step `k` agree with the test's packing: row `m` is
      the double-double whose words sit at `PackIndex(.., k, m, Hi)` and
      `PackIndex(.., k, m, Lo)`. */
  lemma LoadAgrees(a: seq<real>, mr: nat, w: nat, k: nat, m: nat)
    requires w > 0 && mr % w == 0 && m < mr
    requires Mul(k, 2 * mr) + Mul(2 * (mr / w), w) <= |a|
    ensures m < |LoadA(a, Mul(k, 2 * mr), mr / w, w)|
    ensures PackIndex(mr, w, k, m, Hi) < |a| && PackIndex(mr, w, k, m, Lo) < |a|
    ensures LoadA(a, Mul(k, 2 * mr), mr / w, w)[m] == DD(a[PackIndex(mr, w, k, m, Hi)], a[PackIndex(mr, w, k, m, Lo)])
  {
    var g, j := m / w, m % w;
    RowSplit(m, w);
    RowSplit(mr, w);
    if g >= mr / w {
      MulMonoLeft(mr / w, g, w);
    }
    LoadALane(a, Mul(k, 2 * mr), mr / w, w, g, j);
    PackAtGroup(mr, w, k, g, j);
  }

  /** One trip of the `do` body: `vb{n} = broadcast(b + n)` and
      `va{g}b{n} = ddadd(va{g}b{n}, ddmul(va{g}, vb{n}))` for every column `n` and
      group `g`, i.e. every row of every column. */
  function KStep(rnd: Rounding, acc: seq<seq<DD>>, va: seq<DD>, b: seq<DD>, bOff: nat): (r: seq<seq<DD>>)
    requires bOff + |acc| <= |b|
    requires forall n :: 0 <= n < |acc| ==> |acc[n]| == |va|
    ensures |r| == |acc| && forall n :: 0 <= n < |r| ==> |r[n]| == |va|
  {
    seq(|acc|, n requires 0 <= n < |acc| =>
      seq(|va|, m requires 0 <= m < |va| => DDAdd(rnd, acc[n][m], DDMul(rnd, va[m], b[bOff + n]))))
  }

  /** After `steps` trips every accumulator holds the test's reference for its
      cell over those steps. */
  ghost predicate Accumulated(acc: seq<seq<DD>>, a: seq<real>, b: seq<DD>, mr: nat, w: nat, nr: nat, steps: nat)
    requires w > 0 && mr % w == 0
  {
    Mul(steps, 2 * mr) <= |a| && Mul(steps, nr) <= |b| &&
    |acc| == nr && (forall n :: 0 <= n < nr ==> |acc[n]| == mr) &&
    forall n, m :: 0 <= n < nr && 0 <= m < mr ==> Value(acc[n][m]) == Reference(a, b, mr, w, nr, steps, m, n)
  }

  /** One accumulator over one trip: with `va[m]` loaded from the packed words of
      row `m`, it gains `a(steps, m) * b(steps, n)`, so it goes from the
      reference over `steps` steps to the one over `steps + 1`. */
  lemma StepCell(rnd: Rounding, acc: seq<seq<DD>>, va: seq<DD>, a: seq<real>, b: seq<DD>, mr: nat, nr: nat, w: nat,
                 steps: nat, bOff: nat, n: nat, m: nat)
    requires w > 0 && mr % w == 0 && n < nr && m < mr && |va| == mr
    requires Mul(steps + 1, 2 * mr) <= |a| && bOff == Mul(steps, nr) && bOff + nr <= |b|
    requires |acc| == nr && forall n :: 0 <= n < nr ==> |acc[n]| == mr
    requires PackIndex(mr, w, steps, m, Hi) < |a| && PackIndex(mr, w, steps, m, Lo) < |a|
    requires va[m] == DD(a[PackIndex(mr, w, steps, m, Hi)], a[PackIndex(mr, w, steps, m, Lo)])
    requires Value(acc[n][m]) == Reference(a, b, mr, w, nr, steps, m, n)
    ensures Value(KStep(rnd, acc, va, b, bOff)[n][m]) == Reference(a, b, mr, w, nr, steps + 1, m, n)
  {
  }

  /** Every row of a step's loads is the row the test packed for that step. */
  lemma LoadsAgree(a: seq<real>, mr: nat, w: nat, k: nat, va: seq<DD>)
    requires w > 0 && mr % w == 0
    requires Mul(k, 2 * mr) + Mul(2 * (mr / w), w) <= |a|
    requires va == LoadA(a, Mul(k, 2 * mr), mr / w, w)
    ensures |va| == mr
    ensures forall m :: 0 <= m < mr ==>
      PackIndex(mr, w, k, m, Hi) < |a| && PackIndex(mr, w, k, m, Lo) < |a| &&
      va[m] == DD(a[PackIndex(mr, w, k, m, Hi)], a[PackIndex(mr, w, k, m, Lo)])
  {
    RowSplit(mr, w);
    forall m | 0 <= m < mr
      ensures PackIndex(mr, w, k, m, Hi) < |a| && PackIndex(mr, w, k, m, Lo) < |a|
      ensures va[m] == DD(a[PackIndex(mr, w, k, m, Hi)], a[PackIndex(mr, w, k, m, Lo)])
    {
      LoadAgrees(a, mr, w, k, m);
    }
  }

  /** A whole trip moves every accumulator from the reference over `steps`
      steps to the one over `steps + 1`. */
  lemma StepAll(rnd: Rounding, acc: seq<seq<DD>>, va: seq<DD>, a: seq<real>, b: seq<DD>, mr: nat, nr: nat, w: nat,
                steps: nat, bOff: nat)
    requires w > 0 && mr % w == 0 && |va| == mr
    requires Mul(steps + 1, 2 * mr) <= |a| && bOff == Mul(steps, nr) && bOff + nr <= |b|
    requires Accumulated(acc, a, b, mr, w, nr, steps)
    requires forall m :: 0 <= m < mr ==>
      PackIndex(mr, w, steps, m, Hi) < |a| && PackIndex(mr, w, steps, m, Lo) < |a| &&
      va[m] == DD(a[PackIndex(mr, w, steps, m, Hi)], a[PackIndex(mr, w, steps, m, Lo)])
    ensures Accumulated(KStep(rnd, acc, va, b, bOff), a, b, mr, w, nr, steps + 1)
  {
    var r := KStep(rnd, acc, va, b, bOff);
    forall n, m | 0 <= n < nr && 0 <= m < mr
      ensures Value(r[n][m]) == Reference(a, b, mr, w, nr, steps + 1, m, n)
    {
      StepCell(rnd, acc, va, a, b, mr, nr, w, steps, bOff, n, m);
    }
  }

  /** The body of the `do` loop for step `steps`, with `a` and `b` advanced to
      `aOff = 2*mr*steps` and `bOff = nr*steps`. */
  method KernelStep(rnd: Rounding, acc: seq<seq<DD>>, a: seq<real>, b: seq<DD>, mr: nat, nr: nat, w: nat, k: nat,
                    aOff: nat, bOff: nat, ghost steps: nat)
    returns (r: seq<seq<DD>>)
    requires w > 0 && mr % w == 0 && steps < k
    requires |a| == Mul(k, 2 * mr) && |b| == Mul(k, nr)
    requires aOff == Mul(steps, 2 * mr) && bOff == Mul(steps, nr)
    requires Accumulated(acc, a, b, mr, w, nr, steps)
    ensures Accumulated(r, a, b, mr, w, nr, steps + 1)
  {
    SlotBound(steps, k, 2 * mr);
    SlotBound(steps, k, nr);
    RowSplit(mr, w);
    MulDouble(mr / w, w);
    var va := LoadA(a, aOff, mr / w, w);
    LoadsAgree(a, mr, w, steps, va);
    r := KStep(rnd, acc, va, b, bOff);
    StepAll(rnd, acc, va, a, b, mr, nr, w, steps, bOff);
  }

  /** Rows `0 .. (mr/w)*w - 1` are the ones the `mr // w` register groups cover;
      they are all `mr` rows exactly when `w` divides `mr`. */
  lemma RowCoverage(mr: nat, w: nat)
    requires w > 0
    ensures Mul(mr / w, w) <= mr
    ensures Mul(mr / w, w) == mr <==> mr % w == 0
  {
    RowSplit(mr, w);
  }

  /** The store `&c[n*mr + g*w]` of accumulator `va{g}b{n}`, lane `j`. */
  datatype Store = Store(col: nat, group: nat, lane: nat)

  function StoreSlot(mr: nat, w: nat, x: Store): nat
  {
    Mul(x.col, mr) + Mul(x.group, w) + x.lane
  }

  predicate ValidStore(mr: nat, nr: nat, w: nat, x: Store)
    requires w > 0
  {
    x.col < nr && x.group < mr / w && x.lane < w
  }

  /** The store that writes slot `i` of C. */
  function StoreOwner(mr: nat, w: nat, i: nat): Store
    requires mr > 0 && w > 0
  {
    var r := i % mr;
    Store(Quot(i, mr), Quot(r, w), r % w)
  }

  /** A store writes lane `j` of group `g` of column `n` to the column-major slot
      of cell `(g*w + j, n)`, inside the `mr*nr` cells of C, and no other store
      writes that slot. */
  lemma StoreOwnerOfSlot(mr: nat, nr: nat, w: nat, x: Store)
    requires w > 0 && mr % w == 0 && ValidStore(mr, nr, w, x)
    ensures StoreSlot(mr, w, x) == CSlot(mr, Mul(x.group, w) + x.lane, x.col) < Mul(nr, mr)
    ensures StoreOwner(mr, w, StoreSlot(mr, w, x)) == x
  {
    var m := Mul(x.group, w) + x.lane;
    RowSplit(mr, w);
    SlotBound(x.group, mr / w, w);
    CSlotBijective(mr, nr, m, x.col);
    DivModMul(m, w, x.group, x.lane);
  }

  /** Every slot of C is written by a valid store: together with
      `StoreOwnerOfSlot`, the stores write each of the `mr*nr` slots exactly once. */
  lemma SlotOfStoreOwner(mr: nat, nr: nat, w: nat, i: nat)
    requires w > 0 && mr > 0 && mr % w == 0 && i < Mul(nr, mr)
    ensures ValidStore(mr, nr, w, StoreOwner(mr, w, i))
    ensures StoreSlot(mr, w, StoreOwner(mr, w, i)) == i
  {
    var r := i % mr;
    RowSplit(i, mr);
    BlockBelow(i, mr, nr);
    RowSplit(r, w);
    RowSplit(mr, w);
    BlockBelow(r, w, mr / w);
  }

  /** After the loop: for every column `n` and group `g`, the `w` cells at
      `&c[n*mr + g*w]` are loaded, added to `va{g}b{n}` with `ddadd` and stored
      back. Slot `i` belongs to column `i / mr`, row `i % mr`. */
  function AddAccumulators(rnd: Rounding, c: seq<DD>, acc: seq<seq<DD>>, mr: nat): (r: seq<DD>)
    requires mr > 0 && |c| == Mul(|acc|, mr)
    requires forall n :: 0 <= n < |acc| ==> |acc[n]| == mr
    ensures |r| == |c|
  {
    seq(|c|, i requires 0 <= i < |c| =>
      BlockBelow(i, mr, |acc|);
      DDAdd(rnd, c[i], acc[Quot(i, mr)][i % mr]))
  }

  /** Cell `(m, n)` of C gains exactly the accumulator of row `m`, column `n`. */
  lemma AddAccumulatorsCell(rnd: Rounding, c: seq<DD>, acc: seq<seq<DD>>, mr: nat, m: nat, n: nat)
    requires mr > 0 && |c| == Mul(|acc|, mr)
    requires forall n :: 0 <= n < |acc| ==> |acc[n]| == mr
    requires m < mr && n < |acc|
    ensures CSlot(mr, m, n) < |c|
    ensures Value(AddAccumulators(rnd, c, acc, mr)[CSlot(mr, m, n)]) == Value(c[CSlot(mr, m, n)]) + Value(acc[n][m])
  {
    CSlotBijective(mr, |acc|, m, n);
  }

  /** `ddgemm{mr}x{nr}(k, a, b, c)`. The accumulators start at zero; the
      `do { ... } while (--k)` loop runs its body once per step, so `k` must be at
      least one; C is read and written once, after the loop. In exact arithmetic
      cell `(m, n)` of C gains the sum over the `k` steps of `a(step, m) *
      b(step, n)`, with `a` read through the packing of the A panel. */
  method Gemm(rnd: Rounding, k: nat, mr: nat, nr: nat, w: nat, a: seq<real>, b: seq<DD>, c: seq<DD>)
    returns (cOut: seq<DD>)
    requires k >= 1 && w > 0 && mr > 0 && mr % w == 0
    requires |a| == Mul(k, 2 * mr) && |b| == Mul(k, nr) && |c| == Mul(nr, mr)
    ensures |cOut| == |c|
    ensures forall m, n :: 0 <= m < mr && 0 <= n < nr ==>
      (CSlotBijective(mr, nr, m, n);
       Value(cOut[CSlot(mr, m, n)]) == Value(c[CSlot(mr, m, n)]) + Reference(a, b, mr, w, nr, k, m, n))
  {
    var acc := ZeroAccumulators(a, b, mr, nr, w);
    var aOff, bOff := 0, 0;
    var steps: nat := 0;
    var remaining: nat := k;
    while true
      invariant steps + remaining == k && remaining >= 1
      invariant aOff == Mul(steps, 2 * mr) && bOff == Mul(steps, nr)
      invariant Accumulated(acc, a, b, mr, w, nr, steps)
      decreases remaining
    {
      acc := KernelStep(rnd, acc, a, b, mr, nr, w, k, aOff, bOff, steps);
      aOff := aOff + 2 * mr;
      bOff := bOff + nr;
      steps := steps + 1;
      remaining := remaining - 1;
      if remaining == 0 {
        break;
      }
    }
    cOut := StoreC(rnd, c, acc, a, b, mr, nr, w, k);
  }

  /** `va{g}b{n} = setzero()` for every group and column: the reference over no steps. */
  method ZeroAccumulators(a: seq<real>, b: seq<DD>, mr: nat, nr: nat, w: nat) returns (acc: seq<seq<DD>>)
    requires w > 0 && mr % w == 0
    ensures Accumulated(acc, a, b, mr, w, nr, 0)
  {
    acc := seq(nr, n => DDZeros(mr));
    forall n, m | 0 <= n < nr && 0 <= m < mr
      ensures Value(acc[n][m]) == 0.0
    {
      assert Values(acc[n])[m] == Zeros(mr)[m];
    }
  }

  /** The loads, `ddadd`s and stores of C after the loop, for accumulators that
      hold the reference over all `k` steps. */
  method StoreC(rnd: Rounding, c: seq<DD>, acc: seq<seq<DD>>, a: seq<real>, b: seq<DD>, mr: nat, nr: nat, w: nat, k: nat)
    returns (cOut: seq<DD>)
    requires w > 0 && mr > 0 && mr % w == 0 && |c| == Mul(nr, mr)
    requires Accumulated(acc, a, b, mr, w, nr, k)
    ensures |cOut| == |c|
    ensures forall m, n :: 0 <= m < mr && 0 <= n < nr ==>
      (CSlotBijective(mr, nr, m, n);
       Value(cOut[CSlot(mr, m, n)]) == Value(c[CSlot(mr, m, n)]) + Reference(a, b, mr, w, nr, k, m, n))
  {
    cOut := AddAccumulators(rnd, c, acc, mr);
    forall m, n | 0 <= m < mr && 0 <= n < nr
      ensures CSlot(mr, m, n) < |c|
      ensures Value(cOut[CSlot(mr, m, n)]) == Value(c[CSlot(mr, m, n)]) + Reference(a, b, mr, w, nr, k, m, n)
    {
      AddAccumulatorsCell(rnd, c, acc, mr, m, n);
    }
  }

  /** The unit test's check: with A and B packed from the logical panels `rows`
      (`kc` steps of `mr` rows) and `cols` (`kc` steps of `nr` columns), and C
      zeroed, one kernel call leaves in cell `(m, n)`, read back at `n*mr + m`,
      the exact product of the panels. */
  method KernelTest(rnd: Rounding, mr: nat, nr: nat, w: nat, rows: seq<seq<DD>>, cols: seq<seq<DD>>, init: seq<real>)
    returns (c: seq<DD>)
    requires w > 0 && mr > 0 && mr % w == 0
    requires |rows| >= 1 && |rows| == |cols|
    requires forall k :: 0 <= k < |rows| ==> |rows[k]| == mr
    requires forall k :: 0 <= k < |cols| ==> |cols[k]| == nr
    requires |init| == Mul(|rows|, 2 * mr)
    ensures |c| == Mul(nr, mr)
    ensures forall m, n :: 0 <= m < mr && 0 <= n < nr ==>
      (CSlotBijective(mr, nr, m, n);
       Value(c[CSlot(mr, m, n)]) == PanelProduct(rows, cols, |rows|, m, n))
  {
    var kc := |rows|;
    var a := PackA(rows, mr, w, init);
    var b := PackB(cols, nr);
    var zero := DDZeros(Mul(nr, mr));
    c := Gemm(rnd, kc, mr, nr, w, a, b, zero);
    forall m, n | 0 <= m < mr && 0 <= n < nr
      ensures CSlot(mr, m, n) < |c|
      ensures Value(c[CSlot(mr, m, n)]) == PanelProduct(rows, cols, kc, m, n)
    {
      CSlotBijective(mr, nr, m, n);
      forall k | 0 <= k < kc
        ensures (MulMonoLeft(k + 1, kc, 2 * mr); RowValue(a, mr, w, k, m) == Value(rows[k][m]))
      {
        MulMonoLeft(k + 1, kc, 2 * mr);
        RowValuePacked(a, mr, w, k, m, rows[k][m]);
      }
      forall k | 0 <= k < kc
        ensures (BBound(nr, kc, k, n); b[BIndex(nr, k, n)] == cols[k][n])
      {
        PackBSlot(cols, nr, k, n);
      }
      ReferenceOfPacked(a, b, rows, cols, mr, w, nr, kc, m, n);
      assert Values(zero)[CSlot(mr, m, n)] == Zeros(Mul(nr, mr))[CSlot(mr, m, n)];
    }
  }
}
