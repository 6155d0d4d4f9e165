/** The panel layouts the DDGEMM microkernel consumes, as the kernel's unit test
    (test/ddgemm-tester.h) packs them:

      - A holds `kc` steps of `mr` double-doubles, split into hi and lo words. In
        step `k`, row `m` has its hi word at `2*k*mr + (m/w)*(2*w) + m%w` and its
        lo word `w` slots later, so each group of `w` rows is stored as `w` hi
        words followed by `w` lo words;
      - B holds `kc` rows of `nr` double-doubles, row-major: `b[k*nr + n]`;
      - C holds the `mr` x `nr` block column-major: cell `(m, n)` is `c[n*mr + m]`.

    Index arithmetic uses `Mul` (see IndexMath) in place of `*`. */
module Panels {
  import opened IndexMath
  import opened DoubleDouble

  /** Which word of a double-double a slot of the A panel holds. */
  datatype Part = Hi | Lo

  function PartOf(x: DD, part: Part): real
  {
    match part
    case Hi => x.hi
    case Lo => x.lo
  }

  /** The slot of word `part` of row `m` in step `k` of an A panel with `mr`
      rows per step and SIMD width `w`. */
  function PackIndex(mr: nat, w: nat, k: nat, m: nat, part: Part): nat
    requires w > 0
  {
    Mul(k, 2 * mr) + Mul(m / w, 2 * w) + (if part == Lo then w else 0) + m % w
  }

  /** Row `m = g*w + j` is lane `j` of register group `g`: relative to the step's
      base `2*k*mr`, its hi word is at `(2*g)*w + j` and its lo word at
      `(2*g + 1)*w + j`, the offsets from which the kernel loads `va{g}`. */
  lemma PackAtGroup(mr: nat, w: nat, k: nat, g: nat, j: nat)
    requires j < w
    ensures PackIndex(mr, w, k, Mul(g, w) + j, Hi) == Mul(k, 2 * mr) + Mul(2 * g, w) + j
    ensures PackIndex(mr, w, k, Mul(g, w) + j, Lo) == Mul(k, 2 * mr) + Mul(2 * g + 1, w) + j
  {
    DivModMul(Mul(g, w) + j, w, g, j);
    MulDouble(g, w);
  }

  /** Both words of every row of every step lie inside the `2*kc*mr` doubles of
      the panel (the buffer of `mr*kc` double-doubles), provided `w` divides `mr`. */
  lemma PackBound(mr: nat, w: nat, kc: nat, k: nat, m: nat, part: Part)
    requires w > 0 && mr % w == 0 && k < kc && m < mr
    ensures PackIndex(mr, w, k, m, part) < Mul(kc, 2 * mr)
  {
    var g, j, groups := m / w, m % w, mr / w;
    RowSplit(m, w);
    RowSplit(mr, w);
    if g >= groups {
      MulMonoLeft(groups, g, w);
    }
    SlotBound(g, groups, 2 * w);
    MulDouble(groups, w);
    SlotBound(k, kc, 2 * mr);
  }

  /** A word of the A panel: step, row, and hi or lo. */
  datatype Slot = Slot(step: nat, row: nat, part: Part)

  /** The step, row and word stored in slot `idx` of the A panel. */
  function Unpack(mr: nat, w: nat, idx: nat): Slot
    requires w > 0 && mr > 0
  {
    var r := idx % (2 * mr);
    var s := r % (2 * w);
    Slot(Quot(idx, 2 * mr), Mul(Quot(r, 2 * w), w) + s % w, if s < w then Hi else Lo)
  }

  /** Unpacking reads the step off whole blocks of `2*mr` slots. */
  lemma UnpackStep(mr: nat, w: nat, k: nat, r: nat)
    requires w > 0 && mr > 0 && r < 2 * mr
    ensures Unpack(mr, w, Mul(k, 2 * mr) + r) == Unpack(mr, w, r).(step := k)
  {
    DivModMul(Mul(k, 2 * mr) + r, 2 * mr, k, r);
    DivModMul(r, 2 * mr, 0, r);
  }

  /** Within a step, unpacking reads the register group off whole blocks of
      `2*w` slots and the word off the remainder. */
  lemma UnpackGroup(mr: nat, w: nat, g: nat, s: nat)
    requires w > 0 && mr > 0 && s < 2 * w && Mul(g, 2 * w) + s < 2 * mr
    ensures Unpack(mr, w, Mul(g, 2 * w) + s) == Slot(0, Mul(g, w) + s % w, if s < w then Hi else Lo)
  {
    DivModMul(Mul(g, 2 * w) + s, 2 * mr, 0, Mul(g, 2 * w) + s);
    DivModMul(Mul(g, 2 * w) + s, 2 * w, g, s);
  }

  /** Packing then unpacking gives back the step, the row and the word. */
  lemma UnpackPack(mr: nat, w: nat, k: nat, m: nat, part: Part)
    requires w > 0 && mr > 0 && mr % w == 0 && m < mr
    ensures Unpack(mr, w, PackIndex(mr, w, k, m, part)) == Slot(k, m, part)
  {
    var g, j := m / w, m % w;
    var s := (if part == Lo then w else 0) + j;
    var r := Mul(g, 2 * w) + s;
    PackBound(mr, w, 1, 0, m, part);
    assert PackIndex(mr, w, k, m, part) == Mul(k, 2 * mr) + r;
    UnpackStep(mr, w, k, r);
    UnpackGroup(mr, w, g, s);
    DivModMul(s, w, if part == Lo then 1 else 0, j);
    RowSplit(m, w);
  }

  /** Within one step, unpacking an offset `r < 2*mr` and packing again gives `r`. */
  lemma UnpackWithinStep(mr: nat, w: nat, r: nat)
    requires w > 0 && mr > 0 && mr % w == 0 && r < 2 * mr
    ensures Unpack(mr, w, r).row < mr
    ensures PackIndex(mr, w, 0, Unpack(mr, w, r).row, Unpack(mr, w, r).part) == r
  {
    DivModMul(r, 2 * mr, 0, r);
    var s, g := r % (2 * w), Quot(r, 2 * w);
    var j := s % w;
    var m := Mul(g, w) + j;
    assert Unpack(mr, w, r).row == m;
    RowSplit(r, 2 * w);
    var groups := mr / w;
    RowSplit(mr, w);
    MulDouble(groups, w);
    BlockBelow(r, 2 * w, groups);
    SlotBound(g, groups, w);
    DivModMul(m, w, g, j);
    if s < w {
      DivModMul(s, w, 0, s);
    } else {
      DivModMul(s, w, 1, s - w);
    }
  }

  /** Unpacking then packing gives back the slot: every slot of the panel holds
      one word of one row of one step. */
  lemma PackUnpack(mr: nat, w: nat, kc: nat, idx: nat)
    requires w > 0 && mr > 0 && mr % w == 0 && idx < Mul(kc, 2 * mr)
    ensures Unpack(mr, w, idx).step < kc && Unpack(mr, w, idx).row < mr
    ensures PackIndex(mr, w, Unpack(mr, w, idx).step, Unpack(mr, w, idx).row, Unpack(mr, w, idx).part) == idx
  {
    var r, k := idx % (2 * mr), Quot(idx, 2 * mr);
    RowSplit(idx, 2 * mr);
    BlockBelow(idx, 2 * mr, kc);
    DivModMul(r, 2 * mr, 0, r);
    UnpackWithinStep(mr, w, r);
    var u, v := Unpack(mr, w, idx), Unpack(mr, w, r);
    assert u.step == k && u.row == v.row && u.part == v.part;
    assert PackIndex(mr, w, k, u.row, u.part) == Mul(k, 2 * mr) + PackIndex(mr, w, 0, v.row, v.part);
  }

  /** Distinct (step, row, word) triples occupy distinct slots; in particular
      the hi and lo words never collide. */
  lemma PackInjective(mr: nat, w: nat, k1: nat, m1: nat, p1: Part, k2: nat, m2: nat, p2: Part)
    requires w > 0 && mr % w == 0 && m1 < mr && m2 < mr
    ensures PackIndex(mr, w, k1, m1, p1) == PackIndex(mr, w, k2, m2, p2) ==> k1 == k2 && m1 == m2 && p1 == p2
  {
    UnpackPack(mr, w, k1, m1, p1);
    UnpackPack(mr, w, k2, m2, p2);
  }

  /** The B panel slot of row `k`, column `n`: `k*nr + n`. */
  function BIndex(nr: nat, k: nat, n: nat): nat
  {
    Mul(k, nr) + n
  }

  lemma BBound(nr: nat, kc: nat, k: nat, n: nat)
    requires k < kc && n < nr
    ensures BIndex(nr, k, n) < Mul(kc, nr)
  {
    SlotBound(k, kc, nr);
  }

  /** The C slot of cell `(m, n)`, column-major: `n*mr + m`. */
  function CSlot(mr: nat, m: nat, n: nat): nat
  {
    Mul(n, mr) + m
  }

  /** Every cell of the `mr` x `nr` block has its own slot among the `mr*nr`. */
  lemma CSlotBijective(mr: nat, nr: nat, m: nat, n: nat)
    requires m < mr && n < nr
    ensures CSlot(mr, m, n) < Mul(nr, mr)
    ensures CSlot(mr, m, n) / mr == n && CSlot(mr, m, n) % mr == m
  {
    SlotBound(n, nr, mr);
    DivModMul(CSlot(mr, m, n), mr, n, m);
  }

  /** One step of the test's A fill: row `m` of step `k` gets both words of `x`. */
  method PackRow(a: seq<real>, mr: nat, w: nat, kc: nat, k: nat, m: nat, x: DD) returns (r: seq<real>)
    requires w > 0 && mr % w == 0 && k < kc && m < mr && |a| == Mul(kc, 2 * mr)
    ensures |r| == |a|
    ensures PackIndex(mr, w, k, m, Hi) < |r| && PackIndex(mr, w, k, m, Lo) < |r|
    ensures r[PackIndex(mr, w, k, m, Hi)] == x.hi && r[PackIndex(mr, w, k, m, Lo)] == x.lo
    ensures forall i :: 0 <= i < |a| && i != PackIndex(mr, w, k, m, Hi) && i != PackIndex(mr, w, k, m, Lo) ==> r[i] == a[i]
  {
    PackBound(mr, w, kc, k, m, Hi);
    PackBound(mr, w, kc, k, m, Lo);
    PackInjective(mr, w, k, m, Hi, k, m, Lo);
    r := a[PackIndex(mr, w, k, m, Hi) := x.hi][PackIndex(mr, w, k, m, Lo) := x.lo];
  }

  /** The whole row `m` of step `k` is stored where `PackIndex` says. */
  ghost predicate RowPacked(a: seq<real>, mr: nat, w: nat, k: nat, m: nat, x: DD)
    requires w > 0
  {
    PackIndex(mr, w, k, m, Hi) < |a| && PackIndex(mr, w, k, m, Lo) < |a| &&
    a[PackIndex(mr, w, k, m, Hi)] == x.hi && a[PackIndex(mr, w, k, m, Lo)] == x.lo
  }

  /** A write to row `(k, m)` keeps every other row packed. */
  lemma PackRowKeeps(a: seq<real>, r: seq<real>, mr: nat, w: nat, k: nat, m: nat, k': nat, m': nat, y: DD)
    requires w > 0 && mr % w == 0 && m < mr && m' < mr && (k', m') != (k, m) && |r| == |a|
    requires forall i :: 0 <= i < |a| && i != PackIndex(mr, w, k, m, Hi) && i != PackIndex(mr, w, k, m, Lo) ==> r[i] == a[i]
    requires RowPacked(a, mr, w, k', m', y)
    ensures RowPacked(r, mr, w, k', m', y)
  {
    forall p: Part, q: Part ensures PackIndex(mr, w, k', m', p) != PackIndex(mr, w, k, m, q) {
      PackInjective(mr, w, k', m', p, k, m, q);
    }
  }

  /** The test's A fill: for every step `k < kc` and row `m < mr` it stores the
      hi and lo words of `rows[k][m]`. The buffer starts unspecified (`valloc`),
      here `init`. Afterwards every row of every step is in its slots. */
  method PackA(rows: seq<seq<DD>>, mr: nat, w: nat, init: seq<real>) returns (a: seq<real>)
    requires w > 0 && mr % w == 0
    requires forall k :: 0 <= k < |rows| ==> |rows[k]| == mr
    requires |init| == Mul(|rows|, 2 * mr)
    ensures |a| == Mul(|rows|, 2 * mr)
    ensures forall k, m :: 0 <= k < |rows| && 0 <= m < mr ==> RowPacked(a, mr, w, k, m, rows[k][m])
  {
    var kc := |rows|;
    a := init;
    var k := 0;
    while k < kc
      invariant k <= kc && |a| == Mul(kc, 2 * mr)
      invariant forall k', m' :: 0 <= k' < k && 0 <= m' < mr ==> RowPacked(a, mr, w, k', m', rows[k'][m'])
    {
      var m := 0;
      while m < mr
        invariant m <= mr && |a| == Mul(kc, 2 * mr)
        invariant forall k', m' :: 0 <= k' < k && 0 <= m' < mr ==> RowPacked(a, mr, w, k', m', rows[k'][m'])
        invariant forall m' :: 0 <= m' < m ==> RowPacked(a, mr, w, k, m', rows[k][m'])
      {
        var next := PackRow(a, mr, w, kc, k, m, rows[k][m]);
        assert RowPacked(next, mr, w, k, m, rows[k][m]);
        forall k', m' | 0 <= k' < k && 0 <= m' < mr
          ensures RowPacked(next, mr, w, k', m', rows[k'][m'])
        {
          PackRowKeeps(a, next, mr, w, k, m, k', m', rows[k'][m']);
        }
        forall m' | 0 <= m' < m
          ensures RowPacked(next, mr, w, k, m', rows[k][m'])
        {
          PackRowKeeps(a, next, mr, w, k, m, k, m', rows[k][m']);
        }
        a := next;
        m := m + 1;
      }
      k := k + 1;
    }
  }

  /** The test's B fill, `b[k*nr + n] = cols[k][n]`: B is `cols` flattened row by row. */
  function PackB(cols: seq<seq<DD>>, nr: nat): (b: seq<DD>)
    requires forall k :: 0 <= k < |cols| ==> |cols[k]| == nr
    ensures |b| == Mul(|cols|, nr)
  {
    if |cols| == 0 then [] else PackB(cols[..|cols| - 1], nr) + cols[|cols| - 1]
  }

  /** Element `(k, n)` of the B panel is at `k*nr + n`. */
  lemma {:induction false} PackBSlot(cols: seq<seq<DD>>, nr: nat, k: nat, n: nat)
    requires forall k :: 0 <= k < |cols| ==> |cols[k]| == nr
    requires k < |cols| && n < nr
    ensures BIndex(nr, k, n) < |PackB(cols, nr)| && PackB(cols, nr)[BIndex(nr, k, n)] == cols[k][n]
    decreases |cols|
  {
    BBound(nr, |cols|, k, n);
    if k < |cols| - 1 {
      PackBSlot(cols[..|cols| - 1], nr, k, n);
    }
  }

  /** The row value `a(k, m)` the test reads back from the two words of the A panel. */
  function RowValue(a: seq<real>, mr: nat, w: nat, k: nat, m: nat): real
    requires w > 0 && mr % w == 0 && m < mr && Mul(k + 1, 2 * mr) <= |a|
  {
    PackBound(mr, w, k + 1, k, m, Hi);
    PackBound(mr, w, k + 1, k, m, Lo);
    a[PackIndex(mr, w, k, m, Hi)] + a[PackIndex(mr, w, k, m, Lo)]
  }

  /** A row stored by the fill reads back as its value. */
  lemma RowValuePacked(a: seq<real>, mr: nat, w: nat, k: nat, m: nat, x: DD)
    requires w > 0 && mr % w == 0 && m < mr && Mul(k + 1, 2 * mr) <= |a|
    requires RowPacked(a, mr, w, k, m, x)
    ensures RowValue(a, mr, w, k, m) == Value(x)
  {
  }

  /** The test's exact reference for cell `(m, n)` over the first `steps` steps:
      the sum over `k` of `a(k, m) * b(k, n)`, as the MPFR accumulator forms it. */
  function Reference(a: seq<real>, b: seq<DD>, mr: nat, w: nat, nr: nat, steps: nat, m: nat, n: nat): real
    requires w > 0 && mr % w == 0 && m < mr && n < nr
    requires Mul(steps, 2 * mr) <= |a| && Mul(steps, nr) <= |b|
  {
    if steps == 0 then 0.0 else
      BBound(nr, steps, steps - 1, n);
      Reference(a, b, mr, w, nr, steps - 1, m, n) + RowValue(a, mr, w, steps - 1, m) * Value(b[BIndex(nr, steps - 1, n)])
  }

  /** The exact product of the logical panels for cell `(m, n)` over the first
      `steps` steps: the sum over `k` of `rows[k][m] * cols[k][n]`. */
  function PanelProduct(rows: seq<seq<DD>>, cols: seq<seq<DD>>, steps: nat, m: nat, n: nat): real
    requires steps <= |rows| && steps <= |cols|
    requires forall k :: 0 <= k < |rows| ==> m < |rows[k]|
    requires forall k :: 0 <= k < |cols| ==> n < |cols[k]|
  {
    if steps == 0 then 0.0 else
      PanelProduct(rows, cols, steps - 1, m, n) + Value(rows[steps - 1][m]) * Value(cols[steps - 1][n])
  }

  /** On panels packed by the test's fills, so that row `m` of every step reads
      back as `rows[k][m]` and column `n` of every step as `cols[k][n]`, the
      reference read through the packing indices is the product of the logical
      panels. */
  lemma {:induction false} ReferenceOfPacked(a: seq<real>, b: seq<DD>, rows: seq<seq<DD>>, cols: seq<seq<DD>>, mr: nat, w: nat, nr: nat, steps: nat, m: nat, n: nat)
    requires w > 0 && mr % w == 0 && m < mr && n < nr
    requires |rows| == |cols| && steps <= |rows|
    requires forall k :: 0 <= k < |rows| ==> |rows[k]| == mr
    requires forall k :: 0 <= k < |cols| ==> |cols[k]| == nr
    requires |a| == Mul(|rows|, 2 * mr) && |b| == Mul(|cols|, nr)
    requires forall k :: 0 <= k < |rows| ==> (MulMonoLeft(k + 1, |rows|, 2 * mr); RowValue(a, mr, w, k, m) == Value(rows[k][m]))
    requires forall k :: 0 <= k < |cols| ==> (BBound(nr, |cols|, k, n); b[BIndex(nr, k, n)] == cols[k][n])
    ensures Mul(steps, 2 * mr) <= |a| && Mul(steps, nr) <= |b|
    ensures Reference(a, b, mr, w, nr, steps, m, n) == PanelProduct(rows, cols, steps, m, n)
    decreases steps
  {
    MulMonoLeft(steps, |rows|, 2 * mr);
    MulMonoLeft(steps, |cols|, nr);
    if steps > 0 {
      ReferenceOfPacked(a, b, rows, cols, mr, w, nr, steps - 1, m, n);
      BBound(nr, |cols|, steps - 1, n);
      PackedStep(a, b, rows, cols, mr, w, nr, steps, m, n);
    }
  }

  /** One step of the reference over packed panels is one step of the logical
      product: the row and column that step `steps - 1` reads back are the
      logical panels' elements. */
  lemma PackedStep(a: seq<real>, b: seq<DD>, rows: seq<seq<DD>>, cols: seq<seq<DD>>, mr: nat, w: nat, nr: nat, steps: nat, m: nat, n: nat)
    requires w > 0 && mr % w == 0 && m < mr && n < nr
    requires 0 < steps <= |rows| && steps <= |cols|
    requires forall k :: 0 <= k < |rows| ==> m < |rows[k]|
    requires forall k :: 0 <= k < |cols| ==> n < |cols[k]|
    requires Mul(steps, 2 * mr) <= |a| && Mul(steps, nr) <= |b| && BIndex(nr, steps - 1, n) < |b|
    requires RowValue(a, mr, w, steps - 1, m) == Value(rows[steps - 1][m])
    requires b[BIndex(nr, steps - 1, n)] == cols[steps - 1][n]
    ensures Mul(steps - 1, 2 * mr) <= |a| && Mul(steps - 1, nr) <= |b|
    ensures Reference(a, b, mr, w, nr, steps, m, n) - Reference(a, b, mr, w, nr, steps - 1, m, n)
         == PanelProduct(rows, cols, steps, m, n) - PanelProduct(rows, cols, steps - 1, m, n)
  {
    ReferenceStep(a, b, mr, w, nr, steps, m, n);
  }

  lemma ReferenceStep(a: seq<real>, b: seq<DD>, mr: nat, w: nat, nr: nat, steps: nat, m: nat, n: nat)
    requires w > 0 && mr % w == 0 && m < mr && n < nr
    requires Mul(steps, 2 * mr) <= |a| && Mul(steps, nr) <= |b| && steps > 0
    ensures Mul(steps - 1, 2 * mr) <= |a| && Mul(steps - 1, nr) <= |b| && BIndex(nr, steps - 1, n) < |b|
    ensures Reference(a, b, mr, w, nr, steps, m, n)
         == Reference(a, b, mr, w, nr, steps - 1, m, n) + RowValue(a, mr, w, steps - 1, m) * Value(b[BIndex(nr, steps - 1, n)])
  {
    MulMonoLeft(steps - 1, steps, 2 * mr);
    MulMonoLeft(steps - 1, steps, nr);
    BBound(nr, steps, steps - 1, n);
  }
}
