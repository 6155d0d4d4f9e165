/** The table of GEMM microkernels that the generator emits: one function
    `ddgemm{mr}x{nr}` per shape, declared in the header in the same order, and
    the `select_ddgemm_kernel(mr, nr)` dispatcher, a C `switch` on `mr` whose
    every case holds a `switch` on `nr`. */
module KernelTable {
  import opened Wrappers
  import opened IndexMath

  /** Python's `range(lo, hi, step)` for a positive step. */
  function Range(lo: nat, hi: nat, step: nat): (r: seq<nat>)
    requires step > 0
    ensures |r| == 0 <==> lo >= hi
    ensures |r| > 0 ==> r[0] == lo
    decreases hi - lo
  {
    if lo >= hi then [] else [lo] + Range(lo + step, hi, step)
  }

  /** The members of a range: the lattice `lo, lo + step, ...` below `hi`. */
  lemma {:induction false} RangeMembers(lo: nat, hi: nat, step: nat, x: nat)
    requires step > 0
    ensures x in Range(lo, hi, step) <==> lo <= x < hi && (x - lo) % step == 0
    decreases hi - lo
  {
    if lo < hi {
      RangeMembers(lo + step, hi, step, x);
      if x >= lo + step {
        ModShift(x - lo, step);
      } else if lo <= x {
        DivModUnique(x - lo, step, 0, x - lo);
      }
    }
  }

  /** The members of a unit-step range: every `x` with `lo <= x < hi`. */
  lemma UnitRangeMembers(lo: nat, hi: nat, x: nat)
    ensures x in Range(lo, hi, 1) <==> lo <= x < hi
  {
    RangeMembers(lo, hi, 1, x);
    assert (x - lo) % 1 == 0;
  }

  /** A unit-step range lists `lo, lo + 1, ..., hi - 1`. */
  lemma {:induction false} UnitRange(lo: nat, hi: nat)
    ensures |Range(lo, hi, 1)| == if lo <= hi then hi - lo else 0
    ensures forall j :: 0 <= j < |Range(lo, hi, 1)| ==> Range(lo, hi, 1)[j] == lo + j
    decreases hi - lo
  {
    if lo < hi {
      UnitRange(lo + 1, hi);
    }
  }

  /** Taking one step off a multiple's distance keeps the remainder. */
  lemma ModShift(a: nat, step: nat)
    requires 0 < step <= a
    ensures a % step == (a - step) % step
  {
    DivModUnique(a, step, (a - step) / step + 1, (a - step) % step);
  }

  /** A kernel name `ddgemm{mr}x{nr}`, identified by its shape. */
  datatype Kernel = Kernel(mr: nat, nr: nat)

  /** The generator's options: `--mr-min`, `--mr-max`, `--nr-min`, `--nr-max`
      and the SIMD width that is the step of the `mr` loop. */
  datatype Config = Config(mrMin: nat, mrMax: nat, nrMin: nat, nrMax: nat, width: nat)

  predicate ValidConfig(cfg: Config)
  {
    cfg.width > 0
  }

  /** The `mr` values of the outer loops and of the outer `switch`. */
  function MrCases(cfg: Config): (r: seq<nat>)
    requires ValidConfig(cfg)
  {
    Range(cfg.mrMin, cfg.mrMax + 1, cfg.width)
  }

  /** The `nr` values of the inner loops and of every inner `switch`. */
  function NrCases(cfg: Config): (r: seq<nat>)
  {
    Range(cfg.nrMin, cfg.nrMax + 1, 1)
  }

  /** The kernels of one `mr`, in the order of the inner loop. */
  function Row(mr: nat, nrs: seq<nat>): (r: seq<Kernel>)
    ensures |r| == |nrs|
    ensures forall j :: 0 <= j < |r| ==> r[j] == Kernel(mr, nrs[j])
  {
    if |nrs| == 0 then [] else [Kernel(mr, nrs[0])] + Row(mr, nrs[1..])
  }

  /** The kernels of the nested loops `for mr in mrs: for nr in nrs`, in the
      order they are emitted. */
  function Grid(mrs: seq<nat>, nrs: seq<nat>): (r: seq<Kernel>)
  {
    if |mrs| == 0 then [] else Row(mrs[0], nrs) + Grid(mrs[1..], nrs)
  }

  lemma {:induction false} GridMembers(mrs: seq<nat>, nrs: seq<nat>, k: Kernel)
    ensures k in Grid(mrs, nrs) <==> k.mr in mrs && k.nr in nrs
  {
    if |mrs| > 0 {
      GridMembers(mrs[1..], nrs, k);
      assert mrs == [mrs[0]] + mrs[1..];
      if k.mr == mrs[0] && k.nr in nrs {
        var j :| 0 <= j < |nrs| && nrs[j] == k.nr;
        assert Row(mrs[0], nrs)[j] == k;
      }
    }
  }

  /** A non-empty range is its first element followed by the rest. */
  lemma RangeHead(lo: nat, hi: nat, step: nat)
    requires step > 0 && lo < hi
    ensures Range(lo, hi, step) == [lo] + Range(lo + step, hi, step)
  {
  }

  /** One turn of the outer loop emits the row of its `mr`. */
  lemma GridStep(mr: nat, hi: nat, step: nat, nrs: seq<nat>)
    requires step > 0 && mr < hi
    ensures Grid(Range(mr, hi, step), nrs) == Row(mr, nrs) + Grid(Range(mr + step, hi, step), nrs)
  {
    var r := Range(mr, hi, step);
    assert r[1..] == Range(mr + step, hi, step);
  }

  lemma {:induction false} GridLength(mrs: seq<nat>, nrs: seq<nat>)
    ensures |Grid(mrs, nrs)| == |mrs| * |nrs|
  {
    if |mrs| > 0 {
      GridLength(mrs[1..], nrs);
    }
  }

  /** The emitted kernels. The implementation file (ddgemm.py lines 43-44), the
      header declarations (lines 114-115) and the unit tests (lines 162-163) all
      iterate this same pair of loops, so each kernel that is declared is
      implemented and has a unit test. */
  function Shapes(cfg: Config): (r: seq<Kernel>)
    requires ValidConfig(cfg)
  {
    Grid(MrCases(cfg), NrCases(cfg))
  }

  /** The shapes are exactly `mr` on the lattice from `mrMin` with step `width`
      up to `mrMax`, and `nr` from `nrMin` to `nrMax`. */
  lemma ShapesMembers(cfg: Config, k: Kernel)
    requires ValidConfig(cfg)
    ensures k in Shapes(cfg) <==> InTable(cfg, k.mr, k.nr)
  {
    var mrs, nrs := MrCases(cfg), NrCases(cfg);
    GridMembers(mrs, nrs, k);
    assert k.mr in mrs <==> cfg.mrMin <= k.mr <= cfg.mrMax && (k.mr - cfg.mrMin) % cfg.width == 0 by {
      RangeMembers(cfg.mrMin, cfg.mrMax + 1, cfg.width, k.mr);
    }
    assert k.nr in nrs <==> cfg.nrMin <= k.nr <= cfg.nrMax by {
      UnitRangeMembers(cfg.nrMin, cfg.nrMax + 1, k.nr);
    }
  }

  /** Turn `j` of the inner loop for `mr` visits `nr = nrMin + j`, a shape of the table. */
  lemma RowShape(cfg: Config, mr: nat, j: nat)
    requires ValidConfig(cfg) && mr in MrCases(cfg) && cfg.nrMin + j <= cfg.nrMax
    ensures j < |NrCases(cfg)| && NrCases(cfg)[j] == cfg.nrMin + j
    ensures Kernel(mr, cfg.nrMin + j) in Shapes(cfg)
  {
    UnitRange(cfg.nrMin, cfg.nrMax + 1);
    GridMembers(MrCases(cfg), NrCases(cfg), Kernel(mr, cfg.nrMin + j));
  }

  predicate InTable(cfg: Config, mr: nat, nr: nat)
    requires ValidConfig(cfg)
  {
    && cfg.mrMin <= mr <= cfg.mrMax && (mr - cfg.mrMin) % cfg.width == 0
    && cfg.nrMin <= nr <= cfg.nrMax
  }

  /** The case of a C `switch` that `x` jumps to: the position of its label,
      or `None` for `default`. */
  function SwitchCase(labels: seq<nat>, x: nat): (r: Option<nat>)
    ensures r.Some? <==> x in labels
    ensures r.Some? ==> r.value < |labels| && labels[r.value] == x
  {
    if |labels| == 0 then None
    else if labels[0] == x then Some(0)
    else match SwitchCase(labels[1..], x)
      case None => None
      case Some(i) => Some(i + 1)
  }

  /** `select_ddgemm_kernel(mr, nr)`: the outer `switch (mr)` and, inside the
      matching case, `switch (nr)`. Every inner `switch` ends in `default:
      return NULL;`, so control never falls through into the next `mr` case. */
  function Select(cfg: Config, mr: nat, nr: nat): (r: Option<Kernel>)
    requires ValidConfig(cfg)
    ensures r.Some? <==> mr in MrCases(cfg) && nr in NrCases(cfg)
    ensures r.Some? ==> r.value == Kernel(mr, nr)
  {
    match SwitchCase(MrCases(cfg), mr)
    case None => None
    case Some(i) =>
      match SwitchCase(NrCases(cfg), nr)
      case None => None
      case Some(j) => Some(Kernel(MrCases(cfg)[i], NrCases(cfg)[j]))
  }

  /** The dispatcher returns a kernel exactly for the shapes the generator
      emits, and then the kernel of that shape. */
  lemma SelectShapes(cfg: Config, mr: nat, nr: nat)
    requires ValidConfig(cfg)
    ensures Select(cfg, mr, nr).Some? <==> Kernel(mr, nr) in Shapes(cfg)
    ensures Select(cfg, mr, nr).Some? ==> Select(cfg, mr, nr).value == Kernel(mr, nr)
  {
    GridMembers(MrCases(cfg), NrCases(cfg), Kernel(mr, nr));
  }

  /** The same, stated on the generator's options. */
  lemma SelectInTable(cfg: Config, mr: nat, nr: nat)
    requires ValidConfig(cfg)
    ensures Select(cfg, mr, nr).Some? <==> InTable(cfg, mr, nr)
  {
    SelectShapes(cfg, mr, nr);
    ShapesMembers(cfg, Kernel(mr, nr));
  }

  /** The build's instantiation: `config.gemm(simd_width, simd_width * 3, 1, 8, simd)`
      with a width of 4 (AVX) or 8 (Xeon Phi). */
  function Configured(width: nat): (cfg: Config)
    requires width == 4 || width == 8
    ensures ValidConfig(cfg)
  {
    Config(width, 3 * width, 1, 8, width)
  }

  /** The built table holds the 24 shapes `mr` in {w, 2w, 3w}, `nr` in 1..8,
      and every `mr` in it is a multiple of the width, which the kernel's
      register groups need to cover all rows. */
  lemma ConfiguredTable(width: nat, mr: nat, nr: nat)
    requires width == 4 || width == 8
    ensures |Shapes(Configured(width))| == 24
    ensures Select(Configured(width), mr, nr).Some?
        <==> (mr == width || mr == 2 * width || mr == 3 * width) && 1 <= nr <= 8
    ensures Select(Configured(width), mr, nr).Some? ==> mr % width == 0
  {
    var cfg := Configured(width);
    ConfiguredCases(width);
    UnitRange(1, 9);
    GridLength(MrCases(cfg), NrCases(cfg));
    SelectShapes(cfg, mr, nr);
    ConfiguredMembers(width, mr, nr);
  }

  lemma ConfiguredMembers(width: nat, mr: nat, nr: nat)
    requires width == 4 || width == 8
    ensures Kernel(mr, nr) in Shapes(Configured(width))
        <==> (mr == width || mr == 2 * width || mr == 3 * width) && 1 <= nr <= 8
    ensures Kernel(mr, nr) in Shapes(Configured(width)) ==> mr % width == 0
  {
    var cfg := Configured(width);
    ConfiguredCases(width);
    GridMembers(MrCases(cfg), NrCases(cfg), Kernel(mr, nr));
    InThree(MrCases(cfg), width, mr);
    UnitRangeMembers(1, 9, nr);
    if mr == width || mr == 2 * width || mr == 3 * width {
      MultipleOfWidth(mr, width);
    }
  }

  lemma MultipleOfWidth(mr: nat, width: nat)
    requires width > 0
    requires mr == width || mr == 2 * width || mr == 3 * width
    ensures mr % width == 0
  {
    if mr == 2 * width {
      DivModUnique(mr, width, 2, 0);
    } else if mr == 3 * width {
      DivModUnique(mr, width, 3, 0);
    }
  }

  lemma InThree(s: seq<nat>, width: nat, x: nat)
    requires s == [width, 2 * width, 3 * width]
    ensures x in s <==> x == width || x == 2 * width || x == 3 * width
  {
  }

  /** The built table's `mr` values are the width and its double and triple. */
  lemma ConfiguredCases(width: nat)
    requires width == 4 || width == 8
    ensures MrCases(Configured(width)) == [width, 2 * width, 3 * width]
    ensures NrCases(Configured(width)) == Range(1, 9, 1)
  {
    var hi := 3 * width + 1;
    assert Range(3 * width, hi, width) == [3 * width];
    assert Range(2 * width, hi, width) == [2 * width, 3 * width];
  }
}
