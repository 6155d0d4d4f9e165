/** The GEMM benchmark driver (src/ddgemm/benchmark.c): the cache-block depth
    `kc` of each kernel call, the buffers it allocates and fills, and the sweep
    over every kernel shape of the table. The clock, the median of the timings
    and the printed rate are not modelled: a benchmark line is modelled by the
    integer fields it prints and by the flop count of one kernel call. */
module GemmBenchmark {
  import opened Wrappers
  import opened IndexMath
  import opened DoubleDouble
  import opened Panels
  import opened GemmKernel
  import opened KernelTable

  /** `sizeof(double)` and `sizeof(doubledouble)`, in bytes. */
  const DoubleBytes: nat := 8
  const DoubleDoubleBytes: nat := 16

  /** `kc = block_size / ((nr + mr) * sizeof(doubledouble))`: the largest
      number of k steps whose A panel (`2*kc*mr` doubles) and B panel (`kc*nr`
      double-doubles) fit together in `block_size` bytes. */
  function Kc(blockSize: nat, nr: nat, mr: nat): (kc: nat)
    requires nr + mr > 0
    ensures kc * ((nr + mr) * DoubleDoubleBytes) <= blockSize
    ensures blockSize < (kc + 1) * ((nr + mr) * DoubleDoubleBytes)
  {
    blockSize / ((nr + mr) * DoubleDoubleBytes)
  }

  /** The kernels need `k >= 1`; `kc` is positive exactly when one step of
      both panels fits in the block. */
  lemma KcPositive(blockSize: nat, nr: nat, mr: nat)
    requires nr + mr > 0
    ensures Kc(blockSize, nr, mr) >= 1 <==> blockSize >= (nr + mr) * DoubleDoubleBytes
  {
    var kc := Kc(blockSize, nr, mr);
    if kc >= 1 {
      MulAtLeast(kc, (nr + mr) * DoubleDoubleBytes);
    }
  }

  /** A 256-byte block holds no whole step of the configured width-4 shape
      `(mr, nr) = (12, 8)`, so its `kc` is 0. The kernel's
      `do { ... } while (--k)` then runs a first step, decrements 0 to
      `2^64 - 1` and goes on, and its second step already reads `2*2*mr`
      doubles of A from a buffer of `256 / 8`. */
  lemma KcZeroWraps()
    ensures Kernel(12, 8) in Shapes(Configured(4))
    ensures Kc(256, 8, 12) == 0
    ensures Decrement(Kc(256, 8, 12)) == SizeModulus - 1
    ensures Mul(2, 2 * 12) > 256 / DoubleBytes
  {
    ConfiguredMembers(4, 12, 8);
  }

  /** The doubles of A and the double-doubles of B that a call with depth `kc`
      reads take at most `block_size` bytes together, so each panel lies
      inside its `block_size`-byte buffer. */
  lemma KcFootprint(blockSize: nat, nr: nat, mr: nat)
    requires nr + mr > 0
    ensures Mul(Kc(blockSize, nr, mr), 2 * mr) * DoubleBytes
          + Mul(Kc(blockSize, nr, mr), nr) * DoubleDoubleBytes <= blockSize
    ensures Mul(Kc(blockSize, nr, mr), 2 * mr) <= blockSize / DoubleBytes
    ensures Mul(Kc(blockSize, nr, mr), nr) <= blockSize / DoubleDoubleBytes
  {
    var kc := Kc(blockSize, nr, mr);
    MulIsTimes(kc, 2 * mr);
    MulIsTimes(kc, nr);
    assert kc * (2 * mr) * 8 + kc * nr * 16 == kc * ((nr + mr) * 16);
  }

  /** One printed line of `benchmark`: block size, `mr`, `nr`, `kc`, and in
      place of the measured rate the flop count `2*nr*mr*kc` of one call. */
  datatype Line = Line(blockSize: nat, mr: nat, nr: nat, kc: nat, flops: nat)

  /** `benchmark(ddgemm, nr, mr, iterations, block_size, ...)`, with its
      parameters in their declared order. */
  function Benchmark(nr: nat, mr: nat, blockSize: nat): (line: Line)
    requires nr + mr > 0
    ensures line.blockSize == blockSize && line.mr == mr && line.nr == nr
    ensures line.kc >= 1 <==> blockSize >= (nr + mr) * DoubleDoubleBytes
  {
    KcPositive(blockSize, nr, mr);
    var kc := Kc(blockSize, nr, mr);
    Line(blockSize, mr, nr, kc, 2 * nr * mr * kc)
  }

  /** The sweep passes `(mr, nr)` into the parameters declared `(nr, mr)`.
      Depth and flop count are symmetric in the two, so the call as written
      differs from the intended one only in the order of the two printed
      shape columns: the column printed as `mr` holds the kernel's `nr`. */
  lemma SwappedArguments(mr: nat, nr: nat, blockSize: nat)
    requires nr + mr > 0
    ensures Benchmark(mr, nr, blockSize).kc == Benchmark(nr, mr, blockSize).kc
    ensures Benchmark(mr, nr, blockSize).flops == Benchmark(nr, mr, blockSize).flops
    ensures Benchmark(mr, nr, blockSize).mr == nr && Benchmark(mr, nr, blockSize).nr == mr
  {
    assert (mr + nr) * DoubleDoubleBytes == (nr + mr) * DoubleDoubleBytes;
    var kc := Kc(blockSize, nr, mr);
    assert 2 * mr * nr * kc == 2 * nr * mr * kc;
  }

  /** The fill loops step a `double*` from the buffer start until it equals
      the start plus `block_size` bytes. After `t` steps it is `8*t` bytes in,
      so it meets the end exactly when `block_size` is a multiple of 8 (and
      then after `block_size / 8` steps); otherwise it steps past the end and
      the loop does not stop. */
  lemma FillEnds(blockSize: nat, t: nat)
    ensures Mul(t, DoubleBytes) == blockSize
        <==> blockSize % DoubleBytes == 0 && t == blockSize / DoubleBytes
  {
    MulIsTimes(t, DoubleBytes);
  }

  /** With a 12-byte block the fill pointer is 0, 8, 16, ... bytes in and
      never meets the end. */
  lemma FillMissesEnd(t: nat)
    ensures Mul(t, DoubleBytes) != 12
  {
    FillEnds(12, t);
  }

  /** One fill loop as written: every double of the buffer set to `x`. It
      stops only when `block_size` is a multiple of 8. */
  method Fill(blockSize: nat, x: real) returns (buf: seq<real>)
    requires blockSize % DoubleBytes == 0
    ensures |buf| == blockSize / DoubleBytes
    ensures forall i :: 0 <= i < |buf| ==> buf[i] == x
  {
    buf := [];
    var offset: nat := 0;
    while offset != blockSize
      invariant offset <= blockSize && offset % DoubleBytes == 0
      invariant offset == |buf| * DoubleBytes
      invariant forall i :: 0 <= i < |buf| ==> buf[i] == x
      decreases blockSize - offset
    {
      buf := buf + [x];
      offset := offset + DoubleBytes;
    }
  }

  /** The fill loop as evidently intended: the `block_size / 8` whole doubles
      of the buffer set to `x`, for every block size. */
  method FillWithin(blockSize: nat, x: real) returns (buf: seq<real>)
    ensures |buf| == blockSize / DoubleBytes
    ensures forall i :: 0 <= i < |buf| ==> buf[i] == x
  {
    buf := [];
    var offset: nat := 0;
    while offset + DoubleBytes <= blockSize
      invariant offset <= blockSize && offset == |buf| * DoubleBytes
      invariant forall i :: 0 <= i < |buf| ==> buf[i] == x
      decreases blockSize - offset
    {
      buf := buf + [x];
      offset := offset + DoubleBytes;
    }
  }

  /** The B buffer read as `doubledouble`s: consecutive pairs of doubles. */
  function Pairs(d: seq<real>): (v: seq<DD>)
    ensures |v| == |d| / 2
    ensures forall i :: 0 <= i < |v| ==> v[i] == DD(d[2 * i], d[2 * i + 1])
  {
    seq(|d| / 2, i requires 0 <= i < |d| / 2 => DD(d[2 * i], d[2 * i + 1]))
  }

  /** The generator's options that the kernels' own precondition needs: a
      positive first `mr` that is a multiple of the SIMD width. */
  predicate Buildable(cfg: Config)
  {
    ValidConfig(cfg) && cfg.mrMin > 0 && cfg.mrMin % cfg.width == 0
  }

  /** The build's configurations are buildable. */
  lemma ConfiguredBuildable(width: nat)
    requires width == 4 || width == 8
    ensures Buildable(Configured(width))
  {
    DivModUnique(width, width, 1, 0);
  }

  /** Every shape of a buildable table satisfies the kernel's requirements on
      `mr`, and fits the C buffer of `MR_MAX * NR_MAX` double-doubles. */
  lemma ShapeFits(cfg: Config, mr: nat, nr: nat)
    requires Buildable(cfg) && Kernel(mr, nr) in Shapes(cfg)
    ensures mr > 0 && mr % cfg.width == 0
    ensures nr <= cfg.nrMax && mr <= cfg.mrMax
    ensures Mul(nr, mr) <= cfg.mrMax * cfg.nrMax
  {
    ShapesMembers(cfg, Kernel(mr, nr));
    MultipleSum(cfg.mrMin, mr - cfg.mrMin, cfg.width);
    ProductBound(nr, mr, cfg.nrMax, cfg.mrMax);
  }

  lemma ProductBound(nr: nat, mr: nat, nrMax: nat, mrMax: nat)
    requires nr <= nrMax && mr <= mrMax
    ensures Mul(nr, mr) <= mrMax * nrMax
  {
    MulIsTimes(nr, mr);
    MulMono(nr, nrMax, mr);
    assert nrMax * mr <= nrMax * mrMax;
  }

  /** One `benchmark` line of the sweep: the kernel the dispatcher returns for
      `(mr, nr)`, called once with depth `kc` on the buffers' leading parts.
      The C buffer is not cleared between calls; only its first `mr*nr`
      double-doubles are touched. */
  method RunShape(rnd: Rounding, cfg: Config, blockSize: nat, a: seq<real>, b: seq<DD>, c: seq<DD>, mr: nat, nr: nat)
    returns (line: Line, cOut: seq<DD>)
    requires Buildable(cfg) && Kernel(mr, nr) in Shapes(cfg)
    requires blockSize >= (cfg.mrMax + cfg.nrMax) * DoubleDoubleBytes
    requires |a| == blockSize / DoubleBytes && |b| == blockSize / DoubleDoubleBytes
    requires |c| == cfg.mrMax * cfg.nrMax
    ensures mr > 0
    ensures line == Benchmark(mr, nr, blockSize) && line.kc >= 1
    ensures |cOut| == |c|
    ensures forall i :: Mul(nr, mr) <= i < |c| ==> cOut[i] == c[i]
  {
    ShapeFits(cfg, mr, nr);
    var kernel := Select(cfg, mr, nr);
    SelectShapes(cfg, mr, nr);
    assert kernel == Some(Kernel(mr, nr));
    line := Benchmark(mr, nr, blockSize);
    var kc := line.kc;
    SwappedArguments(mr, nr, blockSize);
    KcFootprint(blockSize, nr, mr);
    var c' := Gemm(rnd, kc, mr, nr, cfg.width, a[..Mul(kc, 2 * mr)], b[..Mul(kc, nr)], c[..Mul(nr, mr)]);
    cOut := c' + c[Mul(nr, mr)..];
  }

  /** The state of the inner loop of the sweep: one line per `nr` visited so far. */
  ghost predicate RowSwept(blockSize: nat, mr: nat, nrs: seq<nat>, lines: seq<Line>)
  {
    && |lines| <= |nrs|
    && (forall j :: 0 <= j < |lines| ==> mr + nrs[j] > 0)
    && (forall j :: 0 <= j < |lines| ==> lines[j] == Benchmark(mr, nrs[j], blockSize) && lines[j].kc >= 1)
  }

  lemma RowSweptExtend(blockSize: nat, mr: nat, nrs: seq<nat>, lines: seq<Line>, line: Line)
    requires RowSwept(blockSize, mr, nrs, lines) && |lines| < |nrs| && mr > 0
    requires line == Benchmark(mr, nrs[|lines|], blockSize) && line.kc >= 1
    ensures RowSwept(blockSize, mr, nrs, lines + [line])
  {
  }

  /** One turn of the inner loop of the sweep: the benchmark of `mr`×`nr`. */
  method RowTurn(rnd: Rounding, cfg: Config, blockSize: nat, a: seq<real>, b: seq<DD>, c: seq<DD>,
                 mr: nat, nr: nat, lines: seq<Line>)
    returns (lines': seq<Line>, cOut: seq<DD>)
    requires Buildable(cfg) && mr in MrCases(cfg)
    requires blockSize >= (cfg.mrMax + cfg.nrMax) * DoubleDoubleBytes
    requires |a| == blockSize / DoubleBytes && |b| == blockSize / DoubleDoubleBytes
    requires |c| == cfg.mrMax * cfg.nrMax
    requires nr == cfg.nrMin + |lines| && nr <= cfg.nrMax
    requires RowSwept(blockSize, mr, NrCases(cfg), lines)
    ensures |lines'| == |lines| + 1 && |cOut| == |c|
    ensures RowSwept(blockSize, mr, NrCases(cfg), lines')
  {
    RowShape(cfg, mr, |lines|);
    var line;
    line, cOut := RunShape(rnd, cfg, blockSize, a, b, c, mr, nr);
    RowSweptExtend(blockSize, mr, NrCases(cfg), lines, line);
    lines' := lines + [line];
  }

  /** The inner loop of the sweep, for one `mr` of the table: `nr` from
      `NR_MIN` to `NR_MAX`, one benchmark line each. */
  method SweepRow(rnd: Rounding, cfg: Config, blockSize: nat, a: seq<real>, b: seq<DD>, c: seq<DD>, mr: nat)
    returns (lines: seq<Line>, cOut: seq<DD>)
    requires Buildable(cfg) && mr in MrCases(cfg)
    requires blockSize >= (cfg.mrMax + cfg.nrMax) * DoubleDoubleBytes
    requires |a| == blockSize / DoubleBytes && |b| == blockSize / DoubleDoubleBytes
    requires |c| == cfg.mrMax * cfg.nrMax
    ensures |lines| == |NrCases(cfg)| && |cOut| == |c|
    ensures forall j :: 0 <= j < |lines| ==> mr + NrCases(cfg)[j] > 0
    ensures forall j :: 0 <= j < |lines| ==>
      lines[j] == Benchmark(mr, NrCases(cfg)[j], blockSize) && lines[j].kc >= 1
  {
    UnitRange(cfg.nrMin, cfg.nrMax + 1);
    lines, cOut := [], c;
    var nr := cfg.nrMin;
    while nr <= cfg.nrMax
      invariant nr == cfg.nrMin + |lines| && |cOut| == |c|
      invariant RowSwept(blockSize, mr, NrCases(cfg), lines)
      decreases cfg.nrMax + 1 - nr
    {
      lines, cOut := RowTurn(rnd, cfg, blockSize, a, b, cOut, mr, nr, lines);
      nr := nr + 1;
    }
  }

  /** The state of the sweep before the outer turn for `mr`: the lines of the
      shapes visited so far, and the shapes still to come. */
  ghost predicate Swept(cfg: Config, blockSize: nat, mr: nat, visited: seq<Kernel>, lines: seq<Line>)
    requires ValidConfig(cfg)
  {
    && visited + Grid(Range(mr, cfg.mrMax + 1, cfg.width), NrCases(cfg)) == Shapes(cfg)
    && cfg.mrMin <= mr && (mr - cfg.mrMin) % cfg.width == 0
    && |lines| == |visited|
    && (forall i :: 0 <= i < |lines| ==> visited[i].mr + visited[i].nr > 0)
    && (forall i :: 0 <= i < |lines| ==>
         lines[i] == Benchmark(visited[i].mr, visited[i].nr, blockSize) && lines[i].kc >= 1)
  }

  /** One turn of the outer loop of the sweep. */
  method SweepTurn(rnd: Rounding, cfg: Config, blockSize: nat, a: seq<real>, b: seq<DD>, c: seq<DD>,
                   mr: nat, ghost visited: seq<Kernel>, lines: seq<Line>)
    returns (lines': seq<Line>, cOut: seq<DD>, ghost visited': seq<Kernel>)
    requires Buildable(cfg) && mr <= cfg.mrMax
    requires blockSize >= (cfg.mrMax + cfg.nrMax) * DoubleDoubleBytes
    requires |a| == blockSize / DoubleBytes && |b| == blockSize / DoubleDoubleBytes
    requires |c| == cfg.mrMax * cfg.nrMax
    requires Swept(cfg, blockSize, mr, visited, lines)
    ensures Swept(cfg, blockSize, mr + cfg.width, visited', lines') && |cOut| == |c|
  {
    var w, nrs := cfg.width, NrCases(cfg);
    RangeMembers(cfg.mrMin, cfg.mrMax + 1, w, mr);
    var row;
    row, cOut := SweepRow(rnd, cfg, blockSize, a, b, c, mr);
    var kernels := Row(mr, nrs);
    var later := Grid(Range(mr + w, cfg.mrMax + 1, w), nrs);
    GridStep(mr, cfg.mrMax + 1, w, nrs);
    Advance(visited, Grid(Range(mr, cfg.mrMax + 1, w), nrs), kernels, later, Shapes(cfg));
    LinesExtend(lines, visited, row, mr, nrs, blockSize);
    ModShift(mr + w - cfg.mrMin, w);
    lines', visited' := lines + row, visited + kernels;
  }

  /** The sweep of `main`: `mr` from `MR_MIN` to `MR_MAX` in steps of the SIMD
      width and, for each, `nr` from `NR_MIN` to `NR_MAX`. It visits the table's
      shapes in the generator's order, so the dispatcher never returns `NULL`
      here, and every call gets a depth of at least one step. */
  method Sweep(rnd: Rounding, cfg: Config, blockSize: nat, a: seq<real>, b: seq<DD>, c: seq<DD>)
    returns (lines: seq<Line>, cOut: seq<DD>)
    requires Buildable(cfg)
    requires blockSize >= (cfg.mrMax + cfg.nrMax) * DoubleDoubleBytes
    requires |a| == blockSize / DoubleBytes && |b| == blockSize / DoubleDoubleBytes
    requires |c| == cfg.mrMax * cfg.nrMax
    ensures |lines| == |Shapes(cfg)| && |cOut| == |c|
    ensures forall i :: 0 <= i < |lines| ==> Shapes(cfg)[i].mr + Shapes(cfg)[i].nr > 0
    ensures forall i :: 0 <= i < |lines| ==>
      lines[i] == Benchmark(Shapes(cfg)[i].mr, Shapes(cfg)[i].nr, blockSize) && lines[i].kc >= 1
  {
    ghost var visited: seq<Kernel> := [];
    lines, cOut := [], c;
    var mr := cfg.mrMin;
    while mr <= cfg.mrMax
      invariant Swept(cfg, blockSize, mr, visited, lines) && |cOut| == |c|
      decreases cfg.mrMax + 1 - mr
    {
      lines, cOut, visited := SweepTurn(rnd, cfg, blockSize, a, b, cOut, mr, visited, lines);
      mr := mr + cfg.width;
    }
    assert visited == Shapes(cfg);
  }

  /** Moving the head of the pending part to the done part. */
  lemma Advance<T>(done: seq<T>, pending: seq<T>, head: seq<T>, rest: seq<T>, all: seq<T>)
    requires done + pending == all && pending == head + rest
    ensures done + head + rest == all
  {
    assert done + (head + rest) == done + head + rest;
  }

  /** The lines of one more row of the sweep continue the correspondence
      between lines and visited shapes. */
  lemma LinesExtend(lines: seq<Line>, visited: seq<Kernel>, row: seq<Line>, mr: nat, nrs: seq<nat>, blockSize: nat)
    requires |lines| == |visited| && |row| == |nrs|
    requires forall i :: 0 <= i < |lines| ==> visited[i].mr + visited[i].nr > 0
    requires forall i :: 0 <= i < |lines| ==>
      lines[i] == Benchmark(visited[i].mr, visited[i].nr, blockSize) && lines[i].kc >= 1
    requires forall j :: 0 <= j < |row| ==> mr + nrs[j] > 0
    requires forall j :: 0 <= j < |row| ==>
      row[j] == Benchmark(mr, nrs[j], blockSize) && row[j].kc >= 1
    ensures forall i :: 0 <= i < |lines + row| ==> (visited + Row(mr, nrs))[i].mr + (visited + Row(mr, nrs))[i].nr > 0
    ensures forall i :: 0 <= i < |lines + row| ==>
      (lines + row)[i] == Benchmark((visited + Row(mr, nrs))[i].mr, (visited + Row(mr, nrs))[i].nr, blockSize)
      && (lines + row)[i].kc >= 1
  {
    var kernels := Row(mr, nrs);
    forall i | |lines| <= i < |lines + row|
      ensures (visited + kernels)[i] == Kernel(mr, nrs[i - |lines|])
    {
      assert kernels[i - |lines|] == Kernel(mr, nrs[i - |lines|]);
    }
  }

  /** `main`, after option parsing: the A buffer filled with `M_PI`, the B
      buffer with `M_E`, the C buffer cleared, then the sweep. The fills are
      the corrected `FillWithin`, since the loops as written stop only for a
      block size that is a multiple of 8 (`FillEnds`). Every kernel needs a
      depth of at least one step, since `kc == 0` wraps the kernel's loop
      counter (`KcZeroWraps`), so the block must hold one step of the
      largest shape. */
  method RunBenchmark(rnd: Rounding, cfg: Config, blockSize: nat, pi: real, e: real)
    returns (lines: seq<Line>)
    requires Buildable(cfg)
    requires blockSize >= (cfg.mrMax + cfg.nrMax) * DoubleDoubleBytes
    ensures |lines| == |Shapes(cfg)|
    ensures forall i :: 0 <= i < |lines| ==> Shapes(cfg)[i].mr + Shapes(cfg)[i].nr > 0
    ensures forall i :: 0 <= i < |lines| ==>
      lines[i] == Benchmark(Shapes(cfg)[i].mr, Shapes(cfg)[i].nr, blockSize) && lines[i].kc >= 1
  {
    var a := FillWithin(blockSize, pi);
    var bDoubles := FillWithin(blockSize, e);
    var b := Pairs(bDoubles);
    var c := DDZeros(cfg.mrMax * cfg.nrMax);
    var cOut;
    lines, cOut := Sweep(rnd, cfg, blockSize, a, b, c);
  }
}
