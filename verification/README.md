# FPplus kernels in Dafny

FPplus builds double-double arithmetic out of error-free transformations (EFTs). From that arithmetic it generates two families of numerical kernels:

- compensated dot products (`src/dot/dot.py`);
- a double-double GEMM microkernel `ddgemm{mr}x{nr}` together with its selection table (`src/ddgemm/ddgemm.py`).

This project models the integer and index logic around that arithmetic and proves that it computes what the kernels promise. The modelled parts are:

- the kernels the two generators emit;
- the A/B/C panel layout fixed by the GEMM tester (`test/ddgemm-tester.h`);
- the double-double array loops (`src/low-level/doubledouble.c`);
- the cache-block sizing and shape sweep of the GEMM benchmark (`src/ddgemm/benchmark.c`);
- the median helpers (`src/utils.c`);
- the two command-line parsers (`src/low-level/options.c`, `src/dot/options.c`).

Modelling choices:

- **Doubles are `real`s.** Every EFT (`efadd`, `efaddord`, `efmul`) takes an arbitrary rounding function `rnd: real -> real` as a parameter. Its head is `rnd` of the exact result and its tail is the exact residual, so head + tail equals the exact result whatever `rnd` is.
- **`ddadd`/`ddmul` are value-exact.** They are modelled by their exact contract: the value of the result (`hi + lo`) is the exact sum or product of the operands' values. The implementation header `fpplus.h` is not part of this model.
- **The plain `muladd` and `fma` dot kernels use exact arithmetic.** In exact arithmetic the two coincide.
- **SIMD registers are `seq`s of `w` lanes.** The widths are 4 (AVX) and 8 (Xeon Phi).
- **Index arithmetic is kept linear.** Index proofs use `IndexMath.Mul`, which is multiplication by repeated addition. `size_t` division is Dafny's `/` on naturals, which agrees with C on non-negative operands.
- **`sscanf("%zu")` is a parameter.** It is a `Scanner` (`string -> Option<nat>`). `printf` and `exit` become result values (`Outcome`).

Modules follow the source:

| module | models |
|---|---|
| `DoubleDouble` | `doubledouble`, EFTs, `ddadd`, `ddmul`, and vectors of them |
| `Sums` | exact sums, dot products and element-wise vectors (reference definitions) |
| `ReductionTree` | the generation-time pairwise reduction over `U` accumulators, and `_mm256_reduce_add_pd` |
| `DotKernels` | `dot_product_{muladd,fma}_unroll{U}` and `compensated_dot_product_efmuladd_unroll{U}` |
| `Panels` | the A/B/C panel layout and the reference product of the GEMM tester |
| `GemmKernel` | `ddgemm{mr}x{nr}` and the tester's single call |
| `KernelTable` | the `(mr, nr)` loops of the generator and `select_ddgemm_kernel` |
| `GemmBenchmark` | `kc`, the buffers and the sweep in `src/ddgemm/benchmark.c` |
| `DDArrays` | `vsum`, `vprod`, `vaddc`, `vmulc` and their `__KNC__` variants |
| `Median` | `compare_uint64`, `compare_double`, `median_uint64`, `median_double` |
| `CommandLine`, `DotOptions`, `LowLevelOptions` | the two `parse_options` functions |

Two facts about the generated GEMM code shape the model:

- **The kernel accumulates `va{m}b{n} = ddadd(va{m}b{n}, ddmul(va{m}, vb{n}))`.** A's entries are double-doubles packed as separate hi and lo SIMD groups (src/ddgemm/ddgemm.py:59-70).
- **The tile shapes come from `config.gemm(simd_width, simd_width*3, 1, 8, simd)`** (configure.py:356). With w in {4, 8}, `mr` is w, 2w or 3w and `nr` runs from 1 to 8.

## Model

| member | source | states |
|---|---|---|
| DoubleDouble.EfAdd | src/dot/dot.py:118-120 | two-sum: the head is the rounded sum and head + tail is exactly `a + b` |
| DoubleDouble.EfAddOrd | src/dot/dot.py:149-150 | the final `efaddord(hi, lo)` keeps hi + lo equal to the exact value while the head becomes the rounded value |
| DoubleDouble.EfMul | src/dot/dot.py:115-117 | two-product: the head is the rounded product and head + tail is exactly `a * b` |
| DoubleDouble.DDAdd | src/low-level/doubledouble.c:16 | `ddadd` yields a double-double whose value is the exact sum of the operands' values |
| DoubleDouble.DDMul | src/low-level/doubledouble.c:35 | `ddmul` yields a double-double whose value is the exact product of the operands' values |
| DoubleDouble.DDZeros | src/dot/dot.py:101-102 | a zeroed double-double register has `w` lanes, each of value 0 |
| DoubleDouble.DDVecAdd | src/dot/dot.py:129-134 | lane-wise `ddadd` of two registers is the lane-wise exact sum of their values |
| DoubleDouble.LaneTotalAdd | src/dot/dot.py:129-134 | lane-wise `ddadd` of two registers adds their total values, so tree folds preserve the total |
| Sums.Zeros | src/dot/dot.py:36-38 | a zeroed accumulator register has `w` lanes, all 0 |
| DotKernels.MulAcc | src/dot/dot.py:78-85 | both `muladd` and `fma` add the product `x*y` to the accumulator (exactly, in this model) |
| DotKernels.Registers | src/dot/dot.py:36-48 | the flat lane vector splits into `u` registers of `w` lanes each |
| DotKernels.RegisterLane | src/dot/dot.py:43-48 | lane `j` of accumulator `i` is the flat lane `i*w + j` of the loaded block |
| DotKernels.RegistersTotal | src/dot/dot.py:36-38 | splitting the `w*u` lanes into `u` registers preserves their total |
| DotKernels.RegistersTotalDD | src/dot/dot.py:101-102 | the same for the double-double accumulators |
| DotKernels.VectorTrip | src/dot/dot.py:43-55 | one vector trip keeps the `w*u` lanes; TripLane and TripIsVecAdd state what each lane gains |
| DotKernels.TripLane | src/dot/dot.py:49-55 | one vector trip adds product `pos + l` to lane `l` |
| DotKernels.TripIsVecAdd | src/dot/dot.py:43-55 | a vector trip is the element-wise addition of the next `w*u` products to the accumulator lanes |
| DotKernels.TotalStep | src/dot/dot.py:43-58 | if the lanes total the products before `pos`, after a trip they total the products before `pos + w*u` |
| DotKernels.LanesStep | src/dot/dot.py:36-55 | after a trip, lane `l` holds the sum of the products at `blk*w*u + l` over every block so far |
| DotKernels.Trip | src/dot/dot.py:42-58 | one trip of the vector loop keeps both the per-lane and the total invariant |
| DotKernels.VectorPhase | src/dot/dot.py:39-59 | the vector loop stops with fewer than `w*u` elements left; lane `l` holds exactly the products at indices `blk*w*u + l`, and the lanes total the prefix consumed |
| DotKernels.VecAddAdditive | src/dot/dot.py:64-66 | `vaddpd` on `w`-lane registers preserves lane count and adds totals, as the reduction tree requires |
| DotKernels.PhaseCounts | src/dot/dot.py:39-76 | the vector loop runs `n / (w*u)` times and the scalar tail `n % (w*u)` times |
| DotKernels.ReduceRegisters | src/dot/dot.py:61-74 | the tree over `u` registers and the horizontal sum yield the total of all lanes |
| DotKernels.TailStep | src/dot/dot.py:76-86 | one scalar trip extends the running sum by the next product |
| DotKernels.ScalarTail | src/dot/dot.py:76-86 | the scalar tail runs `n - pos` times and ends with the full dot product |
| DotKernels.DotProduct | src/dot/dot.py:28-90 | the `muladd`/`fma` kernel returns `Σ a[i]*b[i]` for every `n`, including `n < w*u` and `n = 0`; the loop counts are `n / (w*u)` and `n % (w*u)` |
| DotKernels.CompensatedStep | src/dot/dot.py:142-148 | one compensated step (`efmul`, `efadd`, `lo += e1 + e2`) grows hi + lo by exactly `x*y` |
| DotKernels.TailStepDD | src/dot/dot.py:142-148 | a compensated scalar trip extends the running exact sum by the next product |
| DotKernels.VectorTripDD | src/dot/dot.py:106-123 | one compensated vector trip keeps the `w*u` lanes; TripLaneDD states what each lane gains |
| DotKernels.TripLaneDD | src/dot/dot.py:112-123 | one compensated vector trip adds product `pos + l` to the value of lane `l` |
| DotKernels.TripDDIsVecAdd | src/dot/dot.py:106-123 | a compensated vector trip is element-wise addition of the next products to the lane values |
| DotKernels.TripDDTotal | src/dot/dot.py:103-126 | element-wise addition of the next block of products moves the lanes' total value from one prefix sum to the next |
| DotKernels.TotalStepDD | src/dot/dot.py:103-126 | after a compensated trip the lanes total the products up to `pos + w*u` |
| DotKernels.LanesStepDD | src/dot/dot.py:103-126 | after a compensated trip, lane `l` holds the products at `blk*w*u + l` over every block so far |
| DotKernels.TripDD | src/dot/dot.py:105-126 | one trip of the compensated vector loop keeps the per-lane and total invariants |
| DotKernels.VectorPhaseDD | src/dot/dot.py:103-126 | the compensated vector loop leaves lane `l` with the exact sum of its products and the lanes totalling the consumed prefix |
| DotKernels.DDVecAddAdditive | src/dot/dot.py:129-134 | `ddadd` on double-double registers preserves lane count and adds totals, as the reduction tree requires |
| DotKernels.ReduceRegistersDD | src/dot/dot.py:128-141 | the tree and the horizontal reduction give a double-double of the total value of all lanes |
| DotKernels.ScalarTailDD | src/dot/dot.py:142-148 | the compensated tail ends with hi + lo equal to the exact dot product |
| DotKernels.CompensatedDotProduct | src/dot/dot.py:93-154 | the compensated kernel returns a double-double of value exactly `Σ a[i]*b[i]` (its head is `rnd` of that value only because the model's `lo` additions are exact) |
| ReductionTree.RoundStep | src/dot/dot.py:64-66 | folding `r[i+off]` into `r[i]` turns two blocks of width `off` into one of width `2*off` |
| ReductionTree.CombinedStep | src/dot/dot.py:64-66 | a slot whose value is its `2*off` block extends the combined prefix of a round |
| ReductionTree.ReduceRound | src/dot/dot.py:63-66 | one round (`i` over `range(0, U-off, 2*off)`) takes slots holding `off`-blocks to slots holding `2*off`-blocks; its `j`-th pair is `(2*off*j, 2*off*j + off)`, every pair has `i+off < U`, and the round stops only when no further `i` has a partner |
| ReductionTree.PairsStep | src/dot/dot.py:64-66 | emitting `(i, i+off)` keeps the round's pairs in the shape of `range(0, U-off, 2*off)` and moves `i` to the next multiple of `2*off` |
| ReductionTree.RoundEnd | src/dot/dot.py:63-66 | when no partner is left, every slot of the round already holds its `2*off` block |
| ReductionTree.CombineStep | src/dot/dot.py:64-66 | the two blocks of width `off` at `i` and `i+off` together are the block of width `2*off` at `i` |
| ReductionTree.ReduceAccumulators | src/dot/dot.py:62-67 | for every `U >= 1`, the tree leaves slot 0 equal to the sum of all `U` accumulators, each counted once; every pair is `(i, i+off)` with `off` a power of two, `i` a multiple of `2*off` and `i+off < U` |
| ReductionTree.ReduceAddAvx | src/dot/dot.py:196-208 | `(x0+x2)+(x1+x3)` is the sum of all four lanes |
| ReductionTree.HorizontalSum | src/dot/dot.py:69-74 | the horizontal reduction of `vsum0` is the sum of its lanes |
| Panels.PackAtGroup | test/ddgemm-tester.h:69-70 | row `m = g*w + j` of step `k` is packed with hi at `2kmr + 2gw + j` and lo at `2kmr + (2g+1)w + j`, which are the kernel's load offsets |
| Panels.PackBound | test/ddgemm-tester.h:57-70 | when `w` divides `mr`, every packed A index lies in `[0, 2*kc*mr)` |
| Panels.UnpackStep | test/ddgemm-tester.h:69-70 | the step of a flat A index is its quotient by `2*mr` |
| Panels.UnpackGroup | test/ddgemm-tester.h:69-70 | within a step, the register group is the quotient by `2*w`, hi or lo is the half, and the lane is the remainder |
| Panels.UnpackPack | test/ddgemm-tester.h:69-70 | decoding a packed index gives back its `(k, m, part)` |
| Panels.UnpackWithinStep | test/ddgemm-tester.h:69-70 | every offset inside a step's block of `2*mr` is the packed index of one row and part |
| Panels.PackUnpack | test/ddgemm-tester.h:57-70 | every index of `[0, 2*kc*mr)` is the packed index of the `(k, m, part)` it decodes to, so the packing is onto |
| Panels.PackInjective | test/ddgemm-tester.h:69-70 | distinct `(k, m, part)` triples get distinct indices, so hi and lo slots never collide |
| Panels.BBound | test/ddgemm-tester.h:76 | B element `(k, n)` lies at `k*nr + n < kc*nr` |
| Panels.CSlotBijective | test/ddgemm-tester.h:98 | cell `(m, n)` is read at `n*mr + m < mr*nr`, and that slot determines `m` and `n` |
| Panels.PackRow | test/ddgemm-tester.h:69-70 | storing row `m` of step `k` writes exactly its hi and lo slots and leaves every other index unchanged |
| Panels.PackRowKeeps | test/ddgemm-tester.h:64-71 | storing one row does not disturb any other row already packed |
| Panels.PackA | test/ddgemm-tester.h:64-71 | after the fill loops, every `(k, m)` is packed at its hi/lo slots |
| Panels.PackB | test/ddgemm-tester.h:72-77 | the B fill produces `kc*nr` double-doubles; PackBSlot states where each element goes |
| Panels.PackBSlot | test/ddgemm-tester.h:72-77 | the B fill stores element `(k, n)` at `k*nr + n` |
| Panels.RowValuePacked | test/ddgemm-tester.h:69-70 | the double-double read back from a row's hi/lo slots is the value that was packed |
| Panels.Reference | test/ddgemm-tester.h:78-88 | the tester's exact reference `Σ_k a(k,m)*b(k,n)` for one cell, read through the packing indices; ReferenceStep and ReferenceOfPacked state its meaning |
| Panels.ReferenceStep | test/ddgemm-tester.h:78-88 | a one-step unfolding of `Reference`, used by PackedStep: one more step adds `a(k,m)*b(k,n)` for the last step, with that step's indices in bounds |
| Panels.PackedStep | test/ddgemm-tester.h:78-88 | over packed panels, one reference step adds the same term as one step of the logical product |
| Panels.ReferenceOfPacked | test/ddgemm-tester.h:78-88 | the reference read off the packed buffers equals `Σ_k rows[k][m]*cols[k][n]` |
| GemmKernel.GroupLoad | src/ddgemm/ddgemm.py:60-62 | the load of group `va{g}` gives `w` double-double lanes |
| GemmKernel.LoadA | src/ddgemm/ddgemm.py:59-62 | the loads of `groups` groups give `groups*w` lanes, one per row of the `mr = groups*w` tile; LoadALane states each lane's words |
| GemmKernel.LoadALane | src/ddgemm/ddgemm.py:59-62 | lane `j` of group `g` pairs `a[2gw + j]` (hi) with `a[(2g+1)w + j]` (lo), inside the step's `2*mr` doubles |
| GemmKernel.LoadAgrees | src/ddgemm/ddgemm.py:59-62 | the lane the kernel loads for row `m` is the double-double the tester packed for row `m` |
| GemmKernel.LoadsAgree | src/ddgemm/ddgemm.py:59-62 | the same for every row of the step at once |
| GemmKernel.KStep | src/ddgemm/ddgemm.py:65-70 | one k step keeps the `nr` by `mr` accumulator grid; StepCell states what each accumulator gains |
| GemmKernel.StepCell | src/ddgemm/ddgemm.py:65-73 | one k step adds `a(k,m)*b(k,n)` to accumulator `(m, n)` |
| GemmKernel.StepAll | src/ddgemm/ddgemm.py:65-70 | one k step extends every cell's reference sum by one step |
| GemmKernel.KernelStep | src/ddgemm/ddgemm.py:57-74 | one trip of `do { } while (--k)` reads A at the step base `2*mr*steps` and B at `nr*steps`, and advances the accumulators by one step |
| GemmKernel.RowCoverage | src/ddgemm/ddgemm.py:52-59 | the `mr / w` register groups cover all `mr` rows if and only if `w` divides `mr` |
| GemmKernel.StoreOwnerOfSlot | src/ddgemm/ddgemm.py:88-91 | every store of lane `j` of `vc{g}{n}` lands on cell `(g*w + j, n)` inside `[0, mr*nr)` |
| GemmKernel.SlotOfStoreOwner | src/ddgemm/ddgemm.py:88-91 | every index of `[0, mr*nr)` is stored by exactly one lane of one register, so C is written exactly once |
| GemmKernel.AddAccumulators | src/ddgemm/ddgemm.py:77-91 | adding the accumulators into C keeps C's `mr*nr` cells; AddAccumulatorsCell states what each cell gains |
| GemmKernel.AddAccumulatorsCell | src/ddgemm/ddgemm.py:77-91 | cell `(m, n)` of C becomes its old value plus accumulator `(m, n)` |
| GemmKernel.ZeroAccumulators | src/ddgemm/ddgemm.py:52-55 | the accumulators start at zero, which is the reference sum over zero steps |
| GemmKernel.StoreC | src/ddgemm/ddgemm.py:77-91 | after the loop, C is read once and written once: `C[n*mr+m]` gains the full reference sum of cell `(m, n)` |
| GemmKernel.Gemm | src/ddgemm/ddgemm.py:46-92 | for `k >= 1` and `w` dividing `mr`, `C_out[n*mr+m] = C_in[n*mr+m] + Σ_k A(k,m)*B(k,n)` for every cell |
| GemmKernel.KernelTest | test/ddgemm-tester.h:57-98 | packing A and B, zeroing C and calling the kernel once yields `Σ_k rows[k][m]*cols[k][n]` at `n*mr + m` |
| KernelTable.Range | src/ddgemm/ddgemm.py:43 | Python's `range(lo, hi, step)` is empty exactly when `lo >= hi` and otherwise starts at `lo` |
| KernelTable.RangeMembers | src/ddgemm/ddgemm.py:43 | `x` is in `range(lo, hi, step)` if and only if `lo <= x < hi` and `step` divides `x - lo` |
| KernelTable.UnitRangeMembers | src/ddgemm/ddgemm.py:44 | `x` is in `range(lo, hi)` if and only if `lo <= x < hi` |
| KernelTable.UnitRange | src/ddgemm/ddgemm.py:44 | `range(lo, hi)` lists `lo, lo+1, …, hi-1` |
| KernelTable.Row | src/ddgemm/ddgemm.py:44-45 | the inner loop emits one kernel per `nr`, in order |
| KernelTable.GridMembers | src/ddgemm/ddgemm.py:43-44 | the nested loops emit `(mr, nr)` if and only if `mr` and `nr` are each in their range |
| KernelTable.GridStep | src/ddgemm/ddgemm.py:43-44 | the first outer iteration emits a full row, then the rest |
| KernelTable.GridLength | src/ddgemm/ddgemm.py:43-44 | the nested loops emit one kernel per pair |
| KernelTable.ShapesMembers | src/ddgemm/ddgemm.py:43-44 | a kernel is emitted if and only if `mr` is in `mr_min, mr_min+w, … <= mr_max` and `nr_min <= nr <= nr_max` |
| KernelTable.RowShape | src/ddgemm/ddgemm.py:43-44 | for every emitted `mr`, the `j`-th `nr` is `nr_min + j`, and `(mr, nr_min + j)` is emitted |
| KernelTable.SwitchCase | src/ddgemm/ddgemm.py:124-138 | a `switch` finds a case exactly when the value is one of its labels, and returns that label's position |
| KernelTable.Select | src/ddgemm/ddgemm.py:122-140 | `select_ddgemm_kernel(mr, nr)` is non-NULL if and only if `mr` is one of the outer cases and `nr` one of the inner cases, and then it returns the kernel of shape `(mr, nr)` |
| KernelTable.SelectShapes | src/ddgemm/ddgemm.py:122-140 | `select_ddgemm_kernel(mr, nr)` is non-NULL if and only if `(mr, nr)` was emitted, and then it is that kernel |
| KernelTable.SelectInTable | src/ddgemm/ddgemm.py:122-140 | `select_ddgemm_kernel` is non-NULL exactly on the table's `mr`/`nr` ranges; the inner `default` returns NULL rather than falling through |
| KernelTable.Configured | configure.py:356 | the configured table `(w, 3w, 1, 8)` is well formed |
| KernelTable.ConfiguredTable | configure.py:356 | with `w` in {4, 8} the table has 24 kernels, and selection succeeds if and only if `mr` is in {w, 2w, 3w} and `1 <= nr <= 8`; every selectable `mr` is a multiple of `w` |
| KernelTable.ConfiguredMembers | configure.py:356 | the same membership, stated on the emitted list |
| KernelTable.ConfiguredCases | configure.py:356 | the configured outer cases are `w, 2w, 3w` and the inner cases are `1..8` |
| KernelTable.MultipleOfWidth | src/simd.py:5 | each configured `mr` is a multiple of the SIMD width |
| GemmBenchmark.Kc | src/ddgemm/benchmark.c:23 | `kc` is the largest count with `kc*(nr+mr)*16 <= block_size` |
| GemmBenchmark.KcPositive | src/ddgemm/benchmark.c:23-27 | `kc >= 1`, which the kernel needs, holds if and only if `block_size >= (mr+nr)*16` |
| IndexMath.Decrement | src/ddgemm/ddgemm.py:74 | `--k` on a 64-bit `size_t` is `k - 1` for positive `k` and wraps 0 to `2^64 - 1` |
| GemmBenchmark.KcZeroWraps | src/ddgemm/benchmark.c:23-27 | a 256-byte block gives the configured width-4 shape `(12, 8)` a `kc` of 0; `--k` then wraps to `2^64 - 1`, and the second step reads past the A buffer |
| GemmBenchmark.KcFootprint | src/ddgemm/benchmark.c:23-41 | the kernel's A reads (`2*kc*mr` doubles) and B reads (`kc*nr` double-doubles) fit in the `block_size`-byte buffers |
| GemmBenchmark.Benchmark | src/ddgemm/benchmark.c:13-34 | a benchmark line records the shape and block size it is given, and its `kc` is positive exactly when the block holds one step |
| GemmBenchmark.SwappedArguments | src/ddgemm/benchmark.c:15-53 | the caller passes `(mr, nr)` into parameters declared `(nr, mr)`: `kc` and the flop count are symmetric, and only the printed columns swap |
| GemmBenchmark.FillEnds | src/ddgemm/benchmark.c:42-47 | the `double*` fill pointer meets the end pointer if and only if `block_size` is a multiple of 8, and then after exactly `block_size / 8` steps |
| GemmBenchmark.FillMissesEnd | src/ddgemm/benchmark.c:42-47 | with a 12-byte block the fill pointer never meets the end |
| GemmBenchmark.Pairs | src/ddgemm/benchmark.c:39-46 | the B buffer of doubles read as `doubledouble`s holds half as many elements, element `i` being doubles `2i` (hi) and `2i+1` (lo) |
| GemmBenchmark.Fill | src/ddgemm/benchmark.c:42-47 | the fill loop as written, for a block size that is a multiple of 8, sets all `block_size / 8` doubles of the block to the given constant |
| GemmBenchmark.FillWithin | src/ddgemm/benchmark.c:42-47 | the corrected fill sets the `block_size / 8` whole doubles of the block to the constant, for every block size |
| GemmBenchmark.ConfiguredBuildable | configure.py:356 | the configured table has `mr` a positive multiple of `w` on every row, as the kernel requires |
| GemmBenchmark.ShapeFits | src/ddgemm/benchmark.c:41-51 | every swept shape has `mr*nr <= MR_MAX*NR_MAX`, so the C buffer covers it |
| GemmBenchmark.ProductBound | src/ddgemm/benchmark.c:41 | a tile no larger than the maximum in each dimension fits the maximal C buffer |
| GemmBenchmark.RunShape | src/ddgemm/benchmark.c:52-53 | selecting and running one swept shape succeeds with `kc >= 1` and touches only the first `mr*nr` cells of C |
| GemmBenchmark.RowTurn | src/ddgemm/benchmark.c:51-53 | one inner iteration of the sweep runs the next `nr` of the row |
| GemmBenchmark.SweepRow | src/ddgemm/benchmark.c:51-54 | the inner loop runs every `nr` of the row, in order |
| GemmBenchmark.SweepTurn | src/ddgemm/benchmark.c:50-55 | one outer iteration appends one full row of shapes to the sweep |
| GemmBenchmark.Sweep | src/ddgemm/benchmark.c:50-55 | the sweep visits exactly the table's shapes, in table order, so `select_ddgemm_kernel` never returns NULL there |
| GemmBenchmark.LinesExtend | src/ddgemm/benchmark.c:50-55 | appending a row's lines extends the sweep's lines to cover the row's kernels |
| GemmBenchmark.RunBenchmark | src/ddgemm/benchmark.c:36-55 | allocating, filling (with the corrected fill) and sweeping prints one line per table shape, each with `kc >= 1`, whenever the block holds one step of the largest shape |
| DDArrays.AddFoldValue | src/low-level/doubledouble.c:13-19 | a left fold of `ddadd` from `init` has value `init` plus the sum of the elements' values |
| DDArrays.MulFoldValue | src/low-level/doubledouble.c:32-38 | a left fold of `ddmul` from `init` has value `init` times the product of the elements' values |
| DDArrays.VSum | src/low-level/doubledouble.c:13-19 | `vsum` is the left fold of `ddadd` over the array from `{0,0}`, whose value is the exact sum; it needs at least one element |
| DDArrays.VProd | src/low-level/doubledouble.c:32-38 | `vprod` is the left fold of `ddmul` from `{1,0}`, whose value is the exact product; it needs at least one element |
| DDArrays.VProdKncAsWritten | src/low-level/doubledouble.c:40-46 | the Xeon Phi `vprod` as written folds from zero and always returns value 0 |
| DDArrays.VProdKncCounterexample | src/low-level/doubledouble.c:40-46 | whenever the true product is non-zero, the fold from zero differs from the fold from `{1,0}` |
| DDArrays.VProdKnc | src/low-level/doubledouble.c:40-46 | the corrected Xeon Phi `vprod` returns the exact product |
| DDArrays.VSumKnc | src/low-level/doubledouble.c:21-27 | one lane of the Xeon Phi `vsum`: the lane's fold from zero has as value the exact sum of that lane of the array; it needs at least one register |
| DDArrays.KncZeroRegisters | src/low-level/benchmark.c:24 | with `-r 1` to `-r 7` a Xeon Phi run passes `repeats / 8 == 0` registers, and the do-while's `--array_elements` wraps 0 to `2^64 - 1` |
| DDArrays.VSumKncAnyLength | src/low-level/doubledouble.c:21-27 | the corrected Xeon Phi `vsum`, a `while` loop, is the fold from zero for every register count including 0, with the exact sum as value |
| DDArrays.VProdKncAnyLength | src/low-level/doubledouble.c:40-46 | the corrected Xeon Phi `vprod`, a `while` loop from the one register, is the fold from one for every register count including 0, with the exact product as value |
| DDArrays.VAddC | src/low-level/doubledouble.c:51-55 | afterwards `augend[i] = ddadd(old[i], addend)` for every `i`; the length is unchanged, including `n = 0` |
| DDArrays.VMulC | src/low-level/doubledouble.c:68-72 | afterwards `multiplicand[i] = ddmul(old[i], multiplier)` for every `i`; the length is unchanged |
| DDArrays.KncWritesRange | src/low-level/doubledouble.c:59-62 | the loop stepping by 2 and writing `i` and `i+1` writes exactly `[0, n)` for even `n`, and one element past the end for odd `n` |
| DDArrays.VAddCKnc | src/low-level/doubledouble.c:57-63 | for even lengths the Xeon Phi `vaddc` gives the same result as the scalar map |
| DDArrays.VMulCKnc | src/low-level/doubledouble.c:74-80 | for even lengths the Xeon Phi `vmulc` gives the same result as the scalar map |
| DDArrays.KncOddOverrun | src/low-level/benchmark.c:56 | when `repeats / 8` is odd (`-r 8` gives 1), the unrolled `vaddc` and `vmulc` write register `repeats / 8`, one past the end |
| DDArrays.VAddCKncAnyLength | src/low-level/doubledouble.c:57-63 | the corrected Xeon Phi `vaddc`, unrolled by two and finishing an odd last register with one step, equals the scalar map for every length |
| DDArrays.VMulCKncAnyLength | src/low-level/doubledouble.c:74-80 | the corrected Xeon Phi `vmulc` equals the scalar map for every length |
| Median.CompareU64 | src/utils.c:11-15 | `compare_uint64` returns -1, 0 or 1 exactly when `a < b`, `a == b` or `a > b` |
| Median.CompareDouble | src/utils.c:5-9 | `compare_double` returns -1, 0 or 1 exactly when `a < b`, `a == b` or `a > b` |
| Median.CompareU64Order | src/utils.c:11-15 | `compare_uint64` orders values by magnitude and is a total order |
| Median.CompareDoubleOrder | src/utils.c:5-9 | `compare_double` orders non-NaN values by magnitude and is a total order |
| Median.Insert | src/utils.c:29 | inserting into the sorted prefix adds exactly one element |
| Median.SortBy | src/utils.c:29 | the sort returns a permutation of its input |
| Median.InsertSorted | src/utils.c:29 | inserting into a sorted list keeps it sorted |
| Median.SortSorted | src/utils.c:18-29 | the sort returns a non-decreasing permutation of its input |
| Median.FirstIsLeast | src/utils.c:29 | the first element of a sorted list is its least |
| Median.SameFirst | src/utils.c:29 | two sorted permutations of the same values start with the same element |
| Median.Rest | src/utils.c:29 | dropping the first element of a sorted list leaves a sorted list of the remaining values |
| Median.Peel | src/utils.c:29 | two sorted permutations share their first element and their remainders are again sorted permutations |
| Median.SortedUnique | src/utils.c:29 | there is only one sorted permutation of a list, so any sort agrees with `qsort` |
| Median.MedianOfSortedU64AsWritten | src/utils.c:30-36 | as written, odd lengths give the middle element; even lengths give `(lo + hi + 1) / 2` when `lo + hi + 1` fits in 64 bits |
| Median.MedianU64WrapCounterexample | src/utils.c:33 | for `{2^64-1, 2^64-1}`, the code as written returns `2^63-1`, while the intended average is `2^64-1` |
| Median.MedianOfSortedU64 | src/utils.c:30-36 | the corrected median is the middle element for odd lengths and the rounded-up average of the two middle elements, between them, for even lengths |
| Median.MedianU64AsWrittenAgrees | src/utils.c:33 | whenever `lo + hi + 1` does not wrap, the code as written and the corrected median agree |
| Median.MedianU64 | src/utils.c:28-37 | `median_uint64` as written sorts the array into a non-decreasing permutation and returns the as-written median: the middle element for odd lengths, and for even lengths the rounded-up average of the two middle elements, lying between them, whenever `lo + hi + 1` does not wrap; it needs at least one element |
| Median.MedianU64Intended | src/utils.c:28-37 | the corrected `median_uint64` returns the rounded-up average of the two middle elements for every even length, always between them |
| Median.MedianOfSortedDouble | src/utils.c:19-25 | `median_double` picks the middle element for odd lengths and the midpoint of the two middle elements for even lengths |
| Median.MedianDouble | src/utils.c:17-26 | `median_double` sorts the array into a non-decreasing permutation and returns its median |
| Median.MedianU64Determined | src/utils.c:29 | the median, as written or corrected, does not depend on which sort produced the sorted array |
| CommandLine.PositiveValue | src/dot/options.c:24-37 | a valued flag succeeds if and only if a following token exists and scans to a positive number; a missing token is its own error |
| CommandLine.PositiveValueOfPrefix | src/dot/options.c:24-37 | reading a flag's value does not depend on the tokens after it |
| DotOptions.ParseFrom | src/dot/options.c:23-60 | the argument loop keeps `array_size >= 1` and `iterations >= 1` once they hold; stopping never yields parsed options |
| DotOptions.ParseOptions | src/dot/options.c:18-67 | on success, `array_size >= 1` and `iterations >= 1` |
| DotOptions.NoArguments | src/dot/options.c:19-22 | with no arguments, parsing fails with "the block size is not specified", since the default array size is 0 |
| DotOptions.SizeOnly | src/dot/options.c:19-37 | `-s N` or `--array-size N` with `N >= 1` yields size `N` and the default 1000 iterations |
| DotOptions.ParseAfter | src/dot/options.c:23-60 | parsing resumes from where a prefix of the arguments left off |
| DotOptions.HelpStops | src/dot/options.c:52-54 | `-h`/`--help` ends parsing with success as soon as it is reached, whatever follows |
| DotOptions.UnknownFails | src/dot/options.c:55-59 | an unknown token fails as soon as it is reached |
| DotOptions.BadValueFails | src/dot/options.c:24-51 | `-s`/`-i` with a missing, non-numeric or zero value fails |
| DotOptions.LastWins | src/dot/options.c:29-43 | a later `-s`/`-i` overrides any earlier value |
| LowLevelOptions.TypeNamed | src/low-level/options.c:37-50 | a type name is accepted only if it names a selectable benchmark |
| LowLevelOptions.TypeNamesRoundTrip | src/low-level/options.c:37-50 | every selectable benchmark is accepted by its own name (`quad-latency` only when `__float128` is available) |
| LowLevelOptions.ParseFrom | src/low-level/options.c:31-88 | the argument loop keeps the counts positive and the type selectable once they are; stopping never yields parsed options |
| LowLevelOptions.ParseOptions | src/low-level/options.c:25-95 | on success, the type is a selectable one (not none), `iterations >= 1` and `repeats >= 1` |
| LowLevelOptions.NoArguments | src/low-level/options.c:26-30 | with no arguments, parsing fails with "the benchmark type is not specified" |
| LowLevelOptions.TypeOnly | src/low-level/options.c:26-51 | `-t NAME` alone yields that type with the defaults of 1000 iterations and 1024 repeats |
| LowLevelOptions.ParseAfter | src/low-level/options.c:31-88 | parsing resumes from where a prefix of the arguments left off |
| LowLevelOptions.HelpStops | src/low-level/options.c:80-82 | `-h`/`--help` ends parsing with success as soon as it is reached |
| LowLevelOptions.UnknownFails | src/low-level/options.c:83-87 | an unknown token fails as soon as it is reached |
| LowLevelOptions.MissingValueFails | src/low-level/options.c:32-79 | `-t`, `-r` or `-i` as the last token fails with a missing-value error |
| LowLevelOptions.BadCountFails | src/low-level/options.c:57-78 | `-r`/`-i` with a non-numeric or zero value fails |
| LowLevelOptions.LastWins | src/low-level/options.c:51-79 | a later `-t`/`-r`/`-i` overrides any earlier value |

## Left out

- IEEE binary64 rounding is not modelled. The EFTs are only exact given an arbitrary head-rounding `rnd`. The accuracy properties are left out with it: ulp bounds, "no worse than double", the 5ε/10ε² dot bounds and the 1e-30 GEMM bound. The arbitrary-precision reference used to check them is left out too.
- DoubleDouble.DDAdd: modelled as value-exact; the real `ddadd` rounds, and its implementation in `fpplus.h` is not part of this model.
- DoubleDouble.DDMul: modelled as value-exact for the same reason.
- DoubleDouble.EfAddOrd: the real `efaddord` has an exact tail only when `|a| >= |b|`. The model does not state that ordering and assumes the tail is exact, including for the final `efaddord(sum.hi, sum.lo)` of the compensated kernel.
- DotKernels.CompensatedDotProduct: the plain double additions into `lo` (src/dot/dot.py:122, 147) are exact here. So the head is `rnd` of the exact dot product only in the model; the source promises a bounded error, not a correctly rounded head.
- DotKernels.DotProduct: `muladd` and `fma` are not distinguished, because both are exact in real arithmetic.
- DotKernels.ReduceRegistersDD: the horizontal reductions of a double-double register are modelled by their exact sum. The bodies of `_mm256_reduce_add_pdd` and `_mm512_reduce_add_pdd` are not part of this model.
- ReductionTree.HorizontalSum: the same for `_mm512_reduce_add_pd`.
- DDArrays.VSumKnc: needs at least one register; zero registers are a finding, with VSumKncAnyLength as the corrected loop. The Xeon Phi `vsum` has no horizontal reduction. Each of the eight lanes of its `__m512dd` accumulator folds its own lane of the array independently, and the register is returned with the lane sums kept apart. The model keeps one lane.
- DDArrays.VProdKnc: modelled at value level, for the same reason. Like VSumKnc it needs at least one register; zero registers are a finding, with VProdKncAnyLength as the corrected loop.
- DDArrays.VAddCKnc: only even register counts. An odd count writes one register past the end (see Findings), and VAddCKncAnyLength is the corrected loop.
- DDArrays.VMulCKnc: only even register counts, for the same reason, with VMulCKncAnyLength as the corrected loop.
- Median.SortBy: `qsort` is modelled as insertion sort under the same comparator. `Median.SortedUnique` shows that the sorted result does not depend on the algorithm.
- Median.MedianOfSortedDouble: `0.5*(lo + hi)` is computed exactly, and NaN ordering in `compare_double` is not modelled.
- The command-line parsers take `sscanf("%zu")` as a `Scanner` parameter, `string -> Option<nat>`. `printf`, `fprintf` and `exit` are modelled as `Outcome` values.
- The ddgemm benchmark's options parser is not part of this model.
- GemmBenchmark.RunBenchmark: models the program with the corrected fill and only for block sizes that hold one step of the largest shape. Smaller blocks give `kc == 0`, and the kernel's loop counter then wraps (see Findings).
- GemmBenchmark.RunShape: runs the kernel once, not `iterations` times. The repeated calls only add into the same C block again, and the timing around them is not modelled.
- Timing and measurement are not modelled: `cpu_ticks`, `high_precision_time`, median timing in the benchmarks, and the rates printed. This covers `src/dot/benchmark.c` and `src/low-level/benchmark.c` entirely.
- `src/low-level/quad.c` (`__float128`) and `src/low-level/polevl.c` (floating-point Horner evaluation) are not modelled.
- `configure.py` and the generators' text output are not modelled. This covers ninja generation, compiler detection and string formatting. Only the table configuration at `configure.py:356` and the widths 4 and 8 of `src/simd.py` are used.
- SIMD intrinsics are not modelled one by one. A register is a sequence of `w` lanes, and a load, broadcast or store is its effect on that sequence.

## Findings

| source | as written | input that shows it | evidently intended | confidence | as-written member | corrected member |
|---|---|---|---|---|---|---|
| src/utils.c:33 | `(array[length/2-1] + array[length/2] + 1) / 2` is computed in `uint64_t` and wraps | the sorted array `{2^64-1, 2^64-1}` yields `2^63-1` | the rounded-up average `2^64-1` of the two middle elements | not executed | Median.MedianU64WrapCounterexample | Median.MedianOfSortedU64 |
| src/ddgemm/benchmark.c:42-47 | the fill loops step a `double*` until it equals the start plus `block_size` bytes | a 12-byte block: the pointer is 0, 8, 16, ... bytes in, never equals 12, and the loop writes past the buffer | set the `block_size / 8` whole doubles of the buffer | not executed | GemmBenchmark.FillMissesEnd | GemmBenchmark.FillWithin |
| src/ddgemm/benchmark.c:23 | `kc = block_size / ((nr + mr) * 16)` is 0 when the block holds no whole step, and the kernel's `do { ... } while (--k)` (src/ddgemm/ddgemm.py:74) then wraps `k` | block size 256 with the configured width-4 shape `(12, 8)`: `kc = 0`, `--k` gives `2^64 - 1`, and the second step reads past the A buffer | every kernel call has a depth of at least one step | not executed | GemmBenchmark.KcZeroWraps | GemmBenchmark.RunBenchmark |
| src/low-level/doubledouble.c:59-62 | the Xeon Phi `vaddc` (and `vmulc`, lines 76-79) steps `i` by 2 and writes `augend[i]` and `augend[i+1]` | `-r 8` on a `__KNC__` build: the 128-byte buffer holds `8 / 8 = 1` register, and the loop writes `augend[1]` | every register updated once and nothing past the end, for any register count | not executed | DDArrays.KncOddOverrun | DDArrays.VAddCKncAnyLength |
| src/low-level/doubledouble.c:23-25 | the Xeon Phi `vsum` (and `vprod`, lines 42-44) is a `do { ... } while (--array_elements)` loop, and the benchmark passes `repeats / 8` registers (src/low-level/benchmark.c:24, 56) | `-r 4` on a `__KNC__` build: 0 registers, a first trip reads past the empty buffer, and `--array_elements` wraps to `2^64 - 1` | no trip for zero registers | not executed | DDArrays.KncZeroRegisters | DDArrays.VSumKncAnyLength |
| src/low-level/doubledouble.c:40-46 | the Xeon Phi `vprod` starts its product accumulator at zero | the one-element array `{2, 0}` yields 0 | the product 2, starting from one as the scalar `vprod` does | not executed | DDArrays.VProdKncCounterexample | DDArrays.VProdKnc |
