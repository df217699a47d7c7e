# SIMTiX: models and proofs

SIMTiX is a SIMT accelerator with a set of data-parallel applications. Each application exists in several forms that have to
agree bit for bit: the kernel that the threads run, the sequential reference on the board's A53, the exact golden model of the
case generator and, for two kernels, an image in RV32 machine code. This project models those forms and proves that they agree
for all inputs and under every interleaving. It also models two mechanisms of the engine whose update rules the design document
states, the reconvergence stack and the line-aggregated atomics.

| files | content |
|---|---|
| `Graphs`, `BfsKernel`, `BfsHost`, `LongPath` | shortest distances; the racy level-synchronous kernel as single memory accesses; the board's launch loop, the A53's queue search and the golden search; a graph on which the board's cap shows |
| `Rv32`, `DeviceMemory`, `BfsMachine`, `BfsThread`, `ScanAddMachine` | a small RV32 interpreter over byte-addressed buffers (RISC-V Unprivileged ISA 20191213, sections 2.4 to 2.6; section 8.4 for `amoor.w`), and the 30 and 14 words of the two images |
| `ScanKernel`, `ScanLaunch`, `ScanPlan`, `ScanLevels`, `ScanHost` | the shuffle-and-barrier scan, the recursive launch planner, its levels in the board's numbers, and the whole scan from planner to comparison |
| `CsrBuild` | the counting sort that builds the CSR graph |
| `Kmeans`, `Gemm`, `Stencil`, `StencilCap` | assignment with atomic accumulation; matrix product in three loop orders; ping-pong stencil, and the board's cap in binary32 arithmetic |
| `Packing`, `Requant`, `Mlp` | packed INT8 layouts, the requantizer in its three forms, and the network |
| `Rounding`, `Binary32`, `Binary32Proofs` | binary floating-point rounding (IEEE 754-2019, section 4.3.1), the exact binary32 arithmetic of the generator, fused multiply-add (section 5.4.1) |
| `Half`, `HalfProofs`, `DoubleRounding`, `HalfOperations` | binary16 through double: conversion, narrowing, and why rounding twice is harmless |
| `Reconvergence`, `WarpStack`, `AmoLine` | the two engine mechanisms; `WarpStack` holds a warp's stack in arrays, in place |
| `MemoryImage` | the generator's memory image, its text form and its reader |
| `Compact` | layout compaction of the datapath figures |
| `Words`, `Sums`, `Powers`, `Finite`, `Wrappers` | shared definitions |

A launch is modelled as a state machine whose step is one visible access of one thread (or one instruction of one hart); a schedule
is any sequence of thread numbers. Every such machine has an invariant kept by each step, a statement about complete schedules,
and a bound showing that no schedule runs forever. Beside it there is an imperative form that writes the result buffers in place
under an arbitrary choice of the next thread. Machine words wrap modulo 2^32 explicitly. Program counters of the images are
relative to the image's first word. The scan is proved for blocks of four warps of any number of lanes above one; the constants of
`kernel.cpp` are the case of eight.

## Results that differ from the sources' wording

- The board's BFS loop (`sw/ps_host/apps.c:433`) stops after 64 launches. It agrees with the queue search exactly when the
  eccentricity of vertex 0 is at most 64 (`BfsHost.AcceleratorBfs`, `BfsHost.CompareOnBoard`), hence on every graph of at most 65
  vertices. On the path of n vertices, a tree the edge generator can draw, it agrees exactly for n up to 65 (`LongPath.ComparePath`).
- The board's stencil prepares at most 16 launches (`sw/ps_host/apps.c:328`) but looks in buffer `sweeps % 2`. In binary32 with the
  hosts' coefficients, that buffer holds the requested number of sweeps of every grid exactly when at most 16 are requested; one
  point of 0.5 in a zero halo tells the difference for every larger number (`StencilCap.CapIsExact`). The comparison with the A53
  still succeeds, because the reference is capped in the same way (`Stencil.BoardStencil`).
- The comment at `sim/gen_apps.py:70` says 2^e <= x < 2^(e+2). For arbitrary fractions the code gives 2^(e-1) < x < 2^(e+1)
  (`Binary32Proofs.EstimateBracket`), and the comment holds exactly when the guard on the next line is false
  (`Binary32Proofs.EstimateCommentIff`). It fails for non-dyadic fractions such as 1/3 only: everything the generator rounds has a
  power of two as its denominator, and there the comment is right and the correction never runs
  (`Binary32Proofs.CommentHoldsForGenerator`). The result of `fr2f` is correct for all fractions.
- `fr2f(f2fr(b)) == b` for every finite pattern except negative zero, which comes back as +0 (`Binary32Proofs.RoundTrip`).
- The comment at `tests/fpu_ref.c:129` calls the double fma exact. It is exact precisely when the integer (a * b + c) * 2^48 has a
  significand of at most 53 bits (`HalfOperations.HfmaExactIff`), which fails for some halves (`HalfOperations.FmaNotExact`). The
  format-width rule the comment quotes does not cover fma either; the narrowed result is nevertheless the single correct
  rounding (`HalfOperations.HfmaDirect`).
- k-means distances fit for coordinates below 2^15, twice the range drawn, and 2^15 is too large (`Kmeans.LimitIsTight`).
- The compaction map is monotone on all coordinates only if it cuts nothing (`Compact.MonotoneIffNoCut`). On what is drawn it keeps
  the order, for a gap of at least the slack of 1e-9, exactly when the axis is clean: no corridor is cut by less than the slack
  while the next interval reaches past it (`Compact.OrderPreserved`). Otherwise two points of that interval change places
  (`Compact.UncleanSwaps`; `Compact.DrawingSwaps` is such a drawing). The same condition decides whether merged intervals move as a
  whole (`Compact.RigidIffClean`).
- A memory image reads back correctly for windows of up to 2^26 words. In a larger window a non-empty image comes back displaced by
  2^26 words; it is right all the same only if the addresses wrap around the window and the words repeat with that rotation
  (`MemoryImage.WindowIsExact`), as in a window filled with one value (`MemoryImage.FullWindowRotates`).

## Model

| member | source | states |
|---|---|---|
| `Graphs.DistBound` | sw/ps_host/apps.c:443-452 | a shortest distance is below the number of vertices, so no label collides with UNSEEN |
| `Graphs.LabelStep` | baselines/vortex/simtix_apps/kernel.cpp:81-95 | the labels of level n + 1 are those of level n plus n + 1 on exactly the unseen targets of level-n vertices |
| `Graphs.EccentricityExists` | sim/gen_apps.py:266-278 | every graph has a largest finite distance from vertex 0, below its number of vertices |
| `Graphs.EccentricityBound` | sw/ps_host/apps.c:433 | an eccentricity is below the number of vertices, so up to 65 vertices the cap never bites |
| `Graphs.NoGaps` | sim/gen_apps.py:266-278 | every distance up to the eccentricity is taken, so stopping at the first empty level misses nothing |
| `Graphs.LabelsComplete` | sw/ps_host/apps.c:433-437 | labels up to level n are all distances exactly when the eccentricity is at most n |
| `Graphs.DistancesUnique` | sw/ps_host/apps.c:455 | two arrays that both hold the shortest distances are equal, so correct searches agree bit for bit |
| `BfsKernel.StepInv` | baselines/vortex/simtix_apps/kernel.cpp:81-95 | each single read, racy write or atomic OR of any thread keeps the launch invariant |
| `BfsKernel.LaunchTheorem` | baselines/vortex/simtix_apps/kernel.cpp:81-95 | after any complete interleaving exactly the vertices at distance at most L + 1 are labelled and the flag is 1 iff level L + 1 is non-empty |
| `BfsKernel.StepProgress` | baselines/vortex/simtix_apps/kernel.cpp:81-95 | each access of an unfinished thread lowers a bound: no interleaving runs forever |
| `BfsHost.StepInPlace` | baselines/vortex/simtix_apps/kernel.cpp:81-95 | one access performed on the level array in place is the protocol's step |
| `BfsHost.RunLaunch` | baselines/vortex/simtix_apps/kernel.cpp:81-95 | a launch with an adversarial scheduler terminates with the next level's labels and the right flag |
| `BfsHost.LevelNonEmptyIff` | sim/gen_apps.py:275-278 | level d has a vertex exactly for d up to the eccentricity |
| `BfsHost.AcceleratorBfs` | sw/ps_host/apps.c:419-437 | the board loop makes eccentricity + 1 launches or 64 if that is fewer; the array is the answer iff the eccentricity is at most 64 |
| `BfsHost.VisitRow` | sw/ps_host/apps.c:448-451 | visiting one dequeued vertex keeps the search invariant: queue order by distance, labels correct, queue never overruns nv |
| `BfsHost.QueueBfs` | sw/ps_host/apps.c:443-452 | the queue search leaves the shortest distance of every vertex, UNSEEN where there is none |
| `BfsHost.GoldenLevel` | sim/gen_apps.py:269-274 | one golden level labels and collects exactly the vertices of the next level |
| `BfsHost.GoldenBfs` | sim/gen_apps.py:264-281 | the golden levels are the distances, there are eccentricity + 1 launches, and flag l is 1 iff level l + 1 is non-empty |
| `BfsHost.CompareOnBoard` | sw/ps_host/apps.c:432-455 | the board comparison succeeds, under every interleaving, exactly when the eccentricity is at most 64; always up to 65 vertices |
| `LongPath.PathEccentricity` | sw/ps_host/apps.c:405-408 | the path on n vertices has eccentricity n - 1 |
| `LongPath.BuildPath` | sw/ps_host/apps.c:405-418 | the generator's edge list of the path, sorted into CSR form, is that graph |
| `LongPath.ComparePath` | sw/ps_host/apps.c:405-455 | on the path the board comparison succeeds exactly up to 65 vertices |
| `BfsMachine.Decoded` | kernels/apps/bfs.hex:1-30 | the 30 words decode to the listing the other proofs use |
| `BfsMachine.InstructionFollows` | kernels/apps/bfs.hex:1-30 | each instruction is either the protocol's next access of that thread or invisible to it, and never traps |
| `BfsMachine.MachineStepRefines` | kernels/apps/bfs.hex:1-30 | one instruction of one hart among all keeps the refinement of the protocol |
| `BfsMachine.MachineRunRefines` | kernels/apps/bfs.hex:1-30 | every instruction-level interleaving of all harts stays within the protocol and its invariant |
| `BfsMachine.ImageTheorem` | kernels/apps/bfs.hex:1-30 | no interleaving traps; once all harts have retired, memory holds the next level's labels and flag, and nothing else changed |
| `BfsThread.KernelThread` | baselines/vortex/simtix_apps/kernel.cpp:81-95 | the C loop run alone labels exactly the unseen targets of a frontier vertex and ORs the flag iff there was one |
| `BfsThread.AloneTheorem` | kernels/apps/bfs.hex:1-30 | one hart alone reaches ecall within 12 instructions per edge and 21 more, with exactly the C function's memory effect |
| `BfsThread.MachineProgress` | kernels/apps/bfs.hex:1-30 | every instruction of an unretired hart lowers the launch's budget |
| `ScanAddMachine.Decoded` | kernels/apps/scan_add.hex:1-14 | the 14 words decode to the listing |
| `ScanAddMachine.StepInv` | kernels/apps/scan_add.hex:1-14 | every instruction of every thread keeps the launch invariant and does not trap |
| `ScanAddMachine.ImageTheorem` | kernels/apps/scan_add.hex:1-14 | no interleaving traps; at the end every out word past the first block has grown by its predecessor block's scanned total, nothing else changed |
| `ScanAddMachine.Forward` | kernels/apps/scan_add.hex:1-14 | every instruction moves the program counter up or retires, and uses up at least one of the at most 14 a thread has |
| `ScanAddMachine.LaunchLength` | kernels/apps/scan_add.hex:1-14 | a launch of n threads executes at most 14 * n instructions under every interleaving |
| `ScanAddMachine.ResultIsAddWord` | baselines/vortex/simtix_apps/kernel.cpp:122-126 | the image's result is the word the planned add launch of the scan stands for |
| `ScanKernel.WarpScanCorrect` | baselines/vortex/simtix_apps/kernel.cpp:104-109 | the shuffle loop is the inclusive prefix sum modulo 2^32 of the warp, for any number of lanes |
| `ScanKernel.StepInv` | baselines/vortex/simtix_apps/kernel.cpp:102-119 | every action of every warp (shuffles, shared store, barrier, adding a lower warp's total, result store) keeps the invariant |
| `ScanKernel.FinishedEffect` | baselines/vortex/simtix_apps/kernel.cpp:102-119 | when all warps have finished, every out word is its block's prefix sum and every block total is stored |
| `ScanKernel.NoDeadlock` | baselines/vortex/simtix_apps/kernel.cpp:113 | while a warp is unfinished, some warp can act: the barrier never blocks all of them |
| `ScanKernel.StepProgress` | baselines/vortex/simtix_apps/kernel.cpp:102-119 | every action brings the launch closer to its end |
| `ScanLaunch.RunScan` | baselines/vortex/simtix_apps/kernel.cpp:102-119 | one launch under an adversarial scheduler, with arbitrary initial shared memory, leaves all blocks scanned and the totals' padding untouched |
| `ScanPlan.Halve` | sw/ps_host/apps.c:489-490 | the halving loop ends, with a row count between 1 and its start whose segments tile m exactly |
| `ScanLevels.SegmentChoice` | sw/ps_host/apps.c:489-490 | a segment has min(m / LANES, 64) rows halved j times, at most 64, and no earlier value of that chain tiles m; 64 rows whenever 64-row segments tile m, so 512 words when 512 divides m |
| `ScanLevels.HalvedQuotient` | sw/ps_host/apps.c:490 | halving j times divides by 2^j |
| `ScanLevels.BlockLevel` | sw/ps_host/apps.c:467-482 | one level of the block plan in numbers: blocks of 32, totals padded to 32, 16-word alignment, 3 and 2 parameter words, scan, then the totals' plan, then the add |
| `ScanLevels.SegmentLevel` | sw/ps_host/apps.c:487-504 | one level of the segmented plan in numbers: totals padded to 8, 4 and 3 parameter words, scan, then the totals' plan, then the add |
| `ScanPlan.LevelShrinks` | sw/ps_host/apps.c:467-504 | each level's problem is strictly smaller than the one it serves |
| `ScanPlan.AddBack` | baselines/vortex/simtix_apps/kernel.cpp:122-126 | a block prefix plus the scanned totals of the earlier blocks is the whole prefix |
| `ScanPlan.LevelCombines` | sw/ps_host/apps.c:474-480 | scan launch, recursive scan of the zero-padded totals and add launch, in that order, leave the whole prefix sum |
| `ScanPlan.PlanCorrect` | sw/ps_host/apps.c:467-517 | executing a plan in order leaves the inclusive prefix sum modulo 2^32 of any valid length at its output and changes only its own buffers, for blocks and for segments |
| `ScanHost.LaunchIsKernel` | sw/ps_host/apps.c:517 | a planned block launch leaves exactly what the kernel leaves |
| `ScanHost.PlanLength` | sw/ps_host/apps.c:463-504 | e levels make at most 2e - 1 entries |
| `ScanHost.PlanFitsTable` | sw/ps_host/apps.c:463-504 | a plan that fits the 256 MB arena has at most 16 entries, for blocks and for segments |
| `ScanHost.Planner.Alloc` | sw/ps_host/apps.c:148-157 | 64-byte aligned bump allocation, refused exactly when the arena overflows |
| `ScanHost.Planner.SegmentRows` | sw/ps_host/apps.c:489-490 | the loop computes the halving function; it returns between 1 and 64 rows, and 64 whenever 64-row segments tile m |
| `ScanHost.Planner.Level` | sw/ps_host/apps.c:467-504 | the recursive planner appends exactly the specified plan, zeroes the totals, and overflows exactly when that plan does not fit |
| `ScanHost.RunningSum` | sw/ps_host/apps.c:523-524 | the A53's running sum is the prefix sum modulo 2^32 |
| `ScanHost.LaunchScan` | sw/ps_host/apps.c:517 | a block-scan launch on the arena, any interleaving, has the specified effect |
| `ScanHost.LaunchAdd` | baselines/vortex/simtix_apps/kernel.cpp:122-126 | the add threads in any order add each block's scanned total exactly once |
| `ScanHost.RunPlan` | sw/ps_host/apps.c:516-517 | the launch loop executes the plan |
| `ScanHost.CompareOnBoard` | sw/ps_host/apps.c:506-527 | plan, launches and comparison: whenever the plan fits, the output buffer in device memory and the running sum are equal, word t being the wrapped sum of the first t + 1 inputs |
| `CsrBuild.CountSources` | sw/ps_host/apps.c:414-415 | rowptr[v + 1] is the number of edges out of v |
| `CsrBuild.Accumulate` | sw/ps_host/apps.c:416 | rowptr becomes the running total of the counts |
| `CsrBuild.CursorInside` | sw/ps_host/apps.c:418 | the cursor of the edge being placed is inside its own row |
| `CsrBuild.PlaceStep` | sw/ps_host/apps.c:418 | placing one edge extends its row and moves no entry placed before |
| `CsrBuild.PlaceTargets` | sw/ps_host/apps.c:417-418 | cursors and placement fill col with the rows, stable |
| `CsrBuild.BuildCsr` | sw/ps_host/apps.c:414-418 | the five passes build the CSR structure of every edge list |
| `CsrBuild.CsrMeaning` | sw/ps_host/apps.c:414-418 | row pointers rise from 0 to m, slice v is the targets of v's edges in list order, and the graph has an edge exactly where the list has one |
| `Rounding.NearestUnique` | sim/gen_apps.py:63-85 | at most one pattern is the nearest with ties to even |
| `Rounding.ScaledNearest` | sim/gen_apps.py:74-80 | rounding the scaled quotient half to even yields the nearest pattern, subnormals and the carry into the next binade included |
| `Binary32Proofs.EstimateBracket` | sim/gen_apps.py:70 | the bit-length estimate e satisfies 2^(e-1) < x < 2^(e+1) |
| `Binary32Proofs.EstimateCommentIff` | sim/gen_apps.py:70-72 | the bracket in the comment holds iff the guard of the correction is false |
| `Binary32Proofs.EstimateDyadic` | sim/gen_apps.py:70-72 | for a power of two as denominator the comment holds and the correction does not run |
| `Binary32Proofs.ArgumentsAreDyadic` | sim/gen_apps.py:55-90 | decoded patterns, their sums and products, and integers all have such denominators |
| `Binary32Proofs.CommentHoldsForGenerator` | sim/gen_apps.py:70-72 | so the comment holds for every value the generator rounds, in lowest terms |
| `Binary32Proofs.EstimateCommentFails` | sim/gen_apps.py:70 | 1/3, which the generator never rounds, violates the bracket in the comment |
| `Binary32Proofs.ExponentBracket` | sim/gen_apps.py:70-73 | after correction and clamp, 2^e <= x < 2^(e+1), or e is -126 and only the upper bound holds |
| `Binary32Proofs.Fr2fNearest` | sim/gen_apps.py:63-85 | the result is the nearest pattern, and fails exactly when that is past the largest finite one |
| `Binary32Proofs.Fr2fCorrect` | sim/gen_apps.py:63-85 | every result is the correct rounding of its argument, with its sign; zero gives +0 |
| `Binary32Proofs.Fr2fOverflow` | sim/gen_apps.py:81-85 | overflow is reported exactly from 2^128 - 2^103 on |
| `Binary32Proofs.F2FrValue` | sim/gen_apps.py:55-60 | decoding is exact on finite patterns and refused on the others |
| `Binary32Proofs.RoundTrip` | sim/gen_apps.py:55-85 | decoding and rounding returns every finite pattern, -0 as +0 |
| `Binary32Proofs.Fr2fInvariant` | sim/gen_apps.py:63-85 | rounding depends on the rational, not on how it is written |
| `Binary32Proofs.FmaRoundsOnce` | sim/gen_apps.py:90 | fma is the single correct rounding of the exact a * b + c |
| `Binary32Proofs.AddMulRoundOnce` | sim/gen_apps.py:88-89 | fadd and fmul are single correct roundings of the exact sum and product |
| `HalfProofs.NarrowCorrect` | tests/fpu_ref.c:104-116 | the assembled bits are the correctly rounded half magnitude |
| `HalfProofs.D2hCorrect` | tests/fpu_ref.c:97-117 | every finite double narrows to the nearest half, ties to even, from 2^-14 up; to signed zero below; to infinity past the largest half |
| `HalfProofs.D2hMonotone` | tests/fpu_ref.c:97-117 | a larger double never narrows to a smaller half |
| `DoubleRounding.NarrowInnocuous` | tests/fpu_ref.c:123-132 | if the exact value keeps clear of the half boundaries it does not lie on, rounding to double first changes nothing |
| `HalfOperations.H2dExact` | tests/fpu_ref.c:87-93 | widening is exact on finite halves, subnormals flushed, sign kept |
| `HalfOperations.ClearFma` | tests/fpu_ref.c:129-138 | the exact a * b + c of three halves keeps clear of every half boundary it does not lie on |
| `HalfOperations.ClearQuotient` | tests/fpu_ref.c:123-126 | so does the quotient of two halves |
| `HalfOperations.HaddDirect` | tests/fpu_ref.c:119 | the half sum is the exact sum rounded once |
| `HalfOperations.HsubDirect` | tests/fpu_ref.c:120 | the half difference is the exact difference rounded once |
| `HalfOperations.HmulDirect` | tests/fpu_ref.c:121 | the half product is the exact product rounded once |
| `HalfOperations.HdivDirect` | tests/fpu_ref.c:126 | the half quotient is the exact quotient rounded once; division by zero gives the signed infinity or the canonical NaN |
| `HalfOperations.HfmaDirect` | tests/fpu_ref.c:133-138 | the fused multiply-add, with either negation, is the exact value rounded once; an exact zero is negative iff product and addend both are |
| `HalfOperations.HaddExact` | tests/fpu_ref.c:119 | half sums are exact in double |
| `HalfOperations.HmulExact` | tests/fpu_ref.c:121 | half products are exact in double |
| `HalfOperations.HfmaExactIff` | tests/fpu_ref.c:129-138 | for all halves and negations the double fma is exact iff the integer (a * b + c) * 2^48 has a significand of at most 53 bits |
| `HalfOperations.FmaNotExact` | tests/fpu_ref.c:129-130 | it does not for 65504 * 65504 + 1025 * 2^-24, so the double fma is not always exact |
| `HalfOperations.HfmaAnswers` | tests/fpu_ref.c:133-138 | the fused multiply-add has an answer for all finite halves |
| `HalfOperations.HaddAnswers` | tests/fpu_ref.c:119-120 | so have sum and difference |
| `HalfOperations.HmulAnswers` | tests/fpu_ref.c:121 | so has the product |
| `HalfOperations.HdivAnswers` | tests/fpu_ref.c:126 | so has the quotient, by zero included |
| `HalfOperations.DirectUnique` | tests/fpu_ref.c:123-132 | one direct rounding determines the half, so each operation returns exactly its bits |
| `Reconvergence.IssueKeepsStack` | docs/architecture.md:130-168 | every issue slot of every program keeps masks strictly shrinking and non-empty up the stack |
| `Reconvergence.DepthBound` | docs/architecture.md:163-165 | a warp of L lanes never holds more than L frames |
| `Reconvergence.IssueIsSoloStep` | docs/architecture.md:148-168 | an issue slot advances the top frame's lanes by one step of their own and no other lane |
| `Reconvergence.RunIsSolo` | docs/architecture.md:148-168 | for any program and run, each lane is at some point of its own solo run |
| `Reconvergence.RetiredIsSolo` | docs/architecture.md:148-168 | a retired warp leaves each lane in a final state of its solo run |
| `Reconvergence.CompileWellNested` | docs/architecture.md:154-159 | structured programs of single-sided ifs and loops compile to well-nested branches |
| `Reconvergence.NeverStuck` | docs/architecture.md:130-132 | an unretired warp of a well-nested program always pops or executes |
| `Reconvergence.WarpRetires` | docs/architecture.md:148-168 | if every lane alone halts, the warp retires within twice the lanes' steps and the frames held |
| `Reconvergence.WarpEqualsLanes` | docs/architecture.md:148-168 | the warp retires iff all lanes halt alone, and then each lane holds the state it reaches alone |
| `Reconvergence.FinalStateUnique` | docs/architecture.md:148-168 | a lane has one final state, so the previous statement determines it |
| `Reconvergence.CompileMeans` | docs/architecture.md:154-159 | compiled code run by one lane carries out a meaning of the structured statement |
| `Reconvergence.RunMeans` | docs/architecture.md:154-159 | conversely, a lane that runs through a statement leaves it in a state the statement means |
| `Reconvergence.FinalIffMeans` | docs/architecture.md:154-159 | the final states of the compiled code are exactly the meanings of the program |
| `Reconvergence.WarpMeans` | docs/architecture.md:148-168 | a warp computes the meaning of the structured program in every lane |
| `Reconvergence.RetiredMeans` | docs/architecture.md:148-168 | a retired warp holds in every lane a state the program means for its input |
| `WarpStack.WarpSlot.constructor` | docs/architecture.md:162-163 | a spawned warp holds the one base frame, with the lanes it starts with |
| `WarpStack.WarpSlot.Diverge` | docs/architecture.md:154-159 | the union frame moves to the join and the continue frame is pushed, in the arrays |
| `WarpStack.WarpSlot.IssueSlot` | docs/architecture.md:130-168 | the arrays after a slot are the specified stack; with one entry per lane the push never overruns |
| `AmoLine.RoundThenSerial` | docs/architecture.md:245-251 | a round of distinct-word lanes followed by the rest in ascending order is ascending order throughout |
| `AmoLine.RoundTakesOne` | docs/architecture.md:249-251 | a round takes one lane off every word that still has any |
| `AmoLine.ParallelRounds` | docs/architecture.md:245-254 | the parallel schedule gives every lane the old word and the line the words of the ascending serial order, touches exactly the hit words, and takes as many rounds as the most lanes on one word |
| `AmoLine.SerialRounds` | docs/architecture.md:245-248 | the serial schedule has the same outcome in one cycle per lane |
| `AmoLine.OutcomeUnique` | docs/architecture.md:245-252 | that outcome is unique, for any AMO operator, so both schedules agree |
| `Kmeans.DistanceExact` | baselines/vortex/simtix_apps/kernel.cpp:68-72 | the 32-bit distance is (px - cx)^2 + (py - cy)^2 in the integers, below the initial best |
| `Kmeans.DistanceLaws` | baselines/vortex/simtix_apps/kernel.cpp:68-72 | a distance is zero iff point and centroid coincide, and unchanged when they are exchanged |
| `Kmeans.LimitIsTight` | baselines/vortex/simtix_apps/kernel.cpp:68-72 | one more coordinate bit reaches 2^31 |
| `Kmeans.NearestIsFirstMin` | sim/gen_apps.py:231-232 | index(min(d)) is the one lowest index of a centroid nearest to the point, written over the coordinates |
| `Kmeans.FindNearest` | sw/ps_host/apps.c:381-386 | the compare loop of host and kernel finds that centroid |
| `Kmeans.AmoKeepsTally` | baselines/vortex/simtix_apps/kernel.cpp:75-77 | one atomic add, whenever it happens, keeps the sums exact modulo 2^32 |
| `Kmeans.StepInv` | baselines/vortex/simtix_apps/kernel.cpp:61-78 | every compare, store and atomic add of any thread keeps the invariant |
| `Kmeans.LaunchTheorem` | baselines/vortex/simtix_apps/kernel.cpp:61-78 | every complete interleaving leaves every point with its nearest centroid, and the golden sums and counts |
| `Kmeans.StepProgress` | baselines/vortex/simtix_apps/kernel.cpp:61-78 | a step of an unfinished thread uses up exactly one of the steps left |
| `Kmeans.LaunchLength` | baselines/vortex/simtix_apps/kernel.cpp:61-78 | a complete launch takes exactly n * (K + 4) steps, in any order |
| `Kmeans.RunLaunch` | baselines/vortex/simtix_apps/kernel.cpp:61-78 | the launch on the result buffers in place, adversarially scheduled |
| `Kmeans.HostKmeans` | sw/ps_host/apps.c:378-388 | the sequential loop leaves the same result |
| `Kmeans.Conservation` | sim/gen_apps.py:229-236 | cluster sums total the coordinate sums, counts total the points, modulo 2^32 |
| `Kmeans.CountsAreSizes` | sim/gen_apps.py:236 | with fewer than 2^32 points each count is the size of its cluster |
| `Gemm.GoldenGemm` | sim/gen_apps.py:149-155 | the per-element loop computes the product in index order, for an arbitrary fma |
| `Gemm.HostGemm` | sw/ps_host/apps.c:253-261 | the in-place i-k-j loop computes the same words |
| `Gemm.KernelThread` | baselines/vortex/simtix_apps/kernel.cpp:22-33 | one thread's pointer walk computes its element |
| `Gemm.KernelGemm` | baselines/vortex/simtix_apps/kernel.cpp:22-33 | all threads in any order compute the same words, for n a power of two |
| `Stencil.HaloFixed` | sim/gen_apps.py:203-209 | no number of sweeps changes a halo word |
| `Stencil.KernelSweep` | baselines/vortex/simtix_apps/kernel.cpp:49-58 | one launch, threads in any order, is one sweep; the word of point (i, j) is the fma of the words of rows i, i + 1, i + 2 and columns j - 1, j, j + 1 of the old grid |
| `Stencil.HostSweep` | sw/ps_host/apps.c:308-316 | the nested loops are the same sweep, with the same statement about every point |
| `Stencil.SweepPoint` | baselines/vortex/simtix_apps/kernel.cpp:55-57 | every new word is c1 * ((up + down) + (left + right)) + c0 * centre, with the five places written out |
| `Stencil.SweepMirrors` | baselines/vortex/simtix_apps/kernel.cpp:49-58 | for a commutative add, sweeping a grid mirrored left to right mirrors the swept grid |
| `Stencil.SweepFlips` | baselines/vortex/simtix_apps/kernel.cpp:49-58 | for a commutative add, sweeping a grid turned upside down turns the swept grid upside down |
| `Stencil.PingPong` | sim/gen_apps.py:194-210 | after any number of sweeps buffer sweeps mod 2 holds that iterate, the other the one before; halos never change; the second buffer's initial interior does not matter |
| `Stencil.BoardStencil` | sw/ps_host/apps.c:318-350 | which iterate the board's compared buffers hold, with the cap of 16 |
| `StencilCap.HalveRounds` | sw/ps_host/apps.c:308-316 | a one-point sweep in a zero halo is half the centre, rounded once |
| `StencilCap.HalfIsFixed` | sw/ps_host/apps.c:308-325 | with the hosts' binary32 operations and coefficients a grid that is 0.5 everywhere is a fixed point of the sweep |
| `StencilCap.CapIsExact` | sw/ps_host/apps.c:318-347 | with the hosts' binary32 operations and coefficients, the compared buffer holds the requested iterate of every grid iff at most 16 sweeps are requested; a one-point grid separates all larger numbers |
| `Packing.LaneOfPack` | sim/gen_apps.py:374-377 | each lane of a packed word is the value packed there |
| `Packing.PackOfLanes` | sim/gen_apps.py:374-377 | each word is the packing of its lanes |
| `Packing.OrIsSum` | ml/mnist_quant.py:91-93 | numpy's shifts and ORs give the same word as the sum |
| `Packing.GoldenIsPacked` | sim/gen_apps.py:393-394 | byte i of word kk * N + n is W[4kk + i][n] |
| `Packing.PackedUnique` | sim/gen_apps.py:393-394 | that condition determines the words |
| `Packing.NumpyAgrees` | ml/mnist_quant.py:98-103 | transpose, reshape, OR, transpose and flatten give the golden words |
| `Packing.FillWeights` | sw/ps_host/apps.c:563-569 | the host's byte stores, seen as words, are the golden words |
| `Requant.RoundUnique` | sim/gen_apps.py:371 | the nearest integer with ties to even is unique and is what round returns |
| `Requant.SubtractionExact` | sw/ps_host/apps.c:540 | the float difference in rne_u8 is the exact remainder |
| `Requant.RneU8Rounds` | sw/ps_host/apps.c:537-543 | truncate-and-fix rounds half to even on every float in [0, 128) |
| `Requant.ClampsAgree` | sw/ps_host/apps.c:605 | the three clamps give the same value, in [0, 127] |
| `Requant.RequantAgree` | sim/gen_apps.py:367-371 | golden, host and kernel requantizers give the same byte for every accumulator whose scaled value is defined: acc rounded to binary32, a * scale + zp rounded once, 0 below zero, 127 above 127, otherwise the nearest integer, ties to even |
| `Requant.RequantizedUnique` | sim/gen_apps.py:367-371 | that description determines the byte |
| `Requant.RequantDefined` | sim/gen_apps.py:367-371 | it is defined for every INT32 accumulator when scale and zero point are at most 2^60 |
| `Mlp.DotBound` | baselines/vortex/simtix_apps/kernel.cpp:134-139 | INT8 dot products over m terms stay within m * 2^14 |
| `Mlp.DepthIsTight` | baselines/vortex/simtix_apps/kernel.cpp:134-139 | at depth 2^17 the accumulator can wrap |
| `Mlp.MacStep` | baselines/vortex/simtix_apps/kernel.cpp:136-139 | a 32-bit accumulate step is exact up to the depth bound |
| `Mlp.PackedDot` | baselines/vortex/simtix_apps/kernel.cpp:131-139 | the packed loop computes the plain integer dot product |
| `Mlp.LayerLaunch` | baselines/vortex/simtix_apps/kernel.cpp:130-149 | one launch, threads in any order, writes the golden logits (mode 0) or activations (mode 1) |
| `Mlp.LayerMeaning` | sim/gen_apps.py:404-407 | output (b, n) of a layer is the dot product of row b with column n, and its hidden byte is that number requantized as described |
| `Mlp.HiddenIsInput` | sim/gen_apps.py:404-407 | a hidden layer's output bytes are the next layer's packed input |
| `Mlp.RunNetwork` | sw/ps_host/apps.c:582-583 | all launches in order leave the golden logits |
| `Mlp.HostDot` | sw/ps_host/apps.c:597-600 | the host's byte loop computes the same dot product |
| `Mlp.HostLayer` | sw/ps_host/apps.c:595-608 | one host layer equals the golden layer |
| `Mlp.HostNetwork` | sw/ps_host/apps.c:591-614 | the host network leaves the same golden logits |
| `MemoryImage.Disjoint` | sim/gen_apps.py:103-111 | buffers handed out by alloc share no word |
| `MemoryImage.Image.Alloc` | sim/gen_apps.py:103-111 | a line-aligned buffer after all others, initialized as given, old words kept; a list of the wrong length fails with top already moved |
| `MemoryImage.HexRoundTrip` | sim/gen_apps.py:119-120 | printing an index or a word and parsing it returns it |
| `MemoryImage.HexShape` | sim/gen_apps.py:119-120 | a word has eight lower-case hexadecimal digits, an index no leading zero |
| `MemoryImage.TextStep` | sim/gen_apps.py:116-121 | a word's line is preceded by an index line exactly at the start and where its masked index is not one more than the one before |
| `MemoryImage.Write` | sim/gen_apps.py:113-121 | the text has one line per word in address order, an index line at every jump |
| `MemoryImage.ReadImage` | baselines/vortex/simtix_apps/main.cpp:99-112 | the token loop computes the words a stream stands for, padded to whole lines |
| `MemoryImage.IndexIsPosition` | sim/gen_apps.py:117 | within a window of at most 2^26 words the mask strips exactly the base |
| `MemoryImage.IndexInjective` | sim/gen_apps.py:117 | two words of one window never share an index |
| `MemoryImage.WindowIsTight` | sim/gen_apps.py:117 | beyond 2^26 words a non-empty, tightly laid-out image does not read back, as long as its addresses stay below four times the window |
| `MemoryImage.WideWindowReads` | sim/gen_apps.py:114-121 | a wider window reads back iff its words repeat with the rotation by 2^26 and its indices end in the last line |
| `MemoryImage.WindowIsExact` | sim/gen_apps.py:113-121 | read-back is right iff the window has at most 2^26 words, nothing was allocated, or addresses wrap and the words repeat |
| `MemoryImage.FullWindowRotates` | sim/gen_apps.py:113-121 | a window filled with one value meets that last case |
| `MemoryImage.ReadText` | baselines/vortex/simtix_apps/main.cpp:105-109 | reading the lines from any key on loads the remaining words at their positions |
| `MemoryImage.ImageRoundTrip` | sim/gen_apps.py:472-473 | every image that passes the size assertion, printed and read back, has each word at (a - DDR_BASE) / 4 and zero elsewhere |
| `Compact.SortCorrect` | docs/figs/datapath_tikz/dp_engine.py:546 | the sorted list is in order and a permutation |
| `Compact.MergeStep` | docs/figs/datapath_tikz/dp_engine.py:548-552 | merging one more interval keeps the list separated, covering, and no larger than necessary |
| `Compact.Merge` | docs/figs/datapath_tikz/dp_engine.py:547-552 | the loop yields ordered, disjoint intervals that cover every input, start and end at inputs, and contain only points within the tolerance of one |
| `Compact.FindCuts` | docs/figs/datapath_tikz/dp_engine.py:553-560 | the cut list determines the map, and its total is the returned amount |
| `Compact.CompactAxis` | docs/figs/datapath_tikz/dp_engine.py:546-566 | sorting, merging and cutting together |
| `Compact.RigidIffClean` | docs/figs/datapath_tikz/dp_engine.py:559-560 | distances inside merged intervals are preserved iff every cut corridor is clean |
| `Compact.MapInside` | docs/figs/datapath_tikz/dp_engine.py:559-560 | on every axis: where each point of interval j goes |
| `Compact.CorridorWidth` | docs/figs/datapath_tikz/dp_engine.py:554-560 | the width left of each corridor: wider than the gap, outside every range to keep and cut by at least the slack, it becomes exactly the gap iff the corridor before it is fully taken at their common interval; any corridor not cut keeps its width iff the same holds |
| `Compact.PendingIff` | docs/figs/datapath_tikz/dp_engine.py:559-560 | a corridor is fully taken at an interval iff it is not cut or the interval reaches past its threshold |
| `Compact.OrderPreserved` | docs/figs/datapath_tikz/dp_engine.py:559-560 | for a gap of at least the slack, drawn points keep their strict order iff the axis is clean |
| `Compact.OrderIff` | docs/figs/datapath_tikz/dp_engine.py:553-560 | for any gap, they keep it iff the axis is clean and no corridor closes |
| `Compact.UncleanSwaps` | docs/figs/datapath_tikz/dp_engine.py:553-560 | an unclean corridor reverses two points of the next interval |
| `Compact.DrawingSwaps` | docs/figs/datapath_tikz/dp_engine.py:546-560 | a drawing of two extents on which that happens |
| `Compact.ExtentShrinks` | docs/figs/datapath_tikz/dp_engine.py:566 | the extent shrinks by exactly the returned amount iff the last corridor is taken at the right end |
| `Compact.DrawingMovesRigidly` | docs/figs/datapath_tikz/dp_engine.py:559-560 | an input extent keeps its distances iff no threshold splits it; all do on a clean axis |
| `Compact.MonotoneIffNoCut` | docs/figs/datapath_tikz/dp_engine.py:553-560 | the map is monotone on all coordinates iff every corridor is no wider than the gap or lies in a range to keep |

## Left out

- RTL pipelines, write arbiter, L1 miss handling, AXI master and scoreboard: only the two written rule sets are modelled, and their source is the design document.
- Two-sided `if/else` under the reconvergence stack: out of scope by design of the engine.
- Memory ordering weaker than interleaved single accesses, and the lane lockstep of the Vortex port: the models allow more interleavings than lockstep does.
- The repetition of launches in the board's power pass: it reuses buffers that are no longer in their launch state.
- The machine code of scan_seg, scan_segadd, gemm_rb, stencil_rb, kmeans_u, spmv_z and mlp: long images with no C counterpart; the segmented scan enters the planner by its stated contract only.
- ScanHost.CompareOnBoard: covers the block form; for the segmented form `ScanPlan.PlanCorrect` states the same about the planned launches, whose kernels are contracts there.
- Parameter blocks: their size is in the plan's arena use, their contents are carried in the plan entries; kernel pointer relocation and slot packing are not modelled.
- spmv: its loops are the inner loop of gemm with an indirection and would add only easy members.
- Square roots, NaN payloads, exception flags and integer conversions of the FPU reference; infinities and NaNs as half operands.
- Requant.RequantAgree: does not model a float overflow before the clamp, where the golden model fails an assertion and the C code would clamp an infinity.
- Word addresses beyond 2^32 in the gemm, stencil and mlp index arithmetic: indices are unbounded, as for any buffers that fit the memory.
- MemoryImage.WindowIsExact: windows of more than 2^64 words, whose indices the reader's unsigned long cannot hold, are not covered.
- MemoryImage.ReadImage: does not model allocation failure for absurd index lines, nor an unreadable file.
- Compact.MapInside: coordinates are exact reals, so rounding of the doubles in the figure scripts is not modelled; the collection of the extents from shapes and labels is an arbitrary list.
- Random inputs are arbitrary inputs within the stated bounds; clocks, caches, MMIO, timing and energy figures are left out.
