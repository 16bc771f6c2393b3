# Runtime kernels of MIND, modelled and proved

This project models the parts of the MIND repository whose correctness is argued in comments rather
than enforced by types, and proves the promises those comments make.

* **The thread pool** behind the multithreaded kernels (`Bands`, `Pool`, `PoolInvariant`,
  `PoolSteps`, `PoolProgress`, `PoolTheorems`, `PoolCalls`, `PoolExample`): a step system with the round mutex, the dispatch lock,
  two condition variables, one program counter per worker and per calling thread, and the unload
  destructor. Spurious wakeups are steps of their own. Bands are lists of stores, each an arbitrary
  function of the memory it sees, and they interleave store by store. The serial dispatcher built
  on Windows is the specification. `Gemv` instantiates it with the Q16.16 matrix-vector kernel.
* **The Q16.16 reductions** (`Fixed`, `Dot`, `L1`): scalar loops and their AVX2 forms, lane by lane
  with the machine widths written out.
* **The Q16.16 FFT** (`FftSpec`, `FftStage`, `FftTheorems`, `FftMeaning`, `FftReference`, `FftKernel`): the
  index-based reference on arrays, and the optimised kernel on addressed memory with its peeled
  first stage and its running addresses.
* **GenRef handles and regions** (`GenRef`, `GenRefRuns`, `Region`): the static table and the static
  frame stack as classes, and theorems over every run of calls.
* **Vec, Map and String on a byte heap** (`Heap`, `Vectors`, `Maps`, `MapFamily`, `Strings`,
  `StringFamily`, `StringConcat`, `Split`, `Decimal`): 24- and 32-byte records, backing stores that
  handles share, bytes written by overlapping 8-byte little-endian stores, and two decimal printers.
* **The assertion counter and the gate runner** (`GateText`, `GatePatterns`, `GateAssert`,
  `GateMeaning`, `RunGate`, `GateTheorems`): the two counting streams, the line patterns, and what a graded PASS means.

Conventions. `malloc` returns a block disjoint from every live one or fails; addresses are positive
and below 2^60. C's signed 64-bit accumulators are modelled as wrapping. `hide` statements only keep
definitions away from the solver where a proof does not need them. Ghost parameters such as `t`, `ks`
or `es` name the contents a handle is known to have; they are not part of the operation.

Where code and comments disagree, the code is followed:

* the AVX2 L1 distance is documented as bit-identical to the scalar one for every input; it is not,
  and `L1.L1AgreeExactly` says exactly when it is;
* the peeled FFT stage is justified by `(65536 * x) >> 16 == x exactly`; in 64-bit arithmetic that
  holds exactly for x in [-2^47, 2^47), and `FftTheorems.PeelIffUpperNear` carries the condition to the
  whole stage and the kernel's input;
* a `map_insert` is documented as non-mutating; two inserts into one handle with spare capacity share
  a slot, and `MapFamily.Fork` says what both handles then read;
* a dispatch of more bands than workers drops bands that the serial dispatcher runs;
  `PoolTheorems.PooledIsSerialIff` gives the exact condition under which that makes no difference, and
  `PoolExample.BandIsDropped` a run;
* the runner cuts output at more characters than the shim does, so a gate's unfinished last line can
  hide the shim's count; `GateTheorems.WhatIsRead` gives every case and `GateTheorems.StrayIsReal` an
  input.

## Model

| member | source | states |
|---|---|---|
| `Bands.DispatchSerial` | runtime-support/mind_intrinsics.c:1993-2001 | the serial dispatcher runs the bands in order on the caller, and does nothing for a non-positive count |
| `Bands.SerialByOwner` | runtime-support/mind_intrinsics.c:1988-2001 | for owner-computes bands the serial loop leaves in each owned cell what its band computes alone from the start memory, and leaves every other cell alone |
| `Bands.PrefixIsWhole` | runtime-support/mind_intrinsics.c:1998-2000 | stopping the loop early gives the same memory if and only if every band left out would have stored what was there |
| `Pool.PoolSize` | runtime-support/mind_intrinsics.c:2056-2060 | the processor count, raised to 1 and capped at 256 |
| `Pool.Clamp` | runtime-support/mind_intrinsics.c:2070-2079 | a round has as many bands as asked for, at least none and at most one per worker |
| `PoolInvariant.InitInv` | runtime-support/mind_intrinsics.c:2008-2024 | the pool starts in a state that satisfies the invariant |
| `PoolSteps.StepKeepsInv` | runtime-support/mind_intrinsics.c:2028-2131 | every step of every worker, caller and of the destructor, and every spurious wakeup, keeps mutual exclusion, the round bookkeeping, the history and the memory invariant |
| `PoolSteps.RunKeepsInv` | runtime-support/mind_intrinsics.c:2028-2131 | the same over whole schedules |
| `PoolSteps.WorkerReportInv` | runtime-support/mind_intrinsics.c:2045-2050 | counting a finished band and signalling keeps the number of reported workers equal to `finished` |
| `PoolSteps.CallerPublishInv` | runtime-support/mind_intrinsics.c:2083-2090 | publishing a round resets the count, bumps the generation and leaves no worker asleep behind it |
| `PoolSteps.StoreMemory` | runtime-support/mind_intrinsics.c:2045-2046 | a store made while other bands run sees what it would see alone |
| `PoolSteps.PoisonInv` | runtime-support/mind_intrinsics.c:2117-2126 | the teardown round keeps the invariant |
| `PoolProgress.ActLowers` | runtime-support/mind_intrinsics.c:2028-2131 | every step that an agent takes lowers one potential |
| `PoolProgress.SpuriousRaises` | runtime-support/mind_intrinsics.c:2033-2035 | a spurious wakeup raises it by at most two |
| `PoolProgress.RunsAreBounded` | runtime-support/mind_intrinsics.c:2028-2131 | schedule length is bounded by the potential plus three per spurious wakeup |
| `PoolProgress.SomeoneActs` | runtime-support/mind_intrinsics.c:2028-2131 | no deadlock: while a call is unfinished or a teardown is under way, some agent can act |
| `PoolTheorems.EachBandRunsOnce` | runtime-support/mind_intrinsics.c:2028-2096 | in every reachable state no band activation happens twice or unasked, and a finished round has run exactly its bands, once each, on the worker with that id |
| `PoolTheorems.ReturnLeavesNothingRunning` | runtime-support/mind_intrinsics.c:2091-2095 | past its wait loop the dispatcher finds every worker between bands with no function or argument of the round, and every band counted and ended |
| `PoolTheorems.OneWaiter` | runtime-support/mind_intrinsics.c:2048-2092 | at most one thread waits on `done`, so one signal is enough |
| `PoolTheorems.NoLostWakeup` | runtime-support/mind_intrinsics.c:2033-2048 | a worker asleep on `wake` has seen the latest generation; while a dispatcher sleeps, the worker of some unreported band is awake |
| `PoolTheorems.EveryScheduleEnds` | runtime-support/mind_intrinsics.c:2081-2131 | while no new call or unload begins, every schedule with finitely many spurious wakeups ends, within a bound; and when nothing can move every call has returned and a begun teardown has joined every worker |
| `PoolTheorems.MemoryIsSerial` | runtime-support/mind_intrinsics.c:2067-2096 | when a dispatch of owner-computes bands is past its wait loop, memory is the serial loop's |
| `PoolTheorems.DispatchIsSerial` | runtime-support/mind_intrinsics.c:2067-2096 | from taking the dispatch lock to releasing it, in every schedule, memory goes from what it was to what the serial dispatcher makes of it |
| `PoolTheorems.PooledIsSerialIff` | runtime-support/mind_intrinsics.c:2073-2096 | for any requested band count the pooled result equals the serial one if and only if the bands past the last worker would have changed nothing; always when the count fits the pool |
| `PoolCalls.EmptyCall` | runtime-support/mind_intrinsics.c:2070-2072 | a call for no bands changes nothing |
| `PoolCalls.CallDispatches` | runtime-support/mind_intrinsics.c:2067-2096 | every call that completes took the dispatch lock at one step of its schedule |
| `PoolCalls.CallIsSerial` | runtime-support/mind_intrinsics.c:2067-2096 | from the call `(fn, argbuf, stride, n_bands)` to its return, in every schedule, memory is what the serial dispatcher called with the same arguments makes, in its first pool_n bands, of the memory at the lock; its whole result if and only if the remaining bands would change nothing |
| `PoolCalls.CallRunsBand` | runtime-support/mind_intrinsics.c:2083-2086 | band i ran exactly once, as fn on argbuf + i * stride, on worker i, and the cells it owns hold what that computes alone |
| `PoolExample.AlwaysDropped` | runtime-support/mind_intrinsics.c:2073-2079 | two bands on one worker, the second writing a new cell: in every schedule the result differs from the serial one |
| `PoolExample.BandIsDropped` | runtime-support/mind_intrinsics.c:2028-2096 | one such schedule step by step from the initial state: the dispatch ends with cell 1 unwritten, where the serial dispatcher writes both |
| `PoolExample.LastBandWins` | runtime-support/mind_intrinsics.c:1998-2000 | for bands that write one cell the serial result is the last band's, so they run in order on argbuf + i * stride |
| `Gemv.RefGemv` | benches/det_gemv_q16_mt.rs:187-197 | score i is the sum over kk of catalog[i*k + kk] * query[kk] shifted right by 16 rounding down, truncated to 32 bits |
| `Gemv.RowScore` | benches/det_gemv_q16_mt.rs:190-194 | one row's running 64-bit accumulator gives that sum |
| `Gemv.RowBandsAreOwnerComputes` | runtime-support/mind_intrinsics.c:1988-1992 | contiguous row bands own disjoint output rows and read only operands |
| `Gemv.KernelCodeRuns` | runtime-support/mind_intrinsics.c:2083-2086 | band code that finds its rows from its argument address exists for every layout |
| `Gemv.SerialScores` | runtime-support/mind_intrinsics.c:1993-2001 | the serial loop over row bands leaves every row scored, for every way of cutting the rows |
| `Gemv.PooledGemvIsOracle` | benches/det_gemv_q16_mt.rs:187-197 | for every pool size, schedule and contiguous split of the M rows, and whatever else the pool runs for other callers, when a call is done each output cell holds the oracle's sum over the memory cells of its row and of the query |
| `Dot.DotScalar` | runtime-support/mind_intrinsics.c:1509-1522 | the low 32 bits of the exact sum of floor-shifted products |
| `Dot.SraiIsFloor` | runtime-support/mind_intrinsics.c:1535-1541 | the emulated shift of x is the r with 65536 * r <= x < 65536 * (r + 1), on every signed 64-bit value |
| `Dot.MulHalves` | runtime-support/mind_intrinsics.c:1557-1567 | the two widening multiplies of a 64-bit slot give the products of its even and of its odd elements |
| `Dot.LaneStep` | runtime-support/mind_intrinsics.c:1557-1574 | one trip advances a lane's accumulator by its two elements |
| `Dot.DotAvx2` | runtime-support/mind_intrinsics.c:1543-1584 | for every input and length the vector form returns what `DotScalar` returns |
| `Dot.DotRoundsDown` | runtime-support/mind_intrinsics.c:1509-1522 | what both forms add up is the exact inner product over 2^16, rounded down once per term |
| `Dot.NoOverflow` | runtime-support/mind_intrinsics.c:1509-1584 | below 2^17 elements nothing leaves the signed 64-bit range: not the scalar or tail sum after any element, not a lane before, between the two additions of, or after any trip, not a partial horizontal sum |
| `L1.L1Scalar` | runtime-support/mind_intrinsics.c:1601-1612 | the low 32 bits of the exact sum of absolute differences |
| `L1.L1Avx2` | runtime-support/mind_intrinsics.c:1616-1645 | the vector form, with the first multiple of eight elements through 32-bit lanes |
| `L1.LaneError` | runtime-support/mind_intrinsics.c:1625-1634 | a lane is right below 2^31, right modulo 2^32 at 2^31, and folds back anything wider |
| `L1.L1AgreeExactly` | runtime-support/mind_intrinsics.c:1601-1645 | the two forms agree if and only if the differences above 2^31 among the vectored elements add up to a multiple of 2^31 |
| `L1.L1AgreeWhenNear` | runtime-support/mind_intrinsics.c:1601-1645 | they agree for every length when no vectored pair is more than 2^31 apart |
| `L1.L1CanDisagree` | runtime-support/mind_intrinsics.c:1625-1626 | eight pairs, one of them (2^31 - 1, -2), give different results |
| `L1.L1IsDistance` | runtime-support/mind_intrinsics.c:1601-1612 | the scalar sum is a distance: zero exactly on equal vectors, symmetric, with the triangle inequality |
| `FftSpec.RevLoopIsRev` | benches/fft_q16.rs:322-328 | the bit loop computes the bit-reversed index behind the bits already there |
| `FftSpec.RevInvolution` | benches/fft_q16.rs:322-328 | reversing an index twice gives it back |
| `FftMeaning.RevBits` | benches/fft_q16.rs:322-328 | bit i of the reversed index is bit logn - 1 - i of the index |
| `FftSpec.SwapPassIsBitReversal` | benches/fft_q16.rs:321-335 | the in-place swap pass is exactly the bit-reversal permutation, and its own inverse, for every size 2^logn |
| `FftStage.StageIsButterflies` | benches/fft_q16.rs:337-360 | a stage replaces every cell pair by the butterfly of that pair in the stage's input, and nothing else |
| `FftStage.EveryIndexInOneButterfly` | benches/fft_q16.rs:341-357 | the start/jj loops reach every index in exactly one butterfly |
| `FftMeaning.FlyIsButterfly` | benches/fft_q16.rs:345-354 | one butterfly in plain arithmetic: the sum and difference with wr*br - wi*bi and wr*bi + wi*br over 2^16, off only by the rounding of the shifts |
| `FftMeaning.StageRounds` | benches/fft_q16.rs:337-360 | the same for butterfly t of block p of stage k, with the cells and the twiddle entry written out as indices |
| `FftTheorems.PeelExactly` | benches/fft_q16.rs:96-101 | shifting 65536 * x back by 16 in 64 bits gives x if and only if x is in [-2^47, 2^47) |
| `FftTheorems.PeelIffNear` | benches/fft_q16.rs:96-119 | the multiplication-free first stage equals the general one if and only if every partner value is in that range |
| `FftTheorems.PeelIffUpperNear` | benches/fft_q16.rs:96-119 | the same in terms of the kernel's own input: if and only if the upper half of its buffers is in that range |
| `FftTheorems.KernelIsReference` | benches/fft_q16.rs:71-171 | with tw[0] = 65536, tw[1] = 0 and the upper half of the input in that range, the kernel's values are the reference's after every stage and at the end, for every size |
| `FftTheorems.StagesBound` | benches/fft_q16.rs:336-360 | values after s stages are bounded by 3^s times the input bound, and wrapping and exact arithmetic agree |
| `FftTheorems.NoOverflow` | benches/fft_q16.rs:144-156 | when 65536 * 3^logn * M < 2^63, every product, shifted sum and result of every butterfly of every stage fits in 64 bits, and so do the sums and differences of the peeled stage; both programs hold the exact values after every stage |
| `FftTheorems.Benchmark256` | benches/fft_q16.rs:61-63 | the benchmark's size and input range are inside the bound |
| `FftMeaning.TransformOfImpulse` | benches/fft_q16.rs:318-361 | for every size and table, an impulse of 65536 * (p + iq) at index 1 is transformed into (p + iq) times the twiddle table, negated in the upper half |
| `FftMeaning.ProgramsOnImpulse` | benches/fft_q16.rs:71-171 | kernel and reference, on 64-bit words, leave the twiddle table for a unit impulse |
| `FftReference.Lcg.NextQ16` | benches/fft_q16.rs:240-242 | every sample is in [-2^18, 2^18) |
| `FftReference.ReverseBits` | benches/fft_q16.rs:322-328 | the loop returns the reversed index |
| `FftReference.SwapAll` | benches/fft_q16.rs:320-335 | both arrays become their bit-reversed permutations |
| `FftReference.FlyInPlace` | benches/fft_q16.rs:345-354 | one butterfly on the arrays |
| `FftReference.Block` | benches/fft_q16.rs:342-357 | the butterflies of one block, twiddle index advancing by the stride |
| `FftReference.StageInPlace` | benches/fft_q16.rs:338-359 | all blocks of one stage |
| `FftReference.RefFft` | benches/fft_q16.rs:318-361 | the reference leaves the transform of the arrays it was given |
| `FftKernel.SwapAll` | benches/fft_q16.rs:72-95 | the address-based swap pass is the bit reversal of both buffers and leaves the twiddles alone |
| `FftKernel.PlainStageAddr` | benches/fft_q16.rs:102-119 | the peeled stage, pairs sixteen bytes apart |
| `FftKernel.FlyAddr` | benches/fft_q16.rs:145-156 | one butterfly through its running addresses |
| `FftKernel.BlockAddr` | benches/fft_q16.rs:138-163 | the inner loop with every address advanced by a constant is the block of the reference |
| `FftKernel.BlocksAddr` | benches/fft_q16.rs:134-167 | the middle loop, block by block |
| `FftKernel.Fft` | benches/fft_q16.rs:71-171 | the kernel leaves the peeled transform in its buffers, the twiddles untouched, and returns 0 |
| `FftKernel.KernelAndReference` | benches/fft_q16.rs:296-314 | kernel and reference run on the same contents leave the same contents |
| `GenRef.PackParts` | runtime-support/mind_intrinsics.c:1822-1834 | a handle is 2^32 * slot + generation, never zero, and gives both parts back |
| `GenRef.PackOfParts` | runtime-support/mind_intrinsics.c:1822-1834 | a handle is determined by its slot and generation |
| `GenRef.FirstHandle` | runtime-support/mind_intrinsics.c:1800-1805 | the first handle of a process is 1 |
| `GenRef.ReissuedHandle` | runtime-support/mind_intrinsics.c:1948-1957 | a freed slot handed out again gives the old handle plus one |
| `GenRef.FreeFrom` | runtime-support/mind_intrinsics.c:1856-1864 | the scan finds the lowest slot not in use |
| `GenRef.Runtime.GenAlloc` | runtime-support/mind_intrinsics.c:1848-1895 | the table after an allocation, with initialisation, reuse, doubling, abort and capacity wrap |
| `GenRef.Runtime.FindFree` | runtime-support/mind_intrinsics.c:1856-1864 | the loop returns that lowest free slot |
| `GenRef.Runtime.GenDeref` | runtime-support/mind_intrinsics.c:1908-1919 | the pointer of a handle whose slot is in use with that generation, else 0 |
| `GenRef.Runtime.GenFree` | runtime-support/mind_intrinsics.c:1935-1960 | a stale or invalid handle changes nothing; a current one has its pointer freed, its slot released and its generation bumped, or the call aborts on wrap |
| `GenRefRuns.AllocClaims` | runtime-support/mind_intrinsics.c:1854-1894 | an allocation takes the lowest free slot and returns its packed handle |
| `GenRefRuns.AllocInv` | runtime-support/mind_intrinsics.c:1848-1895 | an allocation returns a non-zero handle never issued before and keeps the run's invariant |
| `GenRefRuns.FreeInv` | runtime-support/mind_intrinsics.c:1935-1960 | a free keeps the run's invariant |
| `GenRefRuns.RunInv` | runtime-support/mind_intrinsics.c:1806-1960 | every run keeps it, and issued handles are never forgotten |
| `GenRefRuns.DerefIffLive` | runtime-support/mind_intrinsics.c:1908-1960 | in every run deref returns the allocated pointer if and only if the handle was issued and not freed; freeing any other handle changes nothing |
| `GenRefRuns.HandlesNeverRepeat` | runtime-support/mind_intrinsics.c:1848-1895 | no handle value is issued twice, across reuse and growth |
| `GenRefRuns.FreedStaysDead` | runtime-support/mind_intrinsics.c:1921-1934 | a freed handle stays dead in every continuation |
| `GenRefRuns.TableIsTight` | runtime-support/mind_intrinsics.c:1848-1960 | genref_len is the peak number of live handles, capacity is 16 * 2^k and above 16 less than twice the peak, and every pointer obtained is held by one live slot or has been freed once |
| `GenRefRuns.WhenARunStops` | runtime-support/mind_intrinsics.c:1848-1960 | a call fails to return if and only if malloc fails, 2^31 handles are live, or a live handle of the last generation is freed |
| `Region.Stack.RegionEnter` | runtime-support/mind_intrinsics.c:1699-1710 | opens an empty frame, or aborts at depth 64 |
| `Region.Stack.RegionTrack` | runtime-support/mind_intrinsics.c:1721-1731 | appends a non-null pointer to the innermost frame, growing its list, and returns it |
| `Region.Stack.RegionExit` | runtime-support/mind_intrinsics.c:1738-1753 | frees the innermost frame newest first and closes it |
| `Region.RunConserves` | runtime-support/mind_intrinsics.c:1699-1753 | at every point of every run the pointers tracked in regions are exactly those freed plus those in open frames |
| `Region.EveryRunConserves` | runtime-support/mind_intrinsics.c:1694-1753 | from the empty stack, with multiplicities written out, and depth never above 64 |
| `Region.BalancedBody` | runtime-support/mind_intrinsics.c:1699-1753 | a balanced body either exceeds depth 64 and aborts, or leaves every outer frame as it was apart from its own pointers, having freed its nested regions in order |
| `Region.RegionBlock` | runtime-support/mind_intrinsics.c:1733-1753 | enter, body, exit leaves all frames unchanged and frees the body's pointers in reverse order after everything nested in it |
| `Heap.Arena.Alloc` | runtime-support/mind_intrinsics.c:219-223 | a block disjoint from all live ones, nothing else changed; 0 for a non-positive size or when memory is exhausted |
| `Heap.LoadStore` | runtime-support/mind_intrinsics.c:272-281 | loading what was stored gives it back, byte by byte in little-endian order |
| `Heap.StoreAgree` | runtime-support/mind_intrinsics.c:278-281 | a store changes its eight bytes and no others |
| `Vectors.VecNew` | runtime-support/mind_intrinsics.c:440-446 | a fresh empty vector |
| `Vectors.VecGet` | runtime-support/mind_intrinsics.c:460-463 | element i |
| `Vectors.VecReserve` | runtime-support/mind_intrinsics.c:479-490 | regrowth keeps the elements and touches nothing outside the vector |
| `Vectors.VecPush` | runtime-support/mind_intrinsics.c:474-495 | the vector gains one element at the end, its capacity kept, set to 4 or doubled; nothing outside it changes |
| `Maps.MapNew` | runtime-support/mind_intrinsics.c:556-563 | a fresh empty map |
| `Maps.MapInsert` | runtime-support/mind_intrinsics.c:604-645 | a new handle with the entry appended, capacity kept, set to 4 or doubled; what changes of older memory is at most the old handle's spare slots |
| `Maps.InsertKeepsOlder` | runtime-support/mind_intrinsics.c:597-645 | handles whose entries are outside those slots read the same and stay safe from the next insert |
| `MapFamily.InsertNewest` | runtime-support/mind_intrinsics.c:604-645 | along a chain of inserts into the newest handle, every earlier handle keeps its own entries, across sharing and regrowth |
| `MapFamily.FirstOfInsert` | runtime-support/mind_intrinsics.c:647-661 | a later insert of a present key does not change the value read; a new key reads its value |
| `MapFamily.MapGet` | runtime-support/mind_intrinsics.c:650-660 | the value at the first index holding the key, 0 when there is none |
| `MapFamily.MapContains` | runtime-support/mind_intrinsics.c:663-672 | 1 if and only if the key was inserted |
| `MapFamily.Fork` | runtime-support/mind_intrinsics.c:604-645 | two inserts into one handle: independent when its stores are full, otherwise the first result reads the second one's entry |
| `Strings.PushByte` | runtime-support/mind_intrinsics.c:812-846 | the new handle reads the old bytes and the low byte, capacity kept, set to 16 or doubled; fails only for want of memory or on a zero-capacity slice of 16 bytes or more |
| `Strings.StoreByte` | runtime-support/mind_intrinsics.c:836-838 | the 8-byte store puts one byte after those already there |
| `Strings.AppendKeepsOlder` | runtime-support/mind_intrinsics.c:812-846 | handles and slices outside the spare capacity read the same after an append and stay safe from the next |
| `StringFamily.PushNewest` | runtime-support/mind_intrinsics.c:812-846 | appending to the newest handle never changes what any older handle or slice reads |
| `StringFamily.Slice` | runtime-support/mind_intrinsics.c:914-927 | of any family member, a zero-copy view that reads exactly the bytes from max(start, 0) to min(end, len), nothing when that range is empty, with no capacity; it joins the family |
| `StringFamily.GetByte` | runtime-support/mind_intrinsics.c:786-790 | byte i |
| `StringFamily.FromBytes` | runtime-support/mind_intrinsics.c:1084-1091 | a string of the low bytes of the vector's elements, the vector intact |
| `StringFamily.ToBytes` | runtime-support/mind_intrinsics.c:1097-1104 | a vector with one element per byte, the string intact |
| `StringFamily.BytesRoundTrip` | runtime-support/mind_intrinsics.c:1084-1104 | bytes to string to bytes is the identity on values 0..255 |
| `StringConcat.CapFor` | runtime-support/mind_intrinsics.c:959-965 | the first doubling of the capacity, or of 16, that suffices, without overflow |
| `StringConcat.PushStr` | runtime-support/mind_intrinsics.c:950-988 | the new handle reads both texts at the fitted capacity, the source still reads its own, and nothing outside the destination's spare capacity changes |
| `StringConcat.PushStrNewest` | runtime-support/mind_intrinsics.c:950-988 | on the newest handle of a family, with any member as source, itself included, every older handle and slice is unchanged |
| `Split.FromRange` | runtime-support/mind_intrinsics.c:1019-1033 | a fresh string with a copy of the range, older memory unchanged |
| `Split.StringSplit` | runtime-support/mind_intrinsics.c:1039-1062 | a vector of fresh strings that are the split of the text; for an empty separator the whole text; both arguments intact |
| `Split.SegmentsAreFree` | runtime-support/mind_intrinsics.c:1035-1062 | no segment contains the separator |
| `Split.SplitIsUnique` | runtime-support/mind_intrinsics.c:1035-1062 | joining to the original with each separator the first one determines the segments |
| `Decimal.PrintI64` | runtime-support/mind_intrinsics.c:410-425 | the decimal text of every i64, within its 20-digit and 24-byte buffers |
| `Decimal.LeadingPower` | runtime-support/mind_intrinsics.c:1004-1009 | the growing divisor stops at the leading power of ten without overflow |
| `Decimal.PushI64` | runtime-support/mind_intrinsics.c:991-1016 | appends the same text as `PrintI64` writes, leaving other handles alone |
| `Decimal.ParseOfText` | runtime-support/mind_intrinsics.c:410-425 | parsing the text gives the number back, the least i64 included |
| `Decimal.TextIsDecimal` | runtime-support/mind_intrinsics.c:410-425 | the text is a minus sign exactly for negatives, then digits with no leading zero |
| `GateText.SdlcComplete` | scripts/gate_assert.py:150-153 | every way the first marker pattern can match yields the same number |
| `GateText.SdlcSound` | scripts/gate_assert.py:150-153 | a number is found only where the pattern matches |
| `GateText.ScoredLeftmost` | scripts/gate_assert.py:150-153 | the second marker's search returns the leftmost match |
| `GateText.ScoredNone` | scripts/gate_assert.py:150-153 | it finds nothing exactly when there is no match |
| `GatePatterns.VerdictIff` | scripts/gate_assert.py:106-108 | a line reports a verdict exactly when one of the eight words stands in it between non-word characters |
| `GatePatterns.SkipIff` | scripts/gate_assert.py:129-140 | a line announces a skip exactly when SKIP or SKIPPED is its first word or SKIPPED stands in it as a word |
| `GatePatterns.OwnIff` | scripts/gate_assert.py:157-157 | a line is an own count line exactly when only white space stands before `asserted=` |
| `GatePatterns.MarkerIff` | scripts/gate_assert.py:215-226 | a line counts as a marker with number n exactly when it is no own count line and n is the number of a match of the first shape, or else of the leftmost match of the second |
| `GatePatterns.VerdictKindIff` | scripts/gate_assert.py:215-228 | and as a verdict exactly when it is neither and reports one |
| `GateText.UniversalIsInvisible` | scripts/run_gate.py:173-173 | capturing output in text mode does not change its lines |
| `GatePatterns.Separators` | scripts/run_gate.py:173-173 | the ten line separators; each is white space, and none is a word character |
| `GatePatterns.LineEndings` | scripts/run_gate.py:210-212 | either form of carriage return is read as one newline |
| `GatePatterns.StripMeans` | scripts/run_gate.py:174-174 | strip removes white space at both ends and nothing else |
| `GatePatterns.NumeralMeans` | scripts/run_gate.py:177-177 | int reads exactly digits with single underscores between them, at their value |
| `GateText.ParseOfShow` | scripts/run_gate.py:176-177 | a printed count is read back |
| `GateAssert.Counters.BumpBy` | scripts/gate_assert.py:165-168 | adds n to the count and changes nothing else |
| `GateAssert.Counters.GaAssert` | scripts/gate_assert.py:196-200 | counts one and hands the value through |
| `GateAssert.Counters.CountLine` | scripts/gate_assert.py:215-228 | folds one line in: own count line, then marker, then verdict |
| `GateAssert.Counters.Count` | scripts/gate_assert.py:182-193 | a non-zero count is only published with evidence and without an own count line |
| `GateAssert.Counters.Refusal` | scripts/gate_assert.py:171-179 | a reason always goes with a zero count, and evidence that still counts zero has a reason unless the markers add up to zero |
| `GateAssert.CountingStream.Write` | scripts/gate_assert.py:239-241 | passes the text on and folds in the lines it finishes |
| `GateAssert.CountingStream.Scan` | scripts/gate_assert.py:260-264 | the loop folds in exactly the lines of partial + chunk and keeps the rest |
| `GateAssert.CountingStream.ClosePartial` | scripts/gate_assert.py:266-269 | a non-empty unfinished line is folded in |
| `GateAssert.RunScript` | scripts/gate_assert.py:285-354 | a gate's run: exit code and closing message for each way of ending, the count, and its process's two output texts with refusal and count line |
| `GateAssert.RunsAddUp` | scripts/gate_assert.py:165-200 | what a run reached and wrote is the sum over its events |
| `GateAssert.FinalIsExpected` | scripts/gate_assert.py:171-269 | the final counters are a function of the asserts and bumps reached and of the two concatenated texts |
| `GateAssert.ChunkingIsInvisible` | scripts/gate_assert.py:231-269 | neither chunking nor interleaving changes count or refusal |
| `GateAssert.PositiveMeansEvidence` | scripts/gate_assert.py:182-193 | a positive count implies an evaluated assert, a bump or a verdict line, and no own count line |
| `GateAssert.CountIsEarned` | scripts/gate_assert.py:171-193 | without markers and own count lines the count is exactly what was earned; a count is refused if and only if there is an own count line, or a marker with nothing earned |
| `GateMeaning.CountInFull` | scripts/gate_assert.py:182-193 | the published count of every run: zero with an own count line; with markers, the sum of the numbers matched in both texts if anything was earned, else zero; otherwise asserts and bumps reached plus the number of verdict lines |
| `GateMeaning.RefusalInFull` | scripts/gate_assert.py:171-179 | which reason is given, and when none |
| `GateMeaning.CountedLines` | scripts/gate_assert.py:260-269 | the counted lines put together with newlines are the text, none holds a newline, and an unfinished last one is not empty |
| `GateMeaning.RunnerLines` | scripts/run_gate.py:173-173 | the same for the runner's lines and its separators |
| `RunGate.ParseAsserted` | scripts/run_gate.py:169-179 | the last count line, nothing when one is malformed |
| `RunGate.ReadAllMeans` | scripts/run_gate.py:169-179 | a count is read exactly when no count line is malformed, and it is the last one's |
| `RunGate.VerdictLinesAreCounted` | scripts/run_gate.py:239-241 | the runner's own count is the number of lines that report a verdict |
| `RunGate.RunOne` | scripts/run_gate.py:187-263 | PASS if and only if the process ran and exited 0, a gate outside the shim published no count, the count reaches the floor and no line announces a skip; each other reason if and only if its fault is the first in the runner's order; exit code, output and skip flag of the result |
| `RunGate.CountIffOwn` | scripts/run_gate.py:174-175 | the runner takes a line for a count exactly when the shim takes it for an own count line |
| `RunGate.ReadCountLine` | scripts/run_gate.py:173-179 | what the runner reads when the shim's line is glued to an unfinished one |
| `GateTheorems.BothLines` | scripts/run_gate.py:210-212 | the two captured streams never share a line |
| `GateTheorems.WhatIsRead` | scripts/run_gate.py:226-227 | the number the runner reads from a shimmed gate, in every case |
| `GateTheorems.ReadsTheShim` | scripts/run_gate.py:226-227 | if it reads a number it is the shim's count, except exactly when the shim's line is glued to an unfinished line and an earlier piece reads as a different count |
| `GateTheorems.PassIff` | scripts/run_gate.py:245-263 | outside that case and with a floor of at least one, PASS if and only if exit 0, count at the floor, last line finished or blank, no malformed count and no announced skip |
| `GateTheorems.PassMeansEvidence` | scripts/run_gate.py:245-263 | then a PASS has evidence, no own count line and no announced skip |
| `GateTheorems.PlainPassIff` | scripts/run_gate.py:245-263 | for standard output whose only line separator is the newline, the same without further condition |
| `GateTheorems.OtherPassMeans` | scripts/run_gate.py:229-263 | a gate outside the shim that passes has a verdict line, no count line and no announced skip |
| `GateTheorems.StrayIsReal` | scripts/run_gate.py:169-179 | one unfinished line with two vertical tabs is read as 7 and passed with nothing counted |

## Left out

- Thread creation failing, a band that does not return, `fork` after initialisation, the pool torn down before it was ever used, and wrap-around of the 64-bit generation counter.
- Memory order below the level of single stores: a store is atomic and visible at once; band arguments are addresses whose bytes are not modelled.
- Gemv.PooledGemvIsOracle: a row's score is one atomic store computed from the operands; the emitted kernel's inner loop over a row is not modelled store by store, since no other band writes what it reads.
- The null and non-positive-length guards of the exported dot and L1 entry points, and the CPU probe that picks a form.
- The f32 kernels and the float generation of twiddles: only the bounds |tw| <= 65536 and tw[0..2] = (65536, 0) are used, as assumptions.
- The FNV-1a hash, timing and C reference of the FFT benchmark, and the hashing and timing of the GEMV benchmark.
- Failed `malloc` in the containers: the source does not test for it; the model's operations report it and stop, and their contracts say it happens only when the heap is exhausted.
- Failed `malloc` or `realloc` of a region frame's pointer list, which the source does not test for, and of the GenRef table itself, which aborts.
- vec_set, vec_pop, vec_remove, map_cap and the other field accessors, string_slice_from, string_starts_with, string_contains, string_trim, string_eq, string_validate_utf8 and the string-keyed maps: they would only add easy members over the same heap model.
- Split.StringSplit: the two record addresses are loaded again at each comparison instead of once; they do not change in between.
- Strings.PushByte: a zero-capacity slice of 16 bytes or more is reported as out of bounds instead of modelling the write past the block.
- The I/O, clock and process intrinsics, including `__mind_open`, whose present failure value contradicts its documentation.
- Word characters and digits above U+007F in the gate patterns: `\w` and `\d` are modelled on ASCII; white space and line separators are modelled in full.
- GateAssert.RunScript: a gate is the sequence of its asserts, bumps and writes; text that reaches the process's output without passing through the two streams (child processes, raw descriptors) and the rewriting of the gate's syntax tree are not modelled; nor is the operating system keeping only the low eight bits of the exit code.
- GateAssert.Counters.BumpBy: acts on the counters of its own module instance; a gate that imports the shim by name while the shim runs as the main script gets a second instance, which is not modelled.
- RunGate.RunOne: locating the file, the suffix test, the command and the time limit are inputs (`python`, `Proc`), and the echo of the output is not modelled.
- The corpus sweeps of the runner, the other scripts, benches and crates of the repository.
