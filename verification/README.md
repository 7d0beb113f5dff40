# CHAM: a verified model

CHAM computes homomorphic matrix-vector products: a host library packs a matrix
into polynomials, an accelerator multiplies, accumulates, extracts and reduces
them, and the host switches moduli and shares the result. This project models the
parts of it that are hard to get right and proves what they are for.

`dafny verify dfyconfig.toml` checks everything. One module a file.

## The pieces

**The pipeline controller** (`Control`, `ControlSlots`, `FrontEnd`, `ReductionTree`,
`ControlRuns`, `ControlProgress`, `ControlDeadlock`). `Control` is the clocked object:
one field a register, `PosEdge` is one clock edge, specified by the function `Clock`.
`ControlSlots` shows that the clock refines slots (one per `all_stage_done`).
Over slots, ghost items follow the ciphertexts through s0..s4 and ghost tokens
follow the extracted results through the recirculating s5..s9, where `rb_status_r`
counts in binary. `ControlRuns` puts both together over every run, `ControlProgress`
shows that a gap-free feed finishes, and `ControlDeadlock` shows exactly which ones do,
on slots and on the clock.

**The lazy transforms** (`Polynomial`, `Twiddle`, `Layers`, `Butterfly`, `Ntt`,
`InverseNtt`, `Convolution`). In-place loops over arrays of 64-bit words, with the
wrap-around of every sum, difference and product written out. A block of the array is
described by its values at the leaves of the twiddle tree below its node; each layer
splits or merges blocks. Functional correctness and the no-wrap ranges are proved in
one go, for every degree 2^k >= 8 and every modulus below 2^59 with valid tables.

**Packing and order** (`Shape`, `Packing`, `BitReverse`, `Transpose`, `TileOrder`,
`HostConfig`, `EndToEnd`). The tile shape, the reversed-row packing with its reused
buffer, the two layers of bit reversal, the cycle-following transpose and the parameters
handed to the hardware. `EndToEnd.HostRun` composes all of it with a run of the
controller: for every accepted shape the run finishes and every row is delivered; its limbs
compose to the scaled vector's product with the integers the row's encoded words stand for.
That is the row's own product, within the stated error, where encoding centres its words
rightly (`RowWellEncoded`); `AgreeingRow` says what it is elsewhere.

**Moduli and shares** (`Rns`, `ModSwitch`, `Shares`, `Centralize`, `Encoding`, `Decoding`,
`DivideRound`). Exact rounding between [0, t) and [0, Q) on residues with 128-bit
arithmetic, error bounds, the residue limbs of encoded words and what they decode to, the whole way of a masked result from sampling to decryption, and the division by the
last modulus in transformed form.

**Channels and blocks** (`Fifo`, `AxiRead`, `BlockGrid`). The show-ahead FIFO against a
queue, the AXI read channel built on two of them, and the Python wrapper's block grid.

`Modular` and `Powers` hold the arithmetic everything rests on.

## Where code and expectation part

- `src/control.v`: with `i_split` and `i_index` both above one and a second row to come,
  the s2 and s4 stalls block each other for good, 2 * split + 3 slots after the start.
  Nothing is lost or repeated even then, but done never comes; `FinishesExactlyWhen` and, clock
  by clock, `DoneExactlyWhen` give the exact condition, over all gap-free feeds of matching size.
  The five checks of `mvp_top.v` let such configurations through (`ChecksAdmitIt`); the host
  never produces one (`HostUnblocked`), so its runs finish (`HostRun`).
- `mvp_priv_impl.cc:192-193`: below 64 bits the mask lacks its `- 1`, and nothing reduces
  the negated word first. A word is written as the residue of its centred value exactly when it
  is not negative, or has 64 bits and is no further below zero than the modulus
  (`CenteralizeAt`, `WellEncodedExactlyWhen`); `MisencodedWords` gives two that are not, one of
  32 bits and one of 64, for the first modulus of `defines.h`. As long as the moduli agree on a
  word, a negative one of fewer than 64 bits counts for nothing, and one of 64 bits still counts
  for itself modulo 2^64, but unsigned, with the larger error that brings (`AgreeingRow`).
- `mod_switch.cc:69` says `u` uses Q mod t; the code multiplies by Q div t. The model
  follows the code, which is right.
- `fifo_fwft.v:107-115`: with DEPTH = 2 = 2^ADDR_WIDTH a full queue reads as DEPTH - 2 words
  and almost full clears too early; `GateHonestExactlyWhen` is the exact condition. With
  DEPTH = 2 and more addresses the flag is honest but, once raised, never clears before a reset, so a
  burst of three beats is never read to its end (`TwoIsTooFew`, `NeverDrains`); from three words on
  the read channel drains (`Drains`). The instances use 16.
- `mvp_priv_impl.cc:44`: `i * nrows` is a 64-bit product. Every step of the transpose is right
  if and only if no index wraps or the size divides 2^64 (`StepsRightExactlyWhen`), and then it
  transposes; `WrapGoesAstray` is a step that goes wrong. The only call passes two rows.
- `slotful_ntt.cc:223-228` corrects nL / (2 * m) butterflies of a group. `BackwardGroup` holds for any
  number of them, because `backward_lazy` subtracts L * p by itself: the count only costs time.
- `tb_axi_bram.v:155` and `:444` both drive `s_axi_rid`; the model takes the latter.

## Taken as given

SEAL and its tables are external. Twiddle tables are described by `Tables.Valid`:
`root[1]^2 = -1`, `root[2v]^2 = root[v]`, `root[2v+1]^2 = -root[v]` modulo p, and entry
`n - 2m + 1 + r` of the inverse table inverts `root[m + r]` for r < m, m a power of two.
The accelerator's arithmetic is exact modulo each modulus on whatever words it is handed,
below the modulus or not. Barrett reduction, multiplication and addition modulo a word,
bit reversal, multi-word division, RNS compose and decompose are exact functions, and
`negate_uint_mod` is its subtraction without the debug-build check; `Rns` proves that compose, taken as "the
number below the product with these residues", exists and is unique for pairwise coprime
moduli (`Bezout` form). Sampled words, RAM contents, clock-by-clock stage timing, the
product of the ciphertext's part 1 with the key, and the AXI master are parameters,
universally quantified.

## Model

| member | source | states |
|---|---|---|
| ControlRegisters.Control.constructor | src/control.v:190-356 | out of reset the controller is idle, nothing runs, every buffer and counter is clear |
| ControlRegisters.Control.PosEdge | src/control.v:171-356 | one clock edge takes all registers to the next state at once, each always block reading the old values; no pulse is given and no status moves while a running stage has not reported done or the delay has not run out, and a boundary comes as soon as both are so |
| ControlRegisters.BoundaryWaits | src/control.v:174-220 | in every register state: a pulse, or a change of status, levels or buffers without a start, means that every running stage holds done (s2 also its URAM write) and three edges have passed since the last boundary |
| ControlRegisters.BoundaryFollows | src/control.v:174-220 | running stages that hold done get their pulse after exactly 4 - delay edges, and none before |
| ControlRegisters.BoundarySpacing | src/control.v:206-212 | whatever is reported, no pulse comes sooner than that: two boundaries are at least four edges apart |
| ControlRegisters.StagesCounted | src/control.v:198-204 | over any run without a start the stage counter counts the pulses, modulo 2^16 |
| ControlRegisters.Control.FlowControl | src/control.v:190-220 | idle, stage count, delay and start pulse |
| ControlRegisters.Control.StallsAndTrace | src/control.v:222-258 | the trace flag and the five stall registers |
| ControlRegisters.Control.Counters | src/control.v:317-356 | the s2, s4 and URAM counters count and wrap in their widths, and the vector phase ends with its last ciphertext |
| ControlRegisters.Control.Buffers | src/control.v:307-315 | a level buffer is cleared by a merge and set by an arrival that finds it clear; no other changes |
| ControlRegisters.Control.Pipeline | src/control.v:260-305 | status and level registers move together, at slot boundaries only |
| ControlSlots.ClockRefinesSlots | src/control.v:174-258 | an edge is one slot step when all running stages are done and changes nothing else that matters otherwise; a start pulse leads to the one start state from anywhere |
| ControlSlots.PulsesAreFires | src/control.v:374-384 | the eleven start outputs after a boundary are exactly the stages the slot step fires, although five are gated by registered stalls; s1 alone has one gate more, idle |
| ReductionTree.TreeStepKeeps | src/control.v:268-315 | before the trace phase every boundary keeps: tokens of a level leave s8 in creation order; the k-th token of level n covers results k*2^(n-1) .. (k+1)*2^(n-1)-1 in order; level n has a parked token exactly when an odd number of its tokens arrived |
| ReductionTree.TreeStart | src/control.v:307-311 | the empty pipe satisfies that invariant |
| ReductionTree.DigitStep | src/control.v:186-186 | a level buffer is emptied only when full and filled only when free, and every second arrival makes one token of the next level |
| ReductionTree.OrderStep | src/control.v:273-304 | no token of any level overtakes another, whatever is merged or held back |
| ReductionTree.EnteringCovers | src/control.v:273-299 | the token that enters s5 continues its level's ranges: a fresh result, or the parked range followed by the arriving one |
| FrontEnd.FrontStepKeeps | src/control.v:268-272 | for every configuration and any interleaving of the s2, s4 and reduction stalls: rows are whole and in order, each is extracted index times, with the right split index at every multiplication and the right coefficient at every extraction |
| FrontEnd.LoadingStep | src/control.v:340-356 | the first split ciphertexts go to URAM in order, with split indices 0, 1, ..., and the next one starts the first row |
| FrontEnd.RowsStep | src/control.v:236-272 | every split multiplications give one accumulated row, passed to s3 once, none dropped or repeated |
| FrontEnd.ExtractionsStep | src/control.v:328-364 | every row leaves s3 after exactly index extractions, extraction x being number x % index of row x / index |
| FrontEnd.CoeffAfterStart | src/control.v:358-364 | o_coeff_index, read after the counter has moved on, is the coefficient of the extraction that started |
| ControlRuns.WeightStep | src/control.v:307-315 | conservation: the sum of 2^n over tokens in s5..s8 and set buffers is twice the results taken from s4 |
| ControlRuns.ReducingStep | src/control.v:171-356 | one boundary of the reduction phase keeps front end, tree, conservation and the link between extractions made and taken |
| ControlRuns.Arrival | src/control.v:222-228 | when the level token reaches s8 nothing else is left anywhere: all fetched, all rows extracted, every buffer clear, and it covers all 2^(level-1) extractions in order |
| ControlRuns.TracingStep | src/control.v:273-304 | in the trace phase the single token moves one stage a slot and one level up out of s8 |
| ControlRuns.TraceTiming | src/control.v:372-372 | without skip_trace the last token leaves s9 exactly 4*(12-level)+1 boundaries after it first reaches s8, and not before |
| ControlRuns.SkipTiming | src/control.v:372-372 | with skip_trace it leaves at the very next boundary |
| ControlRuns.ClockKeeps | src/control.v:171-372 | one clock edge, with any stage timing, keeps the invariant of a run |
| ControlRuns.EveryRun | src/control.v:171-372 | over every run from a start pulse: when done is raised each row has been accumulated, each extraction made once, and one level token covers all of them in order |
| ControlRuns.RunPulses | src/control.v:374-384 | inside a run that gate changes nothing: at the boundary that raises done there is nothing left for s1 to start |
| ControlRuns.StartBegins | src/control.v:193-194 | a start pulse in any state a clocked controller reaches begins such a run |
| ControlRuns.ResetIsSane | src/control.v:190-220 | the reset state is such a state |
| ControlProgress.AlwaysMoves | src/control.v:268-277 | while the reduction is unfinished, and split = 1 or index = 1 or there is one row, some token, extraction, ciphertext or fetch moves at every boundary |
| ControlProgress.TopTokenArrives | src/control.v:268-315 | under the same condition the level token reaches s8 after at most as many boundaries as moves remain |
| ControlProgress.RemainingAtStart | src/control.v:193-194 | from the start that bound is 4 moves a ciphertext, one an extraction and 5 a token |
| ControlDeadlock.StallsStick | src/control.v:187-188 | once both stalls hold, neither counter can move and nothing before s5 starts again |
| ControlDeadlock.Deadlock | src/control.v:236-272 | with split and index both above one, any feed of two rows or more is stuck for good 2*split+3 boundaries after the start, before the first extraction |
| ControlDeadlock.Finishes | src/control.v:171-372 | with split = 1 or index = 1 or a single row every gap-free feed of matching size reaches done |
| ControlDeadlock.FinishesExactlyWhen | src/control.v:187-188 | for every gap-free feed of matching size: done comes if and only if split = 1, or index = 1, or there is a single row |
| ControlDeadlock.DoneExactlyWhen | src/control.v:171-372 | clock by clock, from any start pulse and whatever the stages' timing: gap-free runs raise done within a fixed number of slot boundaries, with the whole job complete, if and only if split = 1, or index = 1, or there is a single row |
| ControlDeadlock.ClockNeverDone | src/control.v:187-188 | otherwise no gap-free run, however long, ever raises done |
| ControlDeadlock.SomeGapFree | src/control.v:174-185 | gap-free runs with any number of slot boundaries exist from every state, so neither statement is empty |
| ControlDeadlock.ChecksAdmitIt | src/mvp_top.v:247-294 | some configuration that passes all five checks has both above one and two rows |
| Butterfly.ShoupBound | mvp_sdk/include/mvp_public/util/slotful_ntt.cc:83-88 | the lazy product is congruent to the product and below 2p for every 64-bit x, although each intermediate keeps 64 bits only |
| Butterfly.ForwardArithmetic | mvp_sdk/include/mvp_public/util/slotful_ntt.cc:29-46 | u + v and u - v + 2p do not wrap while u + 2p fits, and are right modulo p |
| Butterfly.BackwardArithmetic | mvp_sdk/include/mvp_public/util/slotful_ntt.cc:48-75 | the corrected sum stays below L*p, u - v + L*p does not wrap in either order of evaluation, both are right modulo p |
| Butterfly.SlothfulNtt.ForwardLazy | mvp_sdk/include/mvp_public/util/slotful_ntt.cc:29-36 | in place: x0 + w*x1 and x0 - w*x1 modulo p, each at most 2p above x0; nothing else changes |
| Butterfly.SlothfulNtt.ForwardLastLazy | mvp_sdk/include/mvp_public/util/slotful_ntt.cc:38-46 | the same after reducing x0, leaving both below 3p |
| Butterfly.SlothfulNtt.BackwardCorrLazy | mvp_sdk/include/mvp_public/util/slotful_ntt.cc:48-54 | any two words become x0 + x1 and w*(x0 - x1) modulo p, below L*p |
| Butterfly.SlothfulNtt.BackwardLazy | mvp_sdk/include/mvp_public/util/slotful_ntt.cc:58-65 | words below L*p stay below L*p |
| Butterfly.SlothfulNtt.BackwardLastLazy | mvp_sdk/include/mvp_public/util/slotful_ntt.cc:67-75 | the last butterfly with 1/n merged in, results below 2p |
| Twiddle.LeafPower | mvp_sdk/include/mvp_public/util/slotful_ntt.cc:116-132 | every leaf below node v of height k satisfies z^(2^k) = root of v: the equation a block stands for |
| Twiddle.RootOfMinusOne | mvp_sdk/include/mvp_public/util/slotful_ntt.cc:101-157 | every leaf is an n-th root of -1 modulo p |
| Twiddle.ValuesDetermine | mvp_sdk/include/mvp_public/util/slotful_ntt.cc:159-255 | a block is determined modulo p by its values at the leaves below its node |
| Layers.ForwardBlock | mvp_sdk/include/mvp_public/util/slotful_ntt.cc:120-130 | a group of butterflies splits a block of 2h into the blocks of the node's two children, keeping all values at the leaves |
| Layers.BackwardBlock | mvp_sdk/include/mvp_public/util/slotful_ntt.cc:204-213 | the inverse group merges two blocks into their parent's, values scaled by 2*c0, c0 being the factor on the sum of the two halves |
| Ntt.ForwardGroup | mvp_sdk/include/mvp_public/util/slotful_ntt.cc:122-127 | the loop over a group applies every butterfly once, grows words by at most 2p and touches nothing else |
| Ntt.ForwardLayer | mvp_sdk/include/mvp_public/util/slotful_ntt.cc:117-154 | a layer turns all blocks of 2h into blocks of h with the twiddles consumed in order |
| Ntt.SlotfulNttLazy | mvp_sdk/include/mvp_public/util/slotful_ntt.cc:101-157 | the forward transform leaves the polynomial's values at the n leaves, below 4p, with no wrap provided the input bound plus 2p*(log2 n - 1) fits 64 bits; wrong sizes and moduli change nothing |
| InverseNtt.BackwardGroup | mvp_sdk/include/mvp_public/util/slotful_ntt.cc:220-236 | the first words of a group reduced (in batches of four), the rest not: all stay below L*p |
| InverseNtt.BackwardLayer | mvp_sdk/include/mvp_public/util/slotful_ntt.cc:172-238 | a layer merges all blocks and walks the inverse table so that each group meets the inverse of its forward twiddle |
| InverseNtt.BackwardMiddle | mvp_sdk/include/mvp_public/util/slotful_ntt.cc:197-239 | all middle layers, whichever of the two loops runs them |
| InverseNtt.LazinessFits | mvp_sdk/include/mvp_public/util/slotful_ntt.cc:167-169 | the chosen L is between 2 and n/2 and 2*L*p fits 64 bits, for every modulus below 2^59 |
| InverseNtt.LazinessIsLargest | mvp_sdk/include/mvp_public/util/slotful_ntt.cc:167-168 | L is a power of two, and no larger one up to n/2 leaves 2 * L * 2^bits within 64 bits |
| InverseNtt.InverseTwiddle | mvp_sdk/include/mvp_public/util/slotful_ntt.cc:171-176 | entry n-2m+1+r of the inverse table undoes twiddle m+r of the forward one |
| InverseNtt.SlotfulInttLazy | mvp_sdk/include/mvp_public/util/slotful_ntt.cc:159-255 | the inverse transform leaves a polynomial, below 2p, whose values at the leaves are the input |
| Convolution.NttForward | mvp_sdk/include/mvp_public/util/slotful_ntt.h:20-34 | the two final subtractions reduce fully: each word is the value modulo p |
| Convolution.NttBackward | mvp_sdk/include/mvp_public/util/slotful_ntt.h:36-46 | one subtraction suffices after the inverse: words below p with the given values |
| Convolution.ValuesAreInjective | mvp_sdk/include/mvp_public/util/slotful_ntt.cc:101-255 | polynomials with the same values at the leaves are the same modulo p |
| Convolution.RoundTrip | mvp_sdk/include/mvp_public/util/slotful_ntt.cc:101-255 | inverse(forward(x)) is x modulo p |
| Convolution.ConvolutionTheorem | mvp_sdk/include/mvp_public/util/slotful_ntt.cc:101-255 | inverse of the pointwise product of two forward transforms is the product in Z_p[X]/(X^n + 1) |
| Polynomial.EvalNegacyclicMul | mvp_sdk/include/mvp_public/util/slotful_ntt.cc:101-255 | at an n-th root of -1 the value of the negacyclic product, defined by its coefficients, is the product of the values |
| Transpose.TransposeInplace | mvp_sdk/include/mvp_public/mvp_priv_impl.cc:28-54 | wherever every step is right, old[i*c+j] ends at j*r+i and nothing outside the range moves; terminates because the visited set grows |
| Transpose.StepsRightExactlyWhen | mvp_sdk/include/mvp_public/mvp_priv_impl.cc:44-44 | the 64-bit step (i * nrows) % size is right at every index if and only if (size - 1) * nrows is below 2^64 or size divides 2^64 |
| Transpose.FollowCycle | mvp_sdk/include/mvp_public/mvp_priv_impl.cc:40-48 | one pass of the inner loop moves a whole cycle, returns to its start, and marks the indices of that cycle and no others |
| Transpose.WrapGoesAstray | mvp_sdk/include/mvp_public/mvp_priv_impl.cc:43-44 | elsewhere a step goes wrong: with 2^33 rows of one column, element 2^31 is sent to index 0 instead of staying |
| Transpose.NextInverse | mvp_sdk/include/mvp_public/mvp_priv_impl.cc:44-44 | multiplication by c undoes multiplication by r modulo r*c-1, so the step is a permutation |
| Shape.NextPow2IsLeast | mvp_sdk/include/mvp_public/util/math.h:57-61 | NextPow2 is the least power of two at or above its argument |
| Shape.CeilDivBounds | mvp_sdk/include/mvp_public/util/math.h:21-25 | CeilDiv is the least count of blocks that covers a |
| Shape.Log2Bounds | mvp_sdk/include/mvp_public/util/math.h:52-55 | Log2 is the floor of the logarithm |
| Shape.GetSubmatrixShape | mvp_sdk/include/mvp_public/util/common.cc:8-29 | the reassigned shape, or an error for no columns, no rows or too many rows, transposed or not; the tile is as tall as the padded rows and the degree allow |
| Shape.ShapeFits | mvp_sdk/include/mvp_public/util/common.cc:19-28 | the tile has 2^s rows and 2^(lgN-s) columns, exactly N coefficients, at most half the padded rows, is as wide as the matrix unless that is wider than N, and twice its rows still fit; no taller one does |
| Shape.TallestTile | mvp_sdk/include/mvp_public/util/common.cc:19-26 | for every j with 2^(j+1) at most the padded rows and 2^(j+1) * min(n, ncols) at most n, the tile has at least 2^j rows |
| HostConfig.DeriveParams | mvp_sdk/include/mvp_public/F3/mvp_fpga_lib.h:302-312 | level, column size, split, index and matrix length from assignments that are then overwritten |
| HostConfig.HostAndHardwareAgree | src/mvp_top.v:239-294 | for every shape check_config accepts all five hardware checks pass, mat_len is the number of tiles encoded, split the number of vector chunks, the feed gives 2^(level-1) extractions, and extraction i asks for coefficient (i+1)*S-1 |
| HostConfig.ChecksExclude | src/mvp_top.v:247-294 | what the five checks exclude: parameters that pass are in the controller's ranges, with a power of two for the index and enough columns; with products that do not wrap and tiles in pairs of whole rows they feed exactly 2^(level-1) extractions |
| HostConfig.AcceptedWidths | mvp_sdk/include/mvp_public/mvp_priv_impl.cc:94-117 | for 2 to 4096 rows the widths accepted are exactly 1 to min(16384, floor(50331647 / rows)) |
| Packing.PackRow | mvp_sdk/include/mvp_public/mvp_priv_impl.cc:596-602 | a row's window, zero-padded on the right, lands in its block in reverse order; a padding row leaves stale words |
| Packing.CopyReversed | mvp_sdk/include/mvp_public/mvp_priv_impl.cc:602-602 | copying into a reverse iterator |
| Packing.FillTile | mvp_sdk/include/mvp_public/mvp_priv_impl.cc:587-606 | every block of the reused buffer holds its row or is padding |
| Packing.BitReversedRows | mvp_sdk/include/mvp_public/mvp_priv_impl.cc:574-584 | the row each block takes |
| Packing.EncodeRowBlock | mvp_sdk/include/mvp_public/mvp_priv_impl.cc:586-612 | all tiles of a row block, earlier ones untouched |
| Packing.EncodeBlocks | mvp_sdk/include/mvp_public/mvp_priv_impl.cc:563-615 | one worker's range of row blocks |
| Packing.EncodeMatrix | mvp_sdk/include/mvp_public/mvp_priv_impl.cc:553-630 | however many workers share the blocks, every tile is encoded |
| Packing.EncodeVector | mvp_sdk/include/mvp_public/mvp_impl.cc:211-232 | chunk sv holds the vector's entries from sv*S on, zeros behind |
| Packing.SameChunks | mvp_sdk/python/wrapper.cc:97-120 | the vector is cut into the same padded chunks whatever number of rows its tile shape is computed for, so encrypting it as for one row fits any matrix of that width |
| Packing.InnerProductAt | mvp_sdk/include/mvp_public/mvp_priv_impl.cc:586-608 | coefficient (i+1)*S-1 of tile * chunk in Z[X]/(X^n + 1) is exactly the inner product of block i's row with the chunk: no wrapped term survives, whatever the other blocks hold |
| Packing.RowProduct | mvp_sdk/include/mvp_public/mvp_priv_impl.cc:586-608 | summed over column chunks, padding included, that is the product of the whole row, whatever integers the words stand for |
| BitReverse.RevSplit | mvp_sdk/include/mvp_public/mvp_priv_impl.cc:418-418 | reversing a two-part number swaps the parts and reverses each |
| BitReverse.RevTwice | mvp_sdk/include/mvp_public/mvp_priv_impl.cc:581-584 | reversal is its own inverse, hence a permutation |
| TileOrder.ArrangeTiles | mvp_sdk/include/mvp_public/mvp_priv_impl.cc:411-435 | after block bit reversal and the 2 x C transposes, lane l of pair q, chunk x is the tile of row block rev(2q+l), chunk x |
| TileOrder.PairInterleaved | mvp_sdk/include/mvp_public/mvp_priv_impl.cc:429-434 | transposing two rows of tiles interleaves them |
| TileOrder.RowOfLane | mvp_sdk/include/mvp_public/mvp_priv_impl.cc:573-584 | the two bit reversals together are one: block i of lane l of pair q is the row of number 2*(q*2^s+i)+l reversed over all k bits, independent of the tiling |
| EndToEnd.PrepareOperands | mvp_sdk/include/mvp_public/mvp_priv_impl.cc:411-458 | shape, encoding, arrangement and vector chunks together give the accelerator its operands in that order |
| EndToEnd.ExtractionValue | src/control.v:358-364 | extraction i of pair q, in either lane, is the inner product of the row of reversed number, whatever integers the words stand for |
| EndToEnd.DeliveredInOrder | src/control.v:328-364 | in a finished run for any accepted shape, extraction e of lane l delivers the inner product of the vector with row rev(2e+l), at the coefficient the controller asks for; on plain words as on any limb of their encodings |
| EndToEnd.EveryRowOnce | mvp_sdk/include/mvp_public/mvp_priv_impl.cc:573-584 | every padded row is delivered exactly once |
| EndToEnd.HostUnblocked | mvp_sdk/include/mvp_public/F3/mvp_fpga_lib.h:302-312 | for every accepted shape split = 1 or index = 1, and the feed matches, so the run does not block |
| EndToEnd.HostRun | src/control.v:171-372 | for every accepted shape, start state and stage timing: the run of the host's configuration raises done after a bounded number of slot boundaries, and then for every row the limbs delivered, the extra modulus dropped, compose to the scaled vector's product modulo Q with any integers the row's encoded words represent, and decode to the product of those integers; where every word is encoded as its centred value, to the row's own product modulo 2^bits |
| Encoding.Vec2Poly | mvp_sdk/include/mvp_public/mvp_priv_impl.cc:207-248 | in limb j every matrix word is the word CenteralizeAt writes for modulus j, every vector word is qk times its scaled-up residue, the extra modulus' limb is zero, and the rest is filled with zeros; more than 64 bits are refused for weights |
| Encoding.WellEncodedExactlyWhen | mvp_sdk/include/mvp_public/mvp_priv_impl.cc:190-201 | all limbs of a word are the residues of its centred value if and only if it is not negative, or has 64 bits and its magnitude is at most every modulus |
| Encoding.SomeRepresentation | mvp_sdk/include/mvp_public/mvp_priv_impl.cc:190-201 | for every row of words, rightly encoded or not, there are integers its limbs are the residues of |
| Encoding.CentredRepresents | mvp_sdk/include/mvp_public/mvp_priv_impl.cc:190-201 | for well encoded words the centred values are such integers |
| Encoding.MeaningRepresents | mvp_sdk/include/mvp_public/mvp_priv_impl.cc:190-201 | for words the moduli agree on, so is what they agree on: the word, its centred value, -2^bits, 2^64 - 2^bits or 0 |
| Encoding.AgreeExactlyWhen | mvp_sdk/include/mvp_public/mvp_priv_impl.cc:190-201 | the moduli agree on a word if and only if it is not negative, or its negation leaves nothing, or all moduli reach what it leaves, or none does |
| Encoding.MisencodedWords | mvp_sdk/include/mvp_public/mvp_priv_impl.cc:190-201 | for the modulus 2^34 + 2^27 + 1 neither 2^32 - 1 at 32 bits nor 2^64 - 2^35 at 64 bits is encoded as its centred value |
| Decoding.LimbProduct | mvp_sdk/include/mvp_public/mvp_priv_impl.cc:222-241 | modulo each ciphertext modulus the product of a row's limbs with the vector's is qk times the scaled vector's product with the integers represented |
| Decoding.DropsExtraModulus | mvp_sdk/include/mvp_public/util/seal.cc:10-81 | limbs of qk * y with a zero last limb compose to qk * (y mod Q), and dividing by qk with rounding leaves y mod Q |
| Decoding.LimbsDropTo | mvp_sdk/include/mvp_public/mvp_priv_impl.cc:222-241 | so a row's limbs, composed and divided, are that product modulo Q, whatever integers represent the row |
| Decoding.ProductDecodes | mvp_sdk/include/mvp_public/mod_switch.cc:56-118 | that number, rounded down, is the product of the integers + e modulo t, with 2*Q*abs(e) <= t * (sum of their magnitudes) + Q + 1 |
| Decoding.WellEncodedRow | mvp_sdk/include/mvp_public/mvp_priv_impl.cc:190-201 | for a row of well encoded words it is the row's own product modulo 2^bits, the magnitudes being those of the centred words |
| Decoding.AgreeingRow | mvp_sdk/include/mvp_public/mvp_priv_impl.cc:190-201 | for any row of words the moduli agree on it is, modulo 2^bits, the product of the words at 64 bits and of the non-negative words only below 64 bits |
| Decoding.ChunkLimb | mvp_sdk/include/mvp_public/mvp_priv_impl.cc:243-243 | encoding the vector's part and filling with zeros is encoding the padded chunk |
| Rns.ComposeResidues | mvp_sdk/include/mvp_public/mod_switch.cc:92-92 | composing the residues of a number below the product gives it back |
| Rns.LimbsHaveValue | mvp_sdk/include/mvp_public/mod_switch.cc:86-92 | every reduced list of limbs is the residues of some number below the product |
| Rns.LimbSum | mvp_sdk/include/mvp_public/mvp_priv_impl.cc:647-649 | adding limb by limb adds the composed numbers modulo the product |
| ModSwitch.ModulusSwitchHelper.constructor | mvp_sdk/include/mvp_public/mod_switch.cc:18-56 | t, t/2, Q mod t and the residues of Q div t, for t up to 2^64 |
| ModSwitch.ModulusSwitchHelper.Make | mvp_sdk/include/mvp_public/mod_switch.cc:27-29 | a bit length outside 2..64 is refused, any other accepted |
| ModSwitch.ModulusSwitchHelper.ModulusUpAt | mvp_sdk/include/mvp_public/mod_switch.cc:56-77 | every output is floor((Q*x + t/2)/t) modulo q_j, for every 64-bit x; wrong index or size change nothing |
| ModSwitch.UpWordExact | mvp_sdk/include/mvp_public/mod_switch.cc:67-75 | neither the 128-bit product, sum nor final sum overflows, for t up to 2^64 |
| ModSwitch.ModulusSwitchHelper.ModulusDownRNS | mvp_sdk/include/mvp_public/mod_switch.cc:80-118 | every output is the low word of floor((x*t + (Q+1)/2)/Q) for the number x its limbs compose to |
| ModSwitch.DivideThenRound | mvp_sdk/include/mvp_public/mod_switch.cc:105-116 | num + 2 words lose nothing |
| ModSwitch.OfValue | mvp_sdk/include/mvp_public/mod_switch.h:38-60 | 128-bit results below 2^128 are represented exactly by two limbs |
| ModSwitch.UpComposes | mvp_sdk/include/mvp_public/mod_switch.cc:56-77 | for every word the per-modulus outputs are the residues of one number, floor((Q*x + t/2)/t) modulo Q |
| ModSwitch.NoisyRoundTrip | mvp_sdk/include/mvp_public/mod_switch.cc:56-118 | down(up(x) + E) = x modulo t for every word x, below t or not, and every noise with (2*abs(E) + 1)*t + 1 < Q |
| ModSwitch.DownOfMod | mvp_sdk/include/mvp_public/mod_switch.cc:105-116 | reducing modulo Q first, and keeping the low word only, do not change the result modulo t |
| Shares.MatVecError | mvp_sdk/include/mvp_public/mod_switch.cc:56-118 | down(sum M_c * up(v_c) mod Q) = sum M_c * v_c + e modulo t with 2*Q*abs(e) <= t * (sum of abs(M_c)) + Q + 1, for every length |
| Shares.RandomVector | mvp_sdk/include/mvp_public/mvp_priv_impl.cc:278-337 | the sampled numbers sit at stride N/n in every limb, zeros between, and out holds their shares: rounded to the helper's bits, negated and cut to the configuration's; refused unless n divides N |
| Shares.SpreadLimb | mvp_sdk/include/mvp_public/mvp_priv_impl.cc:313-325 | one limb of that placement, with the copy for n = N |
| Shares.FlipSigns | mvp_sdk/include/mvp_public/mvp_priv_impl.cc:330-335 | each share becomes its negative modulo 2^bits |
| Shares.SampleMask | mvp_sdk/include/mvp_public/mvp_priv_impl.cc:509-525 | in both branches the mask's stride is N/NextPow2(nrows) |
| Shares.DropUnusedCoeffs | mvp_sdk/include/mvp_public/mvp_priv_impl.cc:366-381 | in every limb exactly the multiples of that stride survive |
| Shares.StrideKept | mvp_sdk/include/mvp_public/mvp_priv_impl.cc:366-381 | the coefficients of all padded rows are untouched |
| Shares.ExtractRows | mvp_sdk/include/mvp_public/mvp_impl.cc:442-454 | decryption gathers the same coefficients, limb by limb |
| Shares.DecryptRows | mvp_sdk/include/mvp_public/mvp_impl.cc:442-463 | result i is the rounded value of coefficient i * stride, for fewer rows than N and for N |
| Shares.SharesReconstruct | mvp_sdk/include/mvp_public/mvp_priv_impl.cc:327-336 | for every mask in [0, Q), values rounded to base bits and shares cut to any bits of them: the two shares add up to the unmasked value within 1 modulo 2^bits |
| Shares.MaskedRow | mvp_sdk/include/mvp_public/mvp_priv_impl.cc:327-336 | where a polynomial differs from another by the mask, its decryption and the mask's share add up to the other's decryption, within 1 modulo 2^bits |
| Shares.AddPlain | mvp_sdk/include/mvp_public/internal.cc:91-106 | part 0 of the ciphertext becomes its sum with the plaintext, limb by limb; a plaintext of the wrong size changes nothing |
| Shares.ThinnedSum | mvp_sdk/include/mvp_public/mvp_priv_impl.cc:366-381 | thinning part 0 after the mask went in is harmless: at every row's coefficient part 0 plus the rest is still the unmasked sum plus the mask, limb by limb |
| Shares.ThinnedShares | mvp_sdk/include/mvp_public/mvp_priv_impl.cc:646-655 | for every row, the decryption of the masked and thinned ciphertext and the mask's share add up to the decryption of the unmasked one, within 1 modulo 2^bits |
| Shares.MaskResult | mvp_sdk/include/mvp_public/mvp_priv_impl.cc:509-655 | what leaves is part 0 plus a mask that carries the sampled numbers at the stride of the rows, with everything off that stride cleared, and the sampler's share of every row is kept |
| Shares.Decrypt | mvp_sdk/include/mvp_public/mvp_impl.cc:433-463 | part 0 plus the product of part 1 with the key, then the rounded value at i * stride for every row |
| Shares.MaskAndDecrypt | mvp_sdk/include/mvp_public/mvp_priv_impl.cc:646-655 | the whole way: whatever the ciphertext, the key, the mask and the configuration's bits up to the helper's, what decryption returns and what the sampler keeps are for every row two shares of the decryption without a mask, within 1 modulo 2^bits |
| Shares.AlignVector | mvp_sdk/include/mvp_public/mvp_impl.cc:289-294 | UpdateMatVec embeds a short vector at that stride |
| Shares.OneChunk | mvp_sdk/include/mvp_public/mvp_impl.cc:295-303 | with ncols set to N the embedded vector is a single chunk |
| Shares.UpdateAdds | mvp_sdk/include/mvp_public/mvp_impl.cc:289-306 | adding the scaled-up value of any word adds the word to what decryption gives, within 1 modulo t |
| Centralize.CenteralizeAt | mvp_sdk/include/mvp_public/mvp_priv_impl.cc:179-205 | the word written stands for the integer `Meaning` modulo the modulus, for every word; below 2^bits it is the residue of the centred value if and only if that value is non-negative, or the base has 64 bits and its magnitude is at most the modulus; for a wider word it is 0 or the modulus less 2^bits, in turn with each 2^bits |
| Centralize.EncodedMeaning | mvp_sdk/include/mvp_public/mvp_priv_impl.cc:190-201 | the same for one word: the word itself if not negative; at 64 bits its centred value if the modulus reaches it and else the word; below, -2^bits or 2^64 - 2^bits, or 0 for every other block of 2^bits |
| DivideRound.LastCoefficients | mvp_sdk/include/mvp_public/util/seal.cc:28-29 | the inverse transform of the last limb is exactly the coefficients modulo q_k |
| DivideRound.AddHalf | mvp_sdk/include/mvp_public/util/seal.cc:30-34 | the last limb becomes (x + half) mod q_k |
| DivideRound.SubtractHalf | mvp_sdk/include/mvp_public/util/seal.cc:41-53 | the lazy difference does not wrap, is below 2*q_i and congruent to the last limb less half, whichever modulus is larger |
| DivideRound.SubtractAndScale | mvp_sdk/include/mvp_public/util/seal.cc:58-78 | adding 4*q_i minus a lazy word does not wrap, and the product is reduced |
| DivideRound.DropFrom | mvp_sdk/include/mvp_public/util/seal.cc:37-79 | limb i in transformed form becomes limb i of floor((x + q_k/2)/q_k), in transformed form |
| DivideRound.DivideAndRound | mvp_sdk/include/mvp_public/util/seal.cc:10-81 | a base size of 0 or of the whole base is refused; otherwise every limb but the last, in transformed form, is divided by q_k and rounded |
| DivideRound.DropUndoesScaling | mvp_sdk/include/mvp_public/mvp_impl.cc:132-151 | multiplying by q_k with a zero last residue and dropping q_k is the identity |
| Fifo.Buffer.constructor | sim/top_tb/fifo_fwft.v:35-50 | an empty queue |
| Fifo.Buffer.PosEdge | sim/top_tb/fifo_fwft.v:62-172 | one edge is one queue step: a word offered joins at the back exactly if there is room, the word on the output leaves exactly if it is read, the next one is on the output at once, nothing else changes; what was delivered and what is queued is what was accepted, in order |
| Fifo.CountsStep | sim/top_tb/fifo_fwft.v:87-125 | usedw is the count modulo 2^ADDR_WIDTH, full and empty tell the count, almost full, where it works, is always raised with DEPTH-1 words or more and never with fewer than DEPTH-2 |
| Fifo.GateHonestExactlyWhen | sim/top_tb/fifo_fwft.v:107-115 | over every run there is room for two more words while almost full is low, if and only if DEPTH is at least 2 and not DEPTH = 2 = 2^ADDR_WIDTH |
| Fifo.WordsStep | sim/top_tb/fifo_fwft.v:64-85 | the memory holds the stored words, in order, from the read address on, across the wrap of both addresses |
| Fifo.HeadStep | sim/top_tb/fifo_fwft.v:133-162 | show_ahead picks q_tmp exactly when the registered memory word is stale, so the next output is always the head |
| Fifo.HoldsStep | sim/top_tb/fifo_fwft.v:127-162 | one edge keeps both |
| Fifo.ImageStep | sim/top_tb/fifo_fwft.v:62-172 | the invariant over all registers and the history of words |
| Fifo.EdgeMoves | sim/top_tb/fifo_fwft.v:56-57 | the same from pins and counts alone: accepted exactly if not full, delivered exactly if valid and read, and with reading enabled valid afterwards exactly if a word was stored behind or the output stayed |
| Fifo.Streams | sim/top_tb/fifo_fwft.v:133-172 | while reading is held, one word leaves at every edge, in order and without a gap, for as long as the queue had words |
| AxiRead.ReadChannel.PosEdge | sim/top_tb/tb_axi_bram.v:303-448 | one edge of the read channel takes registers, FIFOs and histories to the next state at once; every beat requested is staged, queued or returned once and in order, a staged beat always finds room, and an address offered is taken exactly if no burst is in progress or its last beat is being requested |
| AxiRead.ReadChannel.MoveFifos | sim/top_tb/tb_axi_bram.v:401-439 | the data and info FIFOs move in lock-step |
| AxiRead.RoomKept | sim/top_tb/fifo_fwft.v:107-115 | the almost-full gate leaves room for the beat in flight with one cycle of RAM latency |
| AxiRead.AccountStep | sim/top_tb/tb_axi_bram.v:303-356 | beats requested plus beats pending are the beats of the accepted bursts, in order |
| AxiRead.Marks | sim/top_tb/tb_axi_bram.v:304-325 | a burst is arlen + 1 beats with rlast on the last only, as section A3.4.1 of ARM IHI 0022 has it |
| AxiRead.ReturnedInOrder | sim/top_tb/tb_axi_bram.v:431-448 | at any time the beats returned are a prefix of those |
| AxiRead.AllReturned | sim/top_tb/tb_axi_bram.v:431-448 | with nothing in flight they are all of them |
| AxiRead.ChannelStep | sim/top_tb/tb_axi_bram.v:303-448 | one edge keeps, for any depth the gate works for: the FIFOs' count, room for the staged beat, and the account of every beat |
| AxiRead.Drains | sim/top_tb/tb_axi_bram.v:303-448 | with rready held, no new address and three words or more, every burst accepted so far is returned in full after at most four edges a pending beat, three a staged and two a stored one |
| AxiRead.ChannelMoves | sim/top_tb/tb_axi_bram.v:303-356 | from the registers alone: when an address is taken, when a beat is requested (at every edge of a burst while the gate is open, which it is with fewer than DEPTH-2 words stored) and when one is returned |
| AxiRead.AddressAccepted | sim/top_tb/tb_axi_bram.v:303-312 | an address held with rready high, from three words on, is accepted after at most as many edges as moves remain |
| AxiRead.NeverDrains | sim/top_tb/fifo_fwft.v:107-115 | with DEPTH = 2 and more addresses a burst not yet requested when the gate closes is never requested, over every run without a reset |
| AxiRead.TwoIsTooFew | sim/top_tb/fifo_fwft.v:107-115 | such a state is reached from reset by a burst of three beats |
| BlockGrid.BlockStep | mvp_sdk/python/wrapper.cc:826-832 | the schedule visits block k at index (row + 4095) / 4096 = k, and no block has one row unless the matrix has |
| BlockGrid.BlockHolding | mvp_sdk/python/wrapper.cc:826-832 | the row blocks partition the rows |
| BlockGrid.EveryBlockAccepted | mvp_sdk/python/wrapper.cc:772-846 | every block that can be cut anywhere in a matrix of any size, a lone row padded to two, has a shape check_config accepts |
| BlockGrid.BlocksAreLargest | mvp_sdk/python/wrapper.cc:18-19 | no job of more rows is accepted, and with full blocks of rows no wider power of two of columns is |
| BlockGrid.MatVec | mvp_sdk/python/wrapper.cc:767-880 | every block is a job of a shape the host accepts, and the table of block results, summed along its rows, is the product of each row block with the whole scaled vector modulo Q: adding ciphertexts costs no rounding |
| BlockGrid.Decrypt | mvp_sdk/python/wrapper.cc:902-953 | replaying the schedule puts every block's rows back in place, each rounded once |
| BlockGrid.MultiplyAndDecrypt | mvp_sdk/python/wrapper.cc:772-953 | for every size, in blocks the host accepts, the grid gives each row's product with the whole vector, up to the one rounding error of `ProductDecodes` |

## Left out

- SEAL, hexl, serialization, keys, encryption and sampling; `RandomVector` takes the sampled words as a parameter and nothing is claimed about their distribution.
- The RTL of the stages themselves (`reduce_trace`, dp, intt, preprocess): the model stops at the controller's schedule and the row order, not at LWE packing. What an extraction delivers is stated on integers in Z[X]/(X^n + 1) and decoded from their residue modulo Q; encryption noise is the `E` of `NoisyRoundTrip`.
- `slotful_ntt.h:10-18` forwards the lazy transforms to SEAL; the transforms modelled are the repository's own bodies, and `DivideRound` uses them where the code calls SEAL's, which promise the same ranges.
- Loops unrolled by four make one step per butterfly; the corrected prefix of a group is rounded up to a batch of four as in the code.
- `o_pre_tpp_switch`, the mode and level outputs of `control.v:385-392`, and the ROM-like `o_mulacc_s7_n` family are combinational views of the modelled registers.
- Transpose.TransposeInplace: what the loops do where some step is wrong; the only call in the code passes two rows.
- `tb_axi_bram.v`: the asynchronous reset of the read channel is modelled as a synchronous one.
- ControlRuns.EveryRun: a second start pulse inside a run and a feed that ends early are not covered.
- `IsTwoPower` is taken as "is a power of two" rather than its bit trick; `pos & gap` as a remainder, `gap + 1` being a power of two.
- BlockGrid.MatVec: a block's result is the number modulo Q that `HostRun` shows its limbs compose to; encryption, the conversion between reals and words and the framing of the merged string are left out.
- `seal.cc`: moduli are below 2^59; the branch for SEAL moduli above 60 bits and the null-pointer checks are left out.
- UInt128 is a value of two limbs; writes through `lo()` and `hi()` become new values.
- `KernelRun` and `KernelInit` device I/O, buffers and semaphores, `mvp_axil.v`, `mvp.v`, the write channel of `tb_axi_bram.v` and its address mapping, `GCD`, `LCM`, the command-line tools and demos.
