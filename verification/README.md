# gem5 fault injection: a Dafny model

A model of the fault-injection framework's own logic and proofs about it: the sequence
selector, the self-checking signature program, the campaign statistics and grid, the
kernel-log event machine, and the injectors' state machines. Everything random is an input
of the model (a draw, a stream of draws); Python floats are exact reals; the square root in
the Wilson interval is any nonnegative number whose square is the radicand. Loops and objects
of the source are methods and classes proved against specification functions, and the
properties are proved about those functions, over every input, run or reachable state.

| module | models |
|---|---|
| RealArith, IntArith, Options, Coverage | arithmetic, sums, products shared by the rest |
| Selection, Exchange, Greedy, GreedyUnits, GreedyLoop | weighted coverage, its marginal gains, the greedy loop read off its picks, the approximation ratio |
| Crc, CrcResidue, SelfCheck, MemoryImage, SelfCheckLoops | reflected CRC-32 and its residue, register hash, memory image, two-pass checker |
| Wilson, Grid | the two Wilson intervals, the campaign grid and its seeds |
| LogParse, LogOrder, LogFields, Aggregate | classified log lines to events, their order, their fields, per-core aggregation |
| ByteWindow, Bits, WindowFaults | little-endian read-modify-write, single bits, its three users, byte-lane skew |
| ForwardRing, ForwardSpec, ForwardRuns, ForwardBits, ForwardInjector | store history ring, forwarding injector: what is served, runs, bits, object |
| RandomMask | rejection sampling of distinct bits |
| Injection | gates, rescheduling and stuck-at records shared by the injectors |
| MemSpec, MemStuck, MemBits, MemHistory, MemInjector | memory injector: steps, stuck-ats, every bit after every run, times and counters, object |
| TlbInjector, TlbEffects | TLB injector: steps, runs, object; frames left behind, window |
| RenameSpec, RenameRuns, RenameEffects, RenameInjector | rename-map injector: attempts, runs, exact effects and times, object |
| CacheSpec, CacheRuns, CacheBits, CacheFields, CacheCounts, CacheStuck, CacheBudget, CacheCap, CacheInjector | cache injector: steps, runs, bits, instruction fields, counters and times, protection and stuck-ats, budget, cap, object |

Where code and documentation disagree the model follows the code, and a lemma says by how much:

- `greedy_select` calls its quota soft; it is a hard cap (Greedy.QuotaIsHard).
- `harp_eval.wilson` says it is the implementation of `campaign.wilson`; they differ exactly
  for k = 0 with n > 0 (Wilson.SameImplementation, Wilson.RuleOfThreeOrder).
- The seed is called unique per cell and repetition; it is so exactly up to 1000 repetitions,
  or with one cell (Grid.SeedsDistinctIff).
- A WARNING is said to merge only directly after a spurious line; context lines in between do
  not stop it (LogParse.WarningMergesIff, LogParse.MergeAcrossContext).
- EDAC events are appended at once while an anomaly stays pending, so the list is in line order
  exactly when no EDAC line falls into an open event (LogOrder.LineOrderIff, LogOrder.EdacOvertakes).
- `pickSource` promises a stale buffer; starting at depth 0 it finds the store just recorded
  (ForwardSpec.SubstitutionServesCurrent, with the exact condition for every offset in
  ForwardSpec.OlderServedIff). The header documents offsets of -2 to 2 and the parameter 1 to 8:
  negative ones wrap to the oldest slots (ForwardRing.NegativeStart), and 8 never substitutes
  (ForwardRing.PickIsNewest).
- The memory window is documented as clamped into memory; a start address past the last byte is
  not (MemSpec.WindowInsideMemoryIff).
- The attack interval is meant to be at least one clock; the 32-bit unsigned product can wrap
  below it (Injection.SpacingIff), down to no time at all for an even clock ratio
  (Injection.LeastInterval).
- An ECC-corrected fault is said to have no net effect; a stuck-at is recorded all the same, so it
  has none exactly under the conditions of MemStuck.CorrectedStaysIff, MemStuck.CorrectedForgottenIff
  and CacheStuck.CorrectedStaysIff.
- The last tick is said to end injection; the first attack is scheduled without looking at it, so an
  attack can come later, and then it is the first (MemHistory.LateIsFirst).
- The rename-map check passes an absolute cycle where a delay is expected, so its gaps double
  (RenameRuns.CheckGapsDouble); `clockEdge` adds its argument to the current edge
  (CHAOS/gem5/src/sim/clocked_object.hh:177-184).
- The cache check never reschedules itself (CacheRuns.AtMostOneCheck), and the partner sector is
  outside every protection model (CacheStuck.PartnerUnprotected).
- The cache cap is documented as the maximum number of faults. It is one exactly when
  (CacheCap.CapHoldsIff): there is no block or nothing to corrupt; or the target is an instruction
  field and the corruption size is at most the cap; or the target is the byte array, no pair can be
  struck and the corruption size divides the cap; or the first attack that could pass the cap falls
  after the window. With pairing and room for two blocks only the last case is left, so a cap of one
  is then no bound (CacheCap.SingleFaultIff).

## Model

| member | source | states |
|---|---|---|
| `Greedy.GreedyRatio` | tools/ed_select.py:42-69 | main result: without quotas, a stopped run reaches at least 1-(1-1/k)^k of the objective of every set of at most k candidates, early stops included |
| `Greedy.GreedyReachesOneMinusOneOverE` | tools/ed_select.py:17-19 | the ratio the file claims: at least 1-1/E of any such set, for every partial sum E of the series of e |
| `Selection.MarginalIsDifference` | tools/ed_select.py:33-39 | the closed-form gain is exactly the difference of the two objectives |
| `Selection.Monotone` | tools/ed_select.py:17-19 | the objective never decreases when candidates are added and is never negative |
| `Selection.DiminishingGain` | tools/ed_select.py:17-19 | a candidate's closed-form gain never grows as the selected set grows |
| `Selection.Submodular` | tools/ed_select.py:17-19 | true differences of the objective diminish: submodularity |
| `Exchange.GapBound` | tools/ed_select.py:33-39 | any set exceeds the selected one by at most the sum of the marginal gains of its members |
| `Greedy.GainsAreObjective` | tools/ed_select.py:42-69 | the reported gains sum exactly to the final objective, quotas or not |
| `Greedy.QuotaIsHard` | tools/ed_select.py:57-59 | no unit is top unit of more picks than its quota: the "soft" quota is a hard cap |
| `Greedy.PicksAreDistinct` | tools/ed_select.py:62-69 | every pick is a different pool member |
| `Greedy.RunIsDetermined` | tools/ed_select.py:51-61 | runs of equal length from one pool are equal: ties go to the first candidate and first unit |
| `Greedy.EarlyStop` | tools/ed_select.py:62-63 | stopping before k picks without quotas already dominates every set of at most k |
| `GreedyUnits.RunIff` | tools/ed_select.py:50-68 | the runs are exactly the sequences in which each pick is booked under the first unit with the largest weighted share of what the earlier picks leave, that unit has room, and every candidate passed over gains less, gains the same further down the pool, or is held back by a full unit |
| `GreedyUnits.OfferIff` | tools/ed_select.py:54-59 | a quota zeroes a candidate exactly when its strongest unit already has its quota of picks; otherwise the candidate offers the sum of its shares |
| `GreedyUnits.StoppedIff` | tools/ed_select.py:62-63 | an early stop leaves exactly candidates without gain and candidates whose strongest unit is full |
| `GreedyLoop.CoverageGain` | tools/ed_select.py:33-39 | the accumulating loop returns the sum of the gain terms, missing units counting as uncovered |
| `GreedyLoop.Sweep` | tools/ed_select.py:52-61 | one sweep over the remaining pool returns the first largest offer and its top unit |
| `GreedyLoop.OfferOf` | tools/ed_select.py:54-59 | a candidate's offer: its summed gains, or 0 when its top unit is at quota |
| `GreedyLoop.Absorb` | tools/ed_select.py:64-65 | multiplying in the complement gives the products over the enlarged selection |
| `GreedyLoop.GreedySelect` | tools/ed_select.py:42-69 | the loop produces a stopped greedy run; the running products are those of the picks, so the gains sum to the objective |
| `Crc.StepInjective` | tools/harp_wrap.py:82 | one bit step loses nothing: it is injective on 32-bit states |
| `Crc.FeedInjective` | tools/harp_wrap.py:79-83 | feeding equal data from different states never merges them |
| `Crc.FeedLinear` | tools/harp_wrap.py:79-83 | feeding is linear over XOR in state and data together |
| `Crc.DetectionDependsOnError` | tools/harp_wrap.py:75-85 | two buffers collide exactly when their XOR difference feeds to zero |
| `Crc.FeedConcat` | workloads/directed/crc_state_kernel.c:4-13 | chaining over pieces equals feeding the concatenation |
| `Crc.FeedBitsIsWord` | tools/harp_wrap.py:79-83 | feeding at most 32 bits is XORing one word and stepping that many times |
| `Crc.FeedIsBits` | tools/harp_wrap.py:79-83 | the byte loop is the bit-serial register fed lowest bit first |
| `Crc.BurstDetected` | tools/harp_wrap.py:75-85 | every error confined to 32 consecutive bits changes the checksum |
| `Crc.WindowDetected` | tools/harp_wrap.py:75-85 | every change confined to four consecutive bytes changes the checksum |
| `Crc.GeneratorEscapes` | tools/harp_wrap.py:75-85 | the bound is sharp: one 33-bit error pattern escapes in every buffer at every byte position |
| `Crc.ComplementIsXor` | tools/harp_wrap.py:170-180 | the two ways the templates finish (XOR with ones, complement) are the same |
| `CrcResidue.ResidueIff` | tools/harp_wrap.py:75-85 | a buffer followed by four bytes checks to the residue 2144DF1C exactly when those bytes are its own CRC, lowest first |
| `CrcResidue.EmptyCrc` | tools/harp_wrap.py:75-85 | the empty buffer checks to zero |
| `CrcResidue.CheckValue` | tools/harp_wrap.py:75-85 | the published check value CBF43926 of the text 123456789 |
| `SelfCheckLoops.EightSteps` | workloads/directed/crc_state_kernel.c:5 | the inner loop is eight bit steps |
| `SelfCheckLoops.CrcSimple` | workloads/directed/crc_state_kernel.c:4-7 | the in-place loop feeds the first len bytes; a negative length feeds none |
| `SelfCheckLoops.CrcOfBuffer` | tools/harp_wrap.py:170-180 | the template function computes the checksum of the whole buffer |
| `SelfCheckLoops.KernelRounds` | workloads/directed/crc_state_kernel.c:8-15 | round r of the kernel holds the register after r+1 copies of the buffer; the printed checksum is the FNV mix of their sum |
| `SelfCheckLoops.TotalNext` | workloads/directed/crc_state_kernel.c:13 | each round adds its register to the sum, widened to 64 bits |
| `SelfCheckLoops.FnvValue` | workloads/directed/crc_state_kernel.c:3-14 | offset and prime of the closing mix give the published FNV-1a value of the letter a |
| `SelfCheck.MixInjective` | tools/harp_wrap.py:131-133 | one hash step is injective in the sum and in the register (the multiplier is invertible mod 2^64) |
| `SelfCheck.HashInjective` | tools/harp_wrap.py:131-133 | hashing equal registers never merges two sums |
| `SelfCheck.OneRegisterSeen` | tools/harp_wrap.py:238-241 | register files that differ in one register have different hashes |
| `SelfCheck.CollisionIff` | tools/harp_wrap.py:238-241 | two register files have the same hash exactly when their differences, weighed by the powers of the multiplier, vanish mod 2^64 |
| `SelfCheck.TwoRegistersEscape` | tools/harp_wrap.py:238-241 | so a change of two neighbouring registers goes unseen exactly when the later one moves by the earlier one times the multiplier |
| `SelfCheck.SameFunctionAccepted` | tools/harp_wrap.py:140-145 | both passes running one function, corrupted or not, always gives OK |
| `SelfCheck.OneRegisterRejected` | tools/harp_wrap.py:236-249 | final states differing in one register are always rejected, whatever memory holds |
| `SelfCheck.MemoryWindowRejected` | tools/harp_wrap.py:236-249 | different final memories that differ only within four consecutive bytes are always rejected |
| `SelfCheck.ElementInjective` | tools/harp_wrap.py:242-243 | the eight bytes of an element determine it |
| `SelfCheck.MemoryInjective` | tools/harp_wrap.py:242-243 | the byte image of a memory determines it |
| `MemoryImage.ImageBits` | tools/harp_wrap.py:242-243 | bit j of byte 8k+i of the image is binary digit 8i+j of memory element k |
| `SelfCheckLoops.HashOfRegisters` | tools/harp_wrap.py:238-241 | the loop computes the register hash |
| `SelfCheckLoops.SeedRoundTrip` | tools/harp_wrap.py:161-168 | the generator step is invertible |
| `SelfCheckLoops.NeverStuck` | tools/harp_wrap.py:161-168 | a nonzero seed never reaches the all-zero state |
| `SelfCheckLoops.DrawsAreEven` | tools/harp_wrap.py:163-168 | the returned sum is the new first word moved up by one bit, so no draw is odd |
| `SelfCheckLoops.WorkedStep` | tools/harp_wrap.py:163-168 | one generator step worked out on a seed that shows all three shift distances |
| `SelfCheckLoops.Fill` | tools/harp_wrap.py:201-208 | both channels are filled with the same draws |
| `SelfCheckLoops.RunPass` | tools/harp_wrap.py:212-233 | a pass loop applies the body ITERS times to registers and memory |
| `SelfCheckLoops.BytesOf` | tools/harp_wrap.py:242-243 | the memory image handed to the checksum, element by element, lowest byte first |
| `SelfCheckLoops.SignatureOf` | tools/harp_wrap.py:236-243 | hash and checksum of one channel |
| `SelfCheckLoops.CheckerMain` | tools/harp_wrap.py:198-251 | the checker prints OK exactly when the signatures of the two iterated passes agree |
| `Wilson.ScoreInversion` | tools/campaign.py:64-67 | main result: the interval before clamping is exactly the set of q that pass the score test |
| `Wilson.PassingRange` | tools/campaign.py:64-67 | no value outside [0,1] passes the score test |
| `Wilson.ProportionPasses` | tools/campaign.py:60-67 | the observed proportion always passes |
| `Wilson.ClampsNeverBind` | tools/campaign.py:64-67 | 0 <= lo <= p <= hi <= 1 before clamping, so min and max change nothing |
| `Wilson.Complement` | tools/harp_eval.py:88-96 | the interval for n-k is the reflection of the interval for k |
| `Wilson.EndpointsMonotone` | tools/harp_eval.py:88-96 | both endpoints are nondecreasing in k for every n |
| `Wilson.ZeroSuccesses` | tools/harp_eval.py:88-96 | for k=0 the interval is [0, z^2/(n+z^2)] |
| `Wilson.RuleOfThreeOrder` | tools/campaign.py:61-63 | the rule-of-three bound is below the score bound exactly for n >= 14 and never equals it |
| `Wilson.SameImplementation` | tools/harp_eval.py:89 | the two tools agree exactly when k > 0 or n = 0, though one claims to be the other's implementation |
| `Wilson.CampaignUpperOrder` | tools/campaign.py:55-67 | with the rule of three the upper end rises from k=0 to k=1 except for n = 2, 3, 4 |
| `Grid.DecodeIsDigits` | tools/campaign.py:70-78 | decoding an index gives legal digits and encoding them returns the index |
| `Grid.EncodeInRange` | tools/campaign.py:70-78 | encoding legal digits gives a legal index and decoding it returns the digits |
| `Grid.ProductLength` | tools/campaign.py:75 | the product has as many rows as the axis sizes multiply to |
| `Grid.ProductAt` | tools/campaign.py:75 | row i holds the values at the mixed-radix digits of i, last axis fastest |
| `Grid.EveryCombination` | tools/campaign.py:75 | every choice of one value per axis is a row |
| `Grid.NoRowTwice` | tools/campaign.py:75 | with distinct axis values no row repeats |
| `Grid.ProductLoop` | tools/campaign.py:75 | the axis-by-axis loop builds that product |
| `Grid.ExpandCells` | tools/campaign.py:70-78 | the grid has one cell per index and cell i is the decoding of i under the axis keys |
| `Grid.NoCellTwice` | tools/campaign.py:70-78 | with distinct axis values no cell repeats |
| `Grid.SeedsDistinctIff` | tools/campaign.py:86-87 | seeds are pairwise distinct exactly when there are at most 1000 repetitions or at most one cell |
| `Grid.SeedsIncreaseIff` | tools/campaign.py:86-87 | seeds start at the base and grow in run order, under the same condition |
| `LogParse.Parse` | tools/diag/logparse.py:63-198 | the loop over lines with one pending event computes the event machine |
| `LogParse.OneEventPerStart` | tools/diag/logparse.py:93-149 | the anomalies are exactly one event per starting line, in line order |
| `LogParse.ClosedEventFixed` | tools/diag/logparse.py:156-198 | once an event is closed no later line changes it |
| `LogParse.PrefixDetermines` | tools/diag/logparse.py:63-198 | an event depends only on the lines read so far |
| `LogParse.ContextIsLocal` | tools/diag/logparse.py:93-193 | an event's fields come only from lines before the next starting line or the end of the log: logs that agree up to there report the same event |
| `LogParse.ClosedByMarker` | tools/diag/logparse.py:192-193 | and, where an end marker closes it, only from lines up to and including that marker |
| `LogParse.OneEventPerEdacLine` | tools/diag/logparse.py:150-154 | each EDAC or RAS line yields exactly one event, in line order |
| `LogOrder.LineOrderIff` | tools/diag/logparse.py:150-154 | for every log: events are listed in line order exactly when no EDAC or RAS line arrives while an event is open |
| `LogOrder.EdacOvertakes` | tools/diag/logparse.py:150-154 | otherwise the EDAC event is listed before the event that was open, in every log |
| `LogParse.WarningMergesIff` | tools/diag/logparse.py:113-128 | a WARNING adds no anomaly exactly when some earlier spurious line is followed by no other spurious line, no Oops and no end marker |
| `LogParse.MergeAcrossContext` | tools/diag/logparse.py:113-126 | a WARNING merges into an open spurious event across context and EDAC lines: it starts no event, and its CPU, PID and process become those of the event |
| `LogFields.ReportedFields` | tools/diag/logparse.py:100-197 | every reported anomaly, from the lines alone: kind, time and text of its start; PID and process last named; core named last by a header, else first by context; ESR, FAR, pc, lr and each register as last printed before it closed; the first twelve frames below a call-trace line |
| `LogFields.StartIff` | tools/diag/logparse.py:94-148 | which lines start an event, by the patterns they match |
| `LogFields.EdacFields` | tools/diag/logparse.py:150-154 | a line yields an EDAC event exactly when it matches those patterns and no other; the event has the time stamp, the first 200 characters and no context |
| `Aggregate.Filter` | tools/diag/logparse.py:204-206 | the anomalies in order, and the number of EDAC events |
| `Aggregate.Tally` | tools/diag/logparse.py:211-215 | per-core counts and first-seen order |
| `Aggregate.TopOf` | tools/diag/logparse.py:223-227 | the top core has a maximal count and is the first seen among the maximal ones |
| `Aggregate.Histograms` | tools/diag/logparse.py:216-220 | symbols and syndrome values counted over the anomalies that have them |
| `Aggregate.Summarize` | tools/diag/logparse.py:201-245 | counts, top core, concentration, the over-60-percent flag, the several-programs flag and both histograms |
| `Aggregate.TwoAppsIff` | tools/diag/logparse.py:229-231 | P2 counts names: at least two on a core exactly when two of its anomalies name different processes |
| `Aggregate.TalliesAreEvents` | tools/diag/logparse.py:211-220 | each tally is the number of events on the core, at the symbol, with the syndrome |
| `Aggregate.ConcentratedIsUnique` | tools/diag/logparse.py:239 | if P1 holds, every other core has less than two thirds of the top count |
| `Aggregate.TopIndependentOfOrder` | tools/diag/logparse.py:223-239 | if P1 holds, every reordering of the events has the same top core, count and flag |
| `Aggregate.AnyMaximumCanWin` | tools/diag/logparse.py:225 | without P1 the order decides: each core with a maximal count is top under some order |
| `ByteWindow.UnpackPack` | CHAOS/CHAOSLSQFwd/CHAOSLSQFwd.cc:333-356 | reading a window as an integer and writing it back is the identity |
| `ByteWindow.WindowFault` | CHAOS/CHAOSLSQFwd/CHAOSLSQFwd.cc:333-356 | the integer operation on the window is the byte operation on each byte under its mask slice |
| `ByteWindow.WindowIsIntegerOperation` | CHAOS/CHAOSPhysReg/CHAOSPhysReg.cc:325-350 | the written-back window spells the integer operation under the truncated mask |
| `ByteWindow.TruncationIsHarmless` | CHAOS/CHAOSLSQFwd/CHAOSLSQFwd.cc:324-325 | mask bits above the window have no effect |
| `ByteWindow.FaultTwice` | CHAOS/CHAOSLSQFwd/CHAOSLSQFwd.cc:339-353 | flips undo themselves and stuck-ats are idempotent |
| `ByteWindow.OnlyMaskedBits` | CHAOS/CHAOSLSQFwd/CHAOSLSQFwd.cc:339-353 | within the window only masked bits change |
| `Bits.PopCountIsOnes` | CHAOS/CHAOSArmTLB/CHAOSArmTLB.cc:125 | the bit count by clearing lowest bits is the number of bits set |
| `Bits.ByteStruck` | CHAOS/CHAOSCache/CHAOSCache.cc:748-764 | a fault on a byte changes each bit by itself |
| `ByteWindow.ReadWindow` | CHAOS/CHAOSLSQFwd/CHAOSLSQFwd.cc:335-337 | the read loop packs the window, lowest byte first |
| `ByteWindow.WriteWindow` | CHAOS/CHAOSLSQFwd/CHAOSLSQFwd.cc:355-356 | the write loop replaces the window and nothing else |
| `ByteWindow.CorruptWindow` | CHAOS/CHAOSPhysReg/CHAOSPhysReg.cc:325-350 | the whole read-modify-write: the window is faulted, the rest kept |
| `WindowFaults.ForwardWindow` | CHAOS/CHAOSLSQFwd/CHAOSLSQFwd.cc:304-319 | the clamped window always lies in the forwarded bytes; offsets and widths that fit are kept |
| `WindowFaults.TruncateIsMask` | CHAOS/CHAOSLSQFwd/CHAOSLSQFwd.cc:325 | keeping the low bytes of the mask is the bitwise AND the code performs |
| `WindowFaults.CorruptForwarded` | CHAOS/CHAOSLSQFwd/CHAOSLSQFwd.cc:304-356 | a forwarded buffer changes exactly as a window fault says |
| `WindowFaults.LaneBytes` | CHAOS/CHAOSPhysReg/CHAOSPhysReg.cc:311-313 | lane widths other than 8, 16, 32, 64 fall back to four bytes |
| `WindowFaults.Lane` | CHAOS/CHAOSPhysReg/CHAOSPhysReg.cc:316-318 | a lane index outside the vector is replaced by a drawn one |
| `WindowFaults.CorruptLane` | CHAOS/CHAOSPhysReg/CHAOSPhysReg.cc:306-350 | one lane of the vector is faulted and every other byte kept |
| `WindowFaults.FieldConfined` | CHAOS/CHAOSCache/CHAOSCache.cc:710-728 | a field fault stays inside the field's bits of the instruction word |
| `WindowFaults.FieldNoop` | CHAOS/CHAOSCache/CHAOSCache.cc:717-725 | it changes nothing exactly when the mask selects no bit of the field |
| `WindowFaults.FieldIsXor` | CHAOS/CHAOSCache/CHAOSCache.cc:718-730 | the instruction word is XORed with exactly the placed bits |
| `WindowFaults.FieldWord` | CHAOS/CHAOSCache/CHAOSCache.cc:723-725 | the bit loop collects the selected mask bits in the field |
| `WindowFaults.CorruptField` | CHAOS/CHAOSCache/CHAOSCache.cc:716-730 | the aligned four-byte word changes by that flip, whatever the fault type |
| `WindowFaults.SkewAmount` | CHAOS/CHAOSLSQFwd/CHAOSLSQFwd.cc:208-214 | the rotation is below the size, and zero only for one byte |
| `WindowFaults.SkewLanes` | CHAOS/CHAOSLSQFwd/CHAOSLSQFwd.cc:216-218 | the loop rotates the bytes in place |
| `WindowFaults.SkewUndone` | CHAOS/CHAOSLSQFwd/CHAOSLSQFwd.cc:207-221 | skewing by size-k undoes a skew by k |
| `WindowFaults.SkewIsRightRotation` | CHAOS/CHAOSLSQFwd/CHAOSLSQFwd.cc:207-221 | a skew by k bytes is a right rotation of the value by 8k bits, at any size |
| `ForwardRing.RecordKeeps` | CHAOS/CHAOSLSQFwd/CHAOSLSQFwd.cc:141-147 | overwriting the slot under the cursor keeps the ring equal to the newest eight stores |
| `ForwardRing.RingIsHistory` | CHAOS/CHAOSLSQFwd/CHAOSLSQFwd.cc:141-147 | after any run of stores the ring is exactly the newest eight, with nothing else valid |
| `ForwardRing.SlotTest` | CHAOS/CHAOSLSQFwd/CHAOSLSQFwd.cc:168-173 | testing a ring slot is testing that depth of the unbounded history |
| `ForwardRing.PickIsNewest` | CHAOS/CHAOSLSQFwd/CHAOSLSQFwd.cc:165-175 | from depth 0 on, the newest large-enough store at that depth or deeper is picked, none if there is none; depth 8 or more picks nothing |
| `ForwardRing.NegativeStart` | CHAOS/CHAOSLSQFwd/CHAOSLSQFwd.cc:165-175 | any negative depth wraps: the walk runs to the oldest slot first and then starts over at the newest |
| `ForwardRing.TooWide` | CHAOS/CHAOSLSQFwd/CHAOSLSQFwd.cc:168-175 | a forward wider than 64 bytes is never served from the ring |
| `ForwardSpec.SubstitutionServesCurrent` | CHAOS/CHAOSLSQFwd/CHAOSLSQFwd.cc:157-167 | wrong-store forwarding and stale replay always serve the bytes that were being forwarded |
| `ForwardSpec.OlderServedIff` | CHAOS/CHAOSLSQFwd/CHAOSLSQFwd.cc:157-175 | for every phase offset: an older store is served exactly when the offset is below 8, not a multiple of 8, and an older store at the wrapped depth or deeper fits |
| `ForwardRuns.ServedBytes` | CHAOS/CHAOSLSQFwd/CHAOSLSQFwd.cc:159-199 | the bytes of a substituted forward: the first size bytes of the first store, searching from the phase offset or from depth 0, that is large enough; the current data when there is none |
| `ForwardRuns.HistoryIsStores` | CHAOS/CHAOSLSQFwd/CHAOSLSQFwd.cc:141-147 | in every run the history is the non-null forwards of 1 to 64 bytes, in order, whatever faults fired |
| `ForwardRuns.FiresIff` | CHAOS/CHAOSLSQFwd/CHAOSLSQFwd.cc:148-182 | when either hook counts a fault: window, cap, gate, and something to substitute or to corrupt |
| `ForwardRuns.OutsideInert` | CHAOS/CHAOSLSQFwd/CHAOSLSQFwd.cc:150-152 | outside the window a forward is served as it is and nothing is counted |
| `ForwardRuns.FaultsInWindow` | CHAOS/CHAOSLSQFwd/CHAOSLSQFwd.cc:148-157 | over every run of both hooks: at most one fault per event inside the window, and never more than the shared cap |
| `ForwardBits.WindowBit` | CHAOS/CHAOSLSQFwd/CHAOSLSQFwd.cc:321-356 | bit j of byte i of a window is faulted by bit 8i+j of the mask |
| `ForwardBits.CorruptedBytes` | CHAOS/CHAOSLSQFwd/CHAOSLSQFwd.cc:202-356 | forwarded bytes after a fault: bit by bit for the clamped window, lane by lane for the skew, zero for the all-zero fault |
| `ForwardInjector.Injector.Record` | CHAOS/CHAOSLSQFwd/CHAOSLSQFwd.cc:141-147 | recording appends to the history and rewrites only the slot under the cursor |
| `ForwardInjector.Injector.Search` | CHAOS/CHAOSLSQFwd/CHAOSLSQFwd.cc:165-175 | the walk over the ring finds the slot the history picks |
| `ForwardInjector.Injector.PickSource` | CHAOS/CHAOSLSQFwd/CHAOSLSQFwd.cc:138-200 | what is served, counted and recorded, as a function of the history; serving never alters the ring; the budget holds |
| `ForwardInjector.Injector.Corrupt` | CHAOS/CHAOSLSQFwd/CHAOSLSQFwd.cc:280-364 | gated in-place corruption; the budget is shared with source substitution and holds |
| `ForwardInjector.CorruptBytes` | CHAOS/CHAOSLSQFwd/CHAOSLSQFwd.cc:296-356 | structural faults take precedence over the window fault |
| `RandomMask.Generate` | CHAOS/CHAOSReg/CHAOSReg.cc:167-188 | terminates on every fair stream at the first draw that makes up the wanted number; the mask is exactly the positions drawn; up to width 64 that is min(bits, width) bits, all below the width |
| `RandomMask.PositionsAreOnes` | CHAOS/CHAOSReg/CHAOSReg.cc:178-186 | the positions spoken of are the bits of the mask |
| `RandomMask.PlaceBit` | CHAOS/CHAOSReg/CHAOSReg.cc:181-185 | an accepted draw adds exactly one bit position |
| `RandomMask.NextAccepted` | CHAOS/CHAOSReg/CHAOSReg.cc:178-186 | while a bit is missing, an acceptable draw lies ahead in every fair stream |
| `MemSpec.WindowInsideMemoryIff` | CHAOS/CHAOSMem/CHAOSMem.cc:66-80 | the clamped window is a nonempty part of memory exactly when the range starts before the end of memory |
| `MemSpec.WindowKept` | CHAOS/CHAOSMem/CHAOSMem.cc:66-80 | a range inside memory is kept, single bytes and the last byte included |
| `MemHistory.WindowIff` | CHAOS/CHAOSMem/CHAOSMem.cc:66-80 | the addresses attacks may draw, one by one: in memory, not below the range, and not above its end unless the end is zero or before the start |
| `MemSpec.StepKeeps` | CHAOS/CHAOSMem/CHAOSMem.cc:206-438 | writes, attacks and checks keep the budget, the pending check and the fault table well formed |
| `MemSpec.RunInvariant` | CHAOS/CHAOSMem/CHAOSMem.cc:285-382 | in every run: faults never exceed the cap, a pending attack has budget left, a check is pending, and under a protection model every fault is booked under one outcome |
| `MemSpec.NextAttackTime` | CHAOS/CHAOSMem/CHAOSMem.cc:371-381 | consecutive attacks are one sampled interval apart and only the first can fall after a nonzero last tick |
| `MemHistory.FirstAttack` | CHAOS/CHAOSMem/CHAOSMem.cc:86-94 | the first attack comes one delay, a 32-bit product, after the first tick |
| `MemHistory.NeverEarly` | CHAOS/CHAOSMem/CHAOSMem.cc:86-94 | in every run no attack is pending before the first tick |
| `MemHistory.LateIsFirst` | CHAOS/CHAOSMem/CHAOSMem.cc:371-381 | an attack after a nonzero last tick is the first of its run: only that one is not held against it |
| `MemHistory.CheckTimes` | CHAOS/CHAOSMem/CHAOSMem.cc:125 | check n of every run comes n periods after the first tick |
| `Injection.SpacingIff` | CHAOS/CHAOSMem/CHAOSMem.cc:371-377 | all distances up to a limit keep attacks a clock ratio apart exactly when limit times ratio fits in 32 bits |
| `Injection.LeastInterval` | CHAOS/CHAOSMem/CHAOSMem.cc:371-377 | the shortest interval any draw gives is 0 ticks for an even clock ratio and 1 for an odd one |
| `MemSpec.AttacksSpaced` | CHAOS/CHAOSMem/CHAOSMem.cc:371-381 | over any run, an attack whose product does not wrap is followed at least one clock ratio later |
| `MemStuck.FixedTargets` | CHAOS/CHAOSMem/CHAOSMem.cc:214-219 | without redirection every target is in the clamped window |
| `MemStuck.EveryAttackCounts` | CHAOS/CHAOSMem/CHAOSMem.cc:206-369 | in fixed mode the fault count is the number of attacks, so a cap bounds the attacks of every run |
| `MemStuck.OnlyTargetChanges` | CHAOS/CHAOSMem/CHAOSMem.cc:238-335 | an attack changes only masked bits of its target byte |
| `MemBits.AttackByte` | CHAOS/CHAOSMem/CHAOSMem.cc:238-335 | one attack exactly: the byte aimed at differs by the mask (flip), or has the masked bits stuck and the others kept, unless SECDED undoes a one-bit fault; every other byte is kept |
| `MemBits.RedirectedBits` | CHAOS/CHAOSMem/CHAOSMem.cc:224-235 | a redirected address differs from the drawn one in exactly the bits of the mask |
| `MemBits.BitSince` | CHAOS/CHAOSMem/CHAOSMem.cc:206-438 | in every run, a bit that no step assigns is toggled once for each flip that reaches it |
| `MemBits.BitAfterRun` | CHAOS/CHAOSMem/CHAOSMem.cc:206-438 | every bit of memory after every run: the value of the last write, stuck-at fault or re-application that assigned it, toggled once for each later flip |
| `MemHistory.CountersCount` | CHAOS/CHAOSMem/CHAOSMem.cc:281-333 | in every run each counter is the number of landed attacks with that outcome, by the number of bits in their masks |
| `MemStuck.TableIsLatest` | CHAOS/CHAOSMem/CHAOSMem.cc:257-276 | the fault table is the latest stuck-at of each address in the history of steps |
| `MemStuck.CheckRestores` | CHAOS/CHAOSMem/CHAOSMem.cc:384-438 | right after a check every recorded byte shows its latest stuck bits and every other byte is untouched |
| `MemStuck.ReapplyTwice` | CHAOS/CHAOSMem/CHAOSMem.cc:387-436 | checking is idempotent |
| `MemStuck.CorrectedStaysIff` | CHAOS/CHAOSMem/CHAOSMem.cc:257-312 | a corrected one-bit fault leaves memory alone, and still does after the next check exactly when it is a flip or the byte is what the table leaves anyway; for an unrecorded address, when the byte shows the bit already |
| `MemStuck.CorrectedForgottenIff` | CHAOS/CHAOSMem/CHAOSMem.cc:257-312 | it leaves no trace on anything written later exactly when it is a flip or repeats the recorded stuck-at |
| `MemInjector.Injector.constructor` | CHAOS/CHAOSMem/CHAOSMem.cc:63-126 | clamps the window, schedules the first attack and check; usable exactly when the range starts inside memory |
| `MemInjector.Injector.Protect` | CHAOS/CHAOSMem/CHAOSMem.cc:281-329 | books the outcome and reverts only what SECDED corrects |
| `MemInjector.Injector.Inject` | CHAOS/CHAOSMem/CHAOSMem.cc:237-333 | one byte faulted, stuck-ats recorded, outcome booked, fault counted |
| `MemInjector.Injector.AttackMemory` | CHAOS/CHAOSMem/CHAOSMem.cc:206-382 | the attack event performs the specified step |
| `MemInjector.Injector.CheckPermanent` | CHAOS/CHAOSMem/CHAOSMem.cc:384-438 | the table walk, in any order, performs the specified check and schedules the next one |
| `TlbInjector.Donor` | CHAOS/CHAOSArmTLB/CHAOSArmTLB.cc:159-184 | no donor exactly when no other valid entry has the page size; else the frame of one |
| `TlbInjector.PickMappedPage` | CHAOS/CHAOSArmTLB/CHAOSArmTLB.cc:163-183 | the candidate loop computes that choice |
| `TlbInjector.EveryEntryWasFilled` | CHAOS/CHAOSArmTLB/CHAOSArmTLB.cc:207-238 | in every run with live-page substitution each valid entry's frame and size were filled together |
| `TlbInjector.ParityDetects` | CHAOS/CHAOSArmTLB/CHAOSArmTLB.cc:118-238 | in every mode: no lookup leaves a frame one bit off; a detection leaves the original page in an invalid entry; a replaced frame is an escape; no other entry changes |
| `TlbEffects.FrameAfter` | CHAOS/CHAOSArmTLB/CHAOSArmTLB.cc:186-258 | a lookup that fires leaves the frame its mode asks for (the drawn live entry, the old frame plus the offset, or the masked bits faulted) unless parity catches a one-bit change and takes it back with the entry |
| `TlbEffects.FieldAfter` | CHAOS/CHAOSArmTLB/CHAOSArmTLB.cc:259-330 | a fault in another field replaces that field and nothing else |
| `TlbEffects.FiresIff` | CHAOS/CHAOSArmTLB/CHAOSArmTLB.cc:189-220 | exactly when a lookup faults: window, cap, gate, and something to write |
| `TlbEffects.WindowInert` | CHAOS/CHAOSArmTLB/CHAOSArmTLB.cc:193-195 | lookups outside the window can be left out of any run: the same table and counters result |
| `TlbInjector.FaultAccounting` | CHAOS/CHAOSArmTLB/CHAOSArmTLB.cc:186-376 | over every run: the cap holds and, under parity, frame faults equal detections plus escapes |
| `TlbInjector.SameFrameCountsAsEscape` | CHAOS/CHAOSArmTLB/CHAOSArmTLB.cc:118-149 | a donor with the same frame changes nothing but counts as a fault and an escape |
| `TlbInjector.Injector.ApplyProtection` | CHAOS/CHAOSArmTLB/CHAOSArmTLB.cc:118-149 | the parity step in place |
| `TlbInjector.Injector.MaybeCorrupt` | CHAOS/CHAOSArmTLB/CHAOSArmTLB.cc:186-376 | the lookup hook in every mode performs the specified step, declining when there is no donor |
| `RenameSpec.Victim` | CHAOS/CHAOSRenameMap/CHAOSRenameMap.cc:147-177 | the configured register if mapped, else any mapped register; none only when none is mapped |
| `RenameSpec.Donor` | CHAOS/CHAOSRenameMap/CHAOSRenameMap.cc:233-244 | the donor has another live mapping; none only when no drawn register donates |
| `RenameEffects.FlippedBits` | CHAOS/CHAOSRenameMap/CHAOSRenameMap.cc:182-190 | the flipped index differs from the old one in exactly the bits of the mask |
| `RenameEffects.AttemptIs` | CHAOS/CHAOSRenameMap/CHAOSRenameMap.cc:126-303 | one attempt exactly: which register is moved, where to (the flipped index or the first drawn donor), what is pinned; or nothing, and then why |
| `RenameSpec.ProcessInRange` | CHAOS/CHAOSRenameMap/CHAOSRenameMap.cc:126-300 | an attempt keeps all entries and pins in the physical range and lands at most one fault within the cap |
| `RenameSpec.OneEntryPerAttempt` | CHAOS/CHAOSRenameMap/CHAOSRenameMap.cc:126-300 | an attempt changes at most one entry, of its own thread, and only when it lands |
| `RenameSpec.SubstitutionStaysMapped` | CHAOS/CHAOSRenameMap/CHAOSRenameMap.cc:224-300 | substitution and pinning never enlarge the set of mapped physical registers and touch no other thread |
| `RenameSpec.SubstitutionDoubleMaps` | CHAOS/CHAOSRenameMap/CHAOSRenameMap.cc:224-260 | a landed substitution leaves two registers on one physical register the victim did not have |
| `RenameRuns.AttackStaysMapped` | CHAOS/CHAOSRenameMap/CHAOSRenameMap.cc:105-110 | the same for a whole attack event over all threads |
| `RenameEffects.AttackRow` | CHAOS/CHAOSRenameMap/CHAOSRenameMap.cc:104-110 | an attack is one attempt per thread on the row it had before; a halted thread keeps its row |
| `RenameRuns.StepKeeps` | CHAOS/CHAOSRenameMap/CHAOSRenameMap.cc:100-414 | renames, attacks and checks keep ranges, budget and pending events |
| `RenameRuns.RunInvariant` | CHAOS/CHAOSRenameMap/CHAOSRenameMap.cc:100-300 | in every reachable state every entry exists, the cap holds, a pending attack has budget left |
| `RenameRuns.PinsHold` | CHAOS/CHAOSRenameMap/CHAOSRenameMap.cc:393-412 | right after a check every pin holds, whatever renames came before |
| `RenameRuns.PinsAreLatest` | CHAOS/CHAOSRenameMap/CHAOSRenameMap.cc:287-300 | in every run the pins are exactly the latest landed fault of each register |
| `RenameRuns.CheckMapsIff` | CHAOS/CHAOSRenameMap/CHAOSRenameMap.cc:393-412 | a check maps no new register exactly when every pin of the thread is still mapped |
| `RenameRuns.CheckIdempotent` | CHAOS/CHAOSRenameMap/CHAOSRenameMap.cc:393-412 | checking twice is checking once |
| `RenameRuns.AttacksPerCycleBounded` | CHAOS/CHAOSRenameMap/CHAOSRenameMap.cc:111-123 | from any point of a capped run, one cycle holds at most as many attack events as faults are left |
| `RenameEffects.FirstAttack` | CHAOS/CHAOSRenameMap/CHAOSRenameMap.cc:61 | the first attack comes a drawn number of cycles after the first cycle |
| `RenameEffects.NextAttackTime` | CHAOS/CHAOSRenameMap/CHAOSRenameMap.cc:111-123 | consecutive attacks are the drawn distance apart, one cycle when none was drawn and nothing landed, and never after a nonzero last cycle |
| `RenameRuns.UncappedUnbounded` | CHAOS/CHAOSRenameMap/CHAOSRenameMap.cc:111-123 | without a cap one cycle can hold any number of attack events |
| `RenameRuns.CheckGapsDouble` | CHAOS/CHAOSRenameMap/CHAOSRenameMap.cc:413 | check i is at cycle 2^i(first+100001)-100000: gaps double, as the absolute cycle is passed as a delay |
| `RenameInjector.Injector.ChooseVictim` | CHAOS/CHAOSRenameMap/CHAOSRenameMap.cc:147-165 | the configured register or one with an active mapping |
| `RenameInjector.Injector.FindDonor` | CHAOS/CHAOSRenameMap/CHAOSRenameMap.cc:233-244 | the first of at most numRegs draws that has another live mapping |
| `RenameInjector.Injector.ProcessFault` | CHAOS/CHAOSRenameMap/CHAOSRenameMap.cc:126-304 | the attempt in place; every rejection leaves the state alone |
| `RenameInjector.Injector.AttackCheck` | CHAOS/CHAOSRenameMap/CHAOSRenameMap.cc:100-124 | the attack event over all threads, its back-off and its rescheduling |
| `RenameInjector.Injector.CheckPermanent` | CHAOS/CHAOSRenameMap/CHAOSRenameMap.cc:373-414 | re-pins in any order and schedules the next check |
| `CacheRuns.OutcomesBalance` | CHAOS/CHAOSCache/CHAOSCache.cc:202-247 | in every run, flips plus stuck-ats equal raw escapes plus corrected plus contained plus latent |
| `CacheCounts.AttackStats` | CHAOS/CHAOSCache/CHAOSCache.cc:695-817 | a whole data attack, counted: by fault type, by the outcome of the number of bits in each mask, and once per copy |
| `CacheCounts.StruckBlock` | CHAOS/CHAOSCache/CHAOSCache.cc:595-667 | the block struck is the first valid one at the directed address, else the drawn one in tag order; the partner is the first valid block in the other half of the pair |
| `CacheBits.AttackBits` | CHAOS/CHAOSCache/CHAOSCache.cc:695-817 | every bit of the struck block after a whole attack: toggled exactly by an odd number of covering strikes that protection does not revert, or stuck exactly if there is one; in the partner every covering strike counts |
| `CacheFields.AttackFields` | CHAOS/CHAOSCache/CHAOSCache.cc:716-742 | every instruction word after a whole field attack: the targeted field decodes to its old value XORed with the masks of the strikes in that word, all else as before |
| `CacheFields.FieldDecoded` | CHAOS/CHAOSCache/CHAOSCache.cc:716-730 | a field fault changes the decoded field by the mask and nothing else a decoder reads |
| `CacheStuck.AttackTable` | CHAOS/CHAOSCache/CHAOSCache.cc:748-804 | after an attack the table has the last stuck-at of every byte struck, partner included, and is else unchanged |
| `CacheRuns.PrimaryUnchanged` | CHAOS/CHAOSCache/CHAOSCache.cc:744-777 | one-bit masks under any protection model leave the primary block as it was, however many bytes are struck |
| `CacheRuns.AttackLeavesPrimary` | CHAOS/CHAOSCache/CHAOSCache.cc:589-839 | the same for the whole attack, choice of block and partner included |
| `CacheRuns.OthersUntouched` | CHAOS/CHAOSCache/CHAOSCache.cc:695-817 | blocks other than the primary and its partner are never touched |
| `CacheStuck.PartnerUnprotected` | CHAOS/CHAOSCache/CHAOSCache.cc:790-804 | a whole attack leaves the partner block the same under every protection model, none included |
| `CacheStuck.CorrectedStaysIff` | CHAOS/CHAOSCache/CHAOSCache.cc:744-777 | after a whole attack with one-bit masks and the check, the primary is what it would have been without the attack exactly when the fault is a flip, the check does not reach the block, or every struck byte is harmless |
| `CacheStuck.HarmlessIff` | CHAOS/CHAOSCache/CHAOSCache.cc:744-777 | an unrecorded byte is harmless exactly when it shows the stuck bit already |
| `CacheRuns.CheckPlace` | CHAOS/CHAOSCache/CHAOSCache.cc:841-882 | checking one place, in any order, settles exactly that place |
| `CacheRuns.AtMostOneCheck` | CHAOS/CHAOSCache/CHAOSCache.cc:841-882 | a run contains at most one check: it is scheduled once and never again |
| `CacheCounts.CheckTime` | CHAOS/CHAOSCache/CHAOSCache.cc:84 | the check comes its configured delay after the first tick |
| `CacheCounts.FirstAttack` | CHAOS/CHAOSCache/CHAOSCache.cc:56-71 | the first attack comes one delay, a 32-bit product, after the first tick |
| `CacheBudget.AttackCharge` | CHAOS/CHAOSCache/CHAOSCache.cc:731-732 | exactly what one attack charges and injects: the corruption size even for nothing struck, a pair charged as one byte, a field fault charged twice |
| `CacheBudget.RunWithin` | CHAOS/CHAOSCache/CHAOSCache.cc:822-838 | for every configuration and run: count, faults injected, and how late and how far into the budget the last attack can have come |
| `CacheCap.CapHoldsIff` | CHAOS/CHAOSCache/CHAOSCache.cc:822-838 | for every configuration with a cap and every initial cache, the exact condition under which no run injects more than the cap |
| `CacheCap.SingleFaultIff` | CHAOS/CHAOSCache/CHAOSCache.cc:822-828 | cap one, one byte per attack, open window: the cap holds exactly when no pair can be struck |
| `CacheSpec.DirectedBlockStruck` | CHAOS/CHAOSCache/CHAOSCache.cc:611-634 | a directed block that is resident is the one struck |
| `CacheInjector.Injector.ApplyProtection` | CHAOS/CHAOSCache/CHAOSCache.cc:202-247 | the outcome is booked and the byte reverted only when corrected |
| `CacheInjector.Injector.StrikeOnce` | CHAOS/CHAOSCache/CHAOSCache.cc:695-817 | one loop iteration: field path, data path, partner |
| `CacheInjector.Injector.Choose` | CHAOS/CHAOSCache/CHAOSCache.cc:595-667 | the directed block if resident, else a drawn valid one, and its resident partner |
| `CacheInjector.Injector.InjectFault` | CHAOS/CHAOSCache/CHAOSCache.cc:589-839 | the attack event performs the specified step |
| `CacheInjector.Injector.FindLast` | CHAOS/CHAOSCache/CHAOSCache.cc:856-862 | the walk over the tags returns the last valid block at the recorded place |
| `CacheInjector.Injector.CheckPermanent` | CHAOS/CHAOSCache/CHAOSCache.cc:841-882 | the table walk, in any order, performs the specified check |

## Left out

- gem5 itself: tag store, rename map, free list, register file, memory and event queue appear only as a sequence of blocks, a map, a byte array and the pending times of events.
- Random distributions: draws are arbitrary inputs, so nothing is said about probabilities.
- Floating-point rounding in Python, including the rounding of the reported concentration.
- Regular expressions and timestamps of the log parser: each line arrives as the record of what the patterns found.
- Aggregate.Summarize: the concentration is the exact quotient, not its value rounded to four places, and keys are not turned into strings.
- Assembly bodies of the signature programs: a pass is an arbitrary function of registers and memory that keeps their sizes.
- CRC of buffers whose length is not a whole number of elements: the checker's memory is an array of 64-bit elements.
- WindowFaults.CorruptLane: does not model the recorded permanent fault of a vector register or its later re-application.
- MemInjector.Injector.AttackMemory: an address redirected outside memory trips an assertion in gem5 (CHAOS/gem5/src/mem/abstract_mem.cc:394) and ends the run; the model lets the run go on without an injection, so it has those runs and more.
- Wrap-around of 64-bit tick and cycle counters, and the 32-bit product of the cache and memory injectors' first event beyond what the rescheduling uses.
- TlbInjector.Injector.MaybeCorrupt: the attribute fields (permissions, execute-never, memory attributes, VMID, ASID) are one field that receives a drawn value.
- RenameInjector.Injector.ProcessFault: one register class with its flattened indices equal to the architectural ones; read tracing, logging and the counter of rejected attempts are not modelled.
- CacheInjector.Injector.StrikeOnce: only the data array and the instruction fields; tag, valid, dirty, replacement, coherence and writeback-victim faults are not modelled.
- CacheInjector.Injector.Choose: blocks carry their number (address divided by block size), so the directed address is given as a block number and the partner toggles its lowest bit.
- CHAOSBPU, CHAOSExec, CHAOSFPU, CHAOSL1DForward, CHAOSRAS, CHAOSROB, CHAOSAddrPath, CHAOSArmSysReg, CHAOSExMon, CHAOSPTW: gates around one assignment, which would only add easy members.
- CHAOSFreeList and CHAOSIQ: what they affect is in gem5's allocation and wake-up code.
- tools/classify.py, tools/diag/sdc_diagnose.py, tools/harp_advice.py, tools/escape_decomp.py: flat thresholds and ordered branches.
- Configuration scripts, the other workloads, manifests beyond the seed, argument parsing, process handling, reports and logs.
