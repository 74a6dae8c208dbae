# Saltflower core in Dafny

Saltflower is a collection of small programs built around one picture. A signal "breathes":
it inhales, holds while it is turned by π/4 steps, exhales through a NAND gate and returns
to zero. Each π/4 turn that lands on an odd multiple of π/4 costs a torque toll. A 0≠1
check ("Stone's Law") refuses admission to an input that would make a cell's signal equal
to its potential. The remainder of a breath ("T=1") is the part left unpaired.

This project models these programs and proves what each promises:

- the helical NAND arrays of `rotational_nand_sim.py` and `saltflower_unified_demo.py`,
  and the primal math engine built on them;
- the breathing state machine of the AVR firmware `breath_orchestrator.c`;
- the constitutional breath cycle of `constitutional_ai.py`: tokenizer, admissibility
  gate, metrics, NAND token reduction, collapse and emission;
- the HeartShard engine of `heartshard_engine_v2.py`: its roster, the Maw and rebirth;
- the NAND bit-mask fractals in 2-D, 2-D with a prime overlay, and 3-D;
- the halving-and-prime filters `feather_of_frost.py`, `breath_crystallizer.py` and
  `unwrap.py`;
- the helical NAND feedback step of `nand_helix.py`;
- the facing-contradiction counter of `friction_facing_counter.py`.

Code that mutates objects becomes Dafny classes whose methods are proved against
functions of the old state. This covers the cells and arrays, the crystallizer, the
constitutional engine, the HeartShard engine and the orchestrator's registers. Loops
become methods with invariants. Pure computations become functions and lemmas.

Shared modules:

- **Gates**: the NAND gate.
- **Bits**: bitwise AND on naturals, and the low-bit disjointness behind every fractal.
- **Text**: decimal rendering, Python's string order and `sorted`, lower-casing, and substring containment.
- **Primality**: both primality tests.
  - The 6k ± 1 loop in `saltflower_unified_demo.py:18-31`. The same loop appears in `nand_prime_fractal_sim.py:4-17`, `fractal_3d.py:3-16` and `unwrap.py:4-12`, and all four use this one method and its specification.
  - The trial-division loop in `feather_of_frost.py:3-10`.

Three behaviours of the HeartShard engine that the model follows exactly as the code has them:

- **What `enter_maw` broadcasts.** The Maw signal carries friction `char.entropy`, entropy delta `-char.entropy`, generation `self.playthrough` and event type `maw_entry`. `enter_maw` itself does not advance the playthrough; `next_generation` does (`heartshard_engine_v2.py:30-35`, `:46`).
- **Who is reborn.** Not the departed character: a new child entity named `<name>_gen<playthrough>` is created and bonded with TRUST to one partner of the departed character, or to `maw` when there are none (`heartshard_engine_v2.py:51-56`).
- **How many axes flip.** The code draws 0 to 2 axis indices from {0, 1, 2}, possibly repeated, and flips those axes (`heartshard_engine_v2.py:48-49`).

## Model

| member | source | states |
|---|---|---|
| Gates.Nand | rotational_nand_sim.py:29-31 | `nand(a, b)` is `not (a and b)`: false exactly when both inputs are true, true exactly when at least one is false |
| Bits.OverlapZeroIffDisjoint | nand_fractal_sim.py:5-9 | `(x & mask) & (y & mask)` is 0 exactly when x and y share no set bit below max_depth, in both directions |
| Bits.DisjointSymmetric | nand_fractal_sim.py:9 | the low-bit overlap test is symmetric in x and y |
| Bits.DisjointWithZero | nand_fractal_sim.py:9 | 0 overlaps nothing, so row 0 and column 0 are always included |
| Bits.DisjointPeriodic | nand_fractal_sim.py:5-9 | adding 2^max_depth to a coordinate does not change the masked test |
| Text.NatToString | heartshard_engine_v2.py:51 | `str(n)` is a non-empty string of digits with no leading zero |
| Text.NatToStringRoundTrip | heartshard_engine_v2.py:51 | reading the decimal string back yields n |
| Text.NatToStringInjective | heartshard_engine_v2.py:51 | distinct numbers render to distinct strings |
| Text.LexReflexive | constitutional_ai.py:324 | Python's string order is reflexive |
| Text.LexTotal | constitutional_ai.py:324 | any two strings are ordered one way or the other |
| Text.LexAntisymmetric | constitutional_ai.py:324 | two strings each at most the other are equal |
| Text.LexTransitive | constitutional_ai.py:324 | the string order is transitive |
| Text.LeastExists | constitutional_ai.py:324 | every non-empty finite set of strings has a least element |
| Text.SortedList | constitutional_ai.py:324 | `sorted(tokens)` is strictly increasing, has exactly the set's elements and the set's size |
| Text.SortedListUnique | constitutional_ai.py:324 | only one strictly increasing listing has a given set of elements |
| Text.Lower | constitutional_ai.py:301 | folds the ASCII capitals A-Z to a-z, leaves every other character alone, and keeps the length; no capital A-Z remains |
| Text.LowerOfLowerCase | constitutional_ai.py:301 | lower-casing a lower-case string changes nothing |
| Text.ShortestExists | constitutional_ai.py:312 | every non-empty set of strings has an element no other is shorter than, so `min(..., key=len)` is defined |
| Primality.NoSmallDivisorMeansPrime | saltflower_unified_demo.py:25-31 | no divisor in 2..k-1 and k·k > n means n is prime: the loop's exit argument |
| Primality.SixKWindow | saltflower_unified_demo.py:26-30 | not divisible by 2, 3, i or i+2 means no divisor in the window i..i+5 |
| Primality.IsPrimeSixK | saltflower_unified_demo.py:18-31 | the 6k ± 1 loop answers true exactly when n is prime, for every integer n |
| Primality.IsPrimeTrial | feather_of_frost.py:3-10 | true iff n ≥ 2 and no d with d·d ≤ n divides n; equivalently, iff n is prime |
| NandFractal.Pixel | nand_fractal_sim.py:5-10 | reference pixel value: 1 when the masked coordinates share no bit, else 0 (properties in PixelMeaning, PixelSymmetric, AxesLit, PixelPeriodic) |
| NandFractal.GenerateNandFractal | nand_fractal_sim.py:3-11 | a fresh size×size grid whose entry [y, x] is the pixel of (x, y) |
| NandFractal.PixelMeaning | nand_fractal_sim.py:5-10 | every pixel is 0 or 1, and it is 1 iff x and y share no bit below max_depth |
| NandFractal.PixelSymmetric | nand_fractal_sim.py:9-10 | the image is symmetric about its diagonal |
| NandFractal.AxesLit | nand_fractal_sim.py:9-10 | the first row and the first column are lit |
| NandFractal.PixelPeriodic | nand_fractal_sim.py:5-10 | the pattern repeats with period 2^max_depth |
| NandPrimeFractal.Cell | nand_prime_fractal_sim.py:22-31 | reference cell value: 0 when the masked coordinates overlap, else 2 when x + y is prime and 1 otherwise (properties in CellMeaning, CellSymmetric, OriginIsOne) |
| NandPrimeFractal.GenerateNandPrimeFractal | nand_prime_fractal_sim.py:19-32 | a fresh size×size grid whose entry [y, x] is the cell of (x, y) |
| NandPrimeFractal.CellMeaning | nand_prime_fractal_sim.py:22-31 | every cell is 0, 1 or 2; it is non-zero iff the low bits are disjoint; it is 2 iff they are disjoint and x + y is prime |
| NandPrimeFractal.CellSymmetric | nand_prime_fractal_sim.py:26-31 | the image is symmetric about its diagonal |
| NandPrimeFractal.OriginIsOne | nand_prime_fractal_sim.py:26-31 | the origin is lit but not prime |
| Fractal3D.Voxel | fractal_3d.py:40-58 | reference voxel value: 0 when two of the masked coordinates share a bit, else 2 when x + y + z is prime, 1 when it is positive and 0 at the origin (properties in VoxelMeaning) |
| Fractal3D.RowOfOverlappingPair | fractal_3d.py:44-45 | when x and y overlap, the early out leaves their whole z row uncounted |
| Fractal3D.FillColumn | fractal_3d.py:46-58 | the z loop writes the voxel value at every z of column (x, y), leaves every other voxel alone, and counts that column's lit and prime voxels |
| Fractal3D.FillPlane | fractal_3d.py:42-58 | the y loop fills plane x, leaves the other planes alone, and counts that plane's lit and prime voxels |
| Fractal3D.GenerateNandPrimeFractal3D | fractal_3d.py:19-61 | ZeroDivisionError exactly when size is 0 (the density line divides by size³); otherwise a fresh size³ grid of voxel values, with counts equal to the lit and prime voxels of the whole cube |
| Fractal3D.FillCube | fractal_3d.py:34-58 | the x loop leaves every voxel at its reference value and counts exactly the lit and the prime voxels of the cube |
| Fractal3D.VoxelMeaning | fractal_3d.py:26-58 | each voxel is 0, 1 or 2; non-zero only when pairwise disjoint; 2 iff disjoint with a prime sum; 1 iff disjoint with a composite positive sum; the origin is allowed but 0 |
| Fractal3D.RowBounds | fractal_3d.py:46-56 | in one z row, primes ≤ lit ≤ row length |
| Fractal3D.PlaneBounds | fractal_3d.py:42-56 | in one plane, primes ≤ lit ≤ plane size |
| Fractal3D.CubeBounds | fractal_3d.py:40-56 | over the first x planes, primes ≤ lit ≤ x·size² |
| Fractal3D.CountersBounded | fractal_3d.py:52-61 | prime_count ≤ lit_count ≤ size³, so density and prime ratio are at most 1 |
| FeatherOfFrost.HalvedPrimes | feather_of_frost.py:18-25 | reference output: the values \|x\|//2 of the input, in order, that are prime (properties in HalvedPrimesBounds, HalvedPrimesAppend, HalvedPrimesMembers) |
| FeatherOfFrost.HalveAndFilter | feather_of_frost.py:12-25 | the loop's output is the reference list of halved values \|x\|//2 that are positive primes, in input order |
| FeatherOfFrost.HalvedPrimesBounds | feather_of_frost.py:18-25 | the output is no longer than the input, and every element is a positive prime |
| FeatherOfFrost.HalvedPrimesAppend | feather_of_frost.py:21-24 | filtering distributes over concatenation of signals |
| FeatherOfFrost.HalvedPrimesMembers | feather_of_frost.py:18-24 | v is in the output iff v is a positive prime and is the halved value of some input element |
| BreathCrystallizer.Deduplicate | breath_crystallizer.py:31 | `list(set(...))` has no duplicates and the same elements |
| BreathCrystallizer.BreathAddsPrimeHalves | breath_crystallizer.py:27-31 | a breath keeps every old crystal; given positive prime crystals, every crystal is a positive prime; each new crystal is the halved value of some signal element |
| BreathCrystallizer.BreathIdempotent | breath_crystallizer.py:45-51 | breathing the same signal twice gives the crystals of breathing it once |
| BreathCrystallizer.Crystallizer.constructor | breath_crystallizer.py:18-21 | the depth is stored, with no crystals, cycle 0 and no current signal |
| BreathCrystallizer.Crystallizer.Inhale | breath_crystallizer.py:23-25 | the current signal becomes the input; nothing else changes |
| BreathCrystallizer.Crystallizer.Hold | breath_crystallizer.py:27-31 | without a signal it fails (AttributeError) and changes nothing; otherwise the signal becomes its halved primes and the crystal list becomes their distinct union with the old crystals |
| BreathCrystallizer.Crystallizer.Exhale | breath_crystallizer.py:33-37 | the cycle count goes up by one; nothing else changes |
| BreathCrystallizer.Crystallizer.Reset | breath_crystallizer.py:39-43 | the signal is emptied; the crystals keep their elements, without duplicates |
| BreathCrystallizer.Crystallizer.Breathe | breath_crystallizer.py:45-51 | after one full cycle the crystals are the old ones plus the signal's positive prime halves, without duplicates; the signal is empty and the count is one higher |
| Unwrap.UnwrapToPrimes | unwrap.py:14-26 | one present per layer (none for a non-positive count); present k holds layer k, the value seed halved k+1 times, and the label "Prime gift!" exactly when that value is prime |
| Unwrap.LayerValue | unwrap.py:18-25 | reference value of layer k: the seed floor-halved k + 1 times (closed form in LayerValueIsShift) |
| Unwrap.Label | unwrap.py:21-24 | "Prime gift!" for a prime value and "Wrapped deeper..." otherwise |
| Unwrap.LayerValueIsShift | unwrap.py:18-25 | the value of layer k is seed // 2^(k+1) |
| Unwrap.LayerValuesNonIncreasing | unwrap.py:20-25 | later layers never hold larger values |
| Unwrap.LayerValueBound | unwrap.py:16-20 | a seed below 2^32 keeps every layer value below 2^31 |
| NandHelix.HelixStep | nand_helix.py:6-14 | reference step: the same length, cell i the NAND of cell i and the cell `delay` places behind it, wrapping around (properties in HelixStepCell, WholeTurnNegates, DelayPeriodic) |
| NandHelix.Behind | nand_helix.py:12 | `(i - delay) % n` with Python's floor remainder is a valid index, for negative delays too |
| NandHelix.HelixStepCell | nand_helix.py:9-13 | cell i of the step is the NAND of cell i and cell (i - delay) mod n |
| NandHelix.Step | nand_helix.py:6-14 | returns a fresh array of the same length holding the reference step, and leaves the input unchanged |
| NandHelix.WholeTurnNegates | nand_helix.py:11-13 | a delay that is a multiple of n negates every cell |
| NandHelix.DelayPeriodic | nand_helix.py:12 | delays that differ by n give the same step |
| NandHelix.ShiftByTurns | nand_helix.py:12 | looking back a multiple of n lands on the same cell |
| NandHelix.ShiftPlusTurn | nand_helix.py:12 | adding n to the delay does not move the looked-at cell |
| FrictionFacingCounter.CountFacingContradictions | friction_facing_counter.py:4-12 | the count of horizontal plus vertical disagreeing neighbour pairs is never negative (its bounds are in CountBound, HorizontalRange, VerticalRange) |
| FrictionFacingCounter.ConstantMatrixIsCalm | friction_facing_counter.py:9-11 | a constant matrix has no facing contradictions |
| FrictionFacingCounter.CountBound | friction_facing_counter.py:9-11 | there are at most rows·(cols-1) + (rows-1)·cols facing contradictions |
| FrictionFacingCounter.Horizontal | friction_facing_counter.py:9 | reference count of the cells that differ from their right neighbour (bounds in HorizontalRange) |
| FrictionFacingCounter.Vertical | friction_facing_counter.py:11 | reference count of the cells that differ from the cell below them (bounds in VerticalRange) |
| FrictionFacingCounter.HorizontalRange | friction_facing_counter.py:9 | the horizontal count lies between 0 and rows·(cols-1) |
| FrictionFacingCounter.VerticalRange | friction_facing_counter.py:11 | the vertical count lies between 0 and (rows-1)·cols |
| FrictionFacingCounter.TransposeKeepsCount | friction_facing_counter.py:4-12 | transposing swaps the horizontal and vertical counts and keeps the total |
| FrictionFacingCounter.ZeroColumns | friction_facing_counter.py:6-11 | a matrix with empty rows has no facing pairs |
| BreathOrchestrator.Inc | breath_orchestrator.c:57 | `uint8_t` increment: x + 1 below 255, and 255 wraps to 0 |
| BreathOrchestrator.Orchestrator.constructor | breath_orchestrator.c:21-23 | power-on registers: IDLE, phase 0, toll 0, PORTB as given |
| BreathOrchestrator.Step | breath_orchestrator.c:40-94 | reference interrupt: IDLE clears INHALE, EXHALE and RETURN and goes to INHALE; INHALE raises its pin, zeroes the phase counter and goes to HOLD_TORQUE; HOLD_TORQUE toggles the clock and counts, tolling odd phases and moving to EXHALE after eight; EXHALE raises its pin and goes to IDLE with the toll cleared on a violation, to RETURN_ZERO otherwise; RETURN_ZERO raises RETURN, lowers EXHALE and goes to IDLE |
| BreathOrchestrator.Orchestrator.Tick | breath_orchestrator.c:40-94 | one timer interrupt moves the registers by the transition function of the breath state machine |
| BreathOrchestrator.Orchestrator.HoldTick | breath_orchestrator.c:54-69 | the HOLD_TORQUE branch of the interrupt: toggle the clock, count the phase, charge odd phases, leave at 8 |
| BreathOrchestrator.UpperPinsUntouched | breath_orchestrator.c:43-92 | no tick writes PB4-PB7 |
| BreathOrchestrator.IdleTick | breath_orchestrator.c:43-46 | IDLE lowers INHALE, EXHALE and RETURN, keeps the counters and moves to INHALE |
| BreathOrchestrator.InhaleTick | breath_orchestrator.c:48-52 | INHALE raises the INHALE pin, zeroes the phase counter and moves to HOLD_TORQUE |
| BreathOrchestrator.HoldTick | breath_orchestrator.c:54-69 | a hold tick flips the clock pin, counts the phase with wrap-around, charges a toll on odd phases, and ends the hold at phase 8 with INHALE lowered |
| BreathOrchestrator.ExhaleTick | breath_orchestrator.c:71-83 | EXHALE raises EXHALE; a violation resets to IDLE with toll 0, otherwise the state moves to RETURN_ZERO |
| BreathOrchestrator.ReturnTick | breath_orchestrator.c:85-92 | RETURN_ZERO raises RETURN, lowers EXHALE and moves to IDLE |
| BreathOrchestrator.HoldRun | breath_orchestrator.c:54-69 | a hold at phase k < 8 ends after 8 - k ticks in EXHALE at phase 8, charging (8 - k)/2 tolls mod 256, with the clock flipped 8 - k times and INHALE low |
| BreathOrchestrator.HoldRunCounters | breath_orchestrator.c:57-68 | over the rest of a hold: the resulting state, the phase count and the toll |
| BreathOrchestrator.HoldRunPins | breath_orchestrator.c:56-66 | over the rest of a hold: the resulting PORTB |
| BreathOrchestrator.HoldTickBefore8 | breath_orchestrator.c:54-63 | a hold tick below phase 7 stays in the hold, one phase further, charging a toll iff the new phase is odd |
| BreathOrchestrator.HoldLastTick | breath_orchestrator.c:57-68 | the tick from phase 7 reaches 8, charges nothing and leaves for EXHALE |
| BreathOrchestrator.CleanBreath | breath_orchestrator.c:40-94 | without a violation a breath from IDLE takes 12 ticks, returns to IDLE only at the end, charges 4 tolls, leaves only RETURN of the three output pins high, and keeps all other pins |
| BreathOrchestrator.HoldStays | breath_orchestrator.c:54-69 | before phase 8 the machine remains in HOLD_TORQUE with the phase counter equal to the ticks taken |
| BreathOrchestrator.ViolatedBreath | breath_orchestrator.c:71-79 | a violation seen at the 11th tick of a breath returns to IDLE with the toll cleared and EXHALE high |
| BreathOrchestrator.ReachableInvariant | breath_orchestrator.c:21-23 | power-on is reachable, and every tick keeps a hold below its eighth phase |
| Constitutional.RunLength | constitutional_ai.py:301 | the longest prefix of word characters, which the next character does not extend |
| Constitutional.Words | constitutional_ai.py:301 | `findall(r'\b\w+\b')` yields only non-empty runs of word characters |
| Constitutional.Tokenize | constitutional_ai.py:299-301 | every token is a lower-case word |
| Constitutional.WordsEmptyIff | constitutional_ai.py:301 | no word is found iff the text has no word character |
| Constitutional.TokenizeEmptyIff | constitutional_ai.py:299-301 | tokenizing gives nothing iff the text has no word character |
| Constitutional.TokenizeJoined | constitutional_ai.py:299-301 | tokenizing lower-case words joined by spaces gives back those words |
| Constitutional.WordsOfJoined | constitutional_ai.py:301 | finding the words of words joined by spaces gives back those words |
| Constitutional.IsNoun | constitutional_ai.py:235-239 | a token is a noun unless its lower-cased form is one of the ten listed verbs |
| Constitutional.IsVerb | constitutional_ai.py:241-245 | a token is a verb when its lower-cased form is one of the twelve listed verbs |
| Constitutional.NounOrVerb | constitutional_ai.py:214-245 | every token is a noun or a verb, so the `other` class is always empty |
| Constitutional.RunsIsNoun | constitutional_ai.py:235-245 | "runs" and "jumps" are on the verb list, yet the noun test accepts them too |
| Constitutional.Classify | constitutional_ai.py:214-220 | the classifying loop collects exactly the tokens the noun test accepts and the other verbs |
| Constitutional.KeepShortest | constitutional_ai.py:222-228 | keeps at most one element, which is no longer than any other, and keeps the set when it has at most one |
| Constitutional.NandTokens | constitutional_ai.py:200-233 | up to one token, the set of the tokens; otherwise at most two tokens, all from the input: one shortest noun and one shortest verb when the class is non-empty, nothing else |
| Constitutional.Assemble | constitutional_ai.py:222-233 | the union of the kept noun and kept verb is a NAND reduction |
| Constitutional.LoadOf | constitutional_ai.py:147-153 | low iff the context is under 100 characters; high iff at least 1000 |
| Constitutional.CalculateMetrics | constitutional_ai.py:138-198 | load from context size; horizon violated iff a contradiction is detected, and otherwise weak iff the boundary is unstable; collapse iff unstable; torque iff not stable; stable iff no recursion; score between 2·depth and 2·depth + 7 |
| Constitutional.ScoreMonotone | constitutional_ai.py:171-181 | the escalation score never falls when depth, token count or context grow |
| Constitutional.TokenInListing | constitutional_ai.py:102 | every token appears inside `str(tokens)` |
| Constitutional.QuotedListHolds | constitutional_ai.py:102 | every token appears inside the quoted Python listing |
| Constitutional.CanPreserveT1 | constitutional_ai.py:119-136 | T=1 can be preserved iff there is at least one token |
| Constitutional.Contradicts | constitutional_ai.py:113-117 | the stub answers False for every token and fact |
| Constitutional.DetectsContradiction | constitutional_ai.py:89-111 | a contradiction exactly when the listing `str(tokens)` contains both "divide" and "cancel", or some token contradicts some committed fact |
| Constitutional.CheckAdmissibility | constitutional_ai.py:48-87 | never WAIT; COLLAPSE iff no contradiction and depth at the limit; VIABLE iff no contradiction, depth under the limit, no stress and at least one token, with reason "Admitted" |
| Constitutional.StressBelowCollapse | constitutional_ai.py:69-74 | below the recursion limit the stress exceeds 2.0 iff the load is high at depth 2 |
| Constitutional.StoneLawHalts | constitutional_ai.py:57-59 | tokens containing both "divide" and "cancel" halt with the Stone's Law reason |
| Constitutional.NoTokensHalt | constitutional_ai.py:83-85 | with no tokens, below the limit and without stress, the gate halts with the T=1 reason |
| Constitutional.HorizonNeverDecides | constitutional_ai.py:61-63 | the horizon check never gives the verdict: a contradiction has already halted |
| Constitutional.Emit | constitutional_ai.py:319-324 | an empty set emits "<silence>" |
| Constitutional.EmitListsSorted | constitutional_ai.py:324 | a non-empty set emits "entities: " and its sorted elements joined by ", " |
| Constitutional.EmitSingle | constitutional_ai.py:324 | one token t emits "entities: t" |
| Constitutional.ConstitutionalAI.constructor | constitutional_ai.py:35-46 | depth 0, no unpaired bit, not in a breath, no committed facts |
| Constitutional.ConstitutionalAI.ResetToZero | constitutional_ai.py:326-331 | depth, unpaired bit and breath flag return to zero; committed facts persist |
| Constitutional.ConstitutionalAI.CollapseToViable | constitutional_ai.py:303-317 | silence for no tokens, otherwise "T=1: " with a shortest token, which becomes the unpaired bit |
| Constitutional.ConstitutionalAI.Breathe | constitutional_ai.py:247-297 | HALT emits "<silence: reason>" and resets; COLLAPSE emits the collapse of a NAND reduction and resets; VIABLE emits a NAND reduction and deepens the recursion, resetting when the limit is reached; committed facts never change |
| Constitutional.EmptyTextIsSilence | constitutional_ai.py:124-127 | the empty text has no tokens and is halted by the T=1 check |
| HeartShard.Roster | heartshard_engine_v2.py:9-18 | the eight characters with their keys, names, polarities, archetypes and core wounds (properties in RosterDistinct, RosterCoversAllPolarities) |
| HeartShard.FlipAxes | heartshard_engine_v2.py:49 | the axes whose index was drawn are flipped and the others kept (properties in FlipAxesStaysClose) |
| HeartShard.Flip | heartshard_engine_v2.py:49 | flipping a polarity always changes it |
| HeartShard.Distance | heartshard_engine_v2.py:48-49 | the number of axes on which two states differ is at most 3, and 0 only for equal states |
| HeartShard.Inverted | heartshard_engine_v2.py:48-49 | the fully inverted state differs on all three axes |
| HeartShard.ToTuple | heartshard_engine_v2.py:59 | `to_tuple()` is a triple of 1 and -1 |
| HeartShard.TupleRoundTrip | heartshard_engine_v2.py:59 | the saved tuple decodes back to the polarity state |
| HeartShard.ToTupleInjective | heartshard_engine_v2.py:59 | different polarity states save different tuples |
| HeartShard.FlippedAxesBound | heartshard_engine_v2.py:48 | the number of distinct axes drawn is at most the number of draws |
| HeartShard.FlipAxesStaysClose | heartshard_engine_v2.py:48-49 | with at most two draws the child differs from the parent on exactly the distinct drawn axes, at most 2, and is never the full inversion |
| HeartShard.Seeded | heartshard_engine_v2.py:19-22 | an installed character keeps its polarity, is outside the eye, and carries a birth signal from its key at time 0 with friction 1.0, located at its polarity |
| HeartShard.Install | heartshard_engine_v2.py:19-22 | the install loop maps every roster key, and only those, to its seeded character |
| HeartShard.RosterDistinct | heartshard_engine_v2.py:9-18 | eight characters with pairwise distinct keys and pairwise distinct polarities |
| HeartShard.RosterCoversAllPolarities | heartshard_engine_v2.py:9-18 | every one of the eight polarity states belongs to a roster character |
| HeartShard.Healing | heartshard_engine_v2.py:40 | the healing 1 / (entered count) lies in (0, 1] and is full exactly for the first character to enter |
| HeartShard.HealingNonIncreasing | heartshard_engine_v2.py:40 | the more characters have entered, the less each new entry heals |
| HeartShard.ChildName | heartshard_engine_v2.py:51 | `<name>_gen<playthrough>` (properties in ChildNamesDistinct) |
| HeartShard.ChildNamesDistinct | heartshard_engine_v2.py:51 | different playthroughs give different child names |
| HeartShard.BondedTo | heartshard_engine_v2.py:56 | the partners of a character: the other end of every bond it belongs to |
| HeartShard.MawSignal | heartshard_engine_v2.py:30-35 | located at and changing to the character's polarity; generation is the playthrough; lineage is extended by the name; friction is the entropy and entropy_delta is minus the entropy |
| HeartShard.HeartShardEngine.constructor | heartshard_engine_v2.py:9-22 | the entity table is exactly the seeded roster; nobody is in the eye; no signals, exclusions or bonds |
| HeartShard.HeartShardEngine.EnterMaw | heartshard_engine_v2.py:25-43 | an unknown name raises KeyError and a character that cannot enter gives None, both changing nothing; otherwise the signal is broadcast, the character is marked inside the eye and recorded, and the exclusion event with healing 1/\|entered\| is returned and logged |
| HeartShard.HeartShardEngine.NextGeneration | heartshard_engine_v2.py:45-56 | the playthrough goes up by one; a child named `<name>_gen<playthrough>` with the flipped polarity is added, bonded with TRUST to a partner of the departed or to the Maw; nothing else changes |
| HeartShard.HeartShardEngine.SaveState | heartshard_engine_v2.py:58-59 | one record per entity, whose tuple decodes to its polarity and which holds its bonds and generation |
| RotationalNand.Torque | rotational_nand_sim.py:33-36 | one π/4 turn, with the eighth turn back at phase 0 |
| RotationalNand.Cycle | rotational_nand_sim.py:42-64 | reference breath cycle: the input becomes the potential and the phase turns; without admission, a signal equal to the potential raises violation and answers False; otherwise the new signal is the NAND of potential and signal, the remainder is signal XOR potential, and the signal is the answer |
| RotationalNand.Propagate | rotational_nand_sim.py:84-99 | reference pass: cell 0 is fed the external bit and each later cell the previous output, admitted when its input differs from its potential (properties in PassChains, PassViolations, PassKeepsViolations) |
| RotationalNand.HelicalCell.constructor | rotational_nand_sim.py:20-27 | a new cell is all zero: phase 0, every flag false |
| RotationalNand.HelicalCell.ApplyTorque | rotational_nand_sim.py:33-40 | turns the phase by π/4 and reports friction iff the new phase is an odd multiple of π/4 |
| RotationalNand.HelicalCell.BreathCycle | rotational_nand_sim.py:42-64 | the cell state and answer are those of the reference breath cycle |
| RotationalNand.RejectedCycle | rotational_nand_sim.py:52-54 | when the check fails, the answer is False, the violation flag is raised, and signal and remainder are kept |
| RotationalNand.AdmittedCycle | rotational_nand_sim.py:56-64 | otherwise the new signal is the NAND of input and old signal, the remainder is signal XOR potential, and that signal is the answer |
| RotationalNand.CycleTurnsAndKeepsViolation | rotational_nand_sim.py:33-54 | every cycle turns the phase by one step, and a violation flag is never cleared |
| RotationalNand.ProcessAdmission | rotational_nand_sim.py:90-93 | with `admit = sig_in != potential` a cell is rejected exactly when input, potential and signal coincide |
| RotationalNand.ZeroCellRejectsFalse | rotational_nand_sim.py:90-93 | a zero cell fed False is violated, and one fed True is not |
| RotationalNand.PassPrefix | rotational_nand_sim.py:85-96 | after n cells, n new states, n signals and n remainders |
| RotationalNand.PassAdvances | rotational_nand_sim.py:85-99 | one loop iteration extends the pass by cell i's cycle |
| RotationalNand.AnyViolationAppend | rotational_nand_sim.py:98-99 | the violation flag of a longer pass is the old flag OR the new cell's flag |
| RotationalNand.HelicalNANDArray.constructor | rotational_nand_sim.py:69-72 | n fresh zero cells and breath count 0 |
| RotationalNand.HelicalNANDArray.Process | rotational_nand_sim.py:74-102 | IndexError when there are cells but no input, with nothing changed; otherwise the cells take the states of the reference pass, the signals, remainders and any-violation flag are returned, and the breath count goes up by one |
| RotationalNand.HelicalNANDArray.Propagation | rotational_nand_sim.py:84-99 | the loop of `process` computes the reference pass |
| RotationalNand.HelicalNANDArray.Iterate | rotational_nand_sim.py:85-99 | one loop iteration advances the pass by one cell |
| RotationalNand.HelicalNANDArray.Stage | rotational_nand_sim.py:87-96 | cell i runs its admitted cycle, and no other cell changes |
| RotationalNand.HelicalNANDArray.Reset | rotational_nand_sim.py:108-116 | every cell is back to zero and the breath count is 0 |
| RotationalNand.PassChains | rotational_nand_sim.py:85-87 | each cell's new potential is the external bit for cell 0, and the previous cell's output otherwise |
| RotationalNand.PassViolations | rotational_nand_sim.py:89-93 | cell k is violated iff it was already or its input, old potential and old signal coincide; its output is False when rejected and NAND otherwise |
| RotationalNand.PassKeepsViolations | rotational_nand_sim.py:98-99 | a violated cell stays violated after a pass |
| RotationalNand.BitsFromInt | rotational_nand_sim.py:125-127 | `width` bits, least significant first |
| RotationalNand.IntFromBits | rotational_nand_sim.py:129-131 | the value of n bits is below 2^n |
| RotationalNand.BitsRoundTrip | rotational_nand_sim.py:125-131 | decoding the bits of n gives n mod 2^width, which is n itself when it fits |
| RotationalNand.IntFromBitsAppend | rotational_nand_sim.py:129-131 | a new top bit adds 2^length |
| RotationalNand.XorBits | rotational_nand_sim.py:143 | elementwise XOR of equal-length arrays |
| RotationalNand.OrBits | rotational_nand_sim.py:146 | elementwise OR of equal-length arrays |
| RotationalNand.PrimalMathEngine.constructor | rotational_nand_sim.py:121-123 | two distinct fresh eight-cell helices whose sixteen cells are fresh and zero, with breath count 0 |
| RotationalNand.PrimalMathEngine.Add | rotational_nand_sim.py:133-148 | both helices run their pass; the sum is the value of the XORed outputs, a byte, and the remainder is the ORed remainders; each helix's breath count rises by one |
| RotationalNand.PrimalMathEngine.Multiply | rotational_nand_sim.py:150-166 | both helices run their pass; the product is the two outputs' values multiplied mod 256, and the remainder is the XORed remainders; each helix's breath count rises by one |
| RotationalNand.ShiftAdd | rotational_nand_sim.py:159-164 | the shift-and-add loop computes a_int times the value of the bits |
| SaltflowerDemo.Cycle | saltflower_unified_demo.py:56-79 | reference breath cycle: as in the rotational array, but a rejected cycle answers a bare violation while an emitted one answers the signal with the friction of the new phase and counts one more breath |
| SaltflowerDemo.InitialCells | saltflower_unified_demo.py:84-86 | cell i of a fresh array starts at phase i·π/4 with every flag false and no breaths |
| SaltflowerDemo.HelicalNANDCell.constructor | saltflower_unified_demo.py:36-42 | the given phase, every flag false, breath count 0 |
| SaltflowerDemo.HelicalNANDCell.ApplyTorque | saltflower_unified_demo.py:48-54 | turns by π/4 and reports friction iff the new phase is an odd multiple of π/4 |
| SaltflowerDemo.HelicalNANDCell.BreathCycle | saltflower_unified_demo.py:56-79 | the cell state and outcome are those of the reference breath cycle |
| SaltflowerDemo.EmittedCycle | saltflower_unified_demo.py:70-79 | a cycle that passes the check answers (signal, friction), with signal the NAND of input and old signal, remainder signal XOR potential, and one more breath |
| SaltflowerDemo.ViolatedCycle | saltflower_unified_demo.py:59-68 | a cycle that fails the check answers a bare False and raises violation, keeping signal, remainder and breath count |
| SaltflowerDemo.Walk | saltflower_unified_demo.py:96-110 | the walk's toll never exceeds its signal count; a completed walk of n iterations has visited n cells; a failed one visited one cell more than it has signals for |
| SaltflowerDemo.RotationalNANDArray.constructor | saltflower_unified_demo.py:84-88 | n distinct fresh cells in their initial states and an empty torque history |
| SaltflowerDemo.RotationalNANDArray.Process | saltflower_unified_demo.py:90-116 | IndexError on empty input with nothing changed; TypeError when a cell is violated, which keeps the visited cells' new states and leaves the history alone; otherwise the walk's signals, remainders and toll are returned and the toll is appended to the history |
| SaltflowerDemo.RotationalNANDArray.Run | saltflower_unified_demo.py:96-110 | the loop after `data_in[0]` computes the reference walk, and reports whether it completed |
| SaltflowerDemo.RotationalNANDArray.Loop | saltflower_unified_demo.py:98-110 | the `for` loop stops at the shorter of cells and input, or at the first violated cell |
| SaltflowerDemo.RotationalNANDArray.Iterate | saltflower_unified_demo.py:98-110 | one loop iteration advances the walk by one cell |
| SaltflowerDemo.RotationalNANDArray.Stage | saltflower_unified_demo.py:99-105 | cell i runs its cycle, admitted when the raw bit differs from its potential; no other cell changes |
| SaltflowerDemo.WalkAdvances | saltflower_unified_demo.py:98-110 | one iteration appends the emitted signal and remainder, charges the friction and passes the signal on, or ends the walk on a violation |
| SaltflowerDemo.FailureEndsWalk | saltflower_unified_demo.py:99-102 | after a violation, further iterations change nothing |
| SaltflowerDemo.WalkCells | saltflower_unified_demo.py:98-105 | cell k ran the cycle fed `data_in[0]` (k = 0) or cell k - 1's signal; every visited cell but a final violated one emitted its signal and remainder |
| SaltflowerDemo.WalkGrows | saltflower_unified_demo.py:98-110 | a longer walk extends a shorter one, and after a failure stays where it stopped |
| SaltflowerDemo.WalkPrev | saltflower_unified_demo.py:96-110 | `prev_signal` is the last emitted signal, or `data_in[0]` before any |
| SaltflowerDemo.WalkToll | saltflower_unified_demo.py:107-108 | the toll counts the emitting cells whose new phase is an odd multiple of π/4 |
| SaltflowerDemo.OddSteps | saltflower_unified_demo.py:107-108 | at most one toll per cell |
| SaltflowerDemo.CycleTurnsPhase | saltflower_unified_demo.py:63 | every cycle turns the phase by π/4, admitted or not |
| SaltflowerDemo.FreshArrayRejectsLeadingZero | saltflower_unified_demo.py:96-102 | a fresh array fed a leading False fails at cell 0 with that cell violated |
| SaltflowerDemo.FreshArrayLeadingOne | saltflower_unified_demo.py:84-110 | a fresh array fed a leading True completes with every signal True, every remainder False and a toll of (n + 1) / 2 over n cells |
| SaltflowerDemo.FreshCellAnswersTrue | saltflower_unified_demo.py:56-79 | a fresh cell fed True emits True with a False remainder, with friction exactly when its index is even |

## Left out

- Phases are floats in the source. The model counts π/4 turns modulo 8. Repeated additions of `np.pi/4` followed by `% (2*np.pi)` in floating point may land just below a multiple of π/4, and then `int(phase / (π/4))` would differ. The model assumes exact arithmetic.
- `get_phase_state` (`rotational_nand_sim.py:104-106`) and `get_phases` (`saltflower_unified_demo.py:118-120`) only read the phases. They are the `States()` functions of the arrays, with phases as step counts.
- `is_prime_disjoint` (`rotational_nand_sim.py:168-174`) and the module-level drivers, printing and plotting of every file are not part of this model.
- The laws database of `constitutional_ai.py` is not modelled.
  - Loading it from JSON (lines 30-33) is file I/O.
  - The escalation-score loop over it (lines 77-81) only executes `pass`. The model assumes a well-formed database; on a malformed one, `self.laws.items()` or `law_data['ste_struct'].get(...)` raises AttributeError or KeyError there, which the model does not represent.
- `contradicts` (`constitutional_ai.py:113-117`) always answers False, and the model keeps it so. The committed facts therefore never cause a contradiction.
- Constitutional.Words: Python's `\w` also matches non-ASCII letters and digits. The model's word characters are the ASCII letters, digits and `_`. `lower()` likewise only folds A-Z.
- Constitutional.ConstitutionalAI.Breathe: the WAIT branch (lines 271-272) is unreachable, because `check_admissibility` never returns WAIT (proved by CheckAdmissibility). The model has no such branch.
- The classes `heartshard_engine_v2.py` uses but does not show are not part of this model: `TimelineDB`, `RelationshipMatrix`, `Character.can_enter_eye` and the entity fields.
  - The timeline becomes the engine's `signals` and `exclusions` sequences, and the relationship matrix a set of bonds.
  - `can_enter_eye` is a parameter of EnterMaw.
  - The `world_state` snapshot of an exclusion event is omitted.
- HeartShard.HeartShardEngine.EnterMaw: `datetime.now()` is read twice in the source, once for the Maw signal (line 32) and once for the exclusion event (line 41). The two readings are the parameters `sentAt` and `recordedAt`, which the model does not relate.
- HeartShard.HeartShardEngine.NextGeneration:
  - The random axis draw is the parameter `flips`.
  - The partner is any bonded character; the source's `list(...)[0]` picks one by set-iteration order, which the model does not fix.
  - The child's archetype and core wound are left empty, since the source gives none.
  - Its entropy is the engine's default entropy, a constructor parameter standing in for the unseen `Character` default.
  - The event's `polarity_change`, `lineage` and `signal` are passed in.
- HeartShard.HeartShardEngine.SaveState: writing the JSON file is I/O. The model returns the mapping that would be written, with bonds as a set rather than a list.
- Unwrap.UnwrapToPrimes: the SHA-256 hash of the input string is not modelled. The method takes the seed, already reduced below 2^32, as a parameter.
- `breath_crystallizer.py` imports `build_breath_lattice`, `BREATH_COLORS`, `ROOT_COLOR` and `PRIME_COLOR` from `lattice_frost.py` (line 15). The `lattice_frost.py` of the repository defines `build_lattice` and none of these names, so that import fails as written; the model assumes a `lattice_frost` that provides them. Exhale models only the cycle counter, and the lattice and metadata it would return are left out.
- BreathCrystallizer.Crystallizer.Hold: before any `inhale`, Python raises AttributeError, because `current_signal` does not exist yet. Hold models this as a `false` result with nothing changed.
- `breath_orchestrator.c`:
  - `setup()` (timer and pin-direction registers) and `main` (an empty idle loop) are hardware configuration.
  - The interrupt's concurrency with `main` is not modelled.
  - One call of Tick is one timer interrupt.
  - `PINB & (1 << VIOLATION)` is the `violationPin` parameter.
  - The flash-error and EEPROM remarks are comments in the source with no code.
- SaltflowerDemo.RotationalNANDArray.Process: a violated cell returns a bare `False`. Unpacking it into `signal, friction` raises TypeError, which the model returns as an error value. The exception's effect on the caller is not followed further.
- Fractal3D.GenerateNandPrimeFractal3D: the density and prime ratio (lines 60-61) are floats that are only printed. The model proves the integer bounds from which both ratios lie in [0, 1] (CountersBounded).
- Text.Lower: only A-Z are folded. Python's `lower()` also folds non-ASCII capitals, and can lengthen a string ('İ' becomes two characters); the model promises neither.
- Primality.IsPrimeTrial: `int(math.sqrt(n))` is taken as the exact integer root. In Python `math.sqrt` raises OverflowError for n ≥ 2^1024, and for n = p² with a prime p above 2^53 the float root can round down below p, so the source would answer True for a composite. The model promises neither behaviour.
- FeatherOfFrost.HalveAndFilter: the signal holds integers. The source's `int(x)` (line 18) also truncates floats and raises on values it cannot convert; the model has no such inputs.
- HeartShard.Healing: entropy, friction, healing and timestamps are floats in the source and exact reals in the model. In Python `(1.0 / 49) * 49` is not 1.0, so the model states no product identity.
- NandFractal.GenerateNandFractal: size and depth are natural numbers. With a negative size `np.zeros` raises ValueError, and with a negative depth `1 << max_depth` does; the model does not take such arguments.
- NandPrimeFractal.GenerateNandPrimeFractal: size and depth are natural numbers, for the same reason; a negative one raises ValueError in the source.
- Fractal3D.GenerateNandPrimeFractal3D: size and depth are natural numbers, for the same reason; a negative one raises ValueError in the source.
- Constitutional.CheckAdmissibility: the collapse reason copies the source's literal, which holds the three characters "â‰¥" (a UTF-8 "≥" read as Windows-1252).
