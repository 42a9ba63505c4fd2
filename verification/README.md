# Mantis: a Dafny model of the trading SDK's core

Mantis is a low-latency trading SDK. This project models the parts whose correctness is
decided by code rather than by configuration, and proves what they promise for every
input, every run or every schedule:

- **The SPSC ring.** `RingProtocol` splits every load, store and slot access of the
  producer and the consumer into its own step; `RingRuns` proves properties of every
  interleaving; `RingEngine` is the sequential object, with the batch operations of the
  copy ring. `IndexStrategy` holds the two wrapping strategies.
- **Constant-time and multi-limb arithmetic**, generic in the word width, so one proof
  covers the 32-bit and the 64-bit variants: `Bits`, `ConstantTime`, `CtDivision`,
  `ExtendedPrecision`.
- **The fixed-point decimal engine**: `WideDivision`, `FixedPoint`, and the parser and
  printer pair `DecimalParser`, `DecimalPrinter`.
- **Market state**: the dirty-flag book `ArrayBook` and the event engine `MarketEngine`.
- **Strategy accounting**: `Position`, `OrderTracker`, and `Exposure`, which joins them.
- **The instrument registry**: `Registry`.

`Arithmetic` and `MachineInts` hold shared definitions, among them the reference meanings
of truncation (`IsTruncated`) and rounding (`IsRounded`), which do not mention any divider.

Operations that update state in place are classes whose methods are proved against a
function on values; the laws are lemmas about that function over single steps and whole
runs. `dafny verify dfyconfig.toml` checks the project.

## Where code and documentation differ

The model follows the code.

- `ct_division.rs` asks for a normalised divisor; the loop is exact for every non-zero one.
- `parse.rs` speaks of at most 18 significant digits; the code accepts 19 or more when the
  value fits, and the model does too.
- `engine.rs` of the market state says a top of book is published only outside snapshots
  and after a completed one. A quote inside a snapshot publishes, and after a quote a batch
  publishes without any snapshot; `PublicationsAndSnapshots` says exactly when.
- The same file says a publication is a price change; after a one-sided check the last
  published prices can be published again (`RepeatPossibleIff`).
- `order_tracker.rs` says free slots are preferred over finished ones; the code takes the
  first slot of either kind.
- `array_book.rs` names 65535 as its limit; the exact one is 65536 (`AnswersExactIff`).
- `insert_prediction_pair` checks both keys first so as to insert both or neither; with
  exactly one id left it inserts half a pair (`PairAtomicIff`). A refused duplicate symbol also uses up an id.
- Tracker answers to finished orders, registry binds of a token in use and inserts that
  bring a window break the documented invariants; each has its exact condition
  (`IntentKeepsIff`, `AnswerKeepsIff`, `ApplyKeepsIff`) and a run that breaks it.
- An overflowing cost or profit enters a position as zero, silently (`FillConservesIff`).

## Assumptions

- Threads interleave by atomic steps; Acquire and Release publication makes this the right
  picture of the two indices. Weaker reorderings are not part of this model.
- `usize` has 64 bits, and ring capacities are powers of two up to 2^62, as the storage
  types demand powers of two.
- A ring with the branch strategy takes single operations only: a batch would advance
  wrongly (`BranchWrapBreaksBatches`), and the source pairs its copy ring with the mask.
- Plain `+` and `*` on lots and ticks wrap, as in builds without overflow checks, in depth
  totals, open quantities and the micro price; the lemmas named `...ExactIff` say when the
  result is exact. Position updates state the ranges of their plain operators (`Fillable`)
  and model every checked operation, overflow included.
- Event payload fields that the modelled code does not read are omitted. Times are numbers
  in events.
- The market engine holds its books as values of at most 65536 ticks; that the book object
  with its cache behaves like that value is what `ArrayBook` proves.

## Model

| member | source | states |
|---|---|---|
| `RingRuns.Execute` | crates/queue/src/engine.rs:108-166 | every schedule of single producer and consumer steps, from the empty ring, reaches only states that satisfy the protocol invariant: cached tail count <= popped <= cached head count <= pushed, pushed - cached tail count <= capacity - 1, and every slot between tail and head holds the matching value |
| `RingRuns.StepKeeps` | crates/queue/src/engine.rs:108-166 | one step of either thread, at any program point, keeps the invariant |
| `RingProtocol.ProducerKeeps` | crates/queue/src/engine.rs:108-137 | every producer step (own index load, cached check, tail load, slot write, head store, local store) keeps the invariant, whatever the consumer is doing |
| `RingProtocol.ProducerSkipKeeps` | crates/queue/src/engine.rs:116-121 | skipping the tail reload is safe: a stale tail only understates the room |
| `RingProtocol.ProducerReloadKeeps` | crates/queue/src/engine.rs:121-129 | the reloaded tail, possibly stale again by the time it is used, still grants only free slots |
| `RingProtocol.ProducerWriteKeeps` | crates/queue/src/engine.rs:131-131 | a slot write disturbs no outstanding value and nothing the consumer is reading |
| `RingProtocol.PublishedSlots` | crates/queue/src/engine.rs:131-132 | what the new head publishes is exactly what was written before it |
| `RingProtocol.ConsumerKeeps` | crates/queue/src/engine.rs:140-166 | every consumer step keeps the invariant, whatever the producer is doing |
| `RingProtocol.ConsumerReadKeeps` | crates/queue/src/engine.rs:159-159 | the value read is the oldest outstanding one, never an uninitialised or overwritten cell |
| `RingProtocol.ConsumerReleaseKeeps` | crates/queue/src/engine.rs:160-163 | storing the tail releases exactly the slots that were read |
| `RingProtocol.WriteTargetIsFree` | crates/queue/src/engine.rs:131-132 | the producer never writes a slot the consumer has not released, nor one it has already filled for the same batch |
| `RingProtocol.RoomIsExact` | crates/queue/src/copy_ring/engine.rs:193-212 | the comparison of wrapped indices decides the true free room, for a single push and for a batch |
| `RingProtocol.AvailableIsExact` | crates/queue/src/copy_ring/engine.rs:257-274 | the comparison of wrapped indices decides the true number of available values |
| `RingProtocol.AdvanceIsPlus` | crates/core/src/lib.rs:39-57 | wrapped index arithmetic is counting modulo the capacity, for the mask at any distance and for the branch one step at a time |
| `RingProtocol.SlotOfIsPlus` | crates/queue/src/copy_ring/engine.rs:222-235 | the two chunks of a batch copy touch consecutive slots modulo the capacity |
| `RingRuns.StepRefinesQueue` | crates/queue/src/engine.rs:108-166 | refinement of a FIFO bounded by capacity - 1: each step leaves the queue alone, appends the granted values of one push, or removes from the front exactly the values read |
| `RingRuns.PushDecision` | crates/queue/src/engine.rs:116-129 | Full is returned if and only if capacity - 1 elements were held when the tail was loaded; a cut batch got exactly the room of that moment; without a reload the whole job is accepted |
| `RingRuns.PopDecision` | crates/queue/src/engine.rs:149-157 | Empty is returned if and only if nothing was held when the head was loaded; a cut batch got exactly what was there |
| `RingRuns.NoSlotRace` | crates/queue/src/engine.rs:131-161 | in no reachable state do a write and a read address the same slot |
| `RingRuns.CallCarriesItsJob` | crates/queue/src/engine.rs:108-137 | each step of a call carries its own argument and granted length forward |
| `RingRuns.PushedIsAccepted` | crates/queue/src/engine.rs:108-137 | over every schedule the values pushed are the accepted prefixes of the arguments of the push calls, joined in order |
| `RingRuns.ReturnedIsPrefixOfAccepted` | crates/queue/src/engine.rs:108-166 | so the values returned by pops are a prefix of what the callers passed and had accepted |
| `RingRuns.ReturnedIsPrefix` | crates/queue/src/engine.rs:108-166 | over every schedule the values returned by pops are a prefix of the values pushed, in order and initialised, and calls report exactly what was published and released |
| `RingRuns.LenIsHeld` | crates/queue/src/engine.rs:237-242 | the masked index difference is the number of elements held |
| `RingRuns.LenIsDifference` | crates/queue/src/engine.rs:237-242 | with no call in flight, len is accepted pushes minus returned pops |
| `RingRuns.WaitFree` | crates/queue/src/engine.rs:108-166 | every step of a call strictly lowers its own remaining work, so a call ends in a bounded number of its own steps under every schedule |
| `RingRuns.SameScheduleSameEvents` | crates/queue/src/engine.rs:111-136 | mask or branch wrap, local index copies or not: the same schedule gives the same events, history and state step for step |
| `IndexStrategy.MaskIsModulo` | crates/core/src/lib.rs:39-46 | the bit mask reduces modulo a power-of-two capacity |
| `IndexStrategy.StrategiesAgreeIff` | crates/core/src/lib.rs:39-57 | branch and mask agree exactly up to the capacity and at its multiples |
| `IndexStrategy.BranchWrapBreaksBatches` | crates/queue/src/copy_ring/engine.rs:237 | a batch that runs past the end advances wrongly under the branch strategy |
| `RingEngine.RingEngine.constructor` | crates/queue/src/engine.rs:82-101 | an empty ring |
| `RingEngine.RingEngine.TryPush` | crates/queue/src/engine.rs:108-137 | appends, or returns the value untouched exactly when capacity - 1 elements are held |
| `RingEngine.RingEngine.TryPop` | crates/queue/src/engine.rs:140-166 | removes and returns the oldest value, or reports Empty exactly when there is none |
| `RingEngine.RingEngine.Push` | crates/queue/src/engine.rs:173-203 | appends and says whether it did |
| `RingEngine.RingEngine.Len` | crates/queue/src/engine.rs:237-242 | the number of values held |
| `RingEngine.RingEngine.GrantRoom` | crates/queue/src/copy_ring/engine.rs:185-214 | grants min(wanted, capacity - 1 - held) slots, reloading the tail only when needed |
| `RingEngine.RingEngine.WriteBatch` | crates/queue/src/copy_ring/raw/mod.rs:73-105 | writes consecutive slots and no other |
| `RingEngine.RingEngine.CopyIn` | crates/queue/src/copy_ring/engine.rs:222-235 | two chunks, each slot of the array as the batch prescribes |
| `RingEngine.RingEngine.Publish` | crates/queue/src/copy_ring/engine.rs:237-241 | the head store appends the written values |
| `RingEngine.RingEngine.PushBatch` | crates/queue/src/copy_ring/engine.rs:180-242 | pushes exactly the longest prefix that fits |
| `RingEngine.RingEngine.GrantValues` | crates/queue/src/copy_ring/engine.rs:250-276 | grants min(wanted, held) values, reloading the head only when needed |
| `RingEngine.RingEngine.CopyOut` | crates/queue/src/copy_ring/engine.rs:284-305 | copies the oldest values in order and leaves the rest of the destination alone |
| `RingEngine.RingEngine.Release` | crates/queue/src/copy_ring/engine.rs:307-311 | the tail store removes the values that were read |
| `RingEngine.RingEngine.PopBatch` | crates/queue/src/copy_ring/engine.rs:245-312 | pops the oldest min(buffer, held) values in order |
| `RingEngine.RingEngine.DropRange` | crates/queue/src/raw/mod.rs:72-87 | teardown visits every occupied slot once, oldest first, and no other |
| `RingEngine.AppendKeeps` | crates/queue/src/engine.rs:131-134 | a written run followed by a head store keeps the invariant |
| `RingEngine.RemoveKeeps` | crates/queue/src/engine.rs:159-163 | a tail store past values that were read keeps the invariant |
| `RingEngine.ChunksWritten` | crates/queue/src/copy_ring/engine.rs:222-235 | the two-chunk copy writes the batch into the counted slots after the head and nothing else |
| `ConstantTime.CtNot` | crates/platform/src/constant_time/ct_routines.rs:251-258 | boolean negation |
| `ConstantTime.CtOr` | crates/platform/src/constant_time/ct_routines.rs:234-240 | boolean disjunction |
| `ConstantTime.IsMsbSet` | crates/platform/src/constant_time/ct_routines.rs:158-161 | 1 exactly when the word is at least half the range |
| `ConstantTime.IsNonZero` | crates/platform/src/constant_time/ct_routines.rs:208-210 | 1 exactly on non-zero words |
| `ConstantTime.CtNe` | crates/platform/src/constant_time/ct_routines.rs:173-177 | the bit trick decides inequality for every pair of words of every width |
| `ConstantTime.CtEq` | crates/platform/src/constant_time/ct_routines.rs:166-168 | decides equality |
| `ConstantTime.CtLt` | crates/platform/src/constant_time/ct_routines.rs:185-189 | the bit trick decides unsigned less-than for every pair of words of every width |
| `ConstantTime.CtLe` | crates/platform/src/constant_time/ct_routines.rs:194-196 | decides unsigned at-most |
| `ConstantTime.CondNeg` | crates/platform/src/constant_time/ct_routines.rs:218-221 | two's-complement negation exactly when the control is set |
| `ConstantTime.Mux` | crates/platform/src/constant_time/multiplexers.rs:28-33 | the mask formula returns the first operand when the control is set, else the second |
| `ConstantTime.SecretLookup` | crates/platform/src/constant_time/multiplexers.rs:200-210 | scanning every entry returns the addressed one, and zero for an index outside the table |
| `CtDivision.Window` | crates/platform/src/constant_time/ct_division.rs:49-50 | the shifted-and-joined word is the low word of the shifted double word |
| `CtDivision.TurnControl` | crates/platform/src/constant_time/ct_division.rs:52-55 | the branch-free control is set exactly when the remaining value is at least the shifted divisor |
| `CtDivision.TurnSubtract` | crates/platform/src/constant_time/ct_division.rs:57-63 | the two wrapped words hold the remaining value minus the shifted divisor |
| `CtDivision.QuotientBit` | crates/platform/src/constant_time/ct_division.rs:65-66 | or-ing the shifted control adds the quotient bit, modulo the word |
| `CtDivision.Turn` | crates/platform/src/constant_time/ct_division.rs:46-67 | one turn keeps dividend = quotient * divisor + remaining, and halves the bound remaining < divisor * 2^(k+1) |
| `CtDivision.FinalTurn` | crates/platform/src/constant_time/ct_division.rs:69-72 | the last turn leaves a remainder below the divisor |
| `CtDivision.Div2n1n` | crates/platform/src/constant_time/ct_division.rs:35-75 | for every divisor d > 0 and n_hi < d, normalised or not: exact quotient and remainder below d; for n_hi = d the quotient modulo 2^w with the exact remainder |
| `CtDivision.QuotientFits` | crates/platform/src/constant_time/ct_division.rs:27-30 | the true quotient fits one word exactly when n_hi < d |
| `ExtendedPrecision.AddC` | crates/platform/src/intrinsics/addcarry_subborrow.rs:58-75 | word plus carry times 2^w is the exact sum; the carry is 0 or 1 |
| `ExtendedPrecision.SubB` | crates/platform/src/intrinsics/addcarry_subborrow.rs:78-95 | word minus borrow times 2^w is the exact difference; the borrow is 0 or 1 |
| `ExtendedPrecision.SubUndoesAdd` | crates/platform/src/intrinsics/addcarry_subborrow.rs:58-95 | subtracting what was added gives back the word, and the borrow is the carry |
| `ExtendedPrecision.WideMul` | crates/platform/src/intrinsics/extended_prec.rs:141-154 | two limbs hold the exact product |
| `ExtendedPrecision.MulAdd2` | crates/platform/src/intrinsics/extended_prec.rs:171-186 | two limbs hold product plus two limbs, always |
| `ExtendedPrecision.MulAccumulateAdds` | crates/platform/src/intrinsics/extended_prec.rs:230-252 | the three-limb integer changes by exactly a*b modulo 2^(3w) |
| `ExtendedPrecision.MulDoubleAccumulateAdds` | crates/platform/src/intrinsics/extended_prec.rs:263-297 | the three-limb integer changes by exactly 2*a*b modulo 2^(3w) |
| `ExtendedPrecision.DoubleIsTwice` | crates/platform/src/intrinsics/extended_prec.rs:254-277 | doubling equals two single accumulations, limb for limb, from every accumulator |
| `ExtendedPrecision.Accumulator.MulAcc` | crates/platform/src/intrinsics/extended_prec.rs:230-252 | in place: adds a*b modulo 2^(3w) |
| `ExtendedPrecision.Accumulator.MulDoubleAcc` | crates/platform/src/intrinsics/extended_prec.rs:263-297 | in place: adds 2*a*b modulo 2^(3w) |
| `WideDivision.DivDigit` | crates/fixed/src/mul_div.rs:42-48 | one long-division step: exact quotient digit and remainder |
| `WideDivision.DivWideByWordExact` | crates/fixed/src/mul_div.rs:33-52 | two words divided by one through two half-word digits: exact quotient and remainder |
| `WideDivision.AbsWords` | crates/fixed/src/mul_div.rs:69-76 | the two's-complement negation over two words is the absolute value |
| `WideDivision.DivAbs` | crates/fixed/src/mul_div.rs:78-79 | exact unsigned quotient and remainder of the absolute value |
| `WideDivision.DivWideByConstIsTruncDiv` | crates/fixed/src/mul_div.rs:65-86 | for every signed double word and positive divisor: the quotient truncated toward zero and the remainder with the sign of the dividend |
| `FixedPoint.NarrowQuotient` | crates/fixed/src/mul_div.rs:109-120 | the truncated quotient when it fits, else None |
| `FixedPoint.MulTruncExact` | crates/fixed/src/mul_div.rs:106-121 | for all operands: the truncation of a*b/10^D, None exactly when it does not fit |
| `FixedPoint.MulRoundNearest` | crates/fixed/src/mul_div.rs:127-142 | for all operands: nearest with ties away from zero, None exactly when it does not fit |
| `FixedPoint.SaturatingMulClamps` | crates/fixed/src/mul_div.rs:148-161 | the clamp of the same exact truncation: no representable value is nearer to it |
| `FixedPoint.DivTruncExact` | crates/fixed/src/mul_div.rs:168-180 | truncation of a*10^D/b for every sign, None exactly on zero or overflow |
| `FixedPoint.DivRoundNearest` | crates/fixed/src/mul_div.rs:187-209 | nearest with ties away from zero for every sign and odd or even divisor, None exactly on zero or overflow |
| `FixedPoint.QuotientsExist` | crates/fixed/src/mul_div.rs:106-209 | the two reference quotients exist for every dividend and non-zero divisor |
| `FixedPoint.OneIsNeutral` | crates/fixed/src/mul_div.rs:106-209 | multiplying or dividing by one gives the number back in all four forms |
| `FixedPoint.IntFormsExact` | crates/fixed/src/mul_div.rs:215-231 | integer operands: the exact product if it fits, the truncated quotient for every sign, None on zero |
| `FixedPoint.RescaleExactIffSameNumber` | crates/fixed/src/convert.rs:95-126 | exact rescaling returns r if and only if r at the new scale is the same number |
| `FixedPoint.RescaleExactRefusedIff` | crates/fixed/src/convert.rs:95-126 | exact rescaling returns None if and only if no value at the new scale is the same number |
| `FixedPoint.WideningKeepsNumber` | crates/fixed/src/convert.rs:20-126 | to the same or a finer scale all three modes return r if and only if it is the same number, and None if and only if no value is |
| `FixedPoint.NarrowingRounds` | crates/fixed/src/convert.rs:20-88 | narrowing never fails, and truncates or rounds the exact number |
| `FixedPoint.WidenThenNarrow` | crates/fixed/src/convert.rs:20-126 | a widening that succeeds is undone by every narrowing mode |
| `DecimalParser.UncheckedStepFits` | crates/fixed/src/parse.rs:93-95 | the unchecked fast path of the first 18 digits cannot overflow |
| `DecimalParser.FeedKeepsConsistent` | crates/fixed/src/parse.rs:72-122 | every byte keeps the accumulator consistent |
| `DecimalParser.FeedMeaning` | crates/fixed/src/parse.rs:72-122 | one byte moves the meaning of the text read so far as the grammar prescribes, errors included |
| `DecimalParser.FeedAllMeaning` | crates/fixed/src/parse.rs:169-178 | the loop accepts exactly the signless bodies whose mantissa fits, and holds minus that mantissa and its digit counts |
| `DecimalParser.ErrorSticks` | crates/fixed/src/parse.rs:169-178 | an error on a prefix is the error of the whole text |
| `DecimalParser.ParseIffAccepts` | crates/fixed/src/parse.rs:153-221 | accepted if and only if: optional sign, digits with at most one dot and at least one digit, at most D fractional digits, exact value * 10^D within i64; the result is that product |
| `DecimalParser.ErrorsAreTruthful` | crates/fixed/src/parse.rs:148-152 | each error kind says something true of the text |
| `DecimalParser.ErrorIsExact` | crates/fixed/src/parse.rs:148-221 | exactly which error every refused text gets |
| `DecimalParser.ScanErrorExact` | crates/fixed/src/parse.rs:169-178 | the scan reports overflow if and only if a well-formed prefix overflows, and bad format if and only if none does and the text is malformed |
| `DecimalParser.SignsMean` | crates/fixed/src/parse.rs:153-168 | a leading + changes nothing and a leading - negates |
| `DecimalParser.ParseDecimalBytes` | crates/fixed/src/parse.rs:153-221 | the parser computes the specified parse for byte strings of any length |
| `DecimalParser.Scan` | crates/fixed/src/parse.rs:169-178 | the loop computes the fed accumulator, or the first error |
| `DecimalPrinter.DecimalSpells` | crates/fixed/src/fmt.rs:8-27 | the printed digits of a natural spell it |
| `DecimalPrinter.PadLeftSpells` | crates/fixed/src/fmt.rs:8-27 | zero padding keeps the value and gives exactly D digits |
| `DecimalPrinter.MagnitudeSpells` | crates/fixed/src/fmt.rs:8-27 | the printed magnitude is a well-formed body with D fractional digits and the right mantissa |
| `DecimalPrinter.DisplayThenParse` | crates/fixed/src/fmt.rs:8-27 | for every D <= 18 and every raw value, i64::MIN included, parsing the printed form returns the value |
| `DecimalPrinter.DisplayIsCanonical` | crates/fixed/src/fmt.rs:8-27 | a minus sign exactly on negatives and no plus sign, a whole part without leading zeros, and exactly if D > 0 a dot with exactly D digits |
| `DecimalPrinter.DisplayIsTheCanonicalText` | crates/fixed/src/fmt.rs:8-27 | a text is the printed form of a value if and only if it is canonical and parses to the value |
| `DecimalPrinter.DisplaySample` | crates/fixed/src/fmt.rs:8-27 | the characters of one printed and parsed text |
| `DecimalPrinter.DisplayInjective` | crates/fixed/src/fmt.rs:8-27 | two values with the same printed form are equal |
| `ArrayBook.LevelsListPositive` | crates/market-state/src/book/array_book.rs:149-182 | the list is exactly the positive levels, strictly ordered, best first |
| `ArrayBook.LevelsRanked` | crates/market-state/src/book/array_book.rs:149-182 | there are as many listed levels as positive ticks, and entry i has exactly i strictly better ones |
| `ArrayBook.BestIsBest` | crates/market-state/src/book/array_book.rs:92-147 | the best level is positive and beats every other positive level; none exactly when no level is positive |
| `ArrayBook.BestUnique` | crates/market-state/src/book/array_book.rs:92-147 | there is only one best level |
| `ArrayBook.AnswerIsBest` | crates/market-state/src/book/array_book.rs:92-98 | in books of at most 65536 ticks the stored 16-bit index gives the level a fresh scan would |
| `ArrayBook.AnswersExactIff` | crates/market-state/src/book/array_book.rs:92-147 | every book of n ticks answers its best level if and only if n is at most 65536; beyond that a book whose only level is tick 65536 answers tick 0 |
| `ArrayBook.ArrayBook.constructor` | crates/market-state/src/book/array_book.rs:24-35 | an empty book with a consistent cache |
| `ArrayBook.ArrayBook.Update` | crates/market-state/src/book/array_book.rs:49-66 | one level of one side changes, out-of-range prices change nothing, the cache stays consistent |
| `ArrayBook.ArrayBook.ClearSide` | crates/market-state/src/book/array_book.rs:68-81 | one side is emptied, the other and its cache untouched |
| `ArrayBook.ArrayBook.Clear` | crates/market-state/src/book/array_book.rs:83-90 | both sides are emptied |
| `ArrayBook.ArrayBook.BestBid` | crates/market-state/src/book/array_book.rs:92-119 | from the cache or a scan alike, the level at the stored index, for every number of ticks; the highest positive level up to 65536 ticks |
| `ArrayBook.ArrayBook.BestAsk` | crates/market-state/src/book/array_book.rs:121-147 | from the cache or a scan alike, the level at the stored index, for every number of ticks; the lowest positive level up to 65536 ticks |
| `ArrayBook.ArrayBook.Depth` | crates/market-state/src/book/array_book.rs:149-182 | min(buffer, number of positive ticks) entries, entry i the positive level with exactly i strictly better ones; the rest of the buffer untouched |
| `ArrayBook.ArrayBook.LevelCount` | crates/market-state/src/book/array_book.rs:184-189 | the number of positive ticks |
| `ArrayBook.ArrayBook.TotalDepth` | crates/market-state/src/book/array_book.rs:191-219 | the wrapped sum of the quantities at exactly the positive ticks with fewer than the given number of strictly better ones |
| `ArrayBook.CutTotalIsTopSum` | crates/market-state/src/book/array_book.rs:191-219 | the sum of the first listed levels is that sum over the book |
| `ArrayBook.TopSumExtremes` | crates/market-state/src/book/array_book.rs:191-219 | no levels sum to zero, and as many as there are to all positive quantities |
| `ArrayBook.TotalDepthExactIff` | crates/market-state/src/book/array_book.rs:191-219 | that sum is exact, with no running sum overflowing, if and only if the sum of the levels fits a signed word |
| `MarketEngine.MarketStateEngine.constructor` | crates/market-state/src/engine.rs:30-40 | fresh instruments, nothing published |
| `MarketEngine.MarketStateEngine.Process` | crates/market-state/src/engine.rs:48-138 | the engine state after any event, unknown instruments ignored |
| `MarketEngine.MarketStateEngine.TakeTob` | crates/market-state/src/engine.rs:246-253 | hands out the latest publication once |
| `MarketEngine.StepOfState` | crates/market-state/src/engine.rs:48-138 | an event changes only its own instrument |
| `MarketEngine.EventWrites` | crates/market-state/src/engine.rs:63-127 | what one event does to one level |
| `MarketEngine.BookIsLastWrite` | crates/market-state/src/engine.rs:48-138 | after every stream each level of each book is the last write since the latest reset |
| `MarketEngine.FlagsMeanSnapshot` | crates/market-state/src/engine.rs:63-112 | on every stream the flags mean: a snapshot is open; a snapshot is complete or a quote has come since the latest one started |
| `MarketEngine.PublicationsAndSnapshots` | crates/market-state/src/engine.rs:76-134 | on every stream a publication comes from a quote or a batch end; it lies inside an open snapshot if and only if it is a quote and the snapshot was open before; and without a completed snapshot only if a quote has come since |
| `MarketEngine.NothingBeforeSnapshot` | crates/market-state/src/engine.rs:76-87 | so without quotes nothing is published before a completed snapshot or inside one |
| `MarketEngine.QuotePublishesInsideSnapshot` | crates/market-state/src/engine.rs:104-134 | a stream whose quote publishes inside an open snapshot |
| `MarketEngine.DeltaPublishesWithoutSnapshot` | crates/market-state/src/engine.rs:76-112 | a stream whose delta publishes after a quote, with no snapshot ever opened or completed |
| `MarketEngine.EventRemembers` | crates/market-state/src/engine.rs:263-275 | only a check moves the remembered pair, to the pair it saw |
| `MarketEngine.PrevIsCheckedPair` | crates/market-state/src/engine.rs:263-275 | along every stream the remembered pair is the best-price pair of the latest check |
| `MarketEngine.EventPublishes` | crates/market-state/src/engine.rs:263-298 | a check publishes exactly a changed two-sided pair, with its levels, spread, micro price, instrument and time |
| `MarketEngine.PublishesIffPairChanged` | crates/market-state/src/engine.rs:263-298 | along every stream an event publishes exactly when both sides exist and the pair changed since the latest check |
| `MarketEngine.TakesDoNotDisturb` | crates/market-state/src/engine.rs:48-138 | over every sequence of events and takes: takes leave the instruments alone, the engine holds the latest publication of all, and flags exactly one published since the latest take |
| `MarketEngine.TakeReturnsPending` | crates/market-state/src/engine.rs:246-253 | a take returns the latest publication since the previous take, if there was one |
| `MarketEngine.TradeIsLatest` | crates/market-state/src/engine.rs:89-103 | after every stream each instrument remembers its latest trade |
| `MarketEngine.StampsAreLatest` | crates/market-state/src/engine.rs:48-138 | after every stream the event time is that of the latest delta, trade or quote, and the sequence number that of the latest delta |
| `MarketEngine.TwoSidedIsPublished` | crates/market-state/src/engine.rs:274-296 | while the remembered pair is two-sided it is the pair last published |
| `MarketEngine.RepeatPossibleIff` | crates/market-state/src/engine.rs:274-296 | the next publication can repeat the last one if and only if the latest check saw a one-sided book |
| `MarketEngine.QuoteRepeats` | crates/market-state/src/engine.rs:274-296 | after a one-sided check, a quote of the last published prices repeats them |
| `MarketEngine.QuoteRepeatsAfterGap` | crates/market-state/src/engine.rs:274-296 | a stream where it happens: a quote, a batch that empties one side, the same quote |
| `MarketEngine.MicroPriceExactIff` | crates/market-state/src/engine.rs:279-284 | in wrapping words: while the total quantity fits, the micro price is the exact weighted mean if and only if the weighted sum fits; a total that does not fit gives the midpoint |
| `MarketEngine.MicroPriceBetween` | crates/market-state/src/engine.rs:279-284 | whenever the weighted sum fits or the total does not, the micro price lies between the two prices |
| `MarketEngine.MicroPriceCanLieOutside` | crates/market-state/src/engine.rs:279-284 | two levels for which it does not |
| `MarketEngine.PublishedMicroPriceBetween` | crates/market-state/src/engine.rs:277-290 | so every published micro price lies between the two best prices unless the weighted sum overflows |
| `MarketEngine.PublishedIsQuotable` | crates/market-state/src/engine.rs:277-290 | published levels have prices of the book and positive quantities |
| `MarketEngine.MicroPriceLeans` | crates/market-state/src/engine.rs:277-290 | it leans away from the heavier side of an uncrossed book |
| `MarketEngine.MicroPriceFits` | crates/market-state/src/engine.rs:277-290 | up to 65536 ticks and 2^46 lots the weighted sum always fits |
| `Position.PositionBook.constructor` | crates/strategy/src/position.rs:35-43 | a flat position |
| `Position.PositionBook.OnFill` | crates/strategy/src/position.rs:58-132 | the whole new state of a fill, including silent zeroes on overflow |
| `Position.IncreaseConserves` | crates/strategy/src/position.rs:74-92 | an increasing fill moves realized - cash - qty*entry by the remainder of the average, less than the new size |
| `Position.ReduceConserves` | crates/strategy/src/position.rs:93-123 | a reducing, closing or flipping fill conserves it exactly |
| `Position.FillConservesIff` | crates/strategy/src/position.rs:58-132 | every fill of any kind, increase, close or flip, conserves money up to the rounding of its average if and only if none of its checked operations overflows |
| `Position.ProfitIsConserved` | crates/strategy/src/position.rs:58-132 | over every run without overflow: realized = cash + qty*entry + e with |e| at most the sum of (|new qty| - 1) over increasing fills, e = 0 when every average is exact; qty is the net of the fills and the fill count their number, saturated at 32 bits; flat means zero entry |
| `Position.MarkExactIff` | crates/strategy/src/position.rs:138-158 | total profit is realized plus unrealized if and only if the position is flat or all three steps fit; otherwise it is the realized part alone |
| `Position.TotalProfit` | crates/strategy/src/position.rs:138-158 | over every run, for every mark that fits: total profit at a mid price = cash + qty*mid + the same e |
| `Position.FlatMeansCash` | crates/strategy/src/position.rs:58-132 | a flat book has realized its cash, up to the same bound |
| `Position.OpeningConservesIff` | crates/strategy/src/position.rs:81-92 | an opening fill conserves money exactly if and only if its cost fits; otherwise exactly its cost is lost |
| `Position.OverflowLosesMoney` | crates/strategy/src/position.rs:81-92 | a fill for which it is |
| `OrderTracker.OrderTracker.constructor` | crates/strategy/src/order_tracker.rs:90-95 | 64 empty slots |
| `OrderTracker.OrderTracker.FindSlot` | crates/strategy/src/order_tracker.rs:198-203 | the first slot with the id |
| `OrderTracker.OrderTracker.OnIntentSent` | crates/strategy/src/order_tracker.rs:102-119 | takes the first reusable slot, or refuses |
| `OrderTracker.OrderTracker.OnAck` | crates/strategy/src/order_tracker.rs:122-128 | the whole new state |
| `OrderTracker.OrderTracker.OnReject` | crates/strategy/src/order_tracker.rs:131-136 | the whole new state |
| `OrderTracker.OrderTracker.OnFill` | crates/strategy/src/order_tracker.rs:139-153 | the whole new state: fills capped, finished orders untouched |
| `OrderTracker.OrderTracker.OnCancelAck` | crates/strategy/src/order_tracker.rs:156-161 | the whole new state |
| `OrderTracker.OrderTracker.OpenQuantity` | crates/strategy/src/order_tracker.rs:180-188 | the wrapped sum of the unfilled quantities of active orders of one instrument and side |
| `OrderTracker.OpenExactIff` | crates/strategy/src/order_tracker.rs:180-188 | on accounted-for slots that sum is exact, with no running sum overflowing, if and only if it fits a signed word |
| `OrderTracker.StepKeeps` | crates/strategy/src/order_tracker.rs:102-161 | every legal event keeps count, distinct ids and fill accounting; a refused id, or one whose slot was taken over, may be sent again |
| `OrderTracker.IntentKeepsIff` | crates/strategy/src/order_tracker.rs:102-119 | an intent keeps them if and only if it is refused, or active, unfilled and under an id no other slot carries |
| `OrderTracker.AnswerKeepsIff` | crates/strategy/src/order_tracker.rs:122-161 | an ack, reject or cancel-ack keeps them if and only if the order is gone or active, or, for the last two, the count is zero |
| `OrderTracker.RunKeeps` | crates/strategy/src/order_tracker.rs:102-161 | over every legal run: the count is the number of active slots, and each filled quantity is min(size, fills delivered while active), overfills and late fills included; filled orders are full and active ones are not |
| `OrderTracker.OrdersFollowEvents` | crates/strategy/src/order_tracker.rs:102-161 | over every legal run each tracked order is the one sent, Filled if and only if a fill completed it, otherwise in the state of its latest answer, with the exchange id and time of its latest ack |
| `OrderTracker.FilledFollows` | crates/strategy/src/order_tracker.rs:139-153 | a fill that brings what was delivered to the size makes the order Filled, and a smaller one leaves its state |
| `OrderTracker.ActiveIsTracked` | crates/strategy/src/order_tracker.rs:102-119 | no active order is lost: while the events say that an order is active, a slot carries it |
| `OrderTracker.OpenIsNonNegative` | crates/strategy/src/order_tracker.rs:139-188 | on accounted-for slots no order is overfilled, so running open quantities are never negative and only grow |
| `OrderTracker.IntentRefusedIff` | crates/strategy/src/order_tracker.rs:102-119 | an intent is refused if and only if 64 orders are active |
| `OrderTracker.AckKeepsCountIff` | crates/strategy/src/order_tracker.rs:122-128 | an ack keeps the count right if and only if the order is gone or active |
| `OrderTracker.CloseKeepsCountIff` | crates/strategy/src/order_tracker.rs:131-161 | a reject or cancel-ack keeps it right if and only if the order is gone or active, or the count is already zero |
| `OrderTracker.LateAckBreaksCount` | crates/strategy/src/order_tracker.rs:122-128 | a run from the empty tracker whose late ack breaks the count |
| `OrderTracker.SecondCancelAckBreaksCount` | crates/strategy/src/order_tracker.rs:156-161 | a run from the empty tracker whose second cancel-ack breaks the count |
| `OrderTracker.CountAfterUpdate` | crates/strategy/src/order_tracker.rs:102-161 | how one slot moves the number of active slots |
| `OrderTracker.OpenAfterUpdate` | crates/strategy/src/order_tracker.rs:180-188 | how one slot moves the open quantity |
| `Exposure.FindPosition` | crates/strategy/src/exposure.rs:29-33 | the first position of the instrument |
| `Exposure.WorstCaseStarts` | crates/strategy/src/exposure.rs:28-42 | with no order the worst case is the position, and with no position it is the signed open quantity |
| `Exposure.FillTakesOpen` | crates/strategy/src/order_tracker.rs:139-188 | a fill of any quantity takes the smaller of itself and the remaining quantity from the open quantity |
| `Exposure.FillMovesPosition` | crates/strategy/src/position.rs:58-126 | a fill moves only its own instrument, by its signed quantity |
| `Exposure.FillMovesExposure` | crates/strategy/src/exposure.rs:28-42 | a fill of any quantity moves the worst case of its side by the signed excess over the remaining quantity, so not at all if and only if there is none, the opposite one by the whole signed quantity, and no other instrument |
| `Exposure.IntentWidensExposure` | crates/strategy/src/exposure.rs:28-42 | an accepted intent widens the worst case of its side by its remaining quantity, and nothing else |
| `Registry.InstrumentRegistry.constructor` | crates/registry/src/lib.rs:53-62 | the empty registry |
| `Registry.InstrumentRegistry.AllocId` | crates/registry/src/lib.rs:121-129 | ids in order, each once, then exhaustion for good |
| `Registry.InstrumentRegistry.InsertInstrument` | crates/registry/src/lib.rs:139-176 | the whole new state and result, each error included |
| `Registry.InstrumentRegistry.InsertPredictionPair` | crates/registry/src/lib.rs:185-223 | the whole new state and result, each error included |
| `Registry.InstrumentRegistry.BindPolymarketCurrent` | crates/registry/src/lib.rs:232-257 | the whole new state and result, each error included |
| `Registry.InstrumentRegistry.BindPolymarketNext` | crates/registry/src/lib.rs:267-291 | the whole new state and result, each error included |
| `Registry.InstrumentRegistry.PromotePolymarketNext` | crates/registry/src/lib.rs:298-319 | the whole new state and result, each error included |
| `Registry.InstrumentRegistry.UnbindPolymarket` | crates/registry/src/lib.rs:329-350 | the whole new state and result, each error included |
| `Registry.InsertKeepsIff` | crates/registry/src/lib.rs:139-176 | an accepted insert keeps all indexes exact if and only if it brings no window |
| `Registry.BindCurrentKeepsIff` | crates/registry/src/lib.rs:232-257 | a bind keeps all indexes exact if and only if the token is not held in another slot |
| `Registry.BindNextKeepsIff` | crates/registry/src/lib.rs:267-291 | the same for the next window |
| `Registry.PromoteKeeps` | crates/registry/src/lib.rs:298-319 | promotion keeps all indexes exact |
| `Registry.UnbindKeeps` | crates/registry/src/lib.rs:329-350 | unbinding keeps all indexes exact |
| `Registry.ApplyKeepsIff` | crates/registry/src/lib.rs:121-350 | each of the six operations keeps all indexes exact if and only if it is legal: it fails, or inserts no window, or binds a token held nowhere else |
| `Registry.RunKeeps` | crates/registry/src/lib.rs:121-350 | over every legal run: the token index is exactly the current and next tokens with their owners, and key and symbol indexes agree with the records both ways |
| `Registry.WindowsFollowOps` | crates/registry/src/lib.rs:139-350 | along every run the current window is the last one bound as current or promoted from next and not unbound since, and likewise for next |
| `Registry.BindMoves` | crates/registry/src/lib.rs:232-291 | a bind sets one window of one instrument and nothing else |
| `Registry.PromoteMoves` | crates/registry/src/lib.rs:298-350 | after a promotion the current window is the former next one and next is empty; an unbinding leaves none; no other record changes |
| `Registry.TokensFollowOps` | crates/registry/src/lib.rs:232-350 | over every legal run a token is found under an instrument if and only if the operations say its window is current or next there |
| `Registry.RecordsFollowOps` | crates/registry/src/lib.rs:139-223 | along every run each instrument keeps the key, metadata and symbol it was inserted with |
| `Registry.InsertResult` | crates/registry/src/lib.rs:139-176 | which inserts fail and why, in terms of the records |
| `Registry.BindingResults` | crates/registry/src/lib.rs:232-350 | which binding calls fail and why, in terms of the operations so far |
| `Registry.ApplyExtends` | crates/registry/src/lib.rs:121-350 | no operation moves a key, a record identity or its metadata, or goes back in the ids |
| `Registry.IdentityIsStable` | crates/registry/src/lib.rs:116-129 | along every run, legal or not, a key keeps its id for ever and no id is used twice |
| `Registry.PairAtomicIff` | crates/registry/src/lib.rs:185-223 | a pair goes in whole, records and all indexes; a failed one adds nothing to any of them if and only if it was refused by the pre-checks or not exactly one id was left |
| `Registry.HalfPairIsReachable` | crates/registry/src/lib.rs:185-223 | a legal run from the empty registry after which a pair goes in by half |
| `Registry.BurningIds` | crates/registry/src/lib.rs:150-157 | every insert refused for its symbol uses up an id |
| `Registry.SharedTokenIsLost` | crates/registry/src/lib.rs:232-257 | re-binding a token that another instrument holds, then moving on, loses that token from the index |
| `Registry.SharedTokenBreaksIndex` | crates/registry/src/lib.rs:232-257 | a run from the empty registry in which one token bound twice breaks the index |
| `Registry.InsertedWindowBreaksIndex` | crates/registry/src/lib.rs:139-176 | a run from the empty registry in which an inserted window breaks the index |

## Left out

- `crates/transport`: sockets, feed threads, backoff, timers and CPU pinning are input/output.
- Venue JSON decoding: the decoders are third-party; the decimal parser they feed is modelled.
- `QueueEstimator` and `book_imbalance`: floating-point library functions.
- `SeqLock`, inline assembly, SIMD copy kernels, prefetching, cycle counters and instrumentation counters: hardware behaviour or easy counting.
- Weak-memory reordering beyond Acquire and Release, and the timing of the constant-time code.
- `pop` through a raw pointer, and the single `push` and `pop` of the copy ring: the same protocol as `try_push` and `try_pop`.
- `muladd1`, `smul`, `ccopy` and the remaining multiplexers: variants of modelled members that would add only easy ones.
- `checked_add`, `wrapping` and saturating scalar forms of the fixed-point type: one-line operators.
- `is_stale`, `is_ready`, `last_trade`, `spread`, `notional` and `total_notional_at_risk`: reads of modelled state.
- Division with `n_hi > d`: the source declares the result undefined.
- ConstantTime.Mux: models the portable mask formula, not the conditional-move instruction.
- RingEngine.RingEngine.CopyOut: copies element by element in the two-chunk slot order instead of by two block copies.
- RingEngine.RingEngine.DropRange: returns the visited cells in place of running destructors.
- ArrayBook.ArrayBook.Update: the update action of a delta is not a parameter, since the source ignores it.
- OrderTracker.OrderTracker.OnFill: adds filled quantities without a bound; overflow of that plain addition is not modelled.
- Exposure.FillMovesExposure: adds position and open quantity without a bound; overflow of that plain addition is not modelled.
