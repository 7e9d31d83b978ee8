# A verified model of the FloPoCo bit heap and its arithmetic cores

FloPoCo generates arithmetic operators (adders, multipliers, dividers by a
constant, counters) as VHDL. Most of its operators end in a **bit heap**: a
set of single bits, each carrying a weight, a cycle and a critical path,
together with a constant that is folded in algebraically. The heap is
reduced column by column with compressors (counters such as the (3,2) full
adder or the (6,3) counter) until at most two or three bits per column
remain, and a final carry-propagate adder then sums them.

This project models, in Dafny, the logic of that engine and of the smaller
cores that surround it:

- **The bit heap** (`src/BitHeap.cpp`). It covers:
  - the sorted column store: `addBit`, `removeBit`, `removeCompressedBits` and `getMaxHeight`;
  - constant folding and the unsigned and two's-complement vector helpers;
  - the compressor catalog and `elemReduce`;
  - one compression stage, with its ready-count snapshot, its LSB-adder short-cut, the Altera ternary-adder chain and the greedy compressor pass;
  - the Xilinx level skipping;
  - the final-adder rows, the LSB chunk finalisation and the control skeleton of `generateCompressorVHDL`;
  - the latest and soonest bit queries.

  Modules: `BitHeapStore`, `BitHeapReduce`, `BitHeapQueries`, `Compressors`, `CompressCount`, `CompressLsb`, `CompressTernary`, `CompressGreedy`, `CompressStage`, `FinalAdd`, `XilinxLevels`, `CompressorVhdl`.

  Every bit carries an abstract value as well as its timing stamp. That lets the model state value preservation: each step keeps the heap's weighted sum, modulo 2^maxWeight where the source works modulo the heap's width.
- **The second-generation compression strategies**:
  - `CompressionStrategy`, for `src/BitHeap/CompressionStrategy.cpp`, covers the `startCompression` loop, `compress`, `getSoonestBit`, `canApplyCompressor` and the compressor catalog;
  - `ParandehAfshar` covers the stage loop and the left/right placement search.
- **Integer division by a constant** (`IntConstDiv`):
  - the Euclidean division tables and the CBLK tables;
  - the parameter derivation;
  - the linear digit recurrence and the logarithmic table tree, both proved to compute X div d and X mod d;
  - emulate.
- **Multipliers**:
  - `IntMultiplier` covers guard bits, `initialize`, the round bit, the chunk sizing, the small multiplication table and emulate;
  - `SignedIntMultiplier` covers the output width, emulate and the Virtex5/6 DSP chunk choice.
- **The leading zero/one counter** (`LZOC`): the output width, emulate, and the padded binary-search recurrence, proved to compute the emulated count.
- **Tables** (`Table`): range validation, the `full` flag, the rows written out and the LUT cost.
- **Utilities**:
  - `Utils` covers `intlog2`, `intpow2`, `invintpow2`, `unsigned_binary`, `printBinNum` and `printBinNumGMP`;
  - `UtilSollya` covers `makeIntPtrChainToFromBy` and `removeTrailingZeros`.
- **The user-defined operator** (`UserDefinedOperator`): its ports, the widths of its sums, its architecture and emulate.
- **Multiplier tiling**:
  - `Field` is the coverage board with its cursor;
  - `BaseMultiplierCategory` covers the tile accessors, the area and the efficiency;
  - `TilingStrategyGreedy` covers the tile ordering, the variable-tile lookup, the greedy cost bail-out and the super-tile pass;
  - `DSP` is the sorted position list of a DSP block.

`Wrappers` holds the `Result`/`Option` types. A `Fatal(msg)` result stands for the source's `THROWERROR`/`exit` paths.

Where the source takes a decision this model cannot see, the decision is a parameter of the model:

- target delays and clock periods;
- `manageCriticalPath`;
- compressor efficiencies;
- DSP expansion and LUT costs;
- super-tile substitution;
- placement results.

Floating-point values are reals. The IEEE infinities and NaN are kept where a division by zero can produce them (`BaseMultiplierCategory.FloatValue`).

Where the code and its documentation disagree, the model follows the code. Three cases:

- `addBit` places a new bit ahead of existing bits with the same timestamp, so ties are newest-first. It does not keep insertion order.
- The getSoonestBit contract in `CompressionStrategy.hpp` (null for an empty heap) is not what the `.cpp` does. Both behaviours are modelled (see Findings).
- The bit heap's result is meant to stand for the sum of its bits and its constant, but `generateCompressorVHDL` returns on an empty heap before the constant is made into bits (src/BitHeap.cpp:805-816). A heap holding only a constant therefore produces nothing. Both behaviours are modelled (see Findings).

## Model

| member | source | states |
|---|---|---|
| BitHeapStore.NewHeap | src/BitHeap.cpp:34-72 | the constructor: maxWeight empty columns, minWeight 0, no chunk, value 0, valid and sorted |
| BitHeapStore.InsertContents | src/BitHeap.cpp:524-543 | the insertion loop adds exactly the new bit to the column (as a multiset, and in the count of ones) |
| BitHeapStore.InsertSorted | src/BitHeap.cpp:524-543 | inserting before the first bit the new one is `<=` to keeps a sorted column sorted; the bits before it are strictly earlier and the ones after are no earlier, so ties are newest-first |
| BitHeapStore.Put | src/BitHeap.cpp:512-543 | a weight at or beyond maxWeight leaves the heap unchanged; otherwise only column w changes, by the insertion |
| BitHeapStore.PutValue | src/BitHeap.cpp:512-543 | a put bit adds 2^w to the heap value exactly when it is a one and w < maxWeight |
| BitHeapStore.PutSorted | src/BitHeap.cpp:524-543 | addBit keeps every column sorted by (cycle, critical path) |
| BitHeapStore.AddBit | src/BitHeap.cpp:505-543 | fatal exactly for a negative weight; dropped at or beyond maxWeight; otherwise only column w grows, by exactly one bit, the heap stays sorted and its value grows by the bit's weight |
| BitHeapStore.AddRunValue | src/BitHeap.cpp:190-203 | a run of addBit calls from weight w adds the value of the entries below maxWeight, shifted by w |
| BitHeapStore.AddRunHeights | src/BitHeap.cpp:190-203 | each column receives exactly the bits of the run that land on it |
| BitHeapStore.AddRunLast | src/BitHeap.cpp:197-202 | the run is the source's loop: the first n entries, then one more addBit |
| BitHeapStore.RemoveBit | src/BitHeap.cpp:559-574 | dir 0 pops the oldest bit of the column, dir 1 the newest, any other dir changes nothing; other columns are untouched |
| BitHeapStore.RemoveCompressedBits | src/BitHeap.cpp:680-687 | drops the red oldest bits of column c and nothing else; red <= 0 changes nothing; sortedness is kept and the value falls by the dropped ones times 2^c |
| BitHeapStore.RemoveCompressedBitsStep | src/BitHeap.cpp:680-687 | dropping red bits at once equals the loop's removeBit(c, 0) followed by dropping red - 1 |
| BitHeapStore.GetMaxHeight | src/BitHeap.cpp:690-701 | the scan returns a height no column exceeds and that some column reaches (or 0) |
| BitHeapStore.AddConstantOneBit | src/BitHeap.cpp:162-167 | fatal exactly on a negative weight; otherwise only constantBits changes, by +2^weight |
| BitHeapStore.SubConstantOneBit | src/BitHeap.cpp:171-176 | fatal exactly on a negative weight; otherwise only constantBits changes, by -2^weight |
| BitHeapStore.AddConstant | src/BitHeap.cpp:181-186 | fatal exactly on a negative weight; otherwise only constantBits changes, by c * 2^weight |
| BitHeapStore.ConstantOneRoundTrip | src/BitHeap.cpp:162-176 | adding and then subtracting a constant one at the same weight gives the heap back |
| BitHeapStore.AddConstantCancels | src/BitHeap.cpp:181-186 | adding c and then -c at the same weight gives the heap back |
| BitHeapStore.AddUnsignedBitVector | src/BitHeap.cpp:190-203 | fatal exactly on a negative weight; otherwise the heap value grows by x * 2^weight modulo 2^maxWeight |
| BitHeapStore.SubtractUnsignedBitVector | src/BitHeap.cpp:205-226 | fatal exactly on a negative weight; the complemented bits, the one at weight and the ones up to maxWeight change the value by -x * 2^weight modulo 2^maxWeight |
| BitHeapStore.SubtractUnsignedDiff | src/BitHeap.cpp:212-225 | the difference from the exact -x * 2^weight is a multiple of 2^maxWeight, with the multiple exhibited |
| BitHeapStore.AddSignedBitVector | src/BitHeap.cpp:231-252 | fatal exactly on a negative weight; the flipped sign bit plus the sign-extension ones add the two's-complement value of x times 2^weight modulo 2^maxWeight |
| BitHeapStore.AddSignedDiff | src/BitHeap.cpp:241-251 | the difference from the exact signed contribution is a multiple of 2^maxWeight, with the multiple exhibited |
| BitHeapStore.SubtractSignedBitVector | src/BitHeap.cpp:255-261 | every call is fatal, as the unimplemented source is |
| BitHeapStore.MaterialiseConstant | src/BitHeap.cpp:813-816 | one constant bit per one in the low maxWeight bits of constantBits; the heap stays sorted and its bits gain constantBits mod 2^maxWeight |
| BitHeapReduce.ComputeLatest | src/BitHeap.cpp:105-155 | fatal exactly when column w is below maxWeight, c1 is 0 and column w has no c0-th bit; none exactly beyond maxWeight; otherwise the result is one of the two candidate bits, no earlier than the other, and the bit of column w + 1 wins a tie |
| BitHeapReduce.ComputeLatestIsLatest | src/BitHeap.cpp:105-155 | in a sorted heap the chosen bit is no earlier than any of the c0 first bits of column w and the c1 first bits of column w + 1, which are the compressor's inputs |
| BitHeapReduce.ElemReduce | src/BitHeap.cpp:577-667 | fatal exactly when the compressor is not applicable at column i (a column too short, or no latest bit); otherwise the heap stays valid, with the same weight range |
| BitHeapReduce.OutputsReplaceInputs | src/BitHeap.cpp:577-667 | replacing inputs worth S·2^w by the binary digits of S placed from weight w keeps the heap value modulo 2^maxWeight, and keeps it exactly when every digit lands below maxWeight |
| BitHeapReduce.OutputsSpellSum | src/BitHeap.cpp:577-667 | the compressor's output bits, least significant first, spell the number of ones it counts, weighted by column |
| BitHeapReduce.ElemReduceValue | src/BitHeap.cpp:577-667 | elemReduce keeps the heap value modulo 2^maxWeight, and keeps it exactly when all outputs fall below maxWeight |
| BitHeapReduce.ElemReduceContents | src/BitHeap.cpp:577-667 | as multisets, each column loses exactly the bits taken from its front and gains one output bit per digit of its weight, carrying that digit, the given kind and the stamp of the latest input |
| BitHeapReduce.ElemReduceHeights | src/BitHeap.cpp:577-667 | each column's new height plus what the compressor took from it is its old height plus one for each output digit of its weight |
| BitHeapReduce.ElemReduceSorted | src/BitHeap.cpp:577-667 | a sorted heap stays sorted |
| BitHeapReduce.ApplyCompressor3_2 | src/BitHeap.cpp:1096-1110 | fatal exactly when the column is out of range or holds fewer than three bits; otherwise the column loses two bits, the next gains one, no other height changes, the value is kept modulo 2^maxWeight (exactly when col + 2 <= maxWeight), and sortedness is kept |
| BitHeapReduce.ApplyAdder | src/BitHeap.cpp:1114-1224 | the heap stays valid, with the same weight range |
| BitHeapReduce.AdderNoOverflow | src/BitHeap.cpp:1114-1224 | two n-bit operands and a carry-in fit in the adder's n + 1 output bits, and those bits spell the sum exactly |
| BitHeapReduce.ApplyAdderHeights | src/BitHeap.cpp:1114-1224 | columns lsb..msb lose cnt[k] bits and every column lsb..msb + 1 below maxWeight gains one result bit; the others are unchanged |
| BitHeapReduce.ApplyAdderSorted | src/BitHeap.cpp:1114-1224 | a sorted heap stays sorted |
| BitHeapReduce.ContractConsumesOperands | src/BitHeap.cpp:1114-1224 | when cnt has been set up as the adder assumes, the ones removed from each column are exactly the operand bits (and the carry-in) the adder reads |
| BitHeapReduce.ApplyAdderValue | src/BitHeap.cpp:1114-1224 | when cnt has been set up as the adder assumes, the heap value is kept modulo 2^maxWeight, and exactly when the carry-out column msb + 1 is below maxWeight |
| BitHeapReduce.ApplyAdderKeeps | src/BitHeap.cpp:1114-1224 | an adder from minWeight up with cnt set up is a compression step: value modulo 2^maxWeight, sortedness and the empty columns below minWeight are kept |
| BitHeapReduce.RunAdder | src/BitHeap.cpp:1114-1224 | the step the passes take: it keeps what a compression step keeps and changes the heights as applyAdder does |
| BitHeapQueries.LatestIndex | src/BitHeap.cpp:1229-1256 | the scan's choice: none exactly when no bit reaches the starting stamp (0, 0); otherwise a bit no earlier than every other, and no later bit is equally late, so the last scanned of the latest bits wins |
| BitHeapQueries.GetLatestBit | src/BitHeap.cpp:1229-1261 | fatal ("All columns are void!") exactly when no bit of columns lo..hi reaches stamp (0, 0); otherwise a bit of those columns that is no earlier than any of their bits |
| BitHeapQueries.SoonestIndex | src/BitHeap.cpp:1061-1088 | the scan's choice: none exactly when no bit is earlier than the sentinel (cycle 9999, critical path 100); otherwise a bit no later than every other, and no earlier-scanned bit is as soon, so the first scanned of the soonest bits wins |
| BitHeapQueries.GetFirstSoonestBit | src/BitHeap.cpp:1061-1090 | null exactly when no bit from minWeight up is earlier than the sentinel (so for empty columns); otherwise a bit of those columns no later than any of them |
| BitHeapQueries.RunEnd | src/BitHeap.cpp:2213-2227 | the scan stops at the first column from w whose height is not 1, or at the end |
| BitHeapQueries.ConcatenateLSBColumns | src/BitHeap.cpp:2209-2271 | fatal exactly when the scan meets an empty column ("LSB columns cannot be void!") or getLatestBit fails on the taken columns; otherwise minWeight moves past the height-1 columns, those columns are emptied, their bits become one new chunk (none when no column was taken) and nothing else changes |
| BitHeapQueries.ConcatenatedValue | src/BitHeap.cpp:2235-2262 | the new chunk holds exactly the value the emptied columns held |
| BitHeapQueries.ConcatenateValue | src/BitHeap.cpp:2209-2271 | concatenateLSBColumns keeps the total value of the heap, chunks included |
| BitHeapQueries.ConcatenateChunks | src/BitHeap.cpp:2209-2271 | the chunk count (chunkDoneIndex) grows by one exactly when a column was taken, and a sorted heap stays sorted |
| BitHeapQueries.ConcatenateKeeps | src/BitHeap.cpp:2209-2271 | concatenateLSBColumns is a compression step: the column value, sortedness and the empty columns below minWeight are kept |
| Compressors.OutputSize | src/BitHeap.cpp:720 | the outputs are just enough bits to write col0 + 2·col1, the largest count of ones the inputs can hold |
| Compressors.WorkableBound | src/BitHeap.cpp:718-720 | the workability test intlog2(col0 + 2·col1) <= 3 is the same as col0 + 2·col1 < 8 |
| Compressors.GeneratePossibleCompressors | src/BitHeap.cpp:708-779 | fatal exactly when the target has fewer than three LUT inputs (no full adder is built); otherwise the catalog holds exactly the workable compressors, in strictly descending (col0, col1) order, with the full adder and without the half adder |
| Compressors.AddFirstColumn | src/BitHeap.cpp:718-731 | one turn of the outer loop appends exactly the workable compressors with that first column, keeping the catalog strictly descending and noting the full adder |
| Compressors.CatalogFirst | src/BitHeap.cpp:716-731 | the catalog opens with the single-column compressor of min(lutInputs, 7) bits |
| Compressors.CatalogSecondColumn | src/BitHeap.cpp:716-731 | every catalog entry has at most 2 second-column bits, at most 7 first-column bits and at most 3 outputs |
| Compressors.WorkableCompresses | src/BitHeap.cpp:716-731 | every catalog entry has fewer outputs than inputs |
| Compressors.StrategyCatalog | src/BitHeap/CompressionStrategy.cpp:202-296 | the fixed list has seven entries, all workable on a six-input LUT, and ends with the full adder |
| Compressors.StrategyCatalogContents | src/BitHeap/CompressionStrategy.cpp:202-296 | the fixed list is the six-input catalog without (5, 1), and it is not in catalog order even though its comment says it is sorted by compression ratio |
| CompressCount.CountReadyAll | src/BitHeap.cpp:1662-1672 | a column's ready count equals its height exactly when every one of its bits is ready for the stage |
| CompressCount.ReadyPrefix | src/BitHeap.cpp:1662-1672 | in a time-sorted column, with readiness that respects time, the ready bits are exactly the cnt[i] oldest ones, so popping cnt[i] bits from the front takes the ready bits and nothing else |
| CompressCount.Snapshot | src/BitHeap.cpp:1662-1672 | columns from minWeight up get their ready counts, the entries below keep the values of the previous stage, and no count exceeds its column's height |
| CompressLsb.LsbScan | src/BitHeap.cpp:1676-1728 | the scan ends on a column whose every bit is ready and that would read past the column's end (left unmodelled), or with an adder range that is empty or lies strictly inside the heap, covers only columns of 1 or 2 ready bits, and finishes (adder delay included) before the first bit left out |
| CompressLsb.ZeroRange | src/BitHeap.cpp:1755-1756 | only the counts of columns lo..hi become 0 |
| CompressLsb.ApplyLsbAdder | src/BitHeap.cpp:1730-1759 | nothing happens for an empty range; with a range, fatal exactly when no latest bit was recorded; otherwise the heap value and sortedness are kept, the counts of the adder's columns become 0 and the heights change as applyAdder changes them |
| CompressLsb.LsbAdderEffect | src/BitHeap.cpp:1730-1759 | the chosen range satisfies the adder's assumption on cnt, so the adder keeps the heap value exactly (its carry-out column is inside the heap) and sortedness |
| CompressTernary.ChainStep | src/BitHeap.cpp:1791-1880 | one turn of the chain search: when it goes on, endAddChain moves up by one and was inside the heap; when it stops, endAddChain does not grow, and it stays put only at 0, at the start column, or at maxWeight with three ready bits read there |
| CompressTernary.ChainEndBounds | src/BitHeap.cpp:1791-1886 | the chain ends at most 32 columns past its start and at most at maxWeight, reaches maxWeight only by running its full length, and never ends more than one column below its start |
| CompressTernary.ChainStartsNonEmpty | src/BitHeap.cpp:1791-1886 | a chain is accepted only from a column with at least one ready bit |
| CompressTernary.Take | src/BitHeap.cpp:1920-1922 | a column gives min(cnt, 3) bits: never more than three and never more than it has ready |
| CompressTernary.ChainNoOverflow | src/BitHeap.cpp:1931-2004 | three operands of n bits never overflow the adder's n + 2 result bits, which spell the sum exactly |
| CompressTernary.ChainClearedValue | src/BitHeap.cpp:1931-1966 | the bits a chain removes are worth its sum at weight index |
| CompressTernary.ApplyChainValue | src/BitHeap.cpp:1888-2013 | the chain keeps the heap value modulo 2^maxWeight, and exactly when its top result bit lands below maxWeight |
| CompressTernary.ApplyChainHeights | src/BitHeap.cpp:1888-2013 | each column of the chain loses the bits it gave, each column index..endAddChain + 2 below maxWeight gains one result bit, and the counts still fit the columns |
| CompressTernary.ApplyChainSorted | src/BitHeap.cpp:1888-2013 | a sorted heap stays sorted |
| CompressTernary.LatestByAddressCounterexample | src/BitHeap.cpp:1898-1926 | a concrete sorted heap where the pointer comparison keeps the earlier bit although a later one is consumed, while the stamp comparison picks the later |
| CompressTernary.LatestByStamp | src/BitHeap.cpp:1898-1926 | the corrected choice is the first bit of column index or the last taken bit of some column, and in a sorted heap no consumed bit is later than it |
| CompressTernary.BuildChain | src/BitHeap.cpp:1888-2018 | an accepted chain is a compression step that leaves the counts below its start alone and strictly lowers the total count; its latest consumed bit is chosen by the corrected LatestByStamp of Findings row 5, not by the source's pointer comparison |
| CompressTernary.ApplyChainDescends | src/BitHeap.cpp:1888-2018 | a chain keeps the heap's frame, value modulo 2^maxWeight, sortedness and empty low columns, and no count grows |
| CompressTernary.ScanChains | src/BitHeap.cpp:1781-2025 | one scan from lastCompressed is a compression step; when it built a chain the total count dropped, and when it built none nothing changed |
| CompressTernary.TernaryPass | src/BitHeap.cpp:1779-2025 | fatal exactly when lastCompressed is at or beyond maxWeight (the scan never runs and the loop never ends); otherwise the pass ends and is a compression step that leaves the counts below lastCompressed alone |
| CompressGreedy.Consume | src/BitHeap.cpp:2049-2087 | each count drops by exactly what the compressor takes from its column |
| CompressGreedy.Apply | src/BitHeap.cpp:2049-2087 | one elemReduce with its count update is a compression step that strictly lowers the total count, each count dropping by what the compressor takes |
| CompressGreedy.ApplyFits | src/BitHeap.cpp:2042-2087 | a compressor that fits the ready bits can always be applied (elemReduce does not fail), and the counts it leaves still fit the new heap |
| CompressGreedy.ExhaustFirst | src/BitHeap.cpp:2042-2055 | the first catalog entry is applied until column i has fewer ready bits than it takes; no other count changes |
| CompressGreedy.WalkCatalog | src/BitHeap.cpp:2057-2093 | the walk over the remaining entries changes only the counts of columns i and i + 1, and with a generated catalog leaves at most two ready bits in column i |
| CompressGreedy.GreedyColumn | src/BitHeap.cpp:2038-2093 | the work on one column is a compression step that changes only the counts of columns i and i + 1, leaves fewer ready bits in column i than the first entry takes, and at most two with a generated catalog |
| CompressGreedy.SecondPhaseStart | src/BitHeap.cpp:2057-2093 | with a generated catalog, a column still holding more than two ready bits after the first entry has its single-column compressor further along the catalog |
| CompressGreedy.FirstFitEmpties | src/BitHeap.cpp:2062-2087 | with a generated catalog, the first entry that fits n > 2 ready bits takes all n of them |
| CompressGreedy.GreedyPass | src/BitHeap.cpp:2035-2096 | the pass is a compression step after which every column from minWeight holds fewer ready bits than the first entry takes, and at most two with a generated catalog |
| CompressStage.LsbPhase | src/BitHeap.cpp:1676-1759 | the LSB scan and its adder keep the heap value exactly and sortedness, the counts still fit, and the ternary pass starts at or above minWeight and below maxWeight unless it starts at minWeight; fatal only on one of the scan's undefined reads (a candidate column whose bits are all ready, or an adder whose last ready bits are none later than time 0) |
| CompressStage.Compress | src/BitHeap.cpp:1645-2099 | a failing concatenateLSBColumns makes the stage fail, and the stage fails only then, on an undefined read of the LSB scan, or on an Altera target when concatenation left no live column; a stage that succeeds is a compression step after which every column from the new minWeight holds fewer ready bits than the first catalog entry takes, and at most two with a generated catalog; on Altera it runs the ternary chains of BuildChain, which use the corrected LatestByStamp of Findings row 5 |
| FinalAdd.Row | src/BitHeap.cpp:1287-1460 | row r holds, from minWeight up, the r-th oldest bit of each column that fits the adder, and '0' elsewhere |
| FinalAdd.FitsRowsHeight | src/BitHeap.cpp:1287-1460 | a heap whose columns fit n rows is no taller than n and has nothing below minWeight |
| FinalAdd.ColumnCountsWindow | src/BitHeap.cpp:1287-1460 | column by column, the ones of the heap are the digit sums of the adder's rows |
| FinalAdd.ColumnRowsCount | src/BitHeap.cpp:1287-1460 | a column that fits n rows counts exactly as many ones as its row bits |
| FinalAdd.FinalRowsValue | src/BitHeap.cpp:1287-1460 | when every column fits, the rows placed at minWeight add up to exactly the value of the columns: no bit is lost or counted twice |
| FinalAdd.AdderResultValue | src/BitHeap.cpp:1287-1460 | when every column fits, the adder's result is exactly the value of the heap |
| FinalAdd.FinalAddition | src/BitHeap.cpp:1267-1460 | an empty heap needs no adder and is left alone; a heap of height 1 is finalised into a chunk (fatal only when concatenateLSBColumns fails); a taller heap is fatal exactly when getLatestBit over minWeight..maxWeight-1 throws, and otherwise gets an adder of two rows on Xilinx and three elsewhere; the heap value is kept, and a heap low enough has columns that fit the rows |
| FinalAdd.FinaliseTakesAll | src/BitHeap.cpp:1270-1273 | a heap of height one that concatenateLSBColumns accepts is taken entirely, leaving no row |
| XilinxLevels.FirstAtLeastThree | src/BitHeap.cpp:901-902 | the first column from i counting three bits or more, all columns before it counting fewer; none exactly when no such column is left in the heap |
| XilinxLevels.SkipBounded | src/BitHeap.cpp:978-981 | the first column from i counting three bits, or maxWeight + 1 when none is left, and no column before it counts three |
| XilinxLevels.SkipAsWrittenRunsPast | src/BitHeap.cpp:943-947 | with no column after i counting three bits, the unbounded scan runs off the end of the cnt array |
| XilinxLevels.SkipAsWrittenCounterexample | src/BitHeap.cpp:943-947 | on heights [3, 0] the unbounded scan after column 0 runs off the array, while the bounded scan stops at maxWeight + 1 |
| XilinxLevels.SkipToThree | src/BitHeap.cpp:943-947 | corrected: the first column after i counting three bits, or maxWeight + 1, with no column in between counting three |
| XilinxLevels.SkipAgrees | src/BitHeap.cpp:943-947 | when a column after i counts three bits, the scan as written and the corrected one stop at the same column |
| XilinxLevels.RunOfTwos | src/BitHeap.cpp:955-959 | the run of columns counting two bits after i: every column strictly inside counts two and the one where it stops does not |
| XilinxLevels.HeightCounts | src/BitHeap.cpp:894-896 | the counts are the heights of the columns from minWeight; the entries below keep what the last compression stage left |
| XilinxLevels.ThreeTwo | src/BitHeap.cpp:928-946 | a full adder in column i is a compression step: column i loses two bits, column i + 1 gains one, and no other height changes |
| XilinxLevels.AdderRunDefined | src/BitHeap.cpp:951-976 | a column of three followed by a run of columns of two meets the adder's assumption on cnt, with the third bit of the first column as carry-in |
| XilinxLevels.AdderRunEffect | src/BitHeap.cpp:951-976 | the adder over the run is a compression step |
| XilinxLevels.AdderRunHeights | src/BitHeap.cpp:951-976 | the adder over the run takes the counted bits of columns j..e-1 and puts one sum bit in each of columns j..e |
| XilinxLevels.ThreeTwoLeavesInv | src/BitHeap.cpp:928-947 | after a full adder, every column skipped over holds at most two bits and the scan resumes at the next column of three |
| XilinxLevels.RunLeavesInv | src/BitHeap.cpp:951-981 | after an adder over a run, every column it covered holds at most two bits and the scan resumes at the next column of three |
| XilinxLevels.AdderStamp | src/BitHeap.cpp:961-967 | the run adder's instant is fatal exactly when no bit of its columns has a defined time, as getLatestBit throws before the check that follows it |
| XilinxLevels.LevelsStep | src/BitHeap.cpp:926-983 | one turn of the pass is fatal exactly when it is a run adder whose getLatestBit throws; otherwise it is a compression step that moves i strictly forward and keeps the pass's invariant |
| XilinxLevels.LowAdderDefined | src/BitHeap.cpp:905-914 | the columns below the first column of three meet the adder's assumption on cnt |
| XilinxLevels.LowAdder | src/BitHeap.cpp:905-914 | the adder below the first column of three is a compression step that leaves one bit in each of those columns and puts its carry in that column |
| XilinxLevels.FirstConcatenation | src/BitHeap.cpp:916 | concatenating after the first adder takes exactly its one-bit columns: minWeight moves to the first column of three and the columns from there are unchanged |
| XilinxLevels.FirstThreeExists | src/BitHeap.cpp:892-902 | a heap with empty low columns and height three has a column of three from minWeight |
| XilinxLevels.FirstAdder | src/BitHeap.cpp:905-921 | nothing happens when the first column of three is minWeight; otherwise a successful first adder is a compression step leaving the pass's invariant at that column |
| XilinxLevels.LastConcatenation | src/BitHeap.cpp:1013 | at the end of the pass, concatenating leaves at most two bits per column |
| XilinxLevels.XilinxThreeLevels | src/BitHeap.cpp:889-1013 | fatal when no column from minWeight counts three bits, and the getLatestBit throws of its adders are fatal too; otherwise the pass is a compression step, and with empty low columns its result fits a two-row adder; the skip after a full adder is the corrected, bounded SkipToThree of Findings row 4 |
| CompressorVhdl.CompressionResult | src/BitHeap.cpp:827-845 | one result bit per column: the column's front bit, '0' for an empty column |
| CompressorVhdl.CopiedValue | src/BitHeap.cpp:827-845 | copying the columns loses nothing when none holds more than one bit |
| CompressorVhdl.MaterialisedValue | src/BitHeap.cpp:813-816 | the constant's bits stand for the constant modulo 2^maxWeight |
| CompressorVhdl.CopiedCongruent | src/BitHeap.cpp:813-845 | the copied result with the chunks stands for the heap and its constant modulo 2^maxWeight |
| CompressorVhdl.CompressStages | src/BitHeap.cpp:855-869 | the stages are compression steps and end with no column taller than three |
| CompressorVhdl.LastLevels | src/BitHeap.cpp:871-1032 | with a column of three bits, fatal when getLatestBit over the live columns throws, and on a target with fast ternary adders (hasFastLogicTernaryAdders, a query separate from the vendor) the heap goes unchanged to a three-row adder; in every case the last levels are a compression step and give an adder of at most three rows that the columns fit |
| CompressorVhdl.CompressAndAdd | src/BitHeap.cpp:846-1032 | fatal on a target with fewer than three LUT inputs; otherwise the final adder's result stands for the heap's bits modulo 2^maxWeight; the stages use the ternary pass on Altera and the last levels use the three-row adder only on targets with fast ternary adders; the stages and the Xilinx pass run the corrected members of Findings rows 4 and 5 |
| CompressorVhdl.GenerateCompressorVHDL | src/BitHeap.cpp:796-1032 | an empty heap does nothing; a heap of height at most one after the constant is copied, standing for the heap and its constant; otherwise the adder's result does, modulo 2^maxWeight; a heap with no bit before the sentinel, or a compression on a target with fewer than three LUT inputs, is fatal; the compression runs the corrected members of Findings rows 4 and 5 |
| CompressorVhdl.GenerateKeepingConstant | src/BitHeap.cpp:796-830 | the corrected form of generateCompressorVHDL: the constant is made into bits before the height test, so a result is always produced, never an empty one; a result of height at most one is copied and stands for the heap and its constant modulo 2^maxWeight; otherwise the adder's result does; no bit before the sentinel, or a compression on fewer than three LUT inputs, is fatal |
| CompressorVhdl.ConstantOnlyHeap | src/BitHeap.cpp:805-816 | a valid heap of m empty columns with constant 5: its height is zero and its value is 5 |
| CompressorVhdl.ConstantOnlyAsWritten | src/BitHeap.cpp:805-806 | as written, a heap of no bits and constant 5 gives an empty result although its value is 5 |
| CompressorVhdl.ConstantOnlyCorrected | src/BitHeap.cpp:805-816 | corrected, the same heap at any width of at least three is copied, and the copied result's value is exactly 5 |
| CompressorVhdl.ConstantOnlyMaterialised | src/BitHeap.cpp:813-816 | making the constant 5 into bits gives a heap of height one with a soonest bit and no chunks |
| CompressionStrategy.Scan | src/BitHeap/CompressionStrategy.cpp:121-136 | the scan settles on a free bit no later than every free bit it passes, keeping the earlier-scanned one on ties, or keeps its starting candidate when no free bit is sooner |
| CompressionStrategy.FirstNonEmpty | src/BitHeap/CompressionStrategy.cpp:114-116 | the first non-empty column from c, every column skipped being empty, and stopping at msbColumn |
| CompressionStrategy.GetSoonestBitAsWritten | src/BitHeap/CompressionStrategy.cpp:103-139 | as written: fatal exactly on a range outside lsb..msb; the first bit of an empty range is read although it does not exist; the result may be a bit that is not free, namely the first bit of the range, and is otherwise no later than any free bit of the range |
| CompressionStrategy.SoonestAsWrittenCounterexample | src/BitHeap/CompressionStrategy.cpp:103-139 | on a one-column empty heap the written scan reads a missing bit where the documented one gives null; on a column led by a compressed bit the written scan returns that compressed bit where the documented one returns the free bit after it |
| CompressionStrategy.GetSoonestBit | src/BitHeap/CompressionStrategy.hpp:95-101 | corrected as documented: null exactly when the range holds no free bit; otherwise a free bit of the range no later than any free bit, and strictly sooner than every free bit scanned before it |
| CompressionStrategy.SoonestAgrees | src/BitHeap/CompressionStrategy.cpp:103-139 | when the written scan lands on a free bit, it is the bit the documented one returns |
| CompressionStrategy.CountEligibleWidens | src/BitHeap/CompressionStrategy.cpp:176-183 | a longer delay makes no bit ineligible |
| CompressionStrategy.TakeFrom | src/BitHeap/CompressionStrategy.cpp:162-196 | corrected loop: the indices taken are the first `need` eligible bits of the column, in order, or all of them when there are fewer |
| CompressionStrategy.Take | src/BitHeap/CompressionStrategy.cpp:162-196 | the first `need` eligible bits of a column, in order, or all of them when there are fewer |
| CompressionStrategy.TakeAgrees | src/BitHeap/CompressionStrategy.cpp:162-196 | on a column of free bits the written loop takes the same bits as the corrected one |
| CompressionStrategy.CanApplyCompressorAsWritten | src/BitHeap/CompressionStrategy.cpp:142-199 | as written: fatal only past the index one beyond the catalog, and that index itself passes the guard and reads past the catalog |
| CompressionStrategy.CanApplyCompressor | src/BitHeap/CompressionStrategy.cpp:142-199 | corrected: fatal exactly for an index outside the catalog |
| CompressionStrategy.CanApplyMeaning | src/BitHeap/CompressionStrategy.hpp:113-123 | nothing exactly when the compressor would reach past the heap or a column lacks eligible bits; otherwise col0 distinct eligible bits of the column and col1 of the next |
| CompressionStrategy.CanApplyWidens | src/BitHeap/CompressionStrategy.cpp:142-199 | a longer delay never takes away a compressor that applies |
| CompressionStrategy.CanApplyAgrees | src/BitHeap/CompressionStrategy.cpp:142-199 | when both columns hold only free bits, the written canApplyCompressor returns what the corrected one does |
| CompressionStrategy.CanApplyAsWrittenCounterexample | src/BitHeap/CompressionStrategy.cpp:148-178 | index 7 of the seven-entry catalog passes the written guard, and a compressed bit at the front of a column makes the written scan loop forever, where the corrected one is fatal and finds nothing |
| CompressionStrategy.MarkCount | src/BitHeap/CompressionStrategy.hpp:58-64 | marking distinct free bits compressed takes exactly that many free bits away |
| CompressionStrategy.AddOutputsCount | src/BitHeap/CompressionStrategy.hpp:58-64 | the outputs add one free bit per output column inside the heap |
| CompressionStrategy.ApplyShrinks | src/BitHeap/CompressionStrategy.hpp:58-64 | a compressor applied where canApplyCompressor allows it leaves strictly fewer free bits |
| CompressionStrategy.KeepMembers | src/BitHeap/CompressionStrategy.cpp:49 | removing compressed bits keeps exactly the bits that are not compressed |
| CompressionStrategy.RemoveCompressedBits | src/BitHeap/CompressionStrategy.cpp:49 | no compressed bit is left, every other bit stays, and the free-bit count is unchanged |
| CompressionStrategy.RemoveCompressedIdempotent | src/BitHeap/CompressionStrategy.cpp:49 | removing compressed bits twice removes nothing more |
| CompressionStrategy.Round | src/BitHeap/CompressionStrategy.cpp:82-96 | the two loops leave the heap unchanged exactly when no compressor applies at any remaining (compressor, column), and otherwise strictly lower the free-bit count; the flag records whether anything was applied |
| CompressionStrategy.NextColumn | src/BitHeap/CompressionStrategy.cpp:86-95 | nothing applies from (i, j) exactly when compressor i finds nothing at column j and nothing applies from (i, j + 1) |
| CompressionStrategy.Compress | src/BitHeap/CompressionStrategy.cpp:69-100 | fatal on a heap without columns or with its range outside lsb..msb; otherwise it compresses exactly when some compressor applies within the delay around the soonest free bit, and then strictly lowers the free-bit count; it uses the corrected GetSoonestBit and CanApplyCompressor of Findings rows 1 and 2 |
| CompressionStrategy.CompressWidens | src/BitHeap/CompressionStrategy.cpp:69-100 | when compress compresses within a delay, it compresses within any wider one |
| CompressionStrategy.DelaySchedule | src/BitHeap/CompressionStrategy.cpp:51-57 | with a compressor faster than a clock period, k failed rounds widen the delay to k periods, so it grows without bound |
| CompressionStrategy.Rounds | src/BitHeap/CompressionStrategy.cpp:44-58 | a loop that ends leaves a heap that no longer needs compressing, with no more free bits than it started with; each round uses the corrected GetSoonestBit and CanApplyCompressor of Findings rows 1 and 2 |
| CompressionStrategy.Turn | src/BitHeap/CompressionStrategy.cpp:48-49 | compress then removeCompressedBits never adds free bits and keeps the heap's shape |
| CompressionStrategy.StartCompressionAsWritten | src/BitHeap/CompressionStrategy.cpp:34-66 | as written (compress ignores the delay it is handed): when it ends, the heap no longer needs compressing |
| CompressionStrategy.StartCompression | src/BitHeap/CompressionStrategy.cpp:34-66 | corrected (compress uses the delay it is handed): when it ends, the heap no longer needs compressing and has no more free bits than before |
| CompressionStrategy.StallAsWritten | src/BitHeap/CompressionStrategy.cpp:46-57 | as written, a round that compresses nothing on a heap that still needs compressing repeats forever: the widened delay never reaches compress |
| CompressionStrategy.StallCounterexample | src/BitHeap/CompressionStrategy.cpp:46-57 | on a concrete heap nothing applies within the compressor delay but the full adder applies within one period; the written loop never ends while the corrected one goes on with the widened delay |
| ParandehAfshar.SucceedsIff | src/BitHeap/ParandehAfsharCompressionStrategy.cpp:150-179 | a compressor succeeds exactly when its left placement or its right placement (when it starts inside the heap) is efficient by more than 0.0001, and then its placement is a real column |
| ParandehAfshar.SearchFrom | src/BitHeap/ParandehAfsharCompressionStrategy.cpp:149-179 | the loop keeps the best compressor so far: strictly more efficient than every compressor before it and not beaten by more than the margin by any after it |
| ParandehAfshar.Search | src/BitHeap/ParandehAfsharCompressionStrategy.cpp:143-192 | (null, -1) exactly when no compressor is efficient by more than the margin; otherwise a successful compressor with its placement, strictly better than every earlier one and beaten by no later one by more than the margin |
| ParandehAfshar.SearchPrefersLeft | src/BitHeap/ParandehAfsharCompressionStrategy.cpp:159-170 | the chosen placement is the left one exactly when the left is efficient and the right is not better by more than the margin, or the two coincide |
| ParandehAfshar.SearchPicksClearWinner | src/BitHeap/ParandehAfsharCompressionStrategy.cpp:143-192 | a compressor that beats every other one by more than the margin is the one chosen |
| ParandehAfshar.PickFrom | src/BitHeap/ParandehAfsharCompressionStrategy.cpp:84-90 | the scan yields the tallest unused column, the lowest one among equally tall ones, or column 0 with size 0 when no unused column holds a bit |
| ParandehAfshar.PickMax | src/BitHeap/ParandehAfsharCompressionStrategy.cpp:80-91 | the tallest unused column, the lowest such on ties; (0, 0) when every unused column is empty |
| ParandehAfshar.PickPending | src/BitHeap/ParandehAfsharCompressionStrategy.cpp:80-92 | a pick with a pending column marks the tallest pending one used and it comes before every column still pending; a pick without one leaves nothing pending |
| ParandehAfshar.OrderFromSpec | src/BitHeap/ParandehAfsharCompressionStrategy.cpp:79-104 | from turn a, the columns searched are the pending ones, each once, tallest first |
| ParandehAfshar.OrderSpec | src/BitHeap/ParandehAfsharCompressionStrategy.cpp:79-104 | one scan searches exactly the non-empty columns of the stage, each once, from the tallest down, the lower column first on ties |
| ParandehAfshar.FirstFound | src/BitHeap/ParandehAfsharCompressionStrategy.cpp:79-104 | the first column of the order whose search succeeds, every earlier one failing; none exactly when all fail |
| ParandehAfshar.Choose | src/BitHeap/ParandehAfsharCompressionStrategy.cpp:64-113 | a turn finds nothing exactly when every non-empty column's search fails; otherwise it takes the search result of the first column of the order whose search succeeds |
| ParandehAfshar.PlaceAll | src/BitHeap/ParandehAfsharCompressionStrategy.cpp:63-113 | the placements of a stage stop with a stage where a full scan finds nothing |
| ParandehAfshar.Extend | src/BitHeap/ParandehAfsharCompressionStrategy.cpp:58-61 | stage s + 1 exists afterwards; existing stages are kept, and a new stage s + 1 is empty and as wide as stage s |
| ParandehAfshar.Merge | src/BitHeap/ParandehAfsharCompressionStrategy.cpp:117-123 | every column's remaining bits move to stage s + 1 and no other stage changes; fatal exactly when stage s + 1 is missing or narrower than a column that still holds bits |
| ParandehAfshar.MergeKeepsTotals | src/BitHeap/ParandehAfsharCompressionStrategy.cpp:117-123 | moving the bits to the next stage keeps every column's total over all stages |
| ParandehAfshar.NewStage | src/BitHeap/ParandehAfsharCompressionStrategy.cpp:132-135 | one more empty stage as wide as the last one, the others kept |
| ParandehAfshar.Stages | src/BitHeap/ParandehAfsharCompressionStrategy.cpp:54-137 | a finished run stops at the first stage whose next stage has reached the final adder's height, recording every merged stage on the way |
| ParandehAfshar.ParandehAfsharRun | src/BitHeap/ParandehAfsharCompressionStrategy.cpp:48-140 | a finished run from stage 0 stops at the first stage whose next stage has reached the final adder's height |
| IntConstDiv.EuclideanDivTable | src/ConstMult/IntConstDiv.cpp:41-52 | fatal exactly when x lies outside [0, 2^(alpha+gamma)); otherwise, with gamma bits enough for any remainder, the output unpacks into the quotient and remainder of x by d |
| IntConstDiv.CBLKTable | src/ConstMult/IntConstDiv.cpp:65-80 | the output unpacks into the quotient and remainder by d of the level's dividend: the digit itself at level 0, the two remainders placed 2^(level-1)*alpha bits apart above it |
| IntConstDiv.CBLKCombines | src/ConstMult/IntConstDiv.cpp:65-80 | merging two neighbouring blocks H and L of width W: the quotient of H*2^W+L is the shifted quotient of H plus the quotient of L plus the table's quotient, and its remainder is the table's remainder |
| IntConstDiv.NbDigits | src/ConstMult/IntConstDiv.cpp:148-150 | the smallest number of alpha-bit digits covering wIn bits |
| IntConstDiv.PadBits | src/ConstMult/IntConstDiv.cpp:148-150 | the pad-bit count lies in [0, alpha) |
| IntConstDiv.QuotientBits | src/ConstMult/IntConstDiv.cpp:112 | qSize bits hold the largest quotient of a wIn-bit input, and one fewer do not |
| IntConstDiv.Parameters | src/ConstMult/IntConstDiv.cpp:90-117 | fatal exactly for an architecture other than 0 and 1; gamma is the least width holding d-1; a given alpha is kept; by default the linear architecture fills the LUT inputs with alpha+gamma unless that forces alpha below 1, and the logarithmic one takes alpha equal to the LUT input count |
| IntConstDiv.Digits | src/ConstMult/IntConstDiv.cpp:174-177 | n digits, each in [0, 2^alpha) |
| IntConstDiv.DigitsRoundTrip | src/ConstMult/IntConstDiv.cpp:174-177 | the digits of an input below 2^(alpha*n) recombine to that input |
| IntConstDiv.HornerDivStep | src/ConstMult/IntConstDiv.cpp:168-190 | one step of long division: dividing high*2^alpha+x is dividing high, then dividing the remainder followed by the digit x, whose quotient is one digit |
| IntConstDiv.DigitBound | src/ConstMult/IntConstDiv.cpp:178-190 | a remainder followed by a digit, divided by d, gives a quotient that fits one alpha-bit digit |
| IntConstDiv.TableInRange | src/ConstMult/IntConstDiv.cpp:178-179 | the table input built from a remainder and a digit never falls in the fatal range |
| IntConstDiv.LinearArchitecture | src/ConstMult/IntConstDiv.cpp:154-206 | the chain of tables from the most significant digit down outputs nbDigitsIn alpha-bit quotient digits whose value is X/d, and the last remainder X%d |
| IntConstDiv.TableOutput | src/ConstMult/IntConstDiv.cpp:186-187 | the q and r slices of a table output fit alpha and gamma bits |
| IntConstDiv.LinearStep | src/ConstMult/IntConstDiv.cpp:168-190 | one table of the chain extends the division of digits i+1 and up to the division of digits i and up |
| IntConstDiv.TableStep | src/ConstMult/IntConstDiv.cpp:178-187 | the table fed with r_(i+1) and x_i answers without error, its q slice adds the next quotient digit and its r slice is the remainder of the longer prefix |
| IntConstDiv.TableDecodes | src/ConstMult/IntConstDiv.cpp:186-187 | the q and r slices of the output equal the quotient digit and remainder of long division |
| IntConstDiv.Leaves | src/ConstMult/IntConstDiv.cpp:219-252 | level 0 gives each digit's own quotient and remainder |
| IntConstDiv.CombineLevel | src/ConstMult/IntConstDiv.cpp:256-309 | a level halves the block count, rounding up |
| IntConstDiv.Tree | src/ConstMult/IntConstDiv.cpp:256-310 | the levels above 0 leave at least one block from a non-empty digit list |
| IntConstDiv.LogarithmicAsWritten | src/ConstMult/IntConstDiv.cpp:212-320 | as written: whenever Q and R are driven from the signals the last level declared they carry the tree's result; with one digit there is no such level, and the model reports the undriven outputs as fatal |
| IntConstDiv.PairValue | src/ConstMult/IntConstDiv.cpp:270-273 | merging neighbours in pairs halves the block count, rounding up, and keeps the value the blocks spell |
| IntConstDiv.CombineDivides | src/ConstMult/IntConstDiv.cpp:262-309 | when every block holds the quotient and remainder of its value, so does every merged block of the next level |
| IntConstDiv.TreeDivides | src/ConstMult/IntConstDiv.cpp:256-310 | across all levels, every block holds the division of its value, the blocks spell the same value and their count halves at each level |
| IntConstDiv.LevelsEnough | src/ConstMult/IntConstDiv.cpp:214 | intlog2(2n-1) levels reduce n digits to one block |
| IntConstDiv.LogarithmicCorrect | src/ConstMult/IntConstDiv.cpp:209-320 | corrected: the logarithmic architecture, reading its last block, yields X/d and X%d for every input the digits cover, one digit included |
| IntConstDiv.TreeRoot | src/ConstMult/IntConstDiv.cpp:256-320 | the tree ends in exactly one block, holding X/d and X%d |
| IntConstDiv.LogarithmicAsWrittenSingleDigit | src/ConstMult/IntConstDiv.cpp:212-320 | the written logarithmic architecture fails exactly when the input has at most one digit, although the corrected one gives X/d and X%d there too |
| IntConstDiv.Emulate | src/ConstMult/IntConstDiv.cpp:339-350 | outputs Q, unless only the remainder is wanted, then R; R lies in [0, d) and Q*d+R is X |
| IntConstDiv.QuotientFits | src/ConstMult/IntConstDiv.cpp:196-197 | keeping qSize bits of the quotient loses nothing for a wIn-bit input |
| IntConstDiv.InputFits | src/ConstMult/IntConstDiv.cpp:148-150 | the nbDigitsIn digits cover every wIn-bit input |
| IntConstDiv.Operator | src/ConstMult/IntConstDiv.cpp:90-327 | fatal exactly for an unsupported architecture; otherwise both architectures output what emulate expects |
| IntMultiplier.UlpErrorClosed | src/IntMultiplier.cpp:144-150 | the error bound accumulated by the loop after i steps is i*2^(i+1)+1 |
| IntMultiplier.UlpErrorGrows | src/IntMultiplier.cpp:144-150 | the error bound is at least 2^i and needs more than i bits, so the guard-bit loop stops |
| IntMultiplier.NeededGuardBits | src/IntMultiplier.cpp:139-155 | no guard bits when the full product is kept; otherwise wX+wY-wOut-g is the first number of dropped columns whose error bound needs wX+wY-wOut bits |
| IntMultiplier.GuardBitsBounds | src/IntMultiplier.cpp:139-155 | with t truncated bits the guard-bit count lies in [1, t] |
| IntMultiplier.FirstReachedUnique | src/IntMultiplier.cpp:144-150 | the loop's stopping point is unique |
| IntMultiplier.Initialize | src/IntMultiplier.cpp:158-206 | fatal exactly on a negative width or an output wider than the full product; wOut 0 means the full product; the derived sizes are consistent (maxWeight = wOut + g, weightShift below it, wX >= wY) and the inputs are swapped exactly when Y is wider |
| IntMultiplier.RoundBit | src/IntMultiplier.cpp:525-533 | a round bit exactly when there are guard bits, placed one column below the result's LSB, inside the heap |
| IntMultiplier.LogicOnlySplit | src/IntMultiplier.cpp:566-580 | dx and dy share the LUT inputs with dy at most one more than dx; the chunks cover each input with less than one chunk of padding |
| IntMultiplier.CeilDivPad | src/IntMultiplier.cpp:574-579 | the padding of a ceiling division is below the chunk size |
| IntMultiplier.TableOperands | src/IntMultiplier.cpp:1061-1075 | the operands are the low dx bits and the upper bits of the input, read signed or unsigned, and each fits its width in two's complement |
| IntMultiplier.SmallMultTableExact | src/IntMultiplier.cpp:1061-1098 | when the table is as wide as the product, its value is the (negated) product of its operands written in two's complement |
| IntMultiplier.SmallMultTableRounds | src/IntMultiplier.cpp:1061-1098 | when the table is narrower, its value is the product rounded to nearest with ties up, which can reach 2^wOut |
| IntMultiplier.RoundHalfUpNearest | src/IntMultiplier.cpp:1085-1091 | adding half an ulp then shifting gives a value within half an ulp of the input, at most 2^w |
| IntMultiplier.RoundHalfUpFloor | src/IntMultiplier.cpp:1085-1091 | the rounded value is the floor or the floor plus one |
| IntMultiplier.TableProductFits | src/IntMultiplier.cpp:1070-1080 | the product of a dx-bit and a dy-bit operand, negated or not, fits dx+dy bits in two's complement |
| IntMultiplier.SmallMultTableCarries | src/IntMultiplier.cpp:1061-1098 | a one-bit table of the negated 1x1 product returns 2, which needs two bits |
| IntMultiplier.Emulate | src/IntMultiplier.cpp:1101-1141 | without truncation one expected value, the (negated) product modulo 2^wFull; with truncation two, the floor of the product at the output's ulp and the next value modulo 2^wOut |
| IntMultiplier.EmulateIs | src/IntMultiplier.cpp:1101-1141 | the expected values are the truncated product and its successor, or the full product |
| IntMultiplier.SmallMultiplierFaithful | src/IntMultiplier.cpp:331-345 | the smallest multipliers, one SmallMultTable fed YY & XX, output on wOut bits a value the test bench accepts |
| IntMultiplier.TableSeesOperands | src/IntMultiplier.cpp:187-200 | after the swap the table input YY & XX stands for the two declared operands, in one order or the other |
| IntMultiplier.TableOutputIs | src/IntMultiplier.cpp:331-345 | the table output is the full product, or the product rounded at the output's ulp |
| IntMultiplier.RoundedIsAccepted | src/IntMultiplier.cpp:1129-1139 | the rounded product modulo 2^wOut is the truncated product or its successor |
| IntMultiplier.InputPacks | src/IntMultiplier.cpp:337 | YY & XX unpacks into XX and YY |
| SignedIntMultiplier.OutputWidthHoldsProducts | src/SignedIntMultiplier.cpp:43-44 | the output R has wInX+wInY bits, enough for the largest product magnitude with a sign bit |
| SignedIntMultiplier.Emulate | src/SignedIntMultiplier.cpp:388-410 | the expected R is the product of the two's complement readings of X and Y, plus 2^wOut when it is negative; for inputs of their declared widths it lies in [0, 2^wOut) |
| SignedIntMultiplier.EmulateIsLow | src/SignedIntMultiplier.cpp:388-410 | for inputs of their declared widths, the expected R is the signed product modulo 2^wOut |
| SignedIntMultiplier.EmulateIsProduct | src/SignedIntMultiplier.cpp:388-410 | reading the expected R back in two's complement gives the signed product exactly |
| SignedIntMultiplier.ProductFitsIfInRange | src/SignedIntMultiplier.cpp:388-410 | the signed product lies in the output's range, and adding 2^wOut to a negative one is its two's complement encoding |
| SignedIntMultiplier.ProductFits | src/SignedIntMultiplier.cpp:43-61 | the signed product fits wInX+wInY bits in two's complement |
| SignedIntMultiplier.ReadsBack | src/SignedIntMultiplier.cpp:404-409 | a value in the w-bit signed range, written as itself or plus 2^w, reads back in two's complement as itself |
| SignedIntMultiplier.ChunkIndex | src/SignedIntMultiplier.cpp:201-210 | the least index whose width covers w, and None exactly when no table entry does |
| SignedIntMultiplier.ChunkIndexIsCeil | src/SignedIntMultiplier.cpp:188-210 | on the chunk-width tables the index is the number of extra chunks, the ceiling of (w - first)/step |
| SignedIntMultiplier.TablesAreChunkWidths | src/SignedIntMultiplier.cpp:188-199 | the l18 and l25 tables are one 18- or 25-bit chunk plus 17- or 24-bit ones |
| SignedIntMultiplier.Chunks | src/SignedIntMultiplier.cpp:201-210 | chunk indices exist exactly when the widths are at most 86 on the 18-bit side and 121 on the 25-bit side |
| SignedIntMultiplier.Cost | src/SignedIntMultiplier.cpp:212-214 | a DSP-block count exists for exactly the widths the tables cover |
| SignedIntMultiplier.ChunksCover | src/SignedIntMultiplier.cpp:188-246 | the padded widths are the tables' entries, hold the operands and exceed them by less than one chunk |
| SignedIntMultiplier.Orient | src/SignedIntMultiplier.cpp:201-246 | an orientation exists exactly when both widths are at most 86 |
| SignedIntMultiplier.OrientCovers | src/SignedIntMultiplier.cpp:226-246 | the chosen orientation pads each operand to a width that holds it |
| SignedIntMultiplier.OrientIsCheapest | src/SignedIntMultiplier.cpp:212-246 | the chosen orientation uses the fewer DSP blocks of the two, and swaps the operands exactly when swapping is strictly cheaper |
| SignedIntMultiplier.OrientExamples | src/SignedIntMultiplier.cpp:226-246 | a 30x40 product keeps its orientation, a 40x30 one swaps, both on 2x2 blocks |
| LZOC.OutputWidth | src/ShiftersEtc/LZOC.cpp:43-44 | wOut = intlog2(wIn) is the least width that can write wIn, so every count from 0 to wIn fits |
| LZOC.Leading | src/ShiftersEtc/LZOC.cpp:104-110 | the length of the longest prefix made of b only |
| LZOC.LeadingUnique | src/ShiftersEtc/LZOC.cpp:104-110 | any n with an all-b prefix of length n followed by a different bit (or the end) is that count |
| LZOC.LeadingPastPrefix | src/ShiftersEtc/LZOC.cpp:66-74 | when the first k bits all equal b, the count is k plus the count of the rest |
| LZOC.LeadingInPrefix | src/ShiftersEtc/LZOC.cpp:66-74 | when the first k bits do not all equal b, the count lies inside them |
| LZOC.Emulate | src/ShiftersEtc/LZOC.cpp:96-112 | the expected O is the number of leading bits of I, from its top bit down, equal to OZB: at most wIn, and the bit below the run differs from OZB |
| LZOC.TopLevel | src/ShiftersEtc/LZOC.cpp:52-57 | the first level is I, top bit first, padded with the complement of OZB up to 2^wOut bits |
| LZOC.Digits | src/ShiftersEtc/LZOC.cpp:60-88 | the digits of O, one per halving of the window, form a number below 2^i |
| LZOC.DigitsCount | src/ShiftersEtc/LZOC.cpp:60-88 | on a window of 2^i bits not all equal to OZB, the digits spell the count of leading OZB bits |
| LZOC.Hardware | src/ShiftersEtc/LZOC.cpp:43-88 | the hardware output fits wOut bits |
| LZOC.HardwareIsLeading | src/ShiftersEtc/LZOC.cpp:43-112 | the hardware output equals what emulate expects: the count of leading OZB bits, at most wIn |
| Table.Create | src/Table.cpp:56-79 | fatal exactly on a negative minIn or a maxIn that does not fit wIn bits; maxIn -1 stands for the largest wIn-bit input; the widths and minIn are kept |
| Table.FullMeansEveryInput | src/Table.cpp:73-76 | full holds exactly when the range holds every wIn-bit input |
| Table.EmptyRangeAccepted | src/Table.cpp:64-72 | a maxIn below -1 passes both checks and leaves the range empty |
| Table.OutputRows | src/Table.cpp:83-112 | fatal exactly when f is negative somewhere in the range; otherwise one row per input from minIn to maxIn in order, each keyed by its input on wIn bits and holding f on wOut bits (all ones when it does not fit), then a default row of wOut '-' |
| Table.EmitRow | src/Table.cpp:98-106 | fatal exactly on a negative f(x); otherwise the row for x |
| Table.RowIsFor | src/Table.cpp:98-106 | the digits printBinPosNumGMP and printBinNum write form the row for x |
| Table.AppendRow | src/Table.cpp:98-106 | appending the row for the next input keeps every row matched to its input |
| Table.KeysAscending | src/Table.cpp:98-106 | the keys of the rows are strictly ascending |
| Table.SizeInLUTs | src/Table.cpp:115-117 | at least wOut LUTs and at least enough LUT bits for the whole table, exactly enough when the table is at least as wide as a LUT, and one LUT per output bit when it is narrower |
| Utils.IntLog2 | src/utils.cpp:294-313 | the least r with 2^r above n: n < 2^r, and 2^(r-1) <= n for n >= 1; 0 for n < 1 |
| Utils.IntLog2Least | src/utils.cpp:304-313 | no width below intlog2(n) can hold n |
| Utils.IntLog2Unique | src/utils.cpp:304-313 | any r with 2^(r-1) <= n < 2^r is intlog2(n) |
| Utils.IntLog2Monotone | src/utils.cpp:304-313 | intlog2 is monotone |
| Utils.IntLog2Mpz | src/utils.cpp:304-313 | the mpz_class loop ends on the least r with 2^r above the number |
| Utils.IntLog2Double | src/utils.cpp:294-302 | the double loop ends on the least r with 2^r above the number, the intlog2 of its floor |
| Utils.IntPow2 | src/utils.cpp:276-282 | 2^power for power >= 0, 1 for power <= 0 |
| Utils.InvIntPow2 | src/utils.cpp:285-291 | the inverse of 2^minusPower for minusPower >= 0, 1 otherwise |
| Utils.GreedyBitsValue | src/utils.cpp:36-60 | the greedy digit loop writes an in-range number as digits whose binary value is that number |
| Utils.GreedyBitsSaturate | src/utils.cpp:36-60 | a number of at least 2^k - 1 comes out as k ones |
| Utils.UnsignedBinary | src/utils.cpp:36-60 | fatal exactly on a negative number; otherwise size binary digits |
| Utils.UnsignedBinaryRoundTrip | src/utils.cpp:36-60 | a number below 2^size is written as digits whose value is that number |
| Utils.UnsignedBinaryOfValue | src/utils.cpp:36-60 | writing the value of a binary string on its length gives the string back |
| Utils.UnsignedBinarySaturates | src/utils.cpp:231-259 | a number too large for size digits is written as all ones |
| Utils.PrintBinNum | src/utils.cpp:160-185 | fatal exactly for a size of 64 or more or a number that does not fit; otherwise size binary digits whose value is the number |
| Utils.PrintBinNumGMP | src/utils.cpp:214-226 | a '-' for a negative number and a blank otherwise, then size binary digits, whose value is the magnitude when it fits |
| UtilSollya.MakeIntPtrChainToFromBy | src/UtilSollya.cc:2-17 | n elements for n > 0 and none otherwise, the j-th being m - j*k |
| UtilSollya.ChainStep | src/UtilSollya.cc:8-14 | consecutive elements differ by exactly k |
| UtilSollya.RemoveTrailingZeros | src/UtilSollya.cc:18-32 | corrected: a prefix of the input, non-empty for a non-empty input, after which only '0' follows; it ends in '0' only when the input is all zeros, and then it is a single '0' |
| UtilSollya.RemoveTrailingZerosIdempotent | src/UtilSollya.cc:18-32 | removing trailing zeros twice is removing them once |
| UtilSollya.RemoveTrailingZerosIsLastNonZero | src/UtilSollya.cc:18-32 | the result ends at the last character other than '0', or after the first character when there is none |
| UtilSollya.RemoveTrailingZerosAsWritten | src/UtilSollya.cc:18-32 | as written: on a non-empty input the corrected result; on an empty input the output is whatever the output buffer held at position 0 |
| UserDefinedOperator.Ports | src/UserDefinedOperator.cpp:55-62 | the three inputs have param0 bits and the only output is S with param1 bits |
| UserDefinedOperator.SumsFit | src/UserDefinedOperator.cpp:91-94 | X+Y fits the param0+1 bits of T and X+Y+Z the param0+2 bits of R |
| UserDefinedOperator.EmulatedValue | src/UserDefinedOperator.cpp:107-116 | the sum modulo 2^param1 plus the sum's bit param0+1 at weight 1, at most 2^param1 |
| UserDefinedOperator.TopBit | src/UserDefinedOperator.cpp:116 | dividing the sum by 2^(param0+1) extracts its top bit |
| UserDefinedOperator.Architecture | src/UserDefinedOperator.cpp:91-99 | S is R's top bit above R's param1 low bits: a value below 2^(param1+1), one bit wider than the declared port |
| UserDefinedOperator.ArchitectureVersusEmulate | src/UserDefinedOperator.cpp:91-116 | the architecture and emulate agree exactly when the sum's top bit is clear or param1 is 0 |
| UserDefinedOperator.EmulateAligned | src/UserDefinedOperator.cpp:91-116 | corrected: emulate with the top bit at weight 2^param1, recorded under S, equals the architecture's value, and differs from emulate as written exactly when the top bit is set and param1 is positive |
| UserDefinedOperator.EmulateAsWritten | src/UserDefinedOperator.cpp:103-121 | as written: the expected value is recorded under a name that is none of the operator's ports |
| UserDefinedOperator.Emulate | src/UserDefinedOperator.cpp:103-121 | corrected: the same value recorded under the output port S |
| UserDefinedOperator.EmulateCorrectsName | src/UserDefinedOperator.cpp:120 | the written and corrected emulations expect the same value under different names |
| Field.FreeInRowMark | src/IntMult/Field.cpp:86-89 | marking a cell lowers the row's free count by one exactly when the cell was free |
| Field.FreeCellsReplace | src/IntMult/Field.cpp:83-91 | replacing a row changes the board's free count by the difference of the two rows' counts |
| Field.New | src/IntMult/Field.cpp:5-15 | a valid board of the given size with every cell free, wX*wY cells missing and the cursor at (0, 0) |
| Field.Reset | src/IntMult/Field.cpp:36-45 | reset gives back exactly the board the constructor builds, whatever the board held |
| Field.SetCursorAsWritten | src/IntMult/Field.cpp:158-169 | as written: only the cursor changes; a coordinate up to the board's width or height is kept, so the cursor can sit on the right or bottom edge, outside the board |
| Field.SetCursorAsWrittenLeavesBoard | src/IntMult/Field.cpp:128-169 | setCursor(wX, 0) leaves a cursor where getMissingHeight reads a column that does not exist, and setCursor(0, wY) one where getMissingLine reads a missing row |
| Field.SetCursor | src/IntMult/Field.cpp:158-169 | corrected: only the cursor changes; a coordinate on the board is kept and any other is reset to 0, so on a non-empty board the cursor lies on it |
| Field.SetCursorKeepsReadsOnBoard | src/IntMult/Field.cpp:128-169 | with the corrected guards both getMissingLine and getMissingHeight read only cells of the board |
| Field.IsFull | src/IntMult/Field.cpp:120-122 | missing == 0 holds exactly when every cell is covered |
| Field.NoneFreeIsFull | src/IntMult/Field.cpp:120-122 | a board has no free cell exactly when every cell is covered |
| Field.FootprintMember | src/IntMult/Field.cpp:48-69 | the footprint a placement visits holds exactly the cells the tile's shape covers inside the board |
| Field.FootprintBound | src/IntMult/Field.cpp:48-69 | a footprint has at most as many cells as the tile's rectangle |
| Field.FootprintFull | src/IntMult/Field.cpp:48-69 | a full-shape tile wholly inside the board covers its whole rectangle |
| Field.CheckTilePlacement | src/IntMult/Field.cpp:47-75 | 0 when a cell of the footprint is already covered, and otherwise the number of cells of the footprint |
| Field.CheckRow | src/IntMult/Field.cpp:56-68 | a row is free exactly when no cell the tile covers in it is taken; otherwise the returned column is a covered, taken cell |
| Field.MarkRow | src/IntMult/Field.cpp:84-90 | the row afterwards holds its old cells plus the tile's cells, and the free count drops by the number marked |
| Field.PlaceTileInField | src/IntMult/Field.cpp:77-100 | the board stays valid (missing still counts the free cells); a cell is covered afterwards exactly when it was before or the tile covers it; the returned cursor is the first free cell from the old cursor's row on |
| Field.UpdatePosition | src/IntMult/Field.cpp:102-118 | only the cursor moves, to the first free cell in reading order from the cursor's row on, or to (0, 0) when there is none |
| Field.NextFreeUnique | src/IntMult/Field.cpp:102-118 | the position updatePosition picks is determined by the board |
| Field.CursorOnFreeCell | src/IntMult/Field.cpp:102-122 | on a board that is not full, a scan from the first row lands on a free cell |
| Field.GetMissingLine | src/IntMult/Field.cpp:128-139 | the length of the run of free cells from the cursor rightwards, ending at a covered cell or the board's edge |
| Field.GetMissingHeight | src/IntMult/Field.cpp:141-152 | the length of the run of free cells from the cursor downwards, ending at a covered cell or the board's edge |
| BaseMultiplierCategory.TileXWordSize | src/IntMult/BaseMultiplierCategory.hpp:53-56 | the tile's x extent is one of the multiplier's two sizes, the y size when flipped |
| BaseMultiplierCategory.TileYWordSize | src/IntMult/BaseMultiplierCategory.hpp:53-56 | the tile's y extent is one of the multiplier's two sizes, the x size when flipped |
| BaseMultiplierCategory.FlipTransposes | src/IntMult/BaseMultiplierCategory.hpp:53-56 | flipping swaps the tile's extents, keeps the multiplier sizes and the covered area, and is undone by flipping again |
| BaseMultiplierCategory.NewCategory | src/IntMult/BaseMultiplierCategory.hpp:23-39 | an unflipped wX by wY tile; the largest input sizes are wX and wY, their sum bounds the input sizes' sum, and the signed width delta is 0 |
| BaseMultiplierCategory.Area | src/IntMult/BaseMultiplierCategory.hpp:101 | the area is the tile's rectangle, flipped or not |
| BaseMultiplierCategory.FLessStrict | src/IntMult/BaseMultiplierCategory.hpp:103-104 | the comparison of single-precision efficiencies is irreflexive, transitive and asymmetric, NaN included |
| BaseMultiplierCategory.Efficiency | src/IntMult/BaseMultiplierCategory.hpp:103-104 | finite exactly for a non-zero cost, and then area divided by cost; infinite exactly for a zero cost and a non-empty tile; positive for a positive cost and a non-empty tile |
| BaseMultiplierCategory.EfficiencyMonotone | src/IntMult/BaseMultiplierCategory.hpp:101-104 | at equal positive cost a larger tile is at least as efficient |
| DSP.AllocatePositions | src/Targets/DSP.cpp:56-62 | arrays of dimension slots with an empty list and both cursors at 0 |
| DSP.Push | src/Targets/DSP.cpp:64-101 | a position already listed, or a push into full arrays, changes nothing; otherwise the list becomes the old list with the position inserted before its first later entry, the slots past the list are untouched and the pop cursor is kept |
| DSP.FindSlot | src/Targets/DSP.cpp:66-74 | the scan reports whether the position is listed, and otherwise the index of the first entry after it |
| DSP.FirstAfter | src/Targets/DSP.cpp:68-71 | the index of the first entry after v: every entry before it is not after v, and the entry there is |
| DSP.ShiftIn | src/Targets/DSP.cpp:80-98 | the moves of push put v at slot p, move the entries from p up by one slot and leave the other slots alone |
| DSP.InsertKeepsAscending | src/Targets/DSP.cpp:64-101 | inserting a new position into a strictly ascending list keeps it strictly ascending and adds exactly that position |
| DSP.PushKeepsAscending | src/Targets/DSP.cpp:64-101 | a push keeps the list strictly ascending whether or not it changes it |
| DSP.Pop | src/Targets/DSP.cpp:103-115 | -1 and no change exactly when the pop cursor has reached the end of the list; otherwise the cursor's index, and the cursor advances by one |
| DSP.Pops | src/Targets/DSP.cpp:103-115 | k successive pops give k indices |
| DSP.PopsInOrder | src/Targets/DSP.cpp:103-129 | successive pops hand out the slots of the list in order from the pop cursor, then -1 |
| DSP.AfterPops | src/Targets/DSP.cpp:103-115 | pops move only the pop cursor |
| DSP.SetPosition | src/Targets/DSP.cpp:117-124 | a slot index below maxPos becomes the list's length and the push cursor; any other index changes nothing; the slots and the pop cursor are kept |
| DSP.SetPositionKeepsAscending | src/Targets/DSP.cpp:117-124 | cutting the list short keeps a prefix of it, still strictly ascending |
| DSP.ResetPosition | src/Targets/DSP.cpp:126-129 | only the pop cursor changes, to 0 |
| DSP.Live | src/Targets/DSP.cpp:56-101 | the list has availablepos entries |
| DSP.Rotate | src/Targets/DSP.cpp:231-246 | width and height swap, the top-right corner stays, and the corners span the new width and height |
| DSP.RotateTwice | src/Targets/DSP.cpp:231-246 | rotating a block that spans its rectangle twice gives it back |
| TilingStrategyGreedy.InsertBy | src/IntMult/TilingStrategyGreedy.cpp:43-49 | inserting adds exactly the one element to the list's contents |
| TilingStrategyGreedy.InsertBySorted | src/IntMult/TilingStrategyGreedy.cpp:43-49 | inserting into a list sorted by a strict order keeps it sorted |
| TilingStrategyGreedy.SortBy | src/IntMult/TilingStrategyGreedy.cpp:43-49 | the result is a permutation of the input, sorted by the comparator: no element is placed after one it must precede |
| TilingStrategyGreedy.ComparatorsAreStrict | src/IntMult/TilingStrategyGreedy.cpp:43-49 | the three comparators (narrower y, narrower x, more efficient) are strict orders, NaN efficiencies included |
| TilingStrategyGreedy.FirstLUTTile | src/IntMult/TilingStrategyGreedy.cpp:53-59 | the index of the first tile without DSP cost: every tile before it uses DSP blocks |
| TilingStrategyGreedy.VariableTilesBeforeFirstLUTTile | src/IntMult/TilingStrategyGreedy.cpp:52-60 | the kx2 and 2xk tiles land just before the first LUT-only tile, and the list is unchanged when there is none |
| TilingStrategyGreedy.NewStrategy | src/IntMult/TilingStrategyGreedy.cpp:31-60 | the base tiles are permuted into decreasing efficiency; with 2xk tiles on, the two unbounded variable tiles are added to their lists, which are sorted by height and width, and inserted between the DSP tiles and the LUT-only tiles; the other settings are kept |
| TilingStrategyGreedy.LowerBound | src/IntMult/TilingStrategyGreedy.cpp:102-107 | the binary search's result splits an ascending list into keys below v and keys at least v |
| TilingStrategyGreedy.FirstAtLeast | src/IntMult/TilingStrategyGreedy.cpp:102-114 | a tile is found exactly when some key reaches v, and then it is a listed tile whose key reaches v and is the least such key |
| TilingStrategyGreedy.SortedIsAscending | src/IntMult/TilingStrategyGreedy.cpp:38-46 | the constructor's sorting makes the variable-tile lists valid for lower_bound |
| TilingStrategyGreedy.FindVariableTile | src/IntMult/TilingStrategyGreedy.cpp:100-134 | for height 2, the narrowest kx2 tile at least wX wide, null exactly when none is; else for width 2, the lowest 2xk tile at least wY high, null exactly when none is; null for any other shape |
| TilingStrategyGreedy.VariableLookupSucceeds | src/IntMult/TilingStrategyGreedy.cpp:38-134 | with the unbounded variable tiles added, every lookup up to INT32_MAX finds a tile |
| TilingStrategyGreedy.Usage | src/IntMult/TilingStrategyGreedy.cpp:216 | the share of a tile's area a placement covers is non-negative, and positive when it covers something |
| TilingStrategyGreedy.Scale | src/IntMult/TilingStrategyGreedy.cpp:231 | scaling a non-negative efficiency by a non-negative share stays non-negative; an infinite efficiency stays infinite |
| TilingStrategyGreedy.Consider | src/IntMult/TilingStrategyGreedy.cpp:156-249 | one iteration: a tile is taken or ends the search only when it passes the DSP budget, space, placement and occupation checks; a taken tile scores no less than the best so far; a variable tile is tried only while no tile has scored, and it is the one findVariableTile returns; every other tile is skipped; with no score yet, a passing tile is taken |
| TilingStrategyGreedy.SelectTile | src/IntMult/TilingStrategyGreedy.cpp:147-250 | the chosen tile is a scored tile that passed the checks (a DSP tile only under the budget and at the occupation threshold), a variable tile for a free run long enough, or otherwise the last tile of the catalogue, which is kept only when every passing tile was a variable one |
| TilingStrategyGreedy.BudgetIsEveryTotal | src/IntMult/TilingStrategyGreedy.cpp:264-301 | a charge sequence stays within budget exactly when every running total stays at or below cmpCost |
| TilingStrategyGreedy.BudgetAppend | src/IntMult/TilingStrategyGreedy.cpp:264-301 | charging two sequences one after the other stays within budget exactly when each part does, from its own starting total |
| TilingStrategyGreedy.BudgetStep | src/IntMult/TilingStrategyGreedy.cpp:266-269 | one more charge stays within budget exactly when the new total does |
| TilingStrategyGreedy.Charge | src/IntMult/TilingStrategyGreedy.cpp:266-269 | adds the cost to the total, and reports going over the budget exactly when the new total exceeds cmpCost |
| TilingStrategyGreedy.ChargedStep | src/IntMult/TilingStrategyGreedy.cpp:256-277 | a LUT-only tile adds its cost and its area, a DSP tile adds one block to the list |
| TilingStrategyGreedy.LUTCostsAppend | src/IntMult/TilingStrategyGreedy.cpp:256-277 | the LUT costs of two runs of placements are the costs of each, in order |
| TilingStrategyGreedy.ChargeTiles | src/IntMult/TilingStrategyGreedy.cpp:256-277 | the run fails exactly when a running total of LUT costs exceeds the budget; otherwise the cost and area grow by the LUT tiles' costs and areas, and the DSP blocks are collected in order when super tiles are on |
| TilingStrategyGreedy.RemoveKeepsIndexMap | src/IntMult/TilingStrategyGreedy.cpp:365 | erasing an entry keeps the remaining blocks an in-order selection of the original ones |
| TilingStrategyGreedy.KeepStep | src/IntMult/TilingStrategyGreedy.cpp:370-372 | keeping an unpaired block extends the kept list as an in-order selection |
| TilingStrategyGreedy.MergeStep | src/IntMult/TilingStrategyGreedy.cpp:356-367 | merging block i with a later block j removes j and keeps the bookkeeping of the pass |
| TilingStrategyGreedy.NoSuperTileInherited | src/IntMult/TilingStrategyGreedy.cpp:319-373 | when no pair of the original blocks forms a super tile, no pair of a selection of them does |
| TilingStrategyGreedy.FullSubsequence | src/IntMult/TilingStrategyGreedy.cpp:319-373 | an in-order selection as long as the original is the original |
| TilingStrategyGreedy.BaseCoord | src/IntMult/TilingStrategyGreedy.cpp:330-332 | the base coordinate is the corner-wise minimum of the two blocks' coordinates |
| TilingStrategyGreedy.FindPartner | src/IntMult/TilingStrategyGreedy.cpp:325-368 | the first later block that forms a super tile with block i, every block between them forming none, or the end of the list |
| TilingStrategyGreedy.PerformSuperTilePass | src/IntMult/TilingStrategyGreedy.cpp:312-376 | fails exactly when a running total of super-tile costs exceeds the budget; on success the kept blocks are an in-order selection of the blocks, two blocks gone per super tile, all blocks kept when no super tile forms, which is certain when no pair forms one |
| TilingStrategyGreedy.ChargeBlocks | src/IntMult/TilingStrategyGreedy.cpp:289-302 | the remaining DSP blocks' costs are charged in order, stopping at the first total over budget; success means every block was charged |
| TilingStrategyGreedy.ChargeSuperTiles | src/IntMult/TilingStrategyGreedy.cpp:283-303 | fails exactly when a running total exceeds the budget; when no super tile forms, success charges each DSP block's cost in order |
| TilingStrategyGreedy.GreedySolution | src/IntMult/TilingStrategyGreedy.cpp:136-310 | fails exactly when a running total of the charges exceeds the budget, leaving cost and area unchanged; on success cost grows by the charges and area by the LUT tiles' area; the LUT tiles' costs come first among the charges, and are all of them without super tiles |

## Left out

- VHDL text: generating operator text, signal declarations and component instantiation is left out. Only the control decisions and the values the text would compute are modelled (the rows written, the ports declared, the bits consumed and produced).
- I/O, logging (`REPORT`), `cerr` messages and the random-number and GMP interfaces are left out. A fatal path is a `Fatal` result carrying its message.
- Floating point is modelled as exact reals, and single-precision rounding is not modelled. This affects the critical paths, the delays, the efficiencies and the 0.0001 margin of the Parandeh-Afshar search.
- Target-dependent oracles are parameters, not code. They are the adder and compressor delays, `manageCriticalPath`, `tryDSPExpand`, `getLUTCost`, `superTileSubtitution`, `checkTilePlacement` inside the greedy loop, and the BaseMultiplierXilinx2xk variable tiles. Their source files are not part of this model.
- BitheapNew (the heap of the second-generation strategies) is not part of this model. Its `applyCompressor`, `removeCompressedBits` and `compressionRequired` are modelled from their declarations and uses: compressed bits are removed, outputs are added as free bits, and `compressionRequired` is a parameter.
- BasicCompressor is not part of this model. A compressor's output count is intlog2(col0 + 2·col1), the width needed for the largest count of ones its inputs can hold.
- The solution and path lists the strategies record for later VHDL generation are left out.
- The board interaction of the main loop of greedySolution is not modelled. It covers which cell the cursor reaches and which tile `checkTilePlacement` accepts. Its decisions (the DSP skip, the occupation threshold and the cost bail-out) are modelled over the tile the loop considers.
- DSP: the constructor, the plain getters and setters, and the other fields of a DSP block are left out. A negative argument to setPosition is not modelled (the position is a `nat`), and neither is any use of the position arrays before allocatePositions.
- Unsigned overflow of wX*wY in the Field constructor, and of `1 << wIn` in Table, is not modelled. Table.Create requires wIn <= 30, the range where the source's `int` shift is defined.
- printField and the Field copy constructor are left out: one is output only, the other a plain copy.
- UtilSollya.MakeIntPtrChainToFromBy: the running value is an unbounded integer, so the `int` wrap-around of m - i·k is not modelled.
- UserDefinedOperator.Architecture: the VHDL slice `R(param1-1 downto 0)` would read past R when param1 > param0 + 2. The model instead takes the low param1 bits of the sum.
- Undefined behaviour is left out. This covers `removeBit` on an empty column, reads past a column's end and uninitialised bit pointers. The model's preconditions exclude these cases, or the model's result is `Fatal`; each member's contract says which. Where a finding below corrects a member, the rest of the model runs the corrected one: CompressionStrategy.Compress and Rounds use GetSoonestBit and CanApplyCompressor (rows 1 and 2), XilinxThreeLevels uses SkipToThree (row 4), and BuildChain, hence CompressStage.Compress, uses LatestByStamp (row 5).
- BitHeapStore.AddSignedBitVector: requires a vector of at least one bit, since a signed vector needs a sign bit. The source's size-0 call, which adds no bit of x and only the ones from weight-1 (none when weight is 0), is not modelled.
- CompressTernary.BuildChain: picks the chain's latest consumed bit by timestamp (the corrected LatestByStamp of Findings row 5), not by the source's pointer comparison.
- CompressStage.Compress: its ternary chains use the corrected LatestByStamp of Findings row 5. The stated fatal causes are necessary conditions; which one fires first depends on the scan order.
- XilinxLevels.XilinxThreeLevels: bounds the skip after a full adder at maxWeight (the corrected SkipToThree of Findings row 4), where the source's scan can run off its array. Its contract does not give the fatal cases of the run adders in closed form; LevelsStep states them turn by turn.
- CompressorVhdl.CompressAndAdd: runs the corrected members of Findings rows 4 and 5 through the stages and the Xilinx pass.
- CompressorVhdl.GenerateCompressorVHDL: runs the corrected members of Findings rows 4 and 5 through CompressAndAdd. It follows the source as written on a heap with no bits: it returns nothing even when the constant is non-zero, so its result does not stand for such a heap's value (Findings row 11; CompressorVhdl.GenerateKeepingConstant is the corrected form).
- currentHeight is a plain accessor (`BitHeapStore.CurrentHeight`) and carries no contract of its own.
- Fuel bounds: CompressorVhdl.CompressStages, ParandehAfshar.PlaceAll, ParandehAfshar.Stages and CompressionStrategy.Rounds each take a `fuel` bound and report running out of it. The source loops have no such bound, so a run that exhausts the fuel says nothing about the source.
- BitHeapReduce.ApplyCompressor3_2: the search of the catalog for the (3,2) compressor is not modelled. The full adder is used directly, since generation fails when the catalog lacks it.
- SignedIntMultiplier.Orient: the Virtex5/6 chunk tables end at 86 bits on the 18-bit side and 121 on the 25-bit side. Wider inputs read past the tables in the source and are `None` here.
- IntConstDiv: the widths of the intermediate quotient signals, including their truncation cases, are left out. So is the `int` overflow of `1 << (alpha+gamma)`. The recurrences are modelled on exact quotients.
- Concurrency: there is none in the core.

## Findings

| source | as written | input that shows it | evidently intended | confidence | as-written member | corrected member |
|---|---|---|---|---|---|---|
| src/BitHeap/CompressionStrategy.cpp:103-139 | getSoonestBit starts from the first bit of the first non-empty column, read even when the range holds no bit, and keeps it even when it is not free | a heap of one empty column; a column whose compressed first bit is followed by a free one | null when no bit is available, as the header's contract says, and otherwise the soonest free bit | not executed | CompressionStrategy.SoonestAsWrittenCounterexample | CompressionStrategy.GetSoonestBit |
| src/BitHeap/CompressionStrategy.cpp:148-178 | canApplyCompressor rejects only compressorNumber > size, and a non-free bit hits `continue` without advancing the index | compressor index 7 of the seven-entry catalog; a compressed bit at the front of a column | reject index == size; skip the non-free bit | not executed | CompressionStrategy.CanApplyAsWrittenCounterexample | CompressionStrategy.CanApplyCompressor |
| src/BitHeap/CompressionStrategy.cpp:46-57 | compress is called with the member compressionDelay, not the widened delay, so widening the delay has no effect | a heap where nothing applies within the compressor delay but the full adder applies within one clock period | compress uses the delay it is handed, so the widened delay lets the loop progress | not executed | CompressionStrategy.StallCounterexample | CompressionStrategy.StartCompression |
| src/BitHeap.cpp:943-947 | the scan for the next column with three bits has no upper bound | column heights [3, 0], scanning after column 0 | stop at maxWeight + 1 as the other scans do | not executed | XilinxLevels.SkipAsWrittenCounterexample | XilinxLevels.SkipToThree |
| src/BitHeap.cpp:1898-1926 | the latest consumed bit of the ternary chain is chosen by comparing bit pointers | a sorted heap where a later bit sits at a lower address | compare the bits' timestamps | not executed | CompressTernary.LatestByAddressCounterexample | CompressTernary.LatestByStamp |
| src/ConstMult/IntConstDiv.cpp:212-320 | the logarithmic architecture assigns Q and R from signal names set only inside the level loop | wIn <= alpha (a single input digit) | take Q and R from the single table | not executed | IntConstDiv.LogarithmicAsWrittenSingleDigit | IntConstDiv.LogarithmicCorrect |
| src/UtilSollya.cc:18-32 | removeTrailingZeros ends the output one past the last non-'0' position, which starts at position 0, so for an empty input position 0 keeps whatever the output buffer held | an empty input with an output buffer holding 'x' gives "x" | an empty output | not executed | UtilSollya.RemoveTrailingZerosAsWritten | UtilSollya.RemoveTrailingZeros |
| src/UserDefinedOperator.cpp:120 | emulate records its expected value under "R" while the output port is "S" | any X, Y, Z | record it under "S" | not executed | UserDefinedOperator.EmulateAsWritten | UserDefinedOperator.EmulateCorrectsName |
| src/IntMult/Field.cpp:158-169 | setCursor resets a coordinate only when it is above the board's width or height (`>`) | setCursor(wX, 0) | reset a coordinate that is off the board (`>=`) | not executed | Field.SetCursorAsWrittenLeavesBoard | Field.SetCursorKeepsReadsOnBoard |
| src/UserDefinedOperator.cpp:91-116 | the architecture drives the sum's top bit above the param1 low bits (weight 2^param1, on a port declared param1 bits wide), while emulate adds that bit at weight 1 | param0 = param1 = 2 and X = Y = Z = 3: the sum is 9, the architecture drives 5, emulate expects 2 | emulate places the top bit where the architecture does, at weight 2^param1 | not executed; the operator is a template, so either side may be the one meant | UserDefinedOperator.ArchitectureVersusEmulate | UserDefinedOperator.EmulateAligned |
| src/BitHeap.cpp:805-816 | generateCompressorVHDL returns on a heap with no bits before the constant is made into bits, so a heap holding only a constant produces no result | maxWeight 20, no bits, constant 5 | make the constant into bits first, so that the heap is copied into a result whose value is 5 | not executed | CompressorVhdl.ConstantOnlyAsWritten | CompressorVhdl.ConstantOnlyCorrected |
