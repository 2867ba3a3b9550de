# Karnaugh map minimiser — verified model of the solving core

Karnaugh Map Minimizer is a desktop tool. It simplifies a Boolean function of up to eight
inputs, shown as a Karnaugh map, into a sum of products (SOP) or a product of sums (POS).
This project models the tool's solving core in Dafny and proves what each part promises.

- **Solution entries** (`SolutionEntries`, `solution_entry.dfy`). An entry is a subcube given
  by a mask and a number, plus a delete mark. The model covers the masked XOR, the merge of
  two entries one bit apart, the delete mark, `==` and `!=`, and the list of covered
  addresses. `src/karnaughdata.cpp:25-79` holds an identical copy of this class, so the one
  module serves both. `==` compares mask and number and ignores the mark. `!=` is its
  negation (`src/solutionentry.h:41`); it is modelled as `NotEqual`.
- **The current engine** (`DataEngine`, `karnaugh_data.dfy`, with `Reduction`, `GrayCode`
  and `BinaryDigits`). `KarnaughData` is a class over a 256-cell array with an input count
  and a solution type. It covers:
  - the Gray-coded cell address and its inverse search, including the `-1` sentinel;
  - the binary-vector and Gray-label conversions and the row and column labels;
  - the reduction pass `FindSolution`;
  - the brute-force search over don't-care scenarios, `FindBestSolution`.
- **The legacy solver** (`MapEngine`, `karnaugh_map.dfy`, with `KarnaughNodes`).
  `KarnaughMap` is a class whose maps from (column, row) to value, don't-care mark and
  address are `map` fields. `Solve2` seeds one-cell blocks, joins blocks into blocks twice
  the size, deletes marked blocks, then deletes blocks the others make redundant. `Solve`
  tries every assignment of the don't-care cells. It keeps the solution with the fewest
  blocks and, among those, the first with the most `2` digits.
- **The solution text** (`TreeLabels`, `solution_tree.dfy`). This is the string logic of
  `SolutionTree`: the root label `X = `, one term per entry (letters, `'` for complemented
  inputs, `+` between SOP literals), and the SOP/POS glue between terms.

All unsigned arithmetic is on `nat` restricted to 32 bits (`Bits.U32`). `&`, `^`, `& ~`,
`<<` and `>>` are defined bit by bit in `Bits`. A wrap-around is written out where the
source can produce one (`calc_address`, `numberOfDCares++`).

The model follows the code in these places:

- `set_dimension` stores the input count without clamping.
- `set_value` does no bounds check, so the model needs the address to lie in the table.
- In SOP form, `AddItem` puts `+` between the literals of one term and ` + ` between terms.
- When every cell is equal and nonzero, the single block `Solve2` builds has
  `width * height` digits, all `2` (one per cell, not one per input).
- That uniform block is declared as `KarnaughNode n;` (`src/karnaughmap.cpp:167`) and its
  `flag` is never assigned; the struct (`src/karnaughmap.h:32-36`) gives it no initial
  value, so the source leaves it indeterminate. Nothing reads it afterwards, and the model
  sets it to `false`, as the joining code does for every block it creates.
- When POS form has no zero cell, `FindBestSolution` seeds the whole-table entry (0, 0).
- An empty best list is always replaced by a later scenario's list.

## Model

| member | source | states |
|---|---|---|
| SolutionEntries.NewEntry | src/solutionentry.cpp:24-29 | the constructed entry has the given mask and number and is not marked |
| SolutionEntries.SolutionEntry.ComputeXOR | src/solutionentry.cpp:36-39 | the masked XOR only has bits inside the entry's mask |
| SolutionEntries.ComputeXorSymmetric | src/solutionentry.cpp:36-39 | with equal masks the XOR does not depend on the order of the pair |
| SolutionEntries.ComputeXorZero | src/solutionentry.cpp:31-39 | with equal masks the XOR is 0 exactly when the entries are `==` |
| SolutionEntries.SolutionEntry.ComputeNewEntry | src/solutionentry.cpp:41-47 | mask and number lose the XOR bits; the new mask is a sub-mask of the old; the entry is unmarked |
| SolutionEntries.MergeCovers | src/solutionentry.cpp:41-47 | merging two well-formed entries one bit apart covers an address exactly when one parent does |
| SolutionEntries.MergeShrinks | src/solutionentry.cpp:41-47 | the merged entry is well formed and has one mask bit fewer |
| SolutionEntries.MergeLevel | src/solutionentry.cpp:41-47 | whatever the numbers, a merge clears exactly one mask bit |
| SolutionEntries.MergeAddresses | src/solutionentry.cpp:64-73 | the merged entry's address list is the union of its parents' lists |
| SolutionEntries.SolutionEntry.MarkForDeletion | src/solutionentry.cpp:49-52 | the entry is marked and keeps its mask and number |
| SolutionEntries.MarkForDeletionIdempotent | src/solutionentry.cpp:49-62 | marking twice is marking once; a marked entry is still `==` to the original |
| SolutionEntries.DeleteMarkIsMarking | src/solutionentry.cpp:54-57 | `IsDeleted` holds exactly when marking the entry changes nothing; a new entry is not marked |
| SolutionEntries.EqualIgnoresMark | src/solutionentry.cpp:59-62 | `==` holds exactly when the entries differ at most in the delete mark; it is reflexive, symmetric and transitive |
| SolutionEntries.NotEqualDiffers | src/solutionentry.h:41 | `!=` holds exactly when mask or number differ; never between an entry and itself or its marked copy |
| SolutionEntries.MaskEqualFixesSameInputs | src/solutionentry.cpp:31-34 | equal masks are masks with the same bits, i.e. they fix the same inputs; `==` implies them; they are an equivalence |
| SolutionEntries.SolutionEntry.GetAddresses | src/solutionentry.cpp:64-73 | the loop returns the covered addresses below `max_address` in ascending order |
| SolutionEntries.AddressesBelowSpec | src/solutionentry.cpp:64-73 | an address is listed iff it is below the maximum and `(a & mask) == number`; the list is strictly ascending |
| SolutionEntries.NoAddressesUnlessWellFormed | src/solutionentry.cpp:64-73 | an entry fixing a bit outside its mask lists no address |
| GrayCode.GrayEncode | src/karnaughmap.cpp:359-362 | the Gray code `x ^ (x >> 1)`, at most `x + x / 2`; `GrayRoundTrip` and `GrayEncodeOfDecode` prove `GrayDecode` its inverse, `GrayAdjacent` that consecutive numbers' codes differ in one bit (the same encoder is `src/karnaughdata.cpp:141-144`) |
| GrayCode.GrayRoundTrip | src/karnaughdata.cpp:141-144 | decoding the Gray code gives back the number |
| GrayCode.GrayEncodeOfDecode | src/karnaughdata.cpp:141-144 | encoding the decoded value gives back the code |
| GrayCode.GrayInjective | src/karnaughdata.cpp:141-144 | distinct numbers have distinct Gray codes |
| GrayCode.GrayBelow | src/karnaughdata.cpp:141-144 | a number below `2^k` has a Gray code below `2^k` |
| GrayCode.GrayAdjacent | src/karnaughdata.cpp:141-144 | `x` and `x + 1` have Gray codes differing in exactly one bit, bit `TrailingOnes(x)` |
| GrayCode.CellAddressJoin | src/karnaughdata.cpp:114-117 | inside the grid of at most 32 inputs the 32-bit sum does not wrap and lies below `2^n` |
| GrayCode.GridOfAddress | src/karnaughdata.cpp:114-117 | the row and column decoded from a cell's address are that cell's |
| GrayCode.CellAddressInjective | src/karnaughdata.cpp:114-117 | distinct grid cells have distinct addresses |
| GrayCode.AddressOfGrid | src/karnaughdata.cpp:119-139 | every address below `2^n` is the address of a grid cell, the one it decodes to |
| DataEngine.KarnaughData.constructor | src/karnaughdata.cpp:88-93 | 256 ZERO cells, the given input count, SOP mode |
| DataEngine.KarnaughData.SetValue | src/karnaughdata.cpp:95-98 | exactly the addressed cell changes, to the new value |
| DataEngine.KarnaughData.SetDimension | src/karnaughdata.cpp:100-106 | the input count is stored unclamped, every cell becomes ZERO, the mode is kept |
| DataEngine.KarnaughData.SetSolutionType | src/karnaughdata.cpp:108-111 | the mode is stored and the input count kept |
| DataEngine.KarnaughData.CalcAddress | src/karnaughdata.cpp:114-117 | for a grid cell of at most 32 inputs the address is below `2^n` and decodes back to the cell |
| DataEngine.KarnaughData.CalcRow | src/karnaughdata.cpp:119-128 | the row of the first matching cell the loops visit in row-major order, or `-1` when none matches; for at most 32 inputs, the decoded row below `2^n` and `-1` from `2^n` up; from 61 inputs, where the column bound `1 << 31` is negative, always `-1` |
| DataEngine.KarnaughData.CalcCol | src/karnaughdata.cpp:130-139 | as `CalcRow`, for the column, including `-1` for every address from 61 inputs on |
| DataEngine.FirstMatchIsDecoded | src/karnaughdata.cpp:119-139 | the first matching cell is the decoded cell, and the address is below `2^n` |
| DataEngine.NoMatchIsAbove | src/karnaughdata.cpp:119-139 | an address no grid cell has is at least `2^n` |
| DataEngine.LoopBound | src/karnaughdata.cpp:121-122 | the `int` bound `1 << k` of a loop from 0 fits an `int`, and the loop runs zero times exactly at `k = 31` |
| DataEngine.ScannedIsGrid | src/karnaughdata.cpp:121-122 | up to 60 inputs the row and column loops visit exactly the cells of the grid |
| DataEngine.KarnaughData.NumberToBinaryVector | src/karnaughdata.cpp:146-160 | the `max(length, 1)` low binary digits of `code`, most significant first |
| BinaryDigits.ValueOfDigits | src/karnaughdata.cpp:146-160 | the digits denote `code mod 2^length` |
| BinaryDigits.DigitsOfValue | src/karnaughdata.cpp:146-160 | every binary vector is the digit vector of the number it denotes |
| BinaryDigits.DigitAt | src/karnaughdata.cpp:146-160 | digit `k` is bit `length - 1 - k` of the code |
| BinaryDigits.DigitsInjective | src/karnaughdata.cpp:146-160 | numbers below `2^length` have distinct vectors |
| DataEngine.KarnaughData.IndexToGreycodeString | src/karnaughdata.cpp:162-178 | the loop yields the Gray label of `index` over `length` characters |
| DataEngine.GrayLabel | src/karnaughdata.cpp:162-178 | the label has `max(length, 1)` characters |
| BinaryDigits.DigitStringInjective | src/karnaughdata.cpp:162-178 | the `'0'`/`'1'` form loses nothing |
| DataEngine.GrayLabelsDistinct | src/karnaughdata.cpp:162-178 | indices below `2^length` get distinct labels |
| DataEngine.GrayLabelsAdjacent | src/karnaughdata.cpp:162-178 | consecutive labels differ in exactly one character |
| DataEngine.KarnaughData.GenerateRowLabels | src/karnaughdata.cpp:181-189 | as many labels as the `int` bound `1 << (n / 2)` gives (`2^(n/2)` up to 60 inputs, none at 62), label `r` being the Gray label of `r` over `n / 2` characters |
| DataEngine.KarnaughData.GenerateColLabels | src/karnaughdata.cpp:191-199 | as many labels as the `int` bound `1 << ((n + 1) / 2)` gives (`2^((n+1)/2)` up to 60 inputs, none from 61), label `c` being the Gray label of `c` over `(n + 1) / 2` characters |
| DataEngine.KarnaughData.ScanLater | src/karnaughdata.cpp:222-247 | the loop's list is exactly `ScanResult`, the scan run to the first later equal entry or the end; it keeps well-formedness, soundness and the mark chain |
| Reduction.ScanToNext | src/karnaughdata.cpp:228-244 | comparing the scanned entry with one more later entry merges them (appending the merged entry and marking both) exactly when they are combinable, and changes nothing otherwise |
| Reduction.ScanResultFacts | src/karnaughdata.cpp:222-247 | the scan keeps every old entry's mask, number and mark, appends only entries one level below the scanned one, and leaves the scanned entry marked unless no later entry is equal to it or combinable with it |
| Reduction.ScanKeepsOrder | src/karnaughdata.cpp:221-248 | when the list falls in mask size, scanning entry `i` keeps it falling and settles entry `i` against every later entry |
| Reduction.SameLevelStart | src/karnaughdata.cpp:221 | a list of one mask size falls in mask size and has nothing settled yet |
| Reduction.SettledIrreducible | src/karnaughdata.cpp:221-250 | once every entry is settled, the unmarked entries have no equal and no combinable pair |
| Reduction.MergeStepKeeps | src/karnaughdata.cpp:240-244 | a merge appends an entry one level down and keeps the old cubes, well-formedness, soundness and the mark chain |
| Reduction.CensusStep | src/karnaughdata.cpp:221-248 | scanning entry `i` removes one entry of its level from the part still to scan and adds only lower-level ones, so the loop ends |
| Reduction.ChainEndsUnmarked | src/karnaughdata.cpp:219-251 | an address a marked entry covers is covered by an entry that is not removed |
| Reduction.RemoveDeleted | src/karnaughdata.cpp:250 | `remove_if` keeps exactly the unmarked entries, in order |
| Reduction.PassEnd | src/karnaughdata.cpp:219-251 | after the last scan the unmarked entries cover only input addresses, every input address when nothing was marked, and are irreducible when the input had one mask size |
| DataEngine.KarnaughData.FindSolution | src/karnaughdata.cpp:219-251 | nothing marked survives; for well-formed input the result is well formed and covers no new address; with no marked input it covers every address the input covers; when every input mask has the same size, no two results are `==` and no two are combinable |
| DataEngine.FullMask | src/karnaughdata.cpp:261 | the mask is `2^n - 1` and fits the table |
| DataEngine.SeedCovers | src/karnaughdata.cpp:261-265 | a seed covers exactly its own address inside the map |
| DataEngine.SeedsBelowSpec | src/karnaughdata.cpp:263-265 | one full-mask, unmarked seed per target cell, in ascending address order |
| DataEngine.DontCaresBelowSpec | src/karnaughdata.cpp:267-268 | the collected addresses are exactly the DONTCARE cells, ascending |
| DataEngine.KarnaughData.CollectSeeds | src/karnaughdata.cpp:261-276 | the seed list (with the POS special case) and the don't-care list |
| DataEngine.KarnaughData.AddSelected | src/karnaughdata.cpp:306-308 | the scenario list is the seeds plus the don't-cares with a nonzero digit, in order |
| DataEngine.ScenarioPicksByBit | src/karnaughdata.cpp:304-308 | scenario `s` adds don't-care `i` exactly when bit `d - 1 - i` of `s` is set |
| DataEngine.ScenarioWellFormed | src/karnaughdata.cpp:296-308 | every scenario list is made of well-formed, unmarked entries |
| DataEngine.ScenarioCoversTargets | src/karnaughdata.cpp:294-310 | every scenario list covers every target cell |
| DataEngine.ScenarioSameLevel | src/karnaughdata.cpp:261-308 | outside the POS special case every scenario entry has the full mask, so the list has one mask size |
| DataEngine.ScenarioCoversOnly | src/karnaughdata.cpp:271-310 | inside the map a scenario list covers only target and don't-care cells, unless the whole-table seed was used |
| DataEngine.SelectBestMember | src/karnaughdata.cpp:312-313 | the kept list is one of the results |
| DataEngine.SelectBestRule | src/karnaughdata.cpp:312-313 | when only the first result can be empty, the kept list is the first shortest non-empty result, empty only if all are |
| DataEngine.LaterScenarioNonEmpty | src/karnaughdata.cpp:294-314 | every scenario after the first adds a don't-care, so its reduced list is not empty |
| DataEngine.BestIsFirstShortest | src/karnaughdata.cpp:294-316 | the search result is the first shortest non-empty scenario result |
| DataEngine.BestCovers | src/karnaughdata.cpp:254-317 | the search result covers every target cell and, outside the POS special case, only target and don't-care cells, and then no two of its entries are `==` or combinable |
| DataEngine.KarnaughData.FindBestSolution | src/karnaughdata.cpp:254-317 | one reduced result per scenario (`1 << d`, none when `d = 31`); the result is the first shortest one, covers the target cells and only allowed cells, and outside the POS special case is irreducible |
| MapEngine.KarnaughMap.constructor | src/karnaughmap.cpp:25-32 | the given input count, `2^((n+1)/2)` by `2^(n/2)` cells all 0, no don't-care, no block, the address table filled |
| MapEngine.KarnaughMap.GetMapValueDecodes | src/karnaughmap.cpp:382-385 | on a valid map, `GetMapValue` of a grid cell is that cell's Gray-coded address, which decodes back to the cell |
| MapEngine.KarnaughMap.AddressTable | src/karnaughmap.cpp:66-68 | every grid cell's entry is its Gray-coded address |
| MapEngine.KarnaughMap.Reset | src/karnaughmap.cpp:73-81 | every grid cell becomes 0 and not a don't-care; the block list empties; nothing else changes |
| MapEngine.KarnaughMap.Set | src/karnaughmap.cpp:364-380 | exactly the cell changes, `Get` reports the new value there and the old value elsewhere, a 2 counts a don't-care (wrapping at 2^32) |
| MapEngine.KarnaughMap.BinaryVector | src/karnaughmap.cpp:95-102 | the binary digits, most significant first, padded with zeros to `len` |
| KarnaughNodes.BoolVectorValue | src/karnaughmap.cpp:324-338 | the vector denotes the number and has `max(bits of v, len)` digits |
| KarnaughNodes.BoolVectorSmall | src/karnaughmap.cpp:324-338 | below `2^len` the vector is the `len` low digits |
| MapEngine.KarnaughMap.GetMapBoolValue | src/karnaughmap.cpp:324-338 | the vector of the stored address; for a grid cell, that cell's `n` binary digits |
| MapEngine.CellVector | src/karnaughmap.cpp:66-68 | the vector of a cell's stored address is the cell's vector |
| MapEngine.GridBitsInjective | src/karnaughmap.cpp:66-68 | distinct cells have distinct vectors |
| MapEngine.KarnaughMap.IsJoinable | src/karnaughmap.cpp:342-357 | positive exactly when the vectors differ in exactly one position, and then one past that position |
| KarnaughNodes.DiffCountSymmetric | src/karnaughmap.cpp:342-357 | whether two vectors are joinable does not depend on their order |
| MapEngine.KarnaughMap.IsAtCell | src/karnaughmap.cpp:314-322 | true exactly when the block agrees with the cell's vector wherever it has no `2` |
| MapEngine.KarnaughMap.IsUniform | src/karnaughmap.cpp:151-159 | the row-major scan finds every cell equal to cell (0, 0) exactly when the map is uniform |
| MapEngine.KarnaughMap.UniformBlocks | src/karnaughmap.cpp:159-177 | a uniform map gives no block when its cells are 0, else the single uniform node |
| MapEngine.KarnaughMap.SeedRow | src/karnaughmap.cpp:213-221 | one row of the seeding loop appends that row's one-cell blocks |
| MapEngine.KarnaughMap.SeedBlocks | src/karnaughmap.cpp:211-222 | one unmarked one-cell block per cell holding 1, in row-major order |
| MapEngine.LevelZeroFacts | src/karnaughmap.cpp:211-222 | the seeds are the one-cell blocks of the cells holding 1, each of its cell's vector, unmarked and distinct |
| MapEngine.LevelZeroInv | src/karnaughmap.cpp:211-222 | the seeds meet the joining invariant: well shaped, distinct, only on 1 cells, every 1 cell covered |
| MapEngine.KarnaughMap.JoinValues | src/karnaughmap.cpp:240-245 | the joined vector has a `2` at the differing position and is otherwise the first block's |
| KarnaughNodes.JoinStep | src/karnaughmap.cpp:233-245 | a join of two same-size blocks one position apart is a block twice their size, strictly containing both |
| KarnaughNodes.JoinedMatches | src/karnaughmap.cpp:233-245 | a cell of the joined block is a cell of one of the two blocks joined |
| MapEngine.KarnaughMap.HasBlock | src/karnaughmap.cpp:251-255 | true exactly when some block has the vector |
| MapEngine.KarnaughMap.MarkAndAppend | src/karnaughmap.cpp:247-258 | both blocks are marked and the join is appended unless its vector is present |
| MapEngine.JoinKeepsSound | src/karnaughmap.cpp:237-258 | a join lies only on cells holding 1 when both blocks do |
| MapEngine.JoinKeeps | src/karnaughmap.cpp:231-259 | a join keeps shape, distinctness, soundness, completeness and the mark chain |
| MapEngine.KarnaughMap.JoinPair | src/karnaughmap.cpp:231-259 | the list is kept unless both blocks have `t` cells; if they are joinable both are marked and their join is present |
| MapEngine.JoinProgress | src/karnaughmap.cpp:230-261 | the inner loop ends even though joins are appended while it runs |
| MapEngine.KarnaughMap.JoinWith | src/karnaughmap.cpp:230-261 | keeps the invariant, only adds joins of blocks of `t` cells and only sets marks; for every old block one position apart from the block at `p`, both are marked and their join is listed |
| MapEngine.PairJoinedKept | src/karnaughmap.cpp:229-262 | a pair already joined stays joined while later steps only mark and append |
| MapEngine.KarnaughMap.JoinLevel | src/karnaughmap.cpp:229-262 | one joining pass keeps the invariant and only adds joins of blocks of `t` cells; every pair of old `t`-cell blocks one position apart is marked and joined |
| MapEngine.NewBlocksLevel | src/karnaughmap.cpp:237-238 | every block a pass over `t = 2^k` cells appends has `k + 1` twos |
| MapEngine.ListedByJoin | src/karnaughmap.cpp:229-262 | when every block vector with at most `k` twos lying only on 1s is listed, the pass lists every such vector with `k + 1` twos |
| MapEngine.ExtendableMarked | src/karnaughmap.cpp:229-262 | a block of `2^k` cells that can be widened in some position without taking in a cell not holding 1 is marked by the pass |
| MapEngine.PassReach | src/karnaughmap.cpp:224-262 | the pass over `2^k` cells extends "all block vectors lying on 1s listed, unmarked ones prime" from `k` twos to `k + 1` |
| MapEngine.LevelZeroReach | src/karnaughmap.cpp:211-222 | the one-cell blocks list every cell holding 1, which is where the passes start |
| MapEngine.KarnaughMap.JoinPass | src/karnaughmap.cpp:224-262 | one pass moves the reach of the passes from `k` to `k + 1` twos |
| MapEngine.KarnaughMap.JoinPasses | src/karnaughmap.cpp:224-262 | after the passes over `1, 2, ..., 2^(n-1)` cells every block vector lying only on 1s is listed and every unmarked block is prime |
| MapEngine.PassesPrime | src/karnaughmap.cpp:224-262 | after all passes every unmarked block is a prime implicant: widening it anywhere takes in a cell not holding 1 |
| KarnaughNodes.ChainEnds | src/karnaughmap.cpp:247-249 | every marked block lies inside an unmarked block |
| KarnaughNodes.UnflaggedCovers | src/karnaughmap.cpp:265-271 | a cell an unmarked block lies on has a block on it |
| KarnaughNodes.ChainCovers | src/karnaughmap.cpp:265-271 | removing the marked blocks leaves every covered cell covered |
| MapEngine.KarnaughMap.RemoveFlagged | src/karnaughmap.cpp:265-271 | the unmarked blocks, in order |
| MapEngine.UnflaggedPrime | src/karnaughmap.cpp:265-271 | removing the marked blocks leaves only prime blocks |
| MapEngine.FlagRemovalKeeps | src/karnaughmap.cpp:265-271 | after removal the blocks are clean and lie exactly on the cells holding 1 |
| MapEngine.KarnaughMap.ClearedTemp | src/karnaughmap.cpp:279-281 | the scratch map holds 0 on every grid cell |
| MapEngine.KarnaughMap.DrawNode | src/karnaughmap.cpp:285-290 | 1 is drawn on exactly the cells the block lies on; other cells keep their value |
| MapEngine.KarnaughMap.SameAsMap | src/karnaughmap.cpp:294-304 | true exactly when the scratch map equals the map on every cell |
| MapEngine.KarnaughMap.OthersReproduce | src/karnaughmap.cpp:276-304 | true exactly when drawing all other blocks gives back the map |
| MapEngine.DropKeeps | src/karnaughmap.cpp:307-310 | deleting a block the others reproduce keeps the blocks clean and exact |
| MapEngine.DropKeepsNeeded | src/karnaughmap.cpp:307-310 | a block found needed stays needed when a later block is deleted |
| MapEngine.KarnaughMap.DropRedundant | src/karnaughmap.cpp:273-311 | the blocks stay clean and exact, none left can be dropped, and they are a subsequence of the blocks it was given |
| MapEngine.SubsequencePrime | src/karnaughmap.cpp:273-311 | leaving blocks out keeps every remaining block prime |
| MapEngine.KarnaughMap.SolveBlocks | src/karnaughmap.cpp:211-311 | distinct clean blocks lying exactly on the cells holding 1, none redundant, each a prime implicant |
| MapEngine.KarnaughMap.Solve2 | src/karnaughmap.cpp:148-312 | only the block list changes, and it solves the map (uniform case or exact, clean, irredundant prime blocks) |
| MapEngine.RankBelowCount | src/karnaughmap.cpp:106-115 | the digit index `c` stays below the number of don't-care cells, so `b[c]` is in range |
| MapEngine.KarnaughMap.ScenarioCells | src/karnaughmap.cpp:104-117 | each don't-care cell takes the scenario digit at its row-major don't-care rank; other cells are kept |
| MapEngine.ScenarioMapTwice | src/karnaughmap.cpp:104-117 | a scenario overwrites every cell the previous one set |
| MapEngine.ScenarioCovers | src/karnaughmap.cpp:104-119 | for a non-uniform scenario map, the blocks lie on a cell iff it holds 1 or is a don't-care whose digit is 1 |
| MapEngine.KarnaughMap.RunScenario | src/karnaughmap.cpp:104-119 | the map becomes the scenario map and is solved; only map and blocks change |
| MapEngine.KarnaughMap.CountTwos | src/karnaughmap.cpp:122-128 | the number of `2` digits over all blocks |
| MapEngine.KarnaughMap.KeepBetter | src/karnaughmap.cpp:121-141 | the kept solution is the selection rule applied to the results so far |
| MapEngine.SelectFewestRule | src/karnaughmap.cpp:121-141 | the kept solution has the fewest blocks, the most `2`s among those, and is the first such |
| MapEngine.KarnaughMap.NextScenario | src/karnaughmap.cpp:94-119 | scenario `i` of the stored map is set up and solved |
| MapEngine.KarnaughMap.Step | src/karnaughmap.cpp:94-141 | one round appends the solved scenario and keeps the search state |
| MapEngine.KarnaughMap.Search | src/karnaughmap.cpp:94-142 | after `2^d` rounds every scenario is solved and the best so far is kept |
| MapEngine.KarnaughMap.Solve | src/karnaughmap.cpp:83-146 | `2^d` results, each solving its scenario; the returned blocks are the first with the fewest blocks and most `2`s; the map is left at the last scenario |
| TreeLabels.SolutionTree.constructor | src/solutiontree.cpp:40-44 | an empty label and no items |
| TreeLabels.SolutionTree.RemoveAllItems | src/solutiontree.cpp:51-60 | the items are gone and the root label is `X = ` |
| TreeLabels.BuildTerm | src/solutiontree.cpp:64-88 | the loop's string is the term of the entry |
| TreeLabels.PositionsMembers | src/solutiontree.cpp:71-87 | a variable is named exactly when its mask bit is set |
| TreeLabels.PositionsAscending | src/solutiontree.cpp:71-87 | variables are named in ascending order |
| TreeLabels.TermIsJoinedLiterals | src/solutiontree.cpp:71-88 | the term lists the literals of the set mask bits, `'` marking a 0 (SOP) or 1 (POS) number bit, joined by `+` in SOP and by nothing in POS |
| TreeLabels.TermEmpty | src/solutiontree.cpp:90-91 | the term is empty exactly when the mask is 0 |
| TreeLabels.SolutionTree.AddItem | src/solutiontree.cpp:62-109 | the label gains `0`/`1` for an empty term, else ` + term` (SOP) or `(term)` (POS); an item with the addresses is added only for a non-empty term |
| TreeLabels.SopLabel | src/solutiontree.cpp:93-97 | after the reset, non-constant SOP terms read `X = t1 + t2 + ...` |
| TreeLabels.PosLabel | src/solutiontree.cpp:98-102 | after the reset, non-constant POS terms read `X = (t1)(t2)...` |

## Left out

- The wxWidgets parts are not part of this model: tree items, labels, expansion, the
  address payload as a widget object. The same goes for the GUI, configuration and
  translation files. `AddItem` keeps its items as a plain list of (term, addresses) pairs.
- `SolutionTree.AddItem` names variable `i` by the character `'a' + i`. The source
  increments a `char`. Where `char` is signed, the 32nd variable (code 128) overflows it.
  The model uses the plain character code; masks have at most 32 bits.
- `FindSolution` works on a `seq`, and `MarkForDeletion` is a value update at a position.
  The aliasing of list iterators is not modelled.
- `Solve2` builds its block list locally and assigns it to `blocks`. The scenario map of
  `Solve` is built locally and then stored. The loop bodies are helper methods (`SeedRow`,
  `JoinStep`, `JoinPair`, `Step`, ...).
- `Get` in the source inserts a default entry into the maps when it reads a missing key.
  The model reads without inserting.
- DropRedundant: after an erase the source moves the iterator back with `a--`. At the start
  of the list that is undefined behaviour. The model goes on with the block that followed
  the deleted one, which is what the code does everywhere else.
- KarnaughMap.Solve: requires fewer than 32 counted don't-cares and a don't-care count of at
  most `numberOfDCares`. `numberOfDCares` counts calls of `Set` with 2 and is never lowered,
  so it is only an upper bound. The source computes `2^d` as a `double`. From 32 counted
  don't-cares on, `i < pow(2.0, numberOfDCares)` with an `unsigned int i`
  (`src/karnaughmap.cpp:94`) holds for every `i`, since `i` wraps to 0 before reaching
  `2^32`, so the source's loop never ends; the model has no result to state there.
- MapEngine.KarnaughMap.constructor: requires at most 31 inputs. The constructor's own
  shifts `1 << (n / 2)` and `1 << ((n + 1) / 2)` are defined further, but from 32 inputs up
  the `unsigned` product `width * height` wraps to 0. `Solve2` uses that product as the
  uniform node's digit count (`src/karnaughmap.cpp:170`) and as `log2` of the joining pass
  count (`src/karnaughmap.cpp:225`), so the solver has no meaning there.
- DataEngine.KarnaughData.FindBestSolution: requires at most 8 inputs, so that
  `1 << no_of_inputs` addresses lie in the table. It also requires fewer than 32 don't-cares
  so that `1 << size()` is defined. Its coverage property is stated only below 31
  don't-cares, because at 31 the `int` shift makes the loop run zero times.
- DataEngine.KarnaughData.CalcRow and CalcCol: the full mapping (decoded cell, or `-1`) is
  stated for at most 32 inputs; above that only the first-match property over the cells
  the loops visit. `noOfInputs <= 62` is required: up to there both `int` shifts
  `1 << (n / 2)` and `1 << ((n + 1) / 2)` are defined. At 61 and 62 inputs the column
  bound `1 << 31` is negative, so the search returns `-1` and the column labels are empty;
  at 62 the row labels are empty too. From 63 up the shift is undefined.
- DataEngine.KarnaughData.NumberToBinaryVector and IndexToGreycodeString: require
  `length < 2^31`, since the source's loop counter is an `int`.
- MapEngine.KarnaughMap.Set: requires the value to fit the source's `unsigned short int`.
- The joining loop runs `log2(width * height)` passes, which equals `n` here; passes that
  find nothing to join leave the list unchanged.
- Floating-point use (`pow`, `log2`) is replaced by the exact integer value it computes
  for these arguments.
