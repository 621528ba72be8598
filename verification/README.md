# Verified models of the OpenTitan tools and the CoreMark kernels

This project models the hardest algorithms of the repository in Dafny and proves
what they are for. `dafny verify dfyconfig.toml` checks everything.

| component | files |
|---|---|
| SECDED code generator | `SecdedCircuit`, `Combinations`, `HsiaoCode`, `HsiaoFanin`, `HammingCode` |
| CoreMark list sort and list benchmark | `CoreSort`, `CoreList`, `CoreListOps`, `CoreListBench`, `CoreListInit` |
| CoreMark state machine benchmark | `CoreTokens`, `CoreState`, `CoreTransitions`, `CoreBuffer`, `CorePatterns` |
| CoreMark checksum | `CoreCrc` |
| dvsim job scheduler | `JobScheduler` |
| dvsim wildcard expander | `Wildcards`, `WildcardLex`, `WildcardText`, `WildcardLookup`, `WildcardStray`, `Rewriting` |
| reggen multi-registers | `MultiReg` |
| I2C operation parser and printer | `I2cOps` |
| shared notions | `BitArith`, `BitOps`, `Words`, `Decimals`, `Common` |

**SECDED.** A code is a list of rows, the sets of parity bits that cover each data
bit. The emitted SystemVerilog is modelled by its meaning on bit words: the encoder
assigns the parity bits one after the other, each from the word so far, and the
decoder computes the syndrome, the corrected data and the two error flags. The
generators are the loops of the tool; the shuffle is an oracle that returns some
permutation. What the generated formal assertions state for restricted data is proved
for all widths, all data words and all error patterns of weight at most two. For
Hamming codes with more parity bits than the minimum, which the tool accepts, the
claim can be false, and the exact condition is proved.

**CoreMark lists.** Nodes, data records and the results structure are classes; the
sort is the in-place bottom-up merge over next pointers. Its comparison function is any
total preorder on records, or one of the program's two, which rewrite the data they
compare (caching a kernel's result, or regenerating the low byte from the high byte).
It is proved equal to a function on sequences, about which order, stability and
conservation are proved. The list benchmark (searching with reversal and move-to-front,
sort, remove, undo, sort back) starts from a list as the sort by index at the end of
`core_list_init` leaves it. Every record comes back, and so does the sequence of
indices, so that the benchmark can be iterated. The comment says the list is back in its
original state. That holds for all searches and kernels if and only if no index repeats:
a search reverses the list, and one search for index 0 already turns all ties round. The
indices that `core_list_init` computes can repeat, because mixed ones need not come
behind those in sequence, as its comment has it; size 31 and seed 2 are proved to be
such a case, and the five runs with known checksums are proved not to be.

**CoreMark state machine.** The token formats are defined as languages, independently
of the machine. Scanning counts tokens and transitions in 32-bit counters; the buffer
is filled, corrupted and repaired in place. The patterns that fill it are classified by
these languages, and the tokens read from a filled buffer are given; a pattern that the
machine rejects is read as several tokens. The comment at `cmark.c` line 1631 says the
corruption is undone if the seeds are equal; the code meets this except where a changed
byte has become a comma, and the exact condition is proved.

**Scheduler.** Jobs are objects with a fixed outcome. `TargetScheduler` has the
source's queue, sets and status map; every method keeps the invariant of the comment in
its constructor. Polling times are an arbitrary function of the job, and interrupts an
arbitrary function of target and loop turn. The final result is characterised as the
only solution of one equation per job.

**Wildcards.** The loop works on strings with a leftmost regular-expression search and
splicing. Its meaning on any text and any values is given by replacing wildcards by their
expansions in any order; different replacements can always be joined again, so there is
one result. A brace is stray if it belongs to no wildcard. The loop ends if no value has
a stray closing brace, or no value has a stray opening one, whatever the text; this
covers the computed name `{a}b}` of the docstring. It also ends if on one side no brace
is stray in the text and in those values that it leads to, whatever other names are
defined; there the outcome is a recursive expansion of token lists, which is related to
order-free full substitution and to chains of definitions. With stray braces of both
sides the loop can go on for ever. A backslash is not a name character: in the expression
`\_` is only an escaped underscore, although the docstring says names may contain
backslashes; the model follows the code.

**Multi-registers and I2C.** Packing is proved for every count, width and base field.
The check for disjoint fields never fires because the set of used bits is never
updated, so disjointness is derived from the placement arithmetic instead; a register
with overlapping fields is accepted, and each field reads back its reset value exactly
if no other field adds a bit inside it. A register with a number behind its name no
longer ends in `_shadowed`, so a shadowed multi-register is refused exactly if it needs
more than one register. Printing an error-free I2C operation and parsing it again gives
the same operation exactly for the operations whose text keeps all of it.

## Model

| member | source | states |
|---|---|---|
| `HsiaoCode.MinParitySize` | OpenTitan/util/design/secded_gen.py:28-34 | the loop returns the minimum that the next two results are about |
| `HsiaoCode.MinParityFromLeast` | OpenTitan/util/design/secded_gen.py:28-34 | the parity size found is one more than the least tabulated exponent whose power of two covers data and parity, and -1 exactly if there is none |
| `HsiaoCode.ParitySizeSuffices` | OpenTitan/util/design/secded_gen.py:28-34 | every parity size from the minimum on satisfies 2^(m-1) >= m + k, as the comment asks |
| `HsiaoCode.ComputeIdealFanin` | OpenTitan/util/design/secded_gen.py:37-51 | the loop over odd weights computes the ideal fan-in that the optimality results are about |
| `HsiaoCode.CalcFanin` | OpenTitan/util/design/secded_gen.py:54-62 | the counters end as the number of rows containing each parity bit |
| `HsiaoCode.FaninsSum` | OpenTitan/util/design/secded_gen.py:54-62 | double counting: the fan-ins of all parity bits sum to the total weight of the rows |
| `SecdedCircuit.CalcBitmasks` | OpenTitan/util/design/secded_gen.py:65-75 | the accumulated masks, with the check bits of the decoder |
| `SecdedCircuit.CalcSyndrome` | OpenTitan/util/design/secded_gen.py:90-92 | the sum over a row's bits is the number whose binary digits are the row |
| `SecdedCircuit.CodewordSyndromeZero` | OpenTitan/util/design/secded_gen.py:78-104 | the sequential encoder keeps the data and its codewords have syndrome zero, even where a parity bit covers earlier parity bits |
| `SecdedCircuit.FlagsOfSyndrome` | OpenTitan/util/design/secded_gen.py:110-118 | both forms of the error flags as functions of one linear functional of the syndrome |
| `SecdedCircuit.ReceivedSyndrome` | OpenTitan/util/design/secded_gen.py:95-104 | the syndrome depends on the error alone, not on the data |
| `SecdedCircuit.SingleErrorCorrected` | OpenTitan/util/design/secded_gen.py:105-109 | any single error, in data or parity, leaves the decoder's output equal to the data |
| `SecdedCircuit.DoubleSyndrome` | OpenTitan/util/design/secded_gen.py:110-118 | two errors give a nonzero unmarked syndrome |
| `SecdedCircuit.GoodColumnsAreSecded` | OpenTitan/util/design/secded_gen.py:348-362 | all generated assertions hold for every data word and every error of weight at most two, for any matrix with distinct marked columns |
| `Combinations.LevelIsAllCombinations` | OpenTitan/util/design/secded_gen.py:163-169 | the candidate list holds every set of the weight exactly once, binomially many |
| `Combinations.LexicographicOrder` | OpenTitan/util/design/secded_gen.py:167-169 | the list is in the lexicographic order of the sorted combinations |
| `Combinations.CombsFanIn` | OpenTitan/util/design/secded_gen.py:163-174 | a full level adds C(m-1, s-1) to every parity bit |
| `Combinations.OddCapacity` | OpenTitan/util/design/secded_gen.py:163-214 | the levels of odd weight from three on hold exactly 2^(m-1) - m combinations |
| `HsiaoCode.GenerateHsiao` | OpenTitan/util/design/secded_gen.py:134-214 | a returned matrix is made of full levels and a distinct part of one more, with every fan-in at most ideal; none is returned only if all tried shuffles were unacceptable |
| `HsiaoCode.DrawSubset` | OpenTitan/util/design/secded_gen.py:178-207 | the retry loop accepts a prefix of a shuffle if and only if no fan-in exceeds the ideal |
| `HsiaoCode.FitsIdeal` | OpenTitan/util/design/secded_gen.py:194-201 | the checking loop decides exactly whether all sums stay within the ideal |
| `HsiaoCode.LevelFanIn` | OpenTitan/util/design/secded_gen.py:41-45 | the rounded-up term of a full level is exact and equals every parity bit's fan-in |
| `HsiaoCode.FullLevelsAreIdeal` | OpenTitan/util/design/secded_gen.py:171-174 | when only full levels are used every parity bit has exactly the ideal fan-in |
| `HsiaoCode.PlanRows` | OpenTitan/util/design/secded_gen.py:163-211 | the levels used are of odd weight, distinct, and together with the partial one hold as many rows as were asked for or all there are |
| `HsiaoCode.HsiaoRows` | OpenTitan/util/design/secded_gen.py:134-214 | the result has k pairwise distinct odd rows of weight at least three, unless there are fewer in all |
| `HsiaoCode.OddRowsAreSecded` | OpenTitan/util/design/secded_gen.py:157-158 | any k distinct odd rows of weight at least three give a SECDED pair |
| `HsiaoCode.HsiaoSecded` | OpenTitan/util/design/secded_gen.py:134-214 | for every accepted k and m, any matrix the generator can return has k rows and satisfies all assertions |
| `HsiaoFanin.PlanIsLightest` | OpenTitan/util/design/secded_gen.py:159-161 | no k distinct odd rows weigh less than the levels the generator uses |
| `HsiaoFanin.IdealIsLowerBound` | OpenTitan/util/design/secded_gen.py:37-51 | some parity bit of any k distinct odd rows has at least the ideal fan-in |
| `HsiaoFanin.HsiaoIsOptimal` | OpenTitan/util/design/secded_gen.py:159-204 | a code within the ideal has a largest fan-in no larger than that of any other code of its kind |
| `HsiaoFanin.TradableRow` | OpenTitan/util/design/secded_gen.py:176-204 | between a bit of higher and one of lower fan-in some row can be exchanged for one not yet used |
| `HsiaoFanin.SomeBitIsLow` | OpenTitan/util/design/secded_gen.py:196-201 | if a parity bit exceeds the rounded-up average, another one lies at least two below it |
| `HsiaoFanin.Balance` | OpenTitan/util/design/secded_gen.py:176-204 | exchanging rows, which lowers the sum of squares, ends with every fan-in within the rounded-up average |
| `HsiaoFanin.SomeOrderIsAccepted` | OpenTitan/util/design/secded_gen.py:180-204 | the retry loop is never hopeless: some order of the candidates is accepted |
| `HsiaoFanin.SomeShufflerSucceeds` | OpenTitan/util/design/secded_gen.py:189-204 | some shuffling function lets the loop exit at its first try |
| `HammingCode.IsPow2Exact` | OpenTitan/util/design/secded_gen.py:123-124 | the bit trick accepts exactly the powers of two |
| `HammingCode.GenerateHamming` | OpenTitan/util/design/secded_gen.py:221-257 | the loops over positions and parity bits produce the rows given by the binary digits of the data positions, then the rows of the last parity bit |
| `HammingCode.DataCount` | OpenTitan/util/design/secded_gen.py:227-230 | there are at least k data positions, and exactly k if and only if the last proper parity position lies within the word |
| `HammingCode.HammingColumns` | OpenTitan/util/design/secded_gen.py:221-257 | with k data positions the decoder's column of every bit is its position in binary, marked by the overall parity |
| `HammingCode.LastCheckMissesItself` | OpenTitan/util/design/secded_gen.py:65-75 | with surplus rows the shifted masks carry, and the last check ignores its own parity bit |
| `HammingCode.SurplusRowsFail` | OpenTitan/util/design/secded_gen.py:221-257 | with surplus rows the assertions are violated |
| `HammingCode.HammingSecdedExactly` | OpenTitan/util/design/secded_gen.py:488-496 | for every parity size the tool accepts the pair is SECDED if and only if 2^(m-2) < k + m |
| `HammingCode.HammingSecded` | OpenTitan/util/design/secded_gen.py:221-257 | at the tool's minimal parity size there are exactly k data positions and all assertions hold |
| `HammingCode.LargerParityCanFail` | OpenTitan/util/design/secded_gen.py:488-496 | the accepted choice k = 2, m = 5 is not SECDED |
| `CoreCrc.Crcu8` | Cores-SweRV-EL2/testbench/asm/cmark.c:1962-1985 | eight steps of the reflected 0xA001 shift register on data and register combined |
| `CoreCrc.Crcu16` | Cores-SweRV-EL2/testbench/asm/cmark.c:1986-1990 | the two byte updates equal sixteen steps on the whole word |
| `CoreCrc.Crcu32` | Cores-SweRV-EL2/testbench/asm/cmark.c:1991-1995 | the checksum of the low and then the high half of the 32-bit word |
| `CoreCrc.Constants` | Cores-SweRV-EL2/testbench/asm/cmark.c:1969-1980 | the taps of the code are 0x4002, and of the register form 0xA001 |
| `CoreCrc.KnownChecksum` | Cores-SweRV-EL2/testbench/asm/cmark.c:1986-1990 | the word 0x8000 has the checksum 0xA001 |
| `CoreCrc.FoldLinear` | Cores-SweRV-EL2/testbench/asm/cmark.c:1986-1998 | the checksum of a bitwise sum of messages is the sum of the checksums |
| `CoreCrc.FoldInjective` | Cores-SweRV-EL2/testbench/asm/cmark.c:1986-1998 | for a fixed message different start values give different checksums |
| `CoreCrc.FoldSurjective` | Cores-SweRV-EL2/testbench/asm/cmark.c:1986-1998 | for a fixed message every checksum is reached |
| `CoreCrc.OneWordDetected` | Cores-SweRV-EL2/testbench/asm/cmark.c:1986-1998 | messages that differ in exactly one word always have different checksums |
| `CoreSort.CalcFuncCaches` | Cores-SweRV-EL2/testbench/asm/cmark.c:438-470 | after a call the word is cached, its high byte is kept, and a cached word changes nothing at all |
| `CoreSort.StateCall` | Cores-SweRV-EL2/testbench/asm/cmark.c:446-469 | an uncached word with low bits 0 runs the state kernel alone, with a data type of at least 0x22, keeps its first checksum, folds its result and caches the low seven bits of it |
| `CoreSort.MatrixCall` | Cores-SweRV-EL2/testbench/asm/cmark.c:446-469 | with low bits 1 the same for the matrix kernel, without the minimum |
| `CoreSort.PlainCall` | Cores-SweRV-EL2/testbench/asm/cmark.c:446-469 | with any other low bits no kernel has a part in it, and the word itself is folded and cached |
| `CoreSort.CachedCall` | Cores-SweRV-EL2/testbench/asm/cmark.c:441-443 | a cached word gives its low seven bits and changes nothing |
| `CoreSort.PlainCompared` | Cores-SweRV-EL2/testbench/asm/cmark.c:476-480 | a comparison by content folds the first record's word before the second's and subtracts in that order |
| `CoreSort.RegeneratedValue` | Cores-SweRV-EL2/testbench/asm/cmark.c:488-491 | regeneration copies the high byte over the low one |
| `CoreSort.CompareSettles` | Cores-SweRV-EL2/testbench/asm/cmark.c:476-493 | every comparison function leaves both items settled, keeps index and high byte, tells the order that later comparisons see, and changes nothing about settled items |
| `CoreSort.MergeRuns` | Cores-SweRV-EL2/testbench/asm/cmark.c:828-853 | for any total preorder, merging two runs, even of items whose keys are computed during the merge, gives one stable run of the same items |
| `CoreSort.PassDoublesRuns` | Cores-SweRV-EL2/testbench/asm/cmark.c:807-859 | for any total preorder a pass turns runs of length w into runs of length 2w |
| `CoreSort.MergesortCorrect` | Cores-SweRV-EL2/testbench/asm/cmark.c:801-871 | for any total preorder the result is a permutation keeping index and high byte; from two items on all are settled and ordered, and equal ones stay in their order; where comparisons have nothing to change whole items are permuted and the results stay |
| `CoreList.CalcFunction` | Cores-SweRV-EL2/testbench/asm/cmark.c:438-470 | the update of data word, running checksum and kernel checksums in place |
| `CoreList.CompareItems` | Cores-SweRV-EL2/testbench/asm/cmark.c:476-493 | both comparison functions on records in the heap, with and without results pointer, and any other one that only reads |
| `CoreList.MergeTwo` | Cores-SweRV-EL2/testbench/asm/cmark.c:825-853 | with any comparison function the pointer loop appends the merge of the two runs to the output list and stops at the rest |
| `CoreList.MergePass` | Cores-SweRV-EL2/testbench/asm/cmark.c:808-859 | one pass relinks the list into the merged list, NULL-terminated, and its merge count tells whether it was the last |
| `CoreList.SortNodes` | Cores-SweRV-EL2/testbench/asm/cmark.c:801-871 | the whole in-place sort terminates with the nodes linked in the order of the sort on sequences, info pointers unchanged |
| `CoreListOps.MergeSort` | Cores-SweRV-EL2/testbench/asm/cmark.c:801-871 | for any total preorder: the same nodes and records in one list, ordered and stable, index and high byte of every record kept, and all of it if comparisons have nothing to change |
| `CoreListOps.Find` | Cores-SweRV-EL2/testbench/asm/cmark.c:745-755 | the first node whose record matches by index or by low byte, or NULL if none does |
| `CoreListOps.ReverseNodes` | Cores-SweRV-EL2/testbench/asm/cmark.c:770-779 | the same nodes linked in reverse order |
| `CoreListOps.MoveUpNodes` | Cores-SweRV-EL2/testbench/asm/cmark.c:531-537 | the node behind the one found moves to the second place, all others keep their order |
| `CoreListOps.FindPhase` | Cores-SweRV-EL2/testbench/asm/cmark.c:518-545 | order and search key after all searches are those of the single searches one after the other, each reversing the list and moving one node; modulo 2^16 the result is four times the number of searches that find a record, less the number of those that do not, plus the number of those that add a bit |
| `CoreListOps.KeysAfterSearches` | Cores-SweRV-EL2/testbench/asm/cmark.c:520-540 | after n searches an index to search for has grown by n, or become negative for good at the end of 16 bits; the low byte is the number of the last search |
| `CoreListOps.NoTurns` | Cores-SweRV-EL2/testbench/asm/cmark.c:519 | a number of searches that is not positive means none |
| `CoreListOps.HalfOfValue` | Cores-SweRV-EL2/testbench/asm/cmark.c:545 | the counter enters the checksum modulo 2^16 |
| `CoreListOps.Remove` | Cores-SweRV-EL2/testbench/asm/cmark.c:691-702 | the next node is unlinked and the two info pointers are exchanged |
| `CoreListOps.UndoRemove` | Cores-SweRV-EL2/testbench/asm/cmark.c:720-730 | the node is linked back and the info pointers are exchanged again |
| `CoreListOps.RemovePhase` | Cores-SweRV-EL2/testbench/asm/cmark.c:549-561 | removing, folding and undoing leaves every link and info pointer as it was; the fold runs over exactly the nodes from the one found on, or over all but the head's |
| `CoreListOps.FoldCountFound` | Cores-SweRV-EL2/testbench/asm/cmark.c:551-558 | the fold runs from the first record found on, the removed second one counting for neither |
| `CoreListOps.FoldCountMissed` | Cores-SweRV-EL2/testbench/asm/cmark.c:551-558 | and over all but the head and the removed one if none is found |
| `CoreListBench.SortByData` | Cores-SweRV-EL2/testbench/asm/cmark.c:546-548 | after the sort by data every word is cached and the low seven bits do not decrease along the list, high bytes untouched |
| `CoreListBench.RestoredExactly` | Cores-SweRV-EL2/testbench/asm/cmark.c:562-563 | a sort by index brings back the sequence of indices, and the cells themselves if and only if cells of the same index have not changed order |
| `CoreListBench.SortByIndex` | Cores-SweRV-EL2/testbench/asm/cmark.c:630 | the sort that ends `core_list_init`, and the one at line 563: indices do not decrease and every data word is regenerated |
| `CoreListBench.BenchList` | Cores-SweRV-EL2/testbench/asm/cmark.c:507-574 | a list of at least three nodes as the sort by index leaves it: all records and the sequence of indices come back, so the benchmark can be run again; the order of the cells comes back exactly if the searches and the sort by data leave ties as they were, so always if no index repeats; the stored list pointer is still the head if no other cell has the head's index; the checksum, the kernel checksums and the running one are given exactly |
| `CoreListBench.OneSearchRestores` | Cores-SweRV-EL2/testbench/asm/cmark.c:505-574 | one search with key 0 turns all ties round, so the list comes back from that run if and only if no index repeats |
| `CoreListBench.AlwaysRestoredExactly` | Cores-SweRV-EL2/testbench/asm/cmark.c:505-574 | the list is back to its original state for every find count, finder index and kernels if and only if no index repeats |
| `CoreListBench.Iterate` | Cores-SweRV-EL2/testbench/asm/cmark.c:909-925 | the iterations keep a list with these records in index order at the stored pointer, if no other cell has the head's index; if no index repeats, it is the same list and the checksums are those of the runs one after the other |
| `CoreListInit.IndexNodes` | Cores-SweRV-EL2/testbench/asm/cmark.c:618-629 | the loop gives every node between head and tail the index of its place, in sequence in the first fifth and mixed behind it, and changes nothing else |
| `CoreListInit.DifferExactly` | Cores-SweRV-EL2/testbench/asm/cmark.c:620-627 | in a list of at most 257 nodes no index repeats if and only if all mixed ones come behind those in sequence, as the comment means them to |
| `CoreListInit.RepeatedIndex` | Cores-SweRV-EL2/testbench/asm/cmark.c:620-627 | they need not: with size 31 and seed 2 the places 5 and 7 have the index 5 |
| `CoreListInit.KnownRunsDiffer` | Cores-SweRV-EL2/testbench/asm/cmark.c:1117-1140 | in the five runs whose checksums the program knows no index repeats |
| `CoreListInit.IndexAndSort` | Cores-SweRV-EL2/testbench/asm/cmark.c:617-640 | loop and sort leave a list that the benchmark asks for; its indices differ exactly if the computed ones do, and up to 257 nodes the head's index is alone exactly if no computed one is 0 |
| `CoreListInit.InitRestoredExactly` | Cores-SweRV-EL2/testbench/asm/cmark.c:505-640 | the benchmark always brings back the list that the initialization made if and only if no computed index repeats, and so in all known runs |
| `CoreTokens.RunExactly` | Cores-SweRV-EL2/testbench/asm/cmark.c:1727-1820 | the machine ends in a state exactly for the tokens of that state's language |
| `CoreTokens.ViableExactly` | Cores-SweRV-EL2/testbench/asm/cmark.c:1727-1820 | a text has not been rejected exactly if it can be completed to a number in scientific notation |
| `CoreState.Next` | Cores-SweRV-EL2/testbench/asm/cmark.c:1737-1815 | the switch makes the machine's transition and raises the counters of left states, and of INVALID on two ways only, modulo 2^32 |
| `CoreState.PlusExactly` | Cores-SweRV-EL2/testbench/asm/cmark.c:1737-1815 | a counter that has grown by a number holds the sum modulo 2^32 |
| `CoreState.IndexIsPlace` | Cores-SweRV-EL2/testbench/asm/cmark.c:338-348 | the counters are numbered as the states are |
| `CoreState.Transition` | Cores-SweRV-EL2/testbench/asm/cmark.c:1727-1820 | one call moves the pointer past one token inside the text, leaves the buffer alone, and counts that token's transitions |
| `CoreTransitions.RaisesExactly` | Cores-SweRV-EL2/testbench/asm/cmark.c:1737-1815 | over a whole token the counter of a state is raised once if the token leaves it and not otherwise; SCIENTIFIC is never counted |
| `CoreTransitions.InvalidRaisesExactly` | Cores-SweRV-EL2/testbench/asm/cmark.c:1737-1815 | the counter of INVALID is raised once if the token is rejected at its first byte or within a number in scientific notation, and not by other rejections |
| `CoreState.CutClassifies` | Cores-SweRV-EL2/testbench/asm/cmark.c:1717-1820 | the token cut off is of its state's language, or invalid exactly up to the first byte that leaves every viable beginning |
| `CoreState.ClassifiedOnce` | Cores-SweRV-EL2/testbench/asm/cmark.c:1717-1820 | no other cut and no other state describe the text |
| `CoreState.ReadAll` | Cores-SweRV-EL2/testbench/asm/cmark.c:1601-1611 | the loop over the text adds the tally of its tokens' states and of their transitions to the counters |
| `CoreState.OccurrencesSum` | Cores-SweRV-EL2/testbench/asm/cmark.c:1602-1610 | the tally of final states sums to the number of tokens |
| `CoreBuffer.Corrupt` | Cores-SweRV-EL2/testbench/asm/cmark.c:1612-1617 | every step-th byte that is not a comma is changed, no other byte |
| `CoreBuffer.XorTwice` | Cores-SweRV-EL2/testbench/asm/cmark.c:1612-1635 | a second exclusive-or restores a byte exactly if it is with the same byte |
| `CoreBuffer.RepairExactly` | Cores-SweRV-EL2/testbench/asm/cmark.c:1612-1635 | the second pass restores the buffer if and only if, wherever a byte was changed, the seeds agree and the byte did not become a comma |
| `CoreBuffer.EqualSeedsNeedNotRepair` | Cores-SweRV-EL2/testbench/asm/cmark.c:1631-1635 | equal seeds do not suffice: the seed ',' spoils a buffer of two bytes |
| `CoreBuffer.FilledBufferRepaired` | Cores-SweRV-EL2/testbench/asm/cmark.c:1612-1635 | a filled buffer is repaired by equal seeds whenever the seed turns none of its bytes into a comma |
| `CoreBuffer.InitState` | Cores-SweRV-EL2/testbench/asm/cmark.c:1659-1709 | the buffer is filled with the patterns chosen by the seeds, each with a comma, then zeros; nothing beyond it is written |
| `CoreBuffer.SeedWraps` | Cores-SweRV-EL2/testbench/asm/cmark.c:1675 | the seed counts on in sixteen bits, signed |
| `CorePatterns.PatternLanguages` | Cores-SweRV-EL2/testbench/asm/cmark.c:1645-1648 | the integer, float and scientific patterns are of these formats, but for the scientific one without a point; the others are no beginning of a number |
| `CorePatterns.OnePass` | Cores-SweRV-EL2/testbench/asm/cmark.c:1601-1611 | the kinds of the tokens of any text are those that a single pass over its bytes counts, starting anew after a comma and after a byte that makes the token invalid |
| `CorePatterns.FilledTokens` | Cores-SweRV-EL2/testbench/asm/cmark.c:1659-1709 | the tokens read from a filled buffer are those of the patterns for the seeds after the given one, in their order, while there is room |
| `CoreBuffer.ZeroRemains` | Cores-SweRV-EL2/testbench/asm/cmark.c:1659-1709 | two zeros end a filled buffer, so corruption with a step of at least two leaves one and both scans stay inside |
| `CoreBuffer.ZeroSurvivesExactly` | Cores-SweRV-EL2/testbench/asm/cmark.c:1612-1617 | for any buffer, seed and step a zero is left exactly if one lies off the steps or a byte on a step that is no comma equals the seed |
| `CoreBuffer.StepOneLosesZero` | Cores-SweRV-EL2/testbench/asm/cmark.c:450-452 | with a step of one, below the minimum the caller sets, no zero is left if and only if the seed is a comma or does not occur in the buffer |
| `CoreBuffer.BenchState` | Cores-SweRV-EL2/testbench/asm/cmark.c:1586-1642 | the buffer is corrupted and repaired, and the checksum folds the tallies of both readings |
| `CoreBuffer.CountWordsAt` | Cores-SweRV-EL2/testbench/asm/cmark.c:1637-1640 | the checksum runs over the final and the transition counter of each state in turn, low half first |
| `JobScheduler.SetsPartitionJobs` | OpenTitan/util/dvsim/Scheduler.py:20-34 | the queue and the four sets are disjoint and their union is the key set of the status map |
| `JobScheduler.TargetScheduler.AddItem` | OpenTitan/util/dvsim/Scheduler.py:36-40 | the item goes to the end of the queue with status Q, and the invariant is kept |
| `JobScheduler.TargetScheduler.KillItem` | OpenTitan/util/dvsim/Scheduler.py:42-47 | a running item becomes killed and nothing else changes |
| `JobScheduler.TargetScheduler.Poll` | OpenTitan/util/dvsim/Scheduler.py:49-82 | every running item is polled once; exactly the finished ones move to passed or failed, and the result tells whether any did |
| `JobScheduler.TargetScheduler.HasFailedDep` | OpenTitan/util/dvsim/Scheduler.py:102-121 | the loop decides, in both modes, whether the results of the dependencies rule the item out |
| `JobScheduler.TargetScheduler.TakeFromQueue` | OpenTitan/util/dvsim/Scheduler.py:96-128 | items leave the front of the queue in order until the slots are filled or it is empty; the ruled-out ones are killed, the others are in hand in the same order |
| `JobScheduler.TargetScheduler.Dispatch` | OpenTitan/util/dvsim/Scheduler.py:84-143 | the running items never exceed the limit; nothing is taken exactly if a limit is reached or the queue is empty, otherwise as many as the limits allow |
| `JobScheduler.TargetScheduler.Kill` | OpenTitan/util/dvsim/Scheduler.py:145-156 | all unfinished items end as K, finished ones stay as they are |
| `JobScheduler.TargetScheduler.Cancel` | OpenTitan/util/dvsim/Scheduler.py:158-163 | a queued item leaves the queue and becomes killed |
| `JobScheduler.TargetScheduler.Run` | OpenTitan/util/dvsim/Scheduler.py:189-243 | the loop ends for all timings and limits, with every item at its verdict unless interrupted; along the whole history only legal moves are made and never too many items run |
| `JobScheduler.Scheduler.Schedule` | OpenTitan/util/dvsim/Scheduler.py:260-268 | an item joins the scheduler of its target, which is set up behind the others when there is none |
| `JobScheduler.Scheduler.Run` | OpenTitan/util/dvsim/Scheduler.py:270-283 | if dependencies belong to earlier targets, every item's result is the verdict that the final results of its dependencies call for |
| `JobScheduler.ScheduleIndependent` | OpenTitan/util/dvsim/Scheduler.py:270-283 | there is only one such result map, so it depends on neither timing nor limits |
| `JobScheduler.AllPass` | OpenTitan/util/dvsim/Scheduler.py:270-283 | if every job can be dispatched and passes, every result is P |
| `JobScheduler.FailureSpreads` | OpenTitan/util/dvsim/Scheduler.py:102-143 | a result is F exactly for a job that is dispatched and does not pass, and what needs a job without the result P is killed |
| `Wildcards.ExpandIsSubstitution` | OpenTitan/util/dvsim/utils.py:109-212 | a successful expansion equals full simultaneous substitution, which enough rounds reach and more do not change |
| `Wildcards.ExpandedIsInert` | OpenTitan/util/dvsim/utils.py:109-212 | the result holds ignored wildcards only, and undefined ones if errors are ignored |
| `Wildcards.ExpandIdempotent` | OpenTitan/util/dvsim/utils.py:109-212 | expanding the result again changes nothing |
| `Wildcards.ExpandsExactly` | OpenTitan/util/dvsim/utils.py:142-197 | the expansion succeeds if and only if no chain of definitions repeats a name and none leads to a missing name or to a command that is not ignored |
| `Wildcards.CircularExactly` | OpenTitan/util/dvsim/utils.py:142-185 | with errors ignored it fails exactly if a circle or a command can be reached, and without commands only with the error of a circle |
| `Wildcards.FailureHasCause` | OpenTitan/util/dvsim/utils.py:142-197 | a failure names a wildcard at the end of a chain that has seen it before, or a missing one or a command that a chain leads to |
| `Wildcards.ExpandInPlace` | OpenTitan/util/dvsim/utils.py:201-212 | replacing any wildcard of a text by its expansion does not change the outcome |
| `WildcardLex.RenderLex` | OpenTitan/util/dvsim/utils.py:119 | every string is the text of its tokens, wildcards and single characters |
| `WildcardLookup.NameCodes` | OpenTitan/util/dvsim/utils.py:119 | names are made of letters, digits and underscores |
| `WildcardLex.LexRender` | OpenTitan/util/dvsim/utils.py:119 | and the other way round: tokens without stray braces of one side are the tokens of their text |
| `WildcardLex.SearchFindsFirst` | OpenTitan/util/dvsim/utils.py:128-135 | in any string the search finds the leftmost wildcard, and none only if there is none |
| `WildcardText.StringifyTame` | OpenTitan/util/dvsim/utils.py:89-106 | numbers, booleans and lists of strings that have no stray brace of a side become strings that have none |
| `WildcardLookup.ItemsReadBack` | OpenTitan/util/dvsim/utils.py:101-104 | the items of a list of values without spaces are got back by splitting the printed list at spaces |
| `WildcardLookup.PrintedValues` | OpenTitan/util/dvsim/utils.py:97-101 | strings as they are, numbers in decimal, booleans as 1 and 0 |
| `WildcardText.SubstWorker` | OpenTitan/util/dvsim/utils.py:109-212 | for every text, and values without stray braces of one side (or a text that leads only to such values), the scanning loop terminates; what it returns is reached by replacing wildcards by their expansions and holds only wildcards that may stay, and an error belongs to the first wildcard that may not |
| `WildcardText.OneResult` | OpenTitan/util/dvsim/utils.py:109-212 | for every text and all values, stray braces included, neither success nor result depends on the order in which wildcards are replaced |
| `WildcardText.TameComputes` | OpenTitan/util/dvsim/utils.py:109-212 | if on one side no brace is stray in the text and the values that it leads to, the outcome is the expansion of its tokens, errors included, and success means that no circle, missing name or command can be reached |
| `WildcardText.TameContextEnds` | OpenTitan/util/dvsim/utils.py:89-106 | dictionary and environment without stray braces of one side meet the condition of the call, whatever the text |
| `WildcardLex.ReplacedPendsLess` | OpenTitan/util/dvsim/utils.py:199-208 | a replacement by a text without stray braces of a side uses up one brace of that side that is stray or belongs to a wildcard that may not stay, which is why the loop ends |
| `WildcardText.SubstWildcards` | OpenTitan/util/dvsim/utils.py:215-285 | the call from outside ends, in the one outcome that replacing in any order leads to, if on one side no brace is stray in any value, or none in the text and the values that it leads to; in the second case that is the expansion of the tokens |
| `WildcardLookup.SingleWildcard` | OpenTitan/util/dvsim/utils.py:137-197 | the one outcome of a single wildcard: ignored, the command, the dictionary's value, the environment's, undefined and left or undefined and refused |
| `WildcardLookup.HiddenNeverMatters` | OpenTitan/util/dvsim/utils.py:182-187 | environment variables that the dictionary hides change no outcome of any text |
| `WildcardStray.ComputedName` | OpenTitan/util/dvsim/utils.py:272-278 | the computed name of the docstring: the loop is sure to end, and its outcome is `a bee` |
| `WildcardStray.StrayBracesNeverEnd` | OpenTitan/util/dvsim/utils.py:128-212 | with stray braces of both sides in a value the loop can go on for ever: no outcome can be reached at all |
| `MultiReg.ExtractBits` | OpenTitan/util/reggen/bits.py:19-29 | extracting a field reads exactly the bits of its range |
| `MultiReg.NewRegister` | OpenTitan/util/reggen/register.py:101-162 | the outcome of the constructor: the first failing check of attributes, name and duplicate fields, or the sorted fields with reset value and mask collected over all of them; the check for disjoint fields never fails |
| `MultiReg.RefusedFor` | OpenTitan/util/reggen/register.py:101-131 | the condition under which each of the refusals comes first |
| `MultiReg.LowerCodes` | OpenTitan/util/reggen/register.py:123-131 | capital letters alone change when the name is compared in lower case |
| `MultiReg.MaskCovers` | OpenTitan/util/reggen/register.py:157-162 | the reset mask has exactly the bits that some field covers |
| `MultiReg.UnknownsLeaveZero` | OpenTitan/util/reggen/register.py:157-162 | fields whose reset values are unknown leave the register's reset value zero |
| `MultiReg.ReadsBackExactly` | OpenTitan/util/reggen/register.py:157-162 | in a register of any fields, overlapping or not, a field reads back its reset value if and only if no other field adds a bit inside it |
| `MultiReg.OverlapAccepted` | OpenTitan/util/reggen/register.py:147-155 | under every name and attributes that pass the checks, two overlapping fields are accepted, and one of them does not read back its reset value |
| `MultiReg.ResetExtracts` | OpenTitan/util/reggen/register.py:157-162 | in a register of disjoint fields every field reads back its own reset value, or zero |
| `MultiReg.MakeMultiField` | OpenTitan/util/reggen/field.py:223-262 | the copies side by side, or an error exactly if they are wider than the register |
| `MultiReg.CopiesSound` | OpenTitan/util/reggen/field.py:248-262 | copies have distinct names, are in order and do not meet |
| `MultiReg.MakeMulti` | OpenTitan/util/reggen/register.py:295-349 | the exact outcome: too wide a pack, a shadowed register with a number behind its name, or the packed or suffixed register |
| `MultiReg.NumberedRefusal` | OpenTitan/util/reggen/register.py:123-131 | a numbered register is refused exactly if it is shadowed, whatever its name; its other checks were passed by the base register |
| `MultiReg.MultiRegister` | OpenTitan/util/reggen/multi_register.py:80-119 | for a well-formed base register that passes the two initial checks it succeeds if and only if the register is not shadowed or all copies fit into one; then the registers are exactly those of the layout |
| `MultiReg.ShadowedRefused` | OpenTitan/util/reggen/register.py:310-312 | 33 copies of a shadowed one-bit register, whatever its name before the suffix, do not fit into 32 bits, and every one of the two registers is refused |
| `MultiReg.EveryIndexPlaced` | OpenTitan/util/reggen/multi_register.py:97-119 | every index below the count has its copy, under its own name and at its own bits inside its register, apart from the others, reading back the base reset value |
| `MultiReg.OnePlace` | OpenTitan/util/reggen/multi_register.py:110-112 | different places hold different indices |
| `MultiReg.SuffixedReset` | OpenTitan/util/reggen/register.py:334-343 | without packing every register has the reset value and mask of the base register |
| `MultiReg.SuffixedFields` | OpenTitan/util/reggen/register.py:334-343 | and every field keeps its bits and reset value under a name with the register's number |
| `I2cOps.FlagsReadBack` | OpenTitan/util/i2csvg/convert.py:228-236 | every flag letter is found where it was printed and never twice |
| `I2cOps.TextLayout` | OpenTitan/util/i2csvg/convert.py:228-247 | the printed flags stand in the order S, P, R, C, N, a point for each that is not raised, then the address or the byte in hexadecimal |
| `I2cOps.RoundTripExactly` | OpenTitan/util/i2csvg/convert.py:118-247 | printing and parsing gives the same operation, size included, if and only if there is no empty tag and an address comes without tag and M |
| `I2cOps.ParsedRoundTrips` | OpenTitan/util/i2csvg/convert.py:62-247 | every operation parsed from a FIFO word prints and parses back to itself; one parsed from text does exactly under that condition |
| `I2cOps.ParsedNeedNotRoundTrip` | OpenTitan/util/i2csvg/convert.py:118-247 | `''`, `A'x'` and `AM` are parsed without error, and what is printed does not parse back to the same operation |
| `I2cOps.FifoReadsBack` | OpenTitan/util/i2csvg/convert.py:94-115 | every word written to the FIFO is read as its five flags and its byte, whatever lies above them; the size in bits and the conflicts are given |
| `I2cOps.CodeReadsBack` | OpenTitan/util/i2csvg/convert.py:118-178 | a line of flag letters in any order and a byte raises exactly those flags, with an error exactly for a repeated letter or a conflict |
| `I2cOps.ManyBytesRead` | OpenTitan/util/i2csvg/convert.py:65-80 | with M in place of the value a read takes 28 bits |
| `I2cOps.NumbersReadBack` | OpenTitan/util/i2csvg/convert.py:16-41 | numbers are read in decimal and, behind a prefix in either case, in binary, octal and hexadecimal |
| `I2cOps.BadNumbers` | OpenTitan/util/i2csvg/convert.py:24-37 | any other letter behind a leading zero is refused, and so is a digit too large for its base |
| `I2cOps.RefusedReadsAsZero` | OpenTitan/util/i2csvg/convert.py:16-41 | a number that is refused counts as zero and as an error |
| `Decimals.DigitsDenote` | OpenTitan/util/i2csvg/convert.py:16-41 | reading the digits of a number gives the number |
| `Decimals.DigitNames` | OpenTitan/util/i2csvg/convert.py:31-32 | digits are written in lower case and read in either |

## Left out

- `HsiaoCode.GenerateHsiao`: the retry loop has a bound on the number of tries, because a real shuffle need not ever give an acceptable order; what is proved instead is that one exists.
- `HsiaoCode.DrawSubset`: the same bound on the number of tries.
- Rounding in `ideal_fanin`: `int(math.ceil(float(x) / m))` is modelled as exact rounding up; the float quotient could differ only for sizes beyond those the tool accepts.
- The SystemVerilog text itself, file writing, the formal-verification templates and logging of the SECDED generator.
- The state and matrix kernels inside `calc_func` are arbitrary 16-bit functions of call number, data type and checksum, so the results hold for any kernels; the matrix kernel is not modelled.
- `core_list_init`: inserting the nodes and filling them from the seed is left out; the model starts from a list with the indices of head and tail, at the loop that computes the others.
- The comments speak of the checksum of the list content; the code folds the head's word once per node, and the model follows the code.
- 32-bit overflow of `insize` in the sort needs a list of 2^31 nodes; a comparison function that is no total preorder, or that changes records in another way than the program's two, is left out.
- `CoreBuffer.BenchState`: the seeds are given by their low bytes, which is all the code uses, and the final counters are folded as 32-bit values.
- Main program, timing, known-answer tables, matrix multiplication and memory layout of CoreMark.
- Signals and timers of the scheduler are an arbitrary interrupt pattern; logging, waiting and reading the clock are left out. A failing dispatch is a property of the job, and killing a job always returns.
- `JobScheduler.Scheduler.Run`: dependencies must belong to earlier targets, as the source's comment assumes; a missing dependency raises an uncaught exception there.
- `WildcardText.SubstWorker`: the condition for the loop to end is sufficient, not necessary; with stray braces of both sides in values, whether it ends depends on how they meet after splicing. Values that are neither strings, numbers, booleans nor lists are left out.
- `WildcardText.SubstWildcards`: at a wildcard `eval_cmd` that is not ignored the model stops with an outcome of its own; running the command is not part of it.
- Attributes of fields and registers that packing copies unchanged and no check looks at, the write-enable names of numbered registers, and the parsing of register descriptions.
- `I2cOps.ParsedRoundTrips`: digits are ASCII digits; line splitting, prefixes, titles and drawing are left out.
- Register windows, ROM_EXT manifests, keccak round constants, sparse state encodings, flow configuration merging: provable, but easy next to the rest.
