# Perfect hashing, verified

ConstexprCore builds perfect hash sets and maps at compile time. A generator searches for a hash under which all
keys fall on different slots; a container copies that hash into flat byte tables and answers membership and lookup
queries with one masked word or vector compare. This project models both families of the library, the classic one
(at most 255 keys of at most 254 bytes) and the wide one, from the search down to the page-safe loads, and proves
that what comes out is exact: a string is found exactly when it is one of the declared keys, with that key's index
and value, for every string and at every address.

The specification of everything is a list of distinct byte strings. The chain that connects it to the code:

1. **Searches.** `Positions` (bounded backtracking over byte positions), `PartitionSolver` (one value per position
   and byte, XOR signatures, generation-stamped collision table), `Displacement` (hash-and-displace and the seeded
   whole-key hash), `WideGenerator` with `LaneSort`, `BucketSort` and `WidePlacement` (heap sort, counting sort,
   pilot search, seed re-rolls). All of them end in the one predicate `SlotTable.Perfect`. `ClassicGenerator` tries
   the three classic tiers over growing tables. Every search is deterministic, and its failure is stated as what it
   does: `Ranking` and `Greedy` give the order of the candidates and the placement at
   least displacements as functions, `Positions.Selection` and `PartitionSolver.StuckAfter` the position search and
   the run over the symbols. So success and failure exclude each other, and "the first that works" means it.
   `PinnedValues`, `SelectionFailure` and the lemmas named `...FailureMeans` then bound when a search can fail at all.
   Searches and containers share their hashes, so exact queries would not notice a hash that reads too little:
   `HashInputs` and `WideHashInputs` show that every input of every hash matters, `Unmixing` runs the hashes backwards,
   and `Congruential` proves the full period of the generator that the solver's salts come from.
2. **Containers.** `ClassicContainer` and `WideContainer` are classes whose constructors fill arrays step by step;
   `ClassicTables`, `ClassicQueries`, `WideTables`, `LaneCompare`, `FusedValues` and `WideMaps` say what the finished
   tables represent and what the queries answer.
3. **Machine level.** `Memory` (addresses, 4096-byte blocks of which some are mapped, 16-byte vectors),
   `NeonCompare` (AArch64: table lookups), `MaskCompare` (x86-64 and LoongArch: AND masks and sign bits) and `Chunks`
   (long keys, on these and in plain C++). A load requires every byte it reads to be in a mapped block, so a query
   that verifies for all views reads nothing it may not read.
4. **Top.** `Factory` chooses the container and states the end-to-end theorem once for both.

Conventions. A byte is a number below 256; a 64-bit word is a number with its wrap-around written out
(`% TWO_TO_THE_64`); a word and its eight bytes, low end first, are converted with `LittleEndian`. Template
parameters are ordinary parameters. A `throw` or a `false` is a failure value. `x & (M - 1)` for a power of two M
is written as a remainder, which `Words.MaskIsRemainder` justifies. Constant evaluation and run time are told apart
by a flag or by separate functions, and proved to agree. `known` stands for what the compiler knows of the sizes of
objects, and is arbitrary. `hide` statements only keep definitions out of proofs that do not need them.

Results that are not visible from any one function:

* The final collision test and the final count of the partition solver can never fail, and for the plan of a
  generator neither can the verification throws of the constructors (`PartitionSolver.TryGenerateGperf`,
  `ClassicContainer.MakeSet`, `WideContainer.MakeSet`, `WideMaps.MakeMap`).
* In the partition solver a value that does not work is pinned by a pair of keys of equal signature of which one has
  the symbol. So a symbol that finds no value is in f keys with f * (n - f) at least m, and fewer than 32 different
  short keys never need a displacement tier unless salts collide (`PinnedValues`,
  `ClassicGenerator.FewKeysNeedNoFallback`). No two symbols have the same salt, because the congruential generator has
  full period; so where one position tells the keys apart nothing is left to chance
  (`ClassicGenerator.OnePositionNeedsNoFallback`).
* The position search finds one position whenever one is enough, first and last byte whenever they are, and at most
  eight whenever its budget covers the choices and some choice works, as it does for up to three positions and for up
  to twelve candidates. It fails exactly where those two, the bounded search and the best candidates all together fail
  (`SelectionFailure`).
* Every hash can be undone step by step: a seed gives back its index, a key and its hash give back the seed, a lane hash
  and all lanes but the first give back what the first contributed (`Unmixing`). So keys that differ in exactly one
  chunk, lane, byte read, or in their length, have different hashes under every seed.
* The fast lane hash never tells apart keys that differ in the highest bits of exactly two lanes, whatever the seed; the
  strong one always does where the lanes are neighbours. A set with two such keys gets a plan of the strong hash or none
  (`WideHashInputs.HighBitsUnderEverySeed`, `WideHashInputs.OnlyStrongPlans`).
* A seed, or a table size in the displacement tiers, fails only for one of two reasons that can be read off the
  hashes: two keys in one bucket with congruent hashes, which no table of displacements separates, or a bucket whose
  size times the number of keys placed before it is at least the number of displacements tried.
* The check at the end of the classic constructor is enough: hash data of any origin, whatever positions and values
  it holds, gives a set that is exact for every string if it passes (`ClassicContainer.MakeSet`). The one at the end
  of the wide constructor is not, in two ways. It lets through a plan that names some key at no slot, as when the only
  key is the empty string (`WideContainer.UnnamedEmptyKeyPasses`), and a key longer than MaxKeyLen, which the
  constructor does not look for, as when the only key is one byte too long (`WideContainer.OverlongKeyPasses`). What
  gets through is exact if and only if every key is named and none is too long (`WideContainer.MakeSet`,
  `WideContainer.ExactMeans`). The library's own factories pass only such plans and keys.
* Fusing values cannot fail: for any plan and any keys the map's constructor throws what its set's does and nothing
  else, since fused tables answer every query as before (`WideMaps.SameSetSameAnswers`, `WideMaps.MakeMap`).
* An empty key makes hash-and-displace undefined exactly where a placement comes to hash it: its bucket's turn has
  come and the keys before it in the bucket find free slots. A placement may fail before that, and then the tier, and
  the next, go on with the empty key in the set (`Displacement.TryHashAndDisplace`).
* A position search over different keys never fails when the longest key is shorter than the number of positions
  (`Positions.SelectPositions`). For longer keys it is a heuristic.
* Tier 2's own case for lengths alone is never used: where lengths suffice, tier 1 has succeeded
  (`ClassicGenerator.LengthsAreForTierOne`).

## Model

| member | source | states |
|---|---|---|
| Factory.IndexOfIsExact | include/ConstexprCore/perfect_hash.h:760-807 | whichever container holds the keys, with table lookups, AND masks or plain bytes and words, at every address, in constant evaluation and at run time: the query answers i exactly when the string is key i |
| Factory.MakePerfectSet | include/ConstexprCore/perfect_hash.h:919-939 | the set returned represents the keys and is wide exactly for more than 255 keys or keys of 255 bytes and more; duplicates never get through; no hash only where every search of the chosen generator fails, and no set where every search does; the undefined read of an empty key exactly where the classic search comes to it |
| PowersOfTwo.Smear | include/ConstexprCore/detail/gperf_generator.h:46-52 | the shift-and-or chain yields the least number of the form 2^k - 1 that is at least x |
| PowersOfTwo.SmearRoundsUp | include/ConstexprCore/detail/gperf_generator.h:43-55 | the bit-smear form gives the least power of two at least n exactly for n up to 2^63, and zero above |
| PowersOfTwo.NextByDoubling | include/ConstexprCore/detail/gperf_generator.h:12-17 | for every n up to 2^63 the doubling loop ends with the same power of two as the bit-smear form |
| PowersOfTwo.SmearIsNextPowerOf2 | include/ConstexprCore/detail/gperf_generator.h:12-55 | as numbers, both forms round up as the generators' next power of two does |
| Numbers.ComputeLog2 | include/ConstexprCore/detail/wide_generator.h:117-121 | the loop finds the least l with 2^l at least n |
| Numbers.Log2OfPow2 | include/ConstexprCore/detail/wide_generator.h:117-121 | wide_log2 undoes powers of two |
| Numbers.NextPowerOf2IsLeast | include/ConstexprCore/detail/gperf_generator.h:12-17 | no smaller power of two is at least n, and the result is below 2n |
| Words.MaskIsRemainder | include/ConstexprCore/perfect_hash.h:735-738 | masking with 2^k - 1 is the remainder modulo 2^k |
| Words.OneBitTest | include/ConstexprCore/perfect_hash.h:97 | m & (m - 1) is zero exactly for powers of two |
| Words.AssembleLane | include/ConstexprCore/detail/simd16.h:395-402 | the byte loop yields the little-endian word of bytes [8*lane, 8*lane+8), zero past the end |
| Words.ByteOfLittleEndian | include/ConstexprCore/wide_perfect_hash.h:107-110 | shifting a word right by 8b and masking with 0xFF gives back byte b it was assembled from |
| Positions.PositionsDistinguish | include/ConstexprCore/detail/gperf_generator.h:77-99 | true exactly when every pair of keys of congruent length differs at a listed position |
| Positions.CountUndistinguished | include/ConstexprCore/detail/gperf_generator.h:101-124 | the number of pairs that no listed position tells apart |
| Positions.LargerTableIsEasier | include/ConstexprCore/detail/gperf_generator.h:1101-1106 | positions that tell the keys apart modulo m do so modulo every multiple of m |
| Positions.DiscriminatingPower | include/ConstexprCore/detail/gperf_generator.h:126-151 | the number of different (length modulo m, byte) pairs a position gives |
| Positions.UselessMember | include/ConstexprCore/detail/gperf_generator.h:227-234 | a position that separates no pair its predecessors leave can be dropped from any choice: pruning on it is safe |
| Positions.SolutionExists | include/ConstexprCore/detail/gperf_generator.h:227-234 | if some choice of at most `depth` candidates separates all pairs, one in which each member separates a pair of its own does |
| Positions.AheadAfterSkip | include/ConstexprCore/detail/gperf_generator.h:231-234 | moving to the next candidate without going deeper passes over no solution |
| Positions.BacktrackingSearch | include/ConstexprCore/detail/gperf_generator.h:166-238 | found: the positions written separate all pairs; not found with budget left: no choice of at most MAX_DEPTH of the first 20 candidates does; the outcome is that of the recursion over path and budget; it ends, and the stack guard is dead |
| Positions.RankCandidates | include/ConstexprCore/detail/gperf_generator.h:252-283 | a permutation of the positions below 255 that occur and the last byte, in non-increasing order of discriminating power |
| Positions.CandidatesAre | include/ConstexprCore/detail/gperf_generator.h:252-273 | the candidates are the last byte and the positions below 255 that some key has, once each |
| Ranking.ExchangeSort | include/ConstexprCore/detail/gperf_generator.h:275-283 | the exchange sort arranges items and weights as the nested-loop function ExchangeSorted does |
| Ranking.ExchangeSortedSorts | include/ConstexprCore/detail/gperf_generator.h:275-283 | that arrangement is a permutation in which weights do not increase |
| Ranking.SortedStaysPut | include/ConstexprCore/detail/gperf_generator.h:275-283 | what is in order already stays as it is: equal weights are never exchanged |
| Positions.SelectPositions | include/ConstexprCore/detail/gperf_generator.h:240-335 | the outcome is Selection: lengths, best single position, first and last byte, bounded search, then greedily; the positions returned separate all pairs and fit a byte table; zero positions exactly when the lengths suffice; failure is impossible for different keys shorter than MAX_POSITIONS; when else it fails is SelectionFails |
| Positions.SelectionTriesAll | include/ConstexprCore/detail/gperf_generator.h:313-334 | where all candidates fit among the positions the selection fails only if all of them together do not separate the keys |
| SelectionFailure.SelectionFails | include/ConstexprCore/detail/gperf_generator.h:240-335 | the selection fails exactly where the best candidates that there is room for fail all together, first and last byte do where there is room for two, and the bounded search over the ranked candidates finds nothing |
| SelectionFailure.SearchCovers | include/ConstexprCore/detail/gperf_generator.h:166-238 | a search with more budget than there are choices to come gives up only where no choice of its size works |
| SelectionFailure.BudgetIsEnough | include/ConstexprCore/detail/gperf_generator.h:300-311 | the budget of 5000 covers every choice for at most three positions and for at most twelve candidates |
| SelectionFailure.FailureMeansNoSmallSet | include/ConstexprCore/detail/gperf_generator.h:300-311 | where the budget covers all choices, either no choice of at most eight of the best twenty candidates works, or at most eight positions are returned |
| SelectionFailure.FallbackFails | include/ConstexprCore/detail/gperf_generator.h:313-334 | the greedy fallback fails exactly where the best candidates that there is room for do not suffice together |
| SelectionFailure.FullPower | include/ConstexprCore/detail/gperf_generator.h:126-151 | a position tells all keys apart exactly when its power is the number of keys |
| SelectionFailure.OnePositionIsFound | include/ConstexprCore/detail/gperf_generator.h:285-289 | if any single candidate tells the keys apart, one position is selected |
| SelectionFailure.TwoPositionsAreFound | include/ConstexprCore/detail/gperf_generator.h:291-298 | if first and last byte tell the keys apart, at most two positions are selected |
| Positions.CandidatesTellAllApart | include/ConstexprCore/detail/gperf_generator.h:313-329 | different keys of at most 255 bytes are separated by the candidate list, so the greedy fallback fails only for want of room |
| PartitionSolver.SumAfterValue | include/ConstexprCore/detail/gperf_generator.h:531-534 | giving a symbol its value adds it to the hash of exactly the keys that have the symbol |
| PartitionSolver.SignatureAfterDetermined | include/ConstexprCore/detail/gperf_generator.h:476-484 | xor-ing a symbol's salt out of the signatures of its keys leaves the xor over the symbols still undetermined |
| PartitionSolver.SameOpenSameSignature | include/ConstexprCore/detail/gperf_generator.h:340-344 | keys with the same undetermined symbols have the same signature, whatever the salts: salt collisions only merge classes |
| PartitionSolver.FinalSignature | include/ConstexprCore/detail/gperf_generator.h:472-541 | once every symbol is determined each signature is zero |
| PartitionSolver.MakeSalts | include/ConstexprCore/detail/gperf_generator.h:440-449 | one salt per position and byte, in the order in which the congruential generator yields them; that no two are equal is SaltsDiffer |
| Congruential.FullPeriod | include/ConstexprCore/detail/gperf_generator.h:440-449 | a generator whose multiplier is 1 modulo 4 and whose increment is odd is back at its first residue modulo 2^k only after a multiple of 2^k steps |
| PartitionSolver.SaltStatesDiffer | include/ConstexprCore/detail/gperf_generator.h:440-449 | the salt generator repeats no state for 2^64 steps |
| PartitionSolver.SaltsDiffer | include/ConstexprCore/detail/gperf_generator.h:440-449 | different symbols have different salts |
| PartitionSolver.SaltIsNotZero | include/ConstexprCore/detail/gperf_generator.h:440-449 | no salt of the first four positions is zero, so having a symbol always shows in the signature of a single position |
| PartitionSolver.SymbolsInOrder | include/ConstexprCore/detail/gperf_generator.h:388-404 | the enumeration goes by position, then by byte |
| PartitionSolver.SymbolOrder | include/ConstexprCore/detail/gperf_generator.h:405-413 | the order of determination lists the occurring symbols once each, most frequent first |
| PartitionSolver.SymbolsBeforeMembers | include/ConstexprCore/detail/gperf_generator.h:388-404 | the enumeration lists exactly the symbols that occur, each once |
| PartitionSolver.RankSymbols | include/ConstexprCore/detail/gperf_generator.h:388-413 | the symbols in the order in which enumeration and sort leave them |
| PartitionSolver.SortBySignature | include/ConstexprCore/detail/gperf_generator.h:486-499 | the insertion sort leaves a permutation in signature order |
| PartitionSolver.Collides | include/ConstexprCore/detail/gperf_generator.h:503-529 | the generation-stamped scan finds a collision exactly when two keys of equal signature share a residue, whatever earlier scans left in the table |
| PartitionSolver.ResiduesRepeat | include/ConstexprCore/detail/gperf_generator.h:468-470 | residues repeat with period m, so a search limit of at least m tries every value that matters |
| PartitionSolver.SearchValue | include/ConstexprCore/detail/gperf_generator.h:501-537 | the first value that keeps keys of equal signature apart; if none below the limit does, none at all does |
| PartitionSolver.DetermineSymbol | include/ConstexprCore/detail/gperf_generator.h:472-541 | the symbol gets the least value that keeps keys of equal signature apart, and none only if no value whatever does; after acceptance any two keys with the same undetermined symbols have different partial hashes modulo m |
| PartitionSolver.SignatureClassesSuffice | include/ConstexprCore/detail/gperf_generator.h:340-344 | separating keys of equal signature separates keys of equal undetermined symbols |
| PartitionSolver.AllSlotsDiffer | include/ConstexprCore/detail/gperf_generator.h:543-549 | with nothing undetermined all n slots differ |
| PartitionSolver.OneRun | include/ConstexprCore/detail/gperf_generator.h:472-541 | two runs of least values of the same length are equal: the run is determined by keys, positions and m |
| PartitionSolver.SolvedIsNotStuck | include/ConstexprCore/detail/gperf_generator.h:472-541 | a run that gives every symbol its least value excludes one that is stuck at some symbol |
| PartitionSolver.RunSymbols | include/ConstexprCore/detail/gperf_generator.h:472-541 | either all symbols have got their least values, or the values of the first k are least and no value at all suits symbol k, beside signatures and partial hashes that are those the run has come to |
| PartitionSolver.TryGenerateGperf | include/ConstexprCore/detail/gperf_generator.h:354-554 | success exactly where the position search finds positions and the run over their symbols is not stuck; then a perfect table over these positions and the run's values, without positions exactly when the lengths suffice; a failure names the symbol the run is stuck at; never a failure in the final checks |
| PinnedValues.CollisionIsPinned | include/ConstexprCore/detail/gperf_generator.h:501-529 | a value that does not work is the one value at which some two keys of equal signature, one with the symbol and one without, meet: the others were apart and move together |
| PinnedValues.FewMatesFindAValue | include/ConstexprCore/detail/gperf_generator.h:501-541 | a symbol with fewer such pairs than slots finds a value |
| PinnedValues.StuckSymbolSplitsTheKeys | include/ConstexprCore/detail/gperf_generator.h:472-541 | a symbol that finds no value is in f of n keys with f * (n - f) at least m; the first symbol may also fail because salts collide |
| PinnedValues.FewKeysAlwaysGetValues | include/ConstexprCore/detail/gperf_generator.h:472-541 | for n * n below 4m the run is never stuck, unless keys of equal length modulo m start with equal signatures |
| PinnedValues.FewKeysOnlyLackPositions | include/ConstexprCore/detail/gperf_generator.h:354-541 | then the solver fails only for want of positions |
| PinnedValues.OnePositionStartsApart | include/ConstexprCore/detail/gperf_generator.h:451-459 | where one position tells the keys apart no two keys of congruent length start with equal signatures |
| PinnedValues.OnePositionIsEnough | include/ConstexprCore/detail/gperf_generator.h:354-541 | so if some one candidate tells the keys apart and n * n is below 4m, the solver succeeds |
| SlotTable.BuildTable | include/ConstexprCore/detail/gperf_generator.h:543-549 | filling succeeds exactly when the slots differ, and then slot and key name each other |
| SlotTable.PerfectTable | include/ConstexprCore/detail/gperf_generator.h:550-553 | in a perfect table all slots differ and exactly n of them are filled: the count test is implied |
| Displacement.SafeByte | include/ConstexprCore/detail/gperf_generator.h:663-667 | byte idx of a non-empty key, or zero past its end |
| Displacement.LoadChunk | include/ConstexprCore/detail/gperf_generator.h:908-925 | both forms of the chunk load give the same zero-padded little-endian word |
| Displacement.ComputeFullHash | include/ConstexprCore/detail/gperf_generator.h:927-939 | constant evaluation and run time hash every key alike |
| HashInputs.FullHashReadsSeed | include/ConstexprCore/detail/gperf_generator.h:927-939 | one key has a different hash under every seed |
| HashInputs.FullHashReadsLength | include/ConstexprCore/detail/gperf_generator.h:927-939 | keys that differ by zeros past the end only have different hashes |
| HashInputs.FullHashReadsChunk | include/ConstexprCore/detail/gperf_generator.h:927-939 | keys of one length that differ in exactly one 8-byte chunk have different hashes under every seed |
| HashInputs.SameFolds | include/ConstexprCore/detail/gperf_generator.h:927-932 | chunks are read in order: the first n steps depend on the length and the first n chunks alone |
| Unmixing.SeedOfUndoes | include/ConstexprCore/detail/gperf_generator.h:927-939 | key and hash give back the seed: the hash run backwards, step by step |
| HashInputs.SeededBucketIs | include/ConstexprCore/detail/gperf_generator.h:956-959 | the bucket is the eight bits of the hash from bit 48 on |
| HashInputs.BucketHashReads | include/ConstexprCore/detail/gperf_generator.h:650-656 | keys that differ in exactly one of first byte, last byte and length, modulo 256, are in different buckets |
| HashInputs.KeyHashIsPolynomial | include/ConstexprCore/detail/gperf_generator.h:669-683 | the key hashes are the polynomials in 31 of the length and the first two, or four, bytes in order |
| HashInputs.KeyHashReadsByte | include/ConstexprCore/detail/gperf_generator.h:669-683 | keys of one length that differ in exactly one byte read have different key hashes |
| HashInputs.KeyHashReadsLength | include/ConstexprCore/detail/gperf_generator.h:669-683 | keys with the same bytes read but different lengths have different key hashes |
| Displacement.OrderBuckets | include/ConstexprCore/detail/gperf_generator.h:758-778 | the buckets in the order in which first appearance and sort leave them: every bucket that has keys once, in non-increasing order of the number of its keys |
| Displacement.FirstSeenInOrder | include/ConstexprCore/detail/gperf_generator.h:758-769 | before the sort the buckets are listed in the order of their first keys |
| Displacement.FindDisplacement | include/ConstexprCore/detail/gperf_generator.h:792-813 | the first displacement below the limit at which the keys that have a hash find different free slots, or none if there is none; undefined exactly if a key without a hash comes after them |
| Displacement.TryPlacement | include/ConstexprCore/detail/gperf_generator.h:780-820 | success exactly where no bucket, largest first and each at its least displacement, is left without one, and no key without a hash is come to; then slot (disp[bucket] + hash) mod m holds exactly its key, displacements are these least ones and fit a byte |
| Displacement.MissingHashesDoNotMatter | include/ConstexprCore/detail/gperf_generator.h:780-820 | whether a placement fails, or comes to a key without a hash, depends on the hashes of the other keys alone |
| Displacement.WrapIsInvisible | include/ConstexprCore/detail/gperf_generator.h:1001 | for table sizes that divide 2^64 the wrapped sum gives the slot of the hash's residue plus the displacement |
| Displacement.BucketCheckIsRedundant | include/ConstexprCore/detail/gperf_generator.h:1003-1004 | without a congruent pair the collision check inside a bucket never fires, at any displacement |
| Displacement.CongruentPairIsHopeless | include/ConstexprCore/detail/gperf_generator.h:960-962 | two congruent keys in one bucket defeat every table of displacements |
| Greedy.FailureIsStuck | include/ConstexprCore/detail/gperf_generator.h:780-820 | a placement that fails has placed the buckets before some k, each at its least displacement, and bucket k fits at none beside them |
| Greedy.StuckEndsIt | include/ConstexprCore/detail/wide_generator.h:236 | and a bucket that fits at none ends it: failure and success exclude each other |
| Displacement.PlacementFailureMeans | include/ConstexprCore/detail/gperf_generator.h:997-1015 | without a congruent pair a placement fails only on a bucket whose size times the number of keys placed before it is at least the number of displacements |
| Displacement.TryHashAndDisplace | include/ConstexprCore/detail/gperf_generator.h:713-835 | length-only plan exactly when lengths suffice; otherwise a perfect table, with the 4-byte hash exactly where the 2-byte placement fails; failure exactly where both placements fail; undefined exactly where the first that does not fail comes to hash an empty key |
| Displacement.HdFailureMeans | include/ConstexprCore/detail/gperf_generator.h:885-893 | this tier fails at a size only on a congruent pair or a bucket that is large beside those before it |
| Displacement.FindCongruentPair | include/ConstexprCore/detail/gperf_generator.h:963-967 | the pre-check is true exactly when two keys of one bucket are congruent |
| Displacement.TrySeededFullHash | include/ConstexprCore/detail/gperf_generator.h:941-1025 | the first of 512 seeds that does not fail, where failing is a congruent pair or a bucket without a displacement in the placement; none exactly where all 512 fail |
| Displacement.SeedFailureMeans | include/ConstexprCore/detail/gperf_generator.h:960-1017 | a seed fails only on a congruent pair or a bucket that is large beside those before it |
| HashInputs.DifferentBucketsSuffice | include/ConstexprCore/detail/gperf_generator.h:785-813 | keys each in a bucket of its own are placed at every size that holds them, in both displacement tiers |
| ClassicGenerator.SizesArePowersOf2 | include/ConstexprCore/detail/gperf_generator.h:1081-1098 | every table size tried is a power of two of at most 256 |
| ClassicGenerator.SizesAreAllPowersOf2 | include/ConstexprCore/detail/gperf_generator.h:1092-1098 | exactly the powers of two from the least that holds all keys up to eight times that, and up to 256, are tried |
| ClassicGenerator.PreflightIsSound | include/ConstexprCore/detail/gperf_generator.h:1101-1112 | positions that work at any size tried work at the cap the pre-flight probes |
| ClassicGenerator.TryGperfPo2 | include/ConstexprCore/detail/gperf_generator.h:635-648 | the result is a perfect hash at the first reachable size at which the solver does not fail |
| ClassicGenerator.TryHdPo2 | include/ConstexprCore/detail/gperf_generator.h:1062-1074 | the same for hash-and-displace; undefined exactly where, at some size and failing at all smaller ones, it comes to an empty key |
| ClassicGenerator.TryFhPo2 | include/ConstexprCore/detail/gperf_generator.h:1051-1060 | the same for the seeded hash: all 512 seeds fail at every smaller size, and not all at this one |
| ClassicGenerator.ComputePhf | include/ConstexprCore/detail/gperf_generator.h:1084-1120 | duplicates are reported exactly when there are any; a result is a perfect hash of the keys in a power-of-two table of at most 256 slots, from the first tier that does not fail and at the first size at which it does not, length-only exactly where lengths suffice; different keys get none exactly where all three tiers fail; undefined exactly where tier 2 comes to hash an empty key |
| ClassicGenerator.LengthsAreForTierOne | include/ConstexprCore/detail/gperf_generator.h:1107-1117 | where lengths alone suffice at some size the first tier succeeds, so the second never returns a hash without positions |
| ClassicGenerator.FewKeysNeedNoFallback | include/ConstexprCore/detail/gperf_generator.h:1101-1115 | fewer than 32 different keys shorter than MAX_POSITIONS get a hash of the first tier, unless salts collide |
| ClassicGenerator.OnePositionNeedsNoFallback | include/ConstexprCore/detail/gperf_generator.h:1101-1115 | fewer than 32 keys that some one position tells apart get a hash of the first tier, salts or no salts |
| ClassicContainer.ReducedSum | include/ConstexprCore/perfect_hash.h:286-291 | reducing every value modulo the table size keeps the residue of every partial sum |
| ClassicContainer.NarrowIsNarrowed | include/ConstexprCore/perfect_hash.h:280-303 | of a generated hash narrowing keeps displacements and positions, and every value's residue |
| ClassicContainer.NarrowingKeepsSlots | include/ConstexprCore/perfect_hash.h:280-309 | over the byte tables the container hashes every key to the slot the generator planned, in all three modes |
| ClassicContainer.ClassicSet.CopyHash | include/ConstexprCore/perfect_hash.h:282-303 | the tables after copying are the data narrowed to bytes, reduced or raw as its mode demands, with LAST_CHAR as 255, for data with any positions and values |
| ClassicContainer.ClassicSet.Verify | include/ConstexprCore/perfect_hash.h:305-309 | the loop passes exactly when every key's slot names the key |
| ClassicContainer.ClassicSet.StoreKey | include/ConstexprCore/perfect_hash.h:176-234 | row, length and packed word of one slot, and no other slot touched |
| ClassicContainer.ClassicSet.FillSlots | include/ConstexprCore/perfect_hash.h:170-186 | every slot stores its key, or nothing, and every key knows its slot |
| ClassicContainer.ClassicSet.FillDirect | include/ConstexprCore/perfect_hash.h:188-195 | the direct table names each one-byte key and nothing else |
| ClassicContainer.ClassicSet.InitInlineData | include/ConstexprCore/perfect_hash.h:162-235 | once every key's slot names the key, the finished tables represent the keys, whatever the other slots name |
| ClassicContainer.FittingStillNames | include/ConstexprCore/perfect_hash.h:305-309 | for a hash from any tier the slot of every key still names the key after narrowing |
| ClassicContainer.MakeSet | include/ConstexprCore/perfect_hash.h:270-312 | for hash data of any origin: too-long keys are rejected, the verification throws exactly if after narrowing some key's slot does not name it, and whatever passes represents the keys; for a hash from any tier that throw is unreachable |
| ClassicContainer.MakeSetDirectly | include/ConstexprCore/perfect_hash.h:237-268 | the same for the constructor that runs the solver itself, at any table size up to 256 |
| ClassicContainer.MakeMap | include/ConstexprCore/perfect_hash.h:820-842 | the map represents the keys with their values, with the set's own errors |
| ClassicTables.Reduce | include/ConstexprCore/perfect_hash.h:735-738 | mask form and remainder form give the same slot |
| ClassicTables.BranchyTerm | include/ConstexprCore/perfect_hash.h:724-733 | one position in the branching form contributes the value of the key's byte there, or nothing |
| ClassicTables.BranchlessTerm | include/ConstexprCore/perfect_hash.h:708-722 | the masked form contributes the same, for every string including the empty one |
| ClassicTables.AccumulateHash | include/ConstexprCore/perfect_hash.h:702-738 | both loops give the same slot for every string |
| ClassicTables.ComputeHash | include/ConstexprCore/perfect_hash.h:655-739 | the slot of every string in all three modes |
| ClassicTables.EncodeQuery | include/ConstexprCore/perfect_hash.h:415-427 | two 2-byte loads inside the query give the overlap encoding of its first min(len, MaxKeyLen + 1) bytes |
| ClassicTables.OverlapWordInjective | include/ConstexprCore/perfect_hash.h:201-213 | the overlap encoding tells every key of at most four bytes from every other non-empty string |
| ClassicTables.PackInput | include/ConstexprCore/perfect_hash.h:371-384 | the branch-free packing is the zero-padded little-endian word |
| ClassicTables.MatchKeyExact | include/ConstexprCore/perfect_hash.h:401-430 | up to 4 bytes: accepted exactly when it is the stored key |
| ClassicTables.CompareWordExact | include/ConstexprCore/perfect_hash.h:510-525 | 5 to 8 bytes, with table lookups, AND masks and plain: the packed word decides |
| ClassicTables.RowExact | include/ConstexprCore/perfect_hash.h:526-534 | 9 to 16 bytes on vector targets: the row decides, with the length in byte 15 or apart |
| ClassicTables.CompareKeyExact | include/ConstexprCore/perfect_hash.h:484-628 | 5 bytes and more on AArch64, x86-64, LoongArch and in plain C++ as std::equal: once the lengths agree the compare is equality |
| ClassicTables.ShortRowExact | include/ConstexprCore/perfect_hash.h:442-463 | the mask row picked with len & 15 or len & 31 is right for every length a key can have, and harmless for all others |
| ClassicTables.KeyMatchesExact | include/ConstexprCore/perfect_hash.h:434-471 | on every layout of these targets, a non-empty string of any length is accepted exactly when it is the key stored at that slot; empty slots accept none |
| ClassicQueries.SlotMatchExact | include/ConstexprCore/perfect_hash.h:744-758 | slot_match finds the slot of every key and nothing else |
| ClassicQueries.QueriesAreExact | include/ConstexprCore/perfect_hash.h:630-653 | contains and index_of are exact, through the direct table and through the general path |
| ClassicQueries.DirectLookup | include/ConstexprCore/perfect_hash.h:771-791 | the direct table answers every one-byte string |
| ClassicQueries.KeyAtIsTheKey | include/ConstexprCore/perfect_hash.h:345-348 | key_at gives back every key |
| ClassicQueries.LookupIsExact | include/ConstexprCore/perfect_hash.h:860-872 | lookup gives the declared value of every key and nothing for any other string |
| WideHash.KeyRowBytes | include/ConstexprCore/detail/wide_generator.h:64-75 | a key's row is its bytes, then zeros, with the length in the top byte of the length lane |
| WideHash.KeyRowInjective | include/ConstexprCore/detail/wide_generator.h:269-273 | two keys have the same row exactly when they are equal or, without a length lane, equal up to trailing NULs |
| WideHash.ComputeHash | include/ConstexprCore/detail/wide_generator.h:91-108 | the loop computes the hash of the lanes, fast or strong |
| WideHashInputs.HashReadsLane | include/ConstexprCore/detail/wide_generator.h:91-108 | lane vectors that differ in exactly one lane have different hashes, fast and strong, whatever the odd multipliers |
| WideHashInputs.HashReadsMultiplier | include/ConstexprCore/detail/wide_generator.h:91-108 | and so have multipliers that differ in exactly one whose lane is odd: each lane has its own |
| WideHashInputs.EverySeedReadsEveryLane | include/ConstexprCore/detail/wide_generator.h:91-114 | so keys whose lanes differ in exactly one have different hashes under every seed |
| Unmixing.HashUndone | include/ConstexprCore/detail/wide_generator.h:91-108 | the hash and all other lanes give back what the first lane contributed, in either variant |
| WideHashInputs.HighBitsUnderEverySeed | include/ConstexprCore/detail/wide_generator.h:85-90 | two lanes with their highest bits changed: the fast hash is the same under every seed, the strong one is different under every seed where the lanes are neighbours |
| WideHashInputs.OnlyStrongPlans | include/ConstexprCore/detail/wide_generator.h:305-314 | a set with two such keys gets a plan of the strong hash, if any |
| Unmixing.SeedIndexUndoes | include/ConstexprCore/detail/wide_generator.h:40-46 | a seed gives back the index it was made from |
| WideHashInputs.MultipliersVary | include/ConstexprCore/detail/wide_generator.h:77-83 | multipliers are odd words, and no three different indices share one |
| WideHashInputs.HashParts | include/ConstexprCore/detail/wide_generator.h:162-170 | bucket and base are the top bits of the hash and the bits below them |
| WideHashInputs.BucketCountBounds | include/ConstexprCore/detail/wide_generator.h:127-132 | at most two keys to a bucket on average, and no more buckets than keys |
| WideHash.ZeroHash | include/ConstexprCore/wide_perfect_hash.h:184-189 | all-zero lanes hash to zero under every seed, which the empty key's shortcut needs |
| WideHash.GeometryFits | include/ConstexprCore/detail/wide_generator.h:157-160 | bucket and base bits fit one word for both table sizes |
| BucketSort.CountingSort | include/ConstexprCore/detail/wide_generator.h:173-184 | order[start[b]..start[b+1]) lists exactly the keys of bucket b |
| BucketSort.SortedIsPermutation | include/ConstexprCore/detail/wide_generator.h:177-184 | the order is a permutation of the keys |
| BucketSort.BucketsLargestFirst | include/ConstexprCore/detail/wide_generator.h:193-209 | the passes list the buckets as Border does: every bucket once, in non-increasing order of size, those of one size in ascending order |
| WidePlacement.EmptyFromHere | include/ConstexprCore/detail/wide_generator.h:218 | at the first empty bucket every key has been placed, so the early break skips none |
| WidePlacement.FindDeadPair | include/ConstexprCore/detail/wide_generator.h:186-191 | true exactly when two keys share bucket and base |
| WidePlacement.DeadPairIsHopeless | include/ConstexprCore/detail/wide_generator.h:186 | a dead pair defeats every pilot table, not only those the search tries |
| WidePlacement.BucketStaysApart | include/ConstexprCore/detail/wide_generator.h:219-226 | without a dead pair one displacement keeps a bucket's keys apart, which the loop does not check |
| WidePlacement.SmallBucketFits | include/ConstexprCore/detail/wide_generator.h:219-236 | pigeonhole: a bucket of k keys finds a pilot when k times the number of taken slots is below the number of displacements |
| WidePlacement.NoFitIsStuck | include/ConstexprCore/detail/wide_generator.h:236 | a bucket of k keys that fits nowhere has k times the number of keys placed before it at least the table size |
| WidePlacement.SearchFailureMeans | include/ConstexprCore/detail/wide_generator.h:211-238 | the placement fails only on such a bucket |
| WidePlacement.SingletonsAreNeverStuck | include/ConstexprCore/detail/wide_generator.h:211-238 | and such a bucket has at least two keys |
| WidePlacement.PlaceBuckets | include/ConstexprCore/detail/wide_generator.h:211-238 | success exactly where no bucket, largest first and each at its least pilot, is left without one; then each key sits alone at slot (base + pilot) mod M, every other slot of the whole array is empty and the pilots are these least ones |
| LaneSort.LessIsTotal | include/ConstexprCore/detail/wide_generator.h:278-283 | lane vectors neither of which is less are equal |
| LaneSort.RootIsLast | include/ConstexprCore/detail/wide_generator.h:294-298 | the root of a heap is a largest element |
| LaneSort.HeapSort | include/ConstexprCore/detail/wide_generator.h:275-298 | the in-place heap sort leaves a permutation in lane order |
| LaneSort.FindEqualLanes | include/ConstexprCore/detail/wide_generator.h:299-303 | the adjacent scan finds two equal lane vectors if there are any |
| WideGenerator.LanesDistinct | include/ConstexprCore/detail/wide_generator.h:269-273 | all lane vectors differ exactly when no two keys are the same to the hash |
| WideGenerator.TryPlace | include/ConstexprCore/detail/wide_generator.h:151-243 | success exactly where the seed does not fail; then the plan fits the keys with the least pilots, whatever earlier seeds left behind |
| WideGenerator.SeedFailureMeans | include/ConstexprCore/detail/wide_generator.h:151-243 | a seed without a dead pair fails only on a bucket whose size times the keys placed before it is at least the table size |
| WideGenerator.TrySeeds | include/ConstexprCore/detail/wide_generator.h:245-256 | the first seed that does not fail, counted in seeds_tried; none exactly where all fail |
| WideGenerator.Build | include/ConstexprCore/detail/wide_generator.h:258-315 | exactly which error for too-long keys and for keys the hash cannot tell apart; a plan fits the keys and is the first that does not fail, over smaller seeds, the fast hash before the strong one and the tight table before the doubled one; no plan only where, and no success where, every seed of both hashes fails at both sizes |
| WideGenerator.NoPlanMeans | include/ConstexprCore/detail/wide_generator.h:305-314 | no plan means that 48 seeds of either hash fail at the least power of two of slots that holds all keys, and at twice that |
| WideTables.AgreeingRowIsTheKey | include/ConstexprCore/wide_perfect_hash.h:192-200 | a query whose row agrees with a key's outside the fused bits is that key: the clamp to MaxKeyLen + 1 exposes every longer query |
| WideTables.ZeroRowMatchesNothing | include/ConstexprCore/wide_perfect_hash.h:96-98 | an empty slot agrees with no non-empty query |
| WideTables.FormsAgree | include/ConstexprCore/wide_perfect_hash.h:201-256 | constant-evaluated and run-time branch answer alike for every string, address and target |
| LaneCompare.LaneCompareIsAgree | include/ConstexprCore/wide_perfect_hash.h:207-249 | the 64-bit lanes xor-ed, masked and tested against zero decide exactly what byte-wise agreement outside the fused bits does |
| LaneCompare.KeepValue | include/ConstexprCore/wide_perfect_hash.h:65 | the mask with FUSED_MASK taken out is, byte by byte, ones but for the fused bits |
| WideTables.MatchConstantExact | include/ConstexprCore/wide_perfect_hash.h:201-217 | the constant-evaluated query is exact |
| WideTables.MatchRuntimeExact | include/ConstexprCore/wide_perfect_hash.h:218-256 | the run-time query is exact |
| WideTables.EmptyKeySlot | include/ConstexprCore/wide_perfect_hash.h:184-189 | the empty string is answered right without a hash |
| WideTables.SameAnswer | include/ConstexprCore/wide_perfect_hash.h:192-217 | a string longer than MaxKeyLen gets the answer of every longer string that starts alike, where a byte holds the length, and of every one of its own length that agrees up to MaxKeyLen elsewhere, whatever the tables hold |
| WideTables.OverlongKeyIsNotExact | include/ConstexprCore/wide_perfect_hash.h:192-217 | so no set with such a key answers every query right |
| WideTables.KeyAtIsTheKey | include/ConstexprCore/wide_perfect_hash.h:150-160 | key_at gives back every key, fused values or not |
| WideContainer.WideSet.CopyPlan | include/ConstexprCore/wide_perfect_hash.h:95-100 | the tables hold the plan's pilots and slots, narrowed, with everything that is not a key's number as the empty marker |
| WideContainer.NarrowedSlot | include/ConstexprCore/wide_perfect_hash.h:95 | narrowing a pilot, however large, moves no key |
| WideContainer.WideSet.StoreKey | include/ConstexprCore/wide_perfect_hash.h:104-114 | the slot's bytes are the key's row, or its bytes and length, and no other slot is touched; fails exactly where the bytes run past the row |
| WideContainer.WideSet.FillSlots | include/ConstexprCore/wide_perfect_hash.h:101-115 | every slot holds the row of the key it names or zeros, and every key notes the last slot that names it; fails exactly where a named key overruns its row |
| WideContainer.MakeSet | include/ConstexprCore/wide_perfect_hash.h:86-121 | for any plan of the right sizes and keys of any length: exactly which throw there is; the verification throws exactly if some key does not pass; a set that gets through is exact, and represents the keys, if and only if every key is named by some slot and none is longer than MaxKeyLen |
| WideContainer.ExactMeans | include/ConstexprCore/wide_perfect_hash.h:116-120 | of what passes the verification, index_of is right for every string if and only if every key is named and none is too long |
| WideContainer.UnnamedKeyIsMisread | include/ConstexprCore/wide_perfect_hash.h:116-120 | a key that passes although no slot names it is found as another key |
| WideContainer.FittingPlanVerifies | include/ConstexprCore/wide_perfect_hash.h:116-120 | a plan of wide_build for keys that fit passes and names every key, so the throws are unreachable and the set represents the keys |
| WideContainer.UnnamedEmptyKeyPasses | include/ConstexprCore/wide_perfect_hash.h:116-120 | with the empty string as the only key a plan that names no key passes the verification |
| WideContainer.OverlongKeyPasses | include/ConstexprCore/wide_perfect_hash.h:86-121 | a lone key one byte longer than MaxKeyLen passes for MaxKeyLen up to 15, and for larger MaxKeyLen any longer key that has room in its row |
| FusedValues.FuseThenRead | include/ConstexprCore/wide_perfect_hash.h:162-171 | a value that fits the spare bits is read back unchanged |
| FusedValues.FuseIsInvisible | include/ConstexprCore/wide_perfect_hash.h:163-168 | fusing changes nothing a compare looks at, and no byte or length byte of a key that fits |
| FusedValues.CastRoundTrip | include/ConstexprCore/wide_perfect_hash.h:307-309 | the casts to unsigned and back keep every value of the type, negative ones included |
| WideContainer.WideSet.FuseValue | include/ConstexprCore/wide_perfect_hash.h:163-168 | rejects exactly values that do not fit, and otherwise writes the spare bytes of one slot |
| WideMaps.FuseKeepsHolds | include/ConstexprCore/wide_perfect_hash.h:304-313 | after fusing a value the rows still hold their keys and the value can be read |
| WideMaps.SameSetSameAnswers | include/ConstexprCore/wide_perfect_hash.h:314-318 | tables that differ only in rows and hold the same keys give every string the same answer: fusing breaks no compare |
| WideMaps.MakeMap | include/ConstexprCore/wide_perfect_hash.h:300-319 | for any plan and any keys: the throws are exactly those of the set, with values of the type neither throw about fused values can be reached; the map represents keys and values, and its set is exact, if and only if every key is named and none is too long |
| WideMaps.QueriesAreExact | include/ConstexprCore/wide_perfect_hash.h:330-356 | contains, index_of, lookup and lookup_or are exact for every string |
| WideMaps.MakeWideMap | include/ConstexprCore/wide_perfect_hash.h:385-394 | whenever a plan is found the map represents the keys with their values |
| NeonCompare.WindowIsMapped | include/ConstexprCore/detail/neon_compare.h:75-85 | for every address and length the 16-byte window lies in blocks that hold a byte of the key |
| NeonCompare.PageSafeLoad16 | include/ConstexprCore/detail/neon_compare.h:62-88 | bytes [0, len) of the result are the key's, shifted window or not |
| NeonCompare.Compare16 | include/ConstexprCore/detail/neon_compare.h:90-143 | true exactly when the zero-padded key is the stored row; lengths 17 to 31 compare sixteen bytes |
| NeonCompare.Compare15 | include/ConstexprCore/detail/neon_compare.h:145-162 | true exactly when bytes 0 to 14 agree and the stored length is not zero; the length comes back with it |
| NeonCompare.Compare8 | include/ConstexprCore/detail/neon_compare.h:164-190 | true exactly when the zero-padded key is the stored word |
| MaskCompare.CopyOrLoad16 | include/ConstexprCore/detail/sse2_compare.h:66-87 | bytes [0, len) of the result are the key's, from one load inside a block or from the zeroed copy, whatever is known of the object |
| MaskCompare.LoadAnded | include/ConstexprCore/detail/simd16.h:112-115 | the AND with the mask row leaves the zero-padded key |
| MaskCompare.MaskCompare16 | include/ConstexprCore/detail/sse2_compare.h:111-141 | true exactly when the zero-padded key is the stored row |
| MaskCompare.MaskCompare8 | include/ConstexprCore/detail/sse2_compare.h:89-109 | true exactly when the zero-padded key is the stored word |
| Memory.AllSixteenAgree | include/ConstexprCore/detail/neon_compare.h:136-142 | the narrowed mask is all ones exactly when the vectors are equal |
| Memory.FirstFifteenAgree | include/ConstexprCore/detail/neon_compare.h:159-161 | only the top nibble is clear exactly when the first fifteen bytes agree and the last does not |
| Memory.MoveMaskFull | include/ConstexprCore/detail/sse2_compare.h:139-140 | all gathered sign bits are set exactly when every compared byte is equal |
| Chunks.BuildSlidingMasks | include/ConstexprCore/detail/simd16.h:249-261 | the loop builds the sliding mask table |
| Chunks.SlidingRowForChunk | include/ConstexprCore/detail/simd16.h:238-242 | the row picked for chunk i is in range and keeps exactly the key's bytes of that chunk |
| Chunks.ChunksEqualMeans | include/ConstexprCore/detail/simd16.h:263-278 | all chunks agree exactly when the zero-padded key is the stored row |
| Chunks.FormsAgree | include/ConstexprCore/detail/simd16.h:321-355 | the mask form and the select form pick the same windows for every address and length |
| Chunks.Compare2Chunks | include/ConstexprCore/detail/simd16.h:309-357 | every byte read lies in a block that holds a byte of the key, and against a stored key of the same length the answer is equality |
| Chunks.TwoWindowsDecide | include/ConstexprCore/detail/simd16.h:315-318 | the first sixteen and the last sixteen bytes decide keys of up to 32 bytes |
| Chunks.CopyToBuffer | include/ConstexprCore/detail/simd16.h:386-387 | the buffer is the zero-padded key |
| Chunks.CompareChunks | include/ConstexprCore/detail/simd16.h:360-389 | for every MaxKeyLen up to 4080, with table lookups, AND masks or plain words, through each of the paths and whatever is known of the object: equality with a stored key of the same length |
| Chunks.Differences | include/ConstexprCore/detail/simd16.h:179-212 | on plain words: the or of the xors is zero exactly when the zero-padded key is the stored row |

## Left out

- Displacement.KeyHash: is not defined for the empty key, because the code reads `key[0]` unguarded; a placement that comes to it is reported as undefined.
- ClassicGenerator.ComputePhf: says nothing of how likely tier 3 is to succeed.
- Positions.SelectPositions: for keys as long as the number of positions or longer, failure does not mean that no set of positions exists; the search is bounded.
- Chunks.Compare2Chunks: is proved against a stored key of the query's length; for other lengths the caller's length test decides, as in the code.
- WideGenerator.Build: at most 2^31 keys, since the code keeps indices, buckets and pilots in 32 bits.
- ClassicTables.CompareKeyExact: leaves out the branch for keys of at most four bytes, which no query reaches, the per-ISA 32-byte helpers that the shared chunk compare replaces by default, and the scalar fallback of clang, which copies eight bytes when every key has eight; plain C++ is the std::equal form.
- WideContainer.ExactMeans: speaks of the query in constant evaluation; the two forms are proved to agree for keys that fit, and a longer key's run-time compare is not part of this model.
- WideMaps.MakeMap: fuses as many bits as the value type has, the default of the template parameter; values of other types are numbers that stand for them.
- Bit fields: OR of disjoint fields is a sum, here and in the lane rows.
- Words on big-endian targets: the model is little-endian throughout, like the packed comparisons.
- packed_keys2_ (bytes 8 to 15 as a word): only the scalar fallback of clang reads it.
- perfect_hash_map and make_perfect_map over the wide container: `WideMaps` and `ClassicContainer.MakeMap` cover both containers, and only sets are routed in `Factory`.
- algorithm_name, algorithm_description, fixed_string, kv, version macros and reflection: no behaviour that a proof would add to.
- Sanitizer attributes, branch hints and instruction counts.
- Throwing wrappers and the uncapped searches (generate_gperf's throw, compute_phf_po2, compute_phf_hd_po2): the same steps with another failure value.
