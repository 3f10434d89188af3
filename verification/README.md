# mempack arrangement refinement, modelled in Dafny

mempack draws a 2-D packing diagram of transmembrane helices from predicted
residue contacts. This project models the part of the program that decides
what is drawn:

* reading the contact lines and the topology line;
* the symmetry-swap search for equivalent helix arrangements;
* the genetic optimiser that picks a rotation for every helix;
* the ranking of the arrangements by their optimised scores.

It proves properties of each part.

The modules follow the source:

| module | file | models |
|---|---|---|
| `Geometry` | geometry.dfy | `lineSegmentIntersection`, with a root-free equivalent and the facts about when it reports a crossing |
| `Tokenize` | tokenize.dfy | `tokenize`: the comma split and the `operator>>` read of each field |
| `Crossovers` | crossovers.dfy | `count_crossovers`: the loops of each membrane side and the count of crossing pairs |
| `Matching` | matching.dfy | the neighbour lists and the match test of `swap_helices` |
| `Contacts` | contacts.dfy | the input lines, edge de-duplication, the residue-contact map, and the checks of `main` |
| `Mempack` | mempack.dfy | the global state of `globals.h` as class `State`: `swap_helices`, `get_residue_positions`, `optimise_rotation`, the reading loop |
| `Genetic` | genetic.dfy | the operators of the genetic search on pools held in arrays: `ga_init`, `schcmp`/`sortpool`, `gaselect`, `crossovr`, `mutate`, `statistics`, the truncation in `eval` |
| `Paramopt` | paramopt.dfy | the optimiser's globals as class `Optimiser`: `readparams`, `ga_init`, `eval`, `statistics`, `run_ga`, `optimise_parameters` |
| `DrawGraphs` | driver.dfy | the body of `main` for one component: reading, checks, swap search, scoring loop and ranked report |

The imperative routines are methods whose `ensures` ties their effect to a
specification function. The properties are lemmas about those functions:

* `SwapHelices` mutates `allHelixPositions` and `helixSwapsSeen` in place and recurses.
  * Its outcome is that of the recursive function `Search`, which walks the pairs (h, j) in the source's order.
  * The marks it leaves are the old ones plus exactly the pairs matched at its own level; a tie's inner marks are undone.
  * Arrangements are only appended.
  * Those before `x` are untouched.
  * Arrangement `x` never gains crossovers.
  * Every arrangement is a permutation of the first one.
* The GA pools are `array<Schema>` fields of `Optimiser`.
  * `gaselect`, `crossovr`, `mutate` and `statistics` update them in place, and `run_ga` swaps them by reference.
  * The random draws come from two caller-supplied streams with cursors: `uni`, uniform in [0, 1), and `gauss`.
  * Every operator is therefore a deterministic array transformation.
* The scores map of `main` (`map<double,int>`) is a strictly ascending sequence of (score, arrangement) entries.
  * An assignment inserts the score in order, or replaces the arrangement of an equal score.
  * Its entries are proved to be exactly the pairs (score of a, a), for each arrangement a that is the last with its score.

### Behaviour of the source that the model keeps

These are places where the source's behaviour is easy to misread. The model
follows the code in each.

* **Report rotations.** `optimise_parameters` returns `best` of the pool `run_ga` ends with.
  * `run_ga` breaks before swapping, so that is the new pool.
  * The rotations left in `all_rotations[a]` are those of the genome `eval` saw last (src/paramopt.c:190-193), which need not be the best one.
  * The report prints those rotations.
  * `Paramopt.Optimiser.OptimiseParameters` states this. run_ga either stopped on its convergence test or ran all the generations the fuel allows, and the result is the lowest score of the pool it ended on, and eval returned it for an in-range genome of that pool. The stored rotations are the truncation of `lastGenome`, the genome eval scored last, also in range.
* **Stale residue positions.** Each arrangement's residue map starts empty (src/draw_graphs.cpp:587-588), and only `get_residue_positions` writes positions into it, for the residues in a helix's range (src/draw_graphs.cpp:87-97).
  * The contact loop's `operator[]` also stores (0, 0) for a residue outside every helix (src/draw_graphs.cpp:126). That entry is never overwritten and reads (0, 0) forever, which is what the model reads without storing it.
  * Every `eval` places all the helices again, so it overwrites every other entry an earlier evaluation left.
  * `Mempack.State.Scorable` carries this fact about the map, and `Mempack.PlaceAllOverwrites` proves the overwrite.
  * So a score `eval` returns is the genome's own score, for every input. A contact residue outside every helix reads (0, 0).
* **Equal scores collapse.** The report emits one row per distinct score, not one per arrangement.
  * The arrangement shown for a score is the last one that had it (src/draw_graphs.cpp:596).
* **No swap search at four helices.** `swap_helices` is only called when `total > 4` (src/draw_graphs.cpp:572).
  * A four-helix input therefore yields exactly one arrangement, whatever its symmetry.
* **Recursion index.** `swap_helices` recurses on `x + 1`, not on the index of the arrangement it just appended.
* **Minimum mutation step.** The ±1 minimum step of `mutate` applies to integer parameters only (`paramtype == 0`).
  * `readparams` makes every parameter continuous, so that step never happens and the model omits it.
* **Where the score is divided.** `eval` returns the raw contact-distance sum.
  * The division by the number of contact edges happens in `main`, after the optimiser returns.
* **Stopping rule.** The search stops when `gen - prevgen > 50`, i.e. after 51 generations without a strict improvement, or when `worst == best`.
* **Unreachable guard.** The guard `seen_h && seen_j && h1_contact.size() == 1` (src/draw_graphs.cpp:317) can never hold.
  * The `else if` chain gives a one-element pair of lists at most one credit (`Matching.SingletonCreditsExclusive`).
* **Asymmetric crossing test.** `lineSegmentIntersection` is not symmetric: a loop touching another from inside can count as crossing it in one argument order only (`Geometry.TouchingIsAsymmetric`).
  * `count_crossovers` always passes the lower-indexed loop first.
* **State that is never reset.**
  * `mutate`'s `static double scale` is never reset between calls of `optimise_parameters`.
  * `besti` is a global that starts at 0 and is carried over as well.
  * The model keeps both in `Optimiser`.

## Model

| member | source | states |
|---|---|---|
| Geometry.LineSegmentIntersection | src/draw_graphs.cpp:137-182 | a zero-length segment or a shared end-point gives false |
| Geometry.LineSegmentIntersectionIsRootFree | src/draw_graphs.cpp:151-181 | for any distAB >= 0 with distAB^2 = \|AB\|^2, the result is exactly SegmentsCross: C and D split by line AB (one strictly below, one on or above) and the crossing within [0, \|AB\|] along AB |
| Geometry.RotateByDirection | src/draw_graphs.cpp:159-165 | rotating by (Bx/distAB, By/distAB) yields the dot and cross products with B divided by distAB |
| Geometry.ScaledPosition | src/draw_graphs.cpp:173 | ABpos computed on coordinates scaled by 1/k is ABpos of the unscaled coordinates divided by k |
| Geometry.AxisTestScaled | src/draw_graphs.cpp:167-178 | the rotated-frame side and position tests equal the unscaled sign test and the bound 0 <= position <= \|AB\|^2 |
| Geometry.CrossingPointOnLine | src/draw_graphs.cpp:172-173 | the crossing point lies on CD at a fraction in [0, 1], on line AB, at the computed position along AB |
| Geometry.SegmentsCrossMeet | src/draw_graphs.cpp:137-182 | a reported crossing is a real common point of the two segments |
| Geometry.TouchPoint | src/draw_graphs.cpp:167-170 | a segment starting at a point of AB does meet AB |
| Geometry.TouchingIsMissed | src/draw_graphs.cpp:167-170 | yet with C on line AB and D on its non-negative side no crossing is reported |
| Geometry.TouchingIsAsymmetric | src/draw_graphs.cpp:137-182 | with C strictly inside AB and D strictly to its left, CD is reported crossing AB but AB is not reported crossing CD |
| Tokenize.FirstComma | src/draw_graphs.cpp:63 | find_first_of: the first comma at or after i, or \|s\| for npos, with no comma before it |
| Tokenize.FirstNotComma | src/draw_graphs.cpp:60 | find_first_not_of: the first non-comma at or after i, or \|s\|, with only commas before it |
| Tokenize.Fields | src/draw_graphs.cpp:55-81 | every field is non-empty and comma-free |
| Tokenize.ParseInt | src/draw_graphs.cpp:70-71 | the int read from a field lies in the 32-bit range |
| Tokenize.Clamp | src/draw_graphs.cpp:71 | out-of-range values saturate at INT_MIN / INT_MAX, in-range values are kept |
| Tokenize.Tokenize | src/draw_graphs.cpp:55-81 | tokens gains exactly one int per maximal comma-free run, in order |
| Tokenize.TokensStep | src/draw_graphs.cpp:65-79 | one loop pass reads the field at lastPos and continues after the commas that follow it |
| Tokenize.FieldsSkipCommas | src/draw_graphs.cpp:60 | skipping the commas at lastPos drops no field |
| Tokenize.FieldsAtRun | src/draw_graphs.cpp:63-70 | the field read at lastPos runs exactly to the next comma, and the rest follows it |
| Tokenize.FieldsConcat | src/draw_graphs.cpp:55-81 | splitting a string at a comma splits its fields |
| Tokenize.ExtraCommas | src/draw_graphs.cpp:59-60 | leading, trailing and repeated commas add no token |
| Tokenize.FieldsOfJoin | src/draw_graphs.cpp:55-81 | round trip: the fields of comma-joined non-empty comma-free strings are those strings |
| Crossovers.SideLoops | src/draw_graphs.cpp:190-202 | side start has (total - start) / 2 loops |
| Crossovers.SideLoopsAt | src/draw_graphs.cpp:190-202 | loop k joins the positions of helices start + 2k and start + 2k + 1, both below total |
| Crossovers.RowCrossings | src/draw_graphs.cpp:205-214 | the inner loop counts at most one crossing per later loop |
| Crossovers.PairCrossingsBound | src/draw_graphs.cpp:204-216 | crossing pairs of one side are at most C(n, 2) |
| Crossovers.CrossoversBound | src/draw_graphs.cpp:184-254 | total/2 loops on one side, (total-1)/2 on the other, and a count of at most C(a,2) + C(b,2) |
| Crossovers.FewHelicesNoCrossovers | src/draw_graphs.cpp:184-254 | with fewer than four helices there are no crossovers |
| Crossovers.BuildSide | src/draw_graphs.cpp:190-202 | the loop-building pass builds exactly the side's loops |
| Crossovers.CountPairs | src/draw_graphs.cpp:204-216 | the pair loop counts exactly the crossing unordered pairs |
| Crossovers.CountCrossovers | src/draw_graphs.cpp:184-254 | the result is the crossing pairs of both sides, within the bound; positions are read, not changed |
| Matching.NeighboursMembers | src/draw_graphs.cpp:262-275 | x is in h's contact list exactly when an edge joins h and x |
| Matching.JCreditExists | src/draw_graphs.cpp:295-303 | seen_j is raised exactly when some unequal pair (k, l) has h1_contact[k] == j |
| Matching.HCreditExists | src/draw_graphs.cpp:295-309 | seen_h is raised exactly when some unequal pair has h1_contact[k] != j and h2_contact[l] == h |
| Matching.EqualPairsAllPresent | src/draw_graphs.cpp:295-300 | when every entry of one list occurs in the other, distinct list, each entry adds exactly one equal pair |
| Matching.MatchNeedsUnseen | src/draw_graphs.cpp:277-320 | a match needs equal non-empty lists and an unseen pair |
| Matching.SingletonCreditsExclusive | src/draw_graphs.cpp:316-319 | with one-element lists both credits are never raised, so correct = -1 cannot happen |
| Matching.MutualPairMatches | src/draw_graphs.cpp:277-320 | two helices in contact only with each other match |
| Matching.SameContactsMatch | src/draw_graphs.cpp:277-320 | helices with the same distinct contacts, not each other, match |
| Matching.NeighbourList | src/draw_graphs.cpp:264-267 | the loop builds h's contact list |
| Matching.ScoreContacts | src/draw_graphs.cpp:295-311 | correct counts equal pairs plus at most one credit each for j and h |
| Matching.TestPair | src/draw_graphs.cpp:277-320 | the test returns exactly IsMatch: sizes equal and non-zero, unseen, correct == required (+1 with both credits) |
| Contacts.EdgesDistinctAndComplete | src/draw_graphs.cpp:428-438 | stored helix pairs are pairwise distinct and are exactly the pairs (c-1, d-1) of the contact lines |
| Contacts.Insert | src/draw_graphs.cpp:426 | map::insert adds a new residue pair and leaves an existing one as it is |
| Contacts.ResidueMapKeys | src/draw_graphs.cpp:415-444 | residue keys stay distinct, earlier entries are kept, and every contact line's residue pair has an entry |
| Contacts.Validate | src/draw_graphs.cpp:448-461 | no edges, an odd boundary count, or no helices are rejected with that error; otherwise total = \|boundaries\|/2 >= 1 |
| Contacts.CountPair | src/draw_graphs.cpp:428-433 | tag is 0 exactly when (c-1, d-1) is not yet stored |
| Mempack.SwapIsPermutation | src/draw_graphs.cpp:345-352 | a swap keeps the multiset of positions |
| Mempack.SwapIsInvolution | src/draw_graphs.cpp:361-363 | swapping back restores the positions exactly |
| Mempack.KeptHasFewest | src/draw_graphs.cpp:358-379 | the positions kept have no more crossovers than before or after the swap, and fewer when they changed |
| Mempack.ReplaceKeepsPermutations | src/draw_graphs.cpp:351-352 | replacing arrangement x by a permutation keeps all arrangements permutations of the first |
| Mempack.AppendKeepsPermutations | src/draw_graphs.cpp:367 | appending a permutation keeps that property |
| Mempack.SwapStepImproves | src/draw_graphs.cpp:358-379 | each outcome leaves earlier arrangements unchanged and x with no more crossovers |
| Mempack.ImprovesFromNext | src/draw_graphs.cpp:374 | a search from x + 1 leaves arrangement x as it was |
| Mempack.PlaceHelixEntries | src/draw_graphs.cpp:92-100 | residues start..stop get their positions, other entries are unchanged |
| Mempack.ResidueAngleValue | src/draw_graphs.cpp:90-98 | residue k sits at -90 + rotate + 100k degrees |
| Mempack.HelixTurnRepeats | src/draw_graphs.cpp:90-98 | with periodic directions, residue i + 18 sits where residue i does |
| Mempack.ResidueOnCircle | src/draw_graphs.cpp:89-94 | with unit directions every residue lies at radius 5 from its helix centre |
| Mempack.ContactDistanceNonNegative | src/draw_graphs.cpp:103-131 | the contact-distance score is non-negative |
| Mempack.PlaceAllCovered | src/draw_graphs.cpp:113-116 | placing all helices fixes every covered residue independently of the old map |
| Mempack.PlaceAllKeys | src/draw_graphs.cpp:87-116 | after placing the helices, a residue has an entry exactly when it had one before or lies in some helix's range |
| Mempack.PlaceAllOverwrites | src/draw_graphs.cpp:87-116 | when the old map holds covered residues only, placing all helices overwrites every entry: the result equals placing from an empty map, and again holds covered residues only |
| Mempack.ScoreIgnoresStalePositions | src/draw_graphs.cpp:109-135 | when all contact residues are covered, the score does not depend on previously stored residue positions |
| Mempack.PlaceResidues | src/draw_graphs.cpp:90-100 | the loop places the residues as PlaceHelix says |
| Mempack.SumDistances | src/draw_graphs.cpp:118-131 | the loop sums the contact distances |
| Mempack.ReadLine | src/draw_graphs.cpp:420-442 | one line updates edges, residue map and boundaries as specified |
| Mempack.ReadAll | src/draw_graphs.cpp:415-444 | after reading, h1/h2 zip to the de-duplicated edges, edges == h1.size() |
| Mempack.SwapStep | src/draw_graphs.cpp:342-379 | more crossovers restore x, fewer keep the swap, a tie appends the swapped positions and restores x; arrangements remain permutations |
| Mempack.Search | src/draw_graphs.cpp:256-386 | the pair-by-pair search of swap_helices as a recursive function: all arrangements stay permutations of the first, and none are removed |
| Mempack.MatchedAt | src/draw_graphs.cpp:277-323 | the pairs matched from (h, j) on are (h, j), when it matches, and those from (h, j + 1) on |
| Mempack.SearchMarks | src/draw_graphs.cpp:323-376 | the marks a search leaves are its starting marks plus exactly the later pairs that match against the marks its level began with |
| Mempack.SearchMarksMatched | src/draw_graphs.cpp:320-376 | a matching pair stays marked whatever the swap outcome, since a tie's inner search has its marks restored |
| Mempack.State.constructor | src/globals.h:33-40 | every global starts empty |
| Mempack.State.ReadInput | src/draw_graphs.cpp:415-444 | the reading loop's effect on h1, h2, edges, residues_to_helices and boundaries |
| Mempack.State.TrySwap | src/draw_graphs.cpp:342-379 | the three swap outcomes on all_helix_positions |
| Mempack.State.SwapHelices | src/draw_graphs.cpp:256-386 | the arrangements and marks are Search's from (0, 1) on arrangement x; arrangements only appended, those before x untouched, x never gains crossovers, all remain permutations; the marks gain exactly the pairs matched at this level |
| Mempack.State.SearchRow | src/draw_graphs.cpp:259-384 | one pass of the outer loop: the search from (h, h + 1) equals the search from (h + 1, h + 2) on the new state; x gains no crossovers, marks only grow |
| Mempack.State.VisitPair | src/draw_graphs.cpp:270-382 | one pass of the inner loop: the search from (h, j) equals the search from (h, j + 1) on the new state; x gains no crossovers, marks only grow |
| Mempack.State.GetResiduePositions | src/draw_graphs.cpp:83-101 | only all_residue_positions[x] changes, by placing the helix's residues |
| Mempack.State.OptimiseRotation | src/draw_graphs.cpp:109-135 | places all helices at all_rotations[x] and returns the contact-distance sum |
| Genetic.InitialGeneInRange | src/paramopt.c:242 | a drawn gene lies in [min, max] |
| Genetic.InitialGenomeInRange | src/paramopt.c:238-242 | every initial gene lies in its range |
| Genetic.DrawGenome | src/paramopt.c:238-242 | one uniform draw per gene, in order |
| Genetic.InitPool | src/paramopt.c:225-245 | every genome drawn and flagged for evaluation, in range |
| Genetic.NewPools | src/paramopt.c:209-248 | two fresh zeroed pools, the current one drawn and flagged |
| Genetic.Compare | src/paramopt.c:250-258 | schcmp's sign orders by perfval |
| Genetic.SortPool | src/paramopt.c:261-264 | the pool is sorted ascending by perfval and is a permutation of itself |
| Genetic.PermutedInRange | src/paramopt.c:261-264 | reordering keeps genomes in range |
| Genetic.WeightSumClosed | src/paramopt.c:278-281 | rank weights poolsize - i sum to poolsize(poolsize+1)/2 |
| Genetic.RankedSelSum | src/paramopt.c:278-281 | after ranking, prefix weights are the rank-weight sums |
| Genetic.RankPool | src/paramopt.c:278-284 | selval = poolsize - i, fitsum is the total, besti is the last index with perfval == best (unchanged when none) |
| Genetic.WheelFrom | src/paramopt.c:303-308 | the do-while ends at an index in [k, poolsize) |
| Genetic.Wheel | src/paramopt.c:298-310 | a spin selects an index in [0, poolsize) |
| Genetic.WheelIsFirstReach | src/paramopt.c:296-311 | the spin selects the first index whose prefix weight reaches ptr, or poolsize - 1 |
| Genetic.Spin | src/paramopt.c:298-310 | the do-while computes Wheel |
| Genetic.SpinAll | src/paramopt.c:296-311 | spin i uses ptr = fitsum * draw i |
| Genetic.FormPool | src/paramopt.c:325-338 | entry i copies genome and perfval of curpool[samparr[i]], unflagged; entry besti copies curpool[besti] |
| Genetic.SelectionInRange | src/paramopt.c:267-340 | selection keeps every genome in range |
| Genetic.SelectionKeepsElite | src/paramopt.c:282-283 | the elite entry of the new pool carries the best score, unflagged |
| Genetic.SortRank | src/paramopt.c:275-284 | sort then rank: a sorted permutation with rank weights and the elite index |
| Genetic.SpinForm | src/paramopt.c:296-338 | spins and forms the new pool |
| Genetic.Select | src/paramopt.c:267-340 | gaselect in full, as the Selection relation |
| Genetic.RecombineExchanges | src/paramopt.c:393-398 | each position keeps or exchanges its two genes: per-position multiset preserved, range kept |
| Genetic.ExchangedInRange | src/paramopt.c:393-398 | exchanged in-range genomes stay in range |
| Genetic.RecombineGenes | src/paramopt.c:390-398 | the position loop computes the recombination |
| Genetic.CrossPairElsewhere | src/paramopt.c:380-404 | a pair step touches only its pair |
| Genetic.CrossPairFlags | src/paramopt.c:383-403 | a pair holding besti is skipped; a genome is flagged when already flagged or changed |
| Genetic.CrossPairExchanges | src/paramopt.c:393-398 | a pair step keeps or exchanges genes per position |
| Genetic.CrossUpToTail | src/paramopt.c:379 | pairs not yet processed are untouched |
| Genetic.CrossUpToFlags | src/paramopt.c:400-403 | every genome keeps its scores and is flagged exactly when it was or its genome changed |
| Genetic.CrossUpToPairs | src/paramopt.c:379-404 | every processed pair is crossed or skipped as PairCrossed says |
| Genetic.CrossoverKeepsRange | src/paramopt.c:374-405 | crossover keeps every genome in range |
| Genetic.CrossUpToKeepsElite | src/paramopt.c:383-386 | the elite genome is never crossed |
| Genetic.CrossStep | src/paramopt.c:380-404 | one pass of the loop computes CrossPair |
| Genetic.Crossover | src/paramopt.c:374-405 | the whole pass computes CrossUpTo |
| Genetic.Clamp | src/paramopt.c:362-365 | the gene ends in [min, max], unchanged when already inside |
| Genetic.MutateUpToFacts | src/paramopt.c:352-368 | one draw per gene, untouched genes kept, mutated genes in range, a change sets the flag |
| Genetic.MutateGenes | src/paramopt.c:352-368 | the gene loop computes MutateUpTo |
| Genetic.MutateSchemaGenome | src/paramopt.c:351-368 | a mutated schema keeps its scores, stays in range, and is flagged if changed |
| Genetic.MutatePoolUpToAt | src/paramopt.c:350-368 | besti and later schemata are untouched, others are MutatedFrom their old selves |
| Genetic.MutatePoolFacts | src/paramopt.c:343-371 | mutate leaves besti unchanged and keeps the pool in range |
| Genetic.Mutate | src/paramopt.c:349-368 | the loop computes MutatePool |
| Genetic.PerfBounds | src/paramopt.c:418-427 | best <= perfval[i] <= worst for all i, both attained |
| Genetic.FlaggedCountZero | src/paramopt.c:411-416 | no evaluation happens exactly when nothing is flagged |
| Genetic.Summarize | src/paramopt.c:418-427 | the loop computes min, max and sum of the scores |
| Genetic.Trunc | src/paramopt.c:192 | the C cast truncates toward zero |
| Genetic.TruncInRange | src/paramopt.c:192 | a gene in [lo, hi] truncates into [lo, hi] |
| Genetic.RotationsInRange | src/paramopt.c:190-193 | genes in [0, 359] give rotations in [0, 359] |
| Genetic.TruncateGenome | src/paramopt.c:190-193 | the push_back loop stores the truncated genes |
| Paramopt.ProgressIsFirstMinimum | src/paramopt.c:456-461 | prevbest is the least best seen (VBIG if none), and prevgen the first generation attaining it |
| Paramopt.RecordGeneration | src/paramopt.c:456-467 | a generation moves the record exactly on strict improvement, and the loop stops exactly when gen - prevgen > 50 or worst == best |
| Paramopt.ScoredStep | src/paramopt.c:411-416 | scoring one more schema extends the scored prefix |
| Paramopt.ScoredSound | src/paramopt.c:411-416 | after statistics nothing is flagged, and a pool whose unflagged scores are its genomes' eval scores keeps that property |
| Paramopt.PermutedSound | src/paramopt.c:261-264 | sorting keeps every schema's genome with its own score |
| Paramopt.SelectionSound | src/paramopt.c:267-340 | gaselect on a scored, unflagged pool fills the new pool with unflagged copies whose scores belong to their genomes |
| Paramopt.CrossSound | src/paramopt.c:380-404 | crossovr flags every schema whose genome it changes, so unflagged scores still belong to their genomes |
| Paramopt.MutateSound | src/paramopt.c:349-368 | mutate flags every schema whose genome it changes, so unflagged scores still belong to their genomes |
| Paramopt.BredSound | src/paramopt.c:446-449 | after gaselect, crossovr and mutate from a scored pool whose minimum is best, the elite slot holds best, unflagged, and unflagged scores belong to their genomes |
| Paramopt.BestAchieved | src/paramopt.c:418-427 | in a scored, unflagged, in-range pool, best and worst are each eval's score of one of its in-range genomes |
| Paramopt.Optimiser.constructor | src/paramopt.c:54-73 | vbest = VBIG, ncalls = 0, besti = 0, scale = 0.25, empty pools |
| Paramopt.Optimiser.ReadParams | src/paramopt.c:476-489 | genlen = helices, pool size 50, rates 0.1 / 0.8, factor 1, every range [0, 359] |
| Paramopt.Optimiser.GaInit | src/paramopt.c:209-248 | fresh pools, the current one drawn in range and flagged |
| Paramopt.Optimiser.Eval | src/paramopt.c:186-206 | stores the truncated genes as the rotations, returns the contact distance, which is the score of the genome's rotations placed from an empty map since the arrangement's map holds covered residues only (and still does after); ncalls + 1, vbest the minimum |
| Paramopt.Optimiser.ScoreSchema | src/paramopt.c:412-416 | a flagged schema gets its genome's score and is unflagged |
| Paramopt.Optimiser.ScoreAll | src/paramopt.c:411-416 | every flagged schema scored, one eval each, vbest below every new score |
| Paramopt.Optimiser.Statistics | src/paramopt.c:407-430 | nothing left flagged, best/worst are min/max, avc_perf the mean |
| Paramopt.Optimiser.ScoreCurrent | src/paramopt.c:440 | statistics on curpool: every schema scored as eval scores it, best and worst the pool's min and max, every score its genome's |
| Paramopt.Optimiser.ScoreNew | src/paramopt.c:451 | statistics on newpool: every schema scored as eval scores it, best and worst the pool's min and max; the unflagged elite keeps its score, so best does not exceed it |
| Paramopt.Optimiser.GaSelect | src/paramopt.c:267-340 | selection as the Selection relation, poolsize draws |
| Paramopt.Optimiser.Crossovr | src/paramopt.c:374-405 | crossover on newpool; the elite unchanged |
| Paramopt.Optimiser.Mutate | src/paramopt.c:343-371 | mutation on newpool as MutatePool says, the elite unchanged, scale multiplied by mutscfac |
| Paramopt.Optimiser.Vary | src/paramopt.c:448-449 | crossovr then mutate(mutrate) on the new pool: mutate works on the pool and cursor crossovr left, and the scale shrinks by mutscfac |
| Paramopt.Optimiser.Reproduce | src/paramopt.c:446-449 | gaselect, crossovr and mutate each on what the one before left (Bred, with every intermediate pool and cursor); the stored rotations are untouched |
| Paramopt.Optimiser.Breed | src/paramopt.c:446-451 | the same chain, then statistics scoring the pool mutate left; best and worst summarize the new pool, and best never rises |
| Paramopt.Optimiser.SwapPools | src/paramopt.c:469-471 | the pools change roles |
| Paramopt.Optimiser.Advance | src/paramopt.c:446-467 | one generation recorded, with best and worst summarizing the new pool; stop exactly when the convergence test fires |
| Paramopt.Optimiser.Step | src/paramopt.c:444-472 | a loop pass: on stop the pools stay and best and worst summarize the new pool; otherwise they are swapped |
| Paramopt.Optimiser.RunGa | src/paramopt.c:432-473 | the bookkeeping holds, converged means the test fired, and best and worst are the min and max of the pool run_ga ended on, every score its genome's |
| Paramopt.Optimiser.Generations | src/paramopt.c:444-472 | the loop from (VBIG, 0) ends as Finished says: the record, the stop reason, and best and worst summarizing the final pool |
| Paramopt.Optimiser.Setup | src/paramopt.c:491-514 | rotation = r, vbest = VBIG, ncalls = 0, parameters read, pools initialised |
| Paramopt.Optimiser.OptimiseParameters | src/paramopt.c:491-519 | run_ga either stopped after a converged history or ran all the fuel's generations; returns best, the lowest score of `last`, which is the pool run_ga ended on (the new pool when it stopped, the current one otherwise), and eval returned it for one of that pool's in-range genomes; bests never rise; stored rotations are those of the last genome scored; only arrangement r's entries change |
| DrawGraphs.AssignSorted | src/draw_graphs.cpp:596 | assigning keeps keys strictly ascending |
| DrawGraphs.AssignMember | src/draw_graphs.cpp:596 | after scores[key] = v the entries are (key, v) and the old ones with another key |
| DrawGraphs.RankingOfPrefix | src/draw_graphs.cpp:581-598 | the map depends on the scores of the arrangements scored so far only |
| DrawGraphs.RankingOfSorted | src/draw_graphs.cpp:578-598 | the scores map iterates in ascending score order |
| DrawGraphs.RankingOfMember | src/draw_graphs.cpp:578-598 | entries are exactly (score, a) with a the last arrangement having that score |
| DrawGraphs.LastWithOtherScore | src/draw_graphs.cpp:596 | assigning another score does not change which arrangement is last with e's score |
| DrawGraphs.LastIndex | src/draw_graphs.cpp:596 | every score has a last arrangement holding it |
| DrawGraphs.RankedRows | src/draw_graphs.cpp:600-615 | rows in strictly ascending score, each the last arrangement with its score |
| DrawGraphs.RankedCovers | src/draw_graphs.cpp:578-598 | every arrangement's score is a key of the map |
| DrawGraphs.RankedReport | src/draw_graphs.cpp:600-615 | the report lists every score once, ascending, with that arrangement's positions and rotations |
| DrawGraphs.PlaceArrangement | src/draw_graphs.cpp:592-594 | all helices of arrangement a placed at their rotations |
| DrawGraphs.OpenArrangement | src/draw_graphs.cpp:581-594 | zero rotations and an empty residue map appended for arrangement a, its residues then placed at those rotations |
| DrawGraphs.ScoreArrangement | src/draw_graphs.cpp:582-597 | one pass: rotations and a residue map appended, score = result / h1.size() where result is the optimiser's best, a score eval gave this arrangement at in-range rotations; rotations whole degrees |
| DrawGraphs.ScoreArrangements | src/draw_graphs.cpp:578-598 | the scores map after every arrangement is scored; each score is its result over the edge count, each result achieved by eval on that arrangement |
| DrawGraphs.AchievesNext | src/draw_graphs.cpp:582-597 | scoring one more arrangement extends the record of scores and achieved results |
| DrawGraphs.AchievesAt | src/draw_graphs.cpp:578-598 | under the record, every arrangement's score is its result over the edge count, and eval gave that result for the arrangement's scene |
| DrawGraphs.RankArrangements | src/draw_graphs.cpp:578-615 | the rows report every arrangement's score as RankedReport says, each score an achieved result over the edge count |
| DrawGraphs.Prepare | src/draw_graphs.cpp:415-576 | reading and checks; the first arrangement is the layout; with at most four helices it is the only one, with more the arrangements and marks are Search's from it and it gains no crossovers |
| DrawGraphs.Run | src/draw_graphs.cpp:415-615 | an input error exactly when the checks fail, with that error; otherwise the arrangements are the layout and, with more than four helices, Search's from it, and the ranked report gives each score as an achieved result over the number of contact edges |

## Left out

- Graph construction, `connected_components` and the per-component loop (src/draw_graphs.cpp:463-511, 617-622) use the boost graph library.
  - The model handles one component holding helices 0 .. total - 1.
  - Several components, and their `original_component_vertices` renumbering, are not modelled.
- The layout is a parameter `layout` of `DrawGraphs.Run` that returns one position per helix.
  - This covers the random, circle and Kamada-Kawai layouts and the linear-chain re-projection (src/draw_graphs.cpp:513-569), which are boost calls and floating-point trigonometry.
- File handling, `getline`, `sscanf` classification and the fixed 150-byte line buffers are left out.
  - Input arrives as already classified `InputLine`s.
  - The `%s` of the topology line is taken to be the whole field.
- All printing is left out: `cout`, `printf`, verbose output and the final report text. The report is the `Row` sequence.
- The program exits on bad input. The model returns `Err` instead.
- `uni64`, `randomise` and `gaussrnd` (src/paramopt.c:89-182) are replaced by the streams `uni` and `gauss`, whose draws are inputs.
  - The reseeding by `randomise` at each `optimise_parameters` call is not modelled; the streams just continue.
  - `gaussrnd` draws its own uniform numbers, but the model reads its values from a separate stream.
- `cos`/`sin` are the parameter `direction` and `sqrt` in `distance_rr` is the parameter `distance`. `LineSegmentIntersection` takes distAB with distAB^2 = \|AB\|^2.
- `float`/`double` are `real`, so rounding is not modelled. This includes the `float` fields `perfval` and `selval`, the `float prevbest` and the `1e32F` constant.
- `calloc`, `fail`, the `allocd` flag and `MAXPARAMS` are not modelled.
  - The pools are fresh arrays on every `ga_init`, which is also what the source does, since `allocd` is a local.
- `randint` and the `paramtype == 0` branches of `ga_init` and `mutate` are left out because `readparams` never selects them.
- Genetic.SortPool: `qsort` is not stable, and the order it gives equal scores is unspecified. The model's insertion sort is one admissible order, and its contract states only sortedness and permutation.
- Paramopt.Optimiser.RunGa: the loop of `run_ga` has no bound in the source. The model runs it for at most `fuel` generations, and `Finished` says which way it ended.
- Paramopt.Optimiser.Reproduce: does not restate that scale shrinks by mutscfac; `Vary` and `Mutate` state it, and the nonlinear product is kept out of the longer chain.
- Paramopt.Optimiser.Breed: does not restate the scale either, for the same reason.
- DrawGraphs.Prepare: `total` is \|boundaries\|/2, the helix count of the topology line. `main` instead takes the vertex count of each connected component of the contact graph (src/draw_graphs.cpp:492-509), and with `vecS` storage (src/draw_graphs.cpp:48) `add_edge` gives that graph one vertex per helix number up to the largest one in the contact lines (src/draw_graphs.cpp:470). The two agree only when the contact graph is connected and its largest helix number is \|boundaries\|/2. Otherwise the source works on a different helix count: with five helices whose contacts join only helices 1-4 it optimises four genes and skips `swap_helices`, where the model optimises five and searches. Per-component runs are not modelled.
- Mempack.SumDistances: the contacts are summed in insertion order, while `std::map` iterates residue pairs in key order (src/draw_graphs.cpp:118); over the reals the sum is the same, but the floating-point rounding order is not modelled.
- Paramopt.Optimiser.OptimiseParameters: the source's convergence is not proved. When the fuel runs out first, the result is the best score of the current pool, where the source would have gone on.
- `map::operator[]` on a missing residue inserts the entry (0, 0) in the source. The model reads (0, 0) without storing it (`Mempack.Lookup`).
- `helix_swaps_seen` is a set of helix pairs rather than a map from the "h+1-j+1" strings. The string keys are injective on pairs, and the value 0 inserted by `operator[]` means "unseen".
- The `#else` fitness-proportional weighting of gaselect (`selval = worst - perfval`) and the `#if 0` shuffle (src/paramopt.c:285-294, 313-322) are compiled out and not modelled.
- src/web_wrapper.py is not part of this model: it only builds a command line.
