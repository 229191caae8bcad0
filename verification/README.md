# Laurus: a verified model of token pooling, argument splitting, ranking metrics and PHP values

This project models four self-contained parts of the Laurus search engine's repository in
Dafny and proves what they are for.

**Ward token pooling** (`condensed.dfy`, `ward.dfy`, `agglomeration.dfy`, `nn_chain.dfy`,
`chain_trace.dfy`, `ties.dfy`, `union_find.dfy`, `labels.dfy`, `linkage.dfy`, `token_pooling.dfy`). `port_labels` clusters `n`
points into `k` clusters by a nearest-neighbour chain over a condensed distance matrix that it
overwrites in place, sorts the merges, replays the lowest `n - k` in a union-find and numbers the
components. The proof has six steps.

1. `Ward`: for a cluster `A`, let its energy be the sum of the input squared distances over its
   unordered pairs, per member. The cost of joining two clusters is twice the energy gained. The
   Lance-Williams update is the recurrence for this closed form, and the form is reducible. Any
   non-negative symmetric matrix will do: nothing needs Euclidean distances.
2. `NnChain`: the imperative chain. The matrix always holds the closed-form cost between the
   clusters its slots stand for (so it does not depend on the order of the merges), the chain's
   links lead to nearest neighbours and get strictly shorter, and each merge joins two clusters
   that are each other's nearest. The rounds also form a `Trace`: every start, push, stop and merge
   obeys the program's rules, ties included, over the input distances alone. `ChainTrace` shows that
   the rules leave one run, so `PortLabels` has one answer, and what it is for equidistant points.
3. `Agglomeration`: exchanging two adjacent merges that are out of height order keeps every merge
   reciprocal. So the stable sort does too, and a sorted reciprocal run is greedy: each merge joins
   two clusters whose cost is minimal over all pairs of the current partition, ties included.
4. `UnionFind`, `Labels`: path halving changes no root, the root of a point is the largest point
   of its cluster, and numbering by first appearance is canonical.
5. `TokenPooling`, `Linkage`: the labels cut a greedy Ward clustering into exactly `k` clusters,
   and equal those that `cut_linkage` gives for the same merges listed as linkage rows.
6. `Ties`: the linkage of another greedy Ward run can differ, which is why the script skips cases
   where it does. It cannot if the ties are harmless: if every pair that ties with one of the run's
   merges is itself merged before the cut. `HarmlessIffOneOutcome` and `LinkagesAgreeIffHarmless`
   show that this is exact wherever tied pairs share no cluster, and `TieCanMatter` gives three
   equidistant points where greedy clustering has two outcomes.

The matrix and the heights hold squared distances where the program holds their square roots.
All distances are non-negative, so `TokenPooling.SquaresOrder` makes every comparison and the
sort the same, and line 133 only uses squares. `PortLabels` takes plain distances, as the program
does. Reals are exact. `1 <= k <= n` is what the engine's own function demands
(laurus/src/vector/core/token_pooling.rs:408). Python's stable `sorted` is `StableOrder`, which
`StableSortIsUnique` shows to be the only stable sort: `AnyStableSortIsGreedy` assumes nothing else of it.

**Argument splitting** (`split_arguments.dfy`). The scanner is proved against an automaton that
reads one character at a time, and the automaton's results are characterised: when it succeeds,
where it stops, that nothing is lost, where it cuts, which lists it can return, and that it undoes
printing. `SplitReadsGrammar` says all of it at once: the results are the stripped arguments of the
call that a grammar of atoms, literals with escapes and nested groups reads at the bracket, and
there are none if it reads no call.
A call without arguments splits into one empty argument, so the results are exactly the *non-empty*
lists of clean arguments (`ResultsAreExact`).

**Ranking metrics** (`rank_metrics.dfy`, `discounted_gain.dfy`). Truncated RBO with its bounds and
the exact condition for reaching the top, and its value as a sum over the shared ids; nDCG by a
rearrangement inequality, again with the exact condition for reaching 1, and the share each rank
contributes. The logarithm is any positive growing function of the rank.

**PHP values** (`php_values.dfy`, `php_meaning.dfy`, `php_json.dfy`). A shape-inferring reader and its writer: a value
survives writing and reading *if and only if* it is canonical, the reader returns only canonical
values, so reading, writing and reading again is stable. For all other values `ReadBack` says what
comes back instead: a bare `Vector` as an array of floats, a text that looks like a timestamp as
one, an empty array as the empty array of integers. `PhpMeaning` gives the reader and the writer a
meaning that does not mention how they work (`ReadMeans`, `WriteShows`), and the error of every
value that is not accepted (`ErrorsExactly`). The JSON conversion runs over an arbitrary
heap of arrays, cycles included, and succeeds exactly when nothing lies more than 32 array steps
below the root and every node reached can be written.

The type table at laurus-php/src/convert.rs:46-63 names only the keys of a geo point. The
conversion at lines 107-108 accepts PHP floats alone, so an integer `lat` is an error; the model
follows the code.

## Model

| member | source | states |
|---|---|---|
| Condensed.IndexFormula | scripts/token_pooling_reference.py:70-73 | The position "rows before it, then columns" is the closed formula `n i - i (i + 1) / 2 + (j - i - 1)`, in either order of the pair |
| Condensed.PairCountFormula | scripts/token_pooling_reference.py:59-66 | The condensed matrix has `n (n - 1) / 2` entries |
| Condensed.IndexInjective | scripts/token_pooling_reference.py:70-73 | Two pairs with the same index are the same unordered pair |
| Condensed.IndexBijective | scripts/token_pooling_reference.py:70-73 | Every index below `n (n - 1) / 2` belongs to exactly one pair `i < j` |
| Condensed.ClampIsNearest | scripts/token_pooling_reference.py:66-66 | A finite distance goes to the nearest point of [0, 2], so one inside is kept; a non-finite one goes to 2 |
| Condensed.Distances | scripts/token_pooling_reference.py:55-67 | The double loop appends each pair's clamped distance at exactly that pair's index, and every entry lies in [0, 2] |
| Ward.WardEnergyIsPairEnergy | scripts/token_pooling_reference.py:130-134 | Energy times size obeys the three-cluster pair-sum law, for any matrix |
| Ward.CostOfSingletons | scripts/token_pooling_reference.py:96-97 | Between single points the closed-form cost is the input squared distance |
| Ward.LanceWilliams | scripts/token_pooling_reference.py:130-133 | The recurrence determines the cost to a union from the three costs between its parts |
| Ward.Reducible | scripts/token_pooling_reference.py:103-118 | Joining clusters no further apart than `h` brings their union no nearer than `h` to a cluster both were `h` away from |
| Ward.UpdateIsCost | scripts/token_pooling_reference.py:130-134 | The written update is exactly the closed-form cost to the union, and the clamp at 0 never changes it |
| NnChain.Nearest | scripts/token_pooling_reference.py:103-115 | The scan finds a nearest active slot: the previous chain slot unless another is strictly nearer, and otherwise the first of the nearest |
| NnChain.PickedIsNew | scripts/token_pooling_reference.py:113-118 | A slot picked over the previous one is not on the chain, so the walk cannot cycle |
| NnChain.PushKeepsChain | scripts/token_pooling_reference.py:116-118 | Pushing the picked slot keeps slots distinct and active, links nearest and strictly shrinking |
| NnChain.ChainFits | scripts/token_pooling_reference.py:103-118 | A chain has at most as many slots as are active |
| NnChain.Walk | scripts/token_pooling_reference.py:103-118 | The inner loop ends, extends the chain, and leaves two slots at its end that are each other's nearest; every slot it pushes is the one a scan picks, it stops when a scan picks the previous slot, and it scans once more than it pushes |
| NnChain.FirstActive | scripts/token_pooling_reference.py:101-102 | The first active slot |
| NnChain.MergeSlots | scripts/token_pooling_reference.py:122-134 | The sizes after the merge, and for every pair of slots the matrix entry after it: only the distances of the surviving slot to other active slots change |
| NnChain.NewDistanceIsCost | scripts/token_pooling_reference.py:126-134 | What the update writes for a slot is the closed-form cost between its cluster and the merged one |
| NnChain.InitiallyGood | scripts/token_pooling_reference.py:96-99 | Before the first merge every slot stands for its own point, the matrix holds the closed-form costs and the whole invariant holds |
| NnChain.MergeAppliesJoin | scripts/token_pooling_reference.py:122-125 | Emptying one slot and enlarging the other joins exactly their two clusters in the partition |
| NnChain.MergeKeepsSlots | scripts/token_pooling_reference.py:122-125 | Sizes stay the sizes of disjoint clusters whose largest point names the slot |
| NnChain.MergeKeepsMatrix | scripts/token_pooling_reference.py:122-134 | Path independence: if every entry between active slots was the closed-form cost over the input distances, it still is after a merge |
| NnChain.MergeReduces | scripts/token_pooling_reference.py:126-134 | The merged slot is no nearer to a slot than the nearer of the two merged slots was |
| NnChain.MergeKeepsChain | scripts/token_pooling_reference.py:119-134 | The chain left after popping two slots keeps nearest and strictly shrinking links in the overwritten matrix |
| NnChain.MutualIsReciprocal | scripts/token_pooling_reference.py:116-123 | Two slots that are each other's nearest stand for clusters no nearer to any other cluster |
| NnChain.MergeStep | scripts/token_pooling_reference.py:116-134 | One merge keeps the whole invariant, uses up one active slot and applies one reciprocal join to the partition |
| NnChain.FormedSlotIsApart | scripts/token_pooling_reference.py:113-134 | In the matrix, while a slot stands for a cluster some merge formed, no active slot is nearer to it than that merge's height |
| NnChain.MergeKeepsSum | scripts/token_pooling_reference.py:122-125 | A merge leaves the sum of the sizes as it was |
| NnChain.Round | scripts/token_pooling_reference.py:100-134 | One round of the outer loop: an empty chain starts at the first active slot, the walk and the merge obey the rules over the closed-form costs, and the merge is a reciprocal join of the current partition |
| NnChain.MergeObeys | scripts/token_pooling_reference.py:119-123 | The walk's last two slots, merged in index order at their closed-form cost, obey the rule of a round |
| NnChain.Rounds | scripts/token_pooling_reference.py:96-134 | All rounds record a reciprocal run from the single points on; the sizes sum to `n` throughout, the chain ends empty and slot `n - 1` ends with size `n`, all others with 0 |
| NnChain.Run | scripts/token_pooling_reference.py:96-134 | A run records `n - 1` merges that are a reciprocal run under the closed-form cost, pushes exactly `2 (n - 1)` slots scans `3 (n - 1)` times less once per chain start, and ends with an empty chain |
| ChainTrace.WalkIsUnique | scripts/token_pooling_reference.py:103-118 | From the same chain the scan's rules leave one walk: they fix every pushed slot and where it stops |
| ChainTrace.TraceIsUnique | scripts/token_pooling_reference.py:100-134 | Two runs that obey the rules on the same input distances agree round for round, however distances tie |
| ChainTrace.AnswerIsUnique | scripts/token_pooling_reference.py:94-147 | They record the same merges and give the same labels |
| ChainTrace.ClustersAreEquidistant | scripts/token_pooling_reference.py:126-134 | Points at one distance from each other form clusters at that same distance from each other |
| ChainTrace.EquidistantAnswer | scripts/token_pooling_reference.py:94-147 | On equidistant points the merges are (0, 1), (1, 2), ..., (n - 2, n - 1), and point `i` gets label `max(0, i - (n - k))` |
| Agglomeration.JoinedIsApart | scripts/token_pooling_reference.py:119-134 | A newly formed cluster is at least its formation height away from every other cluster |
| Agglomeration.ApartIsKept | scripts/token_pooling_reference.py:126-134 | Being at least `h` away from every other cluster survives every later merge of other clusters |
| Agglomeration.NoInversions | scripts/token_pooling_reference.py:113-135 | A merge is never lower than a merge that formed one of its clusters |
| Agglomeration.FormedIsApart | scripts/token_pooling_reference.py:113-135 | In every partition reached, each cluster a merge formed is at least its formation height away from every other cluster |
| Agglomeration.Exchange | scripts/token_pooling_reference.py:135-135 | Two adjacent merges out of height order can be exchanged: both stay reciprocal and the result is the same |
| Agglomeration.SortKeepsRun | scripts/token_pooling_reference.py:135-135 | Stably sorting a reciprocal run by height gives a reciprocal run with the same result |
| Agglomeration.StableOrderSorts | scripts/token_pooling_reference.py:135-135 | The order lists every merge once, by height and among equal heights by position |
| Agglomeration.StableSortIsUnique | scripts/token_pooling_reference.py:135-135 | Two stably sorted lists of the same merges are equal |
| Agglomeration.FarEnough | scripts/token_pooling_reference.py:135-135 | Clusters still to be joined are at least as far apart as the lowest merge left |
| Agglomeration.SortedRunIsGreedy | scripts/token_pooling_reference.py:135-146 | A complete reciprocal run in height order is greedy |
| Agglomeration.SortedChainRunIsGreedy | scripts/token_pooling_reference.py:94-146 | Main theorem: the stable sort of a complete chain run is a greedy run, each merge a cheapest pair of the partition it is applied to |
| Agglomeration.AnyStableSortIsGreedy | scripts/token_pooling_reference.py:135-146 | The same for every listing of the merges that is sorted by height and, among equal heights, by position, however it was obtained |
| Agglomeration.GreedyPrefix | scripts/token_pooling_reference.py:144-146 | The first `m` merges of a greedy run are one, and leave `m` clusters fewer |
| Ties.HarmlessTiesEndAlike | scripts/token_pooling_reference.py:23-26 | If a greedy run merges, at some step, every pair that ties with one of its merges, every greedy run of the same length ends in the same partition |
| Ties.HarmlessIffOneOutcome | scripts/token_pooling_reference.py:23-26 | A greedy run merges all tied pairs exactly when tied pairs never share a cluster and every greedy run of the same length ends in the same partition |
| Ties.TieCanMatter | scripts/token_pooling_reference.py:23-26 | Three equidistant points: two greedy first merges leave different clusters |
| Ties.GreedyContinues | scripts/token_pooling_reference.py:20-22 | A greedy run can always be continued until one cluster is left |
| Agglomeration.HeightsAreEnergy | scripts/token_pooling_reference.py:122-134 | The squared heights of any run of merges sum to twice the energy gained |
| UnionFind.HalvingKeepsRoots | scripts/token_pooling_reference.py:138-142 | Pointing a slot at its grandparent keeps parents at or above their children and changes no root |
| UnionFind.Find | scripts/token_pooling_reference.py:138-142 | Path-halving find ends, returns the root and changes the root of no slot |
| UnionFind.LinkMovesRoots | scripts/token_pooling_reference.py:144-146 | Linking a root below a larger root redirects exactly its component |
| UnionFind.LinkRepresents | scripts/token_pooling_reference.py:144-146 | If the root of every point is the largest point of its cluster, linking the roots of two clusters joins exactly those |
| UnionFind.Unite | scripts/token_pooling_reference.py:146-146 | `parent[find(x)] = find(y)` joins the two clusters in the forest |
| UnionFind.Replay | scripts/token_pooling_reference.py:136-146 | Replaying the first `count` sorted merges represents the partition after that many joins |
| UnionFind.Roots | scripts/token_pooling_reference.py:147-147 | The list of roots, although each find rewrites the forest |
| Labels.FirstAppearance | scripts/token_pooling_reference.py:76-78 | Labels are equal where the roots are, and each label appears only after all smaller ones |
| Labels.CanonicalLabels | scripts/token_pooling_reference.py:76-78 | Two lists so numbered are equal exactly when they are equal at the same pairs of positions |
| Labels.LabelsDecidePartition | scripts/token_pooling_reference.py:76-78 | Two label lists are equal exactly when the partitions they name are |
| Labels.LabelsAreExact | scripts/token_pooling_reference.py:76-78 | The labels of a partition are exactly 0 to its size less one |
| Linkage.MergedIsOk | scripts/token_pooling_reference.py:83-86 | A linkage row keeps every point a leaf of exactly one node |
| Linkage.OwnersDecideClusters | scripts/token_pooling_reference.py:87-90 | Two points have the same owner exactly when they are leaves of the same node |
| Linkage.CutLinkage | scripts/token_pooling_reference.py:81-91 | Labels the clusters left after the first `n - k` rows, and fails exactly on a missing row or a row naming a node that is not live |
| Linkage.RowsReplay | scripts/token_pooling_reference.py:83-86 | Rows can be replayed exactly if each names two different nodes formed before it and not named before; the live nodes are then those no row has named |
| Linkage.RowJoins | scripts/token_pooling_reference.py:86-86 | A row replaces the clusters of its two nodes by their union and keeps all others |
| Linkage.LinkageFollowsRun | scripts/token_pooling_reference.py:81-91 | Replaying rows that renumber a run's merges as nodes keeps each node's leaves equal to the cluster of its slot |
| Linkage.LinkageClusters | scripts/token_pooling_reference.py:81-91 | After any number of rows the nodes' leaves are the partition after as many merges |
| TokenPooling.SquaresOrder | scripts/token_pooling_reference.py:114-135 | Non-negative distances compare as their squares do |
| TokenPooling.SortedIsGreedy | scripts/token_pooling_reference.py:135-146 | Whatever reciprocal run the chain recorded, its merges taken in stable height order are a complete greedy run, slot for slot |
| TokenPooling.PortLabels | scripts/token_pooling_reference.py:94-147 | The labels cut a complete greedy Ward run after `n - k` merges, name its clusters by first appearance and are exactly 0 to `k - 1`; among tied runs it is the one the rules for starting, scanning and stopping lead to |
| TokenPooling.OneAnswer | scripts/token_pooling_reference.py:94-147 | The distances leave one list of labels that `PortLabels` may return |
| TokenPooling.EqualDistances | scripts/token_pooling_reference.py:94-147 | If all distances are equal, the first `n - k + 1` points are pooled and each later one is left alone |
| TokenPooling.Cut | scripts/token_pooling_reference.py:135-147 | The sorted merges, cut and labelled: the clusters of the run's first `n - k` joins, `k` of them |
| TokenPooling.CutPartitionsPoints | scripts/token_pooling_reference.py:144-147 | The first `n - k` merges leave exactly `k` clusters that cover every point |
| TokenPooling.CutsAgree | scripts/token_pooling_reference.py:81-91 | The union-find cut of slot merges and the member-list cut of the same merges as linkage rows give the same labels |
| TokenPooling.RunHasLinkage | scripts/token_pooling_reference.py:81-91 | Every run of merges can be listed as linkage rows |
| TokenPooling.HarmlessCutsAgree | scripts/token_pooling_reference.py:23-26 | The labels agree with the cut of any greedy Ward linkage whose first `n - k` merges include every pair that ties with one of them |
| TokenPooling.LinkagesAgreeIffHarmless | scripts/token_pooling_reference.py:23-26 | If no two tied pairs share a cluster, every greedy Ward linkage leaves the same clusters exactly when the first `n - k` merges include all tied pairs |
| TokenPooling.SameAsLinkage | scripts/token_pooling_reference.py:176-179 | The script's comparison holds exactly when the linkage can be cut and leaves the clusters of the labels; it does for the linkage of the run's own merges, and for every greedy one whose ties are harmless |
| TokenPooling.HeightsAreConserved | scripts/token_pooling_reference.py:122-134 | The squared heights of all `n - 1` merges sum to `2 / n` times the sum of the input squared distances, whatever the order of the merges |
| TokenPooling.ChainConserves | scripts/token_pooling_reference.py:120-134 | Of the merges the chain records: the squared heights sum to `2 / n` times the sum of the input squared distances, and each of the slots 0 to `n - 2` is merged away exactly once |
| TokenPooling.PrefixIsClosed | scripts/token_pooling_reference.py:144-146 | The merges that formed a merge's two clusters come before it in the sorted order |
| TokenPooling.SlotsMergedAway | scripts/token_pooling_reference.py:120-125 | A run merges away each of the slots 0 to `n - 2` exactly once and never slot `n - 1` |
| ArgumentSplitter.SplitArguments | scripts/check-binding-snippets.py:73-110 | The scanner, with its quote, escape and depth state, computes the one-character-at-a-time automaton |
| ArgumentSplitter.SplitReadsGrammar | scripts/check-binding-snippets.py:73-110 | The results are exactly the stripped arguments of the call the grammar reads at the bracket, with its quotes, brackets and commas spelled out; there are none if it reads no call |
| ArgumentSplitter.WellFormedIsShown | scripts/check-binding-snippets.py:83-108 | Text that closes its quotes and balances its brackets, with commas only inside them, is exactly the print of some syntax trees |
| ArgumentSplitter.StripParts | scripts/check-binding-snippets.py:101-105 | Stripping takes white space off both ends, and all of it |
| ArgumentSplitter.StripIsDetermined | scripts/check-binding-snippets.py:101-105 | Any text left by taking white space off both ends until neither has any is the stripped text |
| ArgumentSplitter.OnlySpaceVanishes | scripts/check-binding-snippets.py:101-105 | The characters stripped, by code point: a one-character argument comes out empty exactly if it is one of them |
| ArgumentSplitter.SplitIffClosed | scripts/check-binding-snippets.py:81-110 | It returns a list exactly when some unquoted closer brings the depth back to 0 |
| ArgumentSplitter.SplitIsLossless | scripts/check-binding-snippets.py:81-110 | It stops at the first such closer; its pieces joined by commas are exactly the text in between, cut exactly at the top-level commas, and the results are those pieces stripped |
| ArgumentSplitter.PiecesAreDetermined | scripts/check-binding-snippets.py:104-106 | The joined text and the places of the cuts leave only one list of pieces |
| ArgumentSplitter.SplitUndoesPrint | scripts/check-binding-snippets.py:73-110 | Splitting a printed call gives back any non-empty list of trimmed, well-formed arguments, whatever stands before and after the call |
| ArgumentSplitter.ResultsAreClean | scripts/check-binding-snippets.py:98-106 | Every result is trimmed and well formed, and printing and splitting it again changes nothing |
| ArgumentSplitter.ResultsAreExact | scripts/check-binding-snippets.py:73-110 | The possible results for calls are exactly the non-empty lists of clean arguments |
| ArgumentSplitter.ShownIsBalanced | scripts/check-binding-snippets.py:83-108 | Printed literals, escapes and nested groups leave the nesting as it was and end no argument |
| ArgumentSplitter.SplitUndoesShow | scripts/check-binding-snippets.py:73-110 | Splitting gives back printed syntax trees, one argument each |
| RankMetrics.Rbo | scripts/beir_ladr_eval.py:442-454 | The loop over two growing sets computes the geometrically weighted agreements of all depths up to `k` |
| RankMetrics.RboIsShared | scripts/beir_ladr_eval.py:442-454 | RBO is `1 - p` times the sum, over the ids both lists hold, of `p^(d - 1) / d` for each depth `d` up to `k` from which on both have shown the id |
| RankMetrics.PowIsPower | scripts/beir_ladr_eval.py:453-453 | The weights are the powers of `p` |
| RankMetrics.CountIsOverlap | scripts/beir_ladr_eval.py:448-452 | The overlap at depth `k` counts the ids that both lists have shown by then, each once |
| RankMetrics.RboSymmetric | scripts/beir_ladr_eval.py:442-454 | RBO is symmetric |
| RankMetrics.RboBounds | scripts/beir_ladr_eval.py:442-454 | For `0 < p < 1`, RBO lies between 0 and `1 - p^k`, and reaches the top exactly when both lists start with the same `k` distinct ids in the same order |
| DiscountedGain.DcgIsSum | scripts/beir_ladr_eval.py:457-458 | DCG@k is the sum of the first `k` gains, each divided by its rank's discount |
| DiscountedGain.GainChange | scripts/beir_ladr_eval.py:457-458 | Changing one gain changes DCG@k by the difference over its rank's discount, and by nothing from rank `k` on |
| DiscountedGain.GainIsJudged | scripts/beir_ladr_eval.py:462-462 | The gain at a rank is the relevance judged for the id there, or 0 |
| DiscountedGain.NdcgIsRatio | scripts/beir_ladr_eval.py:461-466 | nDCG is defined exactly if `k > 0` and some judged relevance is positive, and is then the ratio of the ranking's DCG to the ideal one |
| DiscountedGain.OneRelevantId | scripts/beir_ladr_eval.py:461-466 | Where the only relevant id stands at rank `r < k`, nDCG is the first rank's discount over that rank's |
| DiscountedGain.SortSorts | scripts/beir_ladr_eval.py:464-464 | The ideal list is a descending permutation of the relevances |
| DiscountedGain.GainsAreWithin | scripts/beir_ladr_eval.py:462-462 | A ranking without repeats gains each positive relevance at most as often as it was judged |
| DiscountedGain.Rearrangement | scripts/beir_ladr_eval.py:457-458 | No list of gains drawn from a descending list has a higher DCG than that list, and with strictly growing discounts only lists with the same gain at each rank reach it |
| DiscountedGain.DcgAtMostIdeal | scripts/beir_ladr_eval.py:461-466 | DCG@k of a ranking without repeats among its first `k` ids is at most the ideal DCG@k, with equality exactly for ideal gains at the first `k` ranks |
| DiscountedGain.NdcgBounds | scripts/beir_ladr_eval.py:461-466 | nDCG, where defined, lies between 0 and 1 and is 1 exactly for ideal gains at the first `k` ranks |
| DiscountedGain.SortedRankingIsPerfect | scripts/beir_ladr_eval.py:461-466 | A ranking by descending relevance that lists every relevant id has nDCG 1 |
| PhpValues.ZvalToDataValue | laurus-php/src/convert.rs:72-202 | The reader, with its loops and early returns, computes the specified shape of every PHP value |
| PhpValues.ArrayOfArraysToPoints | laurus-php/src/convert.rs:350-367 | The geo loop sorts points into the two kinds, stops at the first failing element, and accepts one kind only |
| PhpValues.DataValueToZval | laurus-php/src/convert.rs:397-553 | The writer, pushing one element at a time, builds the specified PHP value |
| PhpMeaning.ReadMeans | laurus-php/src/convert.rs:72-202 | The reader returns a value exactly if the PHP value stands for it, by a relation on shapes and elements that fixes the keys, ranges, order, widening and rounding |
| PhpMeaning.PointMeaning | laurus-php/src/convert.rs:105-122 | An array reads as a point exactly if it holds that point's float coordinates under its keys, latitude and longitude within 90 and 180 degrees, whatever other keys it has |
| PhpMeaning.WriteShows | laurus-php/src/convert.rs:397-553 | The writer returns exactly the PHP value that shows the value: scalars as such, instants as text, points under their keys, arrays as lists in order |
| PhpMeaning.ReadBack | laurus-php/src/convert.rs:397-553 | What reading gives for any value written, canonical or not, including what timestamps kept as text, empty arrays, bare or unrounded vectors and points out of range become |
| PhpMeaning.ErrorsExactly | laurus-php/src/convert.rs:72-239 | Which error every PHP value that is not accepted gives: the first bad row by its index, the first element that is no point, the first bad coordinate |
| PhpValues.ReadIsCanonical | laurus-php/src/convert.rs:72-202 | Whatever the reader returns is canonical: no timestamp left as text, no empty array but the integer one, no bare vector, points in range, vectors in single precision |
| PhpValues.RoundTrip | laurus-php/src/convert.rs:397-553 | A value survives writing and reading exactly when it is canonical |
| PhpValues.ReadIsStable | laurus-php/src/convert.rs:72-202 | For every PHP value the reader accepts, read, write and read again gives the first result |
| PhpValues.VectorReadsAsFloats | laurus-php/src/convert.rs:419-428 | A bare vector comes back as an array of floats, and an empty one as the empty integer array |
| PhpValues.KeysDecide | laurus-php/src/convert.rs:105-122 | `lat` and `lon` decide before `x`, `y` and `z`, and both before anything else; the coordinates must be floats, and a geo point in range |
| PhpValues.AcceptedExactly | laurus-php/src/convert.rs:72-202 | Exactly which PHP values the reader accepts: an array keyed as a point if its coordinates are floats (and in range), any other array if its elements are all lists of numbers, all points of one kind, all valid strings, all booleans or all numbers |
| PhpValues.TokenVectorsAccepted | laurus-php/src/convert.rs:206-239 | A list of lists is accepted exactly when every element is a number, and reads as those numbers in single precision, row by row |
| PhpValues.PointsAccepted | laurus-php/src/convert.rs:350-367 | An array of arrays is accepted as points exactly when it is not empty and its elements all read as points of one kind |
| PhpValues.ScalarsAccepted | laurus-php/src/convert.rs:150-194 | An array under integer keys that starts with a scalar is accepted exactly when it holds only valid strings, only booleans or only numbers |
| PhpValues.NumbersRead | laurus-php/src/convert.rs:176-194 | Numbers stay integers only if all are; one float widens the rest, element by element |
| PhpJson.ZvalToJson | laurus-php/src/convert.rs:271-307 | The recursion ends on any heap, by the depth guard alone, and computes the specified conversion |
| PhpJson.HashtableToJson | laurus-php/src/convert.rs:318-345 | The loop over a list and the loop over a keyed array, each stopping at its first error, compute the specified conversion of a table |
| PhpJson.NamesKey | laurus-php/src/convert.rs:333-341 | The member name of an integer key is its decimal numeral, without leading zeros and with a minus sign if negative; of a text key the text; a key that is not valid text has none |
| PhpJson.NamesDiffer | laurus-php/src/convert.rs:342-342 | Different keys have different names, as PHP keeps no text key that is an integer's numeral, so an insertion overwrites nothing |
| PhpJson.ErrorsExactly | laurus-php/src/convert.rs:271-345 | Which error a value gives: too deep, its own if it is no array, and for an array that of the first entry that fails, its key before its value |
| PhpJson.ConvertsExactly | laurus-php/src/convert.rs:271-345 | At any depth, the result is `j` exactly when `j` is the full unfolding of the value and fits in the depth left |
| PhpJson.SucceedsExactly | laurus-php/src/convert.rs:247-345 | The conversion succeeds exactly when every node reached is writable and none lies more than 32 array steps down |
| PhpJson.CyclesAreRejected | laurus-php/src/convert.rs:241-247 | A value from which a cycle can be reached is always rejected |

## Left out

- Floating point: rounding, NaN and infinite distances, and the square root itself. Reals are exact, so the clamp at line 134 of the script is shown never to fire; with rounding it can.
- The cosine formula and the row norms (scripts/token_pooling_reference.py:58-65): `Condensed.Distances` takes `1 - cos` of each pair, finite or not, as given.
- SciPy's own linkage, the row generator and the JSON fixture (scripts/token_pooling_reference.py:150-205).
- The engine's mean pooling of each cluster's vectors, its configuration and its callers: the Rust twin of the clustering is the same algorithm as the script's.
- The script's `members` and `seen` dictionaries are maps; that Python iterates them in insertion order does not matter, since owners are written for disjoint leaves, and is not modelled.
- The rules of `violation_for`, the regular expressions and the git file listing of `scripts/check-binding-snippets.py`: one-branch checks and I/O.
- The logarithm of the DCG discount: any positive, growing function of the rank stands for it. Equality cases need it to grow strictly, as a logarithm does.
- Recall, ceiling recovery, the random placebo, the bootstrap, downloads and index construction of `scripts/beir_ladr_eval.py`: one-line ratios, randomness and I/O.
- TokenPooling.LinkagesAgreeIffHarmless: says nothing of runs in which two tied pairs share a cluster. Such ties may change the clusters (`Ties.TieCanMatter`) or, when all of them end in one cluster anyway, not.
- Binary data and MIME types (`Bytes`, `BytesArray`) of the PHP conversion.
- The timestamp format (section 5.6 of RFC 3339): parsing and printing are an abstract pair in which parsing undoes printing. Single precision and the widening of integers are abstract in the same way.
- PHP's own key normalisation: that the keys of one array differ, and that no text key is an integer's numeral, is what PHP guarantees and `PhpJson.NamesDiffer` assumes. The order of a JSON object's members is kept where the engine's map may sort them.
- Arrays that contain themselves, for the data-value reader: its values are finite trees here (the program has no depth guard there). The JSON conversion is modelled on an arbitrary heap.
- Error texts: errors are told apart, their wording is not kept. A `GeoPoint` out of range is an error as in `GeoPoint::try_new` (laurus/src/data.rs:89-101).
- Document conversion (laurus-php/src/convert.rs:378-386), the other language bindings, the command line, the servers, and the index, query and storage engine.
