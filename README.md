# graph_summarization: the Summary core in Dafny

The `Summary` class is the base class of the graph summarization algorithms
(Greedy, SWeG, LDME). It compresses a directed graph into three parts:

- **supernodes**: a partition of the vertices;
- **superedges** P: pairs of supernodes whose whole block of vertex pairs is
  declared connected;
- **corrections** C+ and C-: C+ lists edges added back, C- lists pairs taken
  out of a superedge block.

This project models that class:

- the partition, kept as three integer arrays:
  - `S`: the owner of each vertex;
  - `I`: the first member of each supernode;
  - `J`: the next member in the list;
- walking and merging supernodes;
- the neighbour-count ("weight") vectors;
- the Jaccard similarity;
- the savings estimate of a candidate merge;
- both encoders: the pairwise one and the sort-based one;
- the supernode count;
- the lossy drop pass.

Modules:

- `Sums`: sums over integer maps.
- `Graphs`: the graph as successor lists.
- `Weights`: weight vectors, `updateW` and `computeJacSim`.
- `Saving`: the block cost rule and the three costs of `computeSaving`.
- `Encoding`: what a correct encoding of the graph is, plus the decoding round trip.
- `Pairwise`: `encodePhase`.
- `Runs`: `encodePhase_new`, both as written and corrected.
- `Drop`: `dropPhase`.
- `GraphSummary`: the class `Summary` itself.

How the model relates to the code:

- The partition invariant is `Summary.Valid()`. It relates the arrays to a ghost map `Members` from each supernode's representative to its member list. It says:
  - the lists are acyclic, disjoint and cover every vertex;
  - each representative heads its own list;
  - `S` names each vertex's list.
- The class methods work on the arrays as the source does.
- The loops that only compute a value are module-level methods. Each is proved against a specification function.
- Both encoders are proved to produce an encoding in the sense of `Encoding.Encodes`. `Encoding.RoundTrip` shows that such an encoding determines the graph.
- `encodePhase_new` as written drops the last block and fails on an empty edge list (see Findings). `Summary.EncodePhaseNew` uses the corrected run encoder. The as-written one is kept beside it.

## Model

| member | source | states |
|---|---|---|
| GraphSummary.Singletons | src/graph_summarization/Summary.java:48-52 | S[v] = I[v] = v and J[v] = -1 for all v describe n singleton supernodes. They satisfy the partition invariant, and the sizes sum to n |
| GraphSummary.Summary.constructor | src/graph_summarization/Summary.java:38-52 | every vertex starts as its own supernode, and the partition invariant holds |
| GraphSummary.Summary.OwnerValid | src/graph_summarization/Summary.java:16-21 | under the invariant, each vertex's owner S[v] is a supernode whose member list contains v |
| GraphSummary.Summary.SuperNodeLength | src/graph_summarization/Summary.java:78-86 | walking from I[r] along J counts exactly r's members; the count is positive iff r is a live supernode (I[r] != -1) |
| GraphSummary.Summary.RecoverSuperNode | src/graph_summarization/Summary.java:94-105 | the returned array holds r's members in list order (empty for a retired id) |
| GraphSummary.Summary.Relabel | src/graph_summarization/Summary.java:68-69 | the owner of every listed vertex becomes the new owner; all other owners are unchanged |
| GraphSummary.Summary.Splice | src/graph_summarization/Summary.java:66-69 | the array updates of a merge: A's last member links to B's head, B is retired, both member lists are relabelled to A |
| GraphSummary.MergeStep | src/graph_summarization/Summary.java:66-69 | those array updates turn a valid partition into the valid partition where A's list is followed by B's and B is gone; the sizes still sum to n |
| GraphSummary.SumSizesMerge | src/graph_summarization/Summary.java:61-70 | merging moves B's size onto A, so the size total over all ids is unchanged |
| GraphSummary.Summary.SpliceLists | src/graph_summarization/Summary.java:66-69 | the splice keeps the partition invariant and yields the merged member map |
| GraphSummary.Summary.MergeOrdered | src/graph_summarization/Summary.java:64-69 | merging a < b: a's list followed by b's, b retired, every member of either owned by a, all other supernodes unchanged, invariant kept |
| GraphSummary.Summary.UpdateSuperNode | src/graph_summarization/Summary.java:61-70 | the smaller id survives whatever the argument order, with the same effects as MergeOrdered |
| Weights.CountRow | src/graph_summarization/Summary.java:146-151 | counting one successor array adds each of its entries once to the running occurrence counts |
| Weights.CountSuccessors | src/graph_summarization/Summary.java:144-152 | the counting loops produce, for every vertex, its number of occurrences among the members' successors |
| GraphSummary.Summary.CreateW | src/graph_summarization/Summary.java:141-154 | the result is the weight vector of the supernode's members |
| GraphSummary.Summary.CreateWBatch | src/graph_summarization/Summary.java:116-133 | w_All is keyed exactly by 0 .. group_size-1, and entry i is the weight vector of supernode Q[i] |
| Weights.WeightCounts | src/graph_summarization/Summary.java:141-154 | a weight vector's keys are exactly the members' successors, each value is that successor's occurrence count, all values are positive, and they total the members' summed out-degree |
| Weights.MergedWeight | src/graph_summarization/Summary.java:164-178 | the weight vector of a merged member list is the updateW combination of the two sides' vectors |
| Weights.UpdateW | src/graph_summarization/Summary.java:164-178 | the result has every key of either map, with the sum of the two counts (a missing key counts 0) |
| Weights.CombineProps | src/graph_summarization/Summary.java:164-178 | combining is symmetric, and the combined total is the sum of the totals |
| Weights.ComputeJacSim | src/graph_summarization/Summary.java:187-206 | up is the sum over all keys of the smaller count and down the sum of the larger (a missing key counts 0) |
| Weights.JacBounds | src/graph_summarization/Summary.java:187-206 | for non-negative counts, 0 <= up <= down |
| Weights.JacSymmetric | src/graph_summarization/Summary.java:187-206 | swapping the two vectors leaves up and down unchanged |
| Weights.JacSelf | src/graph_summarization/Summary.java:187-206 | a vector compared with itself has up = down = its total |
| Weights.JacEqualIff | src/graph_summarization/Summary.java:187-206 | for weight vectors (positive counts), up = down iff the two vectors are equal, i.e. similarity 1 exactly for identical neighbourhoods |
| Weights.JacRatio | src/graph_summarization/Summary.java:207 | the similarity is defined iff down != 0; it then satisfies ratio * down = up and lies in [0, 1] when 0 <= up <= down |
| Saving.BlockCost | src/graph_summarization/Summary.java:379 | a block with E edges out of compare pairs costs the smaller of listing its edges (E) and a superedge plus corrections (1 + compare - E), and is one of the two |
| Saving.SelfCompare | src/graph_summarization/Summary.java:378 | a supernode's pair bound with itself, num * (num - 1) / 2, is exact (the product is even) |
| GraphSummary.Summary.GroupKey | src/graph_summarization/Summary.java:352-372 | one key of either grouping loop adds its count to its owner's entry, and records the owner's size when the owner is new |
| GraphSummary.Summary.GroupFirst | src/graph_summarization/Summary.java:352-360 | candidate_spA is w_A grouped by owner, and candidate_size holds the size of each owner met |
| GraphSummary.Summary.GroupSecond | src/graph_summarization/Summary.java:363-373 | candidate_spB is w_B grouped by owner, and candidate_size is extended by the new owners' sizes |
| GraphSummary.Summary.GroupByOwner | src/graph_summarization/Summary.java:351-373 | both vectors are grouped by owning supernode; candidate_size is keyed by the owners met and holds their member counts |
| Saving.GroupTotal | src/graph_summarization/Summary.java:352-373 | grouping by owner preserves the total number of edges |
| Saving.Grouped | src/graph_summarization/Summary.java:352-373 | grouping a non-negative vector keeps it non-negative and keeps its total |
| Saving.CostLoopA | src/graph_summarization/Summary.java:376-387 | after the loop over A's neighbouring supernodes, cost_A is the sum of A's block costs. The merged cost so far covers A's neighbours other than A and B |
| Saving.CostLoopB | src/graph_summarization/Summary.java:388-400 | after the loop over B's neighbouring supernodes, cost_B is the sum of B's block costs. The merged cost so far covers B's neighbours that are not A's and are neither A nor B |
| Saving.ComputeCosts | src/graph_summarization/Summary.java:376-415 | costs: each side is the sum of its block costs. The merged cost is the sum over every neighbour outside {A, B} with both sides' edges, plus the merged self block when it holds an edge |
| Saving.SavingCostsAtMost | src/graph_summarization/Summary.java:340-415 | each side's cost is at most its number of edges, and the merged cost at most their sum: a block never costs more than listing its edges |
| GraphSummary.Summary.SavingBounds | src/graph_summarization/Summary.java:340-415 | the same bounds for the costs of two supernodes of the current partition |
| Saving.SavingRatio | src/graph_summarization/Summary.java:416 | the score is defined iff cost_A + cost_B != 0, and then score * (cost_A + cost_B) = cost_A + cost_B - cost_AUnionB |
| GraphSummary.Summary.ComputeSaving | src/graph_summarization/Summary.java:340-416 | the returned score is the savings ratio of the specified costs of merging A and B, under the current owners and sizes |
| GraphSummary.Summary.SupernodeCount | src/graph_summarization/Summary.java:661-666 | the number of ids with I[i] != -1 is the number of supernodes |
| GraphSummary.RenumberMembers | src/graph_summarization/Summary.java:466-472 | the member list is copied, and exactly the members' dense id in S_copy is set to the new id |
| GraphSummary.RenumberStepLemma | src/graph_summarization/Summary.java:461-476 | one step of the renumbering loop keeps its invariant: supernodes below i have dense ids 0 .. count-1 in increasing order, with their sizes and member lists recorded |
| GraphSummary.Summary.RenumberSupernode | src/graph_summarization/Summary.java:463-475 | processing id i extends the renumbering invariant from i to i + 1 |
| GraphSummary.Summary.Renumber | src/graph_summarization/Summary.java:457-476 | after the loop, every supernode has been renumbered (invariant at n), and the partition invariant still holds |
| GraphSummary.DenseCtxOK | src/graph_summarization/Summary.java:461-476 | the renumbering yields a consistent dense view. supernode_count is the number of supernodes, and each vertex's dense id is the rank of its owner. sn_to_n[c] lists exactly the vertices with dense id c, and supernode_sizes[c] is its length |
| GraphSummary.Summary.DenseContext | src/graph_summarization/Summary.java:450-476 | the fields describe that dense view: sn_to_n has one list per supernode, each vertex's dense id is the rank of its owner, and the partition invariant still holds |
| Encoding.MemberIff | src/graph_summarization/Summary.java:468-473 | in a consistent dense view, v is listed in sn_to_n[c] iff its dense id is c |
| Encoding.SparseIff | src/graph_summarization/Summary.java:513-521 | a block stays sparse iff 4 * count <= size * (size - 1) on the diagonal, or 2 * count <= size_A * size_B off it |
| Encoding.RealThreshold | src/graph_summarization/Summary.java:609-610 | comparing a count with the real quotient by 2 or 4 decides the same as with the integer quotient, so the two encoders' thresholds agree |
| Encoding.AppendAll | src/graph_summarization/Summary.java:523-527 | after appending a block's edges, C+ keeps the old entries as a prefix, followed by those edges, each listed once |
| Encoding.ComplementRow | src/graph_summarization/Summary.java:535-543 | one row of the complement: exactly the pairs (a, b), b in B, that are not edges of the block, each listed once when B's member list has no repeats |
| Encoding.Complement | src/graph_summarization/Summary.java:534-544 | the appended C- entries are exactly the member pairs of A x B that are not edges of the block, each listed once when the member lists have no repeats |
| Encoding.RoundTrip | src/graph_summarization/Summary.java:447-550 | decoding an encoding: for vertices u, v with dense id of u <= dense id of v, u -> v is an edge iff it is in C+, or its supernode pair is a superedge and it is not in C- |
| Encoding.EncodingUnique | src/graph_summarization/Summary.java:510-546 | an encoding lists each entry once, so any two encodings of the same blocks hold the same entries with the same multiplicities, and the three lists have the same combined length |
| Encoding.EncodingShape | src/graph_summarization/Summary.java:510-546 | in an encoding, every superedge is an ordered pair of dense ids. Every C+ entry is a real edge of a sparse upward block. Every C- entry is a non-edge between the members of a superedge's two supernodes |
| Encoding.CountsAgree | src/graph_summarization/Summary.java:496 | when no successor array repeats a vertex, counting edge occurrences (first encoder) and distinct edges (second encoder) agree, and so does the dense decision |
| Encoding.EncodesAgree | src/graph_summarization/Summary.java:613 | on such graphs the two encoders have the same specification |
| Pairwise.ScanEdge | src/graph_summarization/Summary.java:494-504 | one successor neighbours[i]: its target's count goes up by one, the edge joins the target's set, and the target joins has_edge_with_A when it is at least A, so the three collections describe the row one edge longer |
| Pairwise.ScanMember | src/graph_summarization/Summary.java:491-506 | one member's successors update edges_count, edges_list and has_edge_with_A as the counts over the extended edge row |
| Pairwise.ScanBlock | src/graph_summarization/Summary.java:483-507 | after the scan of A's members, the three collections are the counts, edge sets and upward targets of A's whole edge row |
| Pairwise.ScanMeaning | src/graph_summarization/Summary.java:483-507 | edges_count[B] is the number of edge occurrences from A into B, and edges_list[B] is the edge set of block (A, B). B is in has_edge_with_A iff B >= A and the block is non-empty |
| Pairwise.DecideBlock | src/graph_summarization/Summary.java:513-545 | block (A, B) becomes a superedge iff dense; if sparse its edges go to C+, if dense the missing member pairs go to C-. Only entries of block (A, B) are appended, each once |
| Pairwise.DecideBlocks | src/graph_summarization/Summary.java:510-546 | deciding every B in has_edge_with_A extends an encoding of the blocks before row A to the non-empty blocks of row A |
| Pairwise.EncodeSupernode | src/graph_summarization/Summary.java:479-547 | one round of the outer loop extends an encoding of the upward blocks in rows below A to rows below A + 1 |
| Pairwise.EncodePairwise | src/graph_summarization/Summary.java:479-547 | the whole pass encodes every upward block, with occurrence counts; P, C+ and C- list each entry once |
| GraphSummary.Summary.EncodePhase | src/graph_summarization/Summary.java:447-550 | after encodePhase, P, C+ and C- encode the graph under the dense view, each listing every entry once, and the partition is unchanged |
| Runs.RowTuplesIff | src/graph_summarization/Summary.java:587-591 | one vertex contributes exactly the tuples of its out-edges that go from a lower or equal dense id to a higher or equal one |
| Runs.TuplesIff | src/graph_summarization/Summary.java:585-592 | the tuple list holds exactly the edges u -> v with dense id of u <= dense id of v, each tagged with its two dense ids |
| Runs.BuildTuples | src/graph_summarization/Summary.java:585-592 | the nested loops build that tuple list |
| Runs.SortTuples | src/graph_summarization/Summary.java:593 | the sorted list is ordered by supernode pair and is a permutation of the input |
| Runs.SortKeeps | src/graph_summarization/Summary.java:593 | a permutation of the tuple list still holds exactly those edges |
| Runs.RunIsBlock | src/graph_summarization/Summary.java:599-648 | in such a list, the edges tagged with pair k are exactly the edges of block k |
| Runs.RunEnds | src/graph_summarization/Summary.java:605 | in a sorted list, when the pair changes at position i, the run of the previous pair is complete and the new pair has not been seen |
| Runs.DecideRun | src/graph_summarization/Summary.java:605-641 | a finished run becomes a superedge iff dense by its distinct edge count; if sparse its edges go to C+, if dense the missing member pairs go to C-. Only entries of block (A, B) are appended, each once |
| Runs.ReadTuple | src/graph_summarization/Summary.java:599-648 | after popping tuple i, every pair seen except the current one is encoded, and edges_set holds the current pair's run so far |
| Runs.ReadRuns | src/graph_summarization/Summary.java:595-649 | after the loop, every pair except the last is encoded, and edges_set holds the full run of the last pair |
| Runs.EncodeRunsAsWritten | src/graph_summarization/Summary.java:595-649 | as written, the run loop fails exactly on an empty list (get(0)); otherwise it encodes every pair of the list except the last |
| Runs.EncodeRuns | src/graph_summarization/Summary.java:595-649 | with the last run flushed after the loop and the empty list handled, every pair of the list is encoded, with no entry listed twice |
| Runs.KeysCover | src/graph_summarization/Summary.java:585-592 | the pairs in the tuple list are upward blocks, and every upward block not in it has no edge |
| Runs.EncodeSorted | src/graph_summarization/Summary.java:557-651 | the corrected sort-based encoder encodes every upward block, with distinct edge counts; P, C+ and C- list each entry once |
| GraphSummary.Summary.EncodePhaseNew | src/graph_summarization/Summary.java:557-651 | after the corrected encodePhase_new, P, C+ and C- encode the graph under the dense view, each listing every entry once, and the partition is unchanged |
| Runs.TwoCycleListed | src/graph_summarization/Summary.java:585-592 | for the graph 0 -> 1 -> 0 split into two singletons, the tuple list has the one tuple (0, 1, 0, 1) |
| Runs.LastRunLost | src/graph_summarization/Summary.java:595-649 | on that graph, the as-written result leaves the real edge 0 -> 1 neither in C+ nor under a superedge, so decoding loses it |
| Runs.NoTuples | src/graph_summarization/Summary.java:585-596 | a one-vertex graph without edges is a valid input whose tuple list is empty, so get(0) fails |
| Drop.BudgetsNonNeg | src/graph_summarization/Summary.java:680-683 | a non-negative error bound gives every vertex a non-negative budget |
| Drop.InitBudgets | src/graph_summarization/Summary.java:680-683 | cv[v] = error_bound * outdegree(v) |
| Drop.ChargeSum | src/graph_summarization/Summary.java:691-693 | removing a correction takes 2 off the total budget |
| Drop.DropEdgeList | src/graph_summarization/Summary.java:685-700 | the C+ (and C-) loop keeps exactly the entries and leaves exactly the budgets of the specified pass |
| Drop.DropEdgesSub | src/graph_summarization/Summary.java:685-717 | the kept corrections are a subsequence of the old list in the same order, and no budget grows |
| Drop.DropEdgesSum | src/graph_summarization/Summary.java:685-700 | the total budget falls by exactly 2 per removed correction |
| Drop.DropEdgesNonNeg | src/graph_summarization/Summary.java:691 | with non-negative budgets and no correction u -> u, no budget goes negative |
| Drop.SelfLoopOverdraw | src/graph_summarization/Summary.java:691-693 | a correction 0 -> 0 with budget 1.0 passes the test and is removed, leaving the budget at -1.0 |
| Drop.AllAtLeastLoop | src/graph_summarization/Summary.java:731-739 | cond_A is true iff every member's budget is at least the other side's size |
| Drop.SubAllLoop | src/graph_summarization/Summary.java:761-766 | the loop subtracts the other side's size from each listed member's budget |
| Drop.SubAllAt | src/graph_summarization/Summary.java:761-766 | for a list without repeats, each listed vertex loses exactly that size and every other budget is unchanged |
| Drop.DropPair | src/graph_summarization/Summary.java:721-767 | a superedge is kept iff it is diagonal or a member of either side lacks budget; otherwise it is removed and both sides are charged |
| Drop.DropPairList | src/graph_summarization/Summary.java:719-769 | the superedge loop keeps exactly the superedges and leaves exactly the budgets of the specified pass |
| Drop.DropPairsSub | src/graph_summarization/Summary.java:719-769 | the kept superedges are a subsequence of the sorted list, and every diagonal superedge (A, A) is kept |
| Drop.DropPairsLower | src/graph_summarization/Summary.java:719-769 | no budget grows during the superedge pass |
| Drop.PairChargeLowers | src/graph_summarization/Summary.java:731-766 | removing a superedge lowers only the budgets of its two supernodes' members, never below 0 when they were non-negative |
| Drop.DropPairsNonNeg | src/graph_summarization/Summary.java:719-769 | the superedge pass keeps non-negative budgets non-negative |
| Drop.EncodedDroppable | src/graph_summarization/Summary.java:677-687 | the encoders' output is a valid input of the drop pass: correction endpoints are vertices, superedges are pairs of dense ids, member lists match the sizes |
| Drop.DropAll | src/graph_summarization/Summary.java:680-769 | the pass runs C+, then C-, then the sorted superedges against one budget vector. Each result is a subsequence of its input. Diagonal superedges survive, and the total size never grows |
| Drop.DropBudgetsNonNeg | src/graph_summarization/Summary.java:680-769 | with a non-negative error bound and no correction u -> u, every budget ends non-negative |
| GraphSummary.Summary.DropPhase | src/graph_summarization/Summary.java:677-771 | dropPhase on an encoding replaces P, C+ and C- by the result of the specified pass. Each is a subsequence of the old one, diagonal superedges survive, and the summary never grows |

## Left out

- The graph is a value `seq<seq<int>>` of successor arrays, so loading it through `ImmutableGraph` (Summary.java:40-41) is not modelled, and `Gr.outdegree(i)` is the length of `Gr[i]`.
- Console output is not modelled: the phase headers, the `evaluatePhase` report (Summary.java:667-669) and the drop compression line (Summary.java:770). The elapsed seconds the encoders return are not modelled either, since the clock is outside the model. So the mismatched `numArcs() / 2` in the drop report is not modelled.
- `computeSaving_test` (Summary.java:219-338) is a debugging copy of `computeSaving` and is not modelled.
- `initialPhase`, `dividePhase`, `mergePhase` and `run` have empty bodies meant to be overridden in subclasses. They are not modelled.
- Doubles are modelled as exact reals.
  - The savings costs are integers, because every block bound is whole.
  - `computeJacSim` and `computeSaving` return `None` where the original divides by zero (NaN or an infinity).
- HashMap, HashSet and TIntHashSet iteration order is not modelled. Weight vectors are maps; edges_list, edges_set and has_edge_with_A are sets; C+, C- and P are specified by membership, with each entry listed once (Encoding.Encodes). Which order the entries land in is not pinned down; Encoding.EncodingUnique shows that only the order can differ.
- The order of `P` in `DropPhase`: the `EdgeCompare` comparator is not part of this model. DropPhase takes the sorted list `order` as a parameter that must be a permutation of P, and the proofs hold for every such order.
- `FourTuple` and its comparator are not part of this model. The sort is modelled as an insertion sort by (A, B), and the run encoder relies only on sortedness and permutation.
- Encoding.RoundTrip: only edges u -> v whose dense id of u is at most that of v are recovered. Both encoders (Summary.java:498 and :588) drop the others. On a symmetric graph these are the mirror images of kept edges.
- 32-bit int overflow in the size products (Summary.java:516, :518, :609-610, :623) and in counters is not modelled; integers are unbounded.
- `edges_compressed` in `encodePhase_new` (Summary.java:614, :623) is written but never read, and is not modelled.
- The parallel lists Cp_0/Cp_1 and Cm_0/Cm_1 are one sequence of pairs each.
- `sn_to_n` is a sequence indexed by dense id instead of a HashMap. Every dense id below supernode_count is present, so no lookup can miss.
- The encoders' local `S_copy` survives as the ghost field `DenseIds`.
- The encoders' local collections (edges_count, edges_list, has_edge_with_A, edges_encoding) are arrays and sequences of the methods that model them. Ctx holds snapshots of sizes and member lists.
- The guard `prev_A <= prev_B` (Summary.java:607) is modelled in Runs.ReadTuple. It always holds, since only tuples with A <= B are listed.
- Drop.DropEdgesNonNeg and Drop.DropBudgetsNonNeg are proved only for corrections with distinct endpoints. A correction u -> u is charged twice after one check, and can leave a budget at -1 (Drop.SelfLoopOverdraw).
- GraphSummary.Summary.DropPhase: its ensures does not restate `Valid()`. It modifies only P, Cp and Cm, which the partition invariant does not read.
- GraphSummary.Summary.EncodePhaseNew models the corrected run encoder (Runs.EncodeRuns). The code as written is Runs.EncodeRunsAsWritten (see Findings).

## Findings

| source | as written | input that shows it | evidently intended | confidence | as-written member | corrected member |
|---|---|---|---|---|---|---|
| src/graph_summarization/Summary.java:599-649 | the run loop encodes a run only when the next tuple has a different pair, and nothing runs after the loop, so the last run's block is never encoded | the graph 0 -> 1, 1 -> 0 with two singleton supernodes: the one tuple (0, 1, 0, 1) is read, then the loop ends, and edge 0 -> 1 is in neither P nor C+ | encode the final run after the loop as well | not executed | Runs.EncodeRunsAsWritten, Runs.LastRunLost | Runs.EncodeRuns, Runs.EncodeSorted |
| src/graph_summarization/Summary.java:595-596 | `edges_encoding.get(0)` is read before the loop, and throws on an empty list | a one-vertex graph without edges (or any graph with no edge u -> v whose dense id of u is at most that of v) | return an empty encoding | not executed | Runs.EncodeRunsAsWritten, Runs.NoTuples | Runs.EncodeRuns |
