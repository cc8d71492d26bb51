# tinywidth twin-width engine in Dafny

This project models the exact twin-width engine of the PACE 2023 solver
*tinywidth* and proves properties of that model. The engine searches
for contraction sequences of small width: each contraction merges two
vertices of a trigraph, so a graph with black and red edges. It
covers:

- the fixed-capacity bit set `LongBitset` (one 256-bit instance, four
  64-bit words) and the `unordered_set` operators of `common.h`;
- the ordered union-find, in which the first argument's root survives;
- the merge rule of a contraction, defined once on a value
  (`Trigraph.Shape`), with the dense graph `BitGraph` and the sparse graph
  `Graph` both proved against it. This covers widths, the canonical key,
  the option order, subgraphs, dense copies and component sizes;
- kernelization: domination to a fixed point, path and tree collapsing,
  the `kernelize_tww_gt2` and `kernelize_heur` pipelines, and twin
  merging through a trie;
- the memoized branch and bound `mem_bab_aux_lb_init`, its wrapper
  `mem_bab_heur_with_ub_lb`, and the per-component driver
  `cc_bab_with_lb`;
- the deterministic parts of the heuristics (`aux_merge`,
  `tree_merge_aux`, `greedy_mincost`, Floyd–Warshall and its incremental
  update, the pair cost of `greedy_mincost_local`);
- the deterministic parts of the lower bounds (`greedy_lb` and the
  accumulation loops around the sampled bound).

Modules follow the source files. Three files are split in two or three:
`bgraph_kernel.cpp` into `BitKernel`, `BitPaths` and `BitTrees`;
`upper_bound.h` into `UpperBound` and `Distances`; `bab.h` into `Bab` and
`Components`. `Trigraph` has no source file of its own: it states once the
merge rule that both graph classes follow. Where the source mutates an
object (bit set, union-find, both graphs, the distance matrix), the model
is a class whose methods say what they change. Their loops are proved
against functions on the abstract state. Three kinds of input are not
computed by the model; they become parameters and predicates constrain
what they may return:

- the randomized heuristic `best_heur`;
- the random sampling of `subgraph_lb`;
- the clock.

`unordered_set` iteration order is not fixed: such loops pick the next
element by choice (`:|`), so each proof covers every order.

Constants: `INFTY` is 9999 and `MAX_SIZE` is 256. The labels of the
`BitGraph` key are `char`s, which are signed on the usual targets, so
label `i` is stored as `i - 256` when `i >= 128` (`BitGraphs.CharOf`).

## Model

| member | source | states |
|---|---|---|
| LongBitsets.LongBitset.constructor | src/long_bitset.hpp:19 | a new bitset has no member |
| LongBitsets.LongBitset.Contains | src/long_bitset.hpp:21 | answers true exactly when `i` is a member, reading bit `i % 64` of word `i / 64` |
| LongBitsets.LongBitset.Count | src/long_bitset.hpp:22 | is 1 for a member and 0 otherwise |
| LongBitsets.LongBitset.Insert | src/long_bitset.hpp:23 | the member set gains `i` and nothing else changes |
| LongBitsets.LongBitset.Erase | src/long_bitset.hpp:24 | the member set loses `i` and nothing else changes |
| LongBitsets.LongBitset.Size | src/long_bitset.hpp:25-31 | the sum of the per-word population counts is the number of members |
| LongBitsets.SizeIsPopCount | src/long_bitset.hpp:25-31 | the member count of a word array equals the running popcount over all its words |
| LongBitsets.LongBitset.Empty | src/long_bitset.hpp:33-40 | answers true exactly when no word has a set bit, that is, when the set is empty |
| LongBitsets.LongBitset.Singleton | src/long_bitset.hpp:42 | a fresh bitset whose only member is `i` |
| LongBitsets.LongBitset.Full | src/long_bitset.hpp:45-51 | a fresh bitset whose members are exactly `0..n-1` |
| LongBitsets.LongBitset.AndWith | src/long_bitset.hpp:53-65 | the word-by-word AND leaves the intersection of the two member sets |
| LongBitsets.LongBitset.OrWith | src/long_bitset.hpp:67-79 | the word-by-word OR leaves the union |
| LongBitsets.LongBitset.XorWith | src/long_bitset.hpp:81-93 | the word-by-word XOR leaves the symmetric difference |
| LongBitsets.LongBitset.DiffWith | src/long_bitset.hpp:95-108 | the word-by-word AND-NOT leaves the difference |
| LongBitsets.MembersAnd | src/long_bitset.hpp:53-65 | AND of word arrays is intersection of their member sets |
| LongBitsets.MembersOr | src/long_bitset.hpp:67-79 | OR of word arrays is union |
| LongBitsets.MembersXor | src/long_bitset.hpp:81-93 | XOR of word arrays is symmetric difference |
| LongBitsets.MembersDiff | src/long_bitset.hpp:95-108 | AND-NOT of word arrays is difference |
| LongBitsets.MembersNot | src/long_bitset.hpp:115-121 | NOT of a word array holds exactly the indices below its width that were not members |
| LongBitsets.LongBitset.And | src/long_bitset.hpp:110-113 | the binary `&` returns a fresh bitset holding the intersection and leaves both operands alone |
| LongBitsets.LongBitset.Or | src/long_bitset.hpp:110-113 | the binary `\|` returns the union in a fresh bitset |
| LongBitsets.LongBitset.Xor | src/long_bitset.hpp:110-113 | the binary `^` returns the symmetric difference in a fresh bitset |
| LongBitsets.LongBitset.Diff | src/long_bitset.hpp:110-113 | the binary `-` returns the difference in a fresh bitset |
| LongBitsets.LongBitset.Complement | src/long_bitset.hpp:115-121 | `~` returns a fresh bitset holding every index below MAX_SIZE that is not a member |
| LongBitsets.LongBitset.SubsetOf | src/long_bitset.hpp:123-129 | answers true exactly when every member is a member of the other set |
| LongBitsets.SubsetByWords | src/long_bitset.hpp:123-129 | inclusion holds exactly when every word of `x & ~y` is zero |
| LongBitsets.CountrZeroLowest | src/long_bitset.hpp:184 | `countr_zero` of a word is 64 exactly for zero, and otherwise names its lowest set bit |
| LongBitsets.FirstSetAux | src/long_bitset.hpp:179-185 | the result is at least `from`; below 64 it is a set bit, and no bit between `from` and it is set |
| LongBitsets.LongBitset.FirstSet | src/long_bitset.hpp:162-177 | the result is a member at or after `from`, or MAX_SIZE, and no member lies between `from` and it |
| LongBitsets.LongBitset.Ascending | src/long_bitset.hpp:140-155 | iterating from `begin(from)` to `end()` lists, strictly ascending, exactly the members at or after `from` |
| LongBitsets.HasAfterInsert | src/long_bitset.hpp:23 | OR-ing the shifted one bit into word `i / 64` adds exactly `i` |
| LongBitsets.HasAfterErase | src/long_bitset.hpp:24 | AND-ing with the complemented shifted bit removes exactly `i` |
| Common.ReversedAt | src/bab.h:23 | entry `k` of the reversal is entry `\|s\|-1-k` of the sequence |
| Common.ReversedAppend | src/bab.h:68 | reversing a concatenation reverses the parts and swaps them |
| Common.ReversedTwice | src/bab.h:68 | reversal is its own inverse |
| Common.ReversedBelow | src/bab.h:23 | reversal keeps every pair in range |
| Common.Below | src/bgraph.cpp:16 | `full(n)` holds exactly `0..n-1`, so it has `n` members |
| Common.SetAnd | src/common.h:57-66 | copying `l` and erasing what `r` lacks yields `l ∩ r` |
| Common.SetOr | src/common.h:69-77 | copying `l` and inserting `r` yields `l ∪ r` |
| Common.SetXor | src/common.h:80-89 | erasing the shared elements from `l ∪ r` yields the symmetric difference |
| Common.SetDiff | src/common.h:91-99 | copying `l` and erasing `r` yields `l \ r` |
| UnionFind.OrderedUnionFind.constructor | src/union_find.hpp:8-13 | every element is its own parent, its own root and its class has size 1 |
| UnionFind.OrderedUnionFind.Find | src/union_find.hpp:15-19 | returns the root of `u`'s class; path compression only repoints parents to their roots, keeping classes, roots and sizes |
| UnionFind.OrderedUnionFind.Merge | src/union_find.hpp:21-31 | answers whether the classes differed; if so, the class of `v` joins the class of `u` under `u`'s root, sizes add up and `v`'s root stops being a root; otherwise nothing changes |
| UnionFind.OrderedUnionFind.Link | src/union_find.hpp:27-28 | hanging root `rv` under root `ru` unions the two classes and adds their sizes |
| UnionFind.RelabelClasses | src/union_find.hpp:27-28 | after the link, `ru`'s class is the disjoint union of both classes and every other class is unchanged |
| Trigraph.MergedActive | src/bgraph.cpp:115-140 | a contraction removes `v`, keeps as black neighbours of `u` only the common ones, makes the merge cost the red row of `u`, and leaves rows outside it untouched |
| Trigraph.MergedWellFormed | src/bgraph.cpp:115-140 | a contraction of a well-formed trigraph is well formed |
| Trigraph.ErasedWellFormed | src/bgraph.cpp:104-113 | deleting a vertex keeps a trigraph well formed and only drops the vertex from the other rows |
| Trigraph.DominatesIffNoNewRed | src/bgraph_kernel.cpp:18-36 | `u` dominates `v` exactly when merging `v` into `u` adds no red neighbour to `u` beyond those it had |
| Trigraph.DominatedMergeIsErase | src/bgraph_kernel.cpp:79-85 | merging a dominated vertex yields the same active trigraph as deleting it |
| Trigraph.TwinsMergeWithoutRed | src/graph_kernel.cpp:48-60 | merging black twins with no red edges creates no red edge anywhere |
| Trigraph.IsMaxRedDegUnique | src/bgraph.cpp:82-87 | the maximum red degree is uniquely determined |
| BitGraphs.CharOf | src/bgraph.cpp:19-20 | storing `i` into a `char` wraps it into -128..127, congruent modulo 256 |
| BitGraphs.CharOfInjective | src/bgraph.cpp:19-20 | distinct vertices below 256 get distinct key characters |
| BitGraphs.RelabelledJoins | src/bgraph.cpp:142-153 | after the key update, two vertices share a key exactly when they did or their keys were the two merged ones |
| BitGraphs.KeysAfterMerge | src/bgraph.cpp:142-153 | keys stay pairwise distinct over the remaining vertices after a merge |
| BitGraphs.InsertSorted | src/bgraph.cpp:47 | inserting into a strictly sorted sequence keeps it sorted and adds exactly one element |
| BitGraphs.SortTriples | src/bgraph.cpp:47 | the sort returns a strictly sorted permutation of its input |
| BitGraphs.BitGraph.constructor | src/bgraph.cpp:12-22 | every vertex below `n` is active with empty rows and key `i`, `full_tww` starts at `past_tww` and `cur_tww` at 0 |
| BitGraphs.BitGraph.Copy | src/bgraph.cpp:24-31 | the copy has the same widths, rows, mask and keys |
| BitGraphs.BitGraph.ActualN | src/bgraph.h:44 | the number of active vertices, at most `n` |
| BitGraphs.BitGraph.TotalDeg | src/bgraph.h:47 | the number of black and red neighbours together |
| BitGraphs.BitGraph.AdjacentSymmetric | src/bgraph.h:48 | adjacency in either colour is symmetric |
| BitGraphs.BitGraph.NonNeighbors | src/bgraph.h:52 | the active vertices other than `u` that are not black neighbours of `u` |
| BitGraphs.BitGraph.PairsAscending | src/bgraph.h:67-72 | lists every pair `u < v` of active vertices exactly once, in lexicographic order |
| BitGraphs.BitGraph.Options | src/bgraph.cpp:42-54 | every pair `u < v` of active vertices appears once, ordered by decreasing red-degree sum and then by `(u, v)` |
| BitGraphs.BitGraph.MergeCost | src/bgraph.cpp:57-63 | the red row `u` would get by merging in `v` |
| BitGraphs.BitGraph.AddEdge | src/bgraph.cpp:89-94 | adds the edge to both rows of the chosen colour and changes nothing else |
| BitGraphs.BitGraph.EraseEdge | src/bgraph.cpp:97-102 | removes the edge from both rows of the chosen colour and changes nothing else |
| BitGraphs.BitGraph.Erase | src/bgraph.cpp:104-113 | the state becomes the trigraph with `u` deleted |
| BitGraphs.BitGraph.UpdateKey | src/bgraph.cpp:142-153 | every key equal to the larger of the two keys becomes the smaller one |
| BitGraphs.BitGraph.ComputeWidth | src/bgraph.cpp:82-87 | `cur_tww` becomes the maximum red degree over the active vertices, starting from its old value, and `full_tww` keeps the maximum |
| BitGraphs.BitGraph.RedirectToward | src/bgraph.cpp:121-129 | every vertex in the hint turns its black edge to `u` red |
| BitGraphs.BitGraph.MergeRows | src/bgraph.cpp:117-131 | the rows become exactly those of the contracted trigraph |
| BitGraphs.BitGraph.FinishMerge | src/bgraph.cpp:133-139 | `cur_tww` takes the red degrees of `u` and of its red neighbours into account, `full_tww` keeps the maximum, keys are updated |
| BitGraphs.BitGraph.Merge | src/bgraph.cpp:115-140 | the state becomes the contraction of `v` into `u`, and both widths and the keys are updated as above |
| BitGraphs.BitGraph.MergeNoHint | src/bgraph.h:35 | merging with the computed merge cost as hint gives the contraction |
| BitGraphs.BitGraph.Contract | src/bgraph.cpp:33-40 | returns a graph holding the contraction, one vertex fewer, whose `cur_tww` restarts from 0 |
| BitGraphs.BitGraph.Subgraph | src/bgraph.cpp:67-80 | returns the subgraph induced by `h`, with its width recomputed from 0 |
| BitGraphs.MaxRedDegBelow | src/bgraph.cpp:82-87 | a maximum red degree is never larger than the number of vertices |
| BitKernel.Dominates | src/bgraph_kernel.cpp:18-36 | the subset test on the rows without `u` and `v` holds exactly when merging `v` into `u` gives `u` no red neighbour it lacked |
| BitKernel.CandidateIffContains | src/bgraph_kernel.cpp:38-51 | `v` survives the intersection of the rows of `u`'s black neighbours exactly when it is another active vertex whose black row contains that of `u`; such a `v` is never a black neighbour of `u` |
| BitKernel.Candidates | src/bgraph_kernel.cpp:48-50 | the computed candidate set is exactly the set of candidates characterised above |
| BitKernel.MergeDominating | src/bgraph_kernel.cpp:79-85 | deletes `v`, updates the keys and logs `(u, v)`; when `u` dominates `v` the result is the contraction of `v` into `u`, and both widths are unchanged |
| BitKernel.RemoveIfDominated | src/bgraph_kernel.cpp:53-58 | removes `v` and logs `(u, v)` exactly when `u` dominates `v` in the current graph; otherwise nothing changes |
| BitKernel.RemoveDominated | src/bgraph_kernel.cpp:46-60 | for one `u`, reports whether some candidate was removed; each removal logs one pair and removes one vertex, and without one the graph is unchanged |
| BitKernel.FindOneDominating | src/bgraph_kernel.cpp:44-63 | reports true exactly when a vertex was removed, logs one pair per removed vertex after the old log, keeps the widths and never empties the graph; on false the graph is unchanged |
| BitKernel.FindDominating | src/bgraph_kernel.cpp:65-76 | ends with no active vertex dominating one of its candidates, reports whether anything was removed, and leaves an already reduced graph and its keys unchanged |
| BitKernel.Kernelize | src/bgraph_kernel.cpp:7-16 | ends reduced, logs exactly one pair per removed vertex, keeps both widths and never empties a nonempty graph; run on a reduced graph it logs nothing and changes nothing, so a second run is a no-op |
| BitPaths.ReducePathsAux | src/bgraph_kernel.cpp:214-247 | answers true exactly when `u` was unseen and it and all its neighbours have total degree at most 2; lists of vertices seen before are left alone, every newly listed vertex was unseen and is not `u`, a non-mid-path `u` ends with an empty list, and the walk keeps its invariant |
| BitPaths.WalkRow | src/bgraph_kernel.cpp:228-242 | walking one row keeps the walk invariant, lists only previously unseen neighbours and turns the mid-path flag false when a neighbour has total degree above 2 |
| BitPaths.WalkAll | src/bgraph_kernel.cpp:197-200 | after walking from every active vertex, every listed pair joins two active neighbours, the listed vertex stamped after the owner of its list |
| BitPaths.MergeListed | src/bgraph_kernel.cpp:205-210 | merging a listed vertex's group into its owner's removes exactly one active vertex, logs one pair whose survivor is still active and keeps the merging invariant |
| BitPaths.MergeInvStep | src/bgraph_kernel.cpp:205-210 | the two groups merged by one step always differ, and the union-find keeps naming the active vertices as the representatives |
| BitPaths.LogAndUnion | src/bgraph_kernel.cpp:208-209 | logs `(find(u), find(v))` and unions the two classes under `find(u)` |
| BitPaths.MergeList | src/bgraph_kernel.cpp:203-211 | merging every listed pair removes one active vertex per logged pair and never lowers `full_tww` |
| BitPaths.ReducePaths | src/bgraph_kernel.cpp:195-212 | only removes vertices, logs exactly one pair per removed vertex after the old log, and never lowers `full_tww` |
| BitTrees.OneFreeNeighbour | src/bgraph_kernel.cpp:120-137 | a vertex whose total degree is one more than its number of children has exactly one neighbour without a parent, so scanning its black row and then its red row attaches it to that neighbour |
| BitTrees.Attach | src/bgraph_kernel.cpp:116-137 | a queued vertex that has no parent and all but one neighbour as children gets that neighbour as parent, and the parent is queued; any other vertex changes nothing; existing parents never change |
| BitTrees.Round | src/bgraph_kernel.cpp:114-141 | a round keeps the forest invariant and queues only active vertices, and a nonempty next queue means some vertex gained a parent |
| BitTrees.BuildForest | src/bgraph_kernel.cpp:100-142 | the parent links form a forest of active vertices, ranked so that a parent always outranks its child, and every vertex hangs under one of its neighbours |
| BitTrees.AncComparable | src/bgraph_kernel.cpp:100-142 | two ancestors of the same vertex are ordered by ancestry |
| BitTrees.SiblingsDisjoint | src/bgraph_kernel.cpp:161-166 | the subtrees of two distinct children of a vertex share no vertex |
| BitTrees.SubtreesHold | src/bgraph_kernel.cpp:156-177 | every subtree holds its root, a child's subtree lies strictly inside its parent's, and the subtrees of distinct siblings or of distinct roots are disjoint |
| BitTrees.AuxMerge | src/bgraph_kernel.cpp:144-152 | with `a == -1` returns `b`, with `b == -1` returns `a`, both leaving the graph untouched; otherwise the graph becomes the merge of `b` into `a` (`Trigraph.Merged`), the width becomes the larger of the old width and the new current width, `(a, b)` is logged and `a` is returned |
| BitTrees.MergeChild | src/bgraph_kernel.cpp:161-166 | folding child `j` keeps the fold invariant and removes only proper descendants of `u`, one logged pair per removed vertex |
| BitTrees.MergeKept | src/bgraph_kernel.cpp:164-165 | the grandchild joins `gc` and the child joins `c`; only those two can be removed and the kept representatives stay active |
| BitTrees.KeptApart | src/bgraph_kernel.cpp:161-166 | the child being folded and its subtree are disjoint from the kept representatives and from the later children's subtrees, so no merge joins a vertex with itself |
| BitTrees.MergeTree | src/bgraph_kernel.cpp:156-177 | removes only proper descendants of `u`, keeps `u` active, returns -1 for a root and otherwise -1 or an active child of `u`, and logs one pair per removed vertex |
| BitTrees.FoldRoot | src/bgraph_kernel.cpp:179-181 | folding from a root removes only vertices that have a parent, and every later root's subtree is still intact |
| BitTrees.ReduceTrees | src/bgraph_kernel.cpp:100-182 | only removes vertices that had a neighbour, logs one pair per removed vertex after the old log, never empties the graph and never lowers `full_tww` |
| BitTrees.KernelizeTwwGt2 | src/bgraph_kernel.cpp:90-97 | returns one in-range pair per removed vertex and never empties the graph |
| BitTrees.KernelizeHeur | src/bgraph_kernel.cpp:186-193 | path, tree, then path reduction: returns one pair per removed vertex and never lowers `full_tww` |
| Graphs.Graph.constructor | src/graph.cpp:9-17 | vertices `0..n-1` are active with empty rows, `full_tww` is 0 and the log is empty |
| Graphs.Graph.ActualN | src/graph.h:27 | the number of active vertices, at most `n` |
| Graphs.Graph.TotalDeg | src/graph.h:30 | the number of black and red neighbours together |
| Graphs.Graph.AdjacentSymmetric | src/graph.h:31 | adjacency in either colour is symmetric |
| Graphs.Graph.MergeCost | src/graph.cpp:51-57 | the red row `u` would get by merging in `v`, the same rule as the dense graph |
| Graphs.Graph.AddEdge | src/graph.cpp:85-89 | adds the black edge to both rows and changes nothing else; on two distinct active vertices not joined in red the graph stays well formed |
| Graphs.Graph.EraseEdge | src/graph.cpp:91-95 | removes the edge from both rows of the chosen colour and changes nothing else |
| Graphs.Graph.Erase | src/graph.cpp:97-106 | the state becomes the trigraph with `u` deleted; width and log are unchanged |
| Graphs.Graph.RowsUnion | src/graph.cpp:26 | the union of both red rows and the black symmetric difference |
| Graphs.CostAfterErase | src/graph.cpp:22-26 | once the edges between `u` and `v` are erased, that union is exactly the merge cost, so it holds neither `u` nor `v` |
| Graphs.Graph.RedirectToward | src/graph.cpp:29-34 | every vertex in the red row of `u` gets `u` as red neighbour and loses it as black one, and no other row changes |
| Graphs.Graph.FinishRows | src/graph.cpp:27-36 | the common black neighbours for `u`, the redirection loop and `erase(v)` turn the rows into the contraction |
| Graphs.Graph.RaiseWidth | src/graph.cpp:38-41 | `full_tww` becomes the maximum of its old value and the red degrees of `u` and of each red neighbour of `u` |
| Graphs.MergeKeepsWidthBound | src/graph.cpp:38-41 | if `full_tww` bounded every red degree before the merge, the raised value bounds every red degree after it |
| Graphs.Graph.MergeWith | src/graph.cpp:65-80 | after the edges between `u` and `v` are erased, installing the hint and finishing the rows yields the contraction, with the width raised |
| Graphs.Graph.Merge | src/graph.cpp:59-81 | the state becomes the contraction of `v` into `u`, `full_tww` is raised as above, and the log is unchanged |
| Graphs.Graph.MergeNoHint | src/graph.cpp:19-48 | the state becomes the contraction of `v` into `u`, `full_tww` is raised as above, and `(u, v)` is appended to the log |
| Graphs.Graph.Numbered | src/graph.cpp:128-131 | numbers the vertices of `vx` consecutively from 0, `m_inv` and its inverse agreeing on `vx` |
| Graphs.Graph.Subgraph | src/graph.cpp:126-134 | numbers `vx` consecutively and returns the dense copy of `vx` under that numbering |
| Graphs.Graph.DenseSubgraph | src/graph.cpp:166-182 | returns a fresh dense graph on `\|vx\|` vertices, with `past_tww = full_tww`, that joins `m_inv[a]` and `m_inv[b]` in a colour exactly when `a` and `b` of `vx` are joined in it, and whose width is recomputed |
| Graphs.Graph.CopyRow | src/graph.cpp:171-177 | one row of the copy loop adds exactly the renumbered edges of `u` in that colour to vertices of `vx`, and nothing of the other colour |
| Graphs.Graph.CopyAll | src/graph.cpp:169-178 | after the loop the copy holds exactly the renumbered edges with both ends in `vx` |
| Graphs.Graph.FinishDense | src/graph.cpp:179 | the complete copy is a valid dense graph mirroring this one on `vx`, with its width computed |
| Graphs.MirrorByNumbering | src/graph.cpp:166-182 | the copy joins numbers `i`, `j` exactly when it joins `m_inv[m[i]]`, `m_inv[m[j]]`, so both readings of the copy agree |
| Graphs.CopiedWellFormed | src/graph.cpp:166-182 | the copied rows form a well-formed trigraph: symmetric, loop-free and colour-disjoint |
| Graphs.Graph.LargestCcSize | src/graph.cpp:136-163 | the result bounds the size of every connected component over black and red edges, is the size of one of them when a vertex is active, and is 0 otherwise |
| Graphs.Graph.Explore | src/graph.cpp:145-159 | one depth-first search from an unvisited vertex marks and counts exactly its connected component |
| Graphs.LeastClosedIsComponent | src/graph.cpp:145-159 | the least closed set containing a vertex is its connected component |
| Graphs.ComponentsMeet | src/graph.cpp:136-163 | two components that share a vertex are equal |
| Graphs.ComplementClosed | src/graph.cpp:136-163 | the active vertices outside a set that no edge leaves also form such a set |
| GraphKernel.Sort | src/graph_kernel.cpp:69 | the sort returns a strictly increasing sequence with the same elements |
| GraphKernel.KeyOf | src/graph_kernel.cpp:67-69 | the key of `u` is strictly increasing and holds exactly the black neighbours of `u`, plus `u` itself for true twins |
| GraphKernel.IncreasingUnique | src/graph_kernel.cpp:67-69 | two strictly increasing sequences with the same elements are equal, so each neighbourhood has one key |
| GraphKernel.Insert | src/graph_kernel.cpp:40-46 | inserting adds the key as a node and appends `u` to its list, leaving every other node as it was |
| GraphKernel.BuildTrie | src/graph_kernel.cpp:64-71 | every active vertex is filed exactly once, under the key of its neighbourhood |
| GraphKernel.SameNodeIffSameKey | src/graph_kernel.cpp:40-46 | two filed vertices share a node exactly when their neighbourhood sets are equal |
| GraphKernel.KeysGiveTwins | src/graph_kernel.cpp:63-82 | equal closed or equal open black neighbourhoods mean equal black rows apart from the two vertices themselves |
| GraphKernel.TwinMergeInduced | src/graph_kernel.cpp:52-53 | merging twins in a red-free induced subgraph gives a red-free induced subgraph: no red edge is created |
| GraphKernel.GroupLogged | src/graph_kernel.cpp:52-53 | the pairs `(twins[0], twins[i])` logged for one node name each removed vertex exactly once |
| GraphKernel.MergeGroup | src/graph_kernel.cpp:48-54 | a node's later vertices leave the graph, one logged pair each, and the width never drops; twins of a red-free induced subgraph keep it red-free, induced and of equal width |
| GraphKernel.MergeRest | src/graph_kernel.cpp:52-53 | the loop merges every later vertex of the node into its first |
| GraphKernel.Sweep | src/graph_kernel.cpp:48-54 | processing every node, in any order, removes exactly the non-first vertices of the nodes and logs one pair for each |
| GraphKernel.FiledTwins | src/graph_kernel.cpp:40-46 | the vertices of one node are pairwise twins and no vertex is filed under two nodes |
| GraphKernel.SingletonsNoTwins | src/graph_kernel.cpp:48-54 | when a pass removes nothing, no two active vertices have equal keys |
| GraphKernel.TwinPass | src/graph_kernel.cpp:63-82 | one trie pass only removes vertices, logs one pair per removed vertex and never lowers the width; a pass that removes nothing leaves the graph unchanged and twin-free; on a red-free graph the result is an induced red-free subgraph of equal width |
| GraphKernel.TwinRound | src/graph_kernel.cpp:60-82 | a round of a true-twin and a false-twin pass keeps those properties, and a round that removes nothing leaves no twins of either kind |
| GraphKernel.MergeTwins | src/graph_kernel.cpp:12-85 | repeats rounds until the active count stops shrinking: the active set only shrinks, the log gains one pair per removed vertex, the width never drops, and the result has neither true nor false twins; on a red-free graph it is the induced subgraph on the remaining vertices with the same width |
| Bab.MemBab | src/bab.h:14-57 | a search never raises `min_score` and keeps every memo entry it found; when `full_width >= min_score` on entry it returns `(INFTY, [])` and touches nothing; otherwise it kernelizes, and with one vertex left returns the entry `cur_width` and the reversed kernel moves with `min_score` set to `full_width`; a key seen before returns its stored entry; a first visit stores a sane entry, whose finite score is at least `cur_width` and whose sequence ends with an option followed by the reversed kernel moves; the options are tried while `full_width < min_score` and `lb < min_score` after each try, and the loop stops as soon as either fails |
| Bab.Explore | src/bab.h:31-54 | the options are every pair `u < v` of active vertices; the placeholder `(INFTY, [])` is stored before the options are explored; at least one option is tried; the `min_score` after every try but the last is above both `full_width` and `lb`, and the loop stops before the last option only when `full_width >= min_score` or `min_score <= lb`, so it stops at the first try that meets either |
| Bab.NonemptyOptions | src/bab.h:35-36 | on two or more active vertices, `g.options()` lists every pair `u < v` of active vertices and nothing else, and is not empty, as the `assert` there requires |
| Bab.Branch | src/bab.h:38-47 | searching one contracted child never raises `min_score` and keeps the memo consistent; once `min_score` has dropped the entry of `key` is finite |
| Bab.Improve | src/bab.h:40-47 | the entry of `key` is replaced by `(max(w, score), child sequence + [(u, v)] + reversed kernel moves)` exactly when that score is strictly smaller, and no other entry changes |
| Bab.ExplainedStep | src/bab.h:40-46 | a stored entry's finite score is at least `w`, and its sequence ends with the option taken followed by the reversed kernel moves |
| Bab.TwoActive | src/bab.h:34-35 | with more than one active vertex there is an option pair, so `options()` is never empty there |
| Bab.MemBabHeurWithUbLb | src/bab.h:61-71 | returns a score of at most `ub` with the stored sequence reversed; returns `(ub, [])` when `full_width >= ub`; with one vertex left after kernelization returns `full_width` and the kernel moves in order; otherwise the sequence starts with the kernel moves followed by an option pair, and a score below `ub` on two or more vertices comes with a nonempty sequence |
| Bab.ReversedPrefix | src/bab.h:68 | reversing a stored sequence puts the kernel moves first, followed by the option taken |
| UpperBound.TreeMergeAux | src/upper_bound.h:27-52 | a seen vertex gives -1 and changes nothing; otherwise `u` is marked and returned, stays active, marks are only added, every vertex merged away was unmarked before the call and is marked after it, one pair is logged per removed vertex, and the width never drops |
| UpperBound.MergeRow | src/upper_bound.h:37-47 | reducing each vertex of one row recursively and merging it into the running representative keeps `u` and the representative active and distinct, and logs one pair per removed vertex |
| UpperBound.ProgressTrans | src/upper_bound.h:27-52 | two stretches of merging, each removing only newly marked vertices and logging one pair per removal, make one such stretch |
| UpperBound.BestPair | src/upper_bound.h:201-216 | returns an active pair `u < v` and its merge cost, whose size is no larger than that of any active pair and strictly smaller than that of every pair before it in ascending order, so it is the first pair of least cost |
| UpperBound.BestWith | src/upper_bound.h:205-215 | the inner loop over `v` for one `u` keeps the best pair among the pairs weighed so far |
| UpperBound.Weigh | src/upper_bound.h:207-214 | weighing one pair replaces the best pair only on a strictly smaller cost |
| UpperBound.BestAll | src/upper_bound.h:201-216 | once every pair is weighed, the kept pair is a least-cost pair and no pair before it has that cost |
| UpperBound.GreedyStep | src/upper_bound.h:200-222 | merging the best pair and kernelizing removes at least one vertex, never empties the graph, logs one pair per removed vertex and never lowers the width |
| UpperBound.GreedyMincost | src/upper_bound.h:194-226 | works on a copy, so the input is not modified; the returned sequence has one pair per removed vertex and leaves exactly one active vertex (none on an empty graph), and the width returned is at least the input's `full_tww` |
| Distances.InitMatrix | src/upper_bound.h:233-241 | the fresh `n`-by-`n` matrix holds 0 on the diagonal of active vertices, 1 for each black or red edge of an active vertex, and `INFTY` everywhere else |
| Distances.FillRow | src/upper_bound.h:237-240 | one row loop sets to 1 exactly the entries of the listed neighbours and leaves the rest of the matrix alone |
| Distances.InitFacts | src/upper_bound.h:233-241 | the starting matrix is symmetric with entries between 0 and `INFTY` |
| Distances.InitComplete | src/upper_bound.h:233-241 | the starting matrix bounds every walk of at most one step |
| Distances.RelaxRow | src/upper_bound.h:244-245 | one row of an in-place pass through `k` equals the relaxation computed from the old values |
| Distances.RelaxThrough | src/upper_bound.h:243-245 | an in-place pass through `k` over the active vertices yields exactly `min(d(i, j), d(i, k) + d(k, j))` for every active `i`, `j` and changes nothing else |
| Distances.RelaxedFacts | src/upper_bound.h:245 | a pass through `k` raises no entry, keeps entries between 0 and `INFTY`, and keeps a symmetric matrix symmetric |
| Distances.RelaxedComplete | src/upper_bound.h:242-245 | if the matrix bounds every walk through `K`, after a pass through `k` it bounds every walk through `K ∪ {k}` |
| Distances.FloydWarshall | src/upper_bound.h:231-248 | the matrix as written: the start relaxed through `k = 0 .. actual_n()-1` |
| Distances.AsWrittenWhenFull | src/upper_bound.h:242 | with no vertex removed, relaxing through `0 .. actual_n()-1` is relaxing through every vertex, so the result equals the corrected matrix `ShortestDist` |
| Distances.HoleExampleMissesPath | src/upper_bound.h:242 | with vertex 1 of four removed, vertices 0 and 2 joined by the walk 0-3-2 keep the entry `INFTY` as written, while the corrected matrix gives at most 2 |
| Distances.HoleExampleAsWritten | src/upper_bound.h:242 | the pivot 3 is never reached when `actual_n()` is 3, so the entry for `(0, 2)` stays `INFTY` |
| Distances.FloydWarshallActive | src/upper_bound.h:231-248 | the corrected loop leaves in the array the starting matrix relaxed through every active vertex in ascending order (`ShortestDist`), whose entries `ShortestExact` shows are the shortest-walk lengths |
| Distances.ShortestComplete | src/upper_bound.h:231-248 | the corrected matrix bounds every walk: two active vertices joined by a walk of `m` steps have an entry of at most `m` |
| Distances.InitSound | src/upper_bound.h:233-241 | every starting entry below `INFTY` is the length of a walk: 0 for `[i]`, 1 for a black or red edge |
| Distances.RelaxedSound | src/upper_bound.h:243-245 | relaxing through `k` keeps every entry below `INFTY` the length of a walk: a lowered entry joins a walk to `k` with one from it |
| Distances.RelaxActiveSound | src/upper_bound.h:242-245 | relaxing through the active vertices in turn keeps every entry below `INFTY` the length of a walk |
| Distances.ShortestExact | src/upper_bound.h:231-248 | each entry of the corrected matrix below `INFTY` is the length of a walk between its two vertices, and no walk between them is shorter |
| Distances.RelaxAllEqual | src/upper_bound.h:242-245 | relaxing through `0 .. K-1` and through the active vertices below `K` agree when all of them are active |
| Distances.JoinRows | src/upper_bound.h:254-255 | for each active `w`, the entries `(u, w)` and `(w, u)` both become `min(d(u, w), d(v, w))` |
| Distances.UpdateFloydWarshall | src/upper_bound.h:251-259 | the matrix becomes the joined rows of `u` and `v` relaxed through `u` |
| Distances.UpdatedFacts | src/upper_bound.h:251-259 | the update raises no entry, keeps entries between 0 and `INFTY` and keeps the matrix symmetric |
| Distances.UpdatedComplete | src/upper_bound.h:251-259 | if the matrix bounded every walk before `v` was merged into `u`, the updated matrix bounds every walk of the merged graph |
| Distances.MergedAdjacent | src/bgraph.cpp:115-140 | an edge of the merged graph away from `u` was an edge before, and an edge at `u` was an edge at `u` or at `v` |
| Distances.Cost | src/upper_bound.h:269-280 | the loop over the created red neighbours computes the cost pair of `(u, v)` |
| Distances.SumRows | src/upper_bound.h:273-277 | the two accumulators end as the sums of rows `u` and `v` of the matrix over the new red neighbours |
| Distances.PairCostFacts | src/upper_bound.h:269-280 | the second key of the cost is `\|merge_cost(u, v)\|`, the first is at least that and equal to it when the merge creates no red edge, and the cost is the same for `(v, u)` |
| LowerBound.SubgraphLb | src/lower_bound.h:64-73 | the search on the sampled induced subgraph returns a sane sequence; when it found one, the bound is its width, which is at least the red degree of every sampled vertex, and when it found none (`INFTY`) the previous bound is returned unchanged |
| LowerBound.BestFacts | src/lower_bound.h:80-86 | the running maximum of the sample bounds is at least the start value and every sample bound, and it is the start value or one of the sample bounds |
| LowerBound.BestGrows | src/lower_bound.h:80-86 | the running maximum never decreases as more rounds are taken |
| LowerBound.BestAppend | src/lower_bound.h:84-85 | one more round raises the running maximum to the larger of the old maximum and the new bound |
| LowerBound.IterSubgraphLb | src/lower_bound.h:78-87 | after `it` rounds (none when `it` is negative) the result is the maximum, starting from 0, of the bounds of those rounds, so it is non-negative and bounds each of them |
| LowerBound.TimedIterSubgraphLb | src/lower_bound.h:96-106 | after the rounds the clock allows, each run handed the best bound so far, the result is the maximum from 0 of the round bounds |
| LowerBound.TimedIterSubgraphLbEarlyExit | src/lower_bound.h:108-120 | the result is the maximum from `lb0` of the round bounds; the loop stops before the clock runs out only once the bound reaches `best_score`, and no earlier round had reached it |
| LowerBound.Misses | src/lower_bound.h:133-137 | the number of rounds that did not improve the bound is at most the number of rounds |
| LowerBound.MissesAppend | src/lower_bound.h:133-142 | a new round counts as a miss exactly when its bound does not exceed the best so far |
| LowerBound.TimedGrowingSubgraphLb | src/lower_bound.h:127-150 | the result is the maximum from 0 of the round bounds; the sample size grows by one per round that did not improve the bound; the loop stops early only once the size reaches the number of active vertices |
| LowerBound.BlackDiffSmall | src/lower_bound.h:161-163 | the black-neighbourhood difference of two vertices has fewer than `INFTY` members, so a pair always lowers the initial `INFTY` |
| LowerBound.GreedyLb | src/lower_bound.h:153-169 | the result is at most the black-neighbourhood difference (without the pair) of every pair of distinct active vertices and equals that of one such pair; with fewer than two active vertices it is `INFTY` |
| LowerBound.PairsOf | src/lower_bound.h:157-166 | after the inner loop for `u`, the bound covers every pair whose first vertex is at most `u` and is attained by a pair |
| LowerBound.Consider | src/lower_bound.h:158-166 | one pair step never raises the bound, keeps it attained, and extends the row coverage to `v` |
| Components.Mapped | src/bab.h:154-155 | renaming a sequence of moves through the component numbering keeps its length |
| Components.MappedIn | src/bab.h:154-155 | moves between numbers of a component, renamed through its numbering, join vertices of that component |
| Components.AppendMapped | src/bab.h:91-92 | the log grows by exactly the renamed moves, in order |
| Components.Stitch | src/bab.h:165-166 | the joining pass adds one move fewer than there are representatives (none for zero or one) |
| Components.StitchPairs | src/bab.h:165-166 | the `i`-th joining move merges representative `i+1` into representative `i` |
| Components.StitchAll | src/bab.h:164-166 | the joining loop appends exactly the joining moves to the log |
| Components.Gather | src/bab.h:96-115 | the search from `u` leaves the seen marks and numbering consistent and the covered set closed; it finds nothing when `u` was seen, and otherwise exactly the connected component of `u` |
| Components.GatherDone | src/bab.h:99-115 | an exhausted stack means the vertices found, with those seen before, form a closed set, and the component of an unseen `u` was found whole |
| Components.Pop | src/bab.h:101-114 | one pop keeps the search state consistent and shrinks the measure (unseen active vertices, then stack height) |
| Components.Top | src/bab.h:101-107 | the top of the stack is a vertex of the graph, and an unseen one leaves room in the numbering |
| Components.PopUnseen | src/bab.h:104-114 | marking, numbering and expanding a popped unseen vertex keeps the search state and leaves fewer unseen active vertices |
| Components.Unseen | src/bab.h:104-108 | a popped unseen vertex is new to the component and removing it shrinks the unseen active vertices |
| Components.PopSeen | src/bab.h:102-103 | dropping a popped vertex already seen keeps the search state |
| Components.PopMarks | src/bab.h:104-108 | numbering the popped vertex as the next number of the component keeps marks and numbering consistent |
| Components.PopStack | src/bab.h:110-114 | after pushing its neighbours every stacked vertex is active and reachable, and every neighbour of a found vertex is found or stacked |
| Components.PushedActive | src/bab.h:110-114 | all vertices pushed (black and red neighbours) are active |
| Components.PopReach | src/bab.h:110-114 | every vertex on the stack after the push is connected to `u` |
| Components.PushAll | src/bab.h:110-114 | pushing a neighbour set keeps the old stack as a prefix and adds exactly the neighbours, each at least once |
| Components.HeurFacts | src/bab.h:123 | the heuristic's moves use numbers of the dense graph, and there is at least one when two vertices are active |
| Components.SampleOn | src/bab.h:127 | the sampler handed to the lower bound is the shared sampling restricted to the component's graph |
| Components.SamplerOn | src/bab.h:127 | that restriction is a valid sampler on the component's nonempty graph |
| Components.DenseKernelized | src/bab.h:88-93 | the dense copy numbers the component 0..k-1, all active; when `lb >= 2` the tree kernel's moves, one per vertex removed, are logged renamed, and none otherwise |
| Components.SomeMove | src/bab.h:130-147 | a component of two or more vertices always ends with at least one move, from the kernel, the heuristic or the search |
| Components.Assemble | src/bab.h:116-160 | the record of one component meets every promise about a well-solved component |
| Components.LogMoves | src/bab.h:154-160 | the kernel and kept moves are logged renamed, they stay inside the component, and the representative is its only vertex or the first vertex of the last move |
| Components.LastMove | src/bab.h:160 | the last move of the log is the last of the moves just appended |
| Components.DenseMask | src/bab.h:119 | the dense copy has exactly the component's size and every number active |
| Components.KernelAndSearch | src/bab.h:130-140 | the second kernelization runs only when the bound is at least 2 (no moves otherwise); the score is the search's and the sequence is the second kernelization's moves followed by the search's, all on numbers of the dense graph; the score never exceeds `ub`, and the search returns `(ub, [])` untouched when the kernel width already reaches `ub`; a score below `ub` on two or more vertices comes with a move |
| Components.BoundAndSearch | src/bab.h:126-147 | the component bound is the best of `lb` and the sampled bounds, at least `lb`, with fewer rounds only once it reaches `ub` and every earlier prefix below `ub`; no second kernelization below 2; the score is the search's and never exceeds `ub`; the heuristic's sequence is kept unless the score beats `ub`, in which case the kept sequence is the second kernelization's moves then the search's, nonempty on two or more vertices |
| Components.SolveComponent | src/bab.h:116-161 | one component is solved well: its bound is the best of `lb` and the sampled bounds, the score is the search's, the bound ends at the maximum of the component bound and `min(h_score, ub)`, the kept sequence is the heuristic's unless the score beats `ub`, then the second kernelization's moves followed by the search's; the log grows by the renamed first-kernelization moves and the renamed kept sequence |
| Components.Covered | src/bab.h:94-161 | every component solved lies inside the covered set |
| Components.Reprs | src/bab.h:157-160 | there is one representative per component solved, in order |
| Components.SolvedMore | src/bab.h:116-161 | adding a well-solved component keeps every component well solved |
| Components.LbChainMore | src/bab.h:128-152 | a component started from the bound the previous one left keeps the chain of bounds |
| Components.DisjointMore | src/bab.h:102-103 | a component disjoint from those covered keeps the components pairwise disjoint |
| Components.ChainedMore | src/bab.h:116-161 | the three facts together are kept by one more component |
| Components.ProgressMore | src/bab.h:94-161 | one more disjoint, closed component keeps the loop state and adds its vertices to the covered set |
| Components.LogMore | src/bab.h:154-160 | the log and the representatives after one more component are those of all the components solved |
| Components.CoverMore | src/bab.h:94-161 | the covered set grows by exactly the new component |
| Components.SolveFrom | src/bab.h:95-161 | one loop turn keeps the loop state, never loses a covered vertex, and afterwards `u` is covered |
| Components.CcBabWithLb | src/bab.h:73-169 | the result is the log of `g`, then each component's moves in the order solved, then the joining moves; the components solved cover exactly the active vertices, are pairwise disjoint, each well solved (`SolvedWell`: sampled bound, second kernelization only from bound 2, score of the search, kept sequence chosen by `h_score < ub`), and each starts from the bound the previous one left |
| Components.CoveredIn | src/bab.h:94-161 | every covered vertex lies in one of the components solved |
| Components.EveryComponentSolved | src/bab.h:94-161 | a set is a connected component of the graph if and only if it is one of the components solved |
| Components.MovesIn | src/bab.h:154-155 | every move logged for the components joins two covered vertices |
| Components.SolvedSteps | src/bab.h:127-152 | each component raises its starting bound to its sampled bound and then to `min(h_score, ub)` |
| Components.LbGrows | src/bab.h:81-152 | the bound only grows: each component starts at least at `full_width()`, and the final bound is at least every component's sampled bound and `min(h_score, ub)` |
| LongBitsets.LongBitset.CopyOf | src/long_bitset.hpp:110-113 | the copy a binary operator starts from is a fresh word array equal to the source's words |
| BitGraphs.BitGraph.KeysOf | src/bgraph.cpp:44-46 | the pair list is turned, pair by pair and in order, into sort keys `(-red_deg(u) - red_deg(v), u, v)` |
| BitGraphs.BitGraph.MaxRedDeg | src/bgraph.cpp:82-87 | the loop over the vertices yields the larger of `base` and the red degrees over the set, attained by `base` or one of them |
| BitKernel.TryCandidate | src/bgraph_kernel.cpp:53-58 | a candidate `v` is removed exactly when `u` dominates it; only `v` can leave, the widths stay, the log grows by the vertices removed, and nothing changes when `v` is not removed |
| BitPaths.WalkStep | src/bgraph_kernel.cpp:228-241 | one neighbour step keeps the search invariant, only claims unseen vertices for `u`, and keeps `midpoint` equal to "every neighbour scanned so far has total degree at most 2" |
| BitPaths.Visit | src/bgraph_kernel.cpp:230-231 | the recursive call on a neighbour keeps the search invariant and appends the neighbour to `u`'s list only when it answers true |
| BitPaths.MergeAway | src/bgraph_kernel.cpp:207 | `merge_nohint(a, b)`: the graph becomes the merge of `b` into `a` (`Trigraph.Merged`), so exactly `b` leaves the active set, and the width becomes the larger of the old width and the new current width |
| BitTrees.Adopt | src/bgraph_kernel.cpp:125-127 | hanging `u` under `v` sets only `parent[u]`, queues `v`, and keeps the forest invariant |
| BitTrees.AttachRow | src/bgraph_kernel.cpp:122-137 | one scan of a row hangs `u` under the first neighbour without a parent, queueing it, or changes nothing; earlier parents are kept |
| Graphs.DfsStep | src/graph.cpp:150-158 | one pop keeps the search state and shrinks the measure of unvisited vertices plus stack height |
| Distances.ActivePass | src/upper_bound.h:243-245 | one pass of the corrected loop relaxes the matrix through the next active vertex |
| UpperBound.RowStep | src/upper_bound.h:37-47 | reducing a neighbour and merging the result into the accumulator keeps the tree invariant, only marks vertices, and never lowers the width |
| GraphKernel.MergeNext | src/graph_kernel.cpp:52-53 | merging `twins[i]` into `twins[0]` advances the node's loop: one more vertex gone and logged, and on a red-free graph the result stays an induced red-free subgraph of the same width |

## Left out

- `src/large_graphs.cpp`: the randomized fallback for components larger than `MAX_SIZE`. It runs no exact search.
- `src/main.cpp`: the driver that reads from standard input and prints the sequence 1-based. It is I/O only.
- `src/params.h`: build constants and time budgets. Only `LB_K` and `LB_TIME_S` enter the model, as constants of `Components`.
- `Graph::from_istream`, `from_file` and `from_cin`: stream parsing. A graph is built by its constructor and `AddEdge`.
- Every `operator<<` and the `std::cerr` logging in `src/bab.h`: output only.
- `tree_merge_no_copy`, `tree_merge`, `random_from`, `random_neighbors`, `close_merge`, `apply_heur` and `best_heur`: randomized heuristics. `best_heur` is a parameter constrained by `Components.Heuristic`.
- The pair-selection loop of `greedy_mincost_local` (`src/upper_bound.h:282-331`): it is deterministic (the first least-cost pair by strict `<`, after the first merge only pairs close to the previous merge), but it is reached only through `best_heur`, which the model takes as a parameter. Its cost function, Floyd–Warshall and the incremental update are modelled.
- `reservoir_sampling`, the float-priority growth of the sample in `subgraph_lb`, and the clock loops: random and timing behaviour. The sample and the number of rounds are parameters, with `LowerBound.Sampler` constraining the sample.
- The AVX intrinsics of `src/long_bitset.hpp`: modelled as the per-word bitwise operations they compute. Words are naturals below 2^64 with bitwise operations defined bit by bit.
- `LongBitset<N>` for `N > 1`: only the 256-bit instance the solver uses is modelled.
- The static pool `BitGraph::instances`: an allocation trick. `BitGraphs.BitGraph.Contract` returns a fresh object instead.
- The trie nodes of `src/graph_kernel.cpp`, allocated with `new` and freed with `delete`: memory management. The trie is a map from sorted key to the vertices filed there.
- The order of `unordered_map` and `unordered_set` iteration: every order is allowed. In particular `GraphKernel.Sweep` merges the trie nodes in any order, where the source recurses into children first; the groups merged are the same.
- Rows of `BitGraph` and `Graph`: these are abstract sets (`seq<set<int>>`), not arrays of `LongBitset` objects. `LongBitsets.LongBitset` proves the word-level operations separately.
- The memo key: the model keys the memo by the label sequence, as the source does. Two states with the same partition share an entry even when their vertex ids or kernel moves differ. This is not proved harmful or harmless.
- Components.CcBabWithLb: requires every connected component to have at most `MAX_SIZE` vertices. `dense_subgraph` writes into a fixed-width bit set and the source silently assumes this; larger components go to the left-out fallback.
- Graphs.Graph.Merge: requires the hint to equal `merge_cost(u, v)`, the only hint any caller passes.
- BitGraphs.BitGraph.Merge: requires the hint to equal `merge_cost(u, v)`, the only hint any caller passes.
- BitPaths.ReducePaths: states that the active set only shrinks, one logged pair per removed vertex, and a width that never drops. It does not state which vertices are merged.
- BitTrees.ReduceTrees: states the counts, that only vertices with a neighbour are removed, and that a nonempty graph stays nonempty. It does not state which subtrees are folded.
- BitTrees.KernelizeTwwGt2: states counts and monotonicity only, as for `ReduceTrees` and `ReducePaths`.
- BitTrees.KernelizeHeur: states counts and monotonicity only, as for `ReduceTrees` and `ReducePaths`.
- UpperBound.GreedyStep: does not repeat that the pair merged is the cheapest; `UpperBound.BestPair` states that.
- UpperBound.GreedyMincost: states that the result has at most one vertex, one logged move per removed vertex, and a width at least the input's. It does not state the final width exactly.
- LowerBound.SubgraphLb: the sampled vertex set is a parameter, not the random growth the source performs.

## Findings

| source | as written | input that shows it | evidently intended | confidence | as-written member | corrected member |
|---|---|---|---|---|---|---|
| src/upper_bound.h:242 | `floyd_warshall` relaxes through `k = 0 .. actual_n()-1`, the count of active vertices, not through the active vertices. After `kernelize_heur` has removed vertices (as in `best_heur` → `apply_heur` → `greedy_mincost_local`), high-numbered active vertices are never used as pivots. | 4 vertices, vertex 1 removed, black edges 0-3 and 3-2: entry `(0, 2)` stays `INFTY` although the walk 0-3-2 has length 2 | relax through every active vertex `k` | not executed | Distances.FloydWarshall, Distances.HoleExampleMissesPath | Distances.FloydWarshallActive, Distances.ShortestComplete, Distances.ShortestExact |
