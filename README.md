# Keypoint distribution, modelled in Dafny

This project models the keypoint distribution engine of a FAST/ORB feature extractor.
Given candidate keypoints, a region and a target count N, the engine shrinks the set of
points to a spatially spread subset. The model follows two source files:

- `src/Distribution.cpp`:
  - the dispatcher `Distribution::DistributeKeypoints`;
  - top-N retention (`RetainBestN`, NAIVE);
  - the two quadtree strategies and `ExtractorNode::DivideNode`;
  - GRID bucketing and RANMS (GRID cells thinned by Soft-SSC);
  - the four strategies that share one bracketed binary search over a suppression width:
    k-d-tree ANMS, range-tree ANMS, SSC and Soft-SSC;
  - VSSC, with its shrinking window.
- `src/ORBextractor.cpp`, the older copy:
  - the constructor's FAST threshold clamping, its two decision tables and the per-level
    feature quotas;
  - its sort-based `RetainBestN`;
  - the older quadtree `ORBextractor::DistributeKeypoints`.

A keypoint is a datatype with integer `x`, `y` and `response`. The float index arithmetic of
the source is replaced by exact integer forms. Examples are the root strip `x * nroots / width`
and the SSC cell `2 * y / width`.

The C++ code changes state in place, and the model follows it:

- The node lists (`std::list` with saved iterators) are an arena of nodes plus a list of
  arena ids. Each list operation is a method returning the new list, proved against a ghost
  description.
- Array and grid loops run on Dafny arrays.
- Each search loop is a `while` loop with its invariants.

The library orderings (`std::nth_element`, `std::sort`, `cv::sortIdx`) are not stable. They are
modelled by one in-place selection method whose contract promises only a permutation and the
order of the keys.

The strategies that thin points by suppression are all proved against one declarative
specification, the greedy walk `Suppression.Kept`. A position is kept exactly when it is
admissible and no kept earlier point suppresses it, and that reading has exactly one solution.
The following are each proved to compute that walk for their rule:

- the neighbour-query trial of ANMS;
- the boolean coverage grid of SSC;
- the max-response coverage grid of Soft-SSC.

The binary search is proved to try exactly the widths of a recursive reference search
(`BinarySearch.Search`: midpoint, stop, accept, narrow) and to follow its protocol:

- every trial width lies in the starting bracket;
- every rejected count steers the later widths to the correct side;
- no width is tried twice;
- the result is the last trial's selection, a subsequence of the sorted input.

Two places where the code does not do what its structure evidently intends are listed under
"Findings". The model keeps the code's behaviour in an as-written member and uses the corrected
behaviour elsewhere.

## Model

| member | source | states |
|---|---|---|
| KeyPoints.GatherKeypoints | src/Distribution.cpp:1004-1009 | The copy loop: the result has one point per selected position, the input point at that position, in selection order. |
| KeyPoints.GatherSubMultiset | src/Distribution.cpp:1004-1009 | Copying the points at an increasing list of positions keeps a sub-multiset of the input: no point is invented or duplicated. |
| KeyPoints.BucketMembers | src/Distribution.cpp:682-688 | A cell's bucket holds exactly the input points filed under that cell, and no more copies of a point than the input has. |
| KeyPoints.BucketAppend | src/Distribution.cpp:682-688 | Filing the points of a + b gives, per cell, the bucket of a followed by the bucket of b (input order is kept). |
| KeyPoints.BucketsPartition | src/Distribution.cpp:682-688 | When every index lies in [0, m), buckets 0 .. m-1 together hold exactly the input multiset: each point in exactly one cell. |
| KeyPoints.UnionBuckets | src/Distribution.cpp:682-688 | The list of the m cells holds the same points as the m buckets taken together. |
| KeyPoints.ConcatUnion | src/Distribution.cpp:693-699 | Appending the cells one after another (kpts.insert at the end) keeps exactly the points of the cells. |
| KeyPoints.ConcatLength | src/Distribution.cpp:693-699 | With at most q points per cell, the appended result holds at most (number of cells) * q points. |
| KeyPoints.UnionMono | src/Distribution.cpp:693-699 | Cells each thinned to a sub-multiset of themselves together hold a sub-multiset of all the cells' points. |
| KeyPoints.UnionSize | src/Distribution.cpp:381-405 | A list of non-empty nodes has no more nodes than points, so one point per node never yields more points than the input. |
| Sorting.SelectLargest | src/Distribution.cpp:19-20 | The in-place ordering behind nth_element, std::sort and cv::sortIdx: the array stays a permutation of itself, and its first n entries are the n largest keys in non-increasing order. |
| Sorting.MaxFrom | src/Distribution.cpp:19-20 | The position found holds a key that no later entry exceeds. |
| Sorting.SelectStep | src/Distribution.cpp:19-20 | Swapping the largest remaining key into place extends the sorted prefix by one. |
| Retention.RetainBestN | src/Distribution.cpp:15-22 | With N negative (the size_t comparison) or N >= size, the points are unchanged. Otherwise exactly N points remain, a sub-multiset of the input, each responding at least as strongly as every dropped point. |
| Retention.KeepFrontDominates | src/Distribution.cpp:19-21 | Cutting a largest-first array after n keeps a sub-multiset whose dropped part is exactly the back, and every kept point dominates every dropped one. |
| Retention.FrontOverBack | src/Distribution.cpp:19-21 | In a largest-first array, every point before position n responds at least as strongly as every point after it. |
| Retention.DistributeNaive | src/Distribution.cpp:124-127 | NAIVE keeps min(N, size) points (all of them for a negative N), each an input point that dominates every dropped point. |
| ExtractorNodes.CeilHalf | src/Distribution.cpp:132-133 | (int)ceil(d / 2.f) for integer d is the least h with d <= 2h. |
| ExtractorNodes.DivideNode | src/Distribution.cpp:130-164 | The four children tile the parent around the ceil-midpoint (corners as in the source). Each point goes, in input order, to the child picked by strict x < midX then y < midY; the children are exactly Children(node). Their points are exactly the parent's, and their counts sum to the parent's. The older copy at src/ORBextractor.cpp:844-879 has the same body, and the ORB quadtree divides through this member. |
| ExtractorNodes.QuadrantsPartition | src/Distribution.cpp:146-163 | The four quadrant buckets respect the strict comparisons and together are exactly the parent's points. |
| NodeLists.Empty | src/Distribution.cpp:174 | The empty node list is well formed and lists no node. |
| NodeLists.PushBack | src/Distribution.cpp:193 | push_back appends a new arena node and lists it last; the listed points gain the node's points at the back. |
| NodeLists.PushFront | src/Distribution.cpp:246 | push_front appends a new arena node and lists it first; every other node keeps its id. |
| NodeLists.EraseAt | src/Distribution.cpp:215 | erase(current) removes exactly list position p: the positions before it stay, those after it shift by one, and exactly that node's points leave the union. |
| NodeLists.Erase | src/Distribution.cpp:367 | erase(node->lit) removes exactly the node with that id: the new order is the old one with that id taken out, exactly its points leave the union, and the arena is untouched. |
| NodeLists.RemoveAt | src/Distribution.cpp:367 | In a list of distinct ids, removing an id cuts out exactly the one position holding it. |
| NodeLists.SetLeaf | src/Distribution.cpp:210 | current->leaf = true replaces that arena node by a copy with the leaf flag set; the order, every other node and all points are unchanged. |
| NodeLists.Update | src/Distribution.cpp:210 | A write through a node pointer replaces that arena node only. |
| NodeLists.PositionOf | src/Distribution.cpp:367 | The saved iterator of a listed id: a list position holding that id. |
| NodeLists.PartitionsBound | src/Distribution.cpp:381-405 | A list that partitions a multiset of points into non-empty nodes has no more nodes than points. |
| NodeLists.UnionRemove | src/Distribution.cpp:215 | Taking one node out of the list takes exactly its points out of the union. |
| QuadTree.RootCount | src/Distribution.cpp:170 | nroots = round(width / height): within half a step of the true ratio. |
| QuadTree.RootOfInRange | src/Distribution.cpp:172-200 | A point with 0 <= x < width is filed under a root in [0, nroots), and between that root's left and right edges. |
| QuadTree.SeedRoots | src/Distribution.cpp:170-201 | The list is Seeded(points, width, height): nroots = round(width / height) strips pushed back in order, root i spanning the full height and its own x-range and holding, in input order, the points filed under i. Together the roots hold every point exactly once. |
| QuadTree.MakeRoots | src/Distribution.cpp:180-195 | The root loop: nroots empty strips, pushed back left to right with ids 0 .. nroots-1. |
| QuadTree.FillRoots | src/Distribution.cpp:198-201 | The filing loop: after it, root i holds exactly the bucket of points filed under i. |
| QuadTree.PruneStep | src/Distribution.cpp:206-219 | One step of the pruning walk (erase an empty node, flag a one-point node leaf, or move on) keeps the walk invariant and the pruning shape, and makes progress. |
| QuadTree.MarkLeaf | src/Distribution.cpp:208-212 | Flagging a one-point node leaf moves the walk one position on, keeping the walk invariant and the pruning shape; the list keeps its length. |
| QuadTree.EraseEmpty | src/Distribution.cpp:213-216 | Erasing an empty node cuts exactly that position out of the order, keeps the arena and the walk invariant, and stays at the same position. |
| QuadTree.PruneWalk | src/Distribution.cpp:203-219 | The result is Pruned(l): the list keeps exactly its non-empty nodes in their order, and a node's leaf flag is set exactly when it holds one point; no point moves. |
| QuadTree.PruneRoots | src/Distribution.cpp:203-219 | The result is Pruned(l). Empty roots are erased and single-point roots marked leaf; the remaining list partitions the same points and lists exactly the non-empty roots with their points unchanged. |
| QuadTree.PrunedResult | src/Distribution.cpp:203-219 | A walk that has reached the end of the list with its invariant and shape has computed exactly Pruned(l). |
| QuadTree.LeafFlagsById | src/Distribution.cpp:206-219 | The walk's position-wise facts (non-empty, leaf exactly when one point) hold for every listed id. |
| Subdivision.PushChild | src/Distribution.cpp:244-255 | One push block: a non-empty child is pushed to the front with leaf == false (the flag is set on the local copy only). It is added to nodesToExpand exactly when it holds two or more points. |
| Subdivision.PushKidGrown | src/Distribution.cpp:244-255 | A push block only grows the arena, keeps every listed node, and adds one fresh non-empty non-leaf node exactly when the child holds points. |
| Subdivision.PushKidUnion | src/Distribution.cpp:244-255 | A push block adds exactly the child's points to the list. |
| Subdivision.PushAllGrown | src/Distribution.cpp:244-291 | The four push blocks grow the list as above, by at least one node whenever the children hold any point. |
| Subdivision.PushAllUnion | src/Distribution.cpp:244-291 | The four push blocks add exactly the children's points to the list. |
| Subdivision.KidIdsAdded | src/Distribution.cpp:244-291 | The nodesToExpand entries a division adds are distinct, listed, newly created, and hold more than one point each. |
| Subdivision.FourPushes | src/Distribution.cpp:244-291 | The four blocks in the order n1, n2, n3, n4 and the entries they add, unrolled. |
| Subdivision.SplitInto | src/Distribution.cpp:242-291 | DivideNode followed by the four push blocks: the list is exactly the pushes of Children(node), n1 first, and the nodesToExpand entries are exactly the new children with two or more points. The children's points are exactly the node's, none flagged leaf. |
| Subdivision.Expand | src/Distribution.cpp:242-293 | One division gives exactly Divided(r, id): the node's non-empty children pushed to the front and the node erased through its saved iterator, with DividedIds appended to nodesToExpand. The list still partitions the same points and never shrinks; every other listed node is untouched. |
| Subdivision.ErasePartitions | src/Distribution.cpp:293 | Replacing a node by its children keeps the partition of the points. |
| Subdivision.EraseAdded | src/Distribution.cpp:293 | Erasing an older node keeps the nodesToExpand entries valid, and the new entries join them. |
| Subdivision.PassStep | src/Distribution.cpp:234-295 | The walk body for the k-th node (skip a leaf, otherwise divide) keeps the pass invariant. |
| Subdivision.PassStepFacts | src/Distribution.cpp:234-295 | After a division, the nodes not yet walked are still listed and untouched, and exactly the leaves already walked remain. |
| Subdivision.FullPass | src/Distribution.cpp:228-295 | A full pass is exactly PassOver(l, l.order): the nodes listed at the start, in order, each passed over when leaf and divided otherwise. It keeps the partition and never shrinks the list; a starting node stays exactly when it is a leaf, unchanged. |
| Subdivision.SortBySize | src/Distribution.cpp:310-312 | prevNodes is permuted into non-increasing node size. |
| Subdivision.DistinctPerm | src/Distribution.cpp:310-312 | Sorting a list of distinct node pointers keeps them distinct. |
| Subdivision.Round | src/Distribution.cpp:305-371 | One round is exactly RoundOver(l, sorted, N): the sorted nodes divided in order until the list holds N nodes. It keeps the partition and never shrinks the list; the nodes before `done` were divided, the rest untouched. |
| Subdivision.RoundStep | src/Distribution.cpp:314-371 | One iteration of the round (divide, erase through lit, test N) keeps the round invariant. |
| Subdivision.RoundTurn | src/Distribution.cpp:316-371 | One node of the round: after its division the rest of the round is RoundOver of the new list over the remaining nodes, unless the list holds N nodes, in which case the round is over with exactly this list. |
| Subdivision.PartialExpansion | src/Distribution.cpp:301-377 | The rounds are exactly RunRounds with the sort orders recorded: each round divides the nodes the previous round queued, in an order non-increasing in size, and the loop stops exactly after the first round that reaches N nodes or leaves the size unchanged. The partition is kept. |
| Subdivision.NextRound | src/Distribution.cpp:305-374 | One turn of `while(!omegadoom)`: the rounds so far, extended by this round in the sort order std::sort gave, with omegadoom set exactly when the list holds N nodes or kept its size; without it the list grew and stays no longer than the points. |
| Subdivision.Subdivide | src/Distribution.cpp:224-378 | The result is Subdivided(l, N, passes, orders, r): full passes, each PassOver of the list before it, until one reaches N nodes or adds none (then the list is that pass's) or its size plus three times its nodesToExpand exceeds N (then the partial expansion's rounds follow). The partition is kept. |
| Subdivision.ClosedStays | src/Distribution.cpp:224-378 | Once a full pass has ended the omegadoom loop, further pass counts change nothing. |
| Subdivision.SubdividedUnique | src/Distribution.cpp:224-378 | Two runs of the omegadoom loop on the same list close it after the same pass, and give the same list unless the partial expansion ran, where only std::sort's tie order can differ. |
| QuadTreeDistribution.FirstMaxOf | src/Distribution.cpp:394-403 | The scan with strict `>` finds the first position of maximal response. |
| QuadTreeDistribution.Representatives | src/Distribution.cpp:381-405 | The extraction loop gives one point per listed node, in list order: the node's first point of maximal response (a leaf's only point). |
| QuadTreeDistribution.PickSubMultiset | src/Distribution.cpp:381-405 | One point picked from each node is a sub-multiset of the points of all nodes. |
| QuadTreeDistribution.DistributeQuadTree | src/Distribution.cpp:167-408 | The final list is Subdivided from Pruned(Seeded(points)): the seeded roots, pruned, then the omegadoom loop, with std::sort's tie order recorded as orders. Its nodes are non-empty and partition the input; the result has one point per node, the node's first strongest point, and is a sub-multiset of the input no longer than it. |
| QuadTreeDistribution.Grow | src/Distribution.cpp:170-378 | The list after the root loops, the pruning walk and the omegadoom loop is Subdivided from Pruned(Seeded(points)), and its nodes partition the input. |
| QuadTreeDistribution.Extract | src/Distribution.cpp:381-405 | From a partitioning list: one point per listed node, the node's first strongest point, in list order; at most as many points as the input and a sub-multiset of it. |
| QuadTreeDistribution.DistributeQuadTreeOrbSlam | src/Distribution.cpp:411-654 | Behind assert(!kpts.empty()): the same run as the QUADTREE case (seed, prune, subdivide, one first strongest point per final node), keeping between 1 and size points, all of them input points. |
| Grid.CeilDiv | src/Distribution.cpp:674-675 | ceil(a / b) is the least q with a <= b * q. |
| Grid.Geometry | src/Distribution.cpp:668-675 | cellSize is the grid size clamped to the shorter side. There are 1 .. width cells across, and patchWidth is the least edge with which they cover the width (likewise down). |
| Grid.CellOfInRange | src/Distribution.cpp:684-686 | With the clamp to nCells - 1, every point with non-negative coordinates is filed under one of the nCells cells. |
| Grid.PerCell | src/Distribution.cpp:679 | The quota (int)((float)N / nCells) is non-negative for N >= 0 and at most N / nCells. |
| Grid.FilePoints | src/Distribution.cpp:678-688 | The filing loop: cell c holds, in input order, exactly the points whose clamped index is c. |
| Grid.KeepBest | src/Distribution.cpp:693-699 | Each cell is replaced by its RetainBestN survivors, and the result is the survivors appended in cell order. |
| Grid.DistributeGrid | src/Distribution.cpp:662-700 | The result is the cells' survivors in cell order. Each cell keeps at most its quota of its strongest points, so at most N points remain, all of them input points. |
| Grid.GridBounds | src/Distribution.cpp:677-699 | nCells cells of at most N / nCells points give at most N points, and the result is a sub-multiset of the input. |
| Suppression.KeptGreedy | src/Distribution.cpp:968-990 | The greedy walk satisfies the declarative reading: increasing positions, each kept exactly when admissible and unsuppressed by an earlier kept one. |
| Suppression.KeptSelection | src/Distribution.cpp:968-990 | The walk keeps an increasing list of positions: a subsequence of the sorted input. |
| Suppression.KeptMembership | src/Distribution.cpp:968-990 | Every position is kept exactly when it is admissible and no kept earlier position suppresses it (both directions). |
| Suppression.KeptStep | src/Distribution.cpp:968-990 | Deciding the next position leaves the earlier decisions as they were. |
| Suppression.EarlierUnchanged | src/Distribution.cpp:968-990 | Keeping a later point does not change whether an earlier one is kept or suppressed. |
| Suppression.LastDecidedByPre | src/Distribution.cpp:968-990 | The newest position is kept exactly when it is admissible and unsuppressed. |
| Suppression.GreedyUnique | src/Distribution.cpp:968-990 | The declarative reading has one solution, the walk's, so it specifies every trial completely. |
| Suppression.GreedyPeel | src/Distribution.cpp:968-990 | Removing the last position from a solution leaves a solution, and the solutions agree step by step. |
| Suppression.GreedyRestrict | src/Distribution.cpp:968-990 | Dropping the last position from a solution for n gives a solution for n - 1. |
| Suppression.LastDecided | src/Distribution.cpp:968-990 | In a solution, the last position is listed exactly when the walk over the earlier listed positions accepts it. |
| Suppression.AtLeastPosition | src/Distribution.cpp:968-990 | Entry k of a selection is at least k. |
| Suppression.SelectionSize | src/Distribution.cpp:968-990 | A trial keeps no more points than it walks. |
| Suppression.FirstKept | src/Distribution.cpp:968-975 | The first (strongest) point of a trial is always kept when admissible. |
| Suppression.AcceptsSnoc | src/Distribution.cpp:802-820 | A newly kept point changes a later candidate's fate only by suppressing it. |
| Suppression.Deselect | src/Distribution.cpp:808-818 | The neighbour query and its loop clear `selected` for exactly the points the kept point suppresses (radius or clamped square). Every other flag is unchanged. |
| Suppression.SelectByQuery | src/Distribution.cpp:802-820 | The ANMS trial (k-d tree or range tree) keeps exactly the greedy selection of its rule. |
| Coverage.CellInGrid | src/Distribution.cpp:964-971 | A point in the frame has its cell inside the (cellRows + 1) x (cellCols + 1) grid. |
| Coverage.MarkWindow | src/Distribution.cpp:976-988 | The SSC window loops set exactly the clamped 5 x 5 window to covered: values only go from false to true, and nothing outside the window changes. |
| Coverage.RaiseWindow | src/Distribution.cpp:1258-1270 | The Soft-SSC window loops raise exactly the cells of the clamped window that lie below the score to the score: values never decrease, and nothing outside changes. |
| Coverage.AcceptsWhenClear | src/Distribution.cpp:973 | Under SSC a candidate is accepted exactly when its own cell is not yet covered. |
| Coverage.ClearSnoc | src/Distribution.cpp:976-988 | Keeping a point covers exactly its window and uncovers nothing. |
| Coverage.SelectByCoverage | src/Distribution.cpp:962-990 | The SSC trial on the boolean grid keeps exactly the greedy selection of the cover rule. |
| Coverage.CoverageBelow | src/Distribution.cpp:1237-1255 | A cell lies below score + threshold exactly when it was never reached (-1 is below) or every kept point reaching it responds below. |
| Coverage.AcceptsWhenBelow | src/Distribution.cpp:1255 | Soft-SSC accepts a point exactly when its cell's value is below its response plus the threshold. |
| Coverage.CoverageSnoc | src/Distribution.cpp:1263-1270 | Keeping a point raises the cells of its window below its response to it, and leaves every other cell. |
| Coverage.SelectBySoftCoverage | src/Distribution.cpp:1233-1272 | The Soft-SSC trial on the max-response grid keeps exactly the greedy selection of the soft cover rule. |
| BinarySearch.Half | src/Distribution.cpp:956 | (high - low) / 2 truncates toward zero, for either sign. |
| BinarySearch.RunTrial | src/Distribution.cpp:962-990 | One trial of any variant is the greedy selection of its rule at that width, a subsequence of the points. |
| BinarySearch.ProtocolDistinct | src/Distribution.cpp:954-1002 | Under the search protocol no width is tried twice, which is what ends the search. |
| BinarySearch.SearchStep | src/Distribution.cpp:991-1001 | A rejected count narrows the bracket: below kMin sets high = width - 1, otherwise low = width + 1, and the invariant holds. |
| BinarySearch.SearchStop | src/Distribution.cpp:957-961 | Stopping on a repeated width or an empty bracket meets the protocol. |
| BinarySearch.SearchDone | src/Distribution.cpp:991-995 | Accepting a trial inside the bracket meets the protocol. |
| BinarySearch.Probe | src/Distribution.cpp:962-1001 | One round with a new width: the trial at that width; accepted exactly on a count in the band, which ends Search; otherwise the bracket narrowed on the correct side, keeping the invariant and Search's continuation. |
| BinarySearch.Bisect | src/Distribution.cpp:954-1002 | The widths tried are exactly Search from [b.low, b.high]: width = low + (high - low) / 2, stop on a repeated width or an empty bracket, accept a count in [kMin, kMax], otherwise high = width - 1 on too few points and low = width + 1 on too many. The result is the last trial's selection (none when no trial ran), and accepted holds exactly on a count in the band. |
| BinarySearch.Suppress | src/Distribution.cpp:954-1009 | Search plus copy loop: the kept positions are exactly Selected, the selection of the last width of Search; the points come in input order, a sub-multiset, every width inside the bracket. |
| BinarySearch.DistributeKdTree | src/Distribution.cpp:763-839 | k-d-tree ANMS: the radii are Search with prevradius 1, so a first radius of 1 keeps nothing, and no radius tried keeps nothing. Otherwise the result is the disc-rule selection of the last radius tried. |
| BinarySearch.DistributeRangeTree | src/Distribution.cpp:842-929 | Range-tree ANMS: the widths are Search with prev -1, so a non-empty bracket always tries one. The result is the clamped-square selection of the last width tried. |
| BinarySearch.DistributeSsc | src/Distribution.cpp:932-1010 | SSC: the widths are Search with prev -1, so a non-empty bracket always tries one. The result is the coverage selection of the last width tried. |
| BinarySearch.DistributeSoftSsc | src/Distribution.cpp:1191-1292 | Soft-SSC on a real frame or the flattened (cols, -1, rows, -1) call: the widths are Search with prev -1, and the result is the soft-coverage selection of the last width tried. |
| Ranms.InOwnCell | src/Distribution.cpp:1093-1109 | A point of the grid lies inside the box (cellMinX .. cellMaxX, cellMinY .. cellMaxY) of the cell it is filed under. |
| Ranms.CellInFrame | src/Distribution.cpp:1093-1109 | All points filed under a cell lie in that cell's box. |
| Ranms.ThinCell | src/Distribution.cpp:1104-1185 | A cell over quota (nPerCell < size, unsigned) keeps exactly the Soft-SSC selection in its own box, with the bracket of (patch height, patch width, nPerCell, size); any other cell is kept whole. |
| Ranms.ThinAt | src/Distribution.cpp:1104-1115 | The loop body for cell i replaces cellkpts[i] in place by what ThinCell leaves of it, touching no other cell, so every cell up to i is its bucket kept whole or thinned. |
| Ranms.DistributeRanms | src/Distribution.cpp:1079-1185 | The GRID cells, each kept whole or thinned to its Soft-SSC selection, appended in cell order; the result holds only input points. |
| Ranms.RanmsBound | src/Distribution.cpp:1104-1185 | Appending thinned cells gives a sub-multiset of the input. |
| Vssc.CellCount | src/Distribution.cpp:1308-1311 | nCells = (cellRows + 1) * (cellCols + 1) covers every index the stride can produce. |
| Vssc.IndexInBounds | src/Distribution.cpp:1327-1340 | Every grid cell has an index inside the covered vector. |
| Vssc.AsWrittenAliases | src/Distribution.cpp:1327-1340 | With the source's stride cellCols, cells (0, 2) and (1, 0) of a 2-pixel frame share index 2. |
| Vssc.CorrectedInjective | src/Distribution.cpp:1327-1340 | With stride cellCols + 1 no two cells share an index. |
| Vssc.Trunc | src/Distribution.cpp:1329 | (int) of a float truncates toward zero. |
| Vssc.WidthNegative | src/Distribution.cpp:1329 | For scores in 0 .. 255 every window is empty once w <= -4. |
| Vssc.VisitSnoc | src/Distribution.cpp:1340-1349 | One more cell: a stronger score takes it, otherwise the point is not best. |
| Vssc.VisitAppend | src/Distribution.cpp:1336-1351 | Visiting a + b is visiting a, then b. |
| Vssc.BlockWithin | src/Distribution.cpp:1330-1340 | The clamped window keeps every visited index inside the covered vector. |
| Vssc.ScanSelection | src/Distribution.cpp:1320-1360 | A pass keeps an increasing list of positions, at most N + 1 of them. |
| Vssc.ScanStable | src/Distribution.cpp:1355-1359 | Once more than N points are kept the pass has stopped: later points change nothing. |
| Vssc.ScanGrows | src/Distribution.cpp:1320-1360 | A kept point stays kept as the pass goes on. |
| Vssc.MarkCell | src/Distribution.cpp:1340-1349 | One cell on the array: a stronger score takes it, otherwise best becomes false. |
| Vssc.MarkRow | src/Distribution.cpp:1338-1350 | The inner loop on the array computes the visit of the row's cells. |
| Vssc.Mark | src/Distribution.cpp:1335-1351 | The nested loops on the array compute the visit of the window, row by row. |
| Vssc.Consider | src/Distribution.cpp:1322-1354 | The pass body for one point on the array matches the specification step. |
| Vssc.Pass | src/Distribution.cpp:1314-1360 | One pass on the covered array keeps exactly the positions the specified pass keeps. |
| Vssc.RowSpan | src/Distribution.cpp:1338-1340 | The cells of a row within the stride are increasing and stay in the row's span. |
| Vssc.CorrectedBlockIncreasing | src/Distribution.cpp:1336-1340 | With the corrected stride a window visits each cell once, in increasing order. |
| Vssc.VisitElsewhere | src/Distribution.cpp:1336-1351 | Cells a window does not visit keep their value. |
| Vssc.VisitFresh | src/Distribution.cpp:1336-1352 | A window visiting each cell once, all below the score, leaves the point best. |
| Vssc.CorrectedKeepsFirst | src/Distribution.cpp:1320-1353 | With the corrected stride, the strongest point is kept by every pass whenever it clears the empty grid. |
| Vssc.LoneWindow | src/Distribution.cpp:1329-1340 | In a 1 x 1 frame at w = 6 the as-written window of point (0, 0) is the index list [0, 1, 1, 2]. |
| Vssc.LoneVisit | src/Distribution.cpp:1336-1351 | Visiting [0, 1, 1, 2] from the empty grid with score 100 ends not best. |
| Vssc.AsWrittenDropsLonePoint | src/Distribution.cpp:1314-1360 | With the source's stride, the only point (0, 0) of score 100 in a 1 x 1 frame is dropped by the first pass. |
| Vssc.NarrowScan | src/Distribution.cpp:1317-1360 | With every window empty, the grid stays at -1 and the pass keeps min(size, N + 1) points. |
| Vssc.NarrowPassSuffices | src/Distribution.cpp:1361-1364 | At w <= -4 a pass keeps more than N - N * epsilon points, so the outer loop ends. |
| Vssc.DistributeVssc | src/Distribution.cpp:1294-1373 | Passes at w = 6, 5, ... until one keeps enough: the result is that pass's points in input order, every larger w fell short, and -4 <= w. It keeps 1 .. N + 1 points, the strongest first. |
| Dispatch.SortByResponse | src/Distribution.cpp:38-49 | The sort before the switch: a permutation of the points in non-increasing response. |
| Dispatch.SameMembers | src/Distribution.cpp:38-49 | A reordering keeps the number of points and each point. |
| Dispatch.Suppress | src/Distribution.cpp:78-117 | Each suppression mode returns the subsequence its strategy selects (Follows): the k-d tree, range tree, SSC and Soft-SSC keep the selection at the last width their bisection of the bracket for (rows, cols, N, size) tries; QUADTREE reaches the default case and gets Soft-SSC on the flattened frame (cols, -1, rows, -1); VSSC keeps the corrected pass at the largest window parameter that does not fall short, 1 .. N + 1 points with the strongest first. |
| Dispatch.SuppressKdTree | src/Distribution.cpp:78-84 | ANMS_KDTREE keeps Selected(KdTree(inclusive), points, bracket, 1). |
| Dispatch.SuppressRangeTree | src/Distribution.cpp:85-91 | ANMS_RT keeps Selected(RangeTree(inclusive), points, bracket, -1). |
| Dispatch.SuppressSsc | src/Distribution.cpp:92-98 | SSC keeps Selected(Ssc(cols x rows frame at the origin), points, bracket, -1). |
| Dispatch.SuppressSoftSsc | src/Distribution.cpp:99-117 | SOFT_SSC and QUADTREE (through the default case) keep Selected(SoftSsc(SoftFrame(cols, -1, rows, -1), threshold), points, bracket, -1). |
| Dispatch.SuppressVssc | src/Distribution.cpp:106-110 | VSSC keeps the scan of the corrected grid at the returned window parameter w, which does not fall short while every larger one up to 6 does; 1 .. N + 1 points, the strongest first. |
| Dispatch.Reduce | src/Distribution.cpp:52-77 | Each other mode returns what its strategy computes (Follows): KEEP_ALL the points, NAIVE exactly N dominating points, GRID per cell the best PerCell(N, cells) of the cell's bucket concatenated (at most N), RANMS per cell the cell kept whole or thinned by Soft-SSC on the cell's box, the ORB-SLAM quadtree the first strongest point of each node of Subdivided(Pruned(Seeded(points))) (at least one); all keep a sub-multiset. |
| Dispatch.DistributeKeypoints | src/Distribution.cpp:25-119 | size <= N (or negative N) leaves the points unchanged; N = 0 empties them. Otherwise the points are sorted by descending response for the modes that sort first (a permutation, left as they are for the others), and the result is what the mode's strategy computes on them (Follows), with the subsequence, count and dominance facts above. |
| OrbExtractor.ClampInitial | src/ORBextractor.cpp:370 | iniThFAST is clamped to [0, 255], and a value already in range is kept. |
| OrbExtractor.ClampMinimum | src/ORBextractor.cpp:371 | minThFAST is clamped to [0, iniThFAST], and a value already in range is kept. |
| OrbExtractor.MinTableRefines | src/ORBextractor.cpp:375-399 | Every decided entry of the initial table is decided the same way in the minimum table. |
| OrbExtractor.FillTables | src/ORBextractor.cpp:374-399 | For every i in [0, 512) with v = i - 255: tab_init[i] is 1 if v < -iniThFAST, 2 if v > iniThFAST, else 0; tab_min[i] the same rule with minThFAST. |
| OrbExtractor.LevelQuotas | src/ORBextractor.cpp:421-428 | The earlier levels keep their rounded quotas. The last level gets max(nfeatures - sum, 0), never negative, and the total is nfeatures whenever the earlier sum does not exceed it. |
| OrbExtractor.Extractor.constructor | src/ORBextractor.cpp:353-428 | The constructor's clamped thresholds, the two filled tables and the per-level quotas. |
| OrbExtractor.RetainBestN | src/ORBextractor.cpp:330-336 | With N >= size (or negative, unsigned) the points are unchanged; otherwise the N strongest points in non-increasing response order. |
| OrbExtractor.BestOfNode | src/ORBextractor.cpp:836-837 | RetainBestN(node, 1) keeps a point of the node that no other point outresponds. |
| OrbQuadTree.RootCount | src/ORBextractor.cpp:721 | nroots is the integer quotient width / height (cvRound keeps it): at least 1 once width >= height. |
| OrbQuadTree.RoundDiv | src/ORBextractor.cpp:724 | nodeWidth = cvRound(width / nroots): nearest integer, ties to even, at least 1. |
| OrbQuadTree.AsWrittenCovers | src/ORBextractor.cpp:748-751 | The as-written root index stays below nroots for every x of the frame exactly when nodeWidth * nroots >= width. |
| OrbQuadTree.AsWrittenRootOverflows | src/ORBextractor.cpp:721-724 | A 13 x 3 frame gives 4 roots of width 3, and x = 12 indexes rootVec[4], one past the end. |
| OrbQuadTree.RootOfInRange | src/ORBextractor.cpp:748-751 | The corrected root index lies in [0, nroots) and agrees with the source's wherever that one is in range. |
| OrbQuadTree.SeedRoots | src/ORBextractor.cpp:721-751 | Root i spans x from minX + nodeWidth * i to minX + nodeWidth * (i + 1) over the full height. It holds in input order the points filed under i, and the roots hold every point once. |
| OrbQuadTree.MakeRoots | src/ORBextractor.cpp:731-746 | The root loop: nroots empty strips, left to right. |
| OrbQuadTree.FileRoots | src/ORBextractor.cpp:748-751 | The filing loop: root i holds exactly the bucket of points filed under i. |
| OrbQuadTree.FiledOnce | src/ORBextractor.cpp:748-751 | Filing a point appends it to its root only. |
| OrbQuadTree.RootsHoldAll | src/ORBextractor.cpp:731-751 | The filled roots hold every point exactly once. |
| OrbQuadTree.PushFront | src/ORBextractor.cpp:791-814 | A push block puts a non-empty child at the front, behind which current moves by one. |
| OrbQuadTree.PushedPoints | src/ORBextractor.cpp:789-814 | The pushed children hold exactly the four children's points. |
| OrbQuadTree.PushedFacts | src/ORBextractor.cpp:791-814 | The pushed children are non-empty, not leaves, at most four, and at least one when the node held a point. |
| OrbQuadTree.SplitAt | src/ORBextractor.cpp:789-816 | Divide, push and erase(current): the pushed children are exactly PushedKids(node), the non-empty Children in the order n4, n3, n2, n1 at the front, then the list without the node. The children hold exactly the node's points, none flagged leaf. |
| OrbQuadTree.EraseAt | src/ORBextractor.cpp:816 | Erasing current behind the pushed children removes exactly that node. |
| OrbQuadTree.Replace | src/ORBextractor.cpp:789-816 | Replacing a node by children with the same points keeps the points of the list. |
| OrbQuadTree.EraseEmpty | src/ORBextractor.cpp:778-781 | An empty current node is erased and the walk moves to the next node. |
| OrbQuadTree.DivideCurrent | src/ORBextractor.cpp:789-816 | A non-empty current node is divided and erased: the front of the walked list gains exactly PushedKids(node), and the walk moves to the next node. |
| OrbQuadTree.Visit | src/ORBextractor.cpp:776-816 | The walk body. It dereferences end() exactly when the erased empty node was the last one; otherwise it skips one empty node, divides the next and puts its pushed children in front of the walked part. |
| OrbQuadTree.Walk | src/ORBextractor.cpp:773-829 | One pass is exactly PassOver(nodes, N): each node erased when empty, divided otherwise, stopping when a division leaves the size at lastSize or reaches N, or reading end(). It keeps the points; a completed pass leaves only non-empty nodes and does not reach N. |
| OrbQuadTree.WalkStep | src/ORBextractor.cpp:776-827 | One node of the walk: reading end() exactly as PassOver does, a stop exactly when the size is back to lastSize or reaches N, with the pass's list as PassOver gives it, and otherwise the rest of the pass unchanged from the new position. |
| OrbQuadTree.Subdivide | src/ORBextractor.cpp:767-830 | The loop ran the passes recorded in lists: each pass is PassOver of the list the previous one completed with, and the last one does not complete. The result is that pass's list when it stopped and nothing when it read end(); lastSize is the size before the last pass. |
| OrbQuadTree.Step | src/ORBextractor.cpp:771-829 | A pass that completes extends the chain of passes by its list; any other pass ends the run, so the run is Ran over the chain. The pass keeps the points and the no-leaf invariant. |
| OrbQuadTree.Turn | src/ORBextractor.cpp:771-829 | One pass of the omegadoom loop: a completed pass extends the chain of passes with a filled list no longer than the points and longer than a filled list it began with; any other outcome ends the run, and a filled list never reads end(). |
| OrbQuadTree.PassesStay | src/ORBextractor.cpp:767-830 | Once a pass has stopped or read end(), later pass counts change nothing. |
| OrbQuadTree.ChainPasses | src/ORBextractor.cpp:767-830 | The i-th list of a chain of completed passes is the loop's list after i passes. |
| OrbQuadTree.RanPasses | src/ORBextractor.cpp:767-830 | A finished run is the loop's outcome after any number of passes not below its length, so the run from given roots is unique. |
| OrbQuadTree.Representatives | src/ORBextractor.cpp:832-839 | One point per node, no other point of the node outresponding it. It is defined exactly when every node holds a point. |
| OrbQuadTree.OnePerNode | src/ORBextractor.cpp:832-839 | One point per node is a sub-multiset of the nodes' points. |
| OrbQuadTree.DistributeKeypoints | src/ORBextractor.cpp:718-841 | The run of passes starts from Seeded(points). The result is defined exactly when the last pass stopped on non-empty nodes; those nodes partition the input and the result is one strongest point per node, a sub-multiset of the input. |

## Left out

- Floating point is replaced by exact forms. This covers myRound and the float epsilon band, the float root width of the newer quadtree, the ORB cvRound, and the real-valued VSSC width formula; float precision effects are not modelled.
- The analytic bracket of the binary search (sqrt of the discriminant, floor(sqrt(size / N))) and myRound of the tolerance band are parameters (`Bracket`, `Tuning.bracketOf`). This includes RANMS calling Soft-SSC with nPerCell = 0, where the source's floor(sqrt(size / 0)) is undefined.
- BUCKETING_GRID_SIZE is not part of this model; it is a parameter (`gridSize`).
- The nanoflann k-d tree and RangeTree are not part of this model. Their queries are brute-force scans, with boundary inclusiveness as a parameter.
- The RANMS threshold is an int parameter (the dispatcher's float is truncated on the call).
- The ORB level schedule (scale factors, pow, cvRound of the geometric series) is given as the list of rounded quotas.
- ORB scale pyramids, FAST detection, descriptors, orientation, the GUI and I/O are outside the distribution engine.
- Dispatch.DistributeKeypoints: requires, per mode, what the chosen strategy needs of the region and of the points (RegionFits, PointFits), since the source indexes out of bounds or divides by zero otherwise; the k-d tree, the range tree, NAIVE and KEEP_ALL take any point.
- Dispatch.DistributeKeypoints: the facts each strategy proves about its own reference functions (for instance QuadTreeDistribution's partition of the points into nodes, or the search's trial list) are stated on the strategy's members and not repeated here; Follows names the reference function each mode's result equals.
- Responses are integers. The source's responses are floats; the dispatcher's sort (src/Distribution.cpp:38-44) and the SSC and VSSC scores take their integer part, but RetainBestN's nth_element (src/Distribution.cpp:19-20), the quadtree representative's maxScore scan (src/Distribution.cpp:394-400, 640-646) and the ORB RetainBestN sort (src/ORBextractor.cpp:326-336) compare the floats. The order among points whose responses share an integer part is therefore not modelled for RetainBestN, NAIVE, GRID and both quadtrees' representatives.
- QuadTree.SeedRoots: requires 0 <= x < width, since a point at x = width indexes one past rootVec.
- QuadTree.SeedRoots: requires height > 0 and 2 * width >= height. When 2 * width < height, nroots = round(width / height) = 0, rootVec stays empty and the filing loop indexes it anyway (src/Distribution.cpp:170-200).
- QuadTreeDistribution.DistributeQuadTree: requires height > 0, 2 * width >= height and 0 <= x < width for every point, for the reasons given for QuadTree.SeedRoots.
- QuadTreeDistribution.DistributeQuadTreeOrbSlam: requires height > 0, 2 * width >= height and 0 <= x < width for every point, as QuadTreeDistribution.DistributeQuadTree does.
- Vssc.DistributeVssc: requires scores in 0 .. 255, score + threshold >= -1, 0 <= N < size and epsilon >= 0. These make the outer loop end (by w = -4); the source would loop forever otherwise.
- Vssc.DistributeVssc: uses the corrected stride; the source's stride is modelled by the as-written lemmas only.
- OrbQuadTree.DistributeKeypoints: requires height >= 1 and width >= height. Otherwise the integer division gives nroots = 0 and the strip width divides by zero.
- OrbQuadTree.DistributeKeypoints: requires x >= 0 for every point.
- OrbQuadTree.DistributeKeypoints: requires a non-empty input. With no points the source reads end() or nodeKpts[0] of an empty node, loops forever on an emptied list, or (two roots and N <= 0) returns nothing; the model leaves that case out.
- OrbQuadTree.Walk: the `if (current->leaf)` branch is left out because no listed node is ever a leaf.
- OrbQuadTree.DistributeKeypoints: uses the corrected root index (clamped to the last root).
- OrbExtractor.Extractor.constructor: requires nlevels >= 1, since the source writes the last level's quota at index nlevels - 1.
- Subdivision.Subdivide: std::sort is not stable, so the order it gives nodes of equal size is a ghost output (orders) constrained only to be non-increasing in size; SubdividedUnique shows this is the only freedom.

## Findings

| source | as written | input that shows it | evidently intended | confidence | as-written member | corrected member |
|---|---|---|---|---|---|---|
| src/Distribution.cpp:1327-1340 | covered is indexed as dy * cellCols + dx, in a grid of (cellRows + 1) * (cellCols + 1) cells, so the last cell of a row and the first of the next share an index | frame 1 x 1 (maxX - minX = maxY - minY = 1), one point (0, 0) of score 100, w = 6: the window visits index 1 twice, and the second visit finds the point's own score, so the only point is dropped | stride cellCols + 1, one index per cell | not executed | Vssc.AsWrittenDropsLonePoint | Vssc.CorrectedKeepsFirst |
| src/ORBextractor.cpp:721-724 | nodeWidth = cvRound(width / nroots) can make the strips narrower than the frame, and rootVec[(int)(x / nodeWidth)] then indexes past the last root | frame 13 x 3: nroots = 4, nodeWidth = cvRound(3.25) = 3, and x = 12 gives rootVec[4] | every point filed under one of the nroots roots | not executed | OrbQuadTree.AsWrittenRootOverflows | OrbQuadTree.RootOfInRange |
