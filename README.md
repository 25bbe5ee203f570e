# HypED core, modelled in Dafny

HypED answers approximate s-distance queries on hypergraphs. Two hyperedges
are s-adjacent when they share at least s vertices. The s-distance between
two hyperedges is the length of the shortest chain of s-adjacent hyperedges
that joins them.

The system works in four stages:

1. It finds the s-connected components of the hypergraph for every s.
2. It spreads a budget of landmarks over those components, either by
   weighted sampling or by median-rank aggregation of the components.
3. It selects landmark hyperedges inside each component.
4. It stores, for every s, each hyperedge's distance to every landmark.

A query then combines two hyperedges' labels into a lower bound, an upper
bound and an estimate of their s-distance.

This project models that sequential, integer-valued core. Each module
follows one source file or one part of a source file.

- **Union-find and components**
  - `UnionFind`: the weighted quick-union forest with path compression, as
    a class over `parent`/`rank` arrays.
  - `Components`: the per-s component store.
  - `SConnectivity`, `ComponentSweep`, `LevelSweep`, `LevelIndex`,
    `LevelCount` and `LevelComponents`: the one-level and the multi-level
    (descending s) component searches of `HyperGraph`.
- **Hypergraph and search**
  - `HyperEdges`, `HyperGraphs`: the overlap index.
  - `Walks`, `Distances`: s-walks and BFS distances.
  - `PathSearch`: bidirectional search.
  - `AllPaths`, `AllPathsState`: all shortest paths.
  - `SearchTrees`, `Lattices`: search trees and lattices, with the Bloom
    filters as over-approximating sets.
  - `LineGraphs`: the line-graph projection.
  - `Labels`, `Text`: labelled edges and nodes.
  - `Utils`: set, array and sampling helpers.
- **Landmark budget**
  - `LandmarkAssignment`: `LandMarkAssigner`'s count vectors, incremented
    under the budget. The weighted random draw is a nondeterministic choice
    among the selectable components.
- **Median ranking**
  - `BioConsert` is split into `Departures`, `RankCosts`, `RankDistance`,
    `DeltaCosts`, `BucketMoves`, `Best`, `BioConsertSearch` and
    `MedianRanking`.
  - The bucket moves work in place on arrays.
  - The search is proved to lower the weighted distance to the input
    rankings with every move it takes.
- **Landmark selection**
  - `SelectorBasics`, `SelectionParts`, `BatchSelection`, `PathSample`,
    `IncrementalSelection` and `RankedSelection` hold the pieces of
    `LandMarkSelector`: the batch selectors, the one-at-a-time selectors,
    path sampling and the ranking state.
  - `LandmarkSelection` holds the selector class itself, with its path
    cache.
- **Oracle**
  - `SOracles`: per-s labels.
  - `Oracles`: bound queries, membership getters and reachable profiles.
  - `ReachBounds`: the bound folds of `createReachableProfile`.
  - `Profiles`: `DistanceProfile` and `ReachableProfile`.
  - `Refinement`: bound refinement across s and the top-k rows of the test
    helper.
- **Shared definitions**
  - `Wrappers`: `Option`, 32-bit wrap-around and set helpers.

## How the Java is read

- Randomness (`Random`, `Collections.shuffle`) becomes a nondeterministic
  choice.
- HashMap and HashSet iteration order is an arbitrary choice (`Pick`).
- Parallel streams are read as sequential loops.
- Exceptions and out-of-range reads become `None` results where the source
  can reach them.
- Java `int` arithmetic is modelled with explicit 32-bit wrap-around where
  a value can leave the range, as in `cumSum`, `vDot`, `sum` and `hashCode`.
- A truncating `(int)` cast of a double is modelled by `Truncate`.
- Integer division and `Math.abs` follow Java's rules.
- `initializeFromCC` leaves the component count unchanged, and the model
  keeps that (`UnionFind.WQUFPC.InitializeFromCC`).
- `populateOracle` sets `numLandmarks` to the size of the last batch, and
  the model keeps that as well.

## Model

| member | source | states |
|---|---|---|
| UnionFind.WQUFPC.constructor | src/main/java/eu/centai/hyped/cc/WQUFPC.java:49-57 | n singleton sets: every element is its own parent and root with rank 0, and the count is n |
| UnionFind.WQUFPC.Find | src/main/java/eu/centai/hyped/cc/WQUFPC.java:75-88 | returns the root of p's tree, points exactly the elements on p's path straight at it, and leaves the partition and the set of roots unchanged |
| UnionFind.ForestRedirect | src/main/java/eu/centai/hyped/cc/WQUFPC.java:82-86 | pointing a non-root at its root keeps a well-founded forest with the same partition (one step of path compression) |
| UnionFind.PathBelow | src/main/java/eu/centai/hyped/cc/WQUFPC.java:78-80 | every element on the way up from p is a non-root in p's tree, no deeper than p |
| UnionFind.WQUFPC.Union | src/main/java/eu/centai/hyped/cc/WQUFPC.java:145-162 | afterwards p and q are in one set and no set is split; already together: nothing changes; otherwise the lower-rank root goes under the other (a tie puts p's root under q's and raises q's rank), the two sets merge and the count drops by one |
| UnionFind.WQUFPC.Link | src/main/java/eu/centai/hyped/cc/WQUFPC.java:151-161 | hanging root a under root b merges a's set into b's, removes a from the roots and leaves every other set as it was |
| UnionFind.ForestLink | src/main/java/eu/centai/hyped/cc/WQUFPC.java:151-161 | linking one root under another gives a forest whose sets are the old ones with those two merged |
| UnionFind.Merge | src/main/java/eu/centai/hyped/cc/WQUFPC.java:151-161 | after the merge an element's representative is the new root when it was the old root, and is unchanged otherwise |
| UnionFind.CoarsensChain | src/main/java/eu/centai/hyped/cc/WQUFPC.java:145-162 | merging sets twice merges them: coarsening is transitive |
| UnionFind.WQUFPC.SameCC | src/main/java/eu/centai/hyped/cc/WQUFPC.java:170-173 | true exactly when p and q are in the same set; the partition is unchanged |
| UnionFind.WQUFPC.InitializeFromCC | src/main/java/eu/centai/hyped/cc/WQUFPC.java:181-184 | the first member's rank becomes the component size and every member points at it; when the members were roots their sets merge into one |
| UnionFind.ForestSeed | src/main/java/eu/centai/hyped/cc/WQUFPC.java:181-184 | pointing the members of a component at its first member keeps a forest |
| UnionFind.RootAfterSeedOfRoots | src/main/java/eu/centai/hyped/cc/WQUFPC.java:181-184 | when every seeded element was a root, an element's new root is the first member if its old root was seeded, and its old root otherwise |
| UnionFind.WQUFPC.Join | src/main/java/eu/centai/hyped/cc/WQUFPC.java:196-200 | after the find-then-union step p and q are in one set, no set is split, and count minus the number of roots is unchanged |
| UnionFind.WQUFPC.FindCCsHyperEdges | src/main/java/eu/centai/hyped/cc/WQUFPC.java:192-202 | every listed pair ends up in one set, no set is split, and count minus the number of roots is unchanged |
| UnionFind.NodePositions | src/main/java/eu/centai/hyped/cc/WQUFPC.java:210-215 | vMap sends every node index to its (last) position in the node list |
| UnionFind.PosMapLast | src/main/java/eu/centai/hyped/cc/WQUFPC.java:210-215 | exactly the listed indices get a position, and the position holds that index with no later position holding it |
| UnionFind.WQUFPC.FindCCsLineGraph | src/main/java/eu/centai/hyped/cc/WQUFPC.java:209-230 | for every adjacency entry whose key's position is the smaller, the two positions end up in one set; no set is split |
| UnionFind.WQUFPC.JoinRows | src/main/java/eu/centai/hyped/cc/WQUFPC.java:216-228 | the outer loop over the adjacency map: afterwards every row's qualifying entries are joined |
| UnionFind.SymmetricJoined | src/main/java/eu/centai/hyped/cc/WQUFPC.java:216-228 | on a symmetric adjacency, joining only the entries whose key's position is the smaller still puts every adjacent pair in one set |
| UnionFind.BuiltSymmetric | src/main/java/eu/centai/hypeq/structures/LineGraph.java:178-190 | the adjacency built from the labelled edges is symmetric, so the line-graph search joins every edge |
| Components.MaxSize | src/main/java/eu/centai/hyped/cc/ConnectedComponents.java:140 | the largest component size: no component is larger, some component reaches it, and it is 0 when there are no components |
| Components.MaxSizeAboveOne | src/main/java/eu/centai/hyped/cc/ConnectedComponents.java:140-141 | the largest size exceeds one exactly when some component has more than one member |
| Components.ComponentMap | src/main/java/eu/centai/hyped/cc/ConnectedComponents.java:157-159 | the map of one component has exactly its members as keys, each mapped to the component's index |
| Components.MembershipLast | src/main/java/eu/centai/hyped/cc/ConnectedComponents.java:153-163 | an element is in the membership map iff some component holds it, and it maps to a component that holds it with no later component holding it (a later putAll wins) |
| Components.MembershipOfPartition | src/main/java/eu/centai/hyped/cc/ConnectedComponents.java:153-163 | for pairwise disjoint components, e maps to i exactly when component i holds e |
| Components.ConnectedComponents.constructor | src/main/java/eu/centai/hyped/cc/ConnectedComponents.java:36-41 | all four maps start empty |
| Components.ConnectedComponents.ClearStructures | src/main/java/eu/centai/hyped/cc/ConnectedComponents.java:46-49 | the partial overlaps and candidate lists are emptied; the components and memberships are unchanged |
| Components.ConnectedComponents.GetOverlap | src/main/java/eu/centai/hyped/cc/ConnectedComponents.java:57-59 | the recorded overlap of the ordered pair, or -1 when none is recorded |
| Components.ConnectedComponents.AddOverlap | src/main/java/eu/centai/hyped/cc/ConnectedComponents.java:84-86 | the overlap of (e1, e2) becomes o and every other pair, and every other map, is unchanged |
| Components.ConnectedComponents.GetOverlappingPairs | src/main/java/eu/centai/hyped/cc/ConnectedComponents.java:127-129 | a pair is returned exactly when an overlap is recorded for it |
| Components.ConnectedComponents.AddCandidateNeighbourPair | src/main/java/eu/centai/hyped/cc/ConnectedComponents.java:95-101 | e2 is appended to the candidate list of (s, e1), entries are created when missing, and every other list is unchanged |
| Components.ConnectedComponents.AddSCCs | src/main/java/eu/centai/hyped/cc/ConnectedComponents.java:139-146 | the components of level s are stored, and true returned, exactly when some component has more than one member; otherwise nothing changes |
| Components.ConnectedComponents.AddMemberships | src/main/java/eu/centai/hyped/cc/ConnectedComponents.java:153-163 | the membership map of level s is replaced by the map from each member to the index of its (last) component; the other maps are unchanged |
| Components.ConnectedComponents.GetIdOfSCC | src/main/java/eu/centai/hyped/cc/ConnectedComponents.java:171-173 | the stored component index of e at level s, and -1 exactly when level s or e is unknown |
| Components.ConnectedComponents.GetSCCs | src/main/java/eu/centai/hyped/cc/ConnectedComponents.java:188-190 | the stored components of level s, or an empty list |
| Components.ConnectedComponents.GetSizeOf | src/main/java/eu/centai/hyped/cc/ConnectedComponents.java:207-213 | the size of component cc_id of level s, and 0 when the index is past the stored components |
| Components.ConnectedComponents.Contains | src/main/java/eu/centai/hyped/cc/ConnectedComponents.java:220-222 | true exactly when components of level s are stored |
| Components.ConnectedComponents.IsEmpty | src/main/java/eu/centai/hyped/cc/ConnectedComponents.java:228-230 | true only when no level is stored, and false only when some level is |
| Components.ConnectedComponents.Size | src/main/java/eu/centai/hyped/cc/ConnectedComponents.java:244-246 | the number of stored levels, which is zero exactly when the structure is empty |
| ComponentSweep.FindSConnectedComponents | src/main/java/eu/centai/hypeq/structures/HyperGraph.java:499-539 | the listed hyperedges are split into nonempty groups: two hyperedges in one group are s-connected through the list, and two sharing at least s vertices are in one group |
| ComponentSweep.IndexPositions | src/main/java/eu/centai/hypeq/structures/HyperGraph.java:501-508 | the index lists, for each vertex, the increasing positions whose hyperedge holds it |
| ComponentSweep.PositionListMembers | src/main/java/eu/centai/hypeq/structures/HyperGraph.java:509-511 | the sorted list of v holds exactly the positions whose hyperedge has v |
| ComponentSweep.CountAllS | src/main/java/eu/centai/hypeq/structures/HyperGraph.java:512-532 | after every vertex list is counted, the partition is sound (a set only joins s-connected hyperedges) and closed (no two hyperedges sharing s vertices are apart) |
| ComponentSweep.CountVertexS | src/main/java/eu/centai/hypeq/structures/HyperGraph.java:514-531 | counting all pairs of the list of v keeps the counters equal to the shared vertices seen so far, with v now seen |
| ComponentSweep.CountRowS | src/main/java/eu/centai/hypeq/structures/HyperGraph.java:517-531 | row i of a vertex list: every later position in a different set has its counter raised, and is merged once it reaches s |
| ComponentSweep.CountPairS | src/main/java/eu/centai/hypeq/structures/HyperGraph.java:520-528 | one pair (i, j): in different sets its counter gains one and the sets merge when it reaches s; the partition stays sound |
| ComponentSweep.UnionAdjacent | src/main/java/eu/centai/hypeq/structures/HyperGraph.java:522-527 | merging two positions whose hyperedges share at least s vertices keeps the partition sound and puts them in one set |
| ComponentSweep.GroupByRoot | src/main/java/eu/centai/hypeq/structures/HyperGraph.java:533-538 | groupingBy(find): every position sits in exactly one nonempty group, listing hyperedges in position order, and two positions share a group exactly when they share a representative |
| ComponentSweep.GroupedDone | src/main/java/eu/centai/hypeq/structures/HyperGraph.java:533-538 | once every position is placed, group membership is exactly representative equality |
| SConnectivity.ConnectedSym | src/main/java/eu/centai/hypeq/structures/HyperGraph.java:499-539 | s-connectedness is symmetric (a walk reversed) |
| SConnectivity.ConnectedTrans | src/main/java/eu/centai/hypeq/structures/HyperGraph.java:499-539 | s-connectedness is transitive (walks concatenated) |
| SConnectivity.ConnectedMono | src/main/java/eu/centai/hypeq/structures/HyperGraph.java:350-363 | a walk at level s through l is a walk at any lower level through any list holding l, which is why level s + 1 may seed level s |
| SConnectivity.SoundMerge | src/main/java/eu/centai/hypeq/structures/HyperGraph.java:524-527 | merging the sets of two positions sharing s vertices keeps every set s-connected |
| SConnectivity.WalkSameRoot | src/main/java/eu/centai/hypeq/structures/HyperGraph.java:533-538 | under a closed partition both ends of any walk have one representative |
| SConnectivity.ExactComponents | src/main/java/eu/centai/hypeq/structures/HyperGraph.java:533-538 | a sound and closed partition of a list without repetitions puts two hyperedges in one set exactly when they are s-connected |
| SConnectivity.SortByKeyDesc | src/main/java/eu/centai/hypeq/structures/HyperGraph.java:510-511 | the stable sort by decreasing size is a permutation of the list |
| SConnectivity.SortSorted | src/main/java/eu/centai/hypeq/structures/HyperGraph.java:510-511 | sorting a list whose ties are in increasing order leaves it strictly ordered by size, then by position |
| SConnectivity.SharedBound | src/main/java/eu/centai/hypeq/structures/HyperGraph.java:520-524 | a pair's counter never exceeds the number of vertices the two hyperedges share |
| SConnectivity.PairCounted | src/main/java/eu/centai/hypeq/structures/HyperGraph.java:522-527 | visiting a pair in different sets raises its counter to the shared vertices seen plus one and keeps the counting invariant |
| SConnectivity.CountsClosed | src/main/java/eu/centai/hypeq/structures/HyperGraph.java:513-532 | once every vertex is visited no pair in different sets shares s vertices: the partition is closed |
| LevelComponents.FindConnectedComponents | src/main/java/eu/centai/hypeq/structures/HyperGraph.java:343-413 | for every level t from 1 to maxS: the membership map holds exactly the hyperedges of size at least t, two of them share an id exactly when they are t-connected, each stored component is nonempty and agrees with the memberships; every candidate pair of level t is two t-connected hyperedges sharing a vertex; every recorded overlap is at most the true one |
| LevelComponents.ProcessLevel | src/main/java/eu/centai/hypeq/structures/HyperGraph.java:351-410 | one pass of the level loop finishes level s, leaving the levels above as they were |
| LevelComponents.SeedLevel | src/main/java/eu/centai/hypeq/structures/HyperGraph.java:351-363 | the level's list and position map are built, and the fresh forest is seeded from level s + 1 and the recorded pairs, with every set s-connected and every recorded pair in one set |
| LevelSweep.BuildInvMap | src/main/java/eu/centai/hypeq/structures/HyperGraph.java:352-355 | invMap sends each listed hyperedge to its position, and only those |
| LevelSweep.PositionIsIdx | src/main/java/eu/centai/hypeq/structures/HyperGraph.java:352-355 | a listed hyperedge's position is the place where the list holds it |
| LevelSweep.ViewsNest | src/main/java/eu/centai/hypeq/structures/HyperGraph.java:351 | every hyperedge kept at level s + 1 is kept at level s |
| LevelSweep.ConnectedDown | src/main/java/eu/centai/hypeq/structures/HyperGraph.java:357-360 | two hyperedges (s+1)-connected at level s + 1 are s-connected at level s, so seeding from level s + 1 is sound |
| LevelSweep.Nesting | src/main/java/eu/centai/hypeq/structures/HyperGraph.java:357-360 | two hyperedges in one component of level t + 1 are in one component of level t |
| LevelSweep.MapThrough | src/main/java/eu/centai/hypeq/structures/HyperGraph.java:359 | the positions of the listed hyperedges, in list order |
| LevelSweep.SeedConnected | src/main/java/eu/centai/hypeq/structures/HyperGraph.java:358-360 | the members of a component of level s + 1, at their level-s positions, are pairwise s-connected |
| LevelSweep.SeedComponents | src/main/java/eu/centai/hypeq/structures/HyperGraph.java:358-360 | seeding a fresh forest with the components of level s + 1 keeps every set s-connected |
| LevelSweep.OverlapAtMostSize | src/main/java/eu/centai/hypeq/structures/HyperGraph.java:362-363 | two hyperedges share no more vertices than either has |
| LevelSweep.UnionRecorded | src/main/java/eu/centai/hypeq/structures/HyperGraph.java:362-363 | every recorded pair (recorded above s, so sharing more than s vertices) ends in one set, and every set stays s-connected |
| LevelIndex.AddEdge | src/main/java/eu/centai/hypeq/structures/HyperGraph.java:367-375 | an unmasked hyperedge is appended to the list of each of its vertices and masked; the index still lists exactly the masked hyperedges per vertex |
| LevelIndex.AddToIndex | src/main/java/eu/centai/hypeq/structures/HyperGraph.java:365-376 | afterwards the mask holds exactly the hyperedges of the level, and each vertex lists exactly the masked hyperedges holding it |
| LevelIndex.MaskedLarger | src/main/java/eu/centai/hypeq/structures/HyperGraph.java:365-376 | a hyperedge masked at a higher level is larger than any unmasked one of level s |
| LevelIndex.SortAll | src/main/java/eu/centai/hypeq/structures/HyperGraph.java:378-379 | the sorted index has the same keys and each list is its stable sort by decreasing size |
| LevelIndex.SortIndex | src/main/java/eu/centai/hypeq/structures/HyperGraph.java:378-379 | each list keeps its members and is ordered by decreasing size, ties by id |
| LevelComponents.IndexLevel | src/main/java/eu/centai/hypeq/structures/HyperGraph.java:365-379 | the index lists exactly the level's hyperedges per vertex, each list sorted by decreasing size |
| LevelIndex.EdgeListMembers | src/main/java/eu/centai/hypeq/structures/HyperGraph.java:383-385 | the list of v holds exactly the level's hyperedges that have v |
| LevelIndex.EdgeListOrder | src/main/java/eu/centai/hypeq/structures/HyperGraph.java:383-391 | a list sorted by decreasing size, ties by id, visits the positions in the sweep's order |
| LevelComponents.CountLevel | src/main/java/eu/centai/hypeq/structures/HyperGraph.java:364-405 | after the counting the partition is sound and closed at level s, overlaps are recorded only for pairs sharing s vertices, candidates only for pairs in one set, and no other level changes |
| LevelCount.CountAllC | src/main/java/eu/centai/hypeq/structures/HyperGraph.java:383-405 | after every vertex list is counted the partition is sound and closed, and the store still records only genuine overlaps and joined candidate pairs |
| LevelCount.AllVerticesSeen | src/main/java/eu/centai/hypeq/structures/HyperGraph.java:383-405 | after every vertex list, every vertex of every hyperedge of the level has been visited |
| LevelCount.CountVertexC | src/main/java/eu/centai/hypeq/structures/HyperGraph.java:384-404 | all pairs of the list of v are counted, with v now visited, and nothing outside level s changes |
| LevelCount.CountRowC | src/main/java/eu/centai/hypeq/structures/HyperGraph.java:387-404 | row i: every later hyperedge of the list is visited as a pair |
| LevelCount.CountPairC | src/main/java/eu/centai/hypeq/structures/HyperGraph.java:390-402 | one pair: in different sets its counter gains one and, once it reaches s, its overlap is recorded and the sets merge; in one set it becomes a candidate pair |
| LevelCount.SamePairC | src/main/java/eu/centai/hypeq/structures/HyperGraph.java:399-401 | a pair already in one set changes no counter and is recorded as a candidate |
| LevelCount.AddCandidate | src/main/java/eu/centai/hypeq/structures/HyperGraph.java:400 | recording a candidate pair keeps every candidate pair joined and changes nothing outside level s |
| LevelCount.MergeRecorded | src/main/java/eu/centai/hypeq/structures/HyperGraph.java:394-398 | a pair sharing at least s vertices gets overlap s recorded and its two sets merged, keeping every set s-connected |
| LevelCount.OverlapRecorded | src/main/java/eu/centai/hypeq/structures/HyperGraph.java:395 | addOverlap records s for the pair and changes no other entry |
| LevelCount.CandidatesCoarsen | src/main/java/eu/centai/hypeq/structures/HyperGraph.java:397 | merging sets keeps the candidate pairs joined |
| LevelComponents.CandidatesConnected | src/main/java/eu/centai/hypeq/structures/HyperGraph.java:399-401 | candidate pairs in one set of a sound partition are t-connected |
| LevelComponents.StoreLevel | src/main/java/eu/centai/hypeq/structures/HyperGraph.java:406-410 | the groups by representative are stored as the components (when not all singletons) and the memberships of level s, finishing level s and touching no other level |
| LevelComponents.GroupsPartition | src/main/java/eu/centai/hypeq/structures/HyperGraph.java:406-408 | over a list without repetitions the groups are pairwise disjoint and repeat no member |
| LevelComponents.GroupsFinishLevel | src/main/java/eu/centai/hypeq/structures/HyperGraph.java:406-410 | storing the groups of a sound and closed partition finishes the level |
| LevelComponents.SweptStep | src/main/java/eu/centai/hypeq/structures/HyperGraph.java:350-411 | finishing level s, with the levels above unchanged, extends the finished levels down to s |
| LevelComponents.ReadyForNeighbours | src/main/java/eu/centai/hypeq/structures/HyperGraph.java:94-129 | what the sweep leaves meets what completing the neighbour maps needs: overlaps never above the true ones, candidates are hyperedges with a 1-component |
| HyperEdges.EdgeHash | src/main/java/eu/centai/hypeq/structures/HyperEdge.java:126-132 | the hash of a hyperedge is a 32-bit int, built from its id and its vertex set's hash with wrap-around |
| HyperEdges.EqualEdgesHashDifferently | src/main/java/eu/centai/hypeq/structures/HyperEdge.java:117-132 | equality ignores the id but the hash mixes it in: two equal hyperedges with ids 0 and 1 hash differently |
| HyperEdges.WrapDistinct | src/main/java/eu/centai/hypeq/structures/HyperEdge.java:128-130 | values less than 2^32 apart keep distinct 32-bit wrap-arounds, which is what separates the two hashes |
| HyperEdges.HyperEdge.constructor | src/main/java/eu/centai/hypeq/structures/HyperEdge.java:21-26 | a new hyperedge has the given id and vertices, caches their count as its size, and has no neighbours |
| HyperEdges.HyperEdge.GetNumVertices | src/main/java/eu/centai/hypeq/structures/HyperEdge.java:32-34 | the cached size equals the number of vertices |
| HyperEdges.HyperEdge.GetSNeighbours | src/main/java/eu/centai/hypeq/structures/HyperEdge.java:71-76 | n is returned exactly when n is a neighbour whose recorded overlap is at least s |
| HyperEdges.HyperEdge.SNeighboursAntitone | src/main/java/eu/centai/hypeq/structures/HyperEdge.java:71-76 | raising s can only remove s-neighbours, so their number cannot grow |
| HyperEdges.HyperEdge.GetRestrSNeighbours | src/main/java/eu/centai/hypeq/structures/HyperEdge.java:85-91 | the result is the s-neighbours that lie in cands |
| HyperEdges.HyperEdge.GetNumSNeighbours | src/main/java/eu/centai/hypeq/structures/HyperEdge.java:98-102 | the count equals the number of s-neighbours and never exceeds the number of neighbours |
| HyperEdges.HyperEdge.UpdateNeighbourData | src/main/java/eu/centai/hypeq/structures/HyperEdge.java:104-106 | putAll: the entries of data overwrite, and every other entry keeps its key and value |
| HyperEdges.HyperEdge.AddNeighbour | src/main/java/eu/centai/hypeq/structures/HyperEdge.java:113-115 | put: neighbour n gets overlap w, and for every s, n joins the s-neighbours when w >= s and leaves them otherwise |
| HyperEdges.HyperEdge.Copy | src/main/java/eu/centai/hypeq/structures/HyperEdge.java:134-137 | the copy is a new object with the same id, vertices and size, no neighbours, and equal to the original |
| HyperEdges.VertexHash | src/main/java/eu/centai/hypeq/structures/HyperEdge.java:126-132 | the corrected hash: the same mixing over the vertex set's hash, without the id |
| HyperEdges.VertexHashConsistent | src/main/java/eu/centai/hypeq/structures/HyperEdge.java:117-124 | equal hyperedges (same vertex set) have equal corrected hashes |
| HyperGraphs.HyperGraph.constructor | src/main/java/eu/centai/hypeq/structures/HyperGraph.java:42-49 | the graph keeps the given hyperedges with a valid vertex map and dimension; with initializeOverlaps every neighbour map holds exactly the nonzero overlaps with the other hyperedges, and without it the maps are untouched |
| HyperGraphs.HyperGraph.InitializeVertexMap | src/main/java/eu/centai/hypeq/structures/HyperGraph.java:51-63 | establishes Valid: each vertex maps to exactly the hyperedges containing it, and the dimension is the size of the largest hyperedge (0 when there is none) |
| HyperGraphs.HyperGraph.VertexMapDone | src/main/java/eu/centai/hypeq/structures/HyperGraph.java:52-59 | once every hyperedge is entered, v maps to e exactly when e contains v |
| HyperGraphs.HyperGraph.DistinctEdges | src/main/java/eu/centai/hypeq/structures/HyperGraph.java:42-49 | two positions of a well-indexed graph hold two distinct hyperedge objects, so writing one neighbour map leaves the others alone |
| HyperGraphs.HyperGraph.InitializeNeighbours | src/main/java/eu/centai/hypeq/structures/HyperGraph.java:65-82 | afterwards every hyperedge's neighbour map holds exactly its nonzero overlaps with the other hyperedges |
| HyperGraphs.HyperGraph.ExactBelowNext | src/main/java/eu/centai/hypeq/structures/HyperGraph.java:68-81 | after hyperedge i's overlaps with the earlier hyperedges are written on both sides, every map holds the exact overlaps among hyperedges 0..i |
| HyperGraphs.HyperGraph.RecordNeighbours | src/main/java/eu/centai/hypeq/structures/HyperGraph.java:71-74 | e's map gains the entries of curr, each hyperedge c in curr gains e with value curr[c], and no other map changes |
| HyperGraphs.HyperGraph.IndexEdge | src/main/java/eu/centai/hypeq/structures/HyperGraph.java:76-80 | the dynamic index lists, for each vertex, the increasing ids of the hyperedges 0..i containing it |
| HyperGraphs.HyperGraph.FindNeighbours | src/main/java/eu/centai/hypeq/structures/HyperGraph.java:138-148 | the counts are exactly the nonzero overlaps of hyperedge i with each earlier hyperedge |
| HyperGraphs.HyperGraph.SharedStep | src/main/java/eu/centai/hypeq/structures/HyperGraph.java:140-145 | counting one more vertex raises the count of exactly the hyperedges containing it |
| HyperGraphs.HyperGraph.OverlapSym | src/main/java/eu/centai/hypeq/structures/HyperGraph.java:72-74 | the overlap of two hyperedges does not depend on their order, which is why one count is written on both sides |
| HyperGraphs.HyperGraph.ExactIsConsistent | src/main/java/eu/centai/hypeq/structures/HyperGraph.java:65-82 | exact neighbour maps are consistent: symmetric, between hyperedges, and never above the true overlap |
| HyperGraphs.HyperGraph.RecordedConsistent | src/main/java/eu/centai/hypeq/structures/HyperGraph.java:124-127 | writing overlaps no larger than the true ones on both sides keeps the maps consistent, drops no key and links each written pair |
| HyperGraphs.HyperGraph.FindNeighboursAmongCands | src/main/java/eu/centai/hypeq/structures/HyperGraph.java:158-163 | the result has exactly the candidates as keys, each with its overlap with edge capped at maxS (and at 1 when maxS is smaller) |
| HyperGraphs.HyperGraph.CandidateUnion | src/main/java/eu/centai/hypeq/structures/HyperGraph.java:103-114 | the candidates of e are those listed for e at some level, and e is a key exactly when some level lists it |
| HyperGraphs.HyperGraph.InitializeNeighboursFromCandidates | src/main/java/eu/centai/hypeq/structures/HyperGraph.java:94-129 | every recorded partial overlap is written on both sides with its value; each hyperedge whose 1-component is larger than lb links to every candidate, a new candidate getting its capped overlap; existing entries keep their values, the maps stay consistent and no other pair is linked |
| HyperGraphs.HyperGraph.RecordPartialOverlaps | src/main/java/eu/centai/hypeq/structures/HyperGraph.java:96-101 | every recorded partial overlap is written on both sides with its recorded value, and the maps stay consistent |
| HyperGraphs.HyperGraph.RecordCandidates | src/main/java/eu/centai/hypeq/structures/HyperGraph.java:103-128 | each hyperedge whose 1-component is larger than lb ends up linked to all its candidates; only capped overlaps with candidates are added and no existing entry changes |
| HyperGraphs.HyperGraph.UpdateAll | src/main/java/eu/centai/hypeq/structures/HyperGraph.java:115-128 | every hyperedge of todo is linked to all its candidates, with only capped overlaps added |
| HyperGraphs.HyperGraph.UpdateFromCandidates | src/main/java/eu/centai/hypeq/structures/HyperGraph.java:119-127 | the candidates not yet neighbours of e1 get their capped overlaps written on both sides; nothing already there changes |
| HyperGraphs.HyperGraph.CandidatesKept | src/main/java/eu/centai/hypeq/structures/HyperGraph.java:119-127 | writing the capped overlaps of the new candidates overwrites no existing entry |
| HyperGraphs.HyperGraph.CandidatesLinked | src/main/java/eu/centai/hypeq/structures/HyperGraph.java:119-127 | after the write e1 is linked to every candidate, old links survive and the maps stay consistent |
| HyperGraphs.HyperGraph.GetNeighborsOf | src/main/java/eu/centai/hypeq/structures/HyperGraph.java:170-172 | the keys of e's neighbour map |
| HyperGraphs.HyperGraph.GetSNeighborsOf | src/main/java/eu/centai/hypeq/structures/HyperGraph.java:180-182 | n is returned exactly when n is a neighbour of e with recorded overlap at least s |
| HyperGraphs.HyperGraph.SNeighboursAreOverlaps | src/main/java/eu/centai/hypeq/structures/HyperGraph.java:180-182 | with exact neighbours and s >= 1, the s-neighbours of e are exactly the other hyperedges sharing at least s vertices with it, and the relation is symmetric |
| HyperGraphs.HyperGraph.GetEdgeDegree | src/main/java/eu/centai/hypeq/structures/HyperGraph.java:253-255 | the s-degree is the number of s-neighbours |
| HyperGraphs.HyperGraph.GetSHyperEdgesOf | src/main/java/eu/centai/hypeq/structures/HyperGraph.java:263-267 | e is returned exactly when e contains v and has at least s vertices |
| HyperGraphs.HyperGraph.GetEdgesWithMinSize | src/main/java/eu/centai/hypeq/structures/HyperGraph.java:291-301 | the increasing list holding exactly the hyperedges of size at least s (every hyperedge when s is 1) |
| HyperGraphs.HyperGraph.GetNumEdgesWithMinSize | src/main/java/eu/centai/hypeq/structures/HyperGraph.java:325-327 | the number of hyperedges with at least s vertices, for every s; for s other than 1 it is the length of the list above |
| HyperGraphs.HyperGraph.CountSized | src/main/java/eu/centai/hypeq/structures/HyperGraph.java:325-327 | counting from a position on gives the number of hyperedges from there with at least s vertices |
| HyperGraphs.HyperGraph.GetNumVertices | src/main/java/eu/centai/hypeq/structures/HyperGraph.java:209-211 | the number of keys of the vertex map |
| HyperGraphs.HyperGraph.GetDimension | src/main/java/eu/centai/hypeq/structures/HyperGraph.java:333-335 | no hyperedge has more vertices than the dimension |
| Walks.DistanceUnique | src/main/java/eu/centai/hypeq/structures/HyperGraph.java:547-570 | the s-distance between two hyperedges, when it exists, is a single number |
| Walks.DistanceZero | src/main/java/eu/centai/hypeq/structures/HyperGraph.java:557 | the s-distance from a hyperedge is 0 exactly to itself |
| Walks.WalkReverse | src/main/java/eu/centai/hypeq/structures/HyperGraph.java:633-666 | with symmetric adjacency, a reversed s-walk is an s-walk the other way |
| Walks.ReachableSymmetric | src/main/java/eu/centai/hypeq/structures/HyperGraph.java:633-666 | with symmetric adjacency, s-reachability is symmetric |
| Walks.WalkJoin | src/main/java/eu/centai/hypeq/structures/HyperGraph.java:652-659 | an s-walk to k followed by an s-walk from k is an s-walk of the summed length |
| Walks.Triangle | src/main/java/eu/centai/hypeq/oracle/structures/DistanceOracle.java:452-458 | s-distances obey the triangle inequality |
| Walks.DistanceSymmetric | src/main/java/eu/centai/hypeq/oracle/structures/DistanceOracle.java:452-458 | with symmetric adjacency, s-distance is symmetric |
| Walks.PairBounds | src/main/java/eu/centai/hypeq/oracle/structures/DistanceOracle.java:452-458 | through any landmark l, the distance between two hyperedges lies between the absolute difference and the sum of their distances to l |
| Distances.Exact | src/main/java/eu/centai/hypeq/structures/HyperGraph.java:558-568 | every distance recorded by the search is the true s-distance from the start |
| Distances.Complete | src/main/java/eu/centai/hypeq/structures/HyperGraph.java:558-568 | when the queue empties, every hyperedge s-reachable from the start has a recorded distance |
| Distances.PollMin | src/main/java/eu/centai/hypeq/structures/HyperGraph.java:559 | the polled entry has the smallest step in the queue, and the first such |
| Distances.Visit | src/main/java/eu/centai/hypeq/structures/HyperGraph.java:563-566 | an unvisited neighbour is recorded at the polled step and queued one step further; a visited one changes nothing |
| Distances.Expand | src/main/java/eu/centai/hypeq/structures/HyperGraph.java:562-567 | expanding a polled entry keeps the search invariant and queues exactly the newly visited hyperedges |
| Distances.SearchStep | src/main/java/eu/centai/hypeq/structures/HyperGraph.java:558-568 | one poll-and-expand keeps the search invariant and either visits new hyperedges or shortens the queue |
| Distances.FindDistancesFrom | src/main/java/eu/centai/hypeq/structures/HyperGraph.java:547-570 | the result's keys are exactly the hyperedges s-reachable from start, each mapped to its s-distance |
| Distances.StartLabel | src/main/java/eu/centai/hypeq/structures/HyperGraph.java:591 | the start's label, or the empty label when there are no labels |
| Distances.MatchedAdd | src/main/java/eu/centai/hypeq/structures/HyperGraph.java:606-612 | the count of matching hyperedges grows by the number of newly visited ones that match |
| Distances.CountingStep | src/main/java/eu/centai/hypeq/structures/HyperGraph.java:601-616 | one poll-and-expand keeps the search invariant and keeps reached equal to the number of visited hyperedges other than start that match |
| Distances.WithinDone | src/main/java/eu/centai/hypeq/structures/HyperGraph.java:601-616 | at loop exit every recorded distance is exact, and if fewer than maxReached matched then every reachable hyperedge is recorded |
| Distances.FindDistancesWithin | src/main/java/eu/centai/hypeq/structures/HyperGraph.java:586-622 | every recorded distance is the true s-distance; when fewer than maxReached matches were found the result covers every reachable hyperedge; maxReached <= 0 gives just the start |
| PathSearch.ExactSymmetric | src/main/java/eu/centai/hypeq/structures/HyperGraph.java:65-82 | when every neighbour map holds exactly the overlapping hyperedges, s-adjacency is symmetric |
| PathSearch.StepForward | src/main/java/eu/centai/hypeq/structures/HyperGraph.java:677-700 | one level of the search: the tree gains exactly the unvisited s-neighbours of the frontier, the new queue holds exactly them one level further, and the answer is true exactly when a reached neighbour is reported by the other tree's filter |
| PathSearch.ExpandEntry | src/main/java/eu/centai/hypeq/structures/HyperGraph.java:686-697 | popping one queue entry adds its unvisited s-neighbours to the tree and queue and sets the flag iff one of its neighbours is in the other filter |
| PathSearch.VisitNeighbour | src/main/java/eu/centai/hypeq/structures/HyperGraph.java:689-692 | an unvisited neighbour is added under its parent and queued one level further; a visited one changes nothing |
| PathSearch.GrownWalk | src/main/java/eu/centai/hypeq/structures/HyperGraph.java:689-692 | every node of a search tree is the end of an s-walk from its root whose nodes are its root path |
| PathSearch.ChainDepth | src/main/java/eu/centai/hypeq/structures/HyperGraph.java:689-692 | a node added at one level below its parent lies at the end of a root chain one longer than its level |
| PathSearch.BallStep | src/main/java/eu/centai/hypeq/structures/HyperGraph.java:677-700 | expanding a whole level reaches every hyperedge one s-step further, at a depth no larger than its s-distance from the root |
| PathSearch.Apart | src/main/java/eu/centai/hypeq/structures/HyperGraph.java:650-664 | while the trees searched to levels la and lb are disjoint, no s-walk from a to b has fewer than la + lb + 2 hyperedges |
| PathSearch.NewSide | src/main/java/eu/centai/hypeq/structures/HyperGraph.java:639-647 | a new tree holds only its root, queued at level 0, and its filter reports the root and the given false positives |
| PathSearch.SideClosed | src/main/java/eu/centai/hypeq/structures/HyperGraph.java:650-664 | once a side's queue is exhausted, its tree holds every hyperedge s-reachable from its root |
| PathSearch.Joined | src/main/java/eu/centai/hypeq/structures/HyperGraph.java:652-659 | the root paths joined at a shared node whose two depths add up to no more than a lower bound on the s-distance from a to b are the hyperedges of a shortest s-walk from a to b |
| PathSearch.NotMet | src/main/java/eu/centai/hypeq/structures/HyperGraph.java:650-665 | if the trees are disjoint when a queue runs out, b is not s-reachable from a |
| PathSearch.Progress | src/main/java/eu/centai/hypeq/structures/HyperGraph.java:650-664 | each round either visits new hyperedges or shortens the queues, so the loop ends |
| PathSearch.NoHit | src/main/java/eu/centai/hypeq/structures/HyperGraph.java:651-661 | a level that reaches nothing in the other filter leaves the two trees disjoint |
| PathSearch.HalfRound | src/main/java/eu/centai/hypeq/structures/HyperGraph.java:651-661 | one side expands its level, then the trees are intersected: the tree reaches one level further, a non-empty path is the joined root paths through a shared node and no smaller than the join at any other shared node, and an empty one leaves the trees disjoint |
| PathSearch.Round | src/main/java/eu/centai/hypeq/structures/HyperGraph.java:650-664 | a round either returns the hyperedges of a shortest s-walk from a to b, or keeps both sides consistent, disjoint and one level further while making progress |
| PathSearch.Meet | src/main/java/eu/centai/hypeq/structures/HyperGraph.java:650-665 | the search loop returns a non-empty path exactly when b is s-reachable from a, and that path is the hyperedge set of a shortest s-walk from a to b |
| PathSearch.BidirectionalSPSearch | src/main/java/eu/centai/hypeq/structures/HyperGraph.java:625-666 | a == b gives {a}; otherwise the result is non-empty exactly when b is s-reachable from a, and then it is the hyperedge set of a shortest s-walk from a to b |
| AllPaths.VisitNeighbour | src/main/java/eu/centai/hypeq/structures/HyperGraph.java:729-740 | an unvisited neighbour is recorded one level further with cur as its parent and queued unless it is e2; one already at that level gains cur as a further parent; anything else is left alone |
| AllPaths.ScanNeighbours | src/main/java/eu/centai/hypeq/structures/HyperGraph.java:728-741 | scanning all s-neighbours of the polled hyperedge keeps the search invariant for every neighbour handled |
| AllPaths.ScanOne | src/main/java/eu/centai/hypeq/structures/HyperGraph.java:728-741 | handling one neighbour keeps the scan invariant and removes that neighbour from those left |
| AllPaths.ExpandEntry | src/main/java/eu/centai/hypeq/structures/HyperGraph.java:725-741 | expanding a polled entry keeps the search invariant: levels are distances and every shortest-path parent is recorded |
| AllPaths.SearchStep | src/main/java/eu/centai/hypeq/structures/HyperGraph.java:725-741 | one poll keeps the search invariant and either visits new hyperedges or shortens the queue |
| AllPaths.Explore | src/main/java/eu/centai/hypeq/structures/HyperGraph.java:724-742 | the loop ends with an empty queue and the search invariant intact |
| AllPaths.Finished | src/main/java/eu/centai/hypeq/structures/HyperGraph.java:743 | the lattice's root paths to e2 are non-empty exactly when e2 is s-reachable, each is the node set of a shortest s-path, and every shortest s-path's node set is among them |
| AllPaths.Search | src/main/java/eu/centai/hypeq/structures/HyperGraph.java:718-743 | for distinct endpoints, the paths are non-empty exactly when e2 is s-reachable, all are node sets of shortest s-paths, and none is missed |
| AllPaths.FindAllPathsBetween | src/main/java/eu/centai/hypeq/structures/HyperGraph.java:710-744 | e1 == e2 gives [{e1}]; otherwise exactly the node sets of the shortest s-paths from e1 to e2, non-empty exactly when e2 is s-reachable |
| AllPathsState.Started | src/main/java/eu/centai/hypeq/structures/HyperGraph.java:718-723 | the initial lattice, visited map and queue satisfy the search invariant |
| AllPathsState.Polled | src/main/java/eu/centai/hypeq/structures/HyperGraph.java:725-727 | the head of the queue is the next entry to expand under the invariant |
| AllPathsState.NewLower | src/main/java/eu/centai/hypeq/structures/HyperGraph.java:732-733 | a hyperedge first met from level step has no s-walk shorter than step + 1 |
| AllPathsState.ReachedNew | src/main/java/eu/centai/hypeq/structures/HyperGraph.java:732-737 | recording a newly met hyperedge keeps the expansion invariant |
| AllPathsState.ReachedAgain | src/main/java/eu/centai/hypeq/structures/HyperGraph.java:738-739 | adding a second parent at the same level keeps the expansion invariant |
| AllPathsState.ParentedLayered | src/main/java/eu/centai/hypeq/structures/HyperGraph.java:733-739 | every recorded parent is one level below its child |
| AllPathsState.ChainWalk | src/main/java/eu/centai/hypeq/structures/HyperGraph.java:743 | every parent chain to a hyperedge, reversed, is an s-walk from e1 whose length is the hyperedge's level |
| AllPathsState.ChainShortest | src/main/java/eu/centai/hypeq/structures/HyperGraph.java:743 | every parent chain from e2 has as node set a shortest s-path from e1 to e2 |
| AllPathsState.ShortestWalkChain | src/main/java/eu/centai/hypeq/structures/HyperGraph.java:743 | every shortest s-walk from e1 to e2, reversed, is a parent chain of the lattice |
| AllPathsState.Closed | src/main/java/eu/centai/hypeq/structures/HyperGraph.java:724-742 | once the queue is empty, e2 is visited whenever it is s-reachable from e1 |
| AllPathsState.EarlyNotE2 | src/main/java/eu/centai/hypeq/structures/HyperGraph.java:735-737 | a shortest s-walk meets e2 only at its end, so not queuing e2 loses no shortest path |
| AllPathsState.UpperAlong | src/main/java/eu/centai/hypeq/structures/HyperGraph.java:724-742 | every hyperedge on a shortest walk to e2 is visited at a level no higher than its position |
| AllPathsState.LowerAlong | src/main/java/eu/centai/hypeq/structures/HyperGraph.java:724-742 | and at a level no lower than its position |
| SearchTrees.ToString | src/main/java/eu/centai/hypeq/structures/search/TreeNode.java:23-25 | the text of a tree node parses back to its id |
| SearchTrees.Tree.constructor | src/main/java/eu/centai/hypeq/structures/search/Tree.java:21-26 | an empty tree whose filter reports exactly the given false positives |
| SearchTrees.Tree.AddNode | src/main/java/eu/centai/hypeq/structures/search/Tree.java:33-37 | the new id is stored with its parent and enters the filter; nothing else changes |
| SearchTrees.Tree.GetPathToId | src/main/java/eu/centai/hypeq/structures/search/Tree.java:44-53 | the set of nodes met following parents from id up to the root marker |
| SearchTrees.Tree.PathToRoot | src/main/java/eu/centai/hypeq/structures/search/Tree.java:44-53 | the path from id holds id and only nodes, reaches a root, and is closed under parents |
| SearchTrees.Tree.ChainToPath | src/main/java/eu/centai/hypeq/structures/search/Tree.java:44-53 | the path is the node set of a parent-to-child chain from a root to id |
| SearchTrees.Tree.HasBeenVisited | src/main/java/eu/centai/hypeq/structures/search/Tree.java:62-67 | with exact, true exactly for stored nodes; otherwise the filter's answer, never false for a stored node |
| SearchTrees.Tree.GetNodes | src/main/java/eu/centai/hypeq/structures/search/Tree.java:69-71 | the stored ids, all of which the filter reports |
| SearchTrees.Tree.MightContain | src/main/java/eu/centai/hypeq/structures/search/Tree.java:103-105 | the filter has no false negatives: a stored id is always reported |
| SearchTrees.Tree.TreeIntersect | src/main/java/eu/centai/hypeq/structures/search/Tree.java:78-95 | empty exactly when the trees share no node; otherwise the joined root paths through a shared node whose joined paths are smallest |
| SearchTrees.Tree.FilterCandidates | src/main/java/eu/centai/hypeq/structures/search/Tree.java:79-82 | the candidates are nodes of this tree and include every node the two trees share |
| SearchTrees.Tree.SmallestJoin | src/main/java/eu/centai/hypeq/structures/search/Tree.java:86-94 | among the candidates the other tree holds, the join of smallest size; empty when it holds none |
| Lattices.LatticeNode.constructor | src/main/java/eu/centai/hypeq/structures/search/LatticeNode.java:15-21 | a node with the given id and the one parent given |
| Lattices.LatticeNode.AddParent | src/main/java/eu/centai/hypeq/structures/search/LatticeNode.java:27-29 | p is appended to the parents, keeping earlier ones |
| Lattices.Lattice.constructor | src/main/java/eu/centai/hypeq/structures/search/Lattice.java:21-24 | an empty lattice whose filter reports exactly the given false positives |
| Lattices.Lattice.AddNode | src/main/java/eu/centai/hypeq/structures/search/Lattice.java:26-34 | a known id gets the parent appended; a new id becomes a node with that one parent and enters the filter; the lattice stays layered |
| Lattices.Lattice.AppendParent | src/main/java/eu/centai/hypeq/structures/search/Lattice.java:27-28 | a known id gets the parent appended, nothing else changes |
| Lattices.Lattice.InsertNode | src/main/java/eu/centai/hypeq/structures/search/Lattice.java:29-33 | a new id becomes a node with one parent and enters the filter |
| Lattices.Lattice.GetNodes | src/main/java/eu/centai/hypeq/structures/search/Lattice.java:58-60 | the stored ids, all of which the filter reports |
| Lattices.Lattice.GetPathsToId | src/main/java/eu/centai/hypeq/structures/search/Lattice.java:36-41 | no paths for an id not stored; otherwise one path per parent chain from id to a root, each the chain's node set |
| Lattices.StepBackChains | src/main/java/eu/centai/hypeq/structures/search/Lattice.java:43-56 | stepBack returns, in order, the partial path joined with the nodes of each parent chain |
| Lattices.ChainsNonEmpty | src/main/java/eu/centai/hypeq/structures/search/Lattice.java:43-56 | every node has at least one parent chain, so a stored id gets at least one path |
| Lattices.ChainsAreChains | src/main/java/eu/centai/hypeq/structures/search/Lattice.java:43-56 | every chain enumerated from a node follows parent links to a root |
| Lattices.ChainsComplete | src/main/java/eu/centai/hypeq/structures/search/Lattice.java:43-56 | every parent chain from a node is enumerated: no path is missed |
| Lattices.RootPaths | src/main/java/eu/centai/hypeq/structures/search/Lattice.java:43-56 | a root whose only parent is the root marker has the single path holding itself |
| Lattices.LayeredExtend | src/main/java/eu/centai/hypeq/structures/search/Lattice.java:27-28 | appending a parent from a lower level keeps the lattice layered |
| Lattices.LayeredInsert | src/main/java/eu/centai/hypeq/structures/search/Lattice.java:29-33 | a new node above its one parent keeps the lattice layered |
| LineGraphs.LineGraph.constructor | src/main/java/eu/centai/hypeq/structures/LineGraph.java:30-37 | one node per hyperedge in input order, labelled with its id and size; the adjacency records, at both ends, the edges found for each hyperedge against those before it; the edge count is not yet computed |
| LineGraphs.LineGraph.FromParts | src/main/java/eu/centai/hypeq/structures/LineGraph.java:50-55 | a line graph holding the given nodes and adjacency, with the edge count not yet computed |
| LineGraphs.LineGraph.Initialize | src/main/java/eu/centai/hypeq/structures/LineGraph.java:119-146 | the nodes gain one node per hyperedge and the adjacency gains, at both ends, every edge found, hyperedge by hyperedge |
| LineGraphs.LineGraph.AddNodesAndFindEdges | src/main/java/eu/centai/hypeq/structures/LineGraph.java:127-141 | the loop appends one labelled node per hyperedge and collects the edges found for each one against the index of those before it |
| LineGraphs.LineGraph.Round | src/main/java/eu/centai/hypeq/structures/LineGraph.java:128-136 | one round adds the node of hyperedge k, finds its edges and adds it to the index |
| LineGraphs.LineGraph.AddNode | src/main/java/eu/centai/hypeq/structures/LineGraph.java:128 | appends a node whose index is the hyperedge's id and whose label is its number of vertices |
| LineGraphs.ScanHyperEdge | src/main/java/eu/centai/hypeq/structures/LineGraph.java:130-136 | the edges of hyperedge k are found against the index of the hyperedges before it, and k is then indexed |
| LineGraphs.IndexHyperEdge | src/main/java/eu/centai/hypeq/structures/LineGraph.java:132-136 | the index after adding h: each of h's vertices lists h's id at the end |
| LineGraphs.GetIndexAdd | src/main/java/eu/centai/hypeq/structures/LineGraph.java:132-136 | the list of v after adding h is the old one, plus h's id when h contains v |
| LineGraphs.IndexCount | src/main/java/eu/centai/hypeq/structures/LineGraph.java:132-136 | o is listed under v as many times as there are indexed hyperedges with id o containing v |
| LineGraphs.FindEdges | src/main/java/eu/centai/hypeq/structures/LineGraph.java:92-112 | the vertices are visited in some enumeration and the edges are one per entry of the counter over their index lists, skipping the hyperedge's own id |
| LineGraphs.CountVertex | src/main/java/eu/centai/hypeq/structures/LineGraph.java:98-102 | adding one vertex's index list bumps the counter of every id in it other than the hyperedge's own |
| LineGraphs.EmitEdges | src/main/java/eu/centai/hypeq/structures/LineGraph.java:104-109 | one labelled edge (self, id, count) per counter entry, and no other |
| LineGraphs.IndexWeights | src/main/java/eu/centai/hypeq/structures/LineGraph.java:92-136 | for distinct ids: every found edge leaves the hyperedge, leads to an earlier hyperedge and weighs their overlap, and every earlier hyperedge meeting it is found |
| LineGraphs.EdgeWeight | src/main/java/eu/centai/hypeq/structures/LineGraph.java:92-112 | the weight of a found edge is the overlap with the hyperedge it leads to |
| LineGraphs.EdgeTarget | src/main/java/eu/centai/hypeq/structures/LineGraph.java:92-112 | a found edge leads to an indexed hyperedge |
| LineGraphs.OverlapFound | src/main/java/eu/centai/hypeq/structures/LineGraph.java:92-112 | every indexed hyperedge other than the scanned one that meets it is found |
| LineGraphs.BuiltEdgesAreOverlaps | src/main/java/eu/centai/hypeq/structures/LineGraph.java:119-146 | with distinct ids, the edges found for hyperedge k are exactly its positive overlaps with the hyperedges before it |
| LineGraphs.LineGraph.InitializeVMap | src/main/java/eu/centai/hypeq/structures/LineGraph.java:178-190 | every edge is recorded at its source and at its destination, in list order |
| LineGraphs.VMapRecordsBothEnds | src/main/java/eu/centai/hypeq/structures/LineGraph.java:181-188 | each edge appears in the list of both its endpoints with its weight |
| LineGraphs.VMapSource | src/main/java/eu/centai/hypeq/structures/LineGraph.java:181-188 | every entry of an adjacency built from scratch comes from one of the edges, seen from one endpoint |
| LineGraphs.VMapSymmetric | src/main/java/eu/centai/hypeq/structures/LineGraph.java:181-188 | an adjacency built from edges is symmetric: every entry is mirrored at the other end with the same weight |
| LineGraphs.LineGraph.SetNodes | src/main/java/eu/centai/hypeq/structures/LineGraph.java:62-66 | the nodes are replaced and the adjacency emptied; the cached edge count is kept |
| LineGraphs.LineGraph.GetNumEdges | src/main/java/eu/centai/hypeq/structures/LineGraph.java:196-207 | on the first call the number of distinct unordered endpoint pairs, cached; afterwards the cached value |
| LineGraphs.PairsOfVMap | src/main/java/eu/centai/hypeq/structures/LineGraph.java:196-207 | over an adjacency built from edges, the pairs counted are exactly the unordered endpoint pairs of the edges |
| LineGraphs.LineGraph.GetNodeIDs | src/main/java/eu/centai/hypeq/structures/LineGraph.java:239-241 | exactly the indices of the nodes |
| LineGraphs.Kept | src/main/java/eu/centai/hypeq/structures/LineGraph.java:251-254 | the nodes of label at least s, and only those |
| LineGraphs.ProjectAdj | src/main/java/eu/centai/hypeq/structures/LineGraph.java:257-263 | each kept node's adjacency list, filtered to entries of weight at least s |
| LineGraphs.LineGraph.GetProjection | src/main/java/eu/centai/hypeq/structures/LineGraph.java:250-265 | a new line graph of the nodes with label at least s, each with its adjacency entries of weight at least s |
| LineGraphs.WrittenIndexAliases | src/main/java/eu/centai/hypeq/structures/LineGraph.java:124-136 | with the shared default list, hyperedges {1} and {2} end up listed together under vertex 1, so a third hyperedge meeting only the first is counted against both; the intended index lists only the first |
| LineGraphs.WrittenAdjacencyAliases | src/main/java/eu/centai/hypeq/structures/LineGraph.java:33 | with the shared default list, after the single edge (0, 1) every node, even an unknown one, lists both entries; the intended adjacency lists one entry at node 0 and none at node 7 |
| Labels.EqualsAsEndpointBags | src/main/java/eu/centai/hypeq/structures/LabeledEdge.java:27-35 | two edges are equal exactly when they have the same weight and the same endpoints, in either order |
| Labels.EqualsEquivalence | src/main/java/eu/centai/hypeq/structures/LabeledEdge.java:27-35 | edge equality is reflexive, symmetric and transitive |
| Labels.HashCode | src/main/java/eu/centai/hypeq/structures/LabeledEdge.java:37-40 | Objects.hash(src, dst, label): a 32-bit value computed from the fields in stored order |
| Labels.ReversedEdgeHashesDifferently | src/main/java/eu/centai/hypeq/structures/LabeledEdge.java:27-40 | the edge (0, 1) and its reverse are equal but hash differently, breaking the hashing contract |
| Labels.UnorientedHashCode | src/main/java/eu/centai/hypeq/structures/LabeledEdge.java:37-40 | the corrected hash: the fields hashed with the endpoints in increasing order |
| Labels.UnorientedHashConsistent | src/main/java/eu/centai/hypeq/structures/LabeledEdge.java:27-40 | equal edges have equal corrected hashes |
| Labels.EdgeTextInjective | src/main/java/eu/centai/hypeq/structures/LabeledEdge.java:18-21 | the text "[src-dst, label]" determines the edge |
| Labels.EdgeSimpleTextInjective | src/main/java/eu/centai/hypeq/structures/LabeledEdge.java:23-25 | the tab-separated text determines the edge |
| Labels.LabeledNode.constructor | src/main/java/eu/centai/hypeq/structures/LabeledNode.java:12-15 | the node holds the given index and label |
| Labels.LabeledNode.HashCode | src/main/java/eu/centai/hypeq/structures/LabeledNode.java:25-28 | Objects.hash(index, label): a 32-bit value |
| Labels.LabeledNode.SetIndex | src/main/java/eu/centai/hypeq/structures/LabeledNode.java:34-36 | changes the index and keeps the label |
| Labels.LabeledNode.SetLabel | src/main/java/eu/centai/hypeq/structures/LabeledNode.java:42-44 | changes the label and keeps the index |
| Labels.NodeEqualsConsistent | src/main/java/eu/centai/hypeq/structures/LabeledNode.java:17-28 | node equality is an equivalence and equal nodes hash alike |
| Labels.NodeEqualsDiscriminates | src/main/java/eu/centai/hypeq/structures/LabeledNode.java:17-23 | nodes differing in index or in label are not equal |
| Labels.NodeTextInjective | src/main/java/eu/centai/hypeq/structures/LabeledNode.java:46-49 | the text "(index,label)" determines the index and the label |
| LandmarkAssignment.Largest | src/main/java/eu/centai/hypeq/oracle/ls/LandMarkAssigner.java:181 | the largest component size |
| LandmarkAssignment.SquaresGrow | src/main/java/eu/centai/hypeq/oracle/ls/LandMarkAssigner.java:188-199 | one component's square is at most the running sum of squares, itself at most the full sum |
| LandmarkAssignment.ReachableSize | src/main/java/eu/centai/hypeq/oracle/ls/LandMarkAssigner.java:186-200 | the cut-off sum of squares exceeds the budget exactly when the full sum does, so the early exit decides the same test |
| LandmarkAssignment.CostBump | src/main/java/eu/centai/hypeq/oracle/ls/LandMarkAssigner.java:247-248 | one more landmark in component i adds its size to the estimated oracle size |
| LandmarkAssignment.DrawStep | src/main/java/eu/centai/hypeq/oracle/ls/LandMarkAssigner.java:244-249 | an increment keeps every count at most the component's size and keeps estOracleSize equal to the sum of counts times sizes |
| LandmarkAssignment.DrawLandmarks | src/main/java/eu/centai/hypeq/oracle/ls/LandMarkAssigner.java:239-255 | counts of selectable components only, each at most its size, estOracleSize their weighted sum; the loop ends at the budget or once every selectable component is full |
| LandmarkAssignment.PositiveWeights | src/main/java/eu/centai/hypeq/oracle/ls/LandMarkAssigner.java:207-230 | the selectable components are exactly those of positive weight |
| LandmarkAssignment.SelectNumLandmarks | src/main/java/eu/centai/hypeq/oracle/ls/LandMarkAssigner.java:166-256 | an exception when alpha + beta > 1; zeros when the largest size is at most 2; the sizes themselves when the sum of squares fits the budget; otherwise DrawLandmarks over the positive-weight components |
| LandmarkAssignment.AtLeastPairsSpec | src/main/java/eu/centai/hypeq/oracle/ls/LandMarkAssigner.java:147-151 | every positive count is raised to at least 2, zeros stay 0 |
| LandmarkAssignment.WithLandmarks | src/main/java/eu/centai/hypeq/oracle/ls/LandMarkAssigner.java:111-118 | the components with at least one landmark |
| LandmarkAssignment.DrawSamples | src/main/java/eu/centai/hypeq/oracle/ls/LandMarkAssigner.java:127-144 | counts only for components with landmarks, each at most its size; either the total reaches totalItems or every such component is full (the early return) |
| LandmarkAssignment.RaiseToPairs | src/main/java/eu/centai/hypeq/oracle/ls/LandMarkAssigner.java:147-151 | the counts become AtLeastPairs of the old counts |
| LandmarkAssignment.SelectSampleSizes | src/main/java/eu/centai/hypeq/oracle/ls/LandMarkAssigner.java:86-153 | zeros when the largest size is at most 2 or no component has landmarks; otherwise the drawn counts, floored at 2 only on normal loop exit |
| LandmarkAssignment.NoLandmarksNoSample | src/main/java/eu/centai/hypeq/oracle/ls/LandMarkAssigner.java:107-118 | a component without landmarks always gets sample size 0 |
| LandmarkAssignment.Truncate | src/main/java/eu/centai/hypeq/oracle/ls/LandMarkAssigner.java:71 | the (int) cast of a double: truncation toward zero |
| LandmarkAssignment.Masked | src/main/java/eu/centai/hypeq/oracle/ls/LandMarkAssigner.java:61-65 | the s-values of size-0 components are zeroed |
| LandmarkAssignment.AssignLandmarksAndSizes | src/main/java/eu/centai/hypeq/oracle/ls/LandMarkAssigner.java:49-75 | landmark counts from the masked s-values; sample sizes only for methods other than bestcover/between, all zero otherwise |
| Utils.Intersect | src/main/java/eu/centai/hypeq/utils/Utils.java:31-38 | true exactly when the sets share an element |
| Utils.Intersection | src/main/java/eu/centai/hypeq/utils/Utils.java:46-50 | a new set of exactly the common elements |
| Utils.IntersectionSize | src/main/java/eu/centai/hypeq/utils/Utils.java:58-60 | the number of common elements, at most either size |
| Utils.CappedIntersectionSize | src/main/java/eu/centai/hypeq/utils/Utils.java:69-80 | min(common count, maxI), where a cap below 1 acts as 1 |
| Utils.PrefixSums | src/main/java/eu/centai/hypeq/utils/Utils.java:87-94 | entry i is the 32-bit wrapped sum of the first i+1 entries |
| Utils.CumSum | src/main/java/eu/centai/hypeq/utils/Utils.java:87-94 | overwrites the array with its prefix sums and returns the same array |
| Utils.ArgMax | src/main/java/eu/centai/hypeq/utils/Utils.java:130-140 | 0 on an empty array, otherwise the first index of a maximum |
| Utils.ArgMin | src/main/java/eu/centai/hypeq/utils/Utils.java:164-174 | 0 on an empty array, otherwise the first index of a minimum |
| Utils.DotToSymmetric | src/main/java/eu/centai/hypeq/utils/Utils.java:199-208 | the dot product is symmetric |
| Utils.DotLoop | src/main/java/eu/centai/hypeq/utils/Utils.java:199-208 | the 32-bit wrapped sum of the first n products |
| Utils.VDot | src/main/java/eu/centai/hypeq/utils/Utils.java:199-208 | an exception on a length mismatch, otherwise the 32-bit dot product |
| Utils.Dot | src/main/java/eu/centai/hypeq/utils/Utils.java:233-244 | an exception when the first row's length differs, otherwise each row's 32-bit dot product with b |
| Utils.Abs32 | src/main/java/eu/centai/hypeq/utils/Utils.java:268-277 | Java's Math.abs on int, with MIN_VALUE mapping to itself |
| Utils.Abs | src/main/java/eu/centai/hypeq/utils/Utils.java:268-277 | an exception on a length mismatch, otherwise the elementwise absolute differences |
| Utils.Sum32 | src/main/java/eu/centai/hypeq/utils/Utils.java:284-290 | the 32-bit wrapped sum, the exact sum when that fits |
| Utils.SelectItems | src/main/java/eu/centai/hypeq/utils/Utils.java:394-411 | [] for fewer than two candidates or numItems 0; all candidates when their count equals numItems; otherwise numItems distinct candidates |
| Utils.SamplePairs | src/main/java/eu/centai/hypeq/utils/Utils.java:370-384 | the pairs of consecutive selected items, plus (first, last) for an odd count; nothing for fewer than two candidates or size 0 |
| Utils.Selectable | src/main/java/eu/centai/hypeq/utils/Utils.java:430-435 | the lists with more than two elements |
| Utils.CountCandidatePairs | src/main/java/eu/centai/hypeq/utils/Utils.java:436-446 | the pair count of the selectable lists, cut off once it passes the budget without changing the comparison |
| Utils.SampleInLists | src/main/java/eu/centai/hypeq/utils/Utils.java:423-480 | keeps the sample; adds every ordered pair of the selectable lists when they fit the remaining budget; otherwise adds distinct-element pairs until the budget is met |
| Utils.AllPairsOrdered | src/main/java/eu/centai/hypeq/utils/Utils.java:451-460 | every enumerated pair has its smaller id first |
| Text.IntToStringRoundTrip | src/main/java/eu/centai/hypeq/structures/LabeledEdge.java:19-21 | the decimal text of an integer parses back to it |
| Text.IntToStringInjective | src/main/java/eu/centai/hypeq/structures/LabeledEdge.java:19-21 | distinct integers have distinct decimal texts |
| Text.EqualsIgnoreCaseEquivalence | src/main/java/eu/centai/hypeq/structures/HyperGraph.java:613-614 | ASCII case-insensitive equality is an equivalence |
| Best.Prefer | src/main/java/eu/centai/hypeq/oracle/structures/DistanceOracle.java:488-491 | the kept answer is replaced only by a non-sentinel answer with a strictly smaller estimate |
| Best.PreferStep | src/main/java/eu/centai/hypeq/oracle/structures/DistanceOracle.java:486-493 | offering one more answer keeps the non-sentinel answer with the smallest estimate among all offered, or none when all were sentinels |
| Best.ScanStep | src/main/java/eu/centai/hypeq/oracle/structures/DistanceOracle.java:486-493 | the invariant of the nested scan survives one more successful query |
| BioConsertSearch.ContiguousGapless | src/main/java/eu/centai/hypeq/oracle/ls/ra/BioConsert.java:140 | a ranking whose buckets are exactly 0..top has no empty bucket |
| BioConsertSearch.GaplessContiguous | src/main/java/eu/centai/hypeq/oracle/ls/ra/BioConsert.java:140 | a gapless ranking whose largest bucket is top uses exactly buckets 0..top |
| BioConsertSearch.MaxBucket | src/main/java/eu/centai/hypeq/oracle/ls/ra/BioConsert.java:140 | the largest bucket id of a non-empty ranking, one that is used |
| BioConsertSearch.ShiftStay | src/main/java/eu/centai/hypeq/oracle/ls/ra/BioConsert.java:232-301 | leaving an element in its own bucket changes the distance by 0 |
| BioConsertSearch.ChangeStep | src/main/java/eu/centai/hypeq/oracle/ls/ra/BioConsert.java:167-194 | the change-bucket half of one element's turn: the ranking stays contiguous, the distance moves by exactly 2*diff, a move strictly lowers it, no ranking first memoised here is closer, and the returned add costs are the exact insertion deltas of the new ranking |
| BioConsertSearch.ImproveAt | src/main/java/eu/centai/hypeq/oracle/ls/ra/BioConsert.java:165-212 | one element's turn keeps the ranking contiguous, changes the distance by exactly 2*diff, strictly lowers it when something moved, and otherwise leaves the element with no improving move |
| BioConsertSearch.BioConsert | src/main/java/eu/centai/hypeq/oracle/ls/ra/BioConsert.java:136-216 | the returned distance is that of the final ranking, which is never farther than the input; it stays contiguous; on convergence no single move of any element improves it |
| BucketMoves.ChangeBucket | src/main/java/eu/centai/hypeq/oracle/ls/ra/BioConsert.java:338-352 | the ranking becomes Changed: element goes to new_pos and, when it was alone, every bucket above old_pos moves down one |
| BucketMoves.AddBucket | src/main/java/eu/centai/hypeq/oracle/ls/ra/BioConsert.java:388-418 | the ranking becomes Added: element gets a bucket of its own at new_pos, the buckets in between shifting to make room |
| BucketMoves.ChangedMoves | src/main/java/eu/centai/hypeq/oracle/ls/ra/BioConsert.java:338-352 | changing the bucket of a lone or shared element is exactly the move Change(newPos) on the relative order |
| BucketMoves.ChangedContiguous | src/main/java/eu/centai/hypeq/oracle/ls/ra/BioConsert.java:338-352 | a change keeps the buckets contiguous, with one fewer bucket when the element was alone, and leaves the element not alone |
| BucketMoves.AddedMoves | src/main/java/eu/centai/hypeq/oracle/ls/ra/BioConsert.java:388-418 | adding a bucket is exactly the move Insert(newPos) on the relative order |
| BucketMoves.AddedContiguous | src/main/java/eu/centai/hypeq/oracle/ls/ra/BioConsert.java:388-418 | adding a bucket keeps the buckets contiguous, with one more bucket when the element was not alone |
| BucketMoves.FirstLeastUnique | src/main/java/eu/centai/hypeq/oracle/ls/ra/BioConsert.java:318-323 | there is only one first position of the least negative cost |
| BucketMoves.FirstSmallestExists | src/main/java/eu/centai/hypeq/oracle/ls/ra/BioConsert.java:318-323 | a non-empty cost list has a first position of its least value |
| BucketMoves.LeastNegative | src/main/java/eu/centai/hypeq/oracle/ls/ra/BioConsert.java:315-323 | found exactly when some cost is negative, and then the first position of the least cost |
| BucketMoves.SearchToChangeBucket | src/main/java/eu/centai/hypeq/oracle/ls/ra/BioConsert.java:311-328 | either no move (-1, 0) or a target bucket up to max_id_bucket, other than the current one, holding the first least negative cost, with that cost; -1 only when the best is the current bucket or past max_id_bucket |
| BucketMoves.SearchToAddBucket | src/main/java/eu/centai/hypeq/oracle/ls/ra/BioConsert.java:362-378 | the same for a new bucket position up to max_id_bucket + 1 |
| BucketMoves.NothingFound | src/main/java/eu/centai/hypeq/oracle/ls/ra/BioConsert.java:318-327 | when the search finds nothing, every cost is non-negative or the least one is at the element's own bucket |
| DeltaCosts.OverValue | src/main/java/eu/centai/hypeq/oracle/ls/ra/BioConsert.java:288-296 | a window sum of one element's two spikes is the spikes that fall in the window |
| DeltaCosts.RawSplit | src/main/java/eu/centai/hypeq/oracle/ls/ra/BioConsert.java:246-286 | the raw delta array is the part from elements in other buckets plus the leave-bucket spike of the tied elements |
| DeltaCosts.ColStep | src/main/java/eu/centai/hypeq/oracle/ls/ra/BioConsert.java:246-271 | a window sum over the first J elements grows by the J-th element's contribution |
| DeltaCosts.SpikeTerm | src/main/java/eu/centai/hypeq/oracle/ls/ra/BioConsert.java:249-266 | the window of a target bucket sums an element's spikes to exactly that element's change in pair cost for the move |
| DeltaCosts.ColShift | src/main/java/eu/centai/hypeq/oracle/ls/ra/BioConsert.java:246-296 | the window sum over all elements is exactly the change in distance of the move to that bucket |
| DeltaCosts.RunningSums | src/main/java/eu/centai/hypeq/oracle/ls/ra/BioConsert.java:288-296 | entries lo..hi-1 become prefix sums of the old entries from lo; the rest is unchanged |
| DeltaCosts.TrailingSums | src/main/java/eu/centai/hypeq/oracle/ls/ra/BioConsert.java:288-296 | entries lo..hi-1 become suffix sums of the old entries up to hi; the rest is unchanged |
| DeltaCosts.AddApart | src/main/java/eu/centai/hypeq/oracle/ls/ra/BioConsert.java:249-266 | an element in another bucket adds its two spikes to each array |
| DeltaCosts.ApartDeltas | src/main/java/eu/centai/hypeq/oracle/ls/ra/BioConsert.java:237-271 | after the scan the arrays hold the raw deltas of elements in other buckets, and same lists, in order, the elements tied with the element |
| DeltaCosts.LeaveCosts | src/main/java/eu/centai/hypeq/oracle/ls/ra/BioConsert.java:273-278 | the leave-bucket costs are the summed cost rows of the tied elements |
| DeltaCosts.AddLeave | src/main/java/eu/centai/hypeq/oracle/ls/ra/BioConsert.java:279-286 | the leave-bucket costs are added around the element's bucket |
| DeltaCosts.RawDeltas | src/main/java/eu/centai/hypeq/oracle/ls/ra/BioConsert.java:237-286 | before the sums, every entry is the raw delta of the source's scan |
| DeltaCosts.SameAlone | src/main/java/eu/centai/hypeq/oracle/ls/ra/BioConsert.java:300 | the element is alone in its bucket exactly when it is the only one the scan finds tied with it |
| DeltaCosts.ComputeDeltaCosts | src/main/java/eu/centai/hypeq/oracle/ls/ra/BioConsert.java:232-301 | change[b] is exactly the change in distance of moving the element into bucket b and add[b] of giving it a new bucket at b, each ending in the -1 sentinel; alone reports whether it is alone |
| DeltaCosts.AsWrittenFromCur | src/main/java/eu/centai/hypeq/oracle/ls/ra/BioConsert.java:288-291 | the source's prefix sums price correctly every target at or to the right of the element's bucket |
| DeltaCosts.ForwardSumsMisprice | src/main/java/eu/centai/hypeq/oracle/ls/ra/BioConsert.java:288-289 | for element 2 of ranking [0,1,2] the source prices the move to bucket 0 at -1 although it raises the distance by 1 |
| Departures.SameBucket | src/main/java/eu/centai/hypeq/oracle/ls/ra/BioConsert.java:446-448 | in disjoint buckets an element has one bucket |
| Departures.Largest | src/main/java/eu/centai/hypeq/oracle/ls/ra/BioConsert.java:440 | the largest key of a non-empty key set |
| Departures.SortedKeys | src/main/java/eu/centai/hypeq/oracle/ls/ra/BioConsert.java:515-516 | the score keys in increasing order, each once |
| Departures.FromScoreToRankAsWritten | src/main/java/eu/centai/hypeq/oracle/ls/ra/BioConsert.java:512-529 | bucket i holds the elements of the i-th smallest score, whichever reverse is |
| Departures.ReverseIgnored | src/main/java/eu/centai/hypeq/oracle/ls/ra/BioConsert.java:519-523 | with scores {1:{7}, 2:{8}} both directions put 7 first in the source, though reverse should put 8 first |
| Departures.FromScoreToRank | src/main/java/eu/centai/hypeq/oracle/ls/ra/BioConsert.java:512-529 | bucket i holds the elements of the i-th smallest score, or of the i-th largest when reverse |
| Departures.RankedOrder | src/main/java/eu/centai/hypeq/oracle/ls/ra/BioConsert.java:512-529 | an element in an earlier bucket has a smaller score, or a larger one when reverse |
| Departures.RankedKeeps | src/main/java/eu/centai/hypeq/oracle/ls/ra/BioConsert.java:512-529 | ranking keeps non-empty and disjoint buckets and lists exactly the elements the scores list |
| Departures.RankedShape | src/main/java/eu/centai/hypeq/oracle/ls/ra/BioConsert.java:512-529 | the buckets are numbered 0..n-1 and none exist exactly when there are no scores |
| Departures.Elements | src/main/java/eu/centai/hypeq/oracle/ls/ra/BioConsert.java:67-72 | the elements listed in any bucket |
| Departures.Enumerate | src/main/java/eu/centai/hypeq/oracle/ls/ra/BioConsert.java:63-72 | canonical ids 0..n-1 in a bijection with the distinct elements |
| Departures.PlaceBucket | src/main/java/eu/centai/hypeq/oracle/ls/ra/BioConsert.java:446-448 | every element of the bucket gets the bucket's position; other entries are unchanged |
| Departures.DepartureRow | src/main/java/eu/centai/hypeq/oracle/ls/ra/BioConsert.java:439-450 | each element gets its bucket's key and an unlisted one gets the largest key plus one |
| Departures.DepartureRankings | src/main/java/eu/centai/hypeq/oracle/ls/ra/BioConsert.java:428-453 | one departure row per ranking, each as DepartureRow states |
| Departures.DepartureGapless | src/main/java/eu/centai/hypeq/oracle/ls/ra/BioConsert.java:428-453 | a departure row of dense non-empty buckets has no empty bucket |
| MedianRanking.MembersIn | src/main/java/eu/centai/hypeq/oracle/ls/ra/BioConsert.java:111-117 | the members gathered for bucket b are exactly the elements the best ranking puts there |
| MedianRanking.MembersUsed | src/main/java/eu/centai/hypeq/oracle/ls/ra/BioConsert.java:111-117 | a bucket's group is non-empty exactly when some element uses it |
| MedianRanking.GroupByBucket | src/main/java/eu/centai/hypeq/oracle/ls/ra/BioConsert.java:111-122 | the groups, in increasing bucket order, are the elements of each used bucket |
| MedianRanking.GroupOf | src/main/java/eu/centai/hypeq/oracle/ls/ra/BioConsert.java:111-122 | each element is in exactly one group, that of its bucket |
| MedianRanking.GroupMember | src/main/java/eu/centai/hypeq/oracle/ls/ra/BioConsert.java:111-122 | every member of a group comes from an element placed in that bucket |
| MedianRanking.BestRanking | src/main/java/eu/centai/hypeq/oracle/ls/ra/BioConsert.java:89-108 | each departure is improved by BioConsert to a ranking no farther away, and the chosen one is the closest of them |
| MedianRanking.MedianOf | src/main/java/eu/centai/hypeq/oracle/ls/ra/BioConsert.java:85-122 | the output groups a ranking no farther from the weighted departures than any of them |
| MedianRanking.ElementCount | src/main/java/eu/centai/hypeq/oracle/ls/ra/BioConsert.java:73-81 | there are no elements exactly when there are no buckets, one exactly when a single element is listed, two or more otherwise |
| MedianRanking.ComputeMedianRanking | src/main/java/eu/centai/hypeq/oracle/ls/ra/BioConsert.java:42-123 | no elements gives []; one element x gives [[x]]; otherwise a grouping of every element whose ranking is no farther than any departure ranking; none when a ranking is empty or fewer than four weights are given |
| MedianRanking.HeadListed | src/main/java/eu/centai/hypeq/oracle/ls/ra/BioConsert.java:111-122 | the first bucket of the median is non-empty and lists only ranked elements |
| DeltaCosts.ChangeAsWritten | src/main/java/eu/centai/hypeq/oracle/ls/ra/BioConsert.java:288-289 | the change costs as the source leaves them, one entry per bucket plus one |
| DeltaCosts.AddAsWritten | src/main/java/eu/centai/hypeq/oracle/ls/ra/BioConsert.java:290-291 | the insertion costs as the source leaves them, one entry per gap between buckets |
| RankCosts.Order | src/main/java/eu/centai/hypeq/oracle/ls/ra/BioConsert.java:478-487 | the relation of two positions: Before exactly when smaller, After exactly when larger |
| RankCosts.SwapCost | src/main/java/eu/centai/hypeq/oracle/ls/ra/BioConsert.java:499-500 | the mirrored entry prices the flipped relation as the original prices the relation |
| RankCosts.OrderFlip | src/main/java/eu/centai/hypeq/oracle/ls/ra/BioConsert.java:499-500 | seen from the other element, the relation flips |
| RankCosts.TallySwap | src/main/java/eu/centai/hypeq/oracle/ls/ra/BioConsert.java:476-489 | tallying the pair the other way round swaps the earlier and later votes |
| RankCosts.MatrixConsistent | src/main/java/eu/centai/hypeq/oracle/ls/ra/BioConsert.java:463-504 | the cost matrix is square, mirrored across the diagonal with swapped costs, and zero on it |
| RankCosts.TallyIntegral | src/main/java/eu/centai/hypeq/oracle/ls/ra/BioConsert.java:476-489 | with whole-number weights no truncation occurs: the votes are the summed weights of the rankings placing the pair each way, together the total weight |
| RankCosts.WeightFlip | src/main/java/eu/centai/hypeq/oracle/ls/ra/BioConsert.java:476-489 | the weight of rankings placing e2 relative to e1 one way is that of e1 relative to e2 the flipped way |
| RankCosts.EntryCountsDisagreements | src/main/java/eu/centai/hypeq/oracle/ls/ra/BioConsert.java:490-500 | with whole-number weights each cost is the weight of the rankings that disagree with that placement, and the three costs sum to twice the total weight |
| RankCosts.TallyPair | src/main/java/eu/centai/hypeq/oracle/ls/ra/BioConsert.java:473-489 | the loop's votes are the Tally of all rankings on the pair |
| RankCosts.FillRow | src/main/java/eu/centai/hypeq/oracle/ls/ra/BioConsert.java:472-501 | one outer iteration fills row e1 and its mirrored column |
| RankCosts.CostMatrix | src/main/java/eu/centai/hypeq/oracle/ls/ra/BioConsert.java:463-504 | the result is MatrixOf the departures, which is consistent |
| RankDistance.RowOther | src/main/java/eu/centai/hypeq/oracle/ls/ra/BioConsert.java:232-301 | moving one element changes another element's row cost by that pair's term |
| RankDistance.RowMoved | src/main/java/eu/centai/hypeq/oracle/ls/ra/BioConsert.java:232-301 | moving an element changes its own row cost by the move's shift |
| RankDistance.DistChange | src/main/java/eu/centai/hypeq/oracle/ls/ra/BioConsert.java:181-202 | moving one element changes the doubled distance by exactly twice the move's shift, which is why the source adds the delta cost to dst |
| RankDistance.BeforeIsAfter | src/main/java/eu/centai/hypeq/oracle/ls/ra/BioConsert.java:144-156 | over all pairs the before costs equal the after costs |
| RankDistance.DistByParts | src/main/java/eu/centai/hypeq/oracle/ls/ra/BioConsert.java:144-156 | the doubled distance is twice the before (or after) sum plus the tied sum, as the source's loop counts it |
| RankDistance.InitialDistance | src/main/java/eu/centai/hypeq/oracle/ls/ra/BioConsert.java:139-156 | the initial dst is half the doubled distance of the ranking |
| RankDistance.DistAtLeast | src/main/java/eu/centai/hypeq/oracle/ls/ra/BioConsert.java:162-214 | the distance is bounded below, so strictly improving moves cannot go on for ever |
| RankDistance.RowAtLeast | src/main/java/eu/centai/hypeq/oracle/ls/ra/BioConsert.java:162-214 | every row cost is at least the sum of its smallest costs |
| SelectorBasics.StrategyNamed | src/main/java/eu/centai/hypeq/oracle/ls/LandMarkSelector.java:409-426 | the method name picks degree, farthest, bestcover or between case-insensitively, each exactly for its own name |
| SelectorBasics.NamesDistinct | src/main/java/eu/centai/hypeq/oracle/ls/LandMarkSelector.java:409-426 | every other name falls through to random selection |
| SelectorBasics.SDegree | src/main/java/eu/centai/hypeq/oracle/ls/LandMarkSelector.java:515 | the number of s-neighbours of a hyperedge |
| SelectorBasics.LeastDegree | src/main/java/eu/centai/hypeq/oracle/ls/LandMarkSelector.java:507-518 | the head of the min-heap: a kept element of least s-degree |
| SelectorBasics.MostDegree | src/main/java/eu/centai/hypeq/oracle/ls/LandMarkSelector.java:536-545 | the head of the descending sort: a candidate of greatest s-degree |
| SelectorBasics.GetSFromPos | src/main/java/eu/centai/hypeq/oracle/ls/LandMarkSelector.java:390-397 | the position of the component in the flat arrays mapped to its s |
| SelectorBasics.SOfFirst | src/main/java/eu/centai/hypeq/oracle/ls/LandMarkSelector.java:390-397 | -1 exactly when no cumulative count exceeds pos, otherwise 1 + the first index whose count exceeds pos |
| SelectorBasics.SFromFirst | src/main/java/eu/centai/hypeq/oracle/ls/LandMarkSelector.java:391-395 | the same, for the scan from index i on |
| SelectorBasics.SOfInBlock | src/main/java/eu/centai/hypeq/oracle/ls/LandMarkSelector.java:304-306 | for a position inside the counted blocks, s lies in 1..levels and pos minus the block start indexes into that level's component list |
| SelectorBasics.MinDistTo | src/main/java/eu/centai/hypeq/oracle/ls/LandMarkSelector.java:615-618 | the smallest distance to e over the landmark maps |
| SelectorBasics.MinDistIs | src/main/java/eu/centai/hypeq/oracle/ls/LandMarkSelector.java:615-618 | that value is at most every landmark's distance (MAX_VALUE when absent) and is attained unless it is MAX_VALUE |
| SelectionParts.CountPaths | src/main/java/eu/centai/hypeq/oracle/ls/LandMarkSelector.java:696-701 | counts holds, for every candidate on some path, the number of paths holding it |
| SelectionParts.CountPath | src/main/java/eu/centai/hypeq/oracle/ls/LandMarkSelector.java:697-701 | one more path tallied into the counts |
| SelectionParts.TallyStep | src/main/java/eu/centai/hypeq/oracle/ls/LandMarkSelector.java:698-700 | one vertex of a path tallied |
| SelectionParts.CountPositive | src/main/java/eu/centai/hypeq/oracle/ls/LandMarkSelector.java:696-701 | a count is positive exactly when some counted path holds the vertex |
| SelectionParts.CountDrop | src/main/java/eu/centai/hypeq/oracle/ls/LandMarkSelector.java:714-720 | dropping a path from the present set lowers each count by 1 exactly for the vertices it holds |
| SelectionParts.CountMono | src/main/java/eu/centai/hypeq/oracle/ls/LandMarkSelector.java:714-720 | fewer present paths never raise a count |
| SelectionParts.MostCounted | src/main/java/eu/centai/hypeq/oracle/ls/LandMarkSelector.java:705-710 | the head of the descending sort: a key of greatest count |
| SelectionParts.DecrementPath | src/main/java/eu/centai/hypeq/oracle/ls/LandMarkSelector.java:716-718 | every unchosen candidate on the path loses one, nothing else changes |
| SelectionParts.DropPath | src/main/java/eu/centai/hypeq/oracle/ls/LandMarkSelector.java:715-720 | clearing one present path keeps counts equal to the number of present paths holding each unchosen candidate |
| SelectionParts.DropCovering | src/main/java/eu/centai/hypeq/oracle/ls/LandMarkSelector.java:714-721 | every present path holding the new landmark is cleared, with counts kept exact |
| SelectionParts.CoverRound | src/main/java/eu/centai/hypeq/oracle/ls/LandMarkSelector.java:704-721 | one round picks an unchosen candidate covering the most present paths and clears those paths |
| SelectionParts.CoverRounds | src/main/java/eu/centai/hypeq/oracle/ls/LandMarkSelector.java:704-722 | at most k landmarks, all candidates; fewer than k only once no path is present or no candidate covers any path |
| SelectionParts.SortingStep | src/main/java/eu/centai/hypeq/oracle/ls/LandMarkSelector.java:830-832 | appending a largest remaining count keeps the list sorted by non-increasing count |
| SelectionParts.SortByCount | src/main/java/eu/centai/hypeq/oracle/ls/LandMarkSelector.java:830-832 | every key once, by non-increasing count |
| SelectionParts.DistinctPrefix | src/main/java/eu/centai/hypeq/oracle/ls/LandMarkSelector.java:834-840 | the first i entries of a repeat-free list are i distinct elements |
| SelectionParts.PrefixTop | src/main/java/eu/centai/hypeq/oracle/ls/LandMarkSelector.java:834-840 | the first m sorted entries are a top-m choice by count |
| SelectionParts.Kept | src/main/java/eu/centai/hypeq/oracle/ls/LandMarkSelector.java:723-727 | the present paths in order, no more than there were |
| SelectionParts.KeptIsPresent | src/main/java/eu/centai/hypeq/oracle/ls/LandMarkSelector.java:723-727 | every kept path is a present one and every present path is kept |
| SelectionParts.Compact | src/main/java/eu/centai/hypeq/oracle/ls/LandMarkSelector.java:723-727 | the paths left are exactly the present ones |
| SelectionParts.CompactAsWritten | src/main/java/eu/centai/hypeq/oracle/ls/LandMarkSelector.java:723-727 | removal inside the index loop, so an entry that slides into a removed slot is skipped |
| SelectionParts.CompactKeepsCovered | src/main/java/eu/centai/hypeq/oracle/ls/LandMarkSelector.java:723-727 | with two cleared paths the as-written loop keeps the second, where none should stay |
| IncrementalSelection.RandomOne | src/main/java/eu/centai/hypeq/oracle/ls/LandMarkSelector.java:486-491 | one candidate moved to the landmarks; nothing when there are no candidates |
| IncrementalSelection.DegreeOne | src/main/java/eu/centai/hypeq/oracle/ls/LandMarkSelector.java:535-548 | one candidate of greatest s-degree moved to the landmarks |
| IncrementalSelection.RecordFrom | src/main/java/eu/centai/hypeq/oracle/ls/LandMarkSelector.java:643-651 | one landmark's BFS distances recorded under each candidate it reaches |
| IncrementalSelection.GatherDistances | src/main/java/eu/centai/hypeq/oracle/ls/LandMarkSelector.java:642-652 | Ldist keyed by candidate then landmark, holding the true s-distance for every reaching landmark |
| IncrementalSelection.RowMinOf | src/main/java/eu/centai/hypeq/oracle/ls/LandMarkSelector.java:656-660 | the least distance recorded for a candidate |
| IncrementalSelection.RowMinIs | src/main/java/eu/centai/hypeq/oracle/ls/LandMarkSelector.java:656-660 | that least distance is positive for a non-landmark, at most every landmark's distance, and attained unless MAX_VALUE |
| IncrementalSelection.FarthestScanAsWritten | src/main/java/eu/centai/hypeq/oracle/ls/LandMarkSelector.java:654-665 | the scan over Ldist.values() reads the rows by the candidate id |
| IncrementalSelection.ByCandidateBlind | src/main/java/eu/centai/hypeq/oracle/ls/LandMarkSelector.java:642-660 | on a gathered Ldist that read gives MAX_VALUE for every candidate, so the scan cannot tell candidates apart |
| IncrementalSelection.FarthestTies | src/main/java/eu/centai/hypeq/oracle/ls/LandMarkSelector.java:654-665 | two candidates at distances 1 and 2 both read MAX_VALUE as written, 1 and 2 by their own rows |
| IncrementalSelection.FarthestScan | src/main/java/eu/centai/hypeq/oracle/ls/LandMarkSelector.java:654-665 | -1 on no candidates; otherwise a candidate whose least landmark distance is greatest |
| IncrementalSelection.FarthestOne | src/main/java/eu/centai/hypeq/oracle/ls/LandMarkSelector.java:640-668 | moves a candidate farthest from the landmarks, -1 only when there are no candidates |
| IncrementalSelection.IndexPath | src/main/java/eu/centai/hypeq/oracle/ls/LandMarkSelector.java:769-773 | path i recorded under each hyperedge it holds |
| IncrementalSelection.IndexPaths | src/main/java/eu/centai/hypeq/oracle/ls/LandMarkSelector.java:766-774 | the path index over all sampled paths, on top of the old map |
| IncrementalSelection.KeepsBase | src/main/java/eu/centai/hypeq/oracle/ls/LandMarkSelector.java:766-774 | indexing never drops a key |
| IncrementalSelection.EmptyIndex | src/main/java/eu/centai/hypeq/oracle/ls/LandMarkSelector.java:764-785 | the index stays empty only when no path was found |
| IncrementalSelection.MostPaths | src/main/java/eu/centai/hypeq/oracle/ls/LandMarkSelector.java:777-787 | a hyperedge on the most paths |
| IncrementalSelection.Covered | src/main/java/eu/centai/hypeq/oracle/ls/LandMarkSelector.java:791-795 | the chosen key removed and its paths taken out of every other entry |
| IncrementalSelection.DropCovered | src/main/java/eu/centai/hypeq/oracle/ls/LandMarkSelector.java:791-795 | computes Covered with toRemove copied first |
| IncrementalSelection.CoveredBefore | src/main/java/eu/centai/hypeq/oracle/ls/LandMarkSelector.java:791-795 | the as-written removal, where toRemove is the live set of the chosen key |
| IncrementalSelection.DropCoveredAsWritten | src/main/java/eu/centai/hypeq/oracle/ls/LandMarkSelector.java:791-795 | removeAll in key order: once the chosen key's own set is emptied, later entries keep their paths |
| IncrementalSelection.AliasedRemoval | src/main/java/eu/centai/hypeq/oracle/ls/LandMarkSelector.java:791-795 | with the chosen key visited first, another hyperedge keeps a covered path |
| IncrementalSelection.Resample | src/main/java/eu/centai/hypeq/oracle/ls/LandMarkSelector.java:764-775 | paths are sampled and indexed only when needed; the old index otherwise |
| IncrementalSelection.BestCoverOne | src/main/java/eu/centai/hypeq/oracle/ls/LandMarkSelector.java:752-796 | one candidate moved: the only one, else a hyperedge on the most paths with its paths removed, else a top-degree candidate |
| IncrementalSelection.BetweennessOne | src/main/java/eu/centai/hypeq/oracle/ls/LandMarkSelector.java:863-901 | one candidate moved: the only one, else a hyperedge on the most paths with its entry removed, else a top-degree candidate |
| PathSample.Ceil | src/main/java/eu/centai/hypeq/oracle/ls/LandMarkSelector.java:918 | the least integer not below x |
| PathSample.InComponentSample | src/main/java/eu/centai/hypeq/oracle/ls/LandMarkSelector.java:917-919 | the default sample size is at least 2 and at most the candidate count |
| PathSample.ListOf | src/main/java/eu/centai/hypeq/oracle/ls/LandMarkSelector.java:920 | the candidates as a repeat-free list |
| PathSample.FoundNonEmpty | src/main/java/eu/centai/hypeq/oracle/ls/LandMarkSelector.java:929 | every path found holds its first hyperedge, so the emptiness filter never drops one |
| PathSample.AnswerPair | src/main/java/eu/centai/hypeq/oracle/ls/LandMarkSelector.java:924-938 | answering one sampled pair keeps the earlier answers and appends only non-empty ones, each {a} for a pair of one hyperedge and otherwise the hyperedges of a shortest s-walk between the pair; a connected pair gets at least one answer, the all-paths search appends every shortest s-path of the pair, the bidirectional search at most one |
| PathSample.FindPathsInSample | src/main/java/eu/centai/hypeq/oracle/ls/LandMarkSelector.java:912-940 | pairs of candidates sampled, none for fewer than 2 candidates; every answer is non-empty and a shortest s-path of a sampled pair, every connected pair is answered, the all-paths search returns every shortest s-path of every sampled pair, and the bidirectional search at most one path per pair |
| PathSample.CollectAll | src/main/java/eu/centai/hypeq/oracle/ls/LandMarkSelector.java:924-938 | answering every sampled pair in turn gives the answers FindPathsInSample promises, and none for an empty sample |
| PathSample.CollectPair | src/main/java/eu/centai/hypeq/oracle/ls/LandMarkSelector.java:924-938 | answering one more pair keeps the answers as promised for the pairs done so far plus that pair |
| PathSample.AllShortestStep | src/main/java/eu/centai/hypeq/oracle/ls/LandMarkSelector.java:924-931 | answers appended after the earlier ones keep every shortest s-path already collected and add those of the new pair |
| PathSample.AnswerAll | src/main/java/eu/centai/hypeq/oracle/ls/LandMarkSelector.java:924-931 | the all-paths search appends, for the pair, non-empty answers that are shortest s-paths between it and include every one of them |
| PathSample.AppendFound | src/main/java/eu/centai/hypeq/oracle/ls/LandMarkSelector.java:925-931 | appending the answers found for a pair keeps them in order after the earlier ones, and records the pair as answered when it is connected |
| PathSample.AnswerOne | src/main/java/eu/centai/hypeq/oracle/ls/LandMarkSelector.java:933-938 | the bidirectional search appends at most one answer for the pair, a shortest s-path between it, and one whenever the pair is connected |
| BatchSelection.RandomSelection | src/main/java/eu/centai/hypeq/oracle/ls/LandMarkSelector.java:461-469 | numLandmarks distinct candidates; an exception when there are fewer candidates |
| BatchSelection.TopDegreeAdd | src/main/java/eu/centai/hypeq/oracle/ls/LandMarkSelector.java:516-517 | filling the heap keeps it a top choice |
| BatchSelection.TopDegreeOffer | src/main/java/eu/centai/hypeq/oracle/ls/LandMarkSelector.java:518-521 | replacing the head only for a strictly larger degree keeps it a top choice |
| BatchSelection.Offer | src/main/java/eu/centai/hypeq/oracle/ls/LandMarkSelector.java:514-522 | one candidate offered to the bounded heap |
| BatchSelection.DegreeSelection | src/main/java/eu/centai/hypeq/oracle/ls/LandMarkSelector.java:501-525 | the empty set for k = 0; min(k, candidates) candidates of which none left out has a larger s-degree |
| BatchSelection.SplitStep | src/main/java/eu/centai/hypeq/oracle/ls/LandMarkSelector.java:571-578 | one candidate sorted into reachable (degree 0) or selectable |
| BatchSelection.SplitDone | src/main/java/eu/centai/hypeq/oracle/ls/LandMarkSelector.java:571-578 | selectable holds exactly the candidates of positive degree |
| BatchSelection.SplitByDegree | src/main/java/eu/centai/hypeq/oracle/ls/LandMarkSelector.java:569-578 | the candidates split into degree 0 and positive degree |
| BatchSelection.NoneSelectable | src/main/java/eu/centai/hypeq/oracle/ls/LandMarkSelector.java:579-581 | nothing is selectable exactly when every candidate has degree 0 |
| BatchSelection.FarthestPick | src/main/java/eu/centai/hypeq/oracle/ls/LandMarkSelector.java:610-623 | a reached, unchosen candidate of greatest least distance, or none |
| BatchSelection.FarthestRound | src/main/java/eu/centai/hypeq/oracle/ls/LandMarkSelector.java:587-628 | a round adds one new landmark from the candidates, or makes no progress |
| BatchSelection.FarthestSelection | src/main/java/eu/centai/hypeq/oracle/ls/LandMarkSelector.java:558-631 | random selection when every candidate has degree 0; k candidates otherwise; an exception when k exceeds the candidates |
| LandmarkSelection.UnionOf | src/main/java/eu/centai/hypeq/oracle/ls/LandMarkSelector.java:232-237 | the union of the per-component selections |
| LandmarkSelection.BaselineSample | src/main/java/eu/centai/hypeq/oracle/ls/LandMarkSelector.java:158 | the baseline sample size is at least 1 and at most the candidate count |
| LandmarkSelection.PartsGrow | src/main/java/eu/centai/hypeq/oracle/ls/LandMarkSelector.java:232-237 | one more component's selection keeps every part a fitting selection of its component |
| LandmarkSelection.LandmarkSelector.constructor | src/main/java/eu/centai/hypeq/oracle/ls/LandMarkSelector.java:47-51 | the graph and the strategy named; no path cache |
| LandmarkSelection.LandmarkSelector.InitializeCache | src/main/java/eu/centai/hypeq/oracle/ls/LandMarkSelector.java:947-949 | an empty path cache |
| LandmarkSelection.LandmarkSelector.PathsFor | src/main/java/eu/centai/hypeq/oracle/ls/LandMarkSelector.java:685-691 | the cached paths for s when there are some, otherwise freshly sampled non-empty ones |
| LandmarkSelection.LandmarkSelector.PadByDegree | src/main/java/eu/centai/hypeq/oracle/ls/LandMarkSelector.java:731-740 | the chosen set padded with a top-degree choice of the rest, up to min(k, candidates) |
| LandmarkSelection.LandmarkSelector.BestCoverSelection | src/main/java/eu/centai/hypeq/oracle/ls/LandMarkSelector.java:679-741 | the empty set for k = 0; min(k, candidates) candidates: a greedy cover choice, then degree padding; the cache for s replaced by the kept paths |
| LandmarkSelection.LandmarkSelector.TakeWhileShort | src/main/java/eu/centai/hypeq/oracle/ls/LandMarkSelector.java:834-840 | the first min(k, entries) entries |
| LandmarkSelection.LandmarkSelector.BetweennessSelection | src/main/java/eu/centai/hypeq/oracle/ls/LandMarkSelector.java:807-852 | the empty set for k = 0; the top-k by path count, then degree padding; the cache for s set to the paths used |
| LandmarkSelection.LandmarkSelector.SelectionInCC | src/main/java/eu/centai/hypeq/oracle/ls/LandMarkSelector.java:409-426 | exactly the candidates when their count equals k, otherwise the strategy's choice of min(k, candidates) of them |
| LandmarkSelection.LandmarkSelector.SelectLandmarks | src/main/java/eu/centai/hypeq/oracle/ls/LandMarkSelector.java:223-238 | the union of one selection per component, each fitting its count |
| LandmarkSelection.LandmarkSelector.SelectLandmarksBaseline | src/main/java/eu/centai/hypeq/oracle/ls/LandMarkSelector.java:150-160 | min(k, candidates) edges of size at least s not yet selected |
| LandmarkSelection.LandmarkSelector.SelectOne | src/main/java/eu/centai/hypeq/oracle/ls/LandMarkSelector.java:437-452 | the incremental strategy moves one element into the landmarks, as each incremental selector states |
| LandmarkSelection.LandmarkSelector.Round | src/main/java/eu/centai/hypeq/oracle/ls/LandMarkSelector.java:317-370 | one iteration picks an eligible component from the first bucket of the current median, moves one of its candidates into its landmarks and leaves every other component's pool alone (PickedFrom), records the pick and adds its size to the estimate within the budget; unless no component is left open, the updated rankings list the open components and the new median is their median ranking, its first bucket holding open components |
| LandmarkSelection.LandmarkSelector.DrawnRound | src/main/java/eu/centai/hypeq/oracle/ls/LandMarkSelector.java:317-370 | one iteration as Round states, with the round (its rankings, its pools, its median and the pools it leaves) appended to the record of rounds since the start |
| LandmarkSelection.LandmarkSelector.Rounds | src/main/java/eu/centai/hypeq/oracle/ls/LandMarkSelector.java:317-370 | the loop ends with the budget reached or no component left with candidates; the rounds form a chain from the input pools to the returned ones: round i starts from the pools round i - 1 left, picks from the first bucket of the median of the rankings of exactly the components open in those pools, and moves one candidate of the picked component into its landmarks |
| LandmarkSelection.LandmarkSelector.SelectLandmarksUsingRA | src/main/java/eu/centai/hypeq/oracle/ls/LandMarkSelector.java:256-382 | per s, the landmarks of that s's components; start is the fresh pools of the eligible components, and the rounds chain from start to the returned pools, each pick made under the budget and drawn from the first bucket of the median ranking (by size, vertices, s and landmarks, under the importance factors) of the components open in that round's pools; no result only where the source fails |
| RankedSelection.KeyedListed | src/main/java/eu/centai/hypeq/oracle/ls/LandMarkSelector.java:283-299 | a keyed ranking is a partition of the open components and is empty only when none is open |
| RankedSelection.KeyedRekey | src/main/java/eu/centai/hypeq/oracle/ls/LandMarkSelector.java:357-363 | changing keys of components outside the ranking leaves it keyed |
| RankedSelection.Without | src/main/java/eu/centai/hypeq/oracle/ls/LandMarkSelector.java:339-356 | an element removed from its bucket, the bucket dropped when it empties |
| RankedSelection.With | src/main/java/eu/centai/hypeq/oracle/ls/LandMarkSelector.java:359-362 | an element added to a bucket, created when missing |
| RankedSelection.KeyedDrop | src/main/java/eu/centai/hypeq/oracle/ls/LandMarkSelector.java:339-356 | removing a closed component keeps the ranking keyed |
| RankedSelection.KeyedMove | src/main/java/eu/centai/hypeq/oracle/ls/LandMarkSelector.java:338-363 | moving a component to its new landmark count keeps the ranking keyed |
| RankedSelection.KeyedAdd | src/main/java/eu/centai/hypeq/oracle/ls/LandMarkSelector.java:283-298 | adding a component under its key keeps the ranking keyed |
| RankedSelection.OneOrMany | src/main/java/eu/centai/hypeq/oracle/ls/LandMarkSelector.java:309 | a non-empty ranking has one element or several |
| RankedSelection.HeadOfMedian | src/main/java/eu/centai/hypeq/oracle/ls/LandMarkSelector.java:319-321 | the median's first bucket is non-empty and holds ranked components |
| RankedSelection.CollectPerS | src/main/java/eu/centai/hypeq/oracle/ls/LandMarkSelector.java:372-381 | per s, the union of the landmarks of that s's components |
| RankedSelection.OpenIs | src/main/java/eu/centai/hypeq/oracle/ls/LandMarkSelector.java:338-363 | the four rankings list exactly the open components by size, vertices, s and landmark count |
| RankedSelection.EligibleStep | src/main/java/eu/centai/hypeq/oracle/ls/LandMarkSelector.java:283-284 | scanning one more position adds it exactly when its size passed the bound |
| RankedSelection.AddComponent | src/main/java/eu/centai/hypeq/oracle/ls/LandMarkSelector.java:284-298 | one eligible component entered into all four rankings |
| RankedSelection.InitialRankings | src/main/java/eu/centai/hypeq/oracle/ls/LandMarkSelector.java:274-299 | the four rankings list exactly the eligible components, all with 0 landmarks |
| RankedSelection.InitialPools | src/main/java/eu/centai/hypeq/oracle/ls/LandMarkSelector.java:301-307 | every eligible component starts with its hyperedges as candidates |
| RankedSelection.Reorder | src/main/java/eu/centai/hypeq/oracle/ls/LandMarkSelector.java:338-363 | after a pick the rankings again list exactly the open components |
| RankedSelection.SpentGrow | src/main/java/eu/centai/hypeq/oracle/ls/LandMarkSelector.java:334 | each pick adds the component's size to the estimate, made while it was below the budget |
| RankedSelection.ProgressStart | src/main/java/eu/centai/hypeq/oracle/ls/LandMarkSelector.java:301-307 | the fresh state is progress with no pick |
| RankedSelection.ProgressGrow | src/main/java/eu/centai/hypeq/oracle/ls/LandMarkSelector.java:330-337 | a move into a component keeps progress |
| RankedSelection.HeadRanking | src/main/java/eu/centai/hypeq/oracle/ls/LandMarkSelector.java:309 | the median ranking of the four rankings of the open components, whose first bucket holds open components; none with several components and fewer than four importance factors |
| RankedSelection.DrawnStep | src/main/java/eu/centai/hypeq/oracle/ls/LandMarkSelector.java:317-321 | a round that picks from the first bucket of the median of the current pools, and leaves the pools that pick produces, extends the record of rounds from the same start to the new pools |
| RankedSelection.DrawnPicksOpen | src/main/java/eu/centai/hypeq/oracle/ls/LandMarkSelector.java:317-370 | under the record of rounds every pick was a component with candidates left in its round's pools, and every round's pools and the final ones have the components of the start |
| RankedSelection.DrawnKeys | src/main/java/eu/centai/hypeq/oracle/ls/LandMarkSelector.java:317-370 | by induction on the round, no round adds or drops a component |
| RankedSelection.Start | src/main/java/eu/centai/hypeq/oracle/ls/LandMarkSelector.java:266-309 | rankings and pools of exactly the eligible components, nothing picked |
| RankedSelection.FreshActive | src/main/java/eu/centai/hypeq/oracle/ls/LandMarkSelector.java:301-307 | every fresh eligible component is open |
| RankedSelection.FreshLands | src/main/java/eu/centai/hypeq/oracle/ls/LandMarkSelector.java:280-297 | all eligible components start in the landmark-count bucket 0 |
| Oracles.BoundsStep | src/main/java/eu/centai/hypeq/oracle/structures/DistanceOracle.java:452-458 | one more landmark raises the lower bound to its gap and lowers the upper bound to its sum, when both edges have it |
| Oracles.LandmarkBounds | src/main/java/eu/centai/hypeq/oracle/structures/DistanceOracle.java:447-458 | the loop's bounds are the max gap from -1 and the min sum from Integer.MAX_VALUE over the landmarks both edges have |
| Oracles.LandmarkUnknown | src/main/java/eu/centai/hypeq/oracle/structures/DistanceOracle.java:459-465 | the landmark answer is the sentinel exactly when no landmark labels both edges, and otherwise its lower bound is non-negative |
| Oracles.LandmarkSound | src/main/java/eu/centai/hypeq/oracle/structures/DistanceOracle.java:447-465 | on exact labels the lower bound is at most the true s-distance, the upper at least it, and the estimate lies between |
| Oracles.SccId | src/main/java/eu/centai/hypeq/oracle/structures/DistanceOracle.java:629-631 | the stored component id of e for s, or -1 when s or e is unknown |
| Oracles.SizeIn | src/main/java/eu/centai/hypeq/oracle/structures/DistanceOracle.java:639-645 | the stored size, 0 for an id past the stored sizes or an unknown s, an exception for a negative id |
| Oracles.ApproxQuery | src/main/java/eu/centai/hypeq/oracle/structures/DistanceOracle.java:429-466 | the answer Approx: the sentinel when components are stored and s is unknown or the edges lie in different or no components; (1, size, estimate) in a small component where e1 has no label; otherwise the landmark bounds |
| Oracles.ApproxSound | src/main/java/eu/centai/hypeq/oracle/structures/DistanceOracle.java:429-466 | when the edges share a component and no shortcut applies, the answer is the sentinel exactly when no landmark labels both, and otherwise brackets the true s-distance |
| Oracles.ScanOne | src/main/java/eu/centai/hypeq/oracle/structures/DistanceOracle.java:486-493 | one pair's query either raises or keeps the smallest-estimate non-sentinel answer so far |
| Oracles.ScanPairs | src/main/java/eu/centai/hypeq/oracle/structures/DistanceOracle.java:486-493 | scanning a set of pairs raises exactly when some query does, and otherwise keeps the smallest-estimate non-sentinel answer among them |
| Oracles.ScanGrid | src/main/java/eu/centai/hypeq/oracle/structures/DistanceOracle.java:486-493 | the nested loops over the incident edges of both ends yield the smallest-estimate non-sentinel answer among all pairs, or raise when any query does |
| Oracles.DistanceOracle.At | src/main/java/eu/centai/hypeq/oracle/structures/DistanceOracle.java:429-451 | the state a query at s reads: the components and the labels of the oracle of s |
| Oracles.DistanceOracle.GetIdOfSCC | src/main/java/eu/centai/hypeq/oracle/structures/DistanceOracle.java:629-631 | the component id of e for s, -1 when unknown |
| Oracles.DistanceOracle.GetSizeOf | src/main/java/eu/centai/hypeq/oracle/structures/DistanceOracle.java:639-645 | the component size, 0 past the end |
| Oracles.DistanceOracle.GetApproxSDistanceBetween | src/main/java/eu/centai/hypeq/oracle/structures/DistanceOracle.java:429-466 | the query on the oracle's state, as ApproxQuery states |
| Oracles.DistanceOracle.GetApproxSDistanceBetweenVertices | src/main/java/eu/centai/hypeq/oracle/structures/DistanceOracle.java:477-499 | (1,1,1) when the vertices share a hyperedge; otherwise the smallest-estimate non-sentinel answer over pairs of their incident s-edges, the sentinel when none |
| Oracles.DistanceOracle.GetApproxSDistanceBetweenVE | src/main/java/eu/centai/hypeq/oracle/structures/DistanceOracle.java:510-527 | the smallest-estimate non-sentinel answer over the vertex's incident s-edges against e, the sentinel when none |
| Oracles.DistanceOracle.GetMaxHEsMembership | src/main/java/eu/centai/hypeq/oracle/structures/DistanceOracle.java:109-115 | the largest s whose membership map holds e, or 1 when none does |
| Oracles.DistanceOracle.GetOracleSize | src/main/java/eu/centai/hypeq/oracle/structures/DistanceOracle.java:572-574 | the sum over the oracles of their label entries |
| Oracles.DistanceOracle.GetCCStrucSize | src/main/java/eu/centai/hypeq/oracle/structures/DistanceOracle.java:580-584 | the total length of the size arrays plus the number of membership entries |
| Oracles.DistanceOracle.CreateReachableProfile | src/main/java/eu/centai/hypeq/oracle/structures/DistanceOracle.java:313-392 | a profile of v with tag holding, for every s, the bound entries the landmark labels give; none when a vertex query meets a hyperedge missing from the inverted vertex map |
| Oracles.CountSlots | src/main/java/eu/centai/hypeq/oracle/structures/DistanceOracle.java:580-582 | the total length of the size arrays |
| SOracles.LabelsOf | src/main/java/eu/centai/hypeq/oracle/structures/SDistanceOracle.java:101-103 | the landmark labels of e, empty for an unknown edge |
| SOracles.PutPairs | src/main/java/eu/centai/hypeq/oracle/structures/SDistanceOracle.java:31-40 | storing l's distances sets labels[e][l] for every reached e and leaves every other entry unchanged |
| SOracles.PutLabelled | src/main/java/eu/centai/hypeq/oracle/structures/SDistanceOracle.java:31-40 | storing a landmark's exact BFS map keeps every label an exact s-distance |
| SOracles.LabelledExact | src/main/java/eu/centai/hypeq/oracle/structures/SDistanceOracle.java:31-40 | every stored label [e][l] is the s-distance from landmark l to e |
| SOracles.LandmarkAtZero | src/main/java/eu/centai/hypeq/oracle/structures/SDistanceOracle.java:31-40 | every populated landmark labels itself with 0 |
| SOracles.SDistanceOracle.constructor | src/main/java/eu/centai/hypeq/oracle/structures/SDistanceOracle.java:19-22 | no landmarks, no labels, count 0 |
| SOracles.SDistanceOracle.RecordDistances | src/main/java/eu/centai/hypeq/oracle/structures/SDistanceOracle.java:33-38 | labels[e][l] := d for each (e, d) of the map; nothing else changes |
| SOracles.SDistanceOracle.FindDistances | src/main/java/eu/centai/hypeq/oracle/structures/SDistanceOracle.java:31-40 | every landmark's labels become its exact s-distances, other entries untouched |
| SOracles.SDistanceOracle.PopulateOracle | src/main/java/eu/centai/hypeq/oracle/structures/SDistanceOracle.java:50-54 | landmarks grow by the argument, numLandmarks becomes the argument's size (not the union's), labels as FindDistances |
| SOracles.SDistanceOracle.GetLabel | src/main/java/eu/centai/hypeq/oracle/structures/SDistanceOracle.java:101-103 | the labels of e, empty when e is unknown |
| SOracles.SDistanceOracle.GetOracleSize | src/main/java/eu/centai/hypeq/oracle/structures/SDistanceOracle.java:118-120 | the number of (edge, landmark) entries |
| SOracles.CountPairs | src/main/java/eu/centai/hypeq/oracle/structures/SDistanceOracle.java:118-120 | the number of (edge, landmark) entries of a label map |
| Oracles.DistanceOracle.constructor | src/main/java/eu/centai/hypeq/oracle/structures/DistanceOracle.java:48-51 | no oracles (the source leaves the array null) and empty size and membership maps |
| Profiles.DistanceProfile.constructor | src/main/java/eu/centai/hypeq/oracle/structures/DistanceProfile.java:28-32 | a profile of the pair with no distances |
| Profiles.DistanceProfile.Copy | src/main/java/eu/centai/hypeq/oracle/structures/DistanceProfile.java:42-52 | a profile whose map has the given entries; being a value, it shares nothing with the source map |
| Profiles.DistanceProfile.GetSDistance | src/main/java/eu/centai/hypeq/oracle/structures/DistanceProfile.java:122-127 | the estimate stored at s, or -1 when s is absent |
| Profiles.DistanceProfile.GetSLowBound | src/main/java/eu/centai/hypeq/oracle/structures/DistanceProfile.java:134-139 | the lower bound stored at s, or -1 when s is absent |
| Profiles.DistanceProfile.GetSUpBound | src/main/java/eu/centai/hypeq/oracle/structures/DistanceProfile.java:146-151 | the upper bound stored at s, or -1 when s is absent |
| Profiles.DistanceProfile.AddDistance | src/main/java/eu/centai/hypeq/oracle/structures/DistanceProfile.java:85-87 | key s now holds (d, d, d); every other key reads as before |
| Profiles.DistanceProfile.AddBounds | src/main/java/eu/centai/hypeq/oracle/structures/DistanceProfile.java:96-98 | key s now holds lower lb, upper ub and estimate d; every other key reads as before |
| Profiles.DistanceProfile.AddTriple | src/main/java/eu/centai/hypeq/oracle/structures/DistanceProfile.java:105-107 | key s now holds the given triple; every other key reads as before |
| Profiles.LabelOf | src/main/java/eu/centai/hypeq/oracle/structures/ReachableProfile.java:85-90 | the label of v, or "NONE" when v has none |
| Profiles.Candidates | src/main/java/eu/centai/hypeq/oracle/structures/ReachableProfile.java:84-92 | the entries at s whose label matches the profile's, in order |
| Profiles.CandidatesComplete | src/main/java/eu/centai/hypeq/oracle/structures/ReachableProfile.java:84-92 | every eligible entry occurs among the candidates as often as in the profile |
| Profiles.ArgMax | src/main/java/eu/centai/hypeq/oracle/structures/ReachableProfile.java:93-103 | the position of a largest distance in the heap |
| Profiles.Without | src/main/java/eu/centai/hypeq/oracle/structures/ReachableProfile.java:98-100 | removing the heap's top keeps the other entries |
| Profiles.SplitTopK | src/main/java/eu/centai/hypeq/oracle/structures/ReachableProfile.java:93-107 | a kept/dropped split of the candidates is a top-k selection |
| Profiles.OfferKeeps | src/main/java/eu/centai/hypeq/oracle/structures/ReachableProfile.java:93-103 | offering one more candidate to the bounded heap keeps it a top-k selection of the candidates seen |
| Profiles.OfferAdds | src/main/java/eu/centai/hypeq/oracle/structures/ReachableProfile.java:94-96 | while the heap holds fewer than k entries the candidate is added |
| Profiles.OfferSwaps | src/main/java/eu/centai/hypeq/oracle/structures/ReachableProfile.java:97-100 | a candidate closer than the heap's farthest replaces it |
| Profiles.OfferSkips | src/main/java/eu/centai/hypeq/oracle/structures/ReachableProfile.java:97-103 | a candidate no closer than the heap's farthest is dropped |
| Profiles.Consider | src/main/java/eu/centai/hypeq/oracle/structures/ReachableProfile.java:84-104 | one scanned entry keeps the heap a top-k selection of the eligible entries so far; k <= 0 fails on the first eligible entry |
| Profiles.MaxS | src/main/java/eu/centai/hypeq/oracle/structures/ReachableProfile.java:119-121 | the largest s of any entry, or 0 when there is none |
| Profiles.ReachedByGrows | src/main/java/eu/centai/hypeq/oracle/structures/ReachableProfile.java:149-155 | the set of elements reached with s' <= s only grows with s |
| Profiles.ReachableProfile.constructor | src/main/java/eu/centai/hypeq/oracle/structures/ReachableProfile.java:29-32 | a profile of p with no tag and no entries |
| Profiles.ReachableProfile.Labelled | src/main/java/eu/centai/hypeq/oracle/structures/ReachableProfile.java:40-44 | a profile of p with the tag and no entries |
| Profiles.ReachableProfile.AddReachable | src/main/java/eu/centai/hypeq/oracle/structures/ReachableProfile.java:67-69 | the entry (s, v, d) is appended |
| Profiles.ReachableProfile.AddTriple | src/main/java/eu/centai/hypeq/oracle/structures/ReachableProfile.java:49-51 | the triple is appended |
| Profiles.ReachableProfile.AddReachables | src/main/java/eu/centai/hypeq/oracle/structures/ReachableProfile.java:56-58 | the triples are appended in order |
| Profiles.ReachableProfile.TopKsReachable | src/main/java/eu/centai/hypeq/oracle/structures/ReachableProfile.java:79-108 | min(k, #eligible) eligible entries at s, none excluded closer than any kept; none (the heap's exception) only when k <= 0 and something is eligible |
| Profiles.ReachableProfile.TopKReachable | src/main/java/eu/centai/hypeq/oracle/structures/ReachableProfile.java:118-126 | the concatenation over s = 1..max s of the per-s top-k selections |
| Profiles.ReachableProfile.Joined | src/main/java/eu/centai/hypeq/oracle/structures/ReachableProfile.java:120-124 | appending the block of s keeps the output a per-s top-k selection for every s so far |
| Profiles.ReachableProfile.Size | src/main/java/eu/centai/hypeq/oracle/structures/ReachableProfile.java:149-155 | the number of distinct elements reached at some s' <= s |
| ReachBounds.OfferLow | src/main/java/eu/centai/hypeq/oracle/structures/DistanceOracle.java:339-380 | lbs.put(k, max(lbs.getOrDefault(k, -1), lo)): only key k changes |
| ReachBounds.OfferUp | src/main/java/eu/centai/hypeq/oracle/structures/DistanceOracle.java:340-381 | ubs.put(k, min(ubs.getOrDefault(k, MAX_VALUE), up)): only key k changes |
| ReachBounds.FoldStep | src/main/java/eu/centai/hypeq/oracle/structures/DistanceOracle.java:331-355 | offering one bound candidate to the folded maps gives the fold of the grown candidate set, so the order of the puts does not matter |
| ReachBounds.OfferSelf | src/main/java/eu/centai/hypeq/oracle/structures/DistanceOracle.java:336-341 | the landmark distances of the source itself are folded as exact bounds |
| ReachBounds.OfferVia | src/main/java/eu/centai/hypeq/oracle/structures/DistanceOracle.java:343-352 | the gap and sum over each landmark both edges have are folded as bounds on e2 |
| ReachBounds.OfferRow | src/main/java/eu/centai/hypeq/oracle/structures/DistanceOracle.java:334-354 | scanning every labelled e2 folds all bound candidates of one source |
| ReachBounds.FoldBounds | src/main/java/eu/centai/hypeq/oracle/structures/DistanceOracle.java:331-355 | the maps are the max of lower bounds and min of upper bounds over every candidate of every source |
| ReachBounds.Midpoint | src/main/java/eu/centai/hypeq/oracle/structures/DistanceOracle.java:359-385 | lo + (up - lo) / 2 in Java integer division: between the bounds and at most half-way rounded down |
| ReachBounds.CandidateSound | src/main/java/eu/centai/hypeq/oracle/structures/DistanceOracle.java:331-355 | on exact labels every candidate from the single source v brackets the true s-distance to its key |
| ReachBounds.ReachSound | src/main/java/eu/centai/hypeq/oracle/structures/DistanceOracle.java:319-361 | for an edge source, every folded lower bound is at most the true s-distance and every upper bound at least it, with the estimate between |
| ReachBounds.InvertVertexMap | src/main/java/eu/centai/hypeq/oracle/structures/DistanceOracle.java:368-377 | invVMap maps each bounded hyperedge to exactly the vertices it contains |
| ReachBounds.OfferColumn | src/main/java/eu/centai/hypeq/oracle/structures/DistanceOracle.java:379-382 | a hyperedge's bounds are folded into those of every vertex it contains |
| ReachBounds.FoldVertexBounds | src/main/java/eu/centai/hypeq/oracle/structures/DistanceOracle.java:378-383 | the vertex bounds are the max/min over the hyperedges containing each vertex; none (a null list) when some bounded hyperedge contains no known vertex |
| ReachBounds.EmitEntries | src/main/java/eu/centai/hypeq/oracle/structures/DistanceOracle.java:358-387 | one entry (key, s, midpoint) per bounded key |
| ReachBounds.NextEntries | src/main/java/eu/centai/hypeq/oracle/structures/DistanceOracle.java:319-388 | the entries of one s, appended to those of smaller s; none exactly when the vertex branch meets a null list |
| ReachBounds.ReachEntries | src/main/java/eu/centai/hypeq/oracle/structures/DistanceOracle.java:320-388 | the entries of one s from its oracle's labels |
| Refinement.UntouchedAt | src/main/java/eu/centai/hypeq/test/helpers/Helper.java:302-323 | keys outside 1..maxS keep their triples |
| Refinement.EstimateKept | src/main/java/eu/centai/hypeq/test/helpers/Helper.java:311-322 | the estimate of every key is unchanged |
| Refinement.UpperAt | src/main/java/eu/centai/hypeq/test/helpers/Helper.java:304-311 | refined upper at s is min(upper at s, upper at s+1), unless s+1 is absent or its upper is -1 |
| Refinement.LowerAt | src/main/java/eu/centai/hypeq/test/helpers/Helper.java:312-321 | for s > 1 the refined lower at s is max(lower at s, refined lower at s-1); at s = 1 it is unchanged |
| Refinement.LowerMonotone | src/main/java/eu/centai/hypeq/test/helpers/Helper.java:300-323 | refined lower bounds are non-decreasing over 1..maxS |
| Refinement.Tightens | src/main/java/eu/centai/hypeq/test/helpers/Helper.java:302-323 | refinement only raises lower bounds and lowers upper bounds |
| Refinement.RefineSound | src/main/java/eu/centai/hypeq/test/helpers/Helper.java:294-329 | when bounds bracket distances that are non-decreasing in s, the refined bounds still bracket them |
| Refinement.RefineProfile | src/main/java/eu/centai/hypeq/test/helpers/Helper.java:299-323 | the profile's map is replaced in place by its refinement; fails when an s in 1..maxS is missing |
| Refinement.LargestKey | src/main/java/eu/centai/hypeq/test/helpers/Helper.java:300 | the largest s of the map |
| Refinement.RefineDistanceProfiles | src/main/java/eu/centai/hypeq/test/helpers/Helper.java:294-329 | every profile's map is refined in place and the result maps each key to a profile of the key's pair with the refined map |
| Refinement.BeforeStrict | src/main/java/eu/centai/hypeq/test/helpers/Helper.java:260-266 | the (distance, id) order is strict and total |
| Refinement.RankedUnique | src/main/java/eu/centai/hypeq/test/helpers/Helper.java:259-273 | only one row satisfies the top-k ordering, so the row is determined |
| Refinement.Closest | src/main/java/eu/centai/hypeq/test/helpers/Helper.java:260-266 | the remaining element first in (distance, id) order |
| Refinement.TopKRow | src/main/java/eu/centai/hypeq/test/helpers/Helper.java:259-273 | a row of length k holding the first min(k, #reached) ids in (distance, id) order, padded with -1 |

## Left out

- File I/O and serialisation (`Reader`, `Writer`, the Kryo serialisers, `LineGraph.findAndSave`) are not modelled: they are streams and a foreign library.
- Global configuration (`Settings`, `CMDLParser`) is not modelled. Its values become parameters, except `Settings.samplePerc`, which is the constant 0.4 it defaults to.
- The experiment mains and the rest of `Helper` are not modelled. They are timing and output orchestration, and the rest of `Helper` depends on disk and on a sampling library.
- `System.out.println` calls are dropped.
- `WQUFPC.eTvLSP` is not modelled: it is disabled and only called from commented-out code.
- `HyperGraph.simplifiedConnectedComponents` is not modelled: it is an experiment variant outside the component searches above.
- `LandMarkSelector.selectAllLandmarks` and `selectLandmarksPerCC` are not modelled. They fill the flat size, s and vertex-count arrays in a parallel stream over `getVerticesOf`, then call the assigner and `selectLandmarks` or `selectLandmarksUsingRA`, all of which are modelled. `SelectLandmarksUsingRA` takes those arrays as input, tied to the components by `Prepared`.
- `DistanceOracle.populateOracles`, `populateOracleBaseline`, `samplePairs`, `sampleHyperEdges`, `getApproxDistance`, `getNumLandmarks` and `getAllLandmarks` are not modelled. They combine the modelled parts with `Settings`, randomness and floating-point averages.
- Doubles are modelled as `real`, with no rounding: the alpha/beta weights and probabilities of `LandMarkAssigner`, the importance factors and the `Double[]` running sums of `BioConsert`, and the midpoint of `getApproxSDistanceBetween`.
- Guava Bloom filters are sets that contain every added id plus arbitrary false positives (`falsePositives`). The models show that false positives never change a result.
- Java `int` overflow is not modelled in `LandMarkAssigner`'s `estOracleSize`, in the stream sums of `getOracleSize`/`getCCStrucSize`, or in the `thisUpper` sums of `createReachableProfile`. These values are unbounded integers here.
- `Text.EqualsIgnoreCase`: folds ASCII letters only, because Java's Unicode case folding is not modelled.
- `Components.ConnectedComponents.AddMemberships`: requires each hyperedge to appear in one component at most, because Java's `toMap` throws on a duplicate key.
- `Components.ConnectedComponents.GetSizeOf`: requires `cc_id >= 0`, because Java throws `ArrayIndexOutOfBoundsException` on a negative index.
- `HyperGraphs.HyperGraph.GetSHyperEdgesOf`: requires the vertex to be indexed, because the source reads a null list for an unknown vertex.
- `ComponentSweep.FindSConnectedComponents`: requires `s >= 1`. For `s <= 0` the source unions only pairs that share a vertex, which is not an s-connectivity.
- `Distances.FindDistancesWithin`: requires every visited hyperedge (or vertex) to carry a label, because the source dereferences a null label and throws when one is missing.
- `Utils.Dot`: requires at least one row, because the source reads row 0 to check the length.
- `Utils.SelectItems`, `Utils.SamplePairs`: require at most as many items as there are distinct candidates, because the source's draw loop (Utils.java 406-408) never ends otherwise. Its callers never ask for more.
- `Utils.SampleInLists`: when the selectable pairs outnumber the remaining budget, requires enough distinct-element pairs outside the sample to fill it, because the random branch never ends otherwise. The branch that adds every pair has no such requirement.
- `UnionFind.WQUFPC.InitializeFromCC`: requires a non-empty component of in-range ids, because the source throws otherwise.
- `SearchTrees.Tree.AddNode`: requires a new id whose parent is already in the tree (or -1). The searches only add unvisited nodes, and the tree invariant needs parents present; re-adding an id is not modelled.
- `Departures.DepartureRankings`, `MedianRanking.ComputeMedianRanking`: require every ranked element to be listed in the size ranking. For an unlisted element, Java's `elements_id.get` returns 0 and overwrites element 0's row.
- `RankedSelection.HeadRanking`, `LandmarkSelection.LandmarkSelector.SelectLandmarksUsingRA`: which of the median's first-bucket components is picked is a free choice. `lb` is accepted and unused, as in the source.
- `IncrementalSelection.BestCoverOne`, `IncrementalSelection.BetweennessOne`: the hyperedge on the most paths is moved as the source moves it, even when it is already a landmark or not a candidate. Then the candidate set does not shrink.
- `ReachBounds.ReachSound`: brackets the true distance only for a reachable profile built from a single source edge. With several source edges the fold takes the largest lower bound over different sources, and that need not bracket the distance from the vertex.
- `Best` ties and `Pick` choices (`findEdges` order, `HashMap` grouping order) are left free. Contracts hold for every choice.
- `LineGraphs.LineGraph.NumberOfNodes` and `SOracles.SDistanceOracle.HasLabel` are plain reads with no contract of their own; `GetNodeIDs` and `GetLabel` carry the facts.

## Findings

| source | as written | input that shows it | evidently intended | confidence | as-written member | corrected member |
|---|---|---|---|---|---|---|
| src/main/java/eu/centai/hypeq/oracle/ls/ra/BioConsert.java:512-529 | `fromScoreToRank` puts the i-th smallest score in bucket i in both branches, so `reverse` has no effect | sizeScores {1:{7}, 2:{8}} with reverse = true ranks 7 first | with reverse, the largest score first | high (not executed) | Departures.FromScoreToRankAsWritten, Departures.ReverseIgnored | Departures.FromScoreToRank |
| src/main/java/eu/centai/hypeq/oracle/ls/ra/BioConsert.java:288-291 | the entries left of the element's bucket are forward prefix sums from bucket 0 | element 2 of ranking [0,1,2] moved to bucket 0 is priced -1 but raises the doubled distance by 2 | a move to bucket b left of cur is priced over buckets b..cur-1 | high (not executed) | DeltaCosts.ChangeAsWritten, DeltaCosts.ForwardSumsMisprice | DeltaCosts.ComputeDeltaCosts |
| src/main/java/eu/centai/hypeq/structures/LineGraph.java:124-136 | `defaultReturnValue(IntArrayList.of())` installs one shared list, and `getOrDefault(...).add` appends to it for every new vertex | hyperedges 0 = {1} and 1 = {2}: vertex 1 reads [0, 1], as if hyperedge 1 held it | a fresh list per vertex | medium (not executed) | LineGraphs.WrittenIndexAliases | LineGraphs.IndexHyperEdge |
| src/main/java/eu/centai/hypeq/structures/LineGraph.java:33 | the adjacency map's default list is shared in the same way | one edge (0, 1): node 0 reads [(1, 1), (0, 1)], and so does node 7, which has no edge | a fresh list per node | medium (not executed) | LineGraphs.WrittenAdjacencyAliases | LineGraphs.LineGraph.InitializeVMap |
| src/main/java/eu/centai/hypeq/structures/LabeledEdge.java:27-40 | `hashCode` depends on orientation while `equals` ignores it | edges (0, 1, 0) and (1, 0, 0) are equal and hash differently | equal edges hash equally | high (not executed) | Labels.ReversedEdgeHashesDifferently | Labels.UnorientedHashConsistent |
| src/main/java/eu/centai/hypeq/structures/HyperEdge.java:117-132 | `hashCode` mixes in the id while `equals` compares vertex sets only | the same vertex set with ids 0 and 1 | equal hyperedges hash equally | high (not executed) | HyperEdges.EqualEdgesHashDifferently | HyperEdges.VertexHashConsistent |
| src/main/java/eu/centai/hypeq/oracle/ls/LandMarkSelector.java:723-727 | `paths.remove(p)` inside the index loop skips the entry that slides into slot p | two paths, both cleared: the second is kept | keep exactly the present paths | high (not executed) | SelectionParts.CompactAsWritten, SelectionParts.CompactKeepsCovered | SelectionParts.Compact |
| src/main/java/eu/centai/hypeq/oracle/ls/LandMarkSelector.java:642-665 | `Ldist` is keyed by candidate, but the scan looks the candidate up in each row, so every candidate reads MAX_VALUE and the first one wins | candidates 1 and 2 at distance 1 and 2 from landmark 0: both read MAX_VALUE | pick the candidate farthest from its nearest landmark | high (not executed) | IncrementalSelection.FarthestScanAsWritten, IncrementalSelection.ByCandidateBlind, IncrementalSelection.FarthestTies | IncrementalSelection.FarthestScan, IncrementalSelection.FarthestOne |
| src/main/java/eu/centai/hypeq/oracle/ls/LandMarkSelector.java:791-795 | `toRemove` is the chosen key's live set, so once the loop empties it the later entries keep their covered paths | hyperedges 1 and 2 both on path 0, 1 chosen and visited first: 2 keeps path 0 | remove the chosen hyperedge's paths from every other entry | high (not executed) | IncrementalSelection.DropCoveredAsWritten, IncrementalSelection.AliasedRemoval | IncrementalSelection.DropCovered, IncrementalSelection.BestCoverOne |
