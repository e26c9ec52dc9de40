# MRI-extract-surfaces: mesh repair and inside/outside classification

This project models two parts of the MRI-extract-surfaces tools in Dafny and proves what
they promise.

**Mesh topology repair.** The tool exists twice: a Rust binary over hash sets and a Python
script over lists. A triangle is a triple of point indices whose order is its winding. The
binary and the script run the same passes in the same order:

1. Re-orient the mesh along a breadth-first traversal over edge-adjacent triangles. A triangle
   that would reuse an already seen directed half-edge is dropped.
2. Drop every triangle with a vertex that lies on more than two boundary edges. A boundary
   edge is an edge with exactly one incident entry.
3. Drop every triangle with an "hourglass" vertex. Its link, the set of edges opposite it,
   falls apart into more than one connected component, counted by an explicit-stack
   depth-first search.
4. Compact the points: keep only the points the triangles use and renumber them densely.

The list-based Python passes live in module `Cleanup`. The set-based Rust passes live in
`PostprocessMesh`. Each Rust pass walks its hash set in an arbitrary order and runs the same
loop. Every contract is stated through one canonical listing of the set, so it holds for
every walk order. The pruning and compaction results are the same for every order. The
traversal and the orientation are a breadth-first traversal, and the orientation along it,
from some member of the set: which member starts depends on the walk. The two programs
compact differently. The Rust binary sorts the used indices, so new indices follow the old
order (ranks). The Python script numbers the used indices in the order it iterates the set.
Both versions are modelled.

Shared pieces:
- `Mesh`: the edge and incidence notions;
- `Orientation`: orientation by seen half-edges, as a function;
- `Graph`: the adjacency, the depth-first search and the component count.

**Spatial tiling and inside/outside classification.** Points are bucketed by floor division
of their coordinates into tiles of a grid. Triangles go into every tile of their bounding
box's inclusive tile range. A point is inside when a ray from it and the opposite ray both
hit a triangle of the point's tile.
- The outside-surface tiler (`OutsideTiles`) keeps two grids, (y, z) and (x, z).
- The outer-shell tiler (`ShellTiles`) keeps one grid over (x, z).
- The outer-shell extractor (`Shell`) then keeps the triangles with no inside vertex.
- `Grid` holds the geometry they share.
- `Tiling` holds the bucket specifications they share.

Coordinates are `real`. The ray-triangle test is a function parameter `hits`: a batch test
is "some triangle of the set is hit".

## Model

| member | source | states |
|---|---|---|
| Mesh.Ordered | postprocess-mesh/src/main.rs:67-73 | the result holds the same two values as the arguments, the smaller first |
| Mesh.OrderedSymmetric | postprocess-mesh/cleanup.py:34-35 | ordering forgets only which end came first: (a, b) and (c, d) give the same edge iff they are the same pair in some order |
| Mesh.Push | postprocess-mesh/cleanup.py:41-43 | `d[k].append(v)` on a defaultdict: the list of k gains v at its end, every other list is unchanged, and k becomes a key |
| Mesh.Include | postprocess-mesh/cleanup.py:189-191 | `d[k].add(v)` on a defaultdict of sets: the set of k gains v and no other set changes |
| Mesh.Bump | postprocess-mesh/cleanup.py:121-122 | `d[k] += 1` on a defaultdict of counts: only the count of k grows, by one |
| Mesh.ReverseFacts | postprocess-mesh/src/main.rs:150-155 | the flip (c, b, a) is an involution, keeps the vertices and reverses every directed half-edge |
| Mesh.EdgeListStep | postprocess-mesh/src/main.rs:79-92 | processing one more triangle appends its incidences to each edge list and changes nothing else |
| Mesh.IncidencesCount | postprocess-mesh/src/main.rs:79-92 | a triangle adds to the list of e only copies of itself, one for each of its edge slots that is e |
| Mesh.EdgeListCount | postprocess-mesh/src/main.rs:79-92 | the list of e holds each triangle as often as it occurs in the input times the number of its slots on e |
| Mesh.EdgeListMembers | postprocess-mesh/src/main.rs:79-92 | a triangle on the list of e is a triangle of the input that has e as an edge |
| Mesh.EdgeListOrderFree | postprocess-mesh/src/main.rs:79-92 | the edge lists, as multisets, do not depend on the order in which the triangles are walked |
| Mesh.PairMultiset | postprocess-mesh/src/main.rs:96-97 | a two-entry list pairs t with u exactly when its multiset is {t, u} |
| Mesh.AdjacentSymmetric | postprocess-mesh/src/main.rs:94-101 | edge-adjacency (two entries on the list of one edge) is symmetric |
| Mesh.AdjacentInMesh | postprocess-mesh/src/main.rs:94-101 | adjacent triangles are triangles of the input |
| Mesh.AdjacentOrderFree | postprocess-mesh/src/main.rs:94-101 | adjacency does not depend on the order of the input |
| Mesh.OppositeListLength | postprocess-mesh/src/main.rs:170-175 | the opposite-vertex list of an edge is as long as its triangle list |
| Mesh.EdgeListNonEmpty | postprocess-mesh/src/main.rs:170-175 | an edge has a non-empty list iff it is an edge of some triangle |
| Mesh.VertexSetMembers | postprocess-mesh/cleanup.py:181-185 | v is a used index iff it is a corner of some triangle |
| Mesh.VertexSetHas | postprocess-mesh/cleanup.py:181-185 | the corners of every triangle are used indices |
| Mesh.VertexSetInRange | postprocess-mesh/cleanup.py:181-185 | triangles with indices below n use only indices below n |
| Mesh.EdgeEndpoints | postprocess-mesh/cleanup.py:119-122 | both ends of a counted edge are used indices |
| Mesh.DegreeAdd | postprocess-mesh/cleanup.py:119-122 | one more boundary edge adds one to the count of each of its ends |
| Mesh.DegreePositive | postprocess-mesh/cleanup.py:119-122 | a vertex with a positive boundary count is an end of a boundary edge |
| Mesh.DoubleBoundaryMembers | postprocess-mesh/cleanup.py:124 | a vertex is a double-boundary vertex iff it lies on more than two boundary edges |
| Mesh.OppositeEdgesEmpty | postprocess-mesh/cleanup.py:187-191 | an index has no opposite edge iff it is not a corner of any triangle |
| Mesh.SublistFacts | postprocess-mesh/cleanup.py:126-134 | an order-preserving sublist is no longer than its list and holds only its entries |
| Mesh.AvoidingSublist | postprocess-mesh/cleanup.py:126-136 | the pruning filter returns an order-preserving sublist of its input |
| Mesh.AvoidingCount | postprocess-mesh/cleanup.py:126-136 | the filter keeps each triangle with no bad vertex with its multiplicity, and drops every other |
| Mesh.AvoidingMembers | postprocess-mesh/cleanup.py:199-205 | a triangle is kept iff it is in the input and none of its corners is bad |
| Mesh.AvoidingTwice | postprocess-mesh/cleanup.py:235-236 | filtering by one set and then another is filtering once by their union |
| Orientation.ConflictsMeaning | postprocess-mesh/cleanup.py:92 | the conflict test holds iff a half-edge of the triangle is already seen |
| Orientation.HalfEdgesOfMembers | postprocess-mesh/cleanup.py:88-102 | the seen set holds a half-edge iff some kept triangle traverses it |
| Orientation.HalfEdgesOfAppend | postprocess-mesh/cleanup.py:88-102 | the half-edges of a concatenation are those of its parts |
| Orientation.OrientExtends | postprocess-mesh/cleanup.py:91-102 | running the loop on a prefix of the visit list yields a prefix of the output |
| Orientation.OrientSublist | postprocess-mesh/cleanup.py:91-102 | with drop set, the output is an order-preserving sublist of the visit list |
| Orientation.OrientNoShared | postprocess-mesh/cleanup.py:91-102 | with drop set, no directed half-edge is traversed by two output triangles |
| Orientation.OrientMaximal | postprocess-mesh/cleanup.py:91-102 | with drop set, each visited triangle is kept or conflicts with the kept ones |
| Orientation.OrientFirst | postprocess-mesh/cleanup.py:91-102 | the first visited triangle is always kept unchanged |
| Orientation.OrientKeepsAll | postprocess-mesh/cleanup.py:91-102 | without drop, the output is as long as the visit list and holds each visited triangle at its own place, flipped exactly when it conflicts with those before it |
| Orientation.NoSharedDistinct | postprocess-mesh/src/main.rs:143-161 | a consistently oriented list holds no triangle twice |
| Orientation.SublistNoShared | postprocess-mesh/src/main.rs:191-200 | deleting triangles keeps a list consistently oriented |
| Graph.AdjacencyOfFacts | postprocess-mesh/cleanup.py:160-166 | the adjacency has a key for every endpoint, is closed and symmetric, and joins u with w iff (u, w) or (w, u) is an edge |
| Graph.ReachableRefl | postprocess-mesh/src/main.rs:205-217 | a key reaches itself |
| Graph.ReachableStep | postprocess-mesh/src/main.rs:205-217 | reachability extends along one adjacency |
| Graph.ReachableTrans | postprocess-mesh/src/main.rs:205-217 | reachability is transitive |
| Graph.ReachableSymmetric | postprocess-mesh/src/main.rs:205-217 | on a symmetric adjacency, reachability is symmetric |
| Graph.ClosedSetHoldsReach | postprocess-mesh/src/main.rs:205-217 | a set no edge leaves holds everything reachable from its members |
| Graph.Dfs | postprocess-mesh/src/main.rs:205-217 | the search keeps the keys, marks only vertices reachable from node, and, when the marked set was closed, marks exactly them and the earlier marks and leaves a closed marked set |
| Graph.DfsSkip | postprocess-mesh/cleanup.py:146-148 | popping an already visited vertex keeps the search invariant |
| Graph.DfsMark | postprocess-mesh/cleanup.py:148-152 | marking a popped vertex and pushing its unvisited neighbours keeps the search invariant |
| Graph.PushUnvisited | postprocess-mesh/src/main.rs:210-214 | the stack keeps its old entries first and gains exactly the unvisited neighbours |
| Graph.DfsFinish | postprocess-mesh/src/main.rs:207-216 | with the stack empty, the marked set grew by exactly the vertices reachable from node |
| Graph.SameClass | postprocess-mesh/src/main.rs:233-238 | mutually reachable vertices reach the same vertices |
| Graph.BuildAdjacency | postprocess-mesh/src/main.rs:224-228 | the loop builds the adjacency of the edge set |
| Graph.AdjacencyAdd | postprocess-mesh/cleanup.py:139-141 | `add_edge` extends the adjacency of the edges so far by one edge |
| Graph.IncludeTwice | postprocess-mesh/cleanup.py:139-141 | linking a and b adds w to the set of u exactly when {u, w} is {a, b} |
| Graph.NumberOfComponents | postprocess-mesh/src/main.rs:219-241 | the result is the number of connected components of the edge set, 0 for none |
| Graph.CountComponents | postprocess-mesh/cleanup.py:169-177 | each search started from an unvisited vertex counts one component, so the count is the number of components |
| Graph.OldComponent | postprocess-mesh/src/main.rs:233-234 | a vertex already visited lies in a component that was already counted |
| Graph.NewComponent | postprocess-mesh/src/main.rs:234-237 | a search from an unvisited vertex marks a component no earlier search met |
| Graph.ComponentCountEmpty | postprocess-mesh/src/main.rs:220-222 | the component count is 0 iff the edge set is empty |
| Graph.ClassesBound | postprocess-mesh/src/main.rs:233-238 | there are no more components than start vertices |
| Graph.ComponentCountBound | postprocess-mesh/src/main.rs:219-241 | the count is at most the number of distinct endpoints |
| Cleanup.PushIncidences | postprocess-mesh/cleanup.py:41-43 | the three appends of a triangle add its incidences to each edge list |
| Cleanup.LinksAdd | postprocess-mesh/cleanup.py:47-52 | pairing the two triangles of a two-entry list extends the neighbour lists by that edge |
| Cleanup.PairPush | postprocess-mesh/cleanup.py:50-52 | the two appends add exactly that pair, in both directions |
| Cleanup.TriangleNeighbors | postprocess-mesh/cleanup.py:38-54 | u is on the neighbour list of t iff the two are the entries of a two-entry edge list |
| Cleanup.EdgeListsStep | postprocess-mesh/cleanup.py:40-43 | one loop step extends the edge lists from a prefix to the next prefix |
| Cleanup.EdgeToTriangles | postprocess-mesh/cleanup.py:39-43 | each edge's list holds the triangles with that edge, in input order, once per slot |
| Cleanup.PairUp | postprocess-mesh/cleanup.py:45-52 | the neighbour lists link exactly the pairs of the two-entry edge lists |
| Cleanup.NeighborsAreAdjacent | postprocess-mesh/cleanup.py:38-54 | neighbour lists built from the edge lists are the adjacency of the input |
| Cleanup.BfsSkip | postprocess-mesh/cleanup.py:71-73 | popping an already visited triangle keeps the traversal invariant |
| Cleanup.BfsVisit | postprocess-mesh/cleanup.py:74-76 | visiting a triangle and queueing its neighbours keeps the traversal invariant |
| Cleanup.VisitOrder | postprocess-mesh/cleanup.py:74-75 | the newly listed triangle neighbours a triangle listed before it |
| Cleanup.VisitQueue | postprocess-mesh/cleanup.py:76 | every queued triangle neighbours a listed one |
| Cleanup.VisitAllTriangles | postprocess-mesh/cleanup.py:57-81 | the list starts with start, holds no triangle twice, lists each later triangle after one it is adjacent to, is in breadth-first order (later triangles come in the order of the earliest triangle they are adjacent to), is closed under adjacency, and holds only start and input triangles; unreachable triangles are dropped |
| Cleanup.Traverse | postprocess-mesh/cleanup.py:69-76 | the FIFO queue loop ends with the traversal invariant, an empty queue and the visit list in breadth-first order |
| Cleanup.EarliestAdjacent | postprocess-mesh/cleanup.py:58-63 | the least position before j whose triangle is edge-adjacent to visit[j], or j when there is none |
| Cleanup.EarliestIs | postprocess-mesh/cleanup.py:58-63 | a position with that property is the earliest adjacent position |
| Cleanup.EarliestPrefix | postprocess-mesh/cleanup.py:74-75 | appending to the visit list does not change the earliest adjacent position of earlier entries |
| Cleanup.OrderSkip | postprocess-mesh/cleanup.py:71-73 | popping an already visited triangle keeps the queue's breadth-first shape |
| Cleanup.PendingSkip | postprocess-mesh/cleanup.py:71-73 | after such a pop, every unvisited neighbour of a visited triangle still waits in the queue |
| Cleanup.OrderVisitFirst | postprocess-mesh/cleanup.py:71-75 | the triangle popped first is adjacent to the visited triangle whose list queued it, and to none before that one |
| Cleanup.NoEarlierLink | postprocess-mesh/cleanup.py:71-76 | no visited triangle before that one has the popped triangle as a neighbour |
| Cleanup.BreadthFirstSnoc | postprocess-mesh/cleanup.py:75 | appending a triangle whose earliest neighbour is not before that of the last one keeps the breadth-first order |
| Cleanup.OrderVisitLinked | postprocess-mesh/cleanup.py:76 | each queued entry stays on the neighbour list of the visited triangle that queued it, new entries on that of the triangle just visited |
| Cleanup.OrderVisitAscending | postprocess-mesh/cleanup.py:76 | `extend` appends at the back of the queue, so the queuing positions along the queue stay ascending |
| Cleanup.OrderVisitPending | postprocess-mesh/cleanup.py:74-76 | after a visit, every unvisited neighbour of every visited triangle waits in the queue, queued from no later position |
| Cleanup.NewNeighborQueued | postprocess-mesh/cleanup.py:76 | the neighbours of the triangle just visited wait at the back of the queue |
| Cleanup.PendingAfterVisit | postprocess-mesh/cleanup.py:71-76 | a waiting neighbour other than the popped triangle keeps its place in the rest of the queue |
| Cleanup.OrderVisit | postprocess-mesh/cleanup.py:71-76 | a visit step keeps the queue's breadth-first shape and the breadth-first order of the visit list |
| Cleanup.Shrinks | postprocess-mesh/cleanup.py:70-75 | each visit shrinks the unvisited part of a finite universe, so the loop ends |
| Cleanup.NeighborsInMesh | postprocess-mesh/cleanup.py:76 | neighbours are triangles of the input |
| Cleanup.BfsResult | postprocess-mesh/cleanup.py:57-81 | the invariant with an empty queue gives every promise of the traversal |
| Cleanup.OrientAlong | postprocess-mesh/cleanup.py:88-102 | the loop computes the orientation function on the visit list |
| Cleanup.OrientTriangles | postprocess-mesh/cleanup.py:84-104 | the output is the orientation along a breadth-first traversal from the first triangle, starts with it, and with drop set is consistently oriented, repeat-free and drawn from the input; without drop each output is an input triangle or its flip |
| Cleanup.OrientFacts | postprocess-mesh/cleanup.py:91-104 | the orientation of a visit list drawn from the input has the properties above |
| Cleanup.PushOpposites | postprocess-mesh/cleanup.py:114-116 | the three appends of a triangle add its opposite vertices to each edge's vertex list |
| Cleanup.OppositeListsStep | postprocess-mesh/cleanup.py:113-116 | one loop step extends the vertex lists and the key set to the next prefix |
| Cleanup.EdgeToVertex | postprocess-mesh/cleanup.py:112-116 | the keys are the edges of the triangles and each edge's list holds the vertex opposite it, per slot |
| Cleanup.CountsStep | postprocess-mesh/cleanup.py:119-122 | one loop step keeps "each count is the degree in the single-entry edges seen so far" |
| Cleanup.BoundaryCounts | postprocess-mesh/cleanup.py:118-122 | the count of each vertex is the number of single-entry edges it is an end of |
| Cleanup.DoubleCounts | postprocess-mesh/cleanup.py:124 | the vertices counted more than twice are the vertices on more than two boundary edges |
| Cleanup.KeepAvoiding | postprocess-mesh/cleanup.py:126-134 | the loop returns the triangles with no bad corner, in input order |
| Cleanup.FindBoundaryIndices | postprocess-mesh/cleanup.py:107-136 | the result is the input filtered by the vertices on more than two boundary edges |
| Cleanup.UsedIndices | postprocess-mesh/cleanup.py:181-185 | the set holds exactly the corners of the triangles |
| Cleanup.IncludeOpposites | postprocess-mesh/cleanup.py:189-191 | the three inserts of a triangle add to each corner the edge opposite it |
| Cleanup.OppositeEdgesStep | postprocess-mesh/cleanup.py:188-191 | one loop step extends every corner's opposite-edge set to the next prefix |
| Cleanup.OppositeEdgeSets | postprocess-mesh/cleanup.py:187-191 | each index's set is the set of edges opposite it in some triangle |
| Cleanup.HourglassMembers | postprocess-mesh/cleanup.py:193-197 | an index is an hourglass vertex iff its link has more than one component, and a used non-hourglass index has a connected link |
| Cleanup.HourglassList | postprocess-mesh/cleanup.py:193-197 | the bad list holds exactly the used indices whose link has more than one component |
| Cleanup.FindHourglassIndices | postprocess-mesh/cleanup.py:180-205 | the result is the input filtered by the hourglass vertices |
| Cleanup.Remap | postprocess-mesh/cleanup.py:225 | each corner of the new triangle is the new index of the old corner |
| Cleanup.NumberingStep | postprocess-mesh/cleanup.py:218-221 | numbering one more index j keeps the map one to one onto 0 .. j, with each point at its new index |
| Cleanup.ExtendOnto | postprocess-mesh/cleanup.py:220-221 | a fresh key numbered j extends a numbering onto 0 .. j - 1 to one onto 0 .. j |
| Cleanup.ExtendPoints | postprocess-mesh/cleanup.py:219-220 | appending the point as new point j keeps every key naming its own point |
| Cleanup.ExtendInjective | postprocess-mesh/cleanup.py:220-221 | a fresh key with a fresh number keeps the map one to one |
| Cleanup.NumberPoints | postprocess-mesh/cleanup.py:215-221 | the keys are the used indices; the map is one to one onto 0 .. len(new_points) - 1; `new_points[new_indices[i]] == points[i]` |
| Cleanup.RenumberTriangles | postprocess-mesh/cleanup.py:223-225 | the same number of triangles, each the renumbering of the old one at its place |
| Cleanup.RemoveUnreferencedIndices | postprocess-mesh/cleanup.py:208-227 | some one-to-one numbering of the used indices onto the new point list relates the output to the input |
| Cleanup.CompactsGeometry | postprocess-mesh/cleanup.py:215-225 | every new triangle indexes the new points, and its corners are the old triangle's points |
| Cleanup.CompactsAllUsed | postprocess-mesh/cleanup.py:215-225 | after compaction, the new points are exactly the points the triangles use |
| Cleanup.NewPointUsed | postprocess-mesh/cleanup.py:215-225 | every new point is a corner of some new triangle |
| Cleanup.RemapCorner | postprocess-mesh/cleanup.py:225 | the new index of a corner is a corner of the renumbered triangle |
| Cleanup.CompactsNoShared | postprocess-mesh/cleanup.py:223-225 | renumbering one to one keeps a mesh consistently oriented |
| Cleanup.LiftInjective | postprocess-mesh/cleanup.py:225 | distinct half-edges stay distinct under a one-to-one renumbering |
| Cleanup.HalfEdgesRemap | postprocess-mesh/cleanup.py:225 | each half-edge of a renumbered triangle is a renumbered half-edge of the old one |
| Cleanup.RemapHalfEdges | postprocess-mesh/cleanup.py:225 | triangles with disjoint half-edges keep disjoint half-edges after renumbering |
| Cleanup.MeshCleanup | postprocess-mesh/cleanup.py:230-240 | the output is the composition of the passes: some breadth-first traversal from the first triangle, oriented with drop, pruned of double-boundary and then hourglass vertices (`Pruned`), and compacted by a bijective numbering; the repaired mesh is consistently oriented, indexes only its own points, and uses every point it keeps |
| Cleanup.Pruned | postprocess-mesh/cleanup.py:235-236 | the two prunes in their order, the second computed on what the first kept; it keeps only triangles of its input |
| Cleanup.PruningKeepsOrientation | postprocess-mesh/cleanup.py:235-236 | both pruning passes keep a consistently oriented sublist of their input |
| Cleanup.InRangeKept | postprocess-mesh/cleanup.py:234-236 | triangles drawn from the input keep indices inside the point list |
| PostprocessMesh.Enumerate | postprocess-mesh/src/main.rs:79 | a walk of a hash set lists every element exactly once |
| PostprocessMesh.Listing | postprocess-mesh/src/main.rs:79 | a fixed listing of a set holds every element once |
| PostprocessMesh.DistinctCounts | postprocess-mesh/src/main.rs:79 | a repeat-free list holds each of its elements once |
| PostprocessMesh.WalksPermute | postprocess-mesh/src/main.rs:79 | any two walks of the same set are permutations of each other |
| PostprocessMesh.TriangleNeighbors | postprocess-mesh/src/main.rs:75-104 | whatever the walk order, u is a neighbour of t iff the two are the entries of a two-entry edge list |
| PostprocessMesh.TraversalOrderFree | postprocess-mesh/src/main.rs:110-134 | a traversal, breadth-first order included, stays a traversal when the triangles are walked in another order |
| PostprocessMesh.VisitAllTriangles | postprocess-mesh/src/main.rs:110-134 | the list starts with start, holds no triangle twice, lists every later triangle after an adjacent one, in breadth-first order, and is closed under adjacency |
| PostprocessMesh.NoSharedAsSet | postprocess-mesh/src/main.rs:143-161 | a consistently oriented list gives a consistently oriented set |
| PostprocessMesh.OrientTriangles | postprocess-mesh/src/main.rs:136-165 | the output is the orientation along a breadth-first traversal from some member and is non-empty; with drop set it is a consistently oriented subset of the input; without drop each output is an input triangle or its flip |
| PostprocessMesh.VertexSetOrderFree | postprocess-mesh/src/main.rs:246-251 | the used indices do not depend on the walk order |
| PostprocessMesh.VertexSetIn | postprocess-mesh/src/main.rs:246-251 | an index used in one walk is used in any other |
| PostprocessMesh.DoubleBoundaryOrderFree | postprocess-mesh/src/main.rs:170-189 | the double-boundary vertices do not depend on the walk order |
| PostprocessMesh.OppositeEdgesMembers | postprocess-mesh/src/main.rs:253-267 | e is opposite v iff some triangle has v as a corner and e across from it |
| PostprocessMesh.HourglassOrderFree | postprocess-mesh/src/main.rs:253-275 | the hourglass vertices do not depend on the walk order |
| PostprocessMesh.AvoidingAsSet | postprocess-mesh/src/main.rs:191-200 | filtering a walk of a set gives the set of its triangles with no bad corner |
| PostprocessMesh.RemoveDoubleBoundaryIndices | postprocess-mesh/src/main.rs:167-203 | a triangle is kept iff it is in the input and none of its corners lies on more than two boundary edges |
| PostprocessMesh.RemoveHourglassIndices | postprocess-mesh/src/main.rs:243-286 | a triangle is kept iff it is in the input and no corner has a link with more than one component |
| PostprocessMesh.UsedBy | postprocess-mesh/src/main.rs:41-44 | every corner of every triangle is a used index |
| PostprocessMesh.UsedByMembers | postprocess-mesh/src/main.rs:41-44 | every used index is a corner of some triangle |
| PostprocessMesh.MinExists | postprocess-mesh/src/main.rs:47 | every non-empty index set has a least element |
| PostprocessMesh.SortedElements | postprocess-mesh/src/main.rs:46-47 | the sorted used indices are strictly increasing and hold exactly the set's elements |
| PostprocessMesh.ConsSorted | postprocess-mesh/src/main.rs:47 | the least element in front of the sorted rest is the sorted whole |
| PostprocessMesh.ElementsSnoc | postprocess-mesh/src/main.rs:51-54 | the elements of a list with one more entry gain that entry |
| PostprocessMesh.IncreasingCard | postprocess-mesh/src/main.rs:46-47 | an increasing list has as many entries as distinct elements |
| PostprocessMesh.SmallerAreFirst | postprocess-mesh/src/main.rs:46-54 | the elements smaller than the k-th sorted element are the first k |
| PostprocessMesh.SmallerMember | postprocess-mesh/src/main.rs:46-54 | in an increasing list, x is an element below its k-th entry iff x is among its first k |
| PostprocessMesh.RankOfSorted | postprocess-mesh/src/main.rs:51-52 | the element at position k of the sorted list has rank k |
| PostprocessMesh.SortedLength | postprocess-mesh/src/main.rs:46-47 | the sorted list has one entry per used index |
| PostprocessMesh.RankOfElement | postprocess-mesh/src/main.rs:51-53 | each used index sits in the sorted list at the position its rank gives |
| PostprocessMesh.RankOnto | postprocess-mesh/src/main.rs:51-52 | every position below the number of used indices is some index's new index |
| PostprocessMesh.RankMapFacts | postprocess-mesh/src/main.rs:49-54 | `point_index_map` is one to one from the used indices onto 0 .. n - 1 |
| PostprocessMesh.RankMonotone | postprocess-mesh/src/main.rs:46-54 | a smaller used index gets a smaller new index: the renumbering is strictly monotone |
| PostprocessMesh.UsedInRange | postprocess-mesh/src/main.rs:53 | when every triangle indexes the coordinates, so does every used index |
| PostprocessMesh.NumberSorted | postprocess-mesh/src/main.rs:49-54 | the k-th sorted index is mapped to k and its point is the k-th new point |
| PostprocessMesh.RenumberSet | postprocess-mesh/src/main.rs:56-62 | the new set holds the renumbering of every triangle |
| PostprocessMesh.SortedNumbering | postprocess-mesh/src/main.rs:49-54 | numbering the sorted list by position numbers each index by its rank |
| PostprocessMesh.RemoveUnreferencedIndices | postprocess-mesh/src/main.rs:37-65 | one new point per used index, each used index's point at its rank, and the triangles renumbered by rank |
| PostprocessMesh.RankPoints | postprocess-mesh/src/main.rs:51-54 | the point listed k-th is the point of the index with rank k |
| PostprocessMesh.RankCompactsIntro | postprocess-mesh/src/main.rs:46-62 | the sorted listing numbered by position, with the triangles renumbered by it, is the rank compaction |
| PostprocessMesh.RankMapCovers | postprocess-mesh/src/main.rs:58-60 | every corner has a new index, so the `unwrap`s succeed; the map is one to one and below the point count |
| PostprocessMesh.RankCompactsSource | postprocess-mesh/src/main.rs:56-62 | each output triangle is the renumbering of an input triangle |
| PostprocessMesh.RankCompactsImage | postprocess-mesh/src/main.rs:56-62 | each input triangle's renumbering is in the output |
| PostprocessMesh.RankCompactsGeometry | postprocess-mesh/src/main.rs:51-62 | every output index is below `new_coordinates.len()`, and `new_coordinates[map[j]] == coordinates[j]` for every corner j |
| PostprocessMesh.RankCompactsAllUsed | postprocess-mesh/src/main.rs:41-62 | the new points are exactly the points the output triangles use |
| PostprocessMesh.RankPointUsed | postprocess-mesh/src/main.rs:49-62 | every new point is a corner of an output triangle |
| PostprocessMesh.RankedPointSource | postprocess-mesh/src/main.rs:49-62 | every new index is a corner of the renumbering of some input triangle |
| PostprocessMesh.ValueSource | postprocess-mesh/src/main.rs:49-62 | every value of a map on the used indices is a corner of a renumbered triangle |
| PostprocessMesh.RankCompactsNoShared | postprocess-mesh/src/main.rs:56-62 | compaction keeps the set consistently oriented |
| PostprocessMesh.RemapInjective | postprocess-mesh/src/main.rs:58-61 | two triangles renumbered alike by a one-to-one map are the same triangle |
| PostprocessMesh.RenumberedCount | postprocess-mesh/src/main.rs:56-62 | a one-to-one renumbering keeps the number of triangles in a set |
| PostprocessMesh.RankCompactsCount | postprocess-mesh/src/main.rs:46-61 | compaction returns as many triangles as it was given |
| PostprocessMesh.Postprocess | postprocess-mesh/src/main.rs:28-32 | the output is the composition of the passes: some breadth-first traversal from a member of the set, oriented with drop, pruned of double-boundary and then hourglass vertices (`Pruned`), and compacted by rank; the repaired mesh is consistently oriented, indexes only its own points, and uses every point it keeps |
| PostprocessMesh.Pruned | postprocess-mesh/src/main.rs:29-30 | the two set prunes in their order, the second computed on what the first kept; the result is a subset of its input |
| Grid.TileIndex | create-outside-surface/src/tiles.rs:155-160 | the index is the floor of (value - origin) / step: k <= (value - origin) / step < k + 1; the outer-shell tiler's `tile_index` in src/tiles.rs is the same function |
| Grid.TileIndexUnique | create-outside-surface/src/tiles.rs:155-160 | the floor is the only integer with that property |
| Grid.TileIndexMonotone | create-outside-surface/src/tiles.rs:119-131 | a smaller value never has a larger tile index |
| Grid.TileIndexTestValues | create-outside-surface/src/tiles.rs:166-172 | 0.4 gives 0, -0.4 gives -1, -0.4 at step 0.4 gives -1, -0.4000001 at step 0.4 gives -2, the tests both tilers carry |
| Grid.MinAlong | create-outside-surface/src/tiles.rs:55-62 | the minimum along an axis is at most every coordinate and equals one of them |
| Grid.MaxAlong | create-outside-surface/src/tiles.rs:55-62 | the maximum along an axis is at least every coordinate and equals one of them |
| Grid.RunStep | create-outside-surface/src/tiles.rs:55-62 | one step of the running `min`/`max`, started at f64::MAX and -f64::MAX, extends them to the next prefix |
| Grid.StepAlongNonNegative | create-outside-surface/src/tiles.rs:64-66 | for a non-empty list the running extrema give the step (max - min) / num_steps, which is never negative |
| Grid.VertexTilesInBox | create-outside-surface/src/tiles.rs:119-131 | the tile of each corner lies inside the triangle's inclusive bounding-box tile range |
| Grid.AddTo | create-outside-surface/src/tiles.rs:87-90 | `entry(k).or_insert(..).insert(v)`: v joins the bucket of k and no other bucket changes; no empty bucket appears |
| Tiling.PointBucketStep | create-outside-surface/src/tiles.rs:82-94 | adding point n to its own tile extends every bucket from the first n points to the first n + 1 |
| Tiling.TriangleBucketAdd | create-outside-surface/src/tiles.rs:133-149 | adding a triangle adds it to exactly the buckets of its tile range |
| Tiling.InsertIntoRange | create-outside-surface/src/tiles.rs:133-140 | the two nested inclusive loops add the triangle to every key of the rectangle and to no other |
| Tiling.PointInOneBucket | create-outside-surface/src/tiles.rs:82-94 | each point index is in the bucket of its own tile and in no other |
| Tiling.TriangleInVertexTiles | create-outside-surface/src/tiles.rs:119-149 | a triangle is in the bucket of the tile of each of its corners |
| Tiling.VertexTileHasTriangles | src/tiles.rs:56-73 | the tile of a point that is a corner of some triangle holds a triangle |
| OutsideTiles.FindInsidePoints | create-outside-surface/src/tiles.rs:10-43 | p is in the result iff p is bucketed in some tile whose triangles are hit by the ray in both directions |
| OutsideTiles.GetStepSizes | create-outside-surface/src/tiles.rs:45-73 | each component is (max - min) / num_steps along its axis, never negative for a non-empty list |
| OutsideTiles.DistributePointsToTiles | create-outside-surface/src/tiles.rs:75-98 | the (y, z) map and the (x, z) map each put every point index in the bucket of its own tile and nowhere else, with no empty bucket |
| OutsideTiles.DistributeTrianglesToTiles | create-outside-surface/src/tiles.rs:100-153 | a triangle is in the bucket of (iy, iz), respectively (ix, iz), iff the key lies in the inclusive tile range of its bounding box |
| ShellTiles.GetStepSizes | src/tiles.rs:3-21 | the x extent / num_steps and the z extent / num_steps, never negative for a non-empty list; y plays no part |
| ShellTiles.DistributePointsToTiles | src/tiles.rs:23-38 | every point index is in the bucket of its own (x, z) tile and nowhere else |
| ShellTiles.DistributeTrianglesToTiles | src/tiles.rs:40-77 | a triangle is in the bucket of (ix, iz) iff the key lies in its inclusive bounding-box tile range |
| Shell.DirectionsOpposite | src/main.rs:18-28 | the second ray direction is the exact negation of the first, and they differ |
| Shell.InsidePoints | src/main.rs:35-57 | p is inside iff it is bucketed in a tile whose triangles are hit upwards and downwards |
| Shell.OutsideTriangles | src/main.rs:59-64 | the loop computes the outer shell |
| Shell.OuterShellMembers | src/main.rs:59-64 | the shell is part of the input, a triangle is kept iff none of a, b, c is inside, and each dropped triangle has an inside corner |
| Shell.OuterShellIdempotent | src/main.rs:59-64 | filtering the shell again removes nothing |
| Shell.OuterShellAntitone | src/main.rs:59-64 | more inside points never keep more triangles |
| Shell.OuterShellValid | src/main.rs:66-67 | with the points written out uncompacted, every kept triangle still indexes the original point list |
| Shell.PointTilesHaveTriangles | src/main.rs:36-37 | the lookup `tiles_to_triangles[&key]` succeeds for every key of the point grouping iff the tile of every point holds a triangle |
| Shell.VerticesCoverTiles | src/main.rs:36-37 | when every point is a corner of a triangle, the tile of every point holds a triangle |
| Shell.InsideInOwnTile | src/main.rs:36-57 | with the maps the tilers build, the tile-wise test is the point-wise one: both rays hit a triangle of the point's own tile |
| Shell.ExtractOuterShell | src/main.rs:30-64 | the inside points are exactly the points both rays classify as inside with the computed step sizes, and the output is the outer shell of those points |

## Left out

- File input and output (`read_mesh`, `write_mesh`, the `io.rs` modules) and the command-line
  handling (clap `Args`, `parse_args`) are not part of this model.
- The Möller–Trumbore ray-triangle test with its 1e-7 epsilon is floating-point numerics. It is
  the parameter `hits`, and a batch test is "some triangle of the set is hit". The files
  `src/intersection.rs` and `create-outside-surface/src/intersection.rs` are not part of this
  model.
- Coordinates are exact reals. f64 rounding, infinities and NaN, and the NaN rules of `min`
  and `max`, are not modelled. The step-size loops require every coordinate to lie within
  ±f64::MAX.
- OutsideTiles.GetStepSizes: for an empty coordinate list it only states that every component
  is negative. In f64 the components are -inf; over the reals they are -2·f64::MAX / num_steps.
- ShellTiles.GetStepSizes: the same weaker statement for an empty coordinate list.
- Grid.TileIndex: the index is an unbounded integer. The saturating f64 to isize cast of
  `floor() as isize` is not modelled.
- OutsideTiles.DistributePointsToTiles, OutsideTiles.DistributeTrianglesToTiles,
  ShellTiles.DistributePointsToTiles, ShellTiles.DistributeTrianglesToTiles: these require
  positive step sizes. A zero step divides by zero in f64, and that case is not modelled.
- Shell.ExtractOuterShell: this requires positive step sizes. It also requires the tile of
  every point to hold a triangle, because otherwise the `tiles_to_triangles[&key]` lookup
  panics.
- Rust hash-map and hash-set iteration order is an arbitrary choice (`:|`), and outputs that
  are sets in the source are Dafny sets. The Rust start triangle `triangles.iter().next()` is
  the first element of an arbitrary walk.
- Python dicts iterate in insertion order. The loops over `edge_to_triangles.items()` and
  `edge_to_vertex.items()` are modelled with keys taken in any order (`:|`). That proves the
  result for every order, insertion order included, so it over-approximates soundly. Python
  set iteration, as in `remove_unreferenced_indices`, is arbitrary.
- Within one neighbour list the breadth-first order follows the order of that list. The list
  order comes from the order of the edges, and it is not pinned down beyond the
  breadth-first clause.
- Panics become preconditions:
  - `unwrap` on an empty triangle set, and `triangles[0]` on an empty list: the input must be
    non-empty;
  - indexing coordinates with an index past their end: the triangles must index the points;
  - `visited[&vertex]` and `adj[&vertex]`: the adjacency is closed and the visited map has
    the same keys.
  - `tiles_to_triangles[&(ix, iz)]` (create-outside-surface/src/tiles.rs:20 and src/main.rs:37):
    every key of the point map is a key of the triangle map. This is the first requires of
    `OutsideTiles.FindInsidePoints` and `Shell.InsidePoints`; for `Shell.ExtractOuterShell` it
    becomes the tile-coverage requires.
- Machine-integer overflow of the usize counters (`component_count`, the `enumerate` index
  of the compaction loop, the boundary counts) is not modelled: they are `nat`. The Python
  counter `j` is an unbounded int and cannot overflow.
- The Python `bad_indices` list is searched with `in`. Only its membership matters, so the
  filter takes the set of its entries.
- Reading `neighbors[triangle]` and `opposite_edges[index]` on a defaultdict creates empty
  entries. No result depends on those entries, and they are not modelled.
- `number_of_components` and `dfs` are the same algorithm in both languages. Both are modelled
  once, in `Graph`. The Python `add_edge` is the same double `Include` as the Rust
  `entry().or_default().insert()`.
- PostprocessMesh.SortedElements: `sort_unstable` is modelled by what it returns, the used
  indices in increasing order. The sorting algorithm is not modelled.
- `convert-format/read.py`, `eeg-positions/extract-eeg-positions.py`, `src/vector.rs` and
  `src/triangle.rs` are not part of this model. Vectors are `Vec3` and triangles are triples
  of `nat`.
