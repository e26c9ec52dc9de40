/** The set-based mesh-repair engine. Triangles are kept in hash sets; every pass walks the
    set in its iteration order, which is arbitrary, so each pass is modelled as the list
    pass run on some enumeration of the set, and its result is stated independently of
    that order through the canonical enumeration Listing. */
module PostprocessMesh {
  import opened Mesh
  import opened Orientation
  import Cleanup

  /** A walk of a hash set: every element once, in some order. */
  method Enumerate(tris: set<Triangle>) returns (order: seq<Triangle>)
    ensures Distinct(order)
    ensures forall t :: t in order <==> t in tris
  {
    order := [];
    var rest := tris;
    while rest != {}
      invariant rest <= tris
      invariant Distinct(order)
      invariant forall t :: t in order <==> t in tris - rest
      decreases rest
    {
      var t :| t in rest;
      assert t !in order;
      assert forall i :: 0 <= i < |order| ==> order[i] in order;
      order := order + [t];
      rest := rest - {t};
    }
  }

  /** One fixed enumeration of a set, used to state the passes' results. */
  ghost function Listing(tris: set<Triangle>): (r: seq<Triangle>)
    ensures Distinct(r)
    ensures forall t :: t in r <==> t in tris
    decreases tris
  {
    if tris == {} then []
    else
      var t :| t in tris;
      Listing(tris - {t}) + [t]
  }

  /** A list without repeats holds each of its elements once. */
  lemma {:induction false} DistinctCounts(s: seq<Triangle>)
    requires Distinct(s)
    ensures forall t :: multiset(s)[t] == if t in s then 1 else 0
    decreases |s|
  {
    if |s| > 0 {
      var init := s[..|s| - 1];
      assert s == init + [s[|s| - 1]];
      assert Distinct(init);
      DistinctCounts(init);
      assert s[|s| - 1] !in init;
    }
  }

  /** Any two walks of the same set are permutations of each other. */
  lemma WalksPermute(order: seq<Triangle>, tris: set<Triangle>)
    requires Distinct(order) && forall t :: t in order <==> t in tris
    ensures multiset(order) == multiset(Listing(tris))
  {
    DistinctCounts(order);
    DistinctCounts(Listing(tris));
  }

  /** Edge-adjacency within a set of triangles. */
  ghost predicate AdjacentIn(tris: set<Triangle>, t: Triangle, u: Triangle) {
    Adjacent(Listing(tris), t, u)
  }

  /** triangle_neighbors over a hash set: u is a neighbour of t exactly when the two are
      edge-adjacent, whatever the iteration order. */
  method TriangleNeighbors(tris: set<Triangle>) returns (nb: Cleanup.NeighborMap)
    ensures forall t, u :: u in GetSeq(nb, t) <==> AdjacentIn(tris, t, u)
  {
    var order := Enumerate(tris);
    nb := Cleanup.TriangleNeighbors(order);
    WalksPermute(order, tris);
    forall t, u ensures u in GetSeq(nb, t) <==> AdjacentIn(tris, t, u) {
      AdjacentOrderFree(order, Listing(tris), t, u);
    }
  }

  /** A traversal stays a traversal when the triangles are listed in another order. */
  lemma TraversalOrderFree(a: seq<Triangle>, b: seq<Triangle>, start: Triangle, visit: seq<Triangle>)
    requires multiset(a) == multiset(b)
    requires Cleanup.Traversal(a, start, visit)
    ensures Cleanup.Traversal(b, start, visit)
  {
    forall j | 0 < j < |visit| ensures Cleanup.AdjacentToEarlier(b, visit, j) {
      assert Cleanup.AdjacentToEarlier(a, visit, j);
      var k :| 0 <= k < j && Adjacent(a, visit[k], visit[j]);
      AdjacentOrderFree(a, b, visit[k], visit[j]);
    }
    forall t, u | t in visit && Adjacent(b, t, u) ensures u in visit {
      AdjacentOrderFree(a, b, t, u);
    }
    forall t | t in visit ensures t == start || t in b {
      assert t == start || multiset(a)[t] > 0;
    }
    forall j | 0 < j < |visit| ensures Cleanup.EarliestAdjacent(b, visit, j, 0) == Cleanup.EarliestAdjacent(a, visit, j, 0) {
      var m := Cleanup.EarliestAdjacent(a, visit, j, 0);
      forall k | 0 <= k <= m ensures Adjacent(a, visit[k], visit[j]) <==> Adjacent(b, visit[k], visit[j]) {
        AdjacentOrderFree(a, b, visit[k], visit[j]);
      }
      Cleanup.EarliestIs(b, visit, j, m);
    }
  }

  /** visit_all_triangles over a hash set. */
  method VisitAllTriangles(tris: set<Triangle>, start: Triangle) returns (visit: seq<Triangle>)
    ensures Cleanup.Traversal(Listing(tris), start, visit)
  {
    var order := Enumerate(tris);
    visit := Cleanup.VisitAllTriangles(order, start);
    assert Cleanup.Traversal(order, start, visit);
    WalksPermute(order, tris);
    TraversalOrderFree(order, Listing(tris), start, visit);
  }

  /** No directed half-edge is used by two triangles of the set. */
  ghost predicate SetNoShared(tris: set<Triangle>) {
    forall s, t :: s in tris && t in tris && s != t ==> HalfEdges(s) !! HalfEdges(t)
  }

  lemma NoSharedAsSet(ts: seq<Triangle>)
    requires NoSharedHalfEdge(ts)
    ensures SetNoShared(set t | t in ts)
  {
    forall s, t | s in ts && t in ts && s != t ensures HalfEdges(s) !! HalfEdges(t) {
      var i :| 0 <= i < |ts| && ts[i] == s;
      var j :| 0 <= j < |ts| && ts[j] == t;
      assert i != j;
    }
  }

  /** orient_triangles: orientation along the traversal from the first triangle the set
      yields; an empty set makes the unwrap fail. */
  method OrientTriangles(tris: set<Triangle>, drop: bool) returns (oriented: set<Triangle>)
    requires tris != {}
    ensures exists visit :: |visit| > 0 && visit[0] in tris && Cleanup.Traversal(Listing(tris), visit[0], visit)
                            && oriented == set t | t in Orient(visit, drop)
    ensures oriented != {}
    ensures drop ==> SetNoShared(oriented) && oriented <= tris
    ensures !drop ==> forall t :: t in oriented ==> t in tris || Reverse(t) in tris
  {
    var order := Enumerate(tris);
    var out := Cleanup.OrientTriangles(order, drop);
    oriented := set t | t in out;
    assert out[0] in oriented;
    ghost var visit :| Cleanup.Traversal(order, order[0], visit) && out == Orient(visit, drop);
    WalksPermute(order, tris);
    TraversalOrderFree(order, Listing(tris), order[0], visit);
    if drop {
      NoSharedAsSet(out);
    }
  }

  /** The vertex set, the boundary edges and the links do not depend on the order of the
      triangles. */
  lemma VertexSetOrderFree(a: seq<Triangle>, b: seq<Triangle>)
    requires multiset(a) == multiset(b)
    ensures VertexSet(a) == VertexSet(b)
  {
    forall v | v in VertexSet(a) ensures v in VertexSet(b) {
      VertexSetIn(a, b, v);
    }
    forall v | v in VertexSet(b) ensures v in VertexSet(a) {
      VertexSetIn(b, a, v);
    }
  }

  lemma VertexSetIn(a: seq<Triangle>, b: seq<Triangle>, v: nat)
    requires multiset(a) == multiset(b) && v in VertexSet(a)
    ensures v in VertexSet(b)
  {
    VertexSetMembers(a, v);
    var i :| 0 <= i < |a| && v in Vertices(a[i]);
    assert multiset(b)[a[i]] > 0;
    var k :| 0 <= k < |b| && b[k] == a[i];
    VertexSetMembers(b, v);
  }

  lemma DoubleBoundaryOrderFree(a: seq<Triangle>, b: seq<Triangle>)
    requires multiset(a) == multiset(b)
    ensures DoubleBoundaryVertices(a) == DoubleBoundaryVertices(b)
  {
    forall e ensures e in BoundaryEdges(a) <==> e in BoundaryEdges(b) {
      EdgeListOrderFree(a, b, e);
      EdgeListNonEmpty(a, e);
      EdgeListNonEmpty(b, e);
      assert |EdgeList(a, e)| == |multiset(EdgeList(a, e))|;
      assert |EdgeList(b, e)| == |multiset(EdgeList(b, e))|;
    }
    assert BoundaryEdges(a) == BoundaryEdges(b);
    VertexSetOrderFree(a, b);
  }

  lemma {:induction false} OppositeEdgesMembers(ts: seq<Triangle>, v: nat, e: Edge)
    ensures e in OppositeEdges(ts, v) <==> exists t :: t in ts && e in OppositeAt(t, v)
    decreases |ts|
  {
    if |ts| > 0 {
      var init := ts[..|ts| - 1];
      OppositeEdgesMembers(init, v, e);
      assert ts == init + [ts[|ts| - 1]];
    }
  }

  lemma HourglassOrderFree(a: seq<Triangle>, b: seq<Triangle>)
    requires multiset(a) == multiset(b)
    ensures Cleanup.HourglassVertices(a) == Cleanup.HourglassVertices(b)
  {
    forall v ensures OppositeEdges(a, v) == OppositeEdges(b, v) {
      forall e ensures e in OppositeEdges(a, v) <==> e in OppositeEdges(b, v) {
        OppositeEdgesMembers(a, v, e);
        OppositeEdgesMembers(b, v, e);
        forall t ensures t in a <==> t in b {
          assert t in a <==> multiset(a)[t] > 0;
          assert t in b <==> multiset(b)[t] > 0;
        }
      }
    }
    VertexSetOrderFree(a, b);
  }

  /** The triangles of a set with no vertex in bad. */
  ghost function Without(tris: set<Triangle>, bad: set<nat>): set<Triangle> {
    set t | t in tris && NoVertexIn(t, bad)
  }

  lemma AvoidingAsSet(order: seq<Triangle>, tris: set<Triangle>, bad: set<nat>)
    requires forall t :: t in order <==> t in tris
    ensures (set t | t in Avoiding(order, bad)) == Without(tris, bad)
  {
    forall t ensures t in Avoiding(order, bad) <==> t in tris && NoVertexIn(t, bad) {
      AvoidingMembers(order, bad, t);
    }
  }

  /** remove_double_boundary_indices: the triangles none of whose vertices lies on more than
      two boundary edges. */
  method RemoveDoubleBoundaryIndices(tris: set<Triangle>) returns (kept: set<Triangle>)
    ensures kept == Without(tris, DoubleBoundaryVertices(Listing(tris)))
  {
    var order := Enumerate(tris);
    var out := Cleanup.FindBoundaryIndices(order);
    kept := set t | t in out;
    WalksPermute(order, tris);
    DoubleBoundaryOrderFree(order, Listing(tris));
    AvoidingAsSet(order, tris, DoubleBoundaryVertices(order));
  }

  /** remove_hourglass_indices: the triangles none of whose vertices has a link with more
      than one component. */
  method RemoveHourglassIndices(tris: set<Triangle>) returns (kept: set<Triangle>)
    ensures kept == Without(tris, Cleanup.HourglassVertices(Listing(tris)))
  {
    var order := Enumerate(tris);
    var out := Cleanup.FindHourglassIndices(order);
    kept := set t | t in out;
    WalksPermute(order, tris);
    HourglassOrderFree(order, Listing(tris));
    AvoidingAsSet(order, tris, Cleanup.HourglassVertices(order));
  }

  /** The point indices the triangles of a set use. */
  function UsedBy(tris: set<Triangle>): (used: set<nat>)
    ensures forall t {:trigger Vertices(t)} :: t in tris ==> Vertices(t) <= used
  {
    (set t | t in tris :: t.0) + (set t | t in tris :: t.1) + (set t | t in tris :: t.2)
  }

  /** Each used index is a vertex of some triangle of the set. */
  lemma UsedByMembers(tris: set<Triangle>, v: nat)
    requires v in UsedBy(tris)
    ensures exists t :: t in tris && v in Vertices(t)
  {
  }

  predicate Increasing(s: seq<nat>) {
    forall i, j :: 0 <= i < j < |s| ==> s[i] < s[j]
  }

  /** m is no larger than any element of S. */
  predicate IsLeast(m: nat, S: set<nat>) {
    forall x :: x in S ==> m <= x
  }

  lemma {:induction false} MinExists(S: set<nat>)
    requires S != {}
    ensures exists m :: m in S && IsLeast(m, S)
    decreases S
  {
    var y :| y in S;
    var rest := S - {y};
    if rest == {} {
      assert S == {y};
      assert y in S && IsLeast(y, S);
    } else {
      MinExists(rest);
      var m :| m in rest && IsLeast(m, rest);
      var least := if y < m then y else m;
      forall x | x in S ensures least <= x {
        if x != y {
          assert x in rest;
        }
      }
      assert least in S && IsLeast(least, S);
    }
  }

  /** sort_unstable on the distinct used indices: the elements in increasing order. */
  function SortedElements(S: set<nat>): (s: seq<nat>)
    ensures Increasing(s)
    ensures forall x :: x in s <==> x in S
    decreases S
  {
    if S == {} then []
    else
      MinExists(S);
      var m :| m in S && IsLeast(m, S);
      var rest := SortedElements(S - {m});
      ConsSorted(m, S, rest);
      [m] + rest
  }

  /** The least element in front of the sorted rest is the sorted whole. */
  lemma ConsSorted(m: nat, S: set<nat>, rest: seq<nat>)
    requires m in S && IsLeast(m, S)
    requires Increasing(rest) && forall x :: x in rest <==> x in S - {m}
    ensures Increasing([m] + rest)
    ensures forall x :: x in [m] + rest <==> x in S
  {
    var s := [m] + rest;
    forall i, j | 0 <= i < j < |s| ensures s[i] < s[j] {
      assert s[j] == rest[j - 1] && rest[j - 1] in rest;
      if i > 0 {
        assert s[i] == rest[i - 1];
      }
    }
    forall x ensures x in s <==> x in S {
      assert x in s <==> x == m || x in rest;
    }
  }

  /** The elements of a list of indices. */
  function Elements(s: seq<nat>): set<nat> {
    set x | x in s
  }

  lemma ElementsSnoc(s: seq<nat>, x: nat)
    ensures Elements(s + [x]) == Elements(s) + {x}
  {
    assert forall y :: y in s + [x] <==> y in s || y == x;
  }

  /** The number of elements of an increasing list is the size of its set. */
  lemma {:induction false} IncreasingCard(s: seq<nat>)
    requires Increasing(s)
    ensures |Elements(s)| == |s|
    decreases |s|
  {
    if |s| > 0 {
      var init := s[..|s| - 1];
      var last := s[|s| - 1];
      assert Increasing(init);
      IncreasingCard(init);
      assert s == init + [last];
      ElementsSnoc(init, last);
      assert last !in Elements(init);
    }
  }

  /** The position of v among the sorted elements of S: how many elements are smaller. */
  ghost function Rank(S: set<nat>, v: nat): nat {
    |Smaller(S, v)|
  }

  ghost function Smaller(S: set<nat>, v: nat): set<nat> {
    set x | x in S && x < v
  }

  /** The elements smaller than the k-th of the sorted list are the first k. */
  lemma SmallerAreFirst(S: set<nat>, k: nat)
    requires k < |SortedElements(S)|
    ensures Smaller(S, SortedElements(S)[k]) == Elements(SortedElements(S)[..k])
  {
    forall x ensures x in Smaller(S, SortedElements(S)[k]) <==> x in SortedElements(S)[..k] {
      SmallerMember(SortedElements(S), S, k, x);
    }
  }

  lemma SmallerMember(s: seq<nat>, S: set<nat>, k: nat, x: nat)
    requires Increasing(s) && forall y :: y in s <==> y in S
    requires k < |s|
    ensures x in S && x < s[k] <==> x in s[..k]
  {
    var prefix := s[..k];
    if x in S && x < s[k] {
      var i :| 0 <= i < |s| && s[i] == x;
      assert i < k;
      assert prefix[i] == x;
    }
    if x in prefix {
      var i :| 0 <= i < k && prefix[i] == x;
      assert s[i] == x;
    }
  }

  /** In the sorted list the element at position k has rank k. */
  lemma RankOfSorted(S: set<nat>, k: nat)
    requires k < |SortedElements(S)|
    ensures Rank(S, SortedElements(S)[k]) == k
  {
    var prefix := SortedElements(S)[..k];
    assert Increasing(prefix);
    IncreasingCard(prefix);
    SmallerAreFirst(S, k);
  }

  /** The new index of every used point: its rank. */
  ghost function RankMap(S: set<nat>): map<nat, nat> {
    map v | v in S :: Rank(S, v)
  }

  /** The sorted listing has one position per element. */
  lemma SortedLength(S: set<nat>)
    ensures |SortedElements(S)| == |S|
  {
    IncreasingCard(SortedElements(S));
    assert Elements(SortedElements(S)) == S;
  }

  /** Each element of S sits in the sorted listing at the position its rank gives. */
  lemma RankOfElement(S: set<nat>, v: nat)
    requires v in S
    ensures |SortedElements(S)| == |S|
    ensures Rank(S, v) < |S| && SortedElements(S)[Rank(S, v)] == v
  {
    var s := SortedElements(S);
    SortedLength(S);
    var k :| 0 <= k < |s| && s[k] == v;
    RankOfSorted(S, k);
  }

  /** Each position below |S| is the rank of some element. */
  lemma RankOnto(S: set<nat>, p: nat)
    requires p < |S|
    ensures p in RankMap(S).Values
  {
    var s := SortedElements(S);
    SortedLength(S);
    RankOfSorted(S, p);
    assert RankMap(S)[s[p]] == p;
  }

  /** Ranks number the elements one to one onto 0 .. |S| - 1. */
  lemma RankMapFacts(S: set<nat>)
    ensures RankMap(S).Keys == S
    ensures Cleanup.Injective(RankMap(S))
    ensures forall v :: v in S ==> RankMap(S)[v] < |S|
    ensures forall p :: 0 <= p < |S| ==> p in RankMap(S).Values
  {
    var m := RankMap(S);
    SortedLength(S);
    forall v | v in S ensures m[v] < |S| && SortedElements(S)[m[v]] == v {
      RankOfElement(S, v);
    }
    forall p | 0 <= p < |S| ensures p in m.Values {
      RankOnto(S, p);
    }
  }

  lemma UsedInRange(tris: set<Triangle>, n: nat)
    requires forall t :: t in tris ==> InRange(t, n)
    ensures forall v :: v in UsedBy(tris) ==> v < n
  {
    forall v | v in UsedBy(tris) ensures v < n {
      UsedByMembers(tris, v);
    }
  }

  /** The loop over the sorted indices: the map from old to new index and the new points. */
  method NumberSorted<P>(coords: seq<P>, used: seq<nat>) returns (newCoords: seq<P>, pointIndexMap: map<nat, nat>)
    requires forall k :: 0 <= k < |used| ==> used[k] < |coords|
    requires Increasing(used)
    ensures |newCoords| == |used|
    ensures pointIndexMap.Keys == Elements(used)
    ensures forall k :: 0 <= k < |used| ==> pointIndexMap[used[k]] == k && newCoords[k] == coords[used[k]]
  {
    newCoords := [];
    pointIndexMap := map[];
    var i: nat := 0;
    while i < |used|
      invariant i <= |used| && |newCoords| == i
      invariant pointIndexMap.Keys == Elements(used[..i])
      invariant forall k :: 0 <= k < i ==> used[k] in pointIndexMap && pointIndexMap[used[k]] == k && newCoords[k] == coords[used[k]]
    {
      assert used[..i + 1] == used[..i] + [used[i]];
      ElementsSnoc(used[..i], used[i]);
      pointIndexMap := pointIndexMap[used[i] := i];
      newCoords := newCoords + [coords[used[i]]];
      i := i + 1;
    }
    assert used[..|used|] == used;
  }

  /** The triangles of a set renumbered by m; a triangle with an index m does not map is
      left out. */
  ghost function Renumbered(m: map<nat, nat>, tris: set<Triangle>): set<Triangle> {
    set t | t in tris && Vertices(t) <= m.Keys :: Cleanup.Remap(m, t)
  }

  /** The renumbering loop over the triangle set. */
  method RenumberSet(m: map<nat, nat>, tris: set<Triangle>) returns (newTris: set<Triangle>)
    requires forall t :: t in tris ==> Vertices(t) <= m.Keys
    ensures newTris == Renumbered(m, tris)
  {
    newTris := {};
    var todo := tris;
    ghost var done: set<Triangle> := {};
    while todo != {}
      invariant todo <= tris && done == tris - todo
      invariant newTris == Renumbered(m, done)
      decreases todo
    {
      var t :| t in todo;
      var (a, b, c) := t;
      newTris := newTris + {(m[a], m[b], m[c])};
      todo := todo - {t};
      done := done + {t};
    }
  }

  /** Numbering the sorted elements by position numbers each element by its rank. */
  lemma SortedNumbering(S: set<nat>, s: seq<nat>, m: map<nat, nat>)
    requires s == SortedElements(S)
    requires m.Keys == Elements(s)
    requires forall k :: 0 <= k < |s| ==> m[s[k]] == k
    ensures m == RankMap(S)
  {
    assert Elements(s) == S;
    forall v | v in S ensures m[v] == Rank(S, v) {
      var k :| 0 <= k < |s| && s[k] == v;
      RankOfSorted(S, k);
    }
  }

  /** The result of compaction: the used points listed by rank, and the triangles renumbered
      by the rank map. */
  ghost predicate RankCompacts<P>(coords: seq<P>, tris: set<Triangle>, newCoords: seq<P>, newTris: set<Triangle>) {
    var m := RankMap(UsedBy(tris));
    && |newCoords| == |UsedBy(tris)|
    && (forall v :: v in m ==> v < |coords| && m[v] < |newCoords| && newCoords[m[v]] == coords[v])
    && newTris == Renumbered(m, tris)
  }

  /** remove_unreferenced_indices: the used points in increasing index order, and the
      triangles renumbered to their positions. Indexing the coordinates fails on an index
      past their end. */
  method RemoveUnreferencedIndices<P>(coords: seq<P>, tris: set<Triangle>) returns (newCoords: seq<P>, newTris: set<Triangle>)
    requires forall t :: t in tris ==> InRange(t, |coords|)
    ensures RankCompacts(coords, tris, newCoords, newTris)
  {
    var usedSet := UsedBy(tris);
    UsedInRange(tris, |coords|);
    var used := SortedElements(usedSet);
    assert forall k :: 0 <= k < |used| ==> used[k] in usedSet;
    var newIndices;
    newCoords, newIndices := NumberSorted(coords, used);
    SortedNumbering(usedSet, used, newIndices);
    newTris := RenumberSet(newIndices, tris);
    RankCompactsIntro(coords, tris, used, newCoords, newTris);
  }

  /** The point listed at position k of the sorted listing is listed at its rank. */
  lemma RankPoints<P>(coords: seq<P>, S: set<nat>, used: seq<nat>, newCoords: seq<P>)
    requires used == SortedElements(S)
    requires |newCoords| == |used|
    requires forall k :: 0 <= k < |used| ==> used[k] < |coords| && newCoords[k] == coords[used[k]]
    ensures |newCoords| == |S|
    ensures forall v :: v in RankMap(S) ==> v < |coords| && RankMap(S)[v] < |newCoords| && newCoords[RankMap(S)[v]] == coords[v]
  {
    IncreasingCard(used);
    assert Elements(used) == S;
    forall v | v in RankMap(S) ensures v < |coords| && RankMap(S)[v] < |newCoords| && newCoords[RankMap(S)[v]] == coords[v] {
      var k :| 0 <= k < |used| && used[k] == v;
      RankOfSorted(S, k);
    }
  }

  /** The sorted listing numbered by position, with the triangles renumbered by that map,
      is the rank compaction. */
  lemma RankCompactsIntro<P>(coords: seq<P>, tris: set<Triangle>, used: seq<nat>, newCoords: seq<P>, newTris: set<Triangle>)
    requires forall v :: v in UsedBy(tris) ==> v < |coords|
    requires used == SortedElements(UsedBy(tris))
    requires |newCoords| == |used|
    requires forall k :: 0 <= k < |used| ==> used[k] < |coords| && newCoords[k] == coords[used[k]]
    requires newTris == Renumbered(RankMap(UsedBy(tris)), tris)
    ensures RankCompacts(coords, tris, newCoords, newTris)
  {
    RankPoints(coords, UsedBy(tris), used, newCoords);
  }

  /** The rank map covers every vertex of the set it was built from. */
  lemma RankMapCovers(tris: set<Triangle>)
    ensures forall t :: t in tris ==> Vertices(t) <= RankMap(UsedBy(tris)).Keys
    ensures Cleanup.Injective(RankMap(UsedBy(tris)))
    ensures forall v :: v in UsedBy(tris) ==> RankMap(UsedBy(tris))[v] < |UsedBy(tris)|
  {
    RankMapFacts(UsedBy(tris));
  }

  /** The renumbering keeps the order of the indices: a smaller used index gets a smaller
      new index. */
  lemma RankMonotone(S: set<nat>, u: nat, v: nat)
    requires u in S && v in S && u < v
    ensures RankMap(S)[u] < RankMap(S)[v]
  {
    var A, B := Smaller(S, u), Smaller(S, v);
    assert A <= B && u in B - A;
    assert B == A + (B - A);
    assert |B| == |A| + |B - A|;
  }

  /** Two triangles renumbered alike by a one-to-one map were the same triangle. */
  lemma RemapInjective(m: map<nat, nat>, t: Triangle, u: Triangle)
    requires Cleanup.Injective(m) && Vertices(t) <= m.Keys && Vertices(u) <= m.Keys
    ensures Cleanup.Remap(m, t) == Cleanup.Remap(m, u) ==> t == u
  {
    assert t.0 in m && t.1 in m && t.2 in m && u.0 in m && u.1 in m && u.2 in m;
  }

  /** A one-to-one renumbering of a set of triangles keeps their number. */
  lemma {:induction false} RenumberedCount(m: map<nat, nat>, tris: set<Triangle>)
    requires Cleanup.Injective(m)
    requires forall t :: t in tris ==> Vertices(t) <= m.Keys
    ensures |Renumbered(m, tris)| == |tris|
    decreases tris
  {
    if tris == {} {
      assert Renumbered(m, tris) == {};
    } else {
      var t :| t in tris;
      var rest := tris - {t};
      RenumberedCount(m, rest);
      var r := Cleanup.Remap(m, t);
      assert Renumbered(m, tris) == Renumbered(m, rest) + {r};
      assert r !in Renumbered(m, rest) by {
        forall u | u in rest && Vertices(u) <= m.Keys ensures Cleanup.Remap(m, u) != r {
          RemapInjective(m, t, u);
        }
      }
    }
  }

  /** Compaction keeps every triangle: as many come out as went in. */
  lemma RankCompactsCount<P>(coords: seq<P>, tris: set<Triangle>, newCoords: seq<P>, newTris: set<Triangle>)
    requires RankCompacts(coords, tris, newCoords, newTris)
    ensures |newTris| == |tris|
  {
    RankMapCovers(tris);
    RenumberedCount(RankMap(UsedBy(tris)), tris);
  }

  /** A compacted triangle is the renumbering of a triangle of the input. */
  lemma RankCompactsSource<P>(coords: seq<P>, tris: set<Triangle>, newCoords: seq<P>, newTris: set<Triangle>, r: Triangle)
    requires RankCompacts(coords, tris, newCoords, newTris) && r in newTris
    ensures exists t :: t in tris && Vertices(t) <= RankMap(UsedBy(tris)).Keys && r == Cleanup.Remap(RankMap(UsedBy(tris)), t)
  {
  }

  /** Every input triangle has its renumbering in the output. */
  lemma RankCompactsImage<P>(coords: seq<P>, tris: set<Triangle>, newCoords: seq<P>, newTris: set<Triangle>, t: Triangle)
    requires RankCompacts(coords, tris, newCoords, newTris) && t in tris
    ensures Vertices(t) <= RankMap(UsedBy(tris)).Keys && Cleanup.Remap(RankMap(UsedBy(tris)), t) in newTris
  {
    RankMapCovers(tris);
  }

  /** After compaction every triangle indexes the new point list, and its corners are the
      points the triangle it came from had. */
  lemma RankCompactsGeometry<P>(coords: seq<P>, tris: set<Triangle>, newCoords: seq<P>, newTris: set<Triangle>)
    requires RankCompacts(coords, tris, newCoords, newTris)
    ensures forall t :: t in newTris ==> InRange(t, |newCoords|)
    ensures forall t :: t in tris ==>
              && InRange(t, |coords|)
              && newCoords[RankMap(UsedBy(tris))[t.0]] == coords[t.0]
              && newCoords[RankMap(UsedBy(tris))[t.1]] == coords[t.1]
              && newCoords[RankMap(UsedBy(tris))[t.2]] == coords[t.2]
  {
    RankMapCovers(tris);
    forall r | r in newTris ensures InRange(r, |newCoords|) {
      RankCompactsSource(coords, tris, newCoords, newTris, r);
    }
  }

  /** After compaction the new points are exactly the points the triangles use. */
  lemma RankCompactsAllUsed<P>(coords: seq<P>, tris: set<Triangle>, newCoords: seq<P>, newTris: set<Triangle>)
    requires RankCompacts(coords, tris, newCoords, newTris)
    ensures forall v: nat :: v in UsedBy(newTris) <==> v < |newCoords|
  {
    RankCompactsGeometry(coords, tris, newCoords, newTris);
    forall v: nat | v in UsedBy(newTris) ensures v < |newCoords| {
      UsedByMembers(newTris, v);
    }
    forall v: nat | v < |newCoords| ensures v in UsedBy(newTris) {
      RankPointUsed(coords, tris, newCoords, newTris, v);
    }
  }

  lemma RankPointUsed<P>(coords: seq<P>, tris: set<Triangle>, newCoords: seq<P>, newTris: set<Triangle>, p: nat)
    requires RankCompacts(coords, tris, newCoords, newTris) && p < |newCoords|
    ensures p in UsedBy(newTris)
  {
    var t := RankedPointSource(tris, p);
    RankCompactsImage(coords, tris, newCoords, newTris, t);
  }

  /** Every rank below the number of used points is a corner of a renumbered triangle. */
  lemma RankedPointSource(tris: set<Triangle>, p: nat) returns (t: Triangle)
    requires p < |UsedBy(tris)|
    ensures t in tris && Vertices(t) <= RankMap(UsedBy(tris)).Keys && p in Vertices(Cleanup.Remap(RankMap(UsedBy(tris)), t))
  {
    RankMapFacts(UsedBy(tris));
    RankMapCovers(tris);
    t := ValueSource(tris, RankMap(UsedBy(tris)), p);
  }

  lemma ValueSource(tris: set<Triangle>, m: map<nat, nat>, p: nat) returns (t: Triangle)
    requires m.Keys == UsedBy(tris) && p in m.Values
    requires forall t :: t in tris ==> Vertices(t) <= m.Keys
    ensures t in tris && p in Vertices(Cleanup.Remap(m, t))
  {
    var x :| x in m && m[x] == p;
    UsedByMembers(tris, x);
    t :| t in tris && x in Vertices(t);
    assert x == t.0 || x == t.1 || x == t.2;
  }

  /** Renumbering one to one keeps the set consistently oriented. */
  lemma RankCompactsNoShared<P>(coords: seq<P>, tris: set<Triangle>, newCoords: seq<P>, newTris: set<Triangle>)
    requires RankCompacts(coords, tris, newCoords, newTris)
    requires SetNoShared(tris)
    ensures SetNoShared(newTris)
  {
    var m := RankMap(UsedBy(tris));
    RankMapCovers(tris);
    forall a, b | a in newTris && b in newTris && a != b ensures HalfEdges(a) !! HalfEdges(b) {
      RankCompactsSource(coords, tris, newCoords, newTris, a);
      RankCompactsSource(coords, tris, newCoords, newTris, b);
      var s :| s in tris && Vertices(s) <= m.Keys && a == Cleanup.Remap(m, s);
      var t :| t in tris && Vertices(t) <= m.Keys && b == Cleanup.Remap(m, t);
      Cleanup.RemapHalfEdges(m, s, t);
    }
  }

  /** The passes of the binary between reading and writing: orient dropping the triangles
      that conflict, prune double boundary and hourglass vertices, compact the points. The
      result is consistently oriented, indexes the new point list only, and uses every new
      point. */
  method Postprocess<P>(coords: seq<P>, tris: set<Triangle>) returns (newCoords: seq<P>, newTris: set<Triangle>)
    requires tris != {}
    requires forall t :: t in tris ==> InRange(t, |coords|)
    ensures SetNoShared(newTris)
    ensures forall t :: t in newTris ==> InRange(t, |newCoords|)
    ensures forall v: nat :: v in UsedBy(newTris) <==> v < |newCoords|
    ensures exists visit :: |visit| > 0 && visit[0] in tris && Cleanup.Traversal(Listing(tris), visit[0], visit)
                            && RankCompacts(coords, Pruned(set t | t in Orient(visit, true)), newCoords, newTris)
  {
    var oriented := OrientTriangles(tris, true);
    ghost var visit :| |visit| > 0 && visit[0] in tris && Cleanup.Traversal(Listing(tris), visit[0], visit)
                       && oriented == set t | t in Orient(visit, true);
    var pruned := RemoveDoubleBoundaryIndices(oriented);
    var pinched := RemoveHourglassIndices(pruned);
    assert pinched == Pruned(oriented);
    assert pinched <= oriented;
    newCoords, newTris := RemoveUnreferencedIndices(coords, pinched);
    RankCompactsGeometry(coords, pinched, newCoords, newTris);
    RankCompactsAllUsed(coords, pinched, newCoords, newTris);
    RankCompactsNoShared(coords, pinched, newCoords, newTris);
  }

  /** The two pruning passes of main, in their order: first the double-boundary vertices of
      the oriented set, then the hourglass vertices of what is left. */
  ghost function Pruned(oriented: set<Triangle>): (r: set<Triangle>)
    ensures r <= oriented
  {
    var pruned := Without(oriented, DoubleBoundaryVertices(Listing(oriented)));
    Without(pruned, Cleanup.HourglassVertices(Listing(pruned)))
  }
}
