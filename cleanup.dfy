/** The list-based mesh-repair passes: seed-first traversal over edge-adjacent triangles,
    re-orientation by seen half-edges, pruning of vertices with too many boundary edges or
    with a pinched neighbourhood, and compaction of the point list. */
module Cleanup {
  import opened Mesh
  import opened Graph
  import opened Orientation

  type NeighborMap = map<Triangle, seq<Triangle>>

  /** The three appends of one triangle to edge_to_triangles. */
  lemma PushIncidences(em: map<Edge, seq<Triangle>>, t: Triangle)
    ensures forall e :: GetSeq(Push(Push(Push(em, Ordered(t.0, t.1), t), Ordered(t.1, t.2), t), Ordered(t.2, t.0), t), e)
                     == GetSeq(em, e) + Incidences(t, e)
  {
    var m1 := Push(em, Ordered(t.0, t.1), t);
    var m2 := Push(m1, Ordered(t.1, t.2), t);
    var m3 := Push(m2, Ordered(t.2, t.0), t);
    forall e ensures GetSeq(m3, e) == GetSeq(em, e) + Incidences(t, e) {
      var i1 := if Ordered(t.0, t.1) == e then [t] else [];
      var i2 := if Ordered(t.1, t.2) == e then [t] else [];
      var i3 := if Ordered(t.2, t.0) == e then [t] else [];
      assert GetSeq(m1, e) == GetSeq(em, e) + i1;
      assert GetSeq(m2, e) == GetSeq(em, e) + i1 + i2;
      assert GetSeq(m3, e) == GetSeq(em, e) + i1 + i2 + i3;
      assert Incidences(t, e) == i1 + i2 + i3;
      ConcatAssoc(GetSeq(em, e), i1, i2, i3);
    }
  }

  lemma ConcatAssoc<T>(a: seq<T>, b: seq<T>, c: seq<T>, d: seq<T>)
    ensures a + b + c + d == a + (b + c + d)
  {
  }

  /** The neighbour lists hold the pairs of the edges of done. */
  ghost predicate LinksUpTo(nb: NeighborMap, em: map<Edge, seq<Triangle>>, done: set<Edge>) {
    forall t, u :: u in GetSeq(nb, t) <==> exists e :: e in done && e in em && Pair(em[e], t, u)
  }

  /** Pairing the two triangles of a two-entry list links each to the other. */
  lemma LinksAdd(nb: NeighborMap, em: map<Edge, seq<Triangle>>, done: set<Edge>, e: Edge)
    requires LinksUpTo(nb, em, done) && e in em
    ensures var l := em[e];
            LinksUpTo(if |l| == 2 then Push(Push(nb, l[0], l[1]), l[1], l[0]) else nb, em, done + {e})
  {
    var l := em[e];
    var r := if |l| == 2 then Push(Push(nb, l[0], l[1]), l[1], l[0]) else nb;
    forall t, u ensures u in GetSeq(r, t) <==> exists f :: f in done + {e} && f in em && Pair(em[f], t, u) {
      if |l| == 2 {
        PairPush(nb, l, t, u);
      }
      if Pair(l, t, u) {
        assert e in done + {e} && e in em && Pair(em[e], t, u);
      }
    }
  }

  /** Linking the two entries of a pair adds exactly that pair to the neighbour lists. */
  lemma PairPush(nb: NeighborMap, l: seq<Triangle>, t: Triangle, u: Triangle)
    requires |l| == 2
    ensures u in GetSeq(Push(Push(nb, l[0], l[1]), l[1], l[0]), t) <==> u in GetSeq(nb, t) || Pair(l, t, u)
  {
    var r1 := Push(nb, l[0], l[1]);
    assert GetSeq(Push(r1, l[1], l[0]), t) == GetSeq(r1, t) + (if t == l[1] then [l[0]] else []);
    assert GetSeq(r1, t) == GetSeq(nb, t) + (if t == l[0] then [l[1]] else []);
  }

  /** triangle_neighbors: u is a neighbour of t exactly when the two are edge-adjacent. */
  method TriangleNeighbors(ts: seq<Triangle>) returns (nb: NeighborMap)
    ensures forall t, u :: u in GetSeq(nb, t) <==> Adjacent(ts, t, u)
  {
    var em := EdgeToTriangles(ts);
    nb := PairUp(em);
    NeighborsAreAdjacent(ts, em, nb);
  }

  /** em holds the list of every edge of ts. */
  ghost predicate EdgeListsOf(em: map<Edge, seq<Triangle>>, ts: seq<Triangle>) {
    forall e :: GetSeq(em, e) == EdgeList(ts, e)
  }

  /** Appending triangle ts[i] to its three edge lists extends the lists to ts[..i + 1]. */
  lemma EdgeListsStep(em: map<Edge, seq<Triangle>>, ts: seq<Triangle>, i: nat)
    requires i < |ts| && EdgeListsOf(em, ts[..i])
    ensures var t := ts[i];
            EdgeListsOf(Push(Push(Push(em, Ordered(t.0, t.1), t), Ordered(t.1, t.2), t), Ordered(t.2, t.0), t), ts[..i + 1])
  {
    EdgeListStep(ts, i);
    PushIncidences(em, ts[i]);
  }

  /** The first loop of triangle_neighbors: the list of each edge, in input order. */
  method EdgeToTriangles(ts: seq<Triangle>) returns (em: map<Edge, seq<Triangle>>)
    ensures forall e :: GetSeq(em, e) == EdgeList(ts, e)
  {
    em := map[];
    var i: nat := 0;
    while i < |ts|
      invariant i <= |ts|
      invariant EdgeListsOf(em, ts[..i])
    {
      var (a, b, c) := ts[i];
      EdgeListsStep(em, ts, i);
      ghost var next := Push(Push(Push(em, Ordered(a, b), (a, b, c)), Ordered(b, c), (a, b, c)), Ordered(c, a), (a, b, c));
      em := Push(em, Ordered(a, b), (a, b, c));
      em := Push(em, Ordered(b, c), (a, b, c));
      em := Push(em, Ordered(c, a), (a, b, c));
      assert em == next;
      i := i + 1;
    }
    assert ts[..|ts|] == ts;
  }

  /** The second loop of triangle_neighbors: the two triangles of each two-entry list become
      each other's neighbours. */
  method PairUp(em: map<Edge, seq<Triangle>>) returns (nb: NeighborMap)
    ensures LinksUpTo(nb, em, em.Keys)
  {
    nb := map[];
    var edges := em.Keys;
    ghost var done: set<Edge> := {};
    while edges != {}
      invariant edges <= em.Keys && done == em.Keys - edges
      invariant LinksUpTo(nb, em, done)
      decreases edges
    {
      var e :| e in edges;
      LinksAdd(nb, em, done, e);
      var l := em[e];
      if |l| == 2 {
        var t1, t2 := l[0], l[1];
        nb := Push(nb, t1, t2);
        nb := Push(nb, t2, t1);
      }
      edges := edges - {e};
      done := done + {e};
    }
    assert done == em.Keys;
  }

  lemma NeighborsAreAdjacent(ts: seq<Triangle>, em: map<Edge, seq<Triangle>>, nb: NeighborMap)
    requires forall e :: GetSeq(em, e) == EdgeList(ts, e)
    requires LinksUpTo(nb, em, em.Keys)
    ensures forall t, u :: u in GetSeq(nb, t) <==> Adjacent(ts, t, u)
  {
    forall t, u ensures u in GetSeq(nb, t) <==> Adjacent(ts, t, u) {
      if Adjacent(ts, t, u) {
        var e :| Pair(EdgeList(ts, e), t, u);
        assert GetSeq(em, e) != [];
      }
      if u in GetSeq(nb, t) {
        var e :| e in em && Pair(em[e], t, u);
        assert em[e] == GetSeq(em, e);
      }
    }
  }

  /** What the traversal keeps true: visit lists the visited triangles once each, the seed
      first, each later one a neighbour of an earlier one; the queue holds the seed or
      neighbours of visited triangles; every neighbour of a visited triangle is visited or queued. */
  ghost predicate BfsInvariant(nb: NeighborMap, start: Triangle, visited: set<Triangle>, visit: seq<Triangle>, queue: seq<Triangle>) {
    && (forall t :: t in visited <==> t in visit)
    && Distinct(visit)
    && (|visit| == 0 ==> queue == [start])
    && (|visit| > 0 ==> visit[0] == start)
    && (forall j :: 0 < j < |visit| ==> Reached(nb, visit[..j], visit[j]))
    && (forall x :: x in queue && |visit| > 0 ==> Reached(nb, visit, x))
    && (forall t, u :: t in visited && u in GetSeq(nb, t) ==> u in visited || u in queue)
  }

  /** x is a neighbour of some triangle of visit. */
  ghost predicate Reached(nb: NeighborMap, visit: seq<Triangle>, x: Triangle) {
    exists k :: 0 <= k < |visit| && x in GetSeq(nb, visit[k])
  }

  /** visit[j] is edge-adjacent to a triangle listed before it. */
  ghost predicate AdjacentToEarlier(ts: seq<Triangle>, visit: seq<Triangle>, j: nat)
    requires j < |visit|
  {
    exists k :: 0 <= k < j && Adjacent(ts, visit[k], visit[j])
  }

  /** The position of the earliest of visit[i..j-1] that is edge-adjacent to visit[j], or j
      when none is: in a breadth-first traversal, the triangle whose neighbour list first
      queued visit[j]. */
  ghost function EarliestAdjacent(ts: seq<Triangle>, visit: seq<Triangle>, j: nat, i: nat): (m: nat)
    requires i <= j < |visit|
    ensures i <= m <= j
    ensures m < j ==> Adjacent(ts, visit[m], visit[j])
    ensures forall k :: i <= k < m ==> !Adjacent(ts, visit[k], visit[j])
    decreases j - i
  {
    if i == j then j
    else if Adjacent(ts, visit[i], visit[j]) then i
    else EarliestAdjacent(ts, visit, j, i + 1)
  }

  /** Breadth-first order: all neighbours of a triangle come before the neighbours of any
      later one, that is, the triangles after the first are listed in the order of the
      earliest triangle they are adjacent to. */
  ghost predicate BreadthFirst(ts: seq<Triangle>, visit: seq<Triangle>) {
    forall j, k :: 0 < j < k < |visit| ==> EarliestAdjacent(ts, visit, j, 0) <= EarliestAdjacent(ts, visit, k, 0)
  }

  /** The earliest adjacent position is the one position with its defining property. */
  lemma EarliestIs(ts: seq<Triangle>, visit: seq<Triangle>, j: nat, m: nat)
    requires m <= j < |visit|
    requires m < j ==> Adjacent(ts, visit[m], visit[j])
    requires forall k :: 0 <= k < m ==> !Adjacent(ts, visit[k], visit[j])
    ensures EarliestAdjacent(ts, visit, j, 0) == m
  {
  }

  /** Appending to the visit list leaves the earliest adjacent position of earlier entries alone. */
  lemma EarliestPrefix(ts: seq<Triangle>, visit: seq<Triangle>, longer: seq<Triangle>, j: nat)
    requires j < |visit| <= |longer| && visit == longer[..|visit|]
    ensures EarliestAdjacent(ts, longer, j, 0) == EarliestAdjacent(ts, visit, j, 0)
  {
    var m := EarliestAdjacent(ts, visit, j, 0);
    assert longer[j] == visit[j];
    assert forall k :: 0 <= k <= m ==> longer[k] == visit[k];
    EarliestIs(ts, longer, j, m);
  }

  /** n copies of x. */
  function Repeat(n: nat, x: nat): (r: seq<nat>)
    ensures |r| == n && forall i :: 0 <= i < n ==> r[i] == x
  {
    if n == 0 then [] else [x] + Repeat(n - 1, x)
  }

  /** Each queued triangle queue[p] is on the neighbour list of visit[origin[p]], the visited
      triangle whose list queued it. */
  ghost predicate OriginsLinked(nb: NeighborMap, visit: seq<Triangle>, queue: seq<Triangle>, origin: seq<nat>) {
    && |origin| == |queue|
    && (|visit| > 0 ==> forall p :: 0 <= p < |queue| ==> origin[p] < |visit| && queue[p] in GetSeq(nb, visit[origin[p]]))
  }

  /** The origins never decrease along the queue. */
  ghost predicate Ascending(origin: seq<nat>) {
    forall p, q :: 0 <= p < q < |origin| ==> origin[p] <= origin[q]
  }

  /** Every unvisited neighbour of visit[i] waits in the queue with an origin of at most i. */
  ghost predicate PendingQueued(nb: NeighborMap, visit: seq<Triangle>, queue: seq<Triangle>, origin: seq<nat>)
    requires |origin| == |queue|
  {
    forall x, i :: 0 <= i < |visit| && x !in visit && x in GetSeq(nb, visit[i]) ==>
      exists p :: 0 <= p < |queue| && queue[p] == x && origin[p] <= i
  }

  /** The queue's breadth-first shape: the origins are correct and ascending, none is below the
      earliest adjacent position of the last visited triangle, every unvisited neighbour waits in
      the queue, and visit is in breadth-first order. */
  ghost predicate QueueOrder(ts: seq<Triangle>, nb: NeighborMap, visit: seq<Triangle>, queue: seq<Triangle>, origin: seq<nat>) {
    && OriginsLinked(nb, visit, queue, origin)
    && Ascending(origin)
    && (|visit| > 1 && |queue| > 0 ==> EarliestAdjacent(ts, visit, |visit| - 1, 0) <= origin[0])
    && PendingQueued(nb, visit, queue, origin)
    && BreadthFirst(ts, visit)
  }

  /** Popping a triangle already visited keeps the queue's shape. */
  lemma OrderSkip(ts: seq<Triangle>, nb: NeighborMap, visit: seq<Triangle>, queue: seq<Triangle>, origin: seq<nat>)
    requires QueueOrder(ts, nb, visit, queue, origin)
    requires |queue| > 0 && queue[0] in visit
    ensures QueueOrder(ts, nb, visit, queue[1..], origin[1..])
  {
    PendingSkip(nb, visit, queue, origin);
  }

  /** Popping a triangle already visited keeps every unvisited neighbour waiting in the queue. */
  lemma PendingSkip(nb: NeighborMap, visit: seq<Triangle>, queue: seq<Triangle>, origin: seq<nat>)
    requires |origin| == |queue| && PendingQueued(nb, visit, queue, origin)
    requires |queue| > 0 && queue[0] in visit
    ensures PendingQueued(nb, visit, queue[1..], origin[1..])
  {
    var q, o := queue[1..], origin[1..];
    forall x, i | 0 <= i < |visit| && x !in visit && x in GetSeq(nb, visit[i])
      ensures exists p :: 0 <= p < |q| && q[p] == x && o[p] <= i
    {
      var p :| 0 <= p < |queue| && queue[p] == x && origin[p] <= i;
      assert p != 0 && q[p - 1] == x;
    }
  }

  /** The triangle popped next has its earliest adjacent position at its origin. */
  lemma OrderVisitFirst(ts: seq<Triangle>, nb: NeighborMap, visit: seq<Triangle>, queue: seq<Triangle>, origin: seq<nat>)
    requires forall t, u :: u in GetSeq(nb, t) <==> Adjacent(ts, t, u)
    requires OriginsLinked(nb, visit, queue, origin) && Ascending(origin) && PendingQueued(nb, visit, queue, origin)
    requires |visit| > 0 && |queue| > 0 && queue[0] !in visit
    ensures EarliestAdjacent(ts, visit + [queue[0]], |visit|, 0) == origin[0]
  {
    var t, v' := queue[0], visit + [queue[0]];
    var m := origin[0];
    assert v'[m] == visit[m] && v'[|visit|] == t;
    assert Adjacent(ts, v'[m], v'[|visit|]);
    forall k | 0 <= k < m ensures !Adjacent(ts, v'[k], v'[|visit|]) {
      NoEarlierLink(nb, visit, queue, origin, k);
      assert v'[k] == visit[k];
    }
    EarliestIs(ts, v', |visit|, m);
  }

  /** No visited triangle before the origin of the popped, unvisited triangle has it as a neighbour. */
  lemma NoEarlierLink(nb: NeighborMap, visit: seq<Triangle>, queue: seq<Triangle>, origin: seq<nat>, k: nat)
    requires |origin| == |queue| && Ascending(origin) && PendingQueued(nb, visit, queue, origin)
    requires |queue| > 0 && queue[0] !in visit && k < |visit| && k < origin[0]
    ensures queue[0] !in GetSeq(nb, visit[k])
  {
    assert forall p :: 0 <= p < |queue| ==> origin[0] <= origin[p];
  }

  /** A triangle whose earliest adjacent position is not below that of the last one keeps the
      visit list in breadth-first order. */
  lemma BreadthFirstSnoc(ts: seq<Triangle>, visit: seq<Triangle>, t: Triangle)
    requires BreadthFirst(ts, visit)
    requires |visit| > 1 ==> EarliestAdjacent(ts, visit, |visit| - 1, 0) <= EarliestAdjacent(ts, visit + [t], |visit|, 0)
    ensures BreadthFirst(ts, visit + [t])
  {
    var v' := visit + [t];
    forall j, k | 0 < j < k < |v'|
      ensures EarliestAdjacent(ts, v', j, 0) <= EarliestAdjacent(ts, v', k, 0)
    {
      EarliestPrefix(ts, visit, v', j);
      if k < |visit| {
        EarliestPrefix(ts, visit, v', k);
      } else if j < |visit| - 1 {
        assert EarliestAdjacent(ts, visit, j, 0) <= EarliestAdjacent(ts, visit, |visit| - 1, 0);
      }
    }
  }

  /** Visiting the popped triangle and queueing its neighbours, each with the new position as
      origin, keeps the origins correct. */
  lemma OrderVisitLinked(nb: NeighborMap, visit: seq<Triangle>, queue: seq<Triangle>, origin: seq<nat>)
    requires OriginsLinked(nb, visit, queue, origin)
    requires |queue| > 0 && (|visit| == 0 ==> queue == [queue[0]])
    ensures OriginsLinked(nb, visit + [queue[0]], queue[1..] + GetSeq(nb, queue[0]), origin[1..] + Repeat(|GetSeq(nb, queue[0])|, |visit|))
  {
    var t, j := queue[0], |visit|;
    var next := GetSeq(nb, t);
    var v', q', o' := visit + [t], queue[1..] + next, origin[1..] + Repeat(|next|, j);
    var n := |queue| - 1;
    forall p | 0 <= p < |q'| ensures o'[p] < |v'| && q'[p] in GetSeq(nb, v'[o'[p]]) {
      if p < n {
        assert q'[p] == queue[p + 1] && o'[p] == origin[p + 1] && v'[origin[p + 1]] == visit[origin[p + 1]];
      } else {
        assert q'[p] == next[p - n] && o'[p] == j && v'[j] == t;
      }
    }
  }

  /** The new origins, all the new position, come after the old ones, so the origins stay ascending. */
  lemma OrderVisitAscending(origin: seq<nat>, count: nat, j: nat)
    requires Ascending(origin) && |origin| > 0
    requires forall p :: 0 <= p < |origin| ==> origin[p] < j
    ensures Ascending(origin[1..] + Repeat(count, j))
  {
    var o := origin[1..];
    var o' := o + Repeat(count, j);
    forall p, q | 0 <= p < q < |o'| ensures o'[p] <= o'[q] {
      if q < |o| {
        assert o'[p] == origin[p + 1] && o'[q] == origin[q + 1];
      } else if p < |o| {
        assert o'[p] == origin[p + 1] && o'[q] == j;
      } else {
        assert o'[p] == j && o'[q] == j;
      }
    }
  }

  /** After the visit, every unvisited neighbour of a visited triangle still waits in the queue
      with an origin no later than that triangle. */
  lemma OrderVisitPending(nb: NeighborMap, visit: seq<Triangle>, queue: seq<Triangle>, origin: seq<nat>)
    requires |origin| == |queue| && PendingQueued(nb, visit, queue, origin)
    requires |queue| > 0 && queue[0] !in visit
    ensures PendingQueued(nb, visit + [queue[0]], queue[1..] + GetSeq(nb, queue[0]), origin[1..] + Repeat(|GetSeq(nb, queue[0])|, |visit|))
  {
    var v', q', o' := visit + [queue[0]], queue[1..] + GetSeq(nb, queue[0]), origin[1..] + Repeat(|GetSeq(nb, queue[0])|, |visit|);
    forall x, i | 0 <= i < |v'| && x !in v' && x in GetSeq(nb, v'[i])
      ensures exists p :: 0 <= p < |q'| && q'[p] == x && o'[p] <= i
    {
      if i == |visit| {
        NewNeighborQueued(queue[1..], GetSeq(nb, queue[0]), origin[1..], |visit|, x);
      } else {
        assert v'[i] == visit[i];
        PendingAfterVisit(nb, visit, queue, origin, x, i);
      }
    }
  }

  /** A neighbour of the triangle just visited waits among the neighbours queued for it, with
      the new position as origin. */
  lemma NewNeighborQueued(rest: seq<Triangle>, next: seq<Triangle>, origin: seq<nat>, j: nat, x: Triangle)
    requires |origin| == |rest| && x in next
    ensures exists p :: 0 <= p < |rest + next| && (rest + next)[p] == x && (origin + Repeat(|next|, j))[p] <= j
  {
    var k :| 0 <= k < |next| && next[k] == x;
    assert (rest + next)[|rest| + k] == x;
    assert (origin + Repeat(|next|, j))[|rest| + k] == j;
  }

  /** An unvisited neighbour x of an earlier visited triangle visit[i] waits in the rest of the
      queue, with its old origin. */
  lemma PendingAfterVisit(nb: NeighborMap, visit: seq<Triangle>, queue: seq<Triangle>, origin: seq<nat>, x: Triangle, i: nat)
    requires |origin| == |queue| && PendingQueued(nb, visit, queue, origin)
    requires |queue| > 0 && queue[0] !in visit
    requires i < |visit| && x !in visit && x != queue[0] && x in GetSeq(nb, visit[i])
    ensures var q', o' := queue[1..] + GetSeq(nb, queue[0]), origin[1..] + Repeat(|GetSeq(nb, queue[0])|, |visit|);
            exists p :: 0 <= p < |q'| && q'[p] == x && o'[p] <= i
  {
    var p :| 0 <= p < |queue| && queue[p] == x && origin[p] <= i;
    var q', o' := queue[1..] + GetSeq(nb, queue[0]), origin[1..] + Repeat(|GetSeq(nb, queue[0])|, |visit|);
    assert p != 0 && q'[p - 1] == x && o'[p - 1] == origin[p];
  }

  /** Visiting the popped triangle keeps the queue's breadth-first shape. */
  lemma OrderVisit(ts: seq<Triangle>, nb: NeighborMap, visit: seq<Triangle>, queue: seq<Triangle>, origin: seq<nat>)
    requires forall t, u :: u in GetSeq(nb, t) <==> Adjacent(ts, t, u)
    requires QueueOrder(ts, nb, visit, queue, origin)
    requires |queue| > 0 && queue[0] !in visit
    requires |visit| == 0 ==> queue == [queue[0]]
    ensures QueueOrder(ts, nb, visit + [queue[0]], queue[1..] + GetSeq(nb, queue[0]),
                       origin[1..] + Repeat(|GetSeq(nb, queue[0])|, |visit|))
  {
    var t, j := queue[0], |visit|;
    var count := |GetSeq(nb, t)|;
    var v', q', o' := visit + [t], queue[1..] + GetSeq(nb, t), origin[1..] + Repeat(count, j);
    OrderVisitLinked(nb, visit, queue, origin);
    OrderVisitPending(nb, visit, queue, origin);
    if j == 0 {
      assert o' == Repeat(count, j);
    } else {
      OrderVisitFirst(ts, nb, visit, queue, origin);
      OrderVisitAscending(origin, count, j);
      BreadthFirstSnoc(ts, visit, t);
      if |q'| > 0 {
        assert EarliestAdjacent(ts, v', |v'| - 1, 0) == origin[0];
        if |queue| > 1 {
          assert o'[0] == origin[1];
        } else {
          assert o'[0] == j;
        }
      }
    }
  }

  /** Popping a triangle already visited keeps the invariant. */
  lemma BfsSkip(nb: NeighborMap, start: Triangle, visited: set<Triangle>, visit: seq<Triangle>, queue: seq<Triangle>)
    requires BfsInvariant(nb, start, visited, visit, queue)
    requires |queue| > 0 && queue[0] in visited
    ensures BfsInvariant(nb, start, visited, visit, queue[1..])
  {
    var q := queue[1..];
    forall x | x in q ensures x in queue {
      var k :| 0 <= k < |q| && q[k] == x;
      assert queue[k + 1] == x;
    }
    assert |visit| > 0;
    forall t, u | t in visited && u in GetSeq(nb, t) ensures u in visited || u in q {
      assert u in visited || u in queue;
      if u !in visited {
        assert u != queue[0];
        assert queue == [queue[0]] + q;
      }
    }
  }

  /** Visiting an unvisited triangle and queueing its neighbours keeps the invariant. */
  lemma BfsVisit(nb: NeighborMap, start: Triangle, visited: set<Triangle>, visit: seq<Triangle>, queue: seq<Triangle>)
    requires BfsInvariant(nb, start, visited, visit, queue)
    requires |queue| > 0 && queue[0] !in visited
    ensures BfsInvariant(nb, start, visited + {queue[0]}, visit + [queue[0]], queue[1..] + GetSeq(nb, queue[0]))
  {
    var t := queue[0];
    assert queue == [t] + queue[1..];
    VisitOrder(nb, start, visited, visit, queue);
    VisitQueue(nb, start, visited, visit, queue);
    forall u, w | u in visited + {t} && w in GetSeq(nb, u) ensures w in visited + {t} || w in queue[1..] + GetSeq(nb, t) {
      if u != t && w !in visited && w != t {
        assert w in queue;
      }
    }
  }

  /** The newly visited triangle was queued, so it neighbours an earlier one. */
  lemma VisitOrder(nb: NeighborMap, start: Triangle, visited: set<Triangle>, visit: seq<Triangle>, queue: seq<Triangle>)
    requires BfsInvariant(nb, start, visited, visit, queue)
    requires |queue| > 0
    ensures var visit' := visit + [queue[0]];
            forall j :: 0 < j < |visit'| ==> Reached(nb, visit'[..j], visit'[j])
  {
    var visit' := visit + [queue[0]];
    forall j | 0 < j < |visit'| ensures Reached(nb, visit'[..j], visit'[j]) {
      if j < |visit| {
        assert visit'[..j] == visit[..j];
      } else {
        assert queue[0] in queue && visit'[..j] == visit;
      }
    }
  }

  /** After the visit, every queued triangle neighbours a visited one. */
  lemma VisitQueue(nb: NeighborMap, start: Triangle, visited: set<Triangle>, visit: seq<Triangle>, queue: seq<Triangle>)
    requires BfsInvariant(nb, start, visited, visit, queue)
    requires |queue| > 0
    ensures var visit' := visit + [queue[0]];
            forall x :: x in queue[1..] + GetSeq(nb, queue[0]) ==> Reached(nb, visit', x)
  {
    var t := queue[0];
    var next := GetSeq(nb, t);
    var visit' := visit + [t];
    assert queue == [t] + queue[1..];
    forall x | x in queue[1..] + next ensures Reached(nb, visit', x) {
      if x in next {
        assert visit'[|visit|] == t;
      } else {
        assert x in queue;
        var k :| 0 <= k < |visit| && x in GetSeq(nb, visit[k]);
        assert visit'[k] == visit[k];
      }
    }
  }

  /** visit_all_triangles: a breadth-first traversal from start across edge-adjacent
      triangles. The list starts with start, holds each triangle at most once, lists each
      later triangle after one of its neighbours, in the order of the earliest neighbour, and
      is closed under adjacency; triangles not connected to start are left out. */
  method VisitAllTriangles(ts: seq<Triangle>, start: Triangle) returns (visit: seq<Triangle>)
    ensures |visit| > 0 && visit[0] == start
    ensures Distinct(visit)
    ensures forall j :: 0 < j < |visit| ==> AdjacentToEarlier(ts, visit, j)
    ensures forall t, u :: t in visit && Adjacent(ts, t, u) ==> u in visit
    ensures forall t :: t in visit ==> t == start || t in ts
    ensures BreadthFirst(ts, visit)
  {
    var nb := TriangleNeighbors(ts);
    ghost var universe := (set t | t in ts) + {start};
    NeighborsInMesh(ts, nb, universe);
    var visited;
    visited, visit := Traverse(nb, start, universe, ts);
    BfsResult(ts, nb, start, visited, visit, universe);
  }

  /** The queue loop of visit_all_triangles over the neighbour lists; universe bounds every
      triangle it can meet. */
  method Traverse(nb: NeighborMap, start: Triangle, ghost universe: set<Triangle>, ghost ts: seq<Triangle>)
    returns (visited: set<Triangle>, visit: seq<Triangle>)
    requires start in universe
    requires forall t, u :: u in GetSeq(nb, t) ==> u in universe
    requires forall t, u :: u in GetSeq(nb, t) <==> Adjacent(ts, t, u)
    ensures BfsInvariant(nb, start, visited, visit, []) && visited <= universe
    ensures BreadthFirst(ts, visit)
  {
    visited := {};
    visit := [];
    var queue := [start];
    ghost var origin: seq<nat> := [0];
    while |queue| > 0
      invariant BfsInvariant(nb, start, visited, visit, queue)
      invariant QueueOrder(ts, nb, visit, queue, origin)
      invariant visited <= universe
      invariant forall x :: x in queue ==> x in universe
      decreases |universe - visited|, |queue|
    {
      var triangle := queue[0];
      if triangle in visited {
        BfsSkip(nb, start, visited, visit, queue);
        OrderSkip(ts, nb, visit, queue, origin);
        queue := queue[1..];
        origin := origin[1..];
      } else {
        BfsVisit(nb, start, visited, visit, queue);
        OrderVisit(ts, nb, visit, queue, origin);
        Shrinks(universe, visited, triangle);
        origin := origin[1..] + Repeat(|GetSeq(nb, triangle)|, |visit|);
        visited := visited + {triangle};
        visit := visit + [triangle];
        queue := queue[1..] + GetSeq(nb, triangle);
      }
    }
  }

  lemma Shrinks<T>(universe: set<T>, visited: set<T>, x: T)
    requires x in universe && x !in visited
    ensures |universe - (visited + {x})| < |universe - visited|
  {
    assert universe - (visited + {x}) == (universe - visited) - {x};
  }

  lemma NeighborsInMesh(ts: seq<Triangle>, nb: NeighborMap, universe: set<Triangle>)
    requires forall t, u :: u in GetSeq(nb, t) <==> Adjacent(ts, t, u)
    requires forall u :: u in ts ==> u in universe
    ensures forall t, u :: u in GetSeq(nb, t) ==> u in universe
  {
    forall t, u | u in GetSeq(nb, t) ensures u in universe {
      AdjacentInMesh(ts, t, u);
    }
  }

  /** The invariant with an empty queue gives the traversal's promises. */
  lemma BfsResult(ts: seq<Triangle>, nb: NeighborMap, start: Triangle, visited: set<Triangle>, visit: seq<Triangle>,
                  universe: set<Triangle>)
    requires forall t, u :: u in GetSeq(nb, t) <==> Adjacent(ts, t, u)
    requires BfsInvariant(nb, start, visited, visit, [])
    requires universe == (set t | t in ts) + {start} && visited <= universe
    ensures |visit| > 0 && visit[0] == start
    ensures Distinct(visit)
    ensures forall j :: 0 < j < |visit| ==> AdjacentToEarlier(ts, visit, j)
    ensures forall t, u :: t in visit && Adjacent(ts, t, u) ==> u in visit
    ensures forall t :: t in visit ==> t == start || t in ts
  {
    forall j | 0 < j < |visit| ensures AdjacentToEarlier(ts, visit, j) {
      assert Reached(nb, visit[..j], visit[j]);
      var k :| 0 <= k < j && visit[j] in GetSeq(nb, visit[..j][k]);
      assert visit[..j][k] == visit[k];
    }
    forall t | t in visit ensures t == start || t in ts {
      assert t in universe;
    }
  }


  /** Everything visit_all_triangles promises about its result. */
  ghost predicate Traversal(ts: seq<Triangle>, start: Triangle, visit: seq<Triangle>) {
    && |visit| > 0 && visit[0] == start
    && Distinct(visit)
    && (forall j :: 0 < j < |visit| ==> AdjacentToEarlier(ts, visit, j))
    && (forall t, u :: t in visit && Adjacent(ts, t, u) ==> u in visit)
    && (forall t :: t in visit ==> t == start || t in ts)
    && BreadthFirst(ts, visit)
  }

  /** The loop of _orient_triangles: the half-edge set grows with the half-edges of each
      triangle output, reversed ones included. */
  method OrientAlong(visit: seq<Triangle>, drop: bool) returns (out: seq<Triangle>)
    ensures out == Orient(visit, drop)
  {
    var halfEdges: set<Edge> := {};
    out := [];
    var i: nat := 0;
    while i < |visit|
      invariant i <= |visit|
      invariant out == Orient(visit[..i], drop)
      invariant halfEdges == HalfEdgesOf(out)
    {
      var (a, b, c) := visit[i];
      OrientStep(visit, i, drop);
      if (a, b) in halfEdges || (b, c) in halfEdges || (c, a) in halfEdges {
        if !drop {
          HalfEdgesSnoc(out, (c, b, a));
          out := out + [(c, b, a)];
          halfEdges := halfEdges + {(c, b), (b, a), (a, c)};
        }
      } else {
        HalfEdgesSnoc(out, (a, b, c));
        out := out + [(a, b, c)];
        halfEdges := halfEdges + {(a, b), (b, c), (c, a)};
      }
      i := i + 1;
    }
    assert visit[..|visit|] == visit;
  }

  /** One more visited triangle extends the orientation of the prefix by at most one entry. */
  lemma OrientStep(visit: seq<Triangle>, i: nat, drop: bool)
    requires i < |visit|
    ensures var o := Orient(visit[..i], drop);
            Orient(visit[..i + 1], drop)
            == if Conflicts(visit[i], HalfEdgesOf(o)) then (if drop then o else o + [Reverse(visit[i])]) else o + [visit[i]]
  {
    assert visit[..i + 1][..i] == visit[..i];
  }

  /** The half-edges of a list grown by one triangle. */
  lemma HalfEdgesSnoc(ts: seq<Triangle>, t: Triangle)
    ensures HalfEdgesOf(ts + [t]) == HalfEdgesOf(ts) + HalfEdges(t)
  {
    assert (ts + [t])[..|ts|] == ts;
  }

  /** _orient_triangles: orientation along the traversal from the first triangle. Indexing
      the first triangle fails on an empty list. The first triangle is kept as it is; with
      drop set the result is consistently oriented and holds input triangles only, without
      drop every output triangle is an input triangle or its reversal. */
  method OrientTriangles(ts: seq<Triangle>, drop: bool) returns (out: seq<Triangle>)
    requires |ts| > 0
    ensures exists visit :: Traversal(ts, ts[0], visit) && out == Orient(visit, drop)
    ensures |out| > 0 && out[0] == ts[0]
    ensures drop ==> NoSharedHalfEdge(out) && Distinct(out) && forall t :: t in out ==> t in ts
    ensures !drop ==> forall t :: t in out ==> t in ts || Reverse(t) in ts
  {
    var visit := VisitAllTriangles(ts, ts[0]);
    assert Traversal(ts, ts[0], visit);
    out := OrientAlong(visit, drop);
    OrientFirst(visit, drop);
    OrientFacts(ts, visit, drop);
  }

  lemma OrientFacts(ts: seq<Triangle>, visit: seq<Triangle>, drop: bool)
    requires forall t :: t in visit ==> t in ts
    ensures drop ==> NoSharedHalfEdge(Orient(visit, drop)) && Distinct(Orient(visit, drop))
                     && forall t :: t in Orient(visit, drop) ==> t in ts
    ensures !drop ==> forall t :: t in Orient(visit, drop) ==> t in ts || Reverse(t) in ts
  {
    var out := Orient(visit, drop);
    if drop {
      OrientNoShared(visit);
      NoSharedDistinct(out);
      OrientSublist(visit);
      SublistFacts(out, visit);
    } else {
      OrientKeepsAll(visit);
      forall t | t in out ensures t in ts || Reverse(t) in ts {
        var k :| 0 <= k < |out| && out[k] == t;
        ReverseFacts(visit[k]);
      }
    }
  }

  /** The three appends of one triangle to edge_to_vertex. */
  lemma PushOpposites(etv: map<Edge, seq<nat>>, t: Triangle)
    ensures forall e :: GetSeq(Push(Push(Push(etv, Ordered(t.0, t.1), t.2), Ordered(t.1, t.2), t.0), Ordered(t.2, t.0), t.1), e)
                     == GetSeq(etv, e) + Opposites(t, e)
  {
    var m1 := Push(etv, Ordered(t.0, t.1), t.2);
    var m2 := Push(m1, Ordered(t.1, t.2), t.0);
    var m3 := Push(m2, Ordered(t.2, t.0), t.1);
    forall e ensures GetSeq(m3, e) == GetSeq(etv, e) + Opposites(t, e) {
      var i1 := if Ordered(t.0, t.1) == e then [t.2] else [];
      var i2 := if Ordered(t.1, t.2) == e then [t.0] else [];
      var i3 := if Ordered(t.2, t.0) == e then [t.1] else [];
      assert GetSeq(m1, e) == GetSeq(etv, e) + i1;
      assert GetSeq(m2, e) == GetSeq(etv, e) + i1 + i2;
      assert GetSeq(m3, e) == GetSeq(etv, e) + i1 + i2 + i3;
      assert Opposites(t, e) == i1 + i2 + i3;
      ConcatAssoc(GetSeq(etv, e), i1, i2, i3);
    }
  }

  /** etv holds the opposite-vertex list of every edge of ts, and only edges of ts are keys. */
  ghost predicate OppositeListsOf(etv: map<Edge, seq<nat>>, ts: seq<Triangle>) {
    && etv.Keys == AllEdges(ts)
    && forall e :: GetSeq(etv, e) == OppositeList(ts, e)
  }

  lemma OppositeListsStep(etv: map<Edge, seq<nat>>, ts: seq<Triangle>, i: nat)
    requires i < |ts| && OppositeListsOf(etv, ts[..i])
    ensures var t := ts[i];
            OppositeListsOf(Push(Push(Push(etv, Ordered(t.0, t.1), t.2), Ordered(t.1, t.2), t.0), Ordered(t.2, t.0), t.1), ts[..i + 1])
  {
    var t := ts[i];
    var prefix := ts[..i + 1];
    assert prefix[..i] == ts[..i] && prefix[i] == t;
    var m3 := Push(Push(Push(etv, Ordered(t.0, t.1), t.2), Ordered(t.1, t.2), t.0), Ordered(t.2, t.0), t.1);
    assert m3.Keys == AllEdges(prefix);
    PushOpposites(etv, t);
    forall e ensures GetSeq(m3, e) == OppositeList(prefix, e) {
      assert OppositeList(prefix, e) == OppositeList(ts[..i], e) + Opposites(t, e);
    }
  }

  /** The first loop of _find_boundary_indices. */
  method EdgeToVertex(ts: seq<Triangle>) returns (etv: map<Edge, seq<nat>>)
    ensures etv.Keys == AllEdges(ts)
    ensures forall e :: GetSeq(etv, e) == OppositeList(ts, e)
  {
    etv := map[];
    var i: nat := 0;
    while i < |ts|
      invariant i <= |ts|
      invariant OppositeListsOf(etv, ts[..i])
    {
      var (a, b, c) := ts[i];
      OppositeListsStep(etv, ts, i);
      etv := Push(etv, Ordered(a, b), c);
      etv := Push(etv, Ordered(b, c), a);
      etv := Push(etv, Ordered(c, a), b);
      i := i + 1;
    }
    assert ts[..|ts|] == ts;
  }

  /** The edges of done whose opposite-vertex list has one entry. */
  ghost function SingleEdges(etv: map<Edge, seq<nat>>, done: set<Edge>): set<Edge> {
    set e | e in done && |GetSeq(etv, e)| == 1
  }

  /** The boundary count of v is its degree in the single edges of done. */
  ghost predicate CountsDegrees(counts: map<nat, nat>, etv: map<Edge, seq<nat>>, done: set<Edge>) {
    forall v :: GetCount(counts, v) == Degree(SingleEdges(etv, done), v)
  }

  lemma CountsStep(counts: map<nat, nat>, etv: map<Edge, seq<nat>>, done: set<Edge>, e: Edge)
    requires CountsDegrees(counts, etv, done) && e !in done
    ensures CountsDegrees(if |GetSeq(etv, e)| == 1 then Bump(Bump(counts, e.0), e.1) else counts, etv, done + {e})
  {
    var B := SingleEdges(etv, done);
    if |GetSeq(etv, e)| == 1 {
      assert SingleEdges(etv, done + {e}) == B + {e};
      forall v ensures GetCount(Bump(Bump(counts, e.0), e.1), v) == Degree(B + {e}, v) {
        DegreeAdd(B, e, v);
      }
    } else {
      assert SingleEdges(etv, done + {e}) == B;
    }
  }

  /** The second loop of _find_boundary_indices: each end of each edge with one opposite
      vertex counts once. */
  method BoundaryCounts(etv: map<Edge, seq<nat>>) returns (counts: map<nat, nat>)
    ensures forall v :: GetCount(counts, v) == Degree(SingleEdges(etv, etv.Keys), v)
  {
    counts := map[];
    var edges := etv.Keys;
    ghost var done: set<Edge> := {};
    while edges != {}
      invariant edges <= etv.Keys && done == etv.Keys - edges
      invariant CountsDegrees(counts, etv, done)
      decreases edges
    {
      var e :| e in edges;
      CountsStep(counts, etv, done, e);
      if |etv[e]| == 1 {
        var (a, b) := e;
        counts := Bump(counts, a);
        counts := Bump(counts, b);
      }
      edges := edges - {e};
      done := done + {e};
    }
    assert done == etv.Keys;
  }

  /** The vertices counted more than twice are the vertices on more than two boundary edges. */
  lemma DoubleCounts(ts: seq<Triangle>, etv: map<Edge, seq<nat>>, counts: map<nat, nat>)
    requires etv.Keys == AllEdges(ts)
    requires forall e :: GetSeq(etv, e) == OppositeList(ts, e)
    requires forall v :: GetCount(counts, v) == Degree(SingleEdges(etv, etv.Keys), v)
    ensures (set k | k in counts && counts[k] > 2) == DoubleBoundaryVertices(ts)
  {
    assert SingleEdges(etv, etv.Keys) == BoundaryEdges(ts) by {
      forall e ensures e in SingleEdges(etv, etv.Keys) <==> e in BoundaryEdges(ts) {
        OppositeListLength(ts, e);
      }
    }
    forall v ensures v in counts && counts[v] > 2 <==> v in DoubleBoundaryVertices(ts) {
      DoubleBoundaryMembers(ts, v);
      assert GetCount(counts, v) == Degree(BoundaryEdges(ts), v);
    }
  }

  /** The last loop of the pruning passes: the triangles with no vertex in bad, in order. */
  method KeepAvoiding(ts: seq<Triangle>, bad: set<nat>) returns (out: seq<Triangle>)
    ensures out == Avoiding(ts, bad)
  {
    out := [];
    var i: nat := 0;
    while i < |ts|
      invariant i <= |ts|
      invariant out == Avoiding(ts[..i], bad)
    {
      var (a, b, c) := ts[i];
      assert ts[..i + 1][..i] == ts[..i];
      if !(a in bad || b in bad || c in bad) {
        out := out + [(a, b, c)];
      }
      i := i + 1;
    }
    assert ts[..|ts|] == ts;
  }

  /** _find_boundary_indices: drop every triangle with a vertex on more than two boundary edges
      (edges held by one triangle slot); the rest keep their order. */
  method FindBoundaryIndices(ts: seq<Triangle>) returns (out: seq<Triangle>)
    ensures out == Avoiding(ts, DoubleBoundaryVertices(ts))
  {
    var etv := EdgeToVertex(ts);
    var counts := BoundaryCounts(etv);
    var double := set k | k in counts && counts[k] > 2;
    DoubleCounts(ts, etv, counts);
    assert double == DoubleBoundaryVertices(ts);
    out := KeepAvoiding(ts, double);
  }

  /** The first loop of the hourglass and compaction passes: the point indices in use. */
  method UsedIndices(ts: seq<Triangle>) returns (indices: set<nat>)
    ensures indices == VertexSet(ts)
  {
    indices := {};
    var i: nat := 0;
    while i < |ts|
      invariant i <= |ts|
      invariant indices == VertexSet(ts[..i])
    {
      var (a, b, c) := ts[i];
      assert ts[..i + 1][..i] == ts[..i];
      indices := indices + {a};
      indices := indices + {b};
      indices := indices + {c};
      i := i + 1;
    }
    assert ts[..|ts|] == ts;
  }

  /** The three inserts of one triangle into opposite_edges. */
  lemma IncludeOpposites(oe: map<nat, set<Edge>>, t: Triangle)
    ensures forall v :: GetSet(Include(Include(Include(oe, t.0, Ordered(t.1, t.2)), t.1, Ordered(t.2, t.0)), t.2, Ordered(t.0, t.1)), v)
                     == GetSet(oe, v) + OppositeAt(t, v)
  {
  }

  ghost predicate OppositeEdgesOf(oe: map<nat, set<Edge>>, ts: seq<Triangle>) {
    forall v :: GetSet(oe, v) == OppositeEdges(ts, v)
  }

  lemma OppositeEdgesStep(oe: map<nat, set<Edge>>, ts: seq<Triangle>, i: nat)
    requires i < |ts| && OppositeEdgesOf(oe, ts[..i])
    ensures var t := ts[i];
            OppositeEdgesOf(Include(Include(Include(oe, t.0, Ordered(t.1, t.2)), t.1, Ordered(t.2, t.0)), t.2, Ordered(t.0, t.1)), ts[..i + 1])
  {
    assert ts[..i + 1][..i] == ts[..i];
    IncludeOpposites(oe, ts[i]);
  }

  /** The second loop of _find_hourglass_indices: the link of every vertex. */
  method OppositeEdgeSets(ts: seq<Triangle>) returns (oe: map<nat, set<Edge>>)
    ensures forall v :: GetSet(oe, v) == OppositeEdges(ts, v)
  {
    oe := map[];
    var i: nat := 0;
    while i < |ts|
      invariant i <= |ts|
      invariant OppositeEdgesOf(oe, ts[..i])
    {
      var (a, b, c) := ts[i];
      OppositeEdgesStep(oe, ts, i);
      oe := Include(oe, a, Ordered(b, c));
      oe := Include(oe, b, Ordered(c, a));
      oe := Include(oe, c, Ordered(a, b));
      i := i + 1;
    }
    assert ts[..|ts|] == ts;
  }

  /** The hourglass vertices: mesh vertices whose link, the edges opposite them, falls apart
      into more than one connected component. */
  ghost function HourglassVertices(ts: seq<Triangle>): set<nat> {
    set v | v in VertexSet(ts) && ComponentCount(OppositeEdges(ts, v)) > 1
  }

  /** A point is an hourglass vertex exactly when its link has more than one component, and
      the link of every other mesh vertex is connected. */
  lemma HourglassMembers(ts: seq<Triangle>, v: nat)
    ensures v in HourglassVertices(ts) <==> ComponentCount(OppositeEdges(ts, v)) > 1
    ensures v in VertexSet(ts) && v !in HourglassVertices(ts) ==> ComponentCount(OppositeEdges(ts, v)) == 1
  {
    OppositeEdgesEmpty(ts, v);
    ComponentCountEmpty(OppositeEdges(ts, v));
  }

  /** The third loop of _find_hourglass_indices, over the used indices in any order. */
  method HourglassList(ts: seq<Triangle>, indices: set<nat>, oe: map<nat, set<Edge>>) returns (bad: seq<nat>)
    requires forall v :: GetSet(oe, v) == OppositeEdges(ts, v)
    ensures forall v :: v in bad <==> v in indices && ComponentCount(OppositeEdges(ts, v)) > 1
  {
    bad := [];
    var todo := indices;
    ghost var done: set<nat> := {};
    while todo != {}
      invariant todo <= indices && done == indices - todo
      invariant forall v :: v in bad <==> v in done && ComponentCount(OppositeEdges(ts, v)) > 1
      decreases todo
    {
      var index :| index in todo;
      var components := NumberOfComponents(GetSet(oe, index));
      if components > 1 {
        bad := bad + [index];
      }
      todo := todo - {index};
      done := done + {index};
    }
  }

  /** _find_hourglass_indices: drop every triangle with an hourglass vertex; the rest keep
      their order. */
  method FindHourglassIndices(ts: seq<Triangle>) returns (out: seq<Triangle>)
    ensures out == Avoiding(ts, HourglassVertices(ts))
  {
    var indices := UsedIndices(ts);
    var oe := OppositeEdgeSets(ts);
    var bad := HourglassList(ts, indices, oe);
    var badSet := set v | v in bad;
    assert badSet == HourglassVertices(ts);
    out := KeepAvoiding(ts, badSet);
  }

  /** The triangle with each index replaced by its new index. */
  function Remap(m: map<nat, nat>, t: Triangle): (r: Triangle)
    requires Vertices(t) <= m.Keys
    ensures r.0 == m[t.0] && r.1 == m[t.1] && r.2 == m[t.2]
  {
    (m[t.0], m[t.1], m[t.2])
  }

  predicate Injective(m: map<nat, nat>) {
    forall i, j :: i in m && j in m && i != j ==> m[i] != m[j]
  }

  /** m renumbers the used points of ts to 0 .. |newPoints| - 1 one to one, newPoints holds
      each used point at its new index, and newTs is ts renumbered. */
  ghost predicate Compacts<P>(m: map<nat, nat>, ts: seq<Triangle>, newTs: seq<Triangle>, points: seq<P>, newPoints: seq<P>) {
    && m.Keys == VertexSet(ts)
    && Injective(m)
    && |newPoints| == |m|
    && (forall i :: i in m ==> i < |points| && m[i] < |newPoints| && newPoints[m[i]] == points[i])
    && (forall p :: 0 <= p < |newPoints| ==> p in m.Values)
    && |newTs| == |ts|
    && (forall k :: 0 <= k < |ts| ==> Vertices(ts[k]) <= m.Keys && newTs[k] == Remap(m, ts[k]))
  }

  /** The renumbering built so far: one to one onto 0 .. j - 1, each point at its new index. */
  ghost predicate Numbering<P>(m: map<nat, nat>, j: nat, points: seq<P>, newPoints: seq<P>) {
    && j == |newPoints| == |m|
    && Injective(m)
    && (forall i :: i in m ==> i < |points| && m[i] < j && newPoints[m[i]] == points[i])
    && (forall p :: 0 <= p < j ==> p in m.Values)
  }

  lemma NumberingStep<P>(m: map<nat, nat>, j: nat, points: seq<P>, newPoints: seq<P>, i: nat)
    requires Numbering(m, j, points, newPoints) && i !in m && i < |points|
    ensures Numbering(m[i := j], j + 1, points, newPoints + [points[i]])
  {
    var m' := m[i := j];
    assert m'.Keys == m.Keys + {i};
    assert |m'| == |m| + 1;
    ExtendOnto(m, j, i);
    ExtendPoints(m, j, points, newPoints, i);
    ExtendInjective(m, j, i);
  }

  /** A fresh key numbered j extends a numbering onto 0 .. j - 1 to one onto 0 .. j. */
  lemma ExtendOnto(m: map<nat, nat>, j: nat, i: nat)
    requires i !in m && forall p :: 0 <= p < j ==> p in m.Values
    ensures var m' := m[i := j]; forall p :: 0 <= p < j + 1 ==> p in m'.Values
  {
    var m' := m[i := j];
    forall p | 0 <= p < j + 1 ensures p in m'.Values {
      if p < j {
        assert p in m.Values;
        var x :| x in m && m[x] == p;
        assert x != i && m'[x] == p;
      } else {
        assert m'[i] == p;
      }
    }
  }

  /** Appending point i as new point j keeps every key naming its own point. */
  lemma ExtendPoints<P>(m: map<nat, nat>, j: nat, points: seq<P>, newPoints: seq<P>, i: nat)
    requires j == |newPoints| && i < |points|
    requires forall x :: x in m ==> x < |points| && m[x] < j && newPoints[m[x]] == points[x]
    ensures var m', np := m[i := j], newPoints + [points[i]];
            forall x :: x in m' ==> x < |points| && m'[x] < j + 1 && np[m'[x]] == points[x]
  {
    var m', np := m[i := j], newPoints + [points[i]];
    forall x | x in m' ensures x < |points| && m'[x] < j + 1 && np[m'[x]] == points[x] {
      if x != i {
        assert m'[x] == m[x] && np[m[x]] == newPoints[m[x]];
      }
    }
  }

  /** A fresh key with a number no key has keeps the map one to one. */
  lemma ExtendInjective(m: map<nat, nat>, j: nat, i: nat)
    requires i !in m && Injective(m) && forall x :: x in m ==> m[x] < j
    ensures Injective(m[i := j])
  {
    var m' := m[i := j];
    forall x, y | x in m' && y in m' && x != y ensures m'[x] != m'[y] {
      if x != i && y != i {
        assert m'[x] == m[x] && m'[y] == m[y];
      }
    }
  }

  /** The second loop of remove_unreferenced_indices: a new index for each used index, in
      the iteration order of the set, and the point it names. */
  method NumberPoints<P>(points: seq<P>, indices: set<nat>) returns (newPoints: seq<P>, newIndices: map<nat, nat>)
    requires forall i :: i in indices ==> i < |points|
    ensures newIndices.Keys == indices
    ensures Numbering(newIndices, |newPoints|, points, newPoints)
  {
    newPoints := [];
    newIndices := map[];
    var j: nat := 0;
    var todo := indices;
    while todo != {}
      invariant todo <= indices && newIndices.Keys == indices - todo
      invariant Numbering(newIndices, j, points, newPoints)
      decreases todo
    {
      var i :| i in todo;
      assert i !in newIndices && i < |points|;
      NumberingStep(newIndices, j, points, newPoints, i);
      newPoints := newPoints + [points[i]];
      newIndices := newIndices[i := j];
      j := j + 1;
      todo := todo - {i};
    }
  }

  /** The third loop of remove_unreferenced_indices. */
  method RenumberTriangles(m: map<nat, nat>, ts: seq<Triangle>) returns (newTs: seq<Triangle>)
    requires VertexSet(ts) <= m.Keys
    ensures |newTs| == |ts|
    ensures forall k :: 0 <= k < |ts| ==> Vertices(ts[k]) <= m.Keys && newTs[k] == Remap(m, ts[k])
  {
    newTs := [];
    var k: nat := 0;
    while k < |ts|
      invariant k <= |ts| && |newTs| == k
      invariant forall l :: 0 <= l < k ==> Vertices(ts[l]) <= m.Keys && newTs[l] == Remap(m, ts[l])
    {
      var (a, b, c) := ts[k];
      VertexSetHas(ts, k);
      newTs := newTs + [(m[a], m[b], m[c])];
      k := k + 1;
    }
  }

  /** remove_unreferenced_indices: the used points, in the iteration order of the index set,
      and the triangles renumbered to them, in input order. Indexing points fails on an index
      past the end of the point list. */
  method RemoveUnreferencedIndices<P>(points: seq<P>, ts: seq<Triangle>) returns (newPoints: seq<P>, newTs: seq<Triangle>)
    requires forall k :: 0 <= k < |ts| ==> InRange(ts[k], |points|)
    ensures exists m :: Compacts(m, ts, newTs, points, newPoints)
  {
    var indices := UsedIndices(ts);
    VertexSetInRange(ts, |points|);
    var newIndices;
    newPoints, newIndices := NumberPoints(points, indices);
    newTs := RenumberTriangles(newIndices, ts);
    assert Compacts(newIndices, ts, newTs, points, newPoints);
  }

  /** After compaction every triangle indexes the new point list and its corners are the
      same points as before. */
  lemma CompactsGeometry<P>(m: map<nat, nat>, ts: seq<Triangle>, newTs: seq<Triangle>, points: seq<P>, newPoints: seq<P>)
    requires Compacts(m, ts, newTs, points, newPoints)
    ensures forall k :: 0 <= k < |newTs| ==>
              && InRange(newTs[k], |newPoints|) && InRange(ts[k], |points|)
              && newPoints[newTs[k].0] == points[ts[k].0]
              && newPoints[newTs[k].1] == points[ts[k].1]
              && newPoints[newTs[k].2] == points[ts[k].2]
  {
    forall k | 0 <= k < |newTs|
      ensures && InRange(newTs[k], |newPoints|) && InRange(ts[k], |points|)
              && newPoints[newTs[k].0] == points[ts[k].0]
              && newPoints[newTs[k].1] == points[ts[k].1]
              && newPoints[newTs[k].2] == points[ts[k].2]
    {
      assert Vertices(ts[k]) <= m.Keys && newTs[k] == Remap(m, ts[k]);
    }
  }

  /** After compaction the new points are exactly the points the triangles use. */
  lemma CompactsAllUsed<P>(m: map<nat, nat>, ts: seq<Triangle>, newTs: seq<Triangle>, points: seq<P>, newPoints: seq<P>)
    requires Compacts(m, ts, newTs, points, newPoints)
    ensures forall v: nat :: v in VertexSet(newTs) <==> v < |newPoints|
  {
    CompactsGeometry(m, ts, newTs, points, newPoints);
    VertexSetInRange(newTs, |newPoints|);
    forall v: nat | v < |newPoints| ensures v in VertexSet(newTs) {
      NewPointUsed(m, ts, newTs, points, newPoints, v);
    }
  }

  lemma NewPointUsed<P>(m: map<nat, nat>, ts: seq<Triangle>, newTs: seq<Triangle>, points: seq<P>, newPoints: seq<P>, p: nat)
    requires Compacts(m, ts, newTs, points, newPoints) && p < |newPoints|
    ensures p in VertexSet(newTs)
  {
    assert p in m.Values;
    var i :| i in m && m[i] == p;
    VertexSetMembers(ts, i);
    var k :| 0 <= k < |ts| && i in Vertices(ts[k]);
    assert Vertices(ts[k]) <= m.Keys && newTs[k] == Remap(m, ts[k]);
    RemapCorner(m, ts[k], i);
    VertexSetHas(newTs, k);
  }

  /** The new index of a corner is a corner of the renumbered triangle. */
  lemma RemapCorner(m: map<nat, nat>, t: Triangle, i: nat)
    requires Vertices(t) <= m.Keys && i in Vertices(t)
    ensures m[i] in Vertices(Remap(m, t))
  {
    assert i == t.0 || i == t.1 || i == t.2;
  }

  /** Renumbering one to one keeps a mesh consistently oriented. */
  lemma CompactsNoShared<P>(m: map<nat, nat>, ts: seq<Triangle>, newTs: seq<Triangle>, points: seq<P>, newPoints: seq<P>)
    requires Compacts(m, ts, newTs, points, newPoints)
    requires NoSharedHalfEdge(ts)
    ensures NoSharedHalfEdge(newTs)
  {
    forall i, j | 0 <= i < j < |newTs| ensures HalfEdges(newTs[i]) !! HalfEdges(newTs[j]) {
      assert HalfEdges(ts[i]) !! HalfEdges(ts[j]);
      RemapHalfEdges(m, ts[i], ts[j]);
    }
  }

  /** A half-edge renumbered. */
  function Lift(m: map<nat, nat>, x: Edge): Edge
    requires x.0 in m && x.1 in m
  {
    (m[x.0], m[x.1])
  }

  lemma LiftInjective(m: map<nat, nat>, x: Edge, y: Edge)
    requires Injective(m) && x.0 in m && x.1 in m && y.0 in m && y.1 in m && x != y
    ensures Lift(m, x) != Lift(m, y)
  {
    if x.0 != y.0 {
      assert m[x.0] != m[y.0];
    } else {
      assert m[x.1] != m[y.1];
    }
  }

  lemma HalfEdgesRemap(m: map<nat, nat>, s: Triangle)
    requires Vertices(s) <= m.Keys
    ensures forall e :: e in HalfEdges(Remap(m, s)) ==> exists x :: x in HalfEdges(s) && x.0 in m && x.1 in m && e == Lift(m, x)
  {
    forall e | e in HalfEdges(Remap(m, s)) ensures exists x :: x in HalfEdges(s) && x.0 in m && x.1 in m && e == Lift(m, x) {
      var x0, x1, x2 := (s.0, s.1), (s.1, s.2), (s.2, s.0);
      assert x0 in HalfEdges(s) && x1 in HalfEdges(s) && x2 in HalfEdges(s);
      assert e == Lift(m, x0) || e == Lift(m, x1) || e == Lift(m, x2);
    }
  }

  lemma RemapHalfEdges(m: map<nat, nat>, s: Triangle, t: Triangle)
    requires Injective(m) && Vertices(s) <= m.Keys && Vertices(t) <= m.Keys
    requires HalfEdges(s) !! HalfEdges(t)
    ensures HalfEdges(Remap(m, s)) !! HalfEdges(Remap(m, t))
  {
    HalfEdgesRemap(m, s);
    HalfEdgesRemap(m, t);
    forall e | e in HalfEdges(Remap(m, s)) ensures e !in HalfEdges(Remap(m, t)) {
      var x :| x in HalfEdges(s) && x.0 in m && x.1 in m && e == Lift(m, x);
      forall y | y in HalfEdges(t) && y.0 in m && y.1 in m ensures e != Lift(m, y) {
        LiftInjective(m, x, y);
      }
    }
  }

  /** mesh_cleanup between reading and writing: orient dropping bad triangles, prune double
      boundary and hourglass vertices, compact the points. The result is consistently
      oriented, indexes the new point list only, and uses every new point. */
  method MeshCleanup<P>(points: seq<P>, ts: seq<Triangle>) returns (newPoints: seq<P>, newTs: seq<Triangle>)
    requires |ts| > 0
    requires forall k :: 0 <= k < |ts| ==> InRange(ts[k], |points|)
    ensures NoSharedHalfEdge(newTs)
    ensures forall k :: 0 <= k < |newTs| ==> InRange(newTs[k], |newPoints|)
    ensures forall v: nat :: v in VertexSet(newTs) <==> v < |newPoints|
    ensures exists visit, m :: Traversal(ts, ts[0], visit)
                              && Compacts(m, Pruned(Orient(visit, true)), newTs, points, newPoints)
  {
    var oriented := OrientTriangles(ts, true);
    ghost var visit :| Traversal(ts, ts[0], visit) && oriented == Orient(visit, true);
    var pruned := FindBoundaryIndices(oriented);
    var pinched := FindHourglassIndices(pruned);
    assert pinched == Pruned(oriented);
    PruningKeepsOrientation(oriented, DoubleBoundaryVertices(oriented), HourglassVertices(pruned));
    InRangeKept(ts, oriented, pinched, |points|);
    newPoints, newTs := RemoveUnreferencedIndices(points, pinched);
    ghost var m :| Compacts(m, pinched, newTs, points, newPoints);
    CompactsGeometry(m, pinched, newTs, points, newPoints);
    CompactsAllUsed(m, pinched, newTs, points, newPoints);
    CompactsNoShared(m, pinched, newTs, points, newPoints);
    assert Traversal(ts, ts[0], visit) && Compacts(m, Pruned(Orient(visit, true)), newTs, points, newPoints);
  }

  /** The two pruning passes of the cleanup, in their order: first the double-boundary
      vertices of the oriented mesh, then the hourglass vertices of what is left. */
  ghost function Pruned(oriented: seq<Triangle>): (r: seq<Triangle>)
    ensures forall t :: t in r ==> t in oriented
  {
    var pruned := Avoiding(oriented, DoubleBoundaryVertices(oriented));
    AvoidingTwice(oriented, DoubleBoundaryVertices(oriented), HourglassVertices(pruned));
    AvoidingSublist(oriented, DoubleBoundaryVertices(oriented) + HourglassVertices(pruned));
    SublistFacts(Avoiding(oriented, DoubleBoundaryVertices(oriented) + HourglassVertices(pruned)), oriented);
    Avoiding(pruned, HourglassVertices(pruned))
  }

  /** The two pruning passes keep a subsequence, so orientation survives them. */
  lemma PruningKeepsOrientation(ts: seq<Triangle>, bad1: set<nat>, bad2: set<nat>)
    requires NoSharedHalfEdge(ts)
    ensures NoSharedHalfEdge(Avoiding(Avoiding(ts, bad1), bad2))
    ensures forall t :: t in Avoiding(Avoiding(ts, bad1), bad2) ==> t in ts
  {
    AvoidingTwice(ts, bad1, bad2);
    AvoidingSublist(ts, bad1 + bad2);
    SublistNoShared(Avoiding(ts, bad1 + bad2), ts);
    SublistFacts(Avoiding(ts, bad1 + bad2), ts);
  }

  lemma InRangeKept(ts: seq<Triangle>, oriented: seq<Triangle>, kept: seq<Triangle>, n: nat)
    requires forall k :: 0 <= k < |ts| ==> InRange(ts[k], n)
    requires forall t :: t in oriented ==> t in ts
    requires forall t :: t in kept ==> t in oriented
    ensures forall k :: 0 <= k < |kept| ==> InRange(kept[k], n)
  {
    forall k | 0 <= k < |kept| ensures InRange(kept[k], n) {
      assert kept[k] in oriented;
    }
  }
}
