/** Triangles, edges and the incidence notions shared by the mesh-repair passes: which
    triangles hold an edge, which edges lie on the boundary, which edges are opposite a
    vertex, and the order-preserving filter that drops triangles touching bad vertices. */
module Mesh {
  /** A triangle is an ordered triple of point indices; the order is its winding. */
  type Triangle = (nat, nat, nat)

  /** An edge: an unordered pair of point indices, stored smaller first,
      or a directed half-edge (u, v). */
  type Edge = (nat, nat)

  /** `ordered`: the same two values, the smaller first. */
  function Ordered(a: nat, b: nat): (e: Edge)
    ensures e.0 <= e.1
    ensures (e.0 == a && e.1 == b) || (e.0 == b && e.1 == a)
  {
    if a < b then (a, b) else (b, a)
  }

  /** Ordering forgets which end came first, and only that. */
  lemma OrderedSymmetric(a: nat, b: nat, c: nat, d: nat)
    ensures Ordered(a, b) == Ordered(b, a)
    ensures Ordered(a, b) == Ordered(c, d) <==> (a == c && b == d) || (a == d && b == c)
  {
  }

  // Dictionaries with a default value, as `defaultdict` and `entry().or_default()` give them.

  function GetSeq<K(!new), V>(m: map<K, seq<V>>, k: K): seq<V> {
    if k in m then m[k] else []
  }

  /** `d[k].append(v)`: the list of k grows by v, no other list changes. */
  function Push<K(!new), V>(m: map<K, seq<V>>, k: K, v: V): (r: map<K, seq<V>>)
    ensures forall key :: GetSeq(r, key) == if key == k then GetSeq(m, k) + [v] else GetSeq(m, key)
    ensures r.Keys == m.Keys + {k}
  {
    m[k := GetSeq(m, k) + [v]]
  }

  function GetSet<K(!new), V>(m: map<K, set<V>>, k: K): set<V> {
    if k in m then m[k] else {}
  }

  /** `d[k].add(v)`: the set of k gains v, no other set changes. */
  function Include<K(!new), V>(m: map<K, set<V>>, k: K, v: V): (r: map<K, set<V>>)
    ensures forall key :: GetSet(r, key) == if key == k then GetSet(m, k) + {v} else GetSet(m, key)
    ensures r.Keys == m.Keys + {k}
  {
    m[k := GetSet(m, k) + {v}]
  }

  function GetCount<K(!new)>(m: map<K, nat>, k: K): nat {
    if k in m then m[k] else 0
  }

  /** `d[k] += 1`: the count of k grows by one, no other count changes. */
  function Bump<K(!new)>(m: map<K, nat>, k: K): (r: map<K, nat>)
    ensures forall key :: GetCount(r, key) == GetCount(m, key) + if key == k then 1 else 0
    ensures r.Keys == m.Keys + {k}
  {
    m[k := GetCount(m, k) + 1]
  }

  /** One step of a loop that takes the elements of a set out of todo one by one: done,
      the part of all already taken, grows by the element taken. */
  lemma TakeOne<T>(all: set<T>, todo: set<T>, x: T)
    requires todo <= all && x in todo
    ensures todo - {x} <= all && (all - todo) + {x} == all - (todo - {x})
  {
  }

  /** No entry occurs twice. */
  predicate Distinct<T(==)>(s: seq<T>) {
    forall i, j :: 0 <= i < j < |s| ==> s[i] != s[j]
  }

  /** Every index of t is below n. */
  predicate InRange(t: Triangle, n: nat) {
    t.0 < n && t.1 < n && t.2 < n
  }

  function Vertices(t: Triangle): set<nat> {
    {t.0, t.1, t.2}
  }

  /** The three directed half-edges a triangle traverses in its winding order. */
  function HalfEdges(t: Triangle): set<Edge> {
    {(t.0, t.1), (t.1, t.2), (t.2, t.0)}
  }

  /** The flipped triangle (c, b, a) of (a, b, c). */
  function Reverse(t: Triangle): Triangle {
    (t.2, t.1, t.0)
  }

  /** Flipping is an involution, keeps the vertices and reverses every half-edge. */
  lemma ReverseFacts(t: Triangle)
    ensures Reverse(Reverse(t)) == t
    ensures Vertices(Reverse(t)) == Vertices(t)
    ensures forall u, v :: (u, v) in HalfEdges(Reverse(t)) <==> (v, u) in HalfEdges(t)
  {
  }

  // edge_to_triangles: every triangle is appended, in input order, to the list of each of
  // its three edges (a, b), (b, c), (c, a), once per edge slot.

  /** The entries a triangle adds to the list of edge e. */
  function Incidences(t: Triangle, e: Edge): seq<Triangle> {
    (if Ordered(t.0, t.1) == e then [t] else [])
    + (if Ordered(t.1, t.2) == e then [t] else [])
    + (if Ordered(t.2, t.0) == e then [t] else [])
  }

  /** The list of edge e after all of ts is processed. */
  function EdgeList(ts: seq<Triangle>, e: Edge): seq<Triangle>
    decreases |ts|
  {
    if |ts| == 0 then [] else EdgeList(ts[..|ts| - 1], e) + Incidences(ts[|ts| - 1], e)
  }

  /** Processing one more triangle appends its incidences to every edge list. */
  lemma EdgeListStep(ts: seq<Triangle>, i: nat)
    requires i < |ts|
    ensures forall e :: EdgeList(ts[..i + 1], e) == EdgeList(ts[..i], e) + Incidences(ts[i], e)
  {
    assert ts[..i + 1][..i] == ts[..i];
  }

  /** How many of the three edge slots of t are edge e. */
  function SlotCount(t: Triangle, e: Edge): nat {
    |Incidences(t, e)|
  }

  /** A triangle adds to the list of e only copies of itself, one per slot on e. */
  lemma IncidencesCount(t: Triangle, e: Edge, u: Triangle)
    ensures multiset(Incidences(t, e))[u] == if t == u then SlotCount(u, e) else 0
  {
    SlotCopies(t, u, Ordered(t.0, t.1) == e, Ordered(t.1, t.2) == e, Ordered(t.2, t.0) == e);
  }

  /** Three optional copies of t hold u once per copy when u is t, and never otherwise. */
  lemma SlotCopies(t: Triangle, u: Triangle, p: bool, q: bool, r: bool)
    ensures var s := (if p then [t] else []) + (if q then [t] else []) + (if r then [t] else []);
            multiset(s)[u] == if t == u then |s| else 0
  {
    var a, b, c := if p then [t] else [], if q then [t] else [], if r then [t] else [];
    assert multiset(a + b + c) == multiset(a) + multiset(b) + multiset(c);
  }

  /** The list of e holds each triangle once per copy in ts and per slot on e. */
  lemma {:induction false} EdgeListCount(ts: seq<Triangle>, e: Edge, u: Triangle)
    ensures multiset(EdgeList(ts, e))[u] == multiset(ts)[u] * SlotCount(u, e)
    decreases |ts|
  {
    if |ts| > 0 {
      var init, t := ts[..|ts| - 1], ts[|ts| - 1];
      EdgeListCount(init, e, u);
      IncidencesCount(t, e, u);
      LastCopies(ts, u);
      var n, s := multiset(init)[u], SlotCount(u, e);
      assert multiset(EdgeList(ts, e)) == multiset(EdgeList(init, e)) + multiset(Incidences(t, e));
      MulStep(n, s, t == u);
    }
  }

  /** The copies of u in a non-empty list: those before the last entry, and the last entry. */
  lemma LastCopies(ts: seq<Triangle>, u: Triangle)
    requires |ts| > 0
    ensures multiset(ts)[u] == multiset(ts[..|ts| - 1])[u] + if ts[|ts| - 1] == u then 1 else 0
  {
    assert ts == ts[..|ts| - 1] + [ts[|ts| - 1]];
  }

  lemma MulStep(n: nat, s: nat, b: bool)
    ensures (n + if b then 1 else 0) * s == n * s + if b then s else 0
  {
  }

  /** A triangle on the list of e is a triangle of the mesh that has e as an edge. */
  lemma EdgeListMembers(ts: seq<Triangle>, e: Edge, u: Triangle)
    requires u in EdgeList(ts, e)
    ensures u in ts && SlotCount(u, e) > 0
  {
    EdgeListCount(ts, e, u);
  }

  /** The edge lists depend on the collection of triangles and not on its order. */
  lemma EdgeListOrderFree(ts1: seq<Triangle>, ts2: seq<Triangle>, e: Edge)
    requires multiset(ts1) == multiset(ts2)
    ensures multiset(EdgeList(ts1, e)) == multiset(EdgeList(ts2, e))
  {
    forall u ensures multiset(EdgeList(ts1, e))[u] == multiset(EdgeList(ts2, e))[u] {
      EdgeListCount(ts1, e, u);
      EdgeListCount(ts2, e, u);
    }
  }

  /** A two-entry list pairing t with u, in either order. */
  predicate Pair(l: seq<Triangle>, t: Triangle, u: Triangle) {
    |l| == 2 && ((l[0] == t && l[1] == u) || (l[0] == u && l[1] == t))
  }

  lemma PairMultiset(l: seq<Triangle>, t: Triangle, u: Triangle)
    ensures Pair(l, t, u) <==> |l| == 2 && multiset(l) == multiset{t, u}
  {
    if |l| == 2 {
      assert l == [l[0]] + [l[1]];
      var m := multiset{l[0], l[1]};
      assert multiset(l) == m;
      if multiset(l) == multiset{t, u} {
        assert m[t] == multiset{t, u}[t] && m[u] == multiset{t, u}[u];
      }
    }
  }

  /** Edge-adjacency: t and u are the two entries of the list of some edge, that is, the edge
      is held by exactly two triangle slots and they belong to t and u. */
  ghost predicate Adjacent(ts: seq<Triangle>, t: Triangle, u: Triangle) {
    exists e :: Pair(EdgeList(ts, e), t, u)
  }

  lemma AdjacentSymmetric(ts: seq<Triangle>, t: Triangle, u: Triangle)
    ensures Adjacent(ts, t, u) <==> Adjacent(ts, u, t)
  {
    if Adjacent(ts, t, u) {
      var e :| Pair(EdgeList(ts, e), t, u);
      assert Pair(EdgeList(ts, e), u, t);
    }
    if Adjacent(ts, u, t) {
      var e :| Pair(EdgeList(ts, e), u, t);
      assert Pair(EdgeList(ts, e), t, u);
    }
  }

  /** Adjacent triangles are triangles of the mesh. */
  lemma AdjacentInMesh(ts: seq<Triangle>, t: Triangle, u: Triangle)
    requires Adjacent(ts, t, u)
    ensures t in ts && u in ts
  {
    var e :| Pair(EdgeList(ts, e), t, u);
    var l := EdgeList(ts, e);
    assert l[0] in l && l[1] in l;
    EdgeListMembers(ts, e, l[0]);
    EdgeListMembers(ts, e, l[1]);
  }

  /** Adjacency does not depend on the order in which the triangles are listed. */
  lemma AdjacentOrderFree(ts1: seq<Triangle>, ts2: seq<Triangle>, t: Triangle, u: Triangle)
    requires multiset(ts1) == multiset(ts2)
    ensures Adjacent(ts1, t, u) <==> Adjacent(ts2, t, u)
  {
    if Adjacent(ts1, t, u) {
      var e :| Pair(EdgeList(ts1, e), t, u);
      EdgeListOrderFree(ts1, ts2, e);
      PairMultiset(EdgeList(ts1, e), t, u);
      PairMultiset(EdgeList(ts2, e), t, u);
      assert |EdgeList(ts2, e)| == |multiset(EdgeList(ts2, e))|;
      assert Pair(EdgeList(ts2, e), t, u);
    }
    if Adjacent(ts2, t, u) {
      var e :| Pair(EdgeList(ts2, e), t, u);
      EdgeListOrderFree(ts1, ts2, e);
      PairMultiset(EdgeList(ts1, e), t, u);
      PairMultiset(EdgeList(ts2, e), t, u);
      assert |EdgeList(ts1, e)| == |multiset(EdgeList(ts1, e))|;
      assert Pair(EdgeList(ts1, e), t, u);
    }
  }

  // edge_to_vertex: for every edge slot, the vertex opposite that edge is appended.

  function Opposites(t: Triangle, e: Edge): seq<nat> {
    (if Ordered(t.0, t.1) == e then [t.2] else [])
    + (if Ordered(t.1, t.2) == e then [t.0] else [])
    + (if Ordered(t.2, t.0) == e then [t.1] else [])
  }

  function OppositeList(ts: seq<Triangle>, e: Edge): seq<nat>
    decreases |ts|
  {
    if |ts| == 0 then [] else OppositeList(ts[..|ts| - 1], e) + Opposites(ts[|ts| - 1], e)
  }

  /** The vertex list of an edge is as long as its triangle list. */
  lemma {:induction false} OppositeListLength(ts: seq<Triangle>, e: Edge)
    ensures |OppositeList(ts, e)| == |EdgeList(ts, e)|
    decreases |ts|
  {
    if |ts| > 0 {
      OppositeListLength(ts[..|ts| - 1], e);
    }
  }

  /** The edges of the triangles, each as a key of the edge dictionaries. */
  function AllEdges(ts: seq<Triangle>): set<Edge>
    decreases |ts|
  {
    if |ts| == 0 then {}
    else
      var t := ts[|ts| - 1];
      AllEdges(ts[..|ts| - 1]) + {Ordered(t.0, t.1), Ordered(t.1, t.2), Ordered(t.2, t.0)}
  }

  /** An edge has a non-empty list exactly when it is an edge of some triangle. */
  lemma {:induction false} EdgeListNonEmpty(ts: seq<Triangle>, e: Edge)
    ensures EdgeList(ts, e) != [] <==> e in AllEdges(ts)
    decreases |ts|
  {
    if |ts| > 0 {
      EdgeListNonEmpty(ts[..|ts| - 1], e);
    }
  }

  /** The point indices the triangles use. */
  function VertexSet(ts: seq<Triangle>): set<nat>
    decreases |ts|
  {
    if |ts| == 0 then {} else VertexSet(ts[..|ts| - 1]) + Vertices(ts[|ts| - 1])
  }

  lemma {:induction false} VertexSetMembers(ts: seq<Triangle>, v: nat)
    ensures v in VertexSet(ts) <==> exists i :: 0 <= i < |ts| && v in Vertices(ts[i])
    decreases |ts|
  {
    if |ts| > 0 {
      var init := ts[..|ts| - 1];
      VertexSetMembers(init, v);
      if v in VertexSet(init) {
        var i :| 0 <= i < |init| && v in Vertices(init[i]);
        assert ts[i] == init[i];
      }
      if exists i :: 0 <= i < |ts| && v in Vertices(ts[i]) {
        var i :| 0 <= i < |ts| && v in Vertices(ts[i]);
        if i < |init| {
          assert init[i] == ts[i];
        }
      }
    }
  }

  /** The vertices of each triangle are vertices of the mesh. */
  lemma VertexSetHas(ts: seq<Triangle>, k: nat)
    requires k < |ts|
    ensures Vertices(ts[k]) <= VertexSet(ts)
  {
    forall v | v in Vertices(ts[k]) ensures v in VertexSet(ts) {
      VertexSetMembers(ts, v);
    }
  }

  /** Triangles with indices below n use only points below n. */
  lemma VertexSetInRange(ts: seq<Triangle>, n: nat)
    requires forall k :: 0 <= k < |ts| ==> InRange(ts[k], n)
    ensures forall v :: v in VertexSet(ts) ==> v < n
  {
    forall v | v in VertexSet(ts) ensures v < n {
      VertexSetMembers(ts, v);
    }
  }

  /** Both ends of an edge of the mesh are vertices of the mesh. */
  lemma {:induction false} EdgeEndpoints(ts: seq<Triangle>, e: Edge)
    requires e in AllEdges(ts)
    ensures e.0 in VertexSet(ts) && e.1 in VertexSet(ts)
    decreases |ts|
  {
    var init := ts[..|ts| - 1];
    if e in AllEdges(init) {
      EdgeEndpoints(init, e);
    }
  }

  /** The boundary edges: edges whose list has exactly one entry. */
  ghost function BoundaryEdges(ts: seq<Triangle>): set<Edge> {
    set e | e in AllEdges(ts) && |EdgeList(ts, e)| == 1
  }

  /** The count of `boundary_indices`: one for each end of each edge of B at v, so a loop
      edge (v, v) counts twice. */
  function Degree(B: set<Edge>, v: nat): nat {
    |set e | e in B && e.0 == v| + |set e | e in B && e.1 == v|
  }

  /** Adding an edge adds one per end at v. */
  lemma DegreeAdd(B: set<Edge>, e: Edge, v: nat)
    requires e !in B
    ensures Degree(B + {e}, v) == Degree(B, v) + (if e.0 == v then 1 else 0) + (if e.1 == v then 1 else 0)
  {
    var lo := set f | f in B && f.0 == v;
    var hi := set f | f in B && f.1 == v;
    if e.0 == v {
      assert (set f | f in B + {e} && f.0 == v) == lo + {e};
    } else {
      assert (set f | f in B + {e} && f.0 == v) == lo;
    }
    if e.1 == v {
      assert (set f | f in B + {e} && f.1 == v) == hi + {e};
    } else {
      assert (set f | f in B + {e} && f.1 == v) == hi;
    }
  }

  /** A vertex with a positive degree is an end of an edge of B. */
  lemma DegreePositive(B: set<Edge>, v: nat)
    requires Degree(B, v) > 0
    ensures exists e :: e in B && (e.0 == v || e.1 == v)
  {
    if |set e | e in B && e.0 == v| > 0 {
      var e :| e in (set e | e in B && e.0 == v);
    } else {
      var e :| e in (set e | e in B && e.1 == v);
    }
  }

  /** The vertices on more than two boundary edges. */
  ghost function DoubleBoundaryVertices(ts: seq<Triangle>): set<nat> {
    set v | v in VertexSet(ts) && Degree(BoundaryEdges(ts), v) > 2
  }

  /** Every vertex with boundary degree above two is a vertex of the mesh. */
  lemma DoubleBoundaryMembers(ts: seq<Triangle>, v: nat)
    ensures v in DoubleBoundaryVertices(ts) <==> Degree(BoundaryEdges(ts), v) > 2
  {
    if Degree(BoundaryEdges(ts), v) > 2 {
      DegreePositive(BoundaryEdges(ts), v);
      var e :| e in BoundaryEdges(ts) && (e.0 == v || e.1 == v);
      EdgeEndpoints(ts, e);
    }
  }

  // opposite_edges: for every corner of every triangle, the edge across from it.

  function OppositeAt(t: Triangle, v: nat): set<Edge> {
    (if t.0 == v then {Ordered(t.1, t.2)} else {})
    + (if t.1 == v then {Ordered(t.2, t.0)} else {})
    + (if t.2 == v then {Ordered(t.0, t.1)} else {})
  }

  /** The edges opposite vertex v; together they form the link of v. */
  function OppositeEdges(ts: seq<Triangle>, v: nat): set<Edge>
    decreases |ts|
  {
    if |ts| == 0 then {} else OppositeEdges(ts[..|ts| - 1], v) + OppositeAt(ts[|ts| - 1], v)
  }

  /** A vertex of the mesh has at least one opposite edge; any other point has none. */
  lemma {:induction false} OppositeEdgesEmpty(ts: seq<Triangle>, v: nat)
    ensures OppositeEdges(ts, v) == {} <==> v !in VertexSet(ts)
    decreases |ts|
  {
    if |ts| > 0 {
      OppositeEdgesEmpty(ts[..|ts| - 1], v);
    }
  }

  // The order-preserving filter shared by the pruning passes.

  predicate NoVertexIn(t: Triangle, bad: set<nat>) {
    t.0 !in bad && t.1 !in bad && t.2 !in bad
  }

  /** The triangles of ts none of whose vertices is in bad, in input order. */
  function Avoiding(ts: seq<Triangle>, bad: set<nat>): seq<Triangle>
    decreases |ts|
  {
    if |ts| == 0 then []
    else Avoiding(ts[..|ts| - 1], bad) + if NoVertexIn(ts[|ts| - 1], bad) then [ts[|ts| - 1]] else []
  }

  /** xs is obtained from ys by deleting entries. */
  predicate Sublist<T(==)>(xs: seq<T>, ys: seq<T>)
    decreases |ys|
  {
    |xs| == 0
    || (|ys| > 0
        && ((xs[|xs| - 1] == ys[|ys| - 1] && Sublist(xs[..|xs| - 1], ys[..|ys| - 1]))
            || Sublist(xs, ys[..|ys| - 1])))
  }

  /** A sublist is no longer than its list, and each of its entries is an entry of the list. */
  lemma {:induction false} SublistFacts<T>(xs: seq<T>, ys: seq<T>)
    requires Sublist(xs, ys)
    ensures |xs| <= |ys|
    ensures forall x :: x in xs ==> x in ys
    decreases |ys|
  {
    if |xs| > 0 {
      var ys' := ys[..|ys| - 1];
      if xs[|xs| - 1] == ys[|ys| - 1] && Sublist(xs[..|xs| - 1], ys') {
        SublistFacts(xs[..|xs| - 1], ys');
        assert xs == xs[..|xs| - 1] + [ys[|ys| - 1]];
        assert ys == ys' + [ys[|ys| - 1]];
      } else {
        SublistFacts(xs, ys');
        assert ys == ys' + [ys[|ys| - 1]];
      }
    }
  }

  /** The filter keeps an order-preserving sublist. */
  lemma {:induction false} AvoidingSublist(ts: seq<Triangle>, bad: set<nat>)
    ensures Sublist(Avoiding(ts, bad), ts)
    decreases |ts|
  {
    if |ts| > 0 {
      var init, t := ts[..|ts| - 1], ts[|ts| - 1];
      AvoidingSublist(init, bad);
      var a := Avoiding(init, bad);
      if NoVertexIn(t, bad) {
        var xs := a + [t];
        assert Avoiding(ts, bad) == xs;
        assert xs[..|xs| - 1] == a && xs[|xs| - 1] == ts[|ts| - 1];
      } else {
        assert Avoiding(ts, bad) == a;
        assert Sublist(a, ts[..|ts| - 1]);
      }
    }
  }

  /** The filter keeps exactly the triangles with no bad vertex, each with its multiplicity. */
  lemma {:induction false} AvoidingCount(ts: seq<Triangle>, bad: set<nat>, u: Triangle)
    ensures multiset(Avoiding(ts, bad))[u] == if NoVertexIn(u, bad) then multiset(ts)[u] else 0
    decreases |ts|
  {
    if |ts| > 0 {
      var init, t := ts[..|ts| - 1], ts[|ts| - 1];
      assert ts == init + [t];
      AvoidingCount(init, bad, u);
    }
  }

  lemma AvoidingMembers(ts: seq<Triangle>, bad: set<nat>, u: Triangle)
    ensures u in Avoiding(ts, bad) <==> u in ts && NoVertexIn(u, bad)
  {
    AvoidingCount(ts, bad, u);
    assert u in Avoiding(ts, bad) <==> multiset(Avoiding(ts, bad))[u] > 0;
    assert u in ts <==> multiset(ts)[u] > 0;
  }

  /** Filtering twice is filtering once by both sets. */
  lemma {:induction false} AvoidingTwice(ts: seq<Triangle>, bad1: set<nat>, bad2: set<nat>)
    ensures Avoiding(Avoiding(ts, bad1), bad2) == Avoiding(ts, bad1 + bad2)
    decreases |ts|
  {
    if |ts| > 0 {
      var init, t := ts[..|ts| - 1], ts[|ts| - 1];
      AvoidingTwice(init, bad1, bad2);
      var a := Avoiding(init, bad1);
      if NoVertexIn(t, bad1) {
        assert Avoiding(ts, bad1) == a + [t];
        assert (a + [t])[..|a|] == a;
        assert Avoiding(a + [t], bad2) == Avoiding(a, bad2) + if NoVertexIn(t, bad2) then [t] else [];
      } else {
        assert Avoiding(ts, bad1) == a;
        assert !NoVertexIn(t, bad1 + bad2);
      }
    }
  }
}
