/** Connected components of an undirected edge set, counted the way the hourglass pass does:
    build adjacency sets, then run an explicit-stack depth-first search from every vertex
    not yet visited. */
module Graph {
  import opened Mesh

  /** Adjacency sets keyed by vertex. */
  type Adjacency = map<nat, set<nat>>

  /** The vertices an edge set touches. */
  function Endpoints(E: set<Edge>): set<nat> {
    (set e | e in E :: e.0) + (set e | e in E :: e.1)
  }

  /** The vertices joined to u by an edge of E, in either direction. */
  function Neighbors(E: set<Edge>, u: nat): set<nat> {
    (set e | e in E && e.0 == u :: e.1) + (set e | e in E && e.1 == u :: e.0)
  }

  /** The adjacency the program builds from E: every endpoint is a key and each edge joins its
      two ends both ways. */
  function AdjacencyOf(E: set<Edge>): Adjacency {
    map u | u in Endpoints(E) :: Neighbors(E, u)
  }

  /** Every neighbour is itself a key. */
  predicate Closed(adj: Adjacency) {
    forall u :: u in adj ==> adj[u] <= adj.Keys
  }

  predicate Symmetric(adj: Adjacency) {
    forall u, w :: u in adj && w in adj[u] ==> w in adj && u in adj[w]
  }

  /** The adjacency of E is closed, symmetric and joins exactly the ends of the edges. */
  lemma AdjacencyOfFacts(E: set<Edge>)
    ensures AdjacencyOf(E).Keys == Endpoints(E)
    ensures Closed(AdjacencyOf(E)) && Symmetric(AdjacencyOf(E))
    ensures forall u, w :: u in AdjacencyOf(E) && w in AdjacencyOf(E)[u] <==> (u, w) in E || (w, u) in E
  {
    var adj := AdjacencyOf(E);
    forall u, w ensures u in adj && w in adj[u] <==> (u, w) in E || (w, u) in E {
      if (u, w) in E {
        assert u in Endpoints(E) && w in Neighbors(E, u);
      }
      if (w, u) in E {
        assert u in Endpoints(E) && w in Neighbors(E, u);
      }
    }
    forall u | u in adj ensures adj[u] <= adj.Keys {
      forall w | w in adj[u] ensures w in Endpoints(E) {
        assert (u, w) in E || (w, u) in E;
      }
    }
    forall u, w | u in adj && w in adj[u] ensures w in adj && u in adj[w] {
      assert (w, u) in E || (u, w) in E;
    }
  }

  /** A walk: a non-empty sequence of keys, each joined to the next. */
  ghost predicate Walk(adj: Adjacency, p: seq<nat>) {
    && |p| > 0
    && (forall i :: 0 <= i < |p| ==> p[i] in adj)
    && (forall i :: 0 <= i < |p| - 1 ==> p[i + 1] in adj[p[i]])
  }

  ghost predicate Reachable(adj: Adjacency, u: nat, v: nat) {
    exists p :: Walk(adj, p) && p[0] == u && p[|p| - 1] == v
  }

  lemma ReachableRefl(adj: Adjacency, u: nat)
    requires u in adj
    ensures Reachable(adj, u, u)
  {
    assert Walk(adj, [u]);
  }

  lemma ReachableStep(adj: Adjacency, u: nat, v: nat, w: nat)
    requires Reachable(adj, u, v) && v in adj && w in adj[v] && w in adj
    ensures Reachable(adj, u, w)
  {
    var p :| Walk(adj, p) && p[0] == u && p[|p| - 1] == v;
    var q := p + [w];
    assert forall i :: 0 <= i < |p| ==> q[i] == p[i];
    assert Walk(adj, q);
  }

  lemma ReachableKeys(adj: Adjacency, u: nat, v: nat)
    requires Reachable(adj, u, v)
    ensures u in adj && v in adj
  {
    var p :| Walk(adj, p) && p[0] == u && p[|p| - 1] == v;
  }

  lemma {:induction false} ReachableTrans(adj: Adjacency, u: nat, v: nat, w: nat)
    requires Reachable(adj, u, v) && Reachable(adj, v, w)
    ensures Reachable(adj, u, w)
  {
    var p :| Walk(adj, p) && p[0] == u && p[|p| - 1] == v;
    var q :| Walk(adj, q) && q[0] == v && q[|q| - 1] == w;
    var r := p + q[1..];
    assert forall i :: 0 <= i < |p| ==> r[i] == p[i];
    assert forall i :: |p| <= i < |r| ==> r[i] == q[i - |p| + 1];
    assert Walk(adj, r);
  }

  lemma ReachableSymmetric(adj: Adjacency, u: nat, v: nat)
    requires Symmetric(adj) && Reachable(adj, u, v)
    ensures Reachable(adj, v, u)
  {
    var p :| Walk(adj, p) && p[0] == u && p[|p| - 1] == v;
    var q := seq(|p|, i requires 0 <= i < |p| => p[|p| - 1 - i]);
    forall i | 0 <= i < |q| - 1 ensures q[i + 1] in adj[q[i]] {
      assert p[|p| - 1 - i] in adj[p[|p| - 2 - i]];
    }
    assert Walk(adj, q);
  }

  /** A set from which no edge leads out. */
  ghost predicate ClosedSet(adj: Adjacency, S: set<nat>) {
    forall u :: u in S && u in adj ==> adj[u] <= S
  }

  /** A set no edge leads out of holds everything reachable from its members. */
  lemma {:induction false} ClosedSetHoldsReach(adj: Adjacency, S: set<nat>, u: nat, v: nat)
    requires ClosedSet(adj, S) && u in S && Reachable(adj, u, v)
    ensures v in S
  {
    var p :| Walk(adj, p) && p[0] == u && p[|p| - 1] == v;
    var i := 0;
    while i < |p| - 1
      invariant 0 <= i < |p| && p[i] in S
    {
      assert p[i + 1] in adj[p[i]];
      i := i + 1;
    }
  }

  ghost function Unmarked(visited: map<nat, bool>): set<nat> {
    set u | u in visited && !visited[u]
  }

  /** The vertices marked as visited. */
  ghost function Marked(visited: map<nat, bool>): set<nat> {
    set u | u in visited && visited[u]
  }

  /** dfs: pop a vertex; if unvisited, mark it and push its unvisited neighbours. Every vertex
      it marks is reachable from node; when the marked set had no edge leading out of it,
      everything reachable from node ends up marked and the marked set still has none. */
  method Dfs(node: nat, adj: Adjacency, visited: map<nat, bool>) returns (result: map<nat, bool>)
    requires node in adj && Closed(adj) && visited.Keys == adj.Keys
    ensures result.Keys == visited.Keys
    ensures Marked(visited) <= Marked(result) <= Marked(visited) + ReachIn(adj, node)
    ensures ClosedSet(adj, Marked(visited)) ==> Marked(result) == Marked(visited) + ReachIn(adj, node)
    ensures ClosedSet(adj, Marked(visited)) ==> ClosedSet(adj, Marked(result))
  {
    result := visited;
    var stack := [node];
    ReachableRefl(adj, node);
    while |stack| > 0
      invariant result.Keys == visited.Keys
      invariant DfsInvariant(node, adj, visited, result, stack)
      decreases |Unmarked(result)|, |stack|
    {
      var vertex := stack[|stack| - 1];
      ghost var before, full := result, stack;
      stack := stack[..|stack| - 1];
      if !result[vertex] {
        ghost var unvisited := Unmarked(result);
        assert vertex in unvisited;
        result := result[vertex := true];
        assert Unmarked(result) == unvisited - {vertex};
        ghost var popped := stack;
        stack := PushUnvisited(stack, adj[vertex], result);
        DfsMark(node, adj, visited, before, full, stack);
      } else {
        DfsSkip(node, adj, visited, result, full);
      }
    }
    DfsFinish(node, adj, visited, result);
  }

  /** What the search keeps true: the stack holds keys reachable from node, what it marked is
      reachable from node, nothing marked before is unmarked, node is marked or stacked, and every
      neighbour of a vertex it marked is marked or on the stack. */
  ghost predicate DfsInvariant(node: nat, adj: Adjacency, visited: map<nat, bool>, result: map<nat, bool>, stack: seq<nat>)
    requires node in adj && Closed(adj) && visited.Keys == adj.Keys && result.Keys == visited.Keys
  {
    && (forall w :: w in stack ==> w in adj && Reachable(adj, node, w))
    && (forall u :: u in result && result[u] ==> visited[u] || Reachable(adj, node, u))
    && (forall u :: u in visited && visited[u] ==> result[u])
    && (node in stack || result[node])
    && (forall u, w :: u in result && result[u] && !visited[u] && w in adj[u] ==> result[w] || w in stack)
  }

  /** Popping a vertex already marked keeps the invariant. */
  lemma DfsSkip(node: nat, adj: Adjacency, visited: map<nat, bool>, result: map<nat, bool>, stack: seq<nat>)
    requires node in adj && Closed(adj) && visited.Keys == adj.Keys && result.Keys == visited.Keys
    requires DfsInvariant(node, adj, visited, result, stack)
    requires |stack| > 0 && result[stack[|stack| - 1]]
    ensures DfsInvariant(node, adj, visited, result, stack[..|stack| - 1])
  {
    var rest := stack[..|stack| - 1];
    assert stack == rest + [stack[|stack| - 1]];
    forall w | w in stack && w !in rest ensures w == stack[|stack| - 1] {
    }
  }

  /** Popping an unmarked vertex, marking it and pushing its unmarked neighbours keeps the
      invariant. */
  lemma DfsMark(node: nat, adj: Adjacency, visited: map<nat, bool>, result: map<nat, bool>, stack: seq<nat>, pushed: seq<nat>)
    requires node in adj && Closed(adj) && visited.Keys == adj.Keys && result.Keys == visited.Keys
    requires DfsInvariant(node, adj, visited, result, stack)
    requires |stack| > 0 && !result[stack[|stack| - 1]]
    requires var vertex, rest := stack[|stack| - 1], stack[..|stack| - 1];
             && (forall w :: w in rest ==> w in pushed)
             && (forall w :: w in pushed ==> w in rest || (w in adj[vertex] && !result[w]))
             && (forall w :: w in adj[vertex] && w != vertex && !result[w] ==> w in pushed)
    ensures DfsInvariant(node, adj, visited, result[stack[|stack| - 1] := true], pushed)
  {
    var vertex, rest := stack[|stack| - 1], stack[..|stack| - 1];
    assert stack == rest + [vertex];
    var after := result[vertex := true];
    forall w | w in pushed ensures w in adj && Reachable(adj, node, w) {
      if w !in rest {
        assert vertex in stack;
        ReachableStep(adj, node, vertex, w);
      }
    }
    forall u, w | u in after && after[u] && !visited[u] && w in adj[u] ensures after[w] || w in pushed {
      if u != vertex && !after[w] {
        assert w in stack;
        assert w != vertex;
      }
    }
  }

  /** The inner loop of dfs: every unvisited neighbour is pushed, after what was on the stack. */
  method PushUnvisited(stack: seq<nat>, neighbors: set<nat>, visited: map<nat, bool>) returns (r: seq<nat>)
    requires neighbors <= visited.Keys
    ensures |r| >= |stack| && r[..|stack|] == stack
    ensures forall w :: w in r ==> w in stack || (w in neighbors && !visited[w])
    ensures forall w :: w in neighbors && !visited[w] ==> w in r
    ensures forall w :: w in stack ==> w in r
  {
    r := stack;
    var todo := neighbors;
    while todo != {}
      invariant todo <= neighbors
      invariant |r| >= |stack| && r[..|stack|] == stack
      invariant forall w :: w in r ==> w in stack || (w in neighbors && !visited[w])
      invariant forall w :: w in neighbors - todo && !visited[w] ==> w in r
      decreases todo
    {
      var neighbor :| neighbor in todo;
      if !visited[neighbor] {
        r := r + [neighbor];
      }
      todo := todo - {neighbor};
    }
    forall w | w in stack ensures w in r {
      var k :| 0 <= k < |stack| && stack[k] == w;
      assert r[k] == w;
    }
  }

  /** With the stack empty, every vertex the search marked has all its neighbours marked. */
  lemma DfsFinish(node: nat, adj: Adjacency, visited: map<nat, bool>, result: map<nat, bool>)
    requires node in adj && Closed(adj) && visited.Keys == adj.Keys
    requires result.Keys == visited.Keys
    requires DfsInvariant(node, adj, visited, result, [])
    ensures Marked(visited) <= Marked(result) <= Marked(visited) + ReachIn(adj, node)
    ensures ClosedSet(adj, Marked(visited)) ==> Marked(result) == Marked(visited) + ReachIn(adj, node)
    ensures ClosedSet(adj, Marked(visited)) ==> ClosedSet(adj, Marked(result))
  {
    if ClosedSet(adj, Marked(visited)) {
      assert ClosedSet(adj, Marked(result));
      forall u | u in ReachIn(adj, node) ensures u in Marked(result) {
        ClosedSetHoldsReach(adj, Marked(result), node, u);
      }
    }
  }

  /** The vertices reachable from v. */
  ghost function ReachIn(adj: Adjacency, v: nat): set<nat> {
    set w | w in adj && Reachable(adj, v, w)
  }

  /** The components met from the vertices of D. */
  ghost function ClassesOf(adj: Adjacency, D: set<nat>): set<set<nat>> {
    set v | v in D :: ReachIn(adj, v)
  }

  /** The number of connected components of the graph of E. */
  ghost function ComponentCount(E: set<Edge>): nat {
    |ClassesOf(AdjacencyOf(E), Endpoints(E))|
  }

  /** Mutually reachable vertices reach the same vertices. */
  lemma SameClass(adj: Adjacency, u: nat, v: nat)
    requires Symmetric(adj) && Reachable(adj, u, v)
    ensures ReachIn(adj, u) == ReachIn(adj, v)
  {
    ReachableSymmetric(adj, u, v);
    forall w | w in ReachIn(adj, v) ensures w in ReachIn(adj, u) {
      ReachableTrans(adj, u, v, w);
    }
    forall w | w in ReachIn(adj, u) ensures w in ReachIn(adj, v) {
      ReachableTrans(adj, v, u, w);
    }
  }

  /** The adjacency sets of add_edge: each edge joins its two ends both ways. */
  method BuildAdjacency(E: set<Edge>) returns (adj: Adjacency)
    ensures adj == AdjacencyOf(E)
  {
    adj := map[];
    var todo := E;
    ghost var done: set<Edge> := {};
    while todo != {}
      invariant todo + done == E && todo !! done
      invariant AdjacencyUpTo(adj, done)
      decreases todo
    {
      var e :| e in todo;
      var (u, v) := e;
      AdjacencyAdd(adj, done, e);
      adj := Include(Include(adj, u, v), v, u);
      todo := todo - {e};
      done := done + {e};
    }
    AdjacencyUpToAll(adj, E);
  }

  /** adj is the adjacency of the edges done so far. */
  ghost predicate AdjacencyUpTo(adj: Adjacency, done: set<Edge>) {
    && adj.Keys == Endpoints(done)
    && forall u: nat, w: nat :: w in GetSet(adj, u) <==> (u, w) in done || (w, u) in done
  }

  lemma AdjacencyAdd(adj: Adjacency, done: set<Edge>, e: Edge)
    requires AdjacencyUpTo(adj, done)
    ensures AdjacencyUpTo(Include(Include(adj, e.0, e.1), e.1, e.0), done + {e})
  {
    AdjacencyAddKeys(adj, done, e);
    AdjacencyAddLinks(adj, done, e);
  }

  lemma AdjacencyAddKeys(adj: Adjacency, done: set<Edge>, e: Edge)
    requires adj.Keys == Endpoints(done)
    ensures Include(Include(adj, e.0, e.1), e.1, e.0).Keys == Endpoints(done + {e})
  {
    EndpointsAdd(done, e);
  }

  lemma AdjacencyAddLinks(adj: Adjacency, done: set<Edge>, e: Edge)
    requires forall u: nat, w: nat :: w in GetSet(adj, u) <==> (u, w) in done || (w, u) in done
    ensures forall u: nat, w: nat :: w in GetSet(Include(Include(adj, e.0, e.1), e.1, e.0), u)
                                  <==> (u, w) in done + {e} || (w, u) in done + {e}
  {
    forall u: nat, w: nat
      ensures w in GetSet(Include(Include(adj, e.0, e.1), e.1, e.0), u) <==> (u, w) in done + {e} || (w, u) in done + {e}
    {
      IncludeTwice(adj, e.0, e.1, u, w);
    }
  }

  /** Linking a and b adds w to the set of u exactly when {u, w} is {a, b}. */
  lemma IncludeTwice(adj: Adjacency, a: nat, b: nat, u: nat, w: nat)
    ensures w in GetSet(Include(Include(adj, a, b), b, a), u)
        <==> w in GetSet(adj, u) || (u == a && w == b) || (u == b && w == a)
  {
    var r1 := Include(adj, a, b);
    assert GetSet(Include(r1, b, a), u) == GetSet(r1, u) + (if u == b then {a} else {});
    assert GetSet(r1, u) == GetSet(adj, u) + (if u == a then {b} else {});
  }

  lemma EndpointsAdd(E: set<Edge>, e: Edge)
    ensures Endpoints(E + {e}) == Endpoints(E) + {e.0, e.1}
  {
  }

  lemma AdjacencyUpToAll(adj: Adjacency, E: set<Edge>)
    requires AdjacencyUpTo(adj, E)
    ensures adj == AdjacencyOf(E)
  {
    AdjacencyOfFacts(E);
    forall u | u in adj ensures adj[u] == AdjacencyOf(E)[u] {
      assert adj[u] == GetSet(adj, u);
    }
  }


  /** number_of_components: zero for no edges; otherwise one count per search started from an
      unvisited vertex, which is one per connected component. */
  method NumberOfComponents(E: set<Edge>) returns (count: nat)
    ensures count == ComponentCount(E)
  {
    if E == {} {
      assert Endpoints(E) == {};
      return 0;
    }
    var adj := BuildAdjacency(E);
    AdjacencyOfFacts(E);
    count := CountComponents(adj);
  }

  /** The counting loop of number_of_components: a search from each vertex still unvisited. */
  method CountComponents(adj: Adjacency) returns (count: nat)
    requires Closed(adj) && Symmetric(adj)
    ensures count == |ClassesOf(adj, adj.Keys)|
  {
    var visited := map k | k in adj :: false;
    count := 0;
    var keys := adj.Keys;
    ghost var done: set<nat> := {};
    AccountsStart(adj, visited);
    while keys != {}
      invariant keys <= adj.Keys && done == adj.Keys - keys
      invariant Accounts(adj, visited, done)
      invariant count == |ClassesOf(adj, done)|
      decreases keys
    {
      var node :| node in keys;
      TakeOne(adj.Keys, keys, node);
      if !visited[node] {
        ghost var before := visited;
        visited := Dfs(node, adj, visited);
        NewComponent(adj, done, node, before, visited);
        count := count + 1;
      } else {
        OldComponent(adj, done, node, visited);
      }
      keys := keys - {node};
      done := done + {node};
    }
    assert adj.Keys - keys == adj.Keys;
  }

  /** The vertices reached from the vertices of D. */
  ghost function Covering(adj: Adjacency, D: set<nat>): set<nat> {
    set w | w in adj && exists v :: v in D && Reachable(adj, v, w)
  }

  /** The visited map of the counting loop after the searches from the vertices of done: it
      marks exactly what they reach, and no edge leads out of the marked set. */
  ghost predicate Accounts(adj: Adjacency, visited: map<nat, bool>, done: set<nat>) {
    visited.Keys == adj.Keys && ClosedSet(adj, Marked(visited)) && Marked(visited) == Covering(adj, done)
  }

  lemma AccountsStart(adj: Adjacency, visited: map<nat, bool>)
    requires visited == map k | k in adj :: false
    ensures Accounts(adj, visited, {})
  {
    assert Marked(visited) == {};
  }

  lemma CoveringAdd(adj: Adjacency, D: set<nat>, x: nat)
    ensures Covering(adj, D + {x}) == Covering(adj, D) + ReachIn(adj, x)
  {
  }

  /** A marked vertex adds no component: it lies in one already counted. */
  lemma OldComponent(adj: Adjacency, done: set<nat>, node: nat, visited: map<nat, bool>)
    requires Symmetric(adj) && Accounts(adj, visited, done) && node in visited && visited[node]
    ensures Accounts(adj, visited, done + {node})
    ensures |ClassesOf(adj, done + {node})| == |ClassesOf(adj, done)|
  {
    assert node in Covering(adj, done);
    var v :| v in done && Reachable(adj, v, node);
    SameClass(adj, v, node);
    CoveringAdd(adj, done, node);
    assert ReachIn(adj, node) <= Covering(adj, done);
    ClassesAdd(adj, done, node);
    assert ClassesOf(adj, done) + {ReachIn(adj, node)} == ClassesOf(adj, done);
  }

  lemma ClassesAdd(adj: Adjacency, D: set<nat>, x: nat)
    ensures ClassesOf(adj, D + {x}) == ClassesOf(adj, D) + {ReachIn(adj, x)}
  {
  }

  /** A search from an unvisited vertex marks a component none of the earlier searches met. */
  lemma NewComponent(adj: Adjacency, done: set<nat>, node: nat, before: map<nat, bool>, after: map<nat, bool>)
    requires node in adj && Accounts(adj, before, done) && node in before && !before[node]
    requires after.Keys == before.Keys
    requires ClosedSet(adj, Marked(before)) ==> Marked(after) == Marked(before) + ReachIn(adj, node)
    requires ClosedSet(adj, Marked(before)) ==> ClosedSet(adj, Marked(after))
    ensures Accounts(adj, after, done + {node})
    ensures |ClassesOf(adj, done + {node})| == |ClassesOf(adj, done)| + 1
  {
    CoveringAdd(adj, done, node);
    ClassesAdd(adj, done, node);
    ReachableRefl(adj, node);
    assert node in ReachIn(adj, node);
    assert node !in Covering(adj, done);
    forall v | v in done ensures ReachIn(adj, v) != ReachIn(adj, node) {
      assert node !in ReachIn(adj, v);
    }
  }

  /** No edges, no components; some edge, some component. */
  lemma ComponentCountEmpty(E: set<Edge>)
    ensures ComponentCount(E) == 0 <==> E == {}
  {
    if E != {} {
      var e :| e in E;
      assert e.0 in Endpoints(E);
      assert ReachIn(AdjacencyOf(E), e.0) in ClassesOf(AdjacencyOf(E), Endpoints(E));
    }
  }

  /** There are at most as many components as vertices. */
  lemma {:induction false} ClassesBound(adj: Adjacency, D: set<nat>)
    ensures |ClassesOf(adj, D)| <= |D|
    decreases D
  {
    if D != {} {
      var x :| x in D;
      ClassesBound(adj, D - {x});
      ClassesAdd(adj, D - {x}, x);
      assert D - {x} + {x} == D;
    }
  }

  lemma ComponentCountBound(E: set<Edge>)
    ensures ComponentCount(E) <= |Endpoints(E)|
  {
    ClassesBound(AdjacencyOf(E), Endpoints(E));
  }
}
