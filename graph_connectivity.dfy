/**
 * The Graph class of graph_connectivity.py: an undirected graph on the vertices
 * 0..V-1 kept as adjacency lists, its connected components found by depth-first
 * search, and its bridges found by Tarjan's low-link search.
 */
module GraphConnectivity {
  import opened Sequences
  import opened GraphTheory
  import opened BridgeTheory
  import opened BridgeSteps
  import opened BridgeSpec
  import opened ComponentTheory

  class Graph {
    /** The number of vertices, fixed at construction. */
    const V: nat
    /** adj[u] holds the neighbours of u in insertion order, parallel edges included. */
    var adj: Adjacency

    ghost predicate Valid()
      reads this
    {
      |adj| == V && ValidGraph(adj)
    }

    /** A graph with `vertices` isolated vertices and no edges. */
    constructor (vertices: nat)
      ensures V == vertices && Valid()
      ensures adj == seq(vertices, _ => [])
    {
      V := vertices;
      adj := seq(vertices, _ => []);
    }

    /** Records the undirected edge u-v at both endpoints; repeated calls add parallel edges. */
    method AddEdge(u: nat, v: nat)
      requires Valid() && u < V && v < V
      modifies this
      ensures Valid() && adj == WithEdge(old(adj), u, v)
      ensures u != v ==> adj[u] == old(adj[u]) + [v] && adj[v] == old(adj[v]) + [u]
      ensures u == v ==> adj[u] == old(adj[u]) + [u, u]
      ensures forall w :: 0 <= w < V && w != u && w != v ==> adj[w] == old(adj[w])
    {
      WithEdgeValid(adj, u, v);
      adj := adj[u := adj[u] + [v]];
      adj := adj[v := adj[v] + [u]];
    }

    /**
     * Marks v and, depth first, every vertex reachable from it through unmarked
     * vertices, appending each to `component` as it is marked. The returned
     * sequence extends `component` by the newly marked vertices in search
     * preorder, v first; they are all reachable from v and all their
     * neighbours are marked afterwards.
     */
    method Dfs(v: nat, visited: array<bool>, component: seq<nat>) returns (component': seq<nat>)
      requires Valid() && visited.Length == V && v < V && !visited[v]
      modifies visited
      decreases Unmarked(visited[..])
      ensures visited[..] == Preorder(adj, old(visited[..]), v).marked
      ensures component' == component + Preorder(adj, old(visited[..]), v).order
    {
      ghost var m0 := visited[..];
      visited[v] := true;
      assert visited[..] == m0[v := true];
      UnmarkedShrinks(m0, visited[..], v);
      ghost var added := [v];
      component' := component + [v];
      var i := 0;
      while i < |adj[v]|
        invariant 0 <= i <= |adj[v]| && |adj| == V && visited.Length == V
        invariant component' == component + added
        invariant Unmarked(visited[..]) < Unmarked(m0)
        invariant PreorderFrom(adj, visited[..], v, i).marked == Preorder(adj, m0, v).marked
        invariant added + PreorderFrom(adj, visited[..], v, i).order == Preorder(adj, m0, v).order
      {
        var neighbor := adj[v][i];
        if !visited[neighbor] {
          ghost var mid := visited[..];
          ghost var before := component';
          component' := Dfs(neighbor, visited, component');
          ghost var more := component'[|before|..];
          assert component' == before + more;
          ghost var rest := PreorderFrom(adj, visited[..], v, i + 1);
          assert PreorderFrom(adj, mid, v, i) == Sweep(rest.marked, more + rest.order);
          added := added + more;
        }
        i := i + 1;
      }
    }

    /**
     * Scans the vertices in ascending order and starts a depth-first search from
     * each one not yet marked. Every vertex lands in exactly one component; each
     * component is exactly the set of vertices reachable from its first element,
     * which is its smallest, and components come in ascending order of that
     * element. Each component lists its vertices in search preorder.
     */
    method FindConnectedComponents() returns (components: seq<seq<nat>>)
      requires Valid()
      ensures components == Components(adj)
      ensures Partitioned(adj, components)
    {
      var visited := new bool[V](_ => false);
      components := [];
      assert visited[..] == seq(|adj|, _ => false);
      var v := 0;
      while v < V
        invariant 0 <= v <= V && visited.Length == V
        invariant components + ComponentsFrom(adj, visited[..], v) == Components(adj)
      {
        if !visited[v] {
          ghost var marked := visited[..];
          var component := Dfs(v, visited, []);
          ComponentsNext(adj, components, marked, v);
          assert component == Preorder(adj, marked, v).order;
          components := components + [component];
        }
        v := v + 1;
      }
      assert components + [] == components;
      ComponentsPartition(adj);
    }

    /** True exactly when there is one component: V >= 1 and every vertex is
        reachable from vertex 0. With no vertices the answer is false. */
    method IsConnected() returns (connected: bool)
      requires Valid()
      ensures connected <==> V > 0 && forall y: nat :: y < V ==> Reachable(adj, 0, y)
    {
      var components := FindConnectedComponents();
      connected := |components| == 1;
      if components != [] {
        // the first component's head is a vertex, so there is one
        FlattenMember(components, 0, components[0][0]);
      }
      if V > 0 {
        // vertex 0 heads the first component
        assert 0 in Flatten(components);
        var i := FlattenSource(components, 0);
        LeastHeadFirst(components, i);
        assert components[i][0] <= 0 by {
          var k :| 0 <= k < |components[i]| && components[i][k] == 0;
        }
        assert components[0][0] == 0;
        if connected {
          assert components[..0] == [];
          assert Flatten(components) == components[0];
          forall y: nat | y < V ensures Reachable(adj, 0, y) {
            assert y in Flatten(components);
          }
        } else {
          // the head of the second component is not reachable from 0
          var w := components[1][0];
          assert w in components[1];
          FlattenMember(components, 1, w);
          if Reachable(adj, 0, w) {
            // w would lie in the first component as well
            assert w in components[0];
            DistinctFlattenDisjoint<nat>(components, 0, 1, w);
          }
          assert w < V && !Reachable(adj, 0, w);
        }
      }
    }

    /**
     * Tarjan's low-link search over every vertex, one shared clock across the
     * search trees. The pairs returned are the links u-v (u the endpoint
     * visited first) such that no walk from u to v avoids every u-v edge, each
     * link once. Every cut edge is among them; a reported link is a cut edge
     * exactly when it is a single edge, so on a graph without parallel edges
     * the pairs are exactly the cut edges.
     */
    method FindBridges() returns (bridges: seq<(nat, nat)>)
      requires Valid()
      ensures forall i :: 0 <= i < |bridges| ==>
        bridges[i].0 < V && bridges[i].1 < V && LinkIsBridge(adj, bridges[i].0, bridges[i].1)
      ensures forall a: nat, b: nat :: LinkIsBridge(adj, a, b) ==> (a, b) in bridges || (b, a) in bridges
      ensures forall i, j :: 0 <= i < |bridges| && 0 <= j < |bridges| ==>
        bridges[i] != (bridges[j].1, bridges[j].0) && (i != j ==> bridges[i] != bridges[j])
      ensures forall a: nat, b: nat :: IsCutEdge(adj, a, b) ==> (a, b) in bridges || (b, a) in bridges
      ensures forall i :: 0 <= i < |bridges| ==>
        (IsCutEdge(adj, bridges[i].0, bridges[i].1) <==> multiset(adj[bridges[i].0])[bridges[i].1] == 1)
      ensures SimpleGraph(adj) ==> forall i :: 0 <= i < |bridges| ==> IsCutEdge(adj, bridges[i].0, bridges[i].1)
      ensures bridges == FoundBridges(adj)
    {
      var search := new BridgeSearch(adj);
      ghost var s0 := search.State();
      search.Run();
      bridges := search.bridges;
      BridgesAreCutEdges(adj, s0);
    }
  }

  /**
   * The state of one run of the bridge search over a fixed graph: the marks,
   * discovery times, low values and tree parents of all vertices, the pairs
   * found, and the clock. The chain of calls in progress is kept alongside
   * for the proofs only.
   */
  class BridgeSearch {
    const adj: Adjacency
    var visited: seq<bool>
    var disc: seq<int>
    var low: seq<int>
    var parent: seq<int>
    var bridges: seq<(nat, nat)>
    var time: nat
    ghost var stack: seq<nat>

    ghost function State(): Search
      reads this
    {
      Search(visited, disc, low, parent, bridges, time, stack)
    }

    constructor (adj: Adjacency)
      requires ValidGraph(adj)
      ensures this.adj == adj && State() == Initial(|adj|) && Start(adj, State())
    {
      this.adj := adj;
      visited := seq(|adj|, _ => false);
      disc := seq(|adj|, _ => Unset);
      low := seq(|adj|, _ => Unset);
      parent := seq(|adj|, _ => Unset);
      bridges := [];
      time := 0;
      stack := [];
      new;
      InitialStarts(adj);
    }

    /**
     * The recursive search from u: stamp u with the clock, then examine its
     * neighbours in order.
     */
    method Visit(u: nat)
      requires Ready(adj, State()) && u < |adj| && !visited[u]
      modifies this
      decreases |adj| - time, 0
      ensures State() == Explore(adj, old(State()), u)
    {
      ghost var s0 := State();
      CountMark(s0.visited, u);
      visited := visited[u := true];
      disc := disc[u := time];
      low := low[u := time];
      time := time + 1;
      stack := stack + [u];
      assert State() == Entered(s0, u);
      var i := 0;
      while i < |adj[u]|
        invariant Ready(adj, State()) && i <= |adj[u]| && s0.time < time
        invariant ScanFrom(adj, State(), u, i) == ScanFrom(adj, Entered(s0, u), u, 0)
      {
        Examine(u, i);
        i := i + 1;
      }
      stack := s0.stack;
    }

    /**
     * u's i-th neighbour v: an unvisited v is searched as u's child and its
     * low value folded into u's, recording u-v when nothing below v reaches u
     * or above; a visited v other than u's parent folds its time into u's
     * low value.
     */
    method Examine(u: nat, i: nat)
      requires Ready(adj, State()) && u < |adj| && i < |adj[u]|
      modifies this
      decreases |adj| - time, 1
      ensures State() == BridgeSpec.Examine(adj, old(State()), u, i)
    {
      var v := adj[u][i];
      if !visited[v] {
        parent := parent[v := u];
        Visit(v);
        low := low[u := Min(low[u], low[v])];
        if low[v] > disc[u] {
          bridges := bridges + [(u, v)];
        }
      } else if v != parent[u] {
        low := low[u := Min(low[u], disc[v])];
      }
    }

    /** Starts a search from each vertex, in ascending order, that no earlier
        search has visited. */
    method Run()
      requires Start(adj, State())
      modifies this
      ensures State() == Roots(adj, old(State()), 0)
    {
      ghost var s0 := State();
      var i := 0;
      while i < |adj|
        invariant Ready(adj, State()) && i <= |adj|
        invariant Roots(adj, State(), i) == Roots(adj, s0, 0)
      {
        if !visited[i] {
          Visit(i);
        }
        i := i + 1;
      }
    }
  }
}
