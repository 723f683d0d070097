/**
 * The two example graphs of graph_connectivity.py, built edge by edge with
 * WithEdge, the update Graph.AddEdge makes: the path 0-1-2-3, and the triangle
 * 0-1-2 with the tail 1-3-4. Both are connected, each is one component listed
 * in search preorder, and the bridge search is followed call by call. Each
 * lemma named From states what the recursive call on its vertex returns, given
 * the state its caller hands it, and each lemma named Scan what the rest of a
 * neighbour scan returns. A state lists, in order, the marks, discovery times,
 * low values and parents of the vertices (-1 for unset), the pairs found, the
 * clock and the chain of calls in progress. NewPath and NewTail build the two
 * graphs through the class, and PathExample and TailExample run the usage
 * block's three queries on them.
 */
module GraphExamples {
  import opened GraphTheory
  import opened ComponentTheory
  import opened BridgeTheory
  import opened BridgeSteps
  import opened BridgeSpec
  import opened GraphConnectivity

  /** The adjacency lists after adding 0-1, 1-2 and 2-3 to an empty graph on 4 vertices. */
  const Path: Adjacency := [[1], [0, 2], [1, 3], [2]]

  /** The adjacency lists after adding 0-1, 1-2, 2-0, 1-3 and 3-4 to an empty graph on 5 vertices. */
  const Tail: Adjacency := [[1, 2], [0, 2, 3], [1, 0], [1, 4], [3]]

  /** Not one of the file's examples: the edge 0-1 added twice to an empty graph on 2 vertices. */
  const Double: Adjacency := [[1, 1], [0, 0]]

  lemma PathBuilt()
    ensures WithEdge(WithEdge(WithEdge(seq(4, _ => []), 0, 1), 1, 2), 2, 3) == Path
  {
    var a := WithEdge(WithEdge(WithEdge(seq(4, _ => []), 0, 1), 1, 2), 2, 3);
    assert a[0] == [1] && a[1] == [0, 2] && a[2] == [1, 3] && a[3] == [2];
  }

  lemma TailBuilt()
    ensures WithEdge(WithEdge(WithEdge(WithEdge(WithEdge(seq(5, _ => []), 0, 1), 1, 2), 2, 0), 1, 3), 3, 4) == Tail
  {
    var a := WithEdge(WithEdge(WithEdge(WithEdge(WithEdge(seq(5, _ => []), 0, 1), 1, 2), 2, 0), 1, 3), 3, 4);
    assert a[0] == [1, 2] && a[1] == [0, 2, 3] && a[2] == [1, 0] && a[3] == [1, 4] && a[4] == [3];
  }

  lemma PathFrom3(s: Search)
    requires s == Search([true, true, true, false], [0, 1, 2, -1], [0, 1, 2, -1], [-1, 0, 1, 2], [], 3, [0, 1, 2])
    ensures Explore(Path, s, 3) == Search([true, true, true, true], [0, 1, 2, 3], [0, 1, 2, 3], [-1, 0, 1, 2], [], 4, [0, 1, 2])
  {
  }

  lemma PathFrom2(s: Search)
    requires s == Search([true, true, false, false], [0, 1, -1, -1], [0, 1, -1, -1], [-1, 0, 1, -1], [], 2, [0, 1])
    ensures Explore(Path, s, 2) == Search([true, true, true, true], [0, 1, 2, 3], [0, 1, 2, 3], [-1, 0, 1, 2], [(2, 3)], 4, [0, 1])
  {
    var x := Entered(s, 2);
    var c3 := x.(parent := x.parent[3 := 2]);
    PathFrom3(c3);
  }

  lemma PathFrom1(s: Search)
    requires s == Search([true, false, false, false], [0, -1, -1, -1], [0, -1, -1, -1], [-1, 0, -1, -1], [], 1, [0])
    ensures Explore(Path, s, 1) == Search([true, true, true, true], [0, 1, 2, 3], [0, 1, 2, 3], [-1, 0, 1, 2], [(2, 3), (1, 2)], 4, [0])
  {
    var x := Entered(s, 1);
    var c2 := x.(parent := x.parent[2 := 1]);
    PathFrom2(c2);
  }

  lemma PathFrom0(s: Search)
    requires s == Search([false, false, false, false], [-1, -1, -1, -1], [-1, -1, -1, -1], [-1, -1, -1, -1], [], 0, [])
    ensures Explore(Path, s, 0) == Search([true, true, true, true], [0, 1, 2, 3], [0, 1, 2, 3], [-1, 0, 1, 2], [(2, 3), (1, 2), (0, 1)], 4, [])
  {
    var x := Entered(s, 0);
    var c1 := x.(parent := x.parent[1 := 0]);
    PathFrom1(c1);
  }

  lemma TailFrom2(s: Search)
    requires s == Search([true, true, false, false, false], [0, 1, -1, -1, -1], [0, 1, -1, -1, -1], [-1, 0, 1, -1, -1], [], 2, [0, 1])
    ensures Explore(Tail, s, 2) == Search([true, true, true, false, false], [0, 1, 2, -1, -1], [0, 1, 0, -1, -1], [-1, 0, 1, -1, -1], [], 3, [0, 1])
  {
  }

  lemma TailFrom4(s: Search)
    requires s == Search([true, true, true, true, false], [0, 1, 2, 3, -1], [0, 0, 0, 3, -1], [-1, 0, 1, 1, 3], [], 4, [0, 1, 3])
    ensures Explore(Tail, s, 4) == Search([true, true, true, true, true], [0, 1, 2, 3, 4], [0, 0, 0, 3, 4], [-1, 0, 1, 1, 3], [], 5, [0, 1, 3])
  {
  }

  lemma TailFrom3(s: Search)
    requires s == Search([true, true, true, false, false], [0, 1, 2, -1, -1], [0, 0, 0, -1, -1], [-1, 0, 1, 1, -1], [], 3, [0, 1])
    ensures Explore(Tail, s, 3) == Search([true, true, true, true, true], [0, 1, 2, 3, 4], [0, 0, 0, 3, 4], [-1, 0, 1, 1, 3], [(3, 4)], 5, [0, 1])
  {
    var x := Entered(s, 3);
    var c4 := x.(parent := x.parent[4 := 3]);
    TailFrom4(c4);
  }

  lemma TailFrom1(s: Search)
    requires s == Search([true, false, false, false, false], [0, -1, -1, -1, -1], [0, -1, -1, -1, -1], [-1, 0, -1, -1, -1], [], 1, [0])
    ensures Explore(Tail, s, 1) == Search([true, true, true, true, true], [0, 1, 2, 3, 4], [0, 0, 0, 3, 4], [-1, 0, 1, 1, 3], [(3, 4), (1, 3)], 5, [0])
  {
    var x := Entered(s, 1);
    var c2 := x.(parent := x.parent[2 := 1]);
    TailFrom2(c2);
    x := AfterChild(Explore(Tail, c2, 2), 1, 2);
    TailScan1At2(x);
  }

  lemma TailScan1At2(s: Search)
    requires s == Search([true, true, true, false, false], [0, 1, 2, -1, -1], [0, 0, 0, -1, -1], [-1, 0, 1, -1, -1], [], 3, [0, 1])
    ensures ScanFrom(Tail, s, 1, 2) == Search([true, true, true, true, true], [0, 1, 2, 3, 4], [0, 0, 0, 3, 4], [-1, 0, 1, 1, 3], [(3, 4), (1, 3)], 5, [0, 1])
  {
    var x := s;
    var c3 := x.(parent := x.parent[3 := 1]);
    TailFrom3(c3);
  }

  lemma TailFrom0(s: Search)
    requires s == Search([false, false, false, false, false], [-1, -1, -1, -1, -1], [-1, -1, -1, -1, -1], [-1, -1, -1, -1, -1], [], 0, [])
    ensures Explore(Tail, s, 0) == Search([true, true, true, true, true], [0, 1, 2, 3, 4], [0, 0, 0, 3, 4], [-1, 0, 1, 1, 3], [(3, 4), (1, 3)], 5, [])
  {
    var x := Entered(s, 0);
    var c1 := x.(parent := x.parent[1 := 0]);
    TailFrom1(c1);
  }

  lemma DoubleFrom1(s: Search)
    requires s == Search([true, false], [0, -1], [0, -1], [-1, 0], [], 1, [0])
    ensures Explore(Double, s, 1) == Search([true, true], [0, 1], [0, 1], [-1, 0], [], 2, [0])
  {
  }

  lemma DoubleFrom0(s: Search)
    requires s == Search([false, false], [-1, -1], [-1, -1], [-1, -1], [], 0, [])
    ensures Explore(Double, s, 0) == Search([true, true], [0, 1], [0, 1], [-1, 0], [(0, 1)], 2, [])
  {
    var x := Entered(s, 0);
    var c1 := x.(parent := x.parent[1 := 0]);
    DoubleFrom1(c1);
  }

  lemma PathValid()
    ensures ValidGraph(Path)
  {
    var a := seq(4, _ => []);
    WithEdgeValid(a, 0, 1);
    a := WithEdge(a, 0, 1);
    WithEdgeValid(a, 1, 2);
    a := WithEdge(a, 1, 2);
    WithEdgeValid(a, 2, 3);
    PathBuilt();
  }

  lemma TailValid()
    ensures ValidGraph(Tail)
  {
    var a := seq(5, _ => []);
    WithEdgeValid(a, 0, 1);
    a := WithEdge(a, 0, 1);
    WithEdgeValid(a, 1, 2);
    a := WithEdge(a, 1, 2);
    WithEdgeValid(a, 2, 0);
    a := WithEdge(a, 2, 0);
    WithEdgeValid(a, 1, 3);
    a := WithEdge(a, 1, 3);
    WithEdgeValid(a, 3, 4);
    TailBuilt();
  }

  lemma DoubleBuilt()
    ensures WithEdge(WithEdge(seq(2, _ => []), 0, 1), 0, 1) == Double
  {
    var a := WithEdge(WithEdge(seq(2, _ => []), 0, 1), 0, 1);
    assert a[0] == [1, 1] && a[1] == [0, 0];
  }

  lemma DoubleValid()
    ensures ValidGraph(Double)
  {
    var a := seq(2, _ => []);
    WithEdgeValid(a, 0, 1);
    a := WithEdge(a, 0, 1);
    WithEdgeValid(a, 0, 1);
    DoubleBuilt();
  }

  /** The whole search on the path: one tree, rooted at 0; the later roots are visited. */
  lemma PathRun(s: Search)
    requires s == Search([false, false, false, false], [-1, -1, -1, -1], [-1, -1, -1, -1], [-1, -1, -1, -1], [], 0, [])
    ensures Roots(Path, s, 0) == Search([true, true, true, true], [0, 1, 2, 3], [0, 1, 2, 3], [-1, 0, 1, 2], [(2, 3), (1, 2), (0, 1)], 4, [])
  {
    PathFrom0(s);
    RootsDone(Path, Explore(Path, s, 0), 1);
  }

  /** On the path every edge is reported, deepest first: (2,3), (1,2), (0,1). */
  lemma PathBridges()
    ensures ValidGraph(Path) && FoundBridges(Path) == [(2, 3), (1, 2), (0, 1)]
  {
    PathValid();
    PathRun(Initial(4));
  }

  /** The whole search on the triangle with a tail: one tree, rooted at 0. */
  lemma TailRun(s: Search)
    requires s == Search([false, false, false, false, false], [-1, -1, -1, -1, -1], [-1, -1, -1, -1, -1], [-1, -1, -1, -1, -1], [], 0, [])
    ensures Roots(Tail, s, 0) == Search([true, true, true, true, true], [0, 1, 2, 3, 4], [0, 0, 0, 3, 4], [-1, 0, 1, 1, 3], [(3, 4), (1, 3)], 5, [])
  {
    TailFrom0(s);
    RootsDone(Tail, Explore(Tail, s, 0), 1);
  }

  /** On the triangle with a tail exactly the two tail edges are reported: (3,4), then (1,3). */
  lemma TailBridges()
    ensures ValidGraph(Tail) && FoundBridges(Tail) == [(3, 4), (1, 3)]
  {
    TailValid();
    TailRun(Initial(5));
  }

  /** The whole search on the doubled edge: both copies of 0-1, seen from 1,
      lead back to 1's parent and are skipped; the second copy, seen from 0,
      only folds 1's time into 0's low value, which changes nothing. */
  lemma DoubleRun(s: Search)
    requires s == Search([false, false], [-1, -1], [-1, -1], [-1, -1], [], 0, [])
    ensures Roots(Double, s, 0) == Search([true, true], [0, 1], [0, 1], [-1, 0], [(0, 1)], 2, [])
  {
    DoubleFrom0(s);
    RootsDone(Double, Explore(Double, s, 0), 1);
  }

  /** A doubled edge is still reported, as the pair (0,1). */
  lemma DoubleBridges()
    ensures ValidGraph(Double) && FoundBridges(Double) == [(0, 1)]
  {
    DoubleValid();
    DoubleRun(Initial(2));
  }

  /** Deleting one copy of the doubled edge leaves 0 and 1 joined by the other:
      the pair reported above is not a cut edge. */
  lemma DoubleNotCut()
    ensures !IsCutEdge(Double, 0, 1)
  {
    DoubleValid();
    assert multiset(Double[0])[1] == 2;
    CutEdgeIffSingleBridgeLink(Double, 0, 1);
  }

  /** Both example graphs are connected: every vertex is reachable from vertex 0. */
  lemma PathConnected()
    ensures forall y: nat :: y < 4 ==> Reachable(Path, 0, y)
  {
    assert Walk(Path, [0], 0, 0) && Walk(Path, [0, 1], 0, 1);
    assert Walk(Path, [0, 1, 2], 0, 2) && Walk(Path, [0, 1, 2, 3], 0, 3);
  }

  lemma TailConnected()
    ensures forall y: nat :: y < 5 ==> Reachable(Tail, 0, y)
  {
    assert Walk(Tail, [0], 0, 0) && Walk(Tail, [0, 1], 0, 1) && Walk(Tail, [0, 2], 0, 2);
    assert Walk(Tail, [0, 1, 3], 0, 3) && Walk(Tail, [0, 1, 3, 4], 0, 4);
  }

  /** The search from each vertex of the path, given the marks its caller hands it. */
  lemma PathSweep3(m: seq<bool>)
    requires m == [true, true, true, false]
    ensures Preorder(Path, m, 3) == Sweep([true, true, true, true], [3])
  {
    var t := m[3 := true];
    assert t == [true, true, true, true];
    assert PreorderFrom(Path, t, 3, 1) == Sweep(t, []);
    assert PreorderFrom(Path, t, 3, 0) == Sweep(t, []);
  }

  lemma PathSweep2(m: seq<bool>)
    requires m == [true, true, false, false]
    ensures Preorder(Path, m, 2) == Sweep([true, true, true, true], [2, 3])
  {
    var t := m[2 := true];
    var all := [true, true, true, true];
    assert t == [true, true, true, false];
    PathSweep3(t);
    assert PreorderFrom(Path, all, 2, 2) == Sweep(all, []);
    assert PreorderFrom(Path, t, 2, 1) == Sweep(all, [3]);
    assert PreorderFrom(Path, t, 2, 0) == Sweep(all, [3]);
  }

  lemma PathSweep1(m: seq<bool>)
    requires m == [true, false, false, false]
    ensures Preorder(Path, m, 1) == Sweep([true, true, true, true], [1, 2, 3])
  {
    var t := m[1 := true];
    var all := [true, true, true, true];
    assert t == [true, true, false, false];
    PathSweep2(t);
    assert PreorderFrom(Path, all, 1, 2) == Sweep(all, []);
    assert PreorderFrom(Path, t, 1, 1) == Sweep(all, [2, 3]);
    assert PreorderFrom(Path, t, 1, 0) == Sweep(all, [2, 3]);
  }

  lemma PathSweep0(m: seq<bool>)
    requires m == [false, false, false, false]
    ensures Preorder(Path, m, 0) == Sweep([true, true, true, true], [0, 1, 2, 3])
  {
    var t := m[0 := true];
    var all := [true, true, true, true];
    assert t == [true, false, false, false];
    PathSweep1(t);
    assert PreorderFrom(Path, all, 0, 1) == Sweep(all, []);
    assert PreorderFrom(Path, t, 0, 0) == Sweep(all, [1, 2, 3]);
  }

  /** The path is one component, listed from 0 along the path. */
  lemma PathComponents()
    ensures Components(Path) == [[0, 1, 2, 3]]
  {
    var m := seq(4, _ => false);
    var all := [true, true, true, true];
    assert m == [false, false, false, false];
    PathSweep0(m);
    assert ComponentsFrom(Path, all, 4) == [];
    assert ComponentsFrom(Path, all, 3) == [];
    assert ComponentsFrom(Path, all, 2) == [];
    assert ComponentsFrom(Path, all, 1) == [];
    assert ComponentsFrom(Path, m, 0) == [[0, 1, 2, 3]];
  }

  /** The search from each vertex of the triangle with a tail. */
  lemma TailSweep4(m: seq<bool>)
    requires m == [true, true, true, true, false]
    ensures Preorder(Tail, m, 4) == Sweep([true, true, true, true, true], [4])
  {
    var t := m[4 := true];
    assert t == [true, true, true, true, true];
    assert PreorderFrom(Tail, t, 4, 1) == Sweep(t, []);
    assert PreorderFrom(Tail, t, 4, 0) == Sweep(t, []);
  }

  lemma TailSweep3(m: seq<bool>)
    requires m == [true, true, true, false, false]
    ensures Preorder(Tail, m, 3) == Sweep([true, true, true, true, true], [3, 4])
  {
    var t := m[3 := true];
    var all := [true, true, true, true, true];
    assert t == [true, true, true, true, false];
    TailSweep4(t);
    assert PreorderFrom(Tail, all, 3, 2) == Sweep(all, []);
    assert PreorderFrom(Tail, t, 3, 1) == Sweep(all, [4]);
    assert PreorderFrom(Tail, t, 3, 0) == Sweep(all, [4]);
  }

  lemma TailSweep2(m: seq<bool>)
    requires m == [true, true, false, false, false]
    ensures Preorder(Tail, m, 2) == Sweep([true, true, true, false, false], [2])
  {
    var t := m[2 := true];
    assert t == [true, true, true, false, false];
    assert PreorderFrom(Tail, t, 2, 2) == Sweep(t, []);
    assert PreorderFrom(Tail, t, 2, 1) == Sweep(t, []);
    assert PreorderFrom(Tail, t, 2, 0) == Sweep(t, []);
  }

  lemma TailSweep1(m: seq<bool>)
    requires m == [true, false, false, false, false]
    ensures Preorder(Tail, m, 1) == Sweep([true, true, true, true, true], [1, 2, 3, 4])
  {
    var t := m[1 := true];
    var u := [true, true, true, false, false];
    var all := [true, true, true, true, true];
    assert t == [true, true, false, false, false];
    TailSweep2(t);
    TailSweep3(u);
    assert PreorderFrom(Tail, all, 1, 3) == Sweep(all, []);
    assert PreorderFrom(Tail, u, 1, 2) == Sweep(all, [3, 4]);
    assert PreorderFrom(Tail, t, 1, 1) == Sweep(all, [2, 3, 4]);
    assert PreorderFrom(Tail, t, 1, 0) == Sweep(all, [2, 3, 4]);
  }

  lemma TailSweep0(m: seq<bool>)
    requires m == [false, false, false, false, false]
    ensures Preorder(Tail, m, 0) == Sweep([true, true, true, true, true], [0, 1, 2, 3, 4])
  {
    var t := m[0 := true];
    var all := [true, true, true, true, true];
    assert t == [true, false, false, false, false];
    TailSweep1(t);
    assert PreorderFrom(Tail, all, 0, 2) == Sweep(all, []);
    assert PreorderFrom(Tail, all, 0, 1) == Sweep(all, []);
    assert PreorderFrom(Tail, t, 0, 0) == Sweep(all, [1, 2, 3, 4]);
  }

  /** The triangle with a tail is one component: 0, then 1, the triangle's 2, and the tail 3, 4. */
  lemma TailComponents()
    ensures Components(Tail) == [[0, 1, 2, 3, 4]]
  {
    var m := seq(5, _ => false);
    var all := [true, true, true, true, true];
    assert m == [false, false, false, false, false];
    TailSweep0(m);
    assert ComponentsFrom(Tail, all, 5) == [];
    assert ComponentsFrom(Tail, all, 4) == [];
    assert ComponentsFrom(Tail, all, 3) == [];
    assert ComponentsFrom(Tail, all, 2) == [];
    assert ComponentsFrom(Tail, all, 1) == [];
    assert ComponentsFrom(Tail, m, 0) == [[0, 1, 2, 3, 4]];
  }

  /** A graph on n vertices whose only edge is 0-1, the first edge both usage
      examples add, built through the constructor and AddEdge. */
  method NewWithEdge01(n: nat) returns (g: Graph)
    requires 2 <= n
    ensures fresh(g) && g.Valid() && g.V == n
    ensures g.adj == WithEdge(seq(n, _ => []), 0, 1)
  {
    g := new Graph(n);
    g.AddEdge(0, 1);
  }

  /** The first usage example's graph, built through the constructor and AddEdge. */
  method NewPath() returns (g: Graph)
    ensures fresh(g) && g.Valid() && g.V == 4 && g.adj == Path
  {
    g := NewWithEdge01(4);
    g.AddEdge(1, 2);
    g.AddEdge(2, 3);
    PathBuilt();
  }

  /** The second usage example's graph, built through the constructor and AddEdge. */
  method NewTail() returns (g: Graph)
    ensures fresh(g) && g.Valid() && g.V == 5 && g.adj == Tail
  {
    g := NewWithEdge01(5);
    g.AddEdge(1, 2);
    g.AddEdge(2, 0);
    g.AddEdge(1, 3);
    g.AddEdge(3, 4);
    TailBuilt();
  }

  /** The first usage example's queries: the path is one component, connected,
      and each of its edges is a bridge, reported in post-order. */
  method PathExample() returns (components: seq<seq<nat>>, connected: bool, bridges: seq<(nat, nat)>)
    ensures components == [[0, 1, 2, 3]] && connected
    ensures bridges == [(2, 3), (1, 2), (0, 1)]
  {
    var g := NewPath();
    components := g.FindConnectedComponents();
    PathComponents();
    connected := g.IsConnected();
    PathConnected();
    bridges := g.FindBridges();
    PathBridges();
  }

  /** The second usage example's queries: the triangle with a tail is one
      component, connected, and its bridges are the two tail edges. */
  method TailExample() returns (components: seq<seq<nat>>, connected: bool, bridges: seq<(nat, nat)>)
    ensures components == [[0, 1, 2, 3, 4]] && connected
    ensures bridges == [(3, 4), (1, 3)]
  {
    var g := NewTail();
    components := g.FindConnectedComponents();
    TailComponents();
    connected := g.IsConnected();
    TailConnected();
    bridges := g.FindBridges();
    TailBridges();
  }
}
