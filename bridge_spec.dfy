/**
 * The bridge search as functions of the search state, one per piece of the
 * recursive procedure, and the proof that each keeps the invariants of
 * BridgeTheory and BridgeSteps.
 */
module BridgeSpec {
  import opened GraphTheory
  import opened BridgeTheory
  import opened BridgeSteps

  /** What the search needs in order to run at all: neighbours in range,
      fields of the right length, and the clock counting the visited
      vertices, which bounds the recursion. */
  ghost predicate Ready(adj: Adjacency, s: Search)
  {
    WellFormed(adj) && Shape(adj, s) && Clock(adj, s.visited, s.time)
  }

  /** The state the search starts from: nothing visited, no parents, nothing
      found, the clock at 0. */
  ghost predicate Start(adj: Adjacency, s: Search)
  {
    && ValidGraph(adj) && Ready(adj, s)
    && (forall x :: 0 <= x < |adj| ==> !s.visited[x] && s.parent[x] == Unset)
    && s.bridges == [] && s.time == 0 && s.stack == []
  }

  /** The state the search is set up in on n vertices: nothing visited, every
      time, low value and parent unset, nothing found, the clock at 0. */
  function Initial(n: nat): Search
  {
    Search(seq(n, _ => false), seq(n, _ => Unset), seq(n, _ => Unset), seq(n, _ => Unset), [], 0, [])
  }

  lemma InitialStarts(adj: Adjacency)
    requires ValidGraph(adj)
    ensures Start(adj, Initial(|adj|))
  {
    CountNone(Initial(|adj|).visited);
  }

  /** What the whole search reports: the pairs found by the searches from every
      unvisited root in ascending order, starting from the initial state. */
  ghost function FoundBridges(adj: Adjacency): seq<(nat, nat)>
    requires ValidGraph(adj)
  {
    InitialStarts(adj);
    Roots(adj, Initial(|adj|), 0).bridges
  }

  lemma StartBetween(adj: Adjacency, s: Search)
    requires Start(adj, s)
    ensures Between(adj, s, 0) && Clocked(adj, s)
  {
  }

  /** The call on an unvisited u: stamp it, scan its neighbours, return. */
  ghost function Explore(adj: Adjacency, s: Search, u: nat): (r: Search)
    requires Ready(adj, s) && u < |adj| && !s.visited[u]
    ensures Ready(adj, r) && s.time < r.time
    decreases |adj| - s.time, 0, 0
  {
    CountMark(s.visited, u);
    ScanFrom(adj, Entered(s, u), u, 0).(stack := s.stack)
  }

  /** u's neighbours from the i-th on, in order. */
  ghost function ScanFrom(adj: Adjacency, s: Search, u: nat, i: nat): (r: Search)
    requires Ready(adj, s) && u < |adj| && i <= |adj[u]|
    ensures Ready(adj, r) && s.time <= r.time
    decreases |adj| - s.time, 2, |adj[u]| - i
  {
    if i == |adj[u]| then s else ScanFrom(adj, Examine(adj, s, u, i), u, i + 1)
  }

  /** u's i-th neighbour v: an unvisited v becomes u's child, is explored and
      folded in; a visited v other than u's parent lowers u's low value to
      v's time; u's parent changes nothing. */
  ghost function Examine(adj: Adjacency, s: Search, u: nat, i: nat): (r: Search)
    requires Ready(adj, s) && u < |adj| && i < |adj[u]|
    ensures Ready(adj, r) && s.time <= r.time
    decreases |adj| - s.time, 1, 0
  {
    var v := adj[u][i];
    if !s.visited[v] then AfterChild(Explore(adj, s.(parent := s.parent[v := u]), v), u, v)
    else if v != s.parent[u] then AfterBack(s, u, v)
    else s
  }

  /** A call on each vertex from i on that no earlier call visited. */
  ghost function Roots(adj: Adjacency, s: Search, i: nat): (r: Search)
    requires Ready(adj, s) && i <= |adj|
    ensures Ready(adj, r)
    decreases |adj| - i
  {
    if i == |adj| then s else Roots(adj, RootStepped(adj, s, i), i + 1)
  }

  // ------------------------------------------------------------ what they keep

  /** A call made as Called allows returns as Returned describes. */
  lemma {:induction false} ExploreReturns(adj: Adjacency, s: Search, u: nat) returns (ws: nat, wx: nat)
    requires Clocked(adj, s) && Called(adj, s, u)
    ensures Clocked(adj, Explore(adj, s, u)) && Returned(adj, s, Explore(adj, s, u), u, ws, wx)
    decreases |adj| - s.time, 0, 0
  {
    VisitBegin(adj, s, u);
    CountMark(s.visited, u);
    var s1 := Entered(s, u);
    ws, wx := ScanKeeps(adj, s, s1, u, 0, u, u);
    VisitEnd(adj, s, ScanFrom(adj, s1, u, 0), u, ws, wx);
  }

  /** Scanning the rest of u's neighbours keeps the loop invariant. */
  lemma {:induction false} ScanKeeps(adj: Adjacency, s0: Search, s: Search, u: nat, i: nat, ws: nat, wx: nat)
    returns (ws': nat, wx': nat)
    requires Clocked(adj, s) && LoopInv(adj, s0, s, u, i, ws, wx)
    ensures Clocked(adj, ScanFrom(adj, s, u, i)) && LoopInv(adj, s0, ScanFrom(adj, s, u, i), u, |adj[u]|, ws', wx')
    decreases |adj| - s.time, 2, |adj[u]| - i
  {
    if i == |adj[u]| {
      ws', wx' := ws, wx;
    } else {
      var w, x := ExamineKeeps(adj, s0, s, u, i, ws, wx);
      ws', wx' := ScanKeeps(adj, s0, Examine(adj, s, u, i), u, i + 1, w, x);
    }
  }

  /** Examining one neighbour keeps the loop invariant, one neighbour on. */
  lemma {:induction false} ExamineKeeps(adj: Adjacency, s0: Search, s: Search, u: nat, i: nat, ws: nat, wx: nat)
    returns (ws': nat, wx': nat)
    requires Clocked(adj, s) && LoopInv(adj, s0, s, u, i, ws, wx) && i < |adj[u]|
    ensures Clocked(adj, Examine(adj, s, u, i)) && LoopInv(adj, s0, Examine(adj, s, u, i), u, i + 1, ws', wx')
    decreases |adj| - s.time, 1, 0
  {
    var v := adj[u][i];
    if !s.visited[v] {
      var s1 := s.(parent := s.parent[v := u]);
      ChildBegin(adj, s0, s, u, i, ws, wx, v);
      var cs, cx := ExploreReturns(adj, s1, v);
      ws', wx' := ChildEnd(adj, s0, s, u, i, ws, wx, v, Explore(adj, s1, v), cs, cx);
    } else if v != s.parent[u] {
      ws', wx' := BackStep(adj, s0, s, u, i, ws, wx, v);
    } else {
      LoopSkip(adj, s0, s, u, i, ws, wx, v);
      ws', wx' := ws, wx;
    }
  }

  /** One root call, or none when i is already visited. */
  ghost function RootStepped(adj: Adjacency, s: Search, i: nat): Search
    requires Ready(adj, s) && i < |adj|
  {
    if s.visited[i] then s else Explore(adj, s, i)
  }

  /** Once every vertex from i on is visited, the remaining roots start nothing. */
  lemma {:induction false} RootsDone(adj: Adjacency, s: Search, i: nat)
    requires Ready(adj, s) && i <= |adj| && forall x :: i <= x < |adj| ==> s.visited[x]
    ensures Roots(adj, s, i) == s
    decreases |adj| - i
  {
    if i < |adj| {
      RootsDone(adj, s, i + 1);
    }
  }

  /** The root calls from i on keep the invariant between root calls. */
  lemma {:induction false} RootsKeep(adj: Adjacency, s: Search, i: nat)
    requires Clocked(adj, s) && Between(adj, s, i)
    ensures Clocked(adj, Roots(adj, s, i)) && Between(adj, Roots(adj, s, i), |adj|)
    decreases |adj| - i
  {
    if i < |adj| {
      var next := RootStepped(adj, s, i);
      assert Roots(adj, s, i) == Roots(adj, next, i + 1);
      RootKeeps(adj, s, i);
      RootsKeep(adj, next, i + 1);
    }
  }

  lemma RootKeeps(adj: Adjacency, s: Search, i: nat)
    requires Clocked(adj, s) && Between(adj, s, i) && i < |adj|
    ensures Clocked(adj, RootStepped(adj, s, i)) && Between(adj, RootStepped(adj, s, i), i + 1)
  {
    if s.visited[i] {
      RootSkip(adj, s, i);
    } else {
      RootCall(adj, s, i);
      var ws, wx := ExploreReturns(adj, s, i);
      RootStep(adj, s, Explore(adj, s, i), i, ws, wx);
    }
  }

  // ------------------------------------------------------------ low values only fall

  /** Between two states: each vertex visited in the first is still visited in
      the second, with a low value no higher. */
  ghost predicate Lowered(adj: Adjacency, s: Search, r: Search)
    requires Shape(adj, s) && Shape(adj, r)
  {
    forall x :: 0 <= x < |adj| && s.visited[x] ==> r.visited[x] && r.low[x] <= s.low[x]
  }

  /** A call never raises the low value of a vertex visited before it, and
      leaves its own vertex with a low value at most the time it was stamped with. */
  lemma {:induction false} ExploreLowers(adj: Adjacency, s: Search, u: nat)
    requires Ready(adj, s) && u < |adj| && !s.visited[u]
    ensures Lowered(adj, s, Explore(adj, s, u))
    ensures Explore(adj, s, u).visited[u] && Explore(adj, s, u).low[u] <= s.time
    decreases |adj| - s.time, 0, 0
  {
    CountMark(s.visited, u);
    ScanLowers(adj, Entered(s, u), u, 0);
  }

  /** Nor does the rest of a neighbour scan. */
  lemma {:induction false} ScanLowers(adj: Adjacency, s: Search, u: nat, i: nat)
    requires Ready(adj, s) && u < |adj| && i <= |adj[u]|
    ensures Lowered(adj, s, ScanFrom(adj, s, u, i))
    decreases |adj| - s.time, 2, |adj[u]| - i
  {
    if i < |adj[u]| {
      ExamineLowers(adj, s, u, i);
      ScanLowers(adj, Examine(adj, s, u, i), u, i + 1);
    }
  }

  /** Nor does one neighbour step: folding a child's low value or a visited
      neighbour's time into low[u] takes a minimum. */
  lemma {:induction false} ExamineLowers(adj: Adjacency, s: Search, u: nat, i: nat)
    requires Ready(adj, s) && u < |adj| && i < |adj[u]|
    ensures Lowered(adj, s, Examine(adj, s, u, i))
    decreases |adj| - s.time, 1, 0
  {
    var v := adj[u][i];
    if !s.visited[v] {
      ExploreLowers(adj, s.(parent := s.parent[v := u]), v);
    }
  }

  // ------------------------------------------------------------ the whole search

  /** From the start state, the root calls visit every vertex once, with the
      times 0 to |adj| - 1 in some order and each low value at most its vertex's
      time; they find every link with no detour and nothing else, every pair
      once, tree parent first. */
  lemma SearchFinds(adj: Adjacency, s: Search)
    requires Start(adj, s)
    ensures var r := Roots(adj, s, 0);
      && Shape(adj, r)
      && (forall x :: 0 <= x < |adj| ==> r.visited[x] && r.low[x] <= r.disc[x])
      && SoundBridges(adj, r.visited, r.parent, r.bridges)
      && (forall a: nat, b: nat :: LinkIsBridge(adj, a, b) ==> (a, b) in r.bridges || (b, a) in r.bridges)
      && (forall i :: 0 <= i < |r.bridges| ==> r.disc[r.bridges[i].0] < r.disc[r.bridges[i].1])
      && (forall x, y :: 0 <= x < |adj| && 0 <= y < |adj| && x != y ==> r.disc[x] != r.disc[y])
      && r.time == |adj| && (forall x :: 0 <= x < |adj| ==> 0 <= r.disc[x] < |adj|)
      && (forall t :: 0 <= t < |adj| ==> t in r.disc)
  {
    StartBetween(adj, s);
    RootsKeep(adj, s, 0);
    Finished(adj, Roots(adj, s, 0));
  }

  /** What the search reports, in terms of cut edges: each pair is a link with
      no detour, reported once and in one orientation only; every cut edge is
      among them; a reported pair is a cut edge exactly when its edge is not
      doubled, so on a simple graph the pairs are exactly the cut edges. */
  lemma BridgesAreCutEdges(adj: Adjacency, s: Search)
    requires Start(adj, s)
    ensures var b := Roots(adj, s, 0).bridges;
      && (forall i :: 0 <= i < |b| ==>
            b[i].0 < |adj| && b[i].1 < |adj| && LinkIsBridge(adj, b[i].0, b[i].1))
      && (forall x: nat, y: nat :: LinkIsBridge(adj, x, y) ==> (x, y) in b || (y, x) in b)
      && (forall i, j :: 0 <= i < |b| && 0 <= j < |b| ==>
            b[i] != (b[j].1, b[j].0) && (i != j ==> b[i] != b[j]))
      && (forall x: nat, y: nat :: IsCutEdge(adj, x, y) ==> (x, y) in b || (y, x) in b)
      && (forall i :: 0 <= i < |b| ==>
            (IsCutEdge(adj, b[i].0, b[i].1) <==> multiset(adj[b[i].0])[b[i].1] == 1))
      && (SimpleGraph(adj) ==> forall i :: 0 <= i < |b| ==> IsCutEdge(adj, b[i].0, b[i].1))
  {
    SearchFinds(adj, s);
    var b := Roots(adj, s, 0).bridges;
    forall i | 0 <= i < |b|
      ensures IsCutEdge(adj, b[i].0, b[i].1) <==> multiset(adj[b[i].0])[b[i].1] == 1
    {
      CutEdgeIffSingleBridgeLink(adj, b[i].0, b[i].1);
    }
    forall x: nat, y: nat | IsCutEdge(adj, x, y) ensures (x, y) in b || (y, x) in b {
      CutEdgeIffSingleBridgeLink(adj, x, y);
    }
    forall i, j | 0 <= i < |b| && 0 <= j < |b|
      ensures b[i] != (b[j].1, b[j].0) && (i != j ==> b[i] != b[j])
    {
      if i < j {
        assert b[i].1 != b[j].1;
      } else if j < i {
        assert b[j].1 != b[i].1;
      }
    }
  }
}
