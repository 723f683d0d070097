/**
 * The state of the low-link bridge search of graph_connectivity.py, and what
 * holds of it before and after each step of the recursive search. The search
 * itself (class BridgeSearch) lives with the Graph class; this module proves
 * the facts about its states that the search's method contracts rely on.
 *
 * Throughout, a call of the search on c starts in a state s0 and ends in a
 * state s; the vertices it visits (visited in s, not in s0) are c's subtree.
 * Each predicate takes only the parts of the state it reads, so that a step
 * changing other parts visibly leaves it as it was.
 */
module BridgeTheory {
  import opened GraphTheory

  /** Stands for "no time yet" in disc and low (the source's infinity, which
      is never read) and for "no parent" in parent (the source's -1). */
  const Unset: int := -1

  /** The search state: the marks, discovery times, low values and tree parents
      of every vertex, the bridges found so far, the clock, and (not part of the
      computation) the chain of search calls in progress, outermost first. */
  datatype Search = Search(
    visited: seq<bool>,
    disc: seq<int>,
    low: seq<int>,
    parent: seq<int>,
    bridges: seq<(nat, nat)>,
    time: nat,
    stack: seq<nat>)

  function Min(a: int, b: int): (m: int)
    ensures m <= a && m <= b && (m == a || m == b)
  {
    if a <= b then a else b
  }

  ghost predicate Shape(adj: Adjacency, s: Search)
  {
    |s.visited| == |adj| && |s.disc| == |adj| && |s.low| == |adj| && |s.parent| == |adj|
  }

  // ------------------------------------------------------------ the invariant

  /** Every visited vertex has a time below the clock, and no two share one. */
  ghost predicate Stamps(adj: Adjacency, visited: seq<bool>, disc: seq<int>, time: nat)
    requires |visited| == |adj| && |disc| == |adj|
  {
    && (forall x :: 0 <= x < |adj| && visited[x] ==> 0 <= disc[x] < time)
    && (forall x, y :: 0 <= x < |adj| && 0 <= y < |adj| && x != y && visited[x] && visited[y] ==>
          disc[x] != disc[y])
  }

  /** A visited vertex with a parent was reached from it along an edge, later. */
  ghost predicate TreeParents(adj: Adjacency, visited: seq<bool>, disc: seq<int>, parent: seq<int>)
    requires |visited| == |adj| && |disc| == |adj| && |parent| == |adj|
  {
    forall x :: 0 <= x < |adj| && visited[x] && parent[x] != Unset ==>
      0 <= parent[x] < |adj| && visited[parent[x]] && disc[parent[x]] < disc[x] && x in adj[parent[x]]
  }

  /** The calls in progress form a walk of visited vertices in discovery order. */
  ghost predicate ActivePath(adj: Adjacency, visited: seq<bool>, disc: seq<int>, stack: seq<nat>)
    requires |visited| == |adj| && |disc| == |adj|
  {
    && (forall i :: 0 <= i < |stack| ==> stack[i] < |adj| && visited[stack[i]])
    && (forall i, j :: 0 <= i < j < |stack| ==> disc[stack[i]] < disc[stack[j]])
    && (forall i :: 0 <= i < |stack| - 1 ==> stack[i + 1] in adj[stack[i]])
  }

  /** A visited vertex whose call has returned has all its neighbours visited. */
  ghost predicate ClosedOffStack(adj: Adjacency, visited: seq<bool>, stack: seq<nat>)
    requires |visited| == |adj|
  {
    forall x, k :: 0 <= x < |adj| && visited[x] && x !in stack && 0 <= k < |adj[x]| ==>
      adj[x][k] < |adj| && visited[adj[x][k]]
  }

  /** When a neighbour a of b was visited before b and the link a-b is a
      bridge, then b was entered from a. */
  ghost predicate Discovered(adj: Adjacency, visited: seq<bool>, disc: seq<int>, parent: seq<int>)
    requires |visited| == |adj| && |disc| == |adj| && |parent| == |adj| && WellFormed(adj)
  {
    forall b, k ::
      (0 <= b < |adj| && visited[b] && 0 <= k < |adj[b]| && visited[adj[b][k]] &&
       disc[adj[b][k]] < disc[b] && LinkIsBridge(adj, adj[b][k], b)) ==> parent[b] == adj[b][k]
  }

  /** Every pair found is a tree edge (parent, child) that is a bridge, and no
      child occurs twice. */
  ghost predicate SoundBridges(adj: Adjacency, visited: seq<bool>, parent: seq<int>, bridges: seq<(nat, nat)>)
    requires |visited| == |adj| && |parent| == |adj|
  {
    && (forall i :: 0 <= i < |bridges| ==>
          bridges[i].1 < |adj| && visited[bridges[i].1] &&
          parent[bridges[i].1] == bridges[i].0 && LinkIsBridge(adj, bridges[i].0, bridges[i].1))
    && (forall i, j :: 0 <= i < j < |bridges| ==> bridges[i].1 != bridges[j].1)
  }

  /** Every returned vertex other than `except` whose tree edge is a bridge has
      had that edge recorded. */
  ghost predicate Reported(adj: Adjacency, visited: seq<bool>, parent: seq<int>, stack: seq<nat>,
                           bridges: seq<(nat, nat)>, except: int)
    requires |visited| == |adj| && |parent| == |adj|
  {
    forall b ::
      (0 <= b < |adj| && visited[b] && b !in stack && b != except && parent[b] >= 0 &&
       LinkIsBridge(adj, parent[b] as nat, b)) ==> (parent[b] as nat, b) in bridges
  }

  ghost predicate Inv(adj: Adjacency, s: Search, except: int)
  {
    && ValidGraph(adj) && Shape(adj, s)
    && Stamps(adj, s.visited, s.disc, s.time)
    && TreeParents(adj, s.visited, s.disc, s.parent)
    && ActivePath(adj, s.visited, s.disc, s.stack)
    && ClosedOffStack(adj, s.visited, s.stack)
    && Discovered(adj, s.visited, s.disc, s.parent)
    && SoundBridges(adj, s.visited, s.parent, s.bridges)
    && Reported(adj, s.visited, s.parent, s.stack, s.bridges, except)
  }

  /** How a call on u may be made: a root call has no parent and an empty chain
      of calls; otherwise u was reached from the innermost active call. */
  ghost predicate Entry(adj: Adjacency, s: Search, u: nat)
    requires Shape(adj, s) && u < |adj|
  {
    && (s.stack == [] ==> s.parent[u] == Unset)
    && (s.stack != [] ==>
          s.stack[|s.stack| - 1] < |adj| && s.parent[u] == s.stack[|s.stack| - 1] &&
          u in adj[s.stack[|s.stack| - 1]])
  }

  ghost predicate Called(adj: Adjacency, s: Search, u: nat)
  {
    Inv(adj, s, Unset) && u < |adj| && !s.visited[u] && Entry(adj, s, u)
  }

  // ------------------------------------------------------------ one call

  /** Vertices visited since the marks v0: the subtree of the call that started there. */
  ghost predicate InSub(v0: seq<bool>, v: seq<bool>, x: nat)
  {
    x < |v| && x < |v0| && v[x] && !v0[x]
  }

  /** What a call leaves as it was: earlier vertices keep their marks, times,
      low values and parents; still unvisited ones keep their parents; found
      bridges stay; the vertices it visits are stamped at or after its start. */
  ghost predicate GrowsTo(adj: Adjacency, s0: Search, visited: seq<bool>, disc: seq<int>, low: seq<int>,
                          parent: seq<int>, bridges: seq<(nat, nat)>, time: nat)
    requires Shape(adj, s0) && |visited| == |adj| && |disc| == |adj| && |low| == |adj| && |parent| == |adj|
  {
    && s0.time <= time && s0.bridges <= bridges
    && (forall x :: 0 <= x < |adj| && s0.visited[x] ==>
          visited[x] && disc[x] == s0.disc[x] && low[x] == s0.low[x] && parent[x] == s0.parent[x])
    && (forall x :: 0 <= x < |adj| && visited[x] && !s0.visited[x] ==> s0.time <= disc[x])
    && (forall x :: 0 <= x < |adj| && !visited[x] ==> parent[x] == s0.parent[x])
  }

  ghost predicate Grows(adj: Adjacency, s0: Search, s: Search)
    requires Shape(adj, s0) && Shape(adj, s)
  {
    GrowsTo(adj, s0, s.visited, s.disc, s.low, s.parent, s.bridges, s.time)
  }

  /** Every subtree vertex other than its root c has its tree parent in the subtree. */
  ghost predicate SubParents(v0: seq<bool>, v: seq<bool>, parent: seq<int>, c: nat)
    requires |parent| == |v|
  {
    forall x: nat :: InSub(v0, v, x) && x != c ==> 0 <= parent[x] && InSub(v0, v, parent[x] as nat)
  }

  /** No edge leaves the subtree except to a call in progress at its start. */
  ghost predicate Escapes(adj: Adjacency, v0: seq<bool>, v: seq<bool>, stack0: seq<nat>)
    requires |v| == |adj|
  {
    forall x: nat, k :: InSub(v0, v, x) && 0 <= k < |adj[x]| ==>
      InSub(v0, v, adj[x][k]) || adj[x][k] in stack0
  }

  /** lowc (the low value of c) is at most the time of every vertex visited
      before the call that a subtree vertex reaches by an edge not to its own
      parent; for c itself only its first i neighbours count. */
  ghost predicate LowBound(adj: Adjacency, v0: seq<bool>, v: seq<bool>, parent: seq<int>, disc: seq<int>,
                           lowc: int, c: nat, i: nat)
    requires |v0| == |adj| && |v| == |adj| && |parent| == |adj| && |disc| == |adj|
  {
    forall x: nat, k ::
      (InSub(v0, v, x) && 0 <= k < |adj[x]| && (x == c ==> k < i) &&
       adj[x][k] < |adj| && v0[adj[x][k]] && adj[x][k] != parent[x]) ==>
      lowc <= disc[adj[x][k]]
  }

  /** lowc is c's own time, or the time of a vertex wx that the subtree vertex
      ws reaches by an edge not to its own parent. */
  ghost predicate LowWitness(adj: Adjacency, v0: seq<bool>, v: seq<bool>, parent: seq<int>, disc: seq<int>,
                             lowc: int, c: nat, ws: nat, wx: nat)
    requires |v0| == |adj| && |v| == |adj| && |parent| == |adj| && |disc| == |adj| && c < |adj|
  {
    && lowc <= disc[c]
    && (lowc == disc[c] ||
        (InSub(v0, v, ws) && wx in adj[ws] && wx < |adj| && v[wx] && wx != parent[ws] && lowc == disc[wx]))
  }

  /** Bridges found by the call (from index `from` on) end inside the
      subtree, below its root. */
  ghost predicate NewBridges(v0: seq<bool>, v: seq<bool>, from: nat, bridges: seq<(nat, nat)>, c: nat)
  {
    forall i :: from <= i < |bridges| ==> InSub(v0, v, bridges[i].1) && bridges[i].1 != c
  }

  /** The first i neighbours of u are visited. */
  ghost predicate Scanned(adj: Adjacency, visited: seq<bool>, u: nat, i: nat)
    requires |visited| == |adj| && WellFormed(adj) && u < |adj| && i <= |adj[u]|
  {
    forall k :: 0 <= k < i ==> visited[adj[u][k]]
  }

  /** Everything a call on c, started in s0, promises about the state s it returns. */
  ghost predicate Returned(adj: Adjacency, s0: Search, s: Search, c: nat, ws: nat, wx: nat)
  {
    && Shape(adj, s0) && c < |adj| && Inv(adj, s, c) && s.stack == s0.stack && Grows(adj, s0, s)
    && s.visited[c] && s.disc[c] == s0.time && s.parent[c] == s0.parent[c]
    && SubParents(s0.visited, s.visited, s.parent, c)
    && Escapes(adj, s0.visited, s.visited, s0.stack)
    && LowBound(adj, s0.visited, s.visited, s.parent, s.disc, s.low[c], c, |adj[c]|)
    && LowWitness(adj, s0.visited, s.visited, s.parent, s.disc, s.low[c], c, ws, wx)
    && NewBridges(s0.visited, s.visited, |s0.bridges|, s.bridges, c)
  }

  /** The loop of a call on u, started in s0, after its first i neighbours. */
  ghost predicate LoopInv(adj: Adjacency, s0: Search, s: Search, u: nat, i: nat, ws: nat, wx: nat)
  {
    && Called(adj, s0, u) && i <= |adj[u]|
    && Inv(adj, s, Unset) && s.stack == s0.stack + [u] && Grows(adj, s0, s)
    && s.visited[u] && s.disc[u] == s0.time && s.parent[u] == s0.parent[u]
    && SubParents(s0.visited, s.visited, s.parent, u)
    && LowBound(adj, s0.visited, s.visited, s.parent, s.disc, s.low[u], u, i)
    && LowWitness(adj, s0.visited, s.visited, s.parent, s.disc, s.low[u], u, ws, wx)
    && NewBridges(s0.visited, s.visited, |s0.bridges|, s.bridges, u)
    && Scanned(adj, s.visited, u, i)
  }

  // ------------------------------------------------------------ walks in the search tree

  /** A walk missing one end of a link takes no step along it. */
  lemma AvoidsAbsent(p: seq<nat>, a: nat, b: nat)
    requires a !in p || b !in p
    ensures AvoidsLink(p, a, b)
  {
    forall i | 0 <= i < |p| - 1
      ensures !(p[i] == a && p[i + 1] == b) && !(p[i] == b && p[i + 1] == a)
    {
      assert p[i] in p && p[i + 1] in p;
    }
  }

  /** The calls in progress from the j-th on form a walk to the innermost one. */
  lemma StackWalk(adj: Adjacency, visited: seq<bool>, disc: seq<int>, stack: seq<nat>, j: nat)
    requires |visited| == |adj| && |disc| == |adj| && ActivePath(adj, visited, disc, stack) && j < |stack|
    ensures Walk(adj, stack[j..], stack[j], stack[|stack| - 1])
  {
    var p := stack[j..];
    forall i | 0 <= i < |p| - 1 ensures p[i + 1] in adj[p[i]] {
      assert p[i] == stack[j + i] && p[i + 1] == stack[j + i + 1];
    }
  }

  /** Following parents up from a subtree vertex x reaches the root c; read
      downwards, that is a walk from c to x inside the subtree. */
  lemma TreeWalk(adj: Adjacency, v0: seq<bool>, s: Search, c: nat, x: nat) returns (q: seq<nat>)
    requires Shape(adj, s) && |v0| == |adj|
    requires Stamps(adj, s.visited, s.disc, s.time) && TreeParents(adj, s.visited, s.disc, s.parent)
    requires SubParents(v0, s.visited, s.parent, c) && InSub(v0, s.visited, x)
    ensures Walk(adj, q, c, x) && forall i :: 0 <= i < |q| ==> InSub(v0, s.visited, q[i])
    decreases s.disc[x]
  {
    if x == c {
      q := [c];
    } else {
      var y := s.parent[x] as nat;
      var q' := TreeWalk(adj, v0, s, c, y);
      WalkLink(adj, q', [x], c, y, x, x, c, c);
      q := q' + [x];
    }
  }

  /** The calls in progress from a down to the innermost one, then u, make a
      walk from a to u; it avoids the link a-u unless a is the innermost call. */
  lemma StackDetour(adj: Adjacency, visited: seq<bool>, disc: seq<int>, stack: seq<nat>, u: nat, a: nat)
    returns (p: seq<nat>)
    requires |visited| == |adj| && |disc| == |adj| && ActivePath(adj, visited, disc, stack)
    requires u < |adj| && !visited[u] && stack != [] && u in adj[stack[|stack| - 1]]
    requires a in stack && a != stack[|stack| - 1]
    ensures Walk(adj, p, a, u) && AvoidsLink(p, a, u)
  {
    var j :| 0 <= j < |stack| && stack[j] == a;
    var last := stack[|stack| - 1];
    StackWalk(adj, visited, disc, stack, j);
    var r := stack[j..];
    assert u !in r by {
      forall i | 0 <= i < |r| ensures r[i] != u {
        assert r[i] == stack[j + i];
      }
    }
    AvoidsAbsent(r, a, u);
    assert Walk(adj, [u], u, u) && AvoidsLink([u], a, u);
    WalkLink(adj, r, [u], a, last, u, u, a, u);
    p := r + [u];
  }

  /** Entering u: a neighbour visited earlier is a call in progress, so unless
      it is u's parent the detour along the calls in progress shows the link
      to u is no bridge. */
  lemma DiscoveryStep(adj: Adjacency, s: Search, u: nat)
    requires ValidGraph(adj) && Shape(adj, s)
    requires ActivePath(adj, s.visited, s.disc, s.stack) && ClosedOffStack(adj, s.visited, s.stack)
    requires u < |adj| && !s.visited[u] && Entry(adj, s, u)
    ensures forall a :: a in adj[u] && a < |adj| && s.visited[a] && LinkIsBridge(adj, a, u) ==> s.parent[u] == a
  {
    forall a | a in adj[u] && a < |adj| && s.visited[a] && s.parent[u] != a
      ensures !LinkIsBridge(adj, a, u)
    {
      NeighbourSymmetric(adj, u, a);
      var k :| 0 <= k < |adj[a]| && adj[a][k] == u;
      assert a in s.stack;
      var p := StackDetour(adj, s.visited, s.disc, s.stack, u, a);
    }
  }

  // ------------------------------------------------------------ the low-link test

  /** The facts about a returned call on c, made from the innermost call u,
      that decide the low-link test. */
  ghost predicate ChildFacts(adj: Adjacency, s0: Search, s: Search, u: nat, c: nat, ws: nat, wx: nat)
  {
    && ValidGraph(adj) && Shape(adj, s0) && Shape(adj, s) && u < |adj| && c < |adj|
    && Stamps(adj, s.visited, s.disc, s.time) && TreeParents(adj, s.visited, s.disc, s.parent)
    && ActivePath(adj, s0.visited, s0.disc, s0.stack) && ActivePath(adj, s.visited, s.disc, s.stack)
    && s0.stack != [] && s0.stack[|s0.stack| - 1] == u && s.stack == s0.stack
    && !s0.visited[c] && c in adj[u] && Grows(adj, s0, s)
    && s.visited[c] && s.disc[c] == s0.time && s.parent[c] == u
    && SubParents(s0.visited, s.visited, s.parent, c)
    && Escapes(adj, s0.visited, s.visited, s0.stack)
    && LowBound(adj, s0.visited, s.visited, s.parent, s.disc, s.low[c], c, |adj[c]|)
    && LowWitness(adj, s0.visited, s.visited, s.parent, s.disc, s.low[c], c, ws, wx)
  }

  lemma ChildFactsHold(adj: Adjacency, s0: Search, s: Search, u: nat, c: nat, ws: nat, wx: nat)
    requires Called(adj, s0, c) && s0.stack != [] && s0.stack[|s0.stack| - 1] == u
    requires Returned(adj, s0, s, c, ws, wx)
    ensures ChildFacts(adj, s0, s, u, c, ws, wx)
  {
  }

  /** A walk leaving the subtree of c for its parent u without the link c-u
      brings low[c] down to disc[u] or below. */
  lemma AvoidingWalkLowers(adj: Adjacency, s0: Search, s: Search, u: nat, c: nat, ws: nat, wx: nat, p: seq<nat>)
    requires ChildFacts(adj, s0, s, u, c, ws, wx)
    requires Walk(adj, p, c, u) && AvoidsLink(p, c, u)
    ensures s.low[c] <= s.disc[u]
  {
    var i := 0;
    while i < |p| - 1 && InSub(s0.visited, s.visited, p[i + 1])
      invariant 0 <= i < |p| && InSub(s0.visited, s.visited, p[i])
      decreases |p| - i
    {
      i := i + 1;
    }
    assert i < |p| - 1;
    var x, w := p[i], p[i + 1];
    var k :| 0 <= k < |adj[x]| && adj[x][k] == w;
    assert w in s0.stack;
    var j :| 0 <= j < |s0.stack| && s0.stack[j] == w;
    assert s.disc[w] <= s.disc[u];
    if x != c {
      assert InSub(s0.visited, s.visited, s.parent[x] as nat);
    }
    assert w != s.parent[x];
  }

  /** When low[c] is at most disc[u], the walk from c down to the witness, across
      its edge to an active call, and along the active calls to u avoids the link. */
  lemma WalkAroundLink(adj: Adjacency, s0: Search, s: Search, u: nat, c: nat, ws: nat, wx: nat) returns (p: seq<nat>)
    requires ChildFacts(adj, s0, s, u, c, ws, wx)
    requires s.low[c] <= s.disc[u]
    ensures Walk(adj, p, c, u) && AvoidsLink(p, c, u)
  {
    assert s0.visited[u] && s.disc[u] == s0.disc[u] < s0.time;
    assert s.low[c] != s.disc[c];
    var k :| 0 <= k < |adj[ws]| && adj[ws][k] == wx;
    assert !InSub(s0.visited, s.visited, wx);
    assert wx in s0.stack;
    var j :| 0 <= j < |s0.stack| && s0.stack[j] == wx;
    var q := TreeWalk(adj, s0.visited, s, c, ws);
    StackWalk(adj, s.visited, s.disc, s.stack, j);
    var r := s.stack[j..];
    assert u !in q by {
      forall i | 0 <= i < |q| ensures q[i] != u {
        assert InSub(s0.visited, s.visited, q[i]);
      }
    }
    assert c !in r by {
      forall i | 0 <= i < |r| ensures r[i] != c {
        assert r[i] == s0.stack[j + i];
      }
    }
    AvoidsAbsent(q, c, u);
    AvoidsAbsent(r, c, u);
    assert ws != u;
    WalkLink(adj, q, r, c, ws, wx, u, c, u);
    p := q + r;
  }

  /** The test the search applies after returning from c, low[c] > disc[u],
      holds exactly when the link u-c is a bridge. */
  lemma ChildLinkTest(adj: Adjacency, s0: Search, s: Search, u: nat, c: nat, ws: nat, wx: nat)
    requires ChildFacts(adj, s0, s, u, c, ws, wx)
    ensures s.low[c] > s.disc[u] <==> LinkIsBridge(adj, u, c)
  {
    assert u < |adj| && c in adj[u];
    if s.low[c] <= s.disc[u] {
      var p := WalkAroundLink(adj, s0, s, u, c, ws, wx);
      ReverseWalk(adj, p, c, u, c, u);
    } else {
      if p :| Walk(adj, p, u, c) && AvoidsLink(p, u, c) {
        ReverseWalk(adj, p, u, c, u, c);
        AvoidingWalkLowers(adj, s0, s, u, c, ws, wx, Reverse(p));
        assert false;
      }
    }
  }

  // ------------------------------------------------------------ entering a vertex

  /** The state right after entering u: marked, stamped with the clock (its low
      value too), the clock advanced and the call pushed. */
  function Entered(s: Search, u: nat): Search
    requires u < |s.visited| && u < |s.disc| && u < |s.low|
  {
    s.(visited := s.visited[u := true], disc := s.disc[u := s.time], low := s.low[u := s.time],
       time := s.time + 1, stack := s.stack + [u])
  }

  lemma EnterStamps(adj: Adjacency, visited: seq<bool>, disc: seq<int>, time: nat, u: nat)
    requires |visited| == |adj| && |disc| == |adj| && u < |adj| && !visited[u]
    requires Stamps(adj, visited, disc, time)
    ensures Stamps(adj, visited[u := true], disc[u := time], time + 1)
  {
  }

  lemma EnterTreeParents(adj: Adjacency, visited: seq<bool>, disc: seq<int>, parent: seq<int>, time: nat, u: nat)
    requires |visited| == |adj| && |disc| == |adj| && |parent| == |adj| && u < |adj| && !visited[u]
    requires Stamps(adj, visited, disc, time) && TreeParents(adj, visited, disc, parent)
    requires parent[u] != Unset ==> 0 <= parent[u] < |adj| && visited[parent[u]] && u in adj[parent[u]]
    ensures TreeParents(adj, visited[u := true], disc[u := time], parent)
  {
  }

  lemma EnterActivePath(adj: Adjacency, visited: seq<bool>, disc: seq<int>, time: nat, stack: seq<nat>, u: nat)
    requires |visited| == |adj| && |disc| == |adj| && u < |adj| && !visited[u]
    requires Stamps(adj, visited, disc, time) && ActivePath(adj, visited, disc, stack)
    requires stack != [] ==> u in adj[stack[|stack| - 1]]
    ensures ActivePath(adj, visited[u := true], disc[u := time], stack + [u])
  {
    var st := stack + [u];
    forall i, j | 0 <= i < j < |st| ensures disc[u := time][st[i]] < disc[u := time][st[j]] {
      assert st[i] == stack[i];
      if j < |stack| {
        assert st[j] == stack[j];
      }
    }
    forall i | 0 <= i < |st| - 1 ensures st[i + 1] in adj[st[i]] {
      assert st[i] == stack[i];
      if i + 1 < |stack| {
        assert st[i + 1] == stack[i + 1];
      }
    }
  }

  lemma EnterClosed(adj: Adjacency, visited: seq<bool>, stack: seq<nat>, u: nat)
    requires |visited| == |adj| && u < |adj| && ClosedOffStack(adj, visited, stack)
    ensures ClosedOffStack(adj, visited[u := true], stack + [u])
  {
  }

  lemma EnterDiscovered(adj: Adjacency, visited: seq<bool>, disc: seq<int>, parent: seq<int>, time: nat, u: nat)
    requires |visited| == |adj| && |disc| == |adj| && |parent| == |adj| && WellFormed(adj)
    requires u < |adj| && !visited[u] && Stamps(adj, visited, disc, time) && Discovered(adj, visited, disc, parent)
    requires forall a :: a in adj[u] && a < |adj| && visited[a] && LinkIsBridge(adj, a, u) ==> parent[u] == a
    ensures Discovered(adj, visited[u := true], disc[u := time], parent)
  {
    var v, d := visited[u := true], disc[u := time];
    forall b, k | 0 <= b < |adj| && v[b] && 0 <= k < |adj[b]| && v[adj[b][k]] &&
      d[adj[b][k]] < d[b] && LinkIsBridge(adj, adj[b][k], b)
      ensures parent[b] == adj[b][k]
    {
      if b == u {
        assert adj[b][k] in adj[u];
      }
    }
  }

  lemma EnterSound(adj: Adjacency, visited: seq<bool>, parent: seq<int>, bridges: seq<(nat, nat)>, u: nat)
    requires |visited| == |adj| && |parent| == |adj| && u < |adj|
    requires SoundBridges(adj, visited, parent, bridges)
    ensures SoundBridges(adj, visited[u := true], parent, bridges)
  {
  }

  lemma EnterReported(adj: Adjacency, visited: seq<bool>, parent: seq<int>, stack: seq<nat>,
                      bridges: seq<(nat, nat)>, u: nat)
    requires |visited| == |adj| && |parent| == |adj| && u < |adj|
    requires Reported(adj, visited, parent, stack, bridges, Unset)
    ensures Reported(adj, visited[u := true], parent, stack + [u], bridges, Unset)
  {
  }

  lemma EnterCall(adj: Adjacency, s0: Search, u: nat)
    requires Called(adj, s0, u)
    ensures Grows(adj, s0, Entered(s0, u))
    ensures SubParents(s0.visited, Entered(s0, u).visited, s0.parent, u)
    ensures LowBound(adj, s0.visited, Entered(s0, u).visited, s0.parent, Entered(s0, u).disc, s0.time, u, 0)
    ensures LowWitness(adj, s0.visited, Entered(s0, u).visited, s0.parent, Entered(s0, u).disc, s0.time, u, u, u)
    ensures NewBridges(s0.visited, Entered(s0, u).visited, |s0.bridges|, s0.bridges, u)
  {
  }

  /** Entering u keeps every part of the invariant, part by part. */
  lemma EnterParts(adj: Adjacency, s0: Search, u: nat)
    requires Called(adj, s0, u)
    ensures Stamps(adj, s0.visited[u := true], s0.disc[u := s0.time], s0.time + 1)
    ensures TreeParents(adj, s0.visited[u := true], s0.disc[u := s0.time], s0.parent)
    ensures ActivePath(adj, s0.visited[u := true], s0.disc[u := s0.time], s0.stack + [u])
    ensures ClosedOffStack(adj, s0.visited[u := true], s0.stack + [u])
    ensures Discovered(adj, s0.visited[u := true], s0.disc[u := s0.time], s0.parent)
    ensures SoundBridges(adj, s0.visited[u := true], s0.parent, s0.bridges)
    ensures Reported(adj, s0.visited[u := true], s0.parent, s0.stack + [u], s0.bridges, Unset)
  {
    DiscoveryStep(adj, s0, u);
    EnterStamps(adj, s0.visited, s0.disc, s0.time, u);
    EnterTreeParents(adj, s0.visited, s0.disc, s0.parent, s0.time, u);
    EnterActivePath(adj, s0.visited, s0.disc, s0.time, s0.stack, u);
    EnterClosed(adj, s0.visited, s0.stack, u);
    EnterDiscovered(adj, s0.visited, s0.disc, s0.parent, s0.time, u);
    EnterSound(adj, s0.visited, s0.parent, s0.bridges, u);
    EnterReported(adj, s0.visited, s0.parent, s0.stack, s0.bridges, u);
  }

  lemma EnterInv(adj: Adjacency, s0: Search, u: nat)
    requires Called(adj, s0, u)
    ensures Inv(adj, Entered(s0, u), Unset)
  {
    EnterParts(adj, s0, u);
  }

  /** Entering u (mark it, stamp it, push it) starts its loop. */
  lemma LoopEntry(adj: Adjacency, s0: Search, u: nat)
    requires Called(adj, s0, u)
    ensures LoopInv(adj, s0, Entered(s0, u), u, 0, u, u)
  {
    EnterInv(adj, s0, u);
    EnterCall(adj, s0, u);
  }

  // ------------------------------------------------------------ a child call

  lemma ParentTree(adj: Adjacency, visited: seq<bool>, disc: seq<int>, parent: seq<int>, v: nat, p: int)
    requires |visited| == |adj| && |disc| == |adj| && |parent| == |adj| && v < |adj| && !visited[v]
    requires TreeParents(adj, visited, disc, parent)
    ensures TreeParents(adj, visited, disc, parent[v := p])
  {
  }

  lemma ParentDiscovered(adj: Adjacency, visited: seq<bool>, disc: seq<int>, parent: seq<int>, v: nat, p: int)
    requires |visited| == |adj| && |disc| == |adj| && |parent| == |adj| && WellFormed(adj)
    requires v < |adj| && !visited[v] && Discovered(adj, visited, disc, parent)
    ensures Discovered(adj, visited, disc, parent[v := p])
  {
  }

  lemma ParentSound(adj: Adjacency, visited: seq<bool>, parent: seq<int>, bridges: seq<(nat, nat)>, v: nat, p: int)
    requires |visited| == |adj| && |parent| == |adj| && v < |adj| && !visited[v]
    requires SoundBridges(adj, visited, parent, bridges)
    ensures SoundBridges(adj, visited, parent[v := p], bridges)
  {
  }

  lemma ParentReported(adj: Adjacency, visited: seq<bool>, parent: seq<int>, stack: seq<nat>,
                       bridges: seq<(nat, nat)>, v: nat, p: int)
    requires |visited| == |adj| && |parent| == |adj| && v < |adj| && !visited[v]
    requires Reported(adj, visited, parent, stack, bridges, Unset)
    ensures Reported(adj, visited, parent[v := p], stack, bridges, Unset)
  {
  }

  /** Setting the parent of an unvisited neighbour v of u makes a call on v possible. */
  lemma ChildCall(adj: Adjacency, s0: Search, s: Search, u: nat, i: nat, ws: nat, wx: nat, v: nat)
    requires LoopInv(adj, s0, s, u, i, ws, wx) && i < |adj[u]| && v == adj[u][i] && !s.visited[v]
    ensures Called(adj, s.(parent := s.parent[v := u]), v)
  {
    assert v in adj[u];
    ParentTree(adj, s.visited, s.disc, s.parent, v, u);
    ParentDiscovered(adj, s.visited, s.disc, s.parent, v, u);
    ParentSound(adj, s.visited, s.parent, s.bridges, v, u);
    ParentReported(adj, s.visited, s.parent, s.stack, s.bridges, v, u);
  }

  /** The state after the call on v returned into the loop of u: low[v] folded
      into low[u], and u-v recorded when low[v] > disc[u]. */
  function AfterChild(s: Search, u: nat, v: nat): Search
    requires u < |s.low| && v < |s.low| && u < |s.disc|
  {
    var low := s.low[u := Min(s.low[u], s.low[v])];
    s.(low := low, bridges := if low[v] > s.disc[u] then s.bridges + [(u, v)] else s.bridges)
  }

  /** A child that was unvisited when its call began appears in no bridge found before. */
  lemma ChildFresh(adj: Adjacency, s: Search, s2: Search, v: nat)
    requires |s.visited| == |adj| && v < |adj| && !s.visited[v] && s.bridges <= s2.bridges
    requires forall j :: 0 <= j < |s.bridges| ==> s.bridges[j].1 < |adj| && s.visited[s.bridges[j].1]
    requires NewBridges(s.visited, s2.visited, |s.bridges|, s2.bridges, v)
    ensures forall j :: 0 <= j < |s2.bridges| ==> s2.bridges[j].1 != v
  {
    forall j | 0 <= j < |s2.bridges| ensures s2.bridges[j].1 != v {
      if j < |s.bridges| {
        assert s.bridges[j] == s2.bridges[j];
      }
    }
  }

  /** Recording the tree edge (u, v), when it is a bridge not yet recorded at v, keeps the record sound. */
  lemma ReportSound(adj: Adjacency, visited: seq<bool>, parent: seq<int>, bridges: seq<(nat, nat)>,
                    u: nat, v: nat, found: bool)
    requires |visited| == |adj| && |parent| == |adj| && SoundBridges(adj, visited, parent, bridges)
    requires found ==> v < |adj| && visited[v] && parent[v] == u && LinkIsBridge(adj, u, v)
    requires found ==> forall j :: 0 <= j < |bridges| ==> bridges[j].1 != v
    ensures SoundBridges(adj, visited, parent, if found then bridges + [(u, v)] else bridges)
  {
    if found {
      var b := bridges + [(u, v)];
      forall j, j' | 0 <= j < j' < |b| ensures b[j].1 != b[j'].1 {
        assert b[j] == bridges[j];
        if j' < |bridges| {
          assert b[j'] == bridges[j'];
        }
      }
      forall j | 0 <= j < |b|
        ensures b[j].1 < |adj| && visited[b[j].1] && parent[b[j].1] == b[j].0 && LinkIsBridge(adj, b[j].0, b[j].1)
      {
        if j < |bridges| {
          assert b[j] == bridges[j];
        }
      }
    }
  }

  /** Once v has returned, recording (u, v) exactly when it is a bridge leaves nothing unreported. */
  lemma ReportReported(adj: Adjacency, visited: seq<bool>, parent: seq<int>, stack: seq<nat>,
                       bridges: seq<(nat, nat)>, u: nat, v: nat, found: bool)
    requires |visited| == |adj| && |parent| == |adj| && v < |adj| && v !in stack && parent[v] == u
    requires Reported(adj, visited, parent, stack, bridges, v)
    requires LinkIsBridge(adj, u, v) ==> found
    ensures Reported(adj, visited, parent, stack, if found then bridges + [(u, v)] else bridges, Unset)
  {
  }

  lemma ChildGrows(adj: Adjacency, s0: Search, s: Search, s1: Search, s2: Search, u: nat, v: nat)
    requires Shape(adj, s0) && Shape(adj, s) && Shape(adj, s2) && u < |adj| && v < |adj|
    requires s1 == s.(parent := s.parent[v := u]) && Grows(adj, s0, s) && Grows(adj, s1, s2)
    requires !s0.visited[u] && s.visited[u] && !s.visited[v] && s2.visited[v]
    ensures Grows(adj, s0, AfterChild(s2, u, v))
  {
  }

  lemma ChildStays(adj: Adjacency, s: Search, s1: Search, s2: Search, u: nat, i: nat, v: nat)
    requires WellFormed(adj) && Shape(adj, s) && Shape(adj, s2) && u < |adj| && i < |adj[u]| && v == adj[u][i]
    requires s1 == s.(parent := s.parent[v := u]) && Grows(adj, s1, s2)
    requires s.visited[u] && !s.visited[v] && s2.visited[v] && Scanned(adj, s.visited, u, i)
    ensures s2.visited[u] && s2.disc[u] == s.disc[u] && s2.parent[u] == s.parent[u] && s2.low[u] == s.low[u]
    ensures Scanned(adj, s2.visited, u, i + 1)
  {
  }

  lemma ChildSubParents(adj: Adjacency, s0: Search, s: Search, s1: Search, s2: Search, u: nat, v: nat)
    requires Shape(adj, s0) && Shape(adj, s) && Shape(adj, s2) && u < |adj| && v < |adj|
    requires s1 == s.(parent := s.parent[v := u]) && Grows(adj, s0, s) && Grows(adj, s1, s2)
    requires !s0.visited[u] && s.visited[u] && !s.visited[v] && s2.parent[v] == u
    requires SubParents(s0.visited, s.visited, s.parent, u) && SubParents(s1.visited, s2.visited, s2.parent, v)
    ensures SubParents(s0.visited, s2.visited, s2.parent, u)
  {
    forall x: nat | InSub(s0.visited, s2.visited, x) && x != u
      ensures 0 <= s2.parent[x] && InSub(s0.visited, s2.visited, s2.parent[x] as nat)
    {
      if s.visited[x] {
        assert InSub(s0.visited, s.visited, x) && x != v;
        var p := s.parent[x] as nat;
        assert InSub(s0.visited, s.visited, p);
        assert s2.parent[x] == s.parent[x] && s2.visited[p];
      } else if x == v {
        assert s2.visited[u];
      } else {
        assert InSub(s1.visited, s2.visited, x);
        var p := s2.parent[x] as nat;
        assert InSub(s1.visited, s2.visited, p);
        assert !s0.visited[p];
      }
    }
  }

  lemma ChildNewBridges(adj: Adjacency, s0: Search, s: Search, s1: Search, s2: Search, u: nat, v: nat)
    requires Shape(adj, s0) && Shape(adj, s) && Shape(adj, s2) && u < |adj| && v < |adj|
    requires s1 == s.(parent := s.parent[v := u]) && Grows(adj, s0, s) && Grows(adj, s1, s2)
    requires !s0.visited[u] && s.visited[u] && !s.visited[v] && s2.visited[v]
    requires NewBridges(s0.visited, s.visited, |s0.bridges|, s.bridges, u)
    requires NewBridges(s1.visited, s2.visited, |s1.bridges|, s2.bridges, v)
    ensures NewBridges(s0.visited, s2.visited, |s0.bridges|, AfterChild(s2, u, v).bridges, u)
  {
    var b := AfterChild(s2, u, v).bridges;
    forall j | |s0.bridges| <= j < |b| ensures InSub(s0.visited, s2.visited, b[j].1) && b[j].1 != u {
      if j < |s.bridges| {
        assert b[j] == s.bridges[j];
        assert InSub(s0.visited, s.visited, b[j].1);
      } else if j < |s2.bridges| {
        assert b[j] == s2.bridges[j];
        assert InSub(s1.visited, s2.visited, b[j].1);
      }
    }
  }

  lemma ChildLowBound(adj: Adjacency, s0: Search, s: Search, s1: Search, s2: Search, u: nat, i: nat, v: nat)
    requires Shape(adj, s0) && Shape(adj, s) && Shape(adj, s2) && u < |adj| && i < |adj[u]| && v == adj[u][i] && v < |adj|
    requires s1 == s.(parent := s.parent[v := u]) && Grows(adj, s0, s) && Grows(adj, s1, s2)
    requires s.visited[u] && !s.visited[v]
    requires LowBound(adj, s0.visited, s.visited, s.parent, s.disc, s.low[u], u, i)
    requires LowBound(adj, s1.visited, s2.visited, s2.parent, s2.disc, s2.low[v], v, |adj[v]|)
    ensures LowBound(adj, s0.visited, s2.visited, s2.parent, s2.disc, AfterChild(s2, u, v).low[u], u, i + 1)
  {
    var lowu := AfterChild(s2, u, v).low[u];
    assert lowu <= s.low[u] && lowu <= s2.low[v];
    forall x: nat, k |
      InSub(s0.visited, s2.visited, x) && 0 <= k < |adj[x]| && (x == u ==> k < i + 1) &&
      adj[x][k] < |adj| && s0.visited[adj[x][k]] && adj[x][k] != s2.parent[x]
      ensures lowu <= s2.disc[adj[x][k]]
    {
      if s.visited[x] {
        assert InSub(s0.visited, s.visited, x);
        assert s2.parent[x] == s.parent[x];
      } else {
        assert InSub(s1.visited, s2.visited, x);
      }
    }
  }

  lemma ChildLowWitness(adj: Adjacency, s0: Search, s: Search, s1: Search, s2: Search, u: nat, v: nat,
                        ws: nat, wx: nat, cs: nat, cx: nat, ws': nat, wx': nat)
    requires Shape(adj, s0) && Shape(adj, s) && Shape(adj, s2) && u < |adj| && v < |adj|
    requires s1 == s.(parent := s.parent[v := u]) && Grows(adj, s0, s) && Grows(adj, s1, s2)
    requires s.visited[u] && !s.visited[v] && s.disc[u] < s.time && s2.disc[v] == s1.time
    requires LowWitness(adj, s0.visited, s.visited, s.parent, s.disc, s.low[u], u, ws, wx)
    requires LowWitness(adj, s1.visited, s2.visited, s2.parent, s2.disc, s2.low[v], v, cs, cx)
    requires (ws', wx') == if s2.low[v] < s2.low[u] then (cs, cx) else (ws, wx)
    ensures LowWitness(adj, s0.visited, s2.visited, s2.parent, s2.disc, AfterChild(s2, u, v).low[u], u, ws', wx')
  {
    assert s2.low[u] == s.low[u] && s2.disc[u] == s.disc[u];
    if s2.low[v] < s2.low[u] {
      assert s2.low[v] != s2.disc[v];
      assert InSub(s1.visited, s2.visited, cs);
    } else if s.low[u] != s.disc[u] {
      assert InSub(s0.visited, s.visited, ws);
      assert s2.parent[ws] == s.parent[ws];
    }
  }

  /** After the call on v returns, the parts of the loop invariant of u that
      concern the whole state hold again. */
  lemma ChildInv(adj: Adjacency, s0: Search, s: Search, u: nat, i: nat, ws: nat, wx: nat,
                 v: nat, s1: Search, s2: Search, cs: nat, cx: nat)
    requires LoopInv(adj, s0, s, u, i, ws, wx) && i < |adj[u]| && v == adj[u][i] && !s.visited[v]
    requires s1 == s.(parent := s.parent[v := u]) && Called(adj, s1, v) && Returned(adj, s1, s2, v, cs, cx)
    ensures Inv(adj, AfterChild(s2, u, v), Unset)
  {
    var found := s2.low[v] > s2.disc[u];
    ChildFactsHold(adj, s1, s2, u, v, cs, cx);
    ChildLinkTest(adj, s1, s2, u, v, cs, cx);
    ChildFresh(adj, s, s2, v);
    ReportSound(adj, s2.visited, s2.parent, s2.bridges, u, v, found);
    assert v !in s2.stack by {
      forall j | 0 <= j < |s.stack| ensures s.stack[j] != v {
        assert s.visited[s.stack[j]];
      }
    }
    ReportReported(adj, s2.visited, s2.parent, s2.stack, s2.bridges, u, v, found);
  }

  /** After the call on v returns, folding low[v] into low[u] and recording u-v
      when low[v] > disc[u] continues the loop of u. */
  lemma LoopChild(adj: Adjacency, s0: Search, s: Search, u: nat, i: nat, ws: nat, wx: nat,
                  v: nat, s2: Search, cs: nat, cx: nat) returns (ws': nat, wx': nat)
    requires LoopInv(adj, s0, s, u, i, ws, wx) && i < |adj[u]| && v == adj[u][i] && !s.visited[v]
    requires Called(adj, s.(parent := s.parent[v := u]), v)
    requires Returned(adj, s.(parent := s.parent[v := u]), s2, v, cs, cx)
    ensures LoopInv(adj, s0, AfterChild(s2, u, v), u, i + 1, ws', wx')
  {
    var s1 := s.(parent := s.parent[v := u]);
    if s2.low[v] < s2.low[u] {
      ws', wx' := cs, cx;
    } else {
      ws', wx' := ws, wx;
    }
    ChildInv(adj, s0, s, u, i, ws, wx, v, s1, s2, cs, cx);
    ChildGrows(adj, s0, s, s1, s2, u, v);
    ChildStays(adj, s, s1, s2, u, i, v);
    ChildSubParents(adj, s0, s, s1, s2, u, v);
    ChildNewBridges(adj, s0, s, s1, s2, u, v);
    ChildLowBound(adj, s0, s, s1, s2, u, i, v);
    ChildLowWitness(adj, s0, s, s1, s2, u, v, ws, wx, cs, cx, ws', wx');
  }

  // ------------------------------------------------------------ a visited neighbour

  /** The state after the visited neighbour v folded its time into low[u]. */
  function AfterBack(s: Search, u: nat, v: nat): Search
    requires u < |s.low| && v < |s.disc|
  {
    s.(low := s.low[u := Min(s.low[u], s.disc[v])])
  }

  lemma BackLow(adj: Adjacency, s0: Search, s: Search, u: nat, i: nat, ws: nat, wx: nat, v: nat, ws': nat, wx': nat)
    requires LoopInv(adj, s0, s, u, i, ws, wx) && i < |adj[u]| && v == adj[u][i] && s.visited[v]
    requires v != s.parent[u]
    requires (ws', wx') == if s.disc[v] < s.low[u] then (u, v) else (ws, wx)
    ensures LowBound(adj, s0.visited, s.visited, s.parent, s.disc, AfterBack(s, u, v).low[u], u, i + 1)
    ensures LowWitness(adj, s0.visited, s.visited, s.parent, s.disc, AfterBack(s, u, v).low[u], u, ws', wx')
  {
    assert v in adj[u];
  }

  lemma BackInv(adj: Adjacency, s0: Search, s: Search, u: nat, v: nat)
    requires Inv(adj, s, Unset) && Shape(adj, s0) && Grows(adj, s0, s) && u < |adj| && v < |adj| && !s0.visited[u]
    ensures Inv(adj, AfterBack(s, u, v), Unset) && Grows(adj, s0, AfterBack(s, u, v))
  {
    var s' := AfterBack(s, u, v);
    assert s'.visited == s.visited && s'.disc == s.disc && s'.parent == s.parent;
    assert s'.bridges == s.bridges && s'.time == s.time && s'.stack == s.stack;
  }

  /** An already visited neighbour v other than u's parent folds disc[v] into low[u]. */
  lemma LoopBack(adj: Adjacency, s0: Search, s: Search, u: nat, i: nat, ws: nat, wx: nat, v: nat)
    returns (ws': nat, wx': nat)
    requires LoopInv(adj, s0, s, u, i, ws, wx) && i < |adj[u]| && v == adj[u][i] && s.visited[v]
    requires v != s.parent[u]
    ensures LoopInv(adj, s0, AfterBack(s, u, v), u, i + 1, ws', wx')
  {
    if s.disc[v] < s.low[u] {
      ws', wx' := u, v;
    } else {
      ws', wx' := ws, wx;
    }
    BackLow(adj, s0, s, u, i, ws, wx, v, ws', wx');
    BackInv(adj, s0, s, u, v);
  }

  /** The neighbour that is u's own parent changes nothing. */
  lemma LoopSkip(adj: Adjacency, s0: Search, s: Search, u: nat, i: nat, ws: nat, wx: nat, v: nat)
    requires LoopInv(adj, s0, s, u, i, ws, wx) && i < |adj[u]| && v == adj[u][i] && s.visited[v]
    requires v == s.parent[u]
    ensures LoopInv(adj, s0, s, u, i + 1, ws, wx)
  {
  }

  // ------------------------------------------------------------ leaving a vertex

  lemma ExitActivePath(adj: Adjacency, visited: seq<bool>, disc: seq<int>, stack: seq<nat>, u: nat)
    requires |visited| == |adj| && |disc| == |adj| && ActivePath(adj, visited, disc, stack + [u])
    ensures ActivePath(adj, visited, disc, stack)
  {
    var st := stack + [u];
    assert forall i :: 0 <= i < |stack| ==> stack[i] == st[i];
  }

  lemma ExitClosed(adj: Adjacency, visited: seq<bool>, stack: seq<nat>, u: nat)
    requires |visited| == |adj| && WellFormed(adj) && u < |adj| && ClosedOffStack(adj, visited, stack + [u])
    requires Scanned(adj, visited, u, |adj[u]|)
    ensures ClosedOffStack(adj, visited, stack)
  {
  }

  lemma ExitReported(adj: Adjacency, visited: seq<bool>, parent: seq<int>, stack: seq<nat>,
                     bridges: seq<(nat, nat)>, u: nat)
    requires |visited| == |adj| && |parent| == |adj|
    requires Reported(adj, visited, parent, stack + [u], bridges, Unset)
    ensures Reported(adj, visited, parent, stack, bridges, u)
  {
  }

  /** Once u's neighbours are all visited, an edge leaving the vertices visited
      since marks v0 ends at a call that was in progress then. */
  lemma ExitEscapes(adj: Adjacency, v0: seq<bool>, v: seq<bool>, stack0: seq<nat>, u: nat)
    requires ValidGraph(adj) && |v0| == |adj| && |v| == |adj| && u < |adj|
    requires forall x :: 0 <= x < |adj| && v0[x] ==> v[x]
    requires forall i :: 0 <= i < |stack0| ==> stack0[i] < |adj| && v0[stack0[i]]
    requires ClosedOffStack(adj, v0, stack0) && ClosedOffStack(adj, v, stack0 + [u])
    requires Scanned(adj, v, u, |adj[u]|)
    ensures Escapes(adj, v0, v, stack0)
  {
    forall x: nat, k | InSub(v0, v, x) && 0 <= k < |adj[x]|
      ensures InSub(v0, v, adj[x][k]) || adj[x][k] in stack0
    {
      var w := adj[x][k];
      NeighbourSymmetric(adj, x, w);
      var k' :| 0 <= k' < |adj[w]| && adj[w][k'] == x;
      if x != u {
        assert x !in stack0 + [u];
      }
      assert v[w];
    }
  }

  /** Popping u after its loop ends the call with all it promises. */
  lemma LoopExit(adj: Adjacency, s0: Search, s: Search, u: nat, ws: nat, wx: nat)
    requires Called(adj, s0, u) && LoopInv(adj, s0, s, u, |adj[u]|, ws, wx)
    ensures Returned(adj, s0, s.(stack := s0.stack), u, ws, wx)
  {
    ExitActivePath(adj, s.visited, s.disc, s0.stack, u);
    ExitClosed(adj, s.visited, s0.stack, u);
    ExitReported(adj, s.visited, s.parent, s0.stack, s.bridges, u);
    ExitEscapes(adj, s0.visited, s.visited, s0.stack, u);
  }

  // ------------------------------------------------------------ the root calls

  /** Between root calls, once the vertices below i are visited: no call is in
      progress and the vertices not yet visited have no parent. */
  ghost predicate Between(adj: Adjacency, s: Search, i: nat)
  {
    && Inv(adj, s, Unset) && s.stack == [] && i <= |adj|
    && (forall x :: 0 <= x < i ==> s.visited[x])
    && (forall x :: 0 <= x < |adj| && !s.visited[x] ==> s.parent[x] == Unset)
  }

  lemma RootCall(adj: Adjacency, s: Search, i: nat)
    requires Between(adj, s, i) && i < |adj| && !s.visited[i]
    ensures Called(adj, s, i)
  {
  }

  /** A root call that returned leaves nothing unreported. */
  lemma RootStep(adj: Adjacency, s0: Search, s: Search, i: nat, ws: nat, wx: nat)
    requires Between(adj, s0, i) && i < |adj| && !s0.visited[i] && Returned(adj, s0, s, i, ws, wx)
    ensures Between(adj, s, i + 1)
  {
  }

  lemma RootSkip(adj: Adjacency, s: Search, i: nat)
    requires Between(adj, s, i) && i < |adj| && s.visited[i]
    ensures Between(adj, s, i + 1)
  {
  }

  // ------------------------------------------------------------ the finished search

  /** A link that is a bridge never joins a vertex to itself. */
  lemma BridgeEndsDiffer(adj: Adjacency, a: nat, b: nat)
    requires LinkIsBridge(adj, a, b)
    ensures a != b
  {
    assert Walk(adj, [a], a, a) && AvoidsLink([a], a, a);
  }

  /** With every vertex visited and no call in progress, a bridge link whose
      first end was visited first has been recorded as (first, second). */
  lemma BridgeFound(adj: Adjacency, s: Search, a: nat, b: nat)
    requires Inv(adj, s, Unset) && s.stack == [] && forall x :: 0 <= x < |adj| ==> s.visited[x]
    requires LinkIsBridge(adj, a, b) && s.disc[a] < s.disc[b]
    ensures (a, b) in s.bridges
  {
    NeighbourSymmetric(adj, a, b);
    var k :| 0 <= k < |adj[b]| && adj[b][k] == a;
    assert s.parent[b] == a;
  }

  /** With every vertex visited and no call in progress, the bridges found are
      exactly the bridge links, each once, as (tree parent, child). */
  lemma SearchComplete(adj: Adjacency, s: Search)
    requires Inv(adj, s, Unset) && s.stack == [] && forall x :: 0 <= x < |adj| ==> s.visited[x]
    ensures forall a: nat, b: nat :: LinkIsBridge(adj, a, b) ==> (a, b) in s.bridges || (b, a) in s.bridges
    ensures forall i :: 0 <= i < |s.bridges| ==> s.disc[s.bridges[i].0] < s.disc[s.bridges[i].1]
  {
    forall i | 0 <= i < |s.bridges| ensures s.disc[s.bridges[i].0] < s.disc[s.bridges[i].1] {
      assert s.parent[s.bridges[i].1] != Unset;
    }
    forall a: nat, b: nat | LinkIsBridge(adj, a, b) ensures (a, b) in s.bridges || (b, a) in s.bridges {
      BridgeEndsDiffer(adj, a, b);
      NeighbourSymmetric(adj, a, b);
      LinkIsBridgeSymmetric(adj, a, b);
      if s.disc[a] < s.disc[b] {
        BridgeFound(adj, s, a, b);
      } else {
        BridgeFound(adj, s, b, a);
      }
    }
  }
}

/**
 * The clock of the bridge search and the steps of one call: how many vertices
 * are visited, the discovery times that count yields, and the lemmas that
 * carry the invariants of BridgeTheory across entering a vertex, a child
 * call, a back edge and the return.
 */
module BridgeSteps {
  import opened GraphTheory
  import opened BridgeTheory

  /** How many vertices are visited. */
  ghost function Count(visited: seq<bool>): (r: nat)
    ensures r <= |visited|
  {
    if visited == [] then 0
    else (if visited[0] then 1 else 0) + Count(visited[1..])
  }

  lemma {:induction false} CountMark(visited: seq<bool>, u: nat)
    requires u < |visited| && !visited[u]
    ensures Count(visited[u := true]) == Count(visited) + 1
  {
    var v := visited[u := true];
    if u == 0 {
      assert v[1..] == visited[1..];
    } else {
      assert v[1..] == visited[1..][u - 1 := true];
      CountMark(visited[1..], u - 1);
    }
  }

  lemma {:induction false} CountNone(visited: seq<bool>)
    requires forall x :: 0 <= x < |visited| ==> !visited[x]
    ensures Count(visited) == 0
  {
    if visited != [] {
      CountNone(visited[1..]);
    }
  }

  lemma {:induction false} CountAll(visited: seq<bool>)
    requires forall x :: 0 <= x < |visited| ==> visited[x]
    ensures Count(visited) == |visited|
  {
    if visited != [] {
      CountAll(visited[1..]);
    }
  }

  /** n distinct values below n take every value below n. */
  lemma {:induction false} Pigeonhole(f: seq<int>, t: int) returns (x: nat)
    requires forall x :: 0 <= x < |f| ==> 0 <= f[x] < |f|
    requires forall x, y :: 0 <= x < |f| && 0 <= y < |f| && x != y ==> f[x] != f[y]
    requires 0 <= t < |f|
    ensures x < |f| && f[x] == t
    decreases |f|
  {
    var n := |f| - 1;
    if f[n] == t {
      return n;
    }
    // the entry holding n, moved to the end, leaves n values below n
    var m := n;
    if f[n] != n {
      if g :| 0 <= g < n && f[g] == n {
        m := g;
      } else {
        var last := Pigeonhole(f[..n], f[n]);
        assert false;
      }
    }
    var h := f[m := f[n]][..n];
    forall y | 0 <= y < n ensures 0 <= h[y] < n {
      assert h[y] != n by {
        if y != m {
          assert f[y] != f[m];
        }
      }
    }
    if t == n {
      return m;
    }
    x := Pigeonhole(h, t);
  }

  /** The clock counts the visited vertices. */
  ghost predicate Clock(adj: Adjacency, visited: seq<bool>, time: nat)
  {
    Count(visited) == time
  }

  /** A visited vertex's low value never exceeds its time. */
  ghost predicate LowAtMost(adj: Adjacency, visited: seq<bool>, disc: seq<int>, low: seq<int>)
    requires |visited| == |adj| && |disc| == |adj| && |low| == |adj|
  {
    forall x :: 0 <= x < |adj| && visited[x] ==> low[x] <= disc[x]
  }

  /** The clock counts the visited vertices and no low value exceeds its vertex's time. */
  ghost predicate Clocked(adj: Adjacency, s: Search)
  {
    Shape(adj, s) && Clock(adj, s.visited, s.time) && LowAtMost(adj, s.visited, s.disc, s.low)
  }

  lemma ClockedEnter(adj: Adjacency, s0: Search, u: nat)
    requires Shape(adj, s0) && u < |adj| && !s0.visited[u] && Clocked(adj, s0)
    ensures Clocked(adj, Entered(s0, u))
  {
    CountMark(s0.visited, u);
  }

  lemma ClockedChild(adj: Adjacency, s: Search, u: nat, v: nat)
    requires Clocked(adj, s) && u < |adj| && v < |adj|
    ensures Clocked(adj, AfterChild(s, u, v))
  {
  }

  lemma ClockedBack(adj: Adjacency, s: Search, u: nat, v: nat)
    requires Clocked(adj, s) && u < |adj| && v < |adj|
    ensures Clocked(adj, AfterBack(s, u, v))
  {
  }

  lemma ClockedParent(adj: Adjacency, s: Search, v: nat, p: int)
    requires Clocked(adj, s) && v < |adj|
    ensures Clocked(adj, s.(parent := s.parent[v := p]))
  {
  }

  lemma ClockedPop(adj: Adjacency, s: Search, stack: seq<nat>)
    requires Clocked(adj, s)
    ensures Clocked(adj, s.(stack := stack))
  {
  }

  // ------------------------------------------------------------ one step each, with the clock

  /** Entering u: the loop over u's neighbours starts with nothing scanned
      and u as its own low witness. */
  lemma VisitBegin(adj: Adjacency, s0: Search, u: nat)
    requires Clocked(adj, s0) && Called(adj, s0, u)
    ensures Clocked(adj, Entered(s0, u)) && LoopInv(adj, s0, Entered(s0, u), u, 0, u, u)
  {
    LoopEntry(adj, s0, u);
    ClockedEnter(adj, s0, u);
  }

  /** An unvisited neighbour v, once u is its parent, can be searched. */
  lemma ChildBegin(adj: Adjacency, s0: Search, s: Search, u: nat, i: nat, ws: nat, wx: nat, v: nat)
    requires Clocked(adj, s) && LoopInv(adj, s0, s, u, i, ws, wx)
    requires i < |adj[u]| && v == adj[u][i] && !s.visited[v]
    ensures Clocked(adj, s.(parent := s.parent[v := u])) && Called(adj, s.(parent := s.parent[v := u]), v)
  {
    ChildCall(adj, s0, s, u, i, ws, wx, v);
    ClockedParent(adj, s, v, u);
  }

  /** Once the search of the child v returned, folding it in scans one more
      neighbour. */
  lemma ChildEnd(adj: Adjacency, s0: Search, s: Search, u: nat, i: nat, ws: nat, wx: nat,
                 v: nat, s2: Search, cs: nat, cx: nat) returns (ws': nat, wx': nat)
    requires LoopInv(adj, s0, s, u, i, ws, wx) && i < |adj[u]| && v == adj[u][i] && !s.visited[v]
    requires Clocked(adj, s2) && Returned(adj, s.(parent := s.parent[v := u]), s2, v, cs, cx)
    ensures Clocked(adj, AfterChild(s2, u, v)) && LoopInv(adj, s0, AfterChild(s2, u, v), u, i + 1, ws', wx')
  {
    ChildCall(adj, s0, s, u, i, ws, wx, v);
    ws', wx' := LoopChild(adj, s0, s, u, i, ws, wx, v, s2, cs, cx);
    ClockedChild(adj, s2, u, v);
  }

  /** A visited neighbour other than the parent: folding its time in scans
      one more neighbour. */
  lemma BackStep(adj: Adjacency, s0: Search, s: Search, u: nat, i: nat, ws: nat, wx: nat, v: nat)
    returns (ws': nat, wx': nat)
    requires Clocked(adj, s) && LoopInv(adj, s0, s, u, i, ws, wx)
    requires i < |adj[u]| && v == adj[u][i] && s.visited[v] && v != s.parent[u]
    ensures Clocked(adj, AfterBack(s, u, v)) && LoopInv(adj, s0, AfterBack(s, u, v), u, i + 1, ws', wx')
  {
    ws', wx' := LoopBack(adj, s0, s, u, i, ws, wx, v);
    ClockedBack(adj, s, u, v);
  }

  /** Every neighbour scanned: u's search returns, off the stack. */
  lemma VisitEnd(adj: Adjacency, s0: Search, s: Search, u: nat, ws: nat, wx: nat)
    requires Clocked(adj, s) && u < |adj| && LoopInv(adj, s0, s, u, |adj[u]|, ws, wx)
    ensures Clocked(adj, s.(stack := s0.stack)) && Returned(adj, s0, s.(stack := s0.stack), u, ws, wx)
  {
    LoopExit(adj, s0, s, u, ws, wx);
    ClockedPop(adj, s, s0.stack);
  }

  /** Once the root calls have covered every vertex: every link with no detour
      (and no other pair) was found, once, first-visited end first; every
      vertex has a low value at most its time; the times are exactly 0 to
      |adj| - 1, one per vertex, and the clock stopped at |adj|. */
  lemma Finished(adj: Adjacency, s: Search)
    requires Between(adj, s, |adj|) && Clocked(adj, s)
    ensures forall x :: 0 <= x < |adj| ==> s.visited[x] && s.low[x] <= s.disc[x]
    ensures SoundBridges(adj, s.visited, s.parent, s.bridges)
    ensures forall a: nat, b: nat :: LinkIsBridge(adj, a, b) ==> (a, b) in s.bridges || (b, a) in s.bridges
    ensures forall i :: 0 <= i < |s.bridges| ==> s.disc[s.bridges[i].0] < s.disc[s.bridges[i].1]
    ensures forall x, y :: 0 <= x < |adj| && 0 <= y < |adj| && x != y ==> s.disc[x] != s.disc[y]
    ensures s.time == |adj| && forall x :: 0 <= x < |adj| ==> 0 <= s.disc[x] < |adj|
    ensures forall t :: 0 <= t < |adj| ==> t in s.disc
  {
    SearchComplete(adj, s);
    ClockDone(adj, s.visited, s.disc, s.low, s.time);
  }

  /** With every vertex visited, distinct times below the clock and the clock
      counting the visited: the times are exactly 0 to |adj| - 1. */
  lemma ClockDone(adj: Adjacency, visited: seq<bool>, disc: seq<int>, low: seq<int>, time: nat)
    requires |visited| == |adj| && |disc| == |adj| && |low| == |adj|
    requires forall x :: 0 <= x < |adj| ==> visited[x]
    requires Stamps(adj, visited, disc, time) && Count(visited) == time && LowAtMost(adj, visited, disc, low)
    ensures forall x :: 0 <= x < |adj| ==> low[x] <= disc[x]
    ensures forall x, y :: 0 <= x < |adj| && 0 <= y < |adj| && x != y ==> disc[x] != disc[y]
    ensures time == |adj| && forall x :: 0 <= x < |adj| ==> 0 <= disc[x] < |adj|
    ensures forall t :: 0 <= t < |adj| ==> t in disc
  {
    CountAll(visited);
    forall t | 0 <= t < |adj| ensures t in disc {
      var x := Pigeonhole(disc, t);
    }
  }

}
