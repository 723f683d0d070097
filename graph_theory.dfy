/**
 * Undirected multigraphs stored as adjacency lists, walks in them, and the two
 * readings of "bridge": a single edge whose deletion disconnects its endpoints
 * (IsCutEdge), and a pair of adjacent vertices that only their direct edges
 * connect (LinkIsBridge), which is what the low-link test decides.
 */
module GraphTheory {

  /** adj[u] lists the neighbours of vertex u in the order the edges were added;
      an edge added k times occurs k times, a self-loop twice per addition. */
  type Adjacency = seq<seq<nat>>

  ghost predicate WellFormed(adj: Adjacency)
  {
    forall u, k :: 0 <= u < |adj| && 0 <= k < |adj[u]| ==> adj[u][k] < |adj|
  }

  /** Every edge is recorded at both of its endpoints, equally often. */
  ghost predicate Symmetric(adj: Adjacency)
  {
    forall u, v :: 0 <= u < |adj| && 0 <= v < |adj| ==> multiset(adj[u])[v] == multiset(adj[v])[u]
  }

  ghost predicate ValidGraph(adj: Adjacency)
  {
    WellFormed(adj) && Symmetric(adj)
  }

  lemma NeighbourSymmetric(adj: Adjacency, u: nat, v: nat)
    requires ValidGraph(adj) && u < |adj| && v in adj[u]
    ensures v < |adj| && u in adj[v]
  {
    var k :| 0 <= k < |adj[u]| && adj[u][k] == v;
    assert multiset(adj[u])[v] > 0;
  }

  /** The graph after adding the undirected edge u-v: v is appended to the list
      of u, then u to the list of v. */
  function WithEdge(adj: Adjacency, u: nat, v: nat): Adjacency
    requires u < |adj| && v < |adj|
  {
    var a := adj[u := adj[u] + [v]];
    a[v := a[v] + [u]]
  }

  /** Adding u-v records one more u-v edge at each endpoint (two more entries
      for a self-loop) and leaves every other multiplicity as it was. */
  lemma WithEdgeMultiplicity(adj: Adjacency, u: nat, v: nat, x: nat, y: nat)
    requires u < |adj| && v < |adj| && x < |adj| && y < |adj|
    ensures multiset(WithEdge(adj, u, v)[x])[y] ==
      multiset(adj[x])[y] + (if x == u && y == v then 1 else 0) + (if x == v && y == u then 1 else 0)
  {
  }

  /** Adding an edge keeps the graph well formed and symmetric, and only appends
      to neighbour lists, so insertion order is kept. */
  lemma WithEdgeValid(adj: Adjacency, u: nat, v: nat)
    requires ValidGraph(adj) && u < |adj| && v < |adj|
    ensures |WithEdge(adj, u, v)| == |adj| && ValidGraph(WithEdge(adj, u, v))
    ensures forall w :: 0 <= w < |adj| ==> adj[w] <= WithEdge(adj, u, v)[w]
  {
    var a := adj[u := adj[u] + [v]];
    var r := a[v := a[v] + [u]];
    assert r == WithEdge(adj, u, v);
    forall w | 0 <= w < |adj| ensures adj[w] <= r[w] {
      assert adj[w] <= a[w];
    }
    forall x, k | 0 <= x < |r| && 0 <= k < |r[x]| ensures r[x][k] < |r| {
      if x == v {
        assert k < |a[v]| ==> r[x][k] == a[v][k];
      } else {
        assert r[x] == a[x];
      }
      if x == u && k < |a[x]| {
        assert k < |adj[u]| ==> a[x][k] == adj[u][k];
      }
    }
    forall x, y | 0 <= x < |r| && 0 <= y < |r| ensures multiset(r[x])[y] == multiset(r[y])[x] {
      WithEdgeMultiplicity(adj, u, v, x, y);
      WithEdgeMultiplicity(adj, u, v, y, x);
    }
  }

  // ---------------------------------------------------------------- walks

  /** p is a walk: consecutive vertices are joined by an edge. */
  ghost predicate IsPath(adj: Adjacency, p: seq<nat>)
  {
    && |p| > 0
    && (forall i :: 0 <= i < |p| ==> p[i] < |adj|)
    && (forall i :: 0 <= i < |p| - 1 ==> p[i + 1] in adj[p[i]])
  }

  /** p is a walk from a to b. */
  ghost predicate Walk(adj: Adjacency, p: seq<nat>, a: nat, b: nat)
  {
    IsPath(adj, p) && p[0] == a && p[|p| - 1] == b
  }

  ghost predicate Reachable(adj: Adjacency, a: nat, b: nat)
  {
    exists p :: Walk(adj, p, a, b)
  }

  /** No step of p goes between a and b, in either direction. */
  ghost predicate AvoidsLink(p: seq<nat>, a: nat, b: nat)
  {
    forall i :: 0 <= i < |p| - 1 ==> !(p[i] == a && p[i + 1] == b) && !(p[i] == b && p[i + 1] == a)
  }

  function Reverse(p: seq<nat>): seq<nat>
  {
    seq(|p|, i requires 0 <= i < |p| => p[|p| - 1 - i])
  }

  /** Walks can be walked backwards, and a link avoided one way is avoided the other way. */
  lemma ReverseWalk(adj: Adjacency, p: seq<nat>, a: nat, b: nat, x: nat, y: nat)
    requires ValidGraph(adj) && Walk(adj, p, a, b)
    ensures Walk(adj, Reverse(p), b, a)
    ensures AvoidsLink(p, x, y) ==> AvoidsLink(Reverse(p), x, y)
  {
    var q := Reverse(p);
    forall i | 0 <= i < |q| - 1 ensures q[i + 1] in adj[q[i]] {
      var j := |p| - 2 - i;
      assert q[i] == p[j + 1] && q[i + 1] == p[j];
      NeighbourSymmetric(adj, p[j], p[j + 1]);
    }
    if AvoidsLink(p, x, y) {
      forall i | 0 <= i < |q| - 1
        ensures !(q[i] == x && q[i + 1] == y) && !(q[i] == y && q[i + 1] == x)
      {
        var j := |p| - 2 - i;
        assert q[i] == p[j + 1] && q[i + 1] == p[j];
      }
    }
  }

  /** A walk to m followed by an edge m-m' and a walk from m' is a walk; it avoids
      a link when both parts and the joining edge do. */
  lemma WalkLink(adj: Adjacency, p: seq<nat>, q: seq<nat>, a: nat, m: nat, m': nat, b: nat, x: nat, y: nat)
    requires Walk(adj, p, a, m) && Walk(adj, q, m', b) && m' in adj[m]
    ensures Walk(adj, p + q, a, b)
    ensures AvoidsLink(p, x, y) && AvoidsLink(q, x, y) && !(m == x && m' == y) && !(m == y && m' == x)
      ==> AvoidsLink(p + q, x, y)
  {
    var r := p + q;
    forall i | 0 <= i < |r| - 1 ensures r[i + 1] in adj[r[i]] {
      if i < |p| - 1 {
        assert r[i] == p[i] && r[i + 1] == p[i + 1];
      } else if i == |p| - 1 {
        assert r[i] == m && r[i + 1] == m';
      } else {
        assert r[i] == q[i - |p|] && r[i + 1] == q[i - |p| + 1];
      }
    }
    if AvoidsLink(p, x, y) && AvoidsLink(q, x, y) && !(m == x && m' == y) && !(m == y && m' == x) {
      forall i | 0 <= i < |r| - 1
        ensures !(r[i] == x && r[i + 1] == y) && !(r[i] == y && r[i + 1] == x)
      {
        if i < |p| - 1 {
          assert r[i] == p[i] && r[i + 1] == p[i + 1];
        } else if i == |p| - 1 {
          assert r[i] == m && r[i + 1] == m';
        } else {
          assert r[i] == q[i - |p|] && r[i + 1] == q[i - |p| + 1];
        }
      }
    }
  }

  lemma ReachableStep(adj: Adjacency, a: nat, c: nat, b: nat)
    requires a < |adj| && c in adj[a] && Reachable(adj, c, b)
    ensures Reachable(adj, a, b)
  {
    var q :| Walk(adj, q, c, b);
    WalkLink(adj, [a], q, a, a, c, b, a, a);
  }

  lemma ReachableSymmetric(adj: Adjacency, a: nat, b: nat)
    requires ValidGraph(adj) && Reachable(adj, a, b)
    ensures Reachable(adj, b, a)
  {
    var p :| Walk(adj, p, a, b);
    ReverseWalk(adj, p, a, b, a, a);
  }

  /** A set of vertices (given by its membership flags) with no edge leaving it. */
  ghost predicate Closed(adj: Adjacency, marked: seq<bool>)
  {
    |marked| == |adj| &&
    forall u, k :: 0 <= u < |adj| && marked[u] && 0 <= k < |adj[u]| ==> adj[u][k] < |adj| && marked[adj[u][k]]
  }

  /** A closed set contains everything reachable from its members. */
  lemma ClosedContainsReachable(adj: Adjacency, marked: seq<bool>, a: nat, b: nat)
    requires WellFormed(adj) && Closed(adj, marked) && a < |adj| && marked[a] && Reachable(adj, a, b)
    ensures marked[b]
  {
    var p :| Walk(adj, p, a, b);
    var i := 0;
    while i < |p| - 1
      invariant 0 <= i < |p| && marked[p[i]]
    {
      assert p[i + 1] in adj[p[i]];
      var k :| 0 <= k < |adj[p[i]]| && adj[p[i]][k] == p[i + 1];
      i := i + 1;
    }
  }

  // ---------------------------------------------------------------- bridges

  /** The vertices a and b are adjacent and every walk from a to b takes an a-b
      edge: deleting all a-b edges at once disconnects them. */
  ghost predicate LinkIsBridge(adj: Adjacency, a: nat, b: nat)
  {
    a < |adj| && b in adj[a] && !exists p :: Walk(adj, p, a, b) && AvoidsLink(p, a, b)
  }

  lemma LinkIsBridgeSymmetric(adj: Adjacency, a: nat, b: nat)
    requires ValidGraph(adj) && LinkIsBridge(adj, a, b)
    ensures LinkIsBridge(adj, b, a)
  {
    NeighbourSymmetric(adj, a, b);
    forall p | Walk(adj, p, b, a) ensures !AvoidsLink(p, b, a) {
      ReverseWalk(adj, p, b, a, a, b);
    }
  }

  /** s with its first occurrence of x deleted. */
  function RemoveFirst(s: seq<nat>, x: nat): (r: seq<nat>)
    ensures multiset(r) == multiset(s) - multiset{x}
  {
    if s == [] then []
    else if s[0] == x then (assert s == [s[0]] + s[1..]; s[1..])
    else (assert s == [s[0]] + s[1..]; [s[0]] + RemoveFirst(s[1..], x))
  }

  /** The graph after deleting one copy of the edge a-b (a != b). */
  function RemoveEdge(adj: Adjacency, a: nat, b: nat): Adjacency
    requires a < |adj| && b < |adj|
  {
    var r := adj[a := RemoveFirst(adj[a], b)];
    r[b := RemoveFirst(r[b], a)]
  }

  /** A cut edge: deleting one copy of the edge a-b disconnects a from b. A
      self-loop never is one. */
  ghost predicate IsCutEdge(adj: Adjacency, a: nat, b: nat)
  {
    a < |adj| && b < |adj| && a != b && b in adj[a] && !Reachable(RemoveEdge(adj, a, b), a, b)
  }

  /** No parallel edges and no self-loops: every neighbour occurs at most once. */
  ghost predicate SimpleGraph(adj: Adjacency)
  {
    forall u, v :: 0 <= u < |adj| && 0 <= v < |adj| ==> multiset(adj[u])[v] <= 1
  }

  lemma RemoveFirstMember(s: seq<nat>, x: nat, y: nat)
    ensures y in RemoveFirst(s, x) ==> y in s
    ensures y != x ==> (y in RemoveFirst(s, x) <==> y in s)
    ensures y == x ==> (y in RemoveFirst(s, x) <==> multiset(s)[x] > 1)
  {
    assert multiset(RemoveFirst(s, x))[y] == multiset(s)[y] - (if y == x && multiset(s)[x] > 0 then 1 else 0);
  }

  /** Walks in the graph without all a-b edges are walks after deleting one copy. */
  lemma AvoidingWalkSurvives(adj: Adjacency, a: nat, b: nat, p: seq<nat>, c: nat, d: nat)
    requires a < |adj| && b < |adj| && a != b && Walk(adj, p, c, d) && AvoidsLink(p, a, b)
    ensures Walk(RemoveEdge(adj, a, b), p, c, d)
  {
    var r := RemoveEdge(adj, a, b);
    forall i | 0 <= i < |p| - 1 ensures p[i + 1] in r[p[i]] {
      RemoveFirstMember(adj[a], b, p[i + 1]);
      RemoveFirstMember(adj[b], a, p[i + 1]);
    }
  }

  /** With a single a-b edge, walks after deleting it are walks avoiding the link. */
  lemma SingleEdgeWalk(adj: Adjacency, a: nat, b: nat, p: seq<nat>, c: nat, d: nat)
    requires ValidGraph(adj) && a < |adj| && b < |adj| && a != b && multiset(adj[a])[b] == 1
    requires Walk(RemoveEdge(adj, a, b), p, c, d)
    ensures Walk(adj, p, c, d) && AvoidsLink(p, a, b)
  {
    var r := RemoveEdge(adj, a, b);
    assert multiset(adj[b])[a] == 1;
    RemoveFirstMember(adj[a], b, b);
    RemoveFirstMember(adj[b], a, a);
    forall i | 0 <= i < |p| - 1
      ensures p[i + 1] in adj[p[i]]
      ensures !(p[i] == a && p[i + 1] == b) && !(p[i] == b && p[i + 1] == a)
    {
      RemoveFirstMember(adj[a], b, p[i + 1]);
      RemoveFirstMember(adj[b], a, p[i + 1]);
    }
  }

  /** One copy of a-b is a cut edge exactly when the link a-b is a bridge and the
      edge is not doubled. So on graphs without parallel edges the two notions agree,
      and a doubled edge is never a cut edge. */
  lemma CutEdgeIffSingleBridgeLink(adj: Adjacency, a: nat, b: nat)
    requires ValidGraph(adj) && a < |adj| && b in adj[a]
    ensures IsCutEdge(adj, a, b) <==> LinkIsBridge(adj, a, b) && multiset(adj[a])[b] == 1
  {
    NeighbourSymmetric(adj, a, b);
    if a == b {
      assert Walk(adj, [a], a, b) && AvoidsLink([a], a, b);
    } else {
      var r := RemoveEdge(adj, a, b);
      if IsCutEdge(adj, a, b) {
        if p :| Walk(adj, p, a, b) && AvoidsLink(p, a, b) {
          AvoidingWalkSurvives(adj, a, b, p, a, b);
          assert false;
        }
        if multiset(adj[a])[b] > 1 {
          RemoveFirstMember(adj[a], b, b);
          assert Walk(r, [a, b], a, b);
          assert false;
        }
      }
      if LinkIsBridge(adj, a, b) && multiset(adj[a])[b] == 1 {
        if p :| Walk(r, p, a, b) {
          SingleEdgeWalk(adj, a, b, p, a, b);
          assert false;
        }
      }
    }
  }
}
