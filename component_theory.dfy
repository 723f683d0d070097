/**
 * The component search as functions: one depth-first search in preorder, and
 * the scan that starts one from every vertex still unmarked. Then what the
 * search keeps true: the state one search from a vertex leaves behind, and the
 * state the scan keeps between searches, each with the lemmas that carry it
 * across one step.
 */
module ComponentTheory {
  import opened Sequences
  import opened GraphTheory

  /** The vertices not yet marked; every recursive search call marks at least one. */
  ghost function Unmarked(marked: seq<bool>): set<nat>
  {
    set y | 0 <= y < |marked| && !marked[y]
  }

  lemma UnmarkedShrinks(before: seq<bool>, after: seq<bool>, v: nat)
    requires |before| == |after| && v < |before| && !before[v] && after[v]
    requires forall y :: 0 <= y < |before| && before[y] ==> after[y]
    ensures Unmarked(after) < Unmarked(before)
  {
    assert v in Unmarked(before) - Unmarked(after);
  }

  /** The marks a search leaves behind and the vertices it marked, in the order it marked them. */
  datatype Sweep = Sweep(marked: seq<bool>, order: seq<nat>)

  /**
   * The depth-first search from an unmarked v: mark v, then search from each
   * neighbour of v, in list order, that is still unmarked when its turn comes.
   * The order it yields is the preorder of that search.
   */
  ghost function Preorder(adj: Adjacency, marked: seq<bool>, v: nat): (r: Sweep)
    requires WellFormed(adj) && |marked| == |adj| && v < |adj| && !marked[v]
    ensures |r.marked| == |adj| && Unmarked(r.marked) < Unmarked(marked)
    decreases Unmarked(marked), 0, 0
  {
    var m := marked[v := true];
    UnmarkedShrinks(marked, m, v);
    var rest := PreorderFrom(adj, m, v, 0);
    Sweep(rest.marked, [v] + rest.order)
  }

  /** The searches from the neighbours of v, from the i-th on. */
  ghost function PreorderFrom(adj: Adjacency, marked: seq<bool>, v: nat, i: nat): (r: Sweep)
    requires WellFormed(adj) && |marked| == |adj| && v < |adj| && i <= |adj[v]|
    ensures |r.marked| == |adj| && Unmarked(r.marked) <= Unmarked(marked)
    decreases Unmarked(marked), 1, |adj[v]| - i
  {
    if i == |adj[v]| then Sweep(marked, [])
    else if marked[adj[v][i]] then PreorderFrom(adj, marked, v, i + 1)
    else
      var child := Preorder(adj, marked, adj[v][i]);
      var rest := PreorderFrom(adj, child.marked, v, i + 1);
      Sweep(rest.marked, child.order + rest.order)
  }

  /** The search from v marks exactly the vertices it lists, v first, each once
      and each reachable from v, and leaves all their neighbours marked. */
  lemma {:induction false} PreorderGathers(adj: Adjacency, marked: seq<bool>, v: nat)
    requires WellFormed(adj) && |marked| == |adj| && v < |adj| && !marked[v]
    ensures Gathered(adj, marked, Preorder(adj, marked, v).marked, v, Preorder(adj, marked, v).order)
    ensures NeighboursMarked(adj, Preorder(adj, marked, v).marked, Preorder(adj, marked, v).order)
    decreases Unmarked(marked), 0, 0
  {
    var m := marked[v := true];
    GatherStart(adj, marked, v);
    UnmarkedShrinks(marked, m, v);
    var rest := PreorderFrom(adj, m, v, 0);
    PreorderFromGathers(adj, marked, m, v, 0, [v]);
    GatherDone(adj, rest.marked, v, [v] + rest.order);
  }

  /** The searches from v's neighbours, from the i-th on, extend what v's
      search has marked so far and leave every neighbour of v marked. */
  lemma {:induction false} PreorderFromGathers(adj: Adjacency, before: seq<bool>, marked: seq<bool>,
                                               v: nat, i: nat, added: seq<nat>)
    requires WellFormed(adj) && |marked| == |adj| && v < |adj| && i <= |adj[v]|
    requires Gathered(adj, before, marked, v, added) && NeighboursMarked(adj, marked, added[1..])
    requires forall k :: 0 <= k < i ==> marked[adj[v][k]]
    ensures var r := PreorderFrom(adj, marked, v, i);
      && Gathered(adj, before, r.marked, v, added + r.order)
      && NeighboursMarked(adj, r.marked, (added + r.order)[1..])
      && forall k :: 0 <= k < |adj[v]| ==> r.marked[adj[v][k]]
    decreases Unmarked(marked), 1, |adj[v]| - i
  {
    if i == |adj[v]| {
      assert added + [] == added;
    } else if marked[adj[v][i]] {
      PreorderFromGathers(adj, before, marked, v, i + 1, added);
    } else {
      var w := adj[v][i];
      var child := Preorder(adj, marked, w);
      PreorderGathers(adj, marked, w);
      GatherChild(adj, before, marked, child.marked, v, w, added, child.order);
      assert child.marked[w];
      PreorderFromGathers(adj, before, child.marked, v, i + 1, added + child.order);
      var rest := PreorderFrom(adj, child.marked, v, i + 1);
      assert added + child.order + rest.order == added + (child.order + rest.order);
    }
  }

  /** The components found by searching from each vertex, from v on, that is
      unmarked when the scan reaches it. */
  ghost function ComponentsFrom(adj: Adjacency, marked: seq<bool>, v: nat): seq<seq<nat>>
    requires WellFormed(adj) && |marked| == |adj| && v <= |adj|
    decreases |adj| - v
  {
    if v == |adj| then []
    else if marked[v] then ComponentsFrom(adj, marked, v + 1)
    else
      var c := Preorder(adj, marked, v);
      [c.order] + ComponentsFrom(adj, c.marked, v + 1)
  }

  /** A search from the unmarked v contributes the next component. */
  lemma ComponentsNext(adj: Adjacency, components: seq<seq<nat>>, marked: seq<bool>, v: nat)
    requires WellFormed(adj) && |marked| == |adj| && v < |adj| && !marked[v]
    ensures var c := Preorder(adj, marked, v);
      components + ComponentsFrom(adj, marked, v) == (components + [c.order]) + ComponentsFrom(adj, c.marked, v + 1)
  {
    var c := Preorder(adj, marked, v);
    assert ComponentsFrom(adj, marked, v) == [c.order] + ComponentsFrom(adj, c.marked, v + 1);
  }

  /** The components of the whole graph, each listed in search preorder. */
  ghost function Components(adj: Adjacency): seq<seq<nat>>
    requires WellFormed(adj)
  {
    ComponentsFrom(adj, seq(|adj|, _ => false), 0)
  }

  /**
   * What a search from v has done between the marks `before` it started on and
   * the marks `now`: `added` lists the vertices it marked, v first, each once,
   * each unmarked before and reachable from v; no other mark changed.
   */
  ghost predicate Gathered(adj: Adjacency, before: seq<bool>, now: seq<bool>, v: nat, added: seq<nat>)
  {
    && |before| == |adj| && |now| == |adj|
    && |added| > 0 && added[0] == v && Distinct(added)
    && (forall y :: 0 <= y < |adj| ==> (now[y] <==> before[y] || y in added))
    && (forall y: nat :: y in added ==> y < |adj| && !before[y] && Reachable(adj, v, y))
  }

  /** Every neighbour of every vertex in ys is marked. */
  ghost predicate NeighboursMarked(adj: Adjacency, marked: seq<bool>, ys: seq<nat>)
  {
    forall y: nat, k :: y in ys && y < |adj| && 0 <= k < |adj[y]| ==>
      adj[y][k] < |marked| && marked[adj[y][k]]
  }

  /** Marking v alone starts a search from it. */
  lemma GatherStart(adj: Adjacency, before: seq<bool>, v: nat)
    requires |before| == |adj| && v < |adj| && !before[v]
    ensures Gathered(adj, before, before[v := true], v, [v])
  {
    assert Walk(adj, [v], v, v);
  }

  /**
   * The search from v descends into its unmarked neighbour w: what the search
   * from w marks joins what v's search marked so far, and both stay finished.
   */
  lemma GatherChild(adj: Adjacency, before: seq<bool>, mid: seq<bool>, after: seq<bool>,
                    v: nat, w: nat, added: seq<nat>, more: seq<nat>)
    requires v < |adj| && w in adj[v]
    requires Gathered(adj, before, mid, v, added) && Gathered(adj, mid, after, w, more)
    requires NeighboursMarked(adj, mid, added[1..]) && NeighboursMarked(adj, after, more)
    ensures Gathered(adj, before, after, v, added + more)
    ensures NeighboursMarked(adj, after, (added + more)[1..])
  {
    forall x | x in added ensures x !in more {
      assert mid[x];
    }
    DistinctConcat(added, more);
    forall y | y in more ensures Reachable(adj, v, y) {
      ReachableStep(adj, v, w, y);
    }
    assert (added + more)[1..] == added[1..] + more;
  }

  /** Once all of v's neighbours are marked, every vertex the search added is finished. */
  lemma GatherDone(adj: Adjacency, marked: seq<bool>, v: nat, added: seq<nat>)
    requires WellFormed(adj) && |marked| == |adj| && v < |adj|
    requires |added| > 0 && added[0] == v && NeighboursMarked(adj, marked, added[1..])
    requires forall k :: 0 <= k < |adj[v]| ==> marked[adj[v][k]]
    ensures NeighboursMarked(adj, marked, added)
  {
    assert added == [v] + added[1..];
  }

  /**
   * A search started from an unmarked v on marks closed under adjacency,
   * having finished every vertex it added, has added exactly the vertices
   * reachable from v, and leaves the marks closed.
   */
  lemma ComponentIsReachSet(adj: Adjacency, before: seq<bool>, after: seq<bool>, v: nat, component: seq<nat>)
    requires ValidGraph(adj) && |before| == |adj| && v < |adj| && !before[v] && Closed(adj, before)
    requires Gathered(adj, before, after, v, component) && NeighboursMarked(adj, after, component)
    ensures Closed(adj, after)
    ensures forall y: nat :: y in component <==> y < |adj| && Reachable(adj, v, y)
  {
    forall y: nat | y < |adj| && Reachable(adj, v, y) ensures y in component {
      ClosedContainsReachable(adj, after, v, y);
      if before[y] {
        ReachableSymmetric(adj, v, y);
        ClosedContainsReachable(adj, before, y, v);
      }
    }
  }

  /**
   * The components found before vertex v, with the marks so far: the marks
   * half of Collected and the per-component half.
   */
  ghost predicate Collected(adj: Adjacency, components: seq<seq<nat>>, marked: seq<bool>, v: nat)
  {
    Marks(adj, components, marked, v) && Heads(adj, components, v)
  }

  /**
   * Together the components hold each marked vertex once and nothing else;
   * the marks are closed under adjacency and cover every vertex below v.
   */
  ghost predicate Marks(adj: Adjacency, components: seq<seq<nat>>, marked: seq<bool>, v: nat)
  {
    && |marked| == |adj| && v <= |adj|
    && (forall y: nat :: y < |adj| ==> (marked[y] <==> y in Flatten(components)))
    && (forall i, y: nat :: 0 <= i < |components| && y in components[i] ==> y < |adj|)
    && Distinct(Flatten(components))
    && (forall y :: 0 <= y < v ==> marked[y])
    && Closed(adj, marked)
  }

  /**
   * Each component is the set of vertices reachable from its first element,
   * which is its least and lies below v; first elements ascend.
   */
  ghost predicate Heads(adj: Adjacency, components: seq<seq<nat>>, v: nat)
  {
    && (forall i :: 0 <= i < |components| ==> |components[i]| > 0 && components[i][0] < v)
    && (forall i, y: nat :: 0 <= i < |components| ==>
          (y in components[i] <==> y < |adj| && Reachable(adj, components[i][0], y)))
    && (forall i, k :: 0 <= i < |components| && 0 <= k < |components[i]| ==>
          components[i][0] <= components[i][k])
    && (forall i, j :: 0 <= i < j < |components| ==> components[i][0] < components[j][0])
  }

  lemma CollectStart(adj: Adjacency)
    ensures Collected(adj, [], seq(|adj|, _ => false), 0)
  {
  }

  /** An unmarked v starts a new component: the vertices its search added. */
  lemma CollectStep(adj: Adjacency, components: seq<seq<nat>>, before: seq<bool>, after: seq<bool>,
                    v: nat, component: seq<nat>)
    requires ValidGraph(adj) && Collected(adj, components, before, v) && v < |adj| && !before[v]
    requires Gathered(adj, before, after, v, component) && NeighboursMarked(adj, after, component)
    ensures Collected(adj, components + [component], after, v + 1)
  {
    ComponentIsReachSet(adj, before, after, v, component);
    forall k | 0 <= k < |component| ensures v <= component[k] {
      assert component[k] in component;
    }
    MarksStep(adj, components, before, after, v, component);
    HeadsStep(adj, components, v, component);
  }

  lemma MarksStep(adj: Adjacency, components: seq<seq<nat>>, before: seq<bool>, after: seq<bool>,
                  v: nat, component: seq<nat>)
    requires Marks(adj, components, before, v) && v < |adj| && !before[v]
    requires Gathered(adj, before, after, v, component) && Closed(adj, after)
    ensures Marks(adj, components + [component], after, v + 1)
  {
    FlattenAppend(components, component);
    DistinctConcat(Flatten(components), component);
  }

  lemma HeadsStep(adj: Adjacency, components: seq<seq<nat>>, v: nat, component: seq<nat>)
    requires Heads(adj, components, v) && |component| > 0 && component[0] == v
    requires forall y: nat :: y in component <==> y < |adj| && Reachable(adj, v, y)
    requires forall k :: 0 <= k < |component| ==> v <= component[k]
    ensures Heads(adj, components + [component], v + 1)
  {
    var grown := components + [component];
    assert forall i :: 0 <= i < |components| ==> grown[i] == components[i];
    assert grown[|components|] == component;
  }

  /** The search from an unmarked v adds the next component, in both readings:
      the invariant of the scan, and the components the scan is defined to find. */
  lemma CollectNext(adj: Adjacency, components: seq<seq<nat>>, marked: seq<bool>, v: nat)
    requires ValidGraph(adj) && Collected(adj, components, marked, v) && v < |adj| && !marked[v]
    ensures var c := Preorder(adj, marked, v);
      && Collected(adj, components + [c.order], c.marked, v + 1)
      && components + ComponentsFrom(adj, marked, v) == (components + [c.order]) + ComponentsFrom(adj, c.marked, v + 1)
  {
    var c := Preorder(adj, marked, v);
    PreorderGathers(adj, marked, v);
    CollectStep(adj, components, marked, c.marked, v, c.order);
    ComponentsNext(adj, components, marked, v);
  }

  /** A marked v already lies in an earlier component. */
  lemma CollectSkip(adj: Adjacency, components: seq<seq<nat>>, marked: seq<bool>, v: nat)
    requires Collected(adj, components, marked, v) && v < |adj| && marked[v]
    ensures Collected(adj, components, marked, v + 1)
  {
  }

  /**
   * What the components of a graph are: nonempty, holding every vertex exactly
   * once between them, each the set of vertices reachable from its first
   * element, which is its least, with first elements ascending.
   */
  ghost predicate Partitioned(adj: Adjacency, components: seq<seq<nat>>)
  {
    && (forall i :: 0 <= i < |components| ==> |components[i]| > 0)
    && Distinct(Flatten(components))
    && (forall y: nat :: y in Flatten(components) <==> y < |adj|)
    && (forall i, y: nat :: 0 <= i < |components| ==>
          (y in components[i] <==> y < |adj| && Reachable(adj, components[i][0], y)))
    && (forall i, k :: 0 <= i < |components| && 0 <= k < |components[i]| ==>
          components[i][0] <= components[i][k])
    && (forall i, j :: 0 <= i < j < |components| ==> components[i][0] < components[j][0])
  }

  /** After the last vertex the components partition all vertices. */
  lemma CollectDone(adj: Adjacency, components: seq<seq<nat>>, marked: seq<bool>)
    requires Collected(adj, components, marked, |adj|)
    ensures Partitioned(adj, components)
  {
    forall y: nat | y < |adj| ensures y in Flatten(components) {
      assert marked[y];
    }
    forall y: nat | y in Flatten(components) ensures y < |adj| {
      var i := FlattenSource(components, y);
    }
  }

  /** The scan from v on completes the components found before v into the
      components of the graph. */
  lemma {:induction false} CollectFrom(adj: Adjacency, components: seq<seq<nat>>, marked: seq<bool>, v: nat,
                                       all: seq<seq<nat>>)
    requires ValidGraph(adj) && Collected(adj, components, marked, v)
    requires all == components + ComponentsFrom(adj, marked, v)
    ensures Partitioned(adj, all)
    decreases |adj| - v
  {
    if v == |adj| {
      CollectDone(adj, components, marked);
      assert components + [] == components;
    } else {
      var components', marked' := CollectAt(adj, components, marked, v);
      CollectFrom(adj, components', marked', v + 1, all);
    }
  }

  /** The scan at v, whether or not it starts a search there. */
  lemma CollectAt(adj: Adjacency, components: seq<seq<nat>>, marked: seq<bool>, v: nat)
    returns (components': seq<seq<nat>>, marked': seq<bool>)
    requires ValidGraph(adj) && Collected(adj, components, marked, v) && v < |adj|
    ensures Collected(adj, components', marked', v + 1)
    ensures components + ComponentsFrom(adj, marked, v) == components' + ComponentsFrom(adj, marked', v + 1)
  {
    if marked[v] {
      CollectSkip(adj, components, marked, v);
      components', marked' := components, marked;
    } else {
      var c := Preorder(adj, marked, v);
      CollectNext(adj, components, marked, v);
      components', marked' := components + [c.order], c.marked;
    }
  }

  /** The components the scan finds partition the graph as Partitioned says. */
  lemma ComponentsPartition(adj: Adjacency)
    requires ValidGraph(adj)
    ensures Partitioned(adj, Components(adj))
  {
    CollectStart(adj);
    assert Components(adj) == [] + ComponentsFrom(adj, seq(|adj|, _ => false), 0);
    CollectFrom(adj, [], seq(|adj|, _ => false), 0, Components(adj));
  }

  /** With strictly ascending first elements, the first component's is the least. */
  lemma LeastHeadFirst(components: seq<seq<nat>>, i: nat)
    requires i < |components| && forall j :: 0 <= j < |components| ==> |components[j]| > 0
    requires forall j, k :: 0 <= j < k < |components| ==> components[j][0] < components[k][0]
    ensures components[0][0] <= components[i][0]
  {
    if i > 0 {
      assert components[0][0] < components[i][0];
    }
  }
}
