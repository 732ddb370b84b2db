/**
 * `dijkstrasShortestPath`: a greedy search over the author graph that always
 * takes the lightest single pending edge (weights are compared, never
 * summed), records for each node the source of the first edge that reached
 * it, and rebuilds the path to `dest` from those predecessors.
 */
module Dijkstra {
  import opened Reach
  import opened WeightedGraph

  /** The pending edges: the priority queue, as a multiset. */
  type Queue = multiset<WeightedEdge>

  predicate IsMinimal(q: Queue, m: WeightedEdge)
  {
    m in q && forall e :: e in q ==> m.weight <= e.weight
  }

  lemma {:induction false} MinimalExists(q: Queue)
    requires q != multiset{}
    ensures exists m :: IsMinimal(q, m)
    decreases |q|
  {
    var x :| x in q;
    var rest := q - multiset{x};
    if rest == multiset{} {
      assert q == multiset{x};
      assert IsMinimal(q, x);
    } else {
      MinimalExists(rest);
      var m :| IsMinimal(rest, m);
      if m.weight <= x.weight {
        assert IsMinimal(q, m);
      } else {
        assert IsMinimal(q, x);
      }
    }
  }

  /** `queue.top()`: an edge of least weight; which one among equals is left open. */
  method Top(q: Queue) returns (m: WeightedEdge)
    requires q != multiset{}
    ensures IsMinimal(q, m)
  {
    MinimalExists(q);
    m :| IsMinimal(q, m);
  }

  /** The edges of `edges` whose destination has no predecessor yet, in order. */
  function Unreached(edges: seq<WeightedEdge>, previous: map<nat, nat>): seq<WeightedEdge>
  {
    if |edges| == 0 then []
    else
      var last := edges[|edges| - 1];
      Unreached(edges[..|edges| - 1], previous) + (if last.destination in previous then [] else [last])
  }

  lemma {:induction false} UnreachedMembers(edges: seq<WeightedEdge>, previous: map<nat, nat>)
    ensures forall e :: e in Unreached(edges, previous) <==> e in edges && e.destination !in previous
  {
    if |edges| > 0 {
      var init := edges[..|edges| - 1];
      UnreachedMembers(init, previous);
      assert edges == init + [edges[|edges| - 1]];
    }
  }

  /** One more edge considered by the inner loop: it is pushed exactly when its destination is unreached. */
  lemma UnreachedStep(edges: seq<WeightedEdge>, previous: map<nat, nat>, j: nat, q: Queue)
    requires j < |edges|
    ensures edges[j].destination in previous ==>
              q + multiset(Unreached(edges[..j + 1], previous)) == q + multiset(Unreached(edges[..j], previous))
    ensures edges[j].destination !in previous ==>
              q + multiset(Unreached(edges[..j + 1], previous)) == q + multiset(Unreached(edges[..j], previous)) + multiset{edges[j]}
  {
    assert edges[..j + 1][..j] == edges[..j];
    var u := Unreached(edges[..j], previous);
    if edges[j].destination in previous {
      assert Unreached(edges[..j + 1], previous) == u + [];
      assert u + [] == u;
    } else {
      assert Unreached(edges[..j + 1], previous) == u + [edges[j]];
      assert multiset(u + [edges[j]]) == multiset(u) + multiset{edges[j]};
    }
  }

  /** The inner loop: pushes the edges whose destination has no predecessor. */
  method PushUnreached(edges: seq<WeightedEdge>, previous: map<nat, nat>, q: Queue) returns (r: Queue)
    ensures r == q + multiset(Unreached(edges, previous))
  {
    r := q;
    var j := 0;
    while j < |edges|
      invariant 0 <= j <= |edges|
      invariant r == q + multiset(Unreached(edges[..j], previous))
    {
      UnreachedStep(edges, previous, j, q);
      if edges[j].destination !in previous {
        r := r + multiset{edges[j]};
      }
      j := j + 1;
    }
    assert edges[..j] == edges;
  }

  /**
   * The predecessor map forms a tree rooted at `start`: every other node's
   * predecessor was reached strictly earlier (`order` numbers the nodes by
   * when they were reached).
   */
  ghost predicate TreeShape(start: nat, previous: map<nat, nat>, order: map<nat, nat>, next: nat)
  {
    && start in previous && previous[start] == start
    && order.Keys == previous.Keys
    && (forall y :: y in order ==> order[y] < next)
    && (forall y {:trigger previous[y]} :: y in previous && y != start ==>
          previous[y] in previous && order[previous[y]] < order[y])
  }

  /** An edge joins every reached node but the start to its predecessor. */
  ghost predicate TreeEdges(g: EdgeLists, start: nat, previous: map<nat, nat>)
  {
    forall y {:trigger previous[y]} :: y in previous && y != start ==> HasEdge(g, previous[y], y)
  }

  ghost predicate AllReachable(g: EdgeLists, start: nat, nodes: set<nat>)
  {
    forall y :: y in nodes ==> Reachable(Edges(g), start, y)
  }

  ghost predicate TreeInv(g: EdgeLists, start: nat, previous: map<nat, nat>, order: map<nat, nat>, next: nat)
  {
    && SourcesOk(g) && start in g && previous.Keys <= g.Keys
    && TreeShape(start, previous, order, next)
    && TreeEdges(g, start, previous)
    && AllReachable(g, start, previous.Keys)
  }

  /**
   * The search loop: every pending edge leaves a reached node, every edge
   * out of a reached node is pending or arrives at a reached node, and `dest`
   * has not been reached unless it is the start.
   */
  ghost predicate SearchInv(g: EdgeLists, start: nat, dest: nat, previous: map<nat, nat>,
                            order: map<nat, nat>, next: nat, q: Queue)
  {
    && TreeInv(g, start, previous, order, next)
    && (forall e :: e in q ==> e.source in previous && e in g[e.source])
    && (forall x, e :: x in previous && e in g[x] ==> e.destination in previous || e in q)
    && (dest in previous ==> dest == start)
  }

  lemma SearchStart(g: EdgeLists, start: nat, dest: nat)
    requires SourcesOk(g) && start in g
    ensures SearchInv(g, start, dest, map[start := start], map[start := 0], 1, multiset(g[start]))
  {
    ReachableRefl(Edges(g), start);
  }

  /** Popping an edge to a node that already has a predecessor (`continue`). */
  lemma SearchSkip(g: EdgeLists, start: nat, dest: nat, previous: map<nat, nat>,
                   order: map<nat, nat>, next: nat, q: Queue, cur: WeightedEdge)
    requires SearchInv(g, start, dest, previous, order, next, q)
    requires cur in q && cur.destination in previous
    ensures SearchInv(g, start, dest, previous, order, next, q - multiset{cur})
  {
    var q1 := q - multiset{cur};
    forall x, e | x in previous && e in g[x]
      ensures e.destination in previous || e in q1
    {
      if e != cur {
        assert e in q ==> e in q1;
      }
    }
  }

  /** Reaching `cur.destination` for the first time keeps the tree shape. */
  lemma TreeGrow(g: EdgeLists, start: nat, previous: map<nat, nat>, order: map<nat, nat>, next: nat,
                 cur: WeightedEdge)
    requires TreeInv(g, start, previous, order, next)
    requires cur.source in previous && cur in g[cur.source] && cur.destination !in previous && cur.destination in g
    ensures TreeInv(g, start, previous[cur.destination := cur.source],
                    order[cur.destination := next], next + 1)
  {
    var y := cur.destination;
    var previous1 := previous[y := cur.source];
    var order1 := order[y := next];
    assert HasEdge(g, cur.source, y);
    ReachableStep(Edges(g), start, cur.source, y);
    ShapeGrow(start, previous, order, next, y, cur.source);
    assert TreeEdges(g, start, previous1) by {
      forall z | z in previous1 && z != start
        ensures HasEdge(g, previous1[z], z)
      {
        if z != y {
          assert previous1[z] == previous[z];
        }
      }
    }
    assert previous1.Keys == previous.Keys + {y};
  }

  lemma ShapeGrow(start: nat, previous: map<nat, nat>, order: map<nat, nat>, next: nat, y: nat, parent: nat)
    requires TreeShape(start, previous, order, next)
    requires parent in previous && y !in previous
    ensures TreeShape(start, previous[y := parent], order[y := next], next + 1)
  {
    var previous1 := previous[y := parent];
    var order1 := order[y := next];
    forall z | z in previous1 && z != start
      ensures previous1[z] in previous1 && order1[previous1[z]] < order1[z]
    {
      if z != y {
        assert previous1[z] == previous[z] && previous[z] != y;
      }
    }
  }

  /** Reaching a node other than `dest`, then pushing its unreached edges. */
  lemma SearchGrow(g: EdgeLists, start: nat, dest: nat, previous: map<nat, nat>,
                   order: map<nat, nat>, next: nat, q: Queue, cur: WeightedEdge)
    requires SearchInv(g, start, dest, previous, order, next, q)
    requires cur in q && cur.destination !in previous && cur.destination != dest && cur.destination in g
    ensures var y := cur.destination;
            var previous1 := previous[y := cur.source];
            SearchInv(g, start, dest, previous1, order[y := next], next + 1,
                      q - multiset{cur} + multiset(Unreached(g[y], previous1)))
  {
    var y := cur.destination;
    var previous1 := previous[y := cur.source];
    TreeGrow(g, start, previous, order, next, cur);
    GrowPending(g, previous, q, cur);
    GrowCovered(g, previous, q, cur);
  }

  /** After reaching y, the queue still holds only edges of the graph that leave reached nodes. */
  lemma GrowPending(g: EdgeLists, previous: map<nat, nat>, q: Queue, cur: WeightedEdge)
    requires SourcesOk(g) && cur.destination in g && previous.Keys <= g.Keys
    requires forall e :: e in q ==> e.source in previous && e in g[e.source]
    ensures var y := cur.destination;
            var previous1 := previous[y := cur.source];
            forall e :: e in q - multiset{cur} + multiset(Unreached(g[y], previous1)) ==> e.source in previous1 && e in g[e.source]
  {
    var y := cur.destination;
    var previous1 := previous[y := cur.source];
    var q1 := q - multiset{cur} + multiset(Unreached(g[y], previous1));
    UnreachedMembers(g[y], previous1);
    forall e | e in q1
      ensures e.source in previous1 && e in g[e.source]
    {
      if e !in q {
        assert e in Unreached(g[y], previous1);
      }
    }
  }

  /** After reaching y, every edge out of a reached node is pending or arrives at a reached node. */
  lemma GrowCovered(g: EdgeLists, previous: map<nat, nat>, q: Queue, cur: WeightedEdge)
    requires cur.destination in g && cur in q && previous.Keys <= g.Keys
    requires forall x, e :: x in previous && e in g[x] ==> e.destination in previous || e in q
    ensures var y := cur.destination;
            var previous1 := previous[y := cur.source];
            forall x, e :: x in previous1 && e in g[x] ==> e.destination in previous1 || e in q - multiset{cur} + multiset(Unreached(g[y], previous1))
  {
    var y := cur.destination;
    var previous1 := previous[y := cur.source];
    var q1 := q - multiset{cur} + multiset(Unreached(g[y], previous1));
    UnreachedMembers(g[y], previous1);
    forall x, e | x in previous1 && e in g[x]
      ensures e.destination in previous1 || e in q1
    {
      if x == y {
        if e.destination !in previous1 {
          assert e in Unreached(g[y], previous1);
        }
      } else if e != cur && e.destination !in previous1 {
        assert e in q;
      }
    }
  }

  /** When the queue runs dry before `dest` is reached, no path leads there. */
  lemma SearchExhausted(g: EdgeLists, start: nat, dest: nat, previous: map<nat, nat>,
                        order: map<nat, nat>, next: nat)
    requires SearchInv(g, start, dest, previous, order, next, multiset{})
    ensures Reachable(Edges(g), start, dest) ==> dest == start
  {
    if Reachable(Edges(g), start, dest) {
      forall a, b | a in previous.Keys && Edges(g)(a, b)
        ensures b in previous.Keys
      {
        var e :| e in g[a] && e.destination == b;
      }
      ClosedHoldsReachable(Edges(g), previous.Keys, start, dest);
    }
  }

  ghost predicate Distinct(s: seq<nat>)
  {
    forall i, j :: 0 <= i < j < |s| ==> s[i] != s[j]
  }

  /** A path from `start` to `dest` along graph edges that visits no node twice. */
  ghost predicate IsSimplePath(g: EdgeLists, start: nat, dest: nat, path: seq<nat>)
  {
    && |path| >= 2 && path[0] == start && path[|path| - 1] == dest
    && (forall k :: 0 <= k < |path| - 1 ==> HasEdge(g, path[k], path[k + 1]))
    && Distinct(path)
  }

  /**
   * What the search promises: a non-empty result exactly when both ends are
   * nodes, they differ, and `dest` is reachable from `start`; a non-empty
   * result is a simple path between them.
   */
  ghost predicate PathResult(g: EdgeLists, start: nat, dest: nat, path: seq<nat>)
  {
    && (path != [] <==> start in g && dest in g && start != dest && Reachable(Edges(g), start, dest))
    && (path != [] ==> IsSimplePath(g, start, dest, path))
  }

  function Reversed(s: seq<nat>): (r: seq<nat>)
    ensures |r| == |s| && forall i :: 0 <= i < |s| ==> r[i] == s[|s| - 1 - i]
  {
    if |s| == 0 then [] else [s[|s| - 1]] + Reversed(s[..|s| - 1])
  }

  /** `back` walks predecessors from `dest`: each entry's predecessor is the next one. */
  ghost predicate BackChain(g: EdgeLists, order: map<nat, nat>, dest: nat, back: seq<nat>)
  {
    && |back| >= 1 && back[0] == dest
    && (forall k :: 0 <= k < |back| ==> back[k] in order)
    && (forall k :: 0 <= k < |back| - 1 ==> HasEdge(g, back[k + 1], back[k]))
    && (forall i, j :: 0 <= i < j < |back| ==> order[back[i]] > order[back[j]])
  }

  lemma ChainIsPath(g: EdgeLists, order: map<nat, nat>, start: nat, dest: nat, back: seq<nat>)
    requires BackChain(g, order, dest, back) && back[|back| - 1] == start && start != dest
    ensures IsSimplePath(g, start, dest, Reversed(back))
    ensures Reachable(Edges(g), start, dest)
  {
    var p := Reversed(back);
    forall k | 0 <= k < |p| - 1
      ensures HasEdge(g, p[k], p[k + 1])
    {
      assert p[k] == back[|back| - 1 - k] && p[k + 1] == back[|back| - 2 - k];
    }
    forall i, j | 0 <= i < j < |p|
      ensures p[i] != p[j]
    {
      assert order[p[i]] < order[p[j]];
    }
    assert IsPath(Edges(g), p);
  }

  /**
   * `graph.at(cur.destination)` throws `std::out_of_range` (`thrown`) when
   * the search reaches, along an edge out of a reached node, a node that is
   * not a key of the graph; otherwise the result is as `PathResult` says.
   */
  method DijkstrasShortestPath(g: EdgeLists, start: nat, dest: nat) returns (thrown: bool, path: seq<nat>)
    requires SourcesOk(g)
    ensures !thrown ==> PathResult(g, start, dest, path)
    ensures thrown ==> exists e: WeightedEdge :: e.source in g && e in g[e.source] && e.destination !in g
                                   && Reachable(Edges(g), start, e.source)
    ensures WellFormed(g) ==> !thrown
  {
    thrown := false;
    if start !in g || dest !in g {
      return false, [];
    }
    var q := multiset(g[start]);
    var previous: map<nat, nat> := map[start := start];
    ghost var order: map<nat, nat> := map[start := 0];
    ghost var next: nat := 1;
    SearchStart(g, start, dest);
    var found := false;
    while |q| > 0
      invariant SearchInv(g, start, dest, previous, order, next, q)
      decreases g.Keys - previous.Keys, |q|
    {
      var cur := Top(q);
      ghost var q0 := q;
      q := q - multiset{cur};
      if cur.destination in previous {
        SearchSkip(g, start, dest, previous, order, next, q0, cur);
        continue;
      }
      if cur.destination == dest {
        TreeGrow(g, start, previous, order, next, cur);
        previous := previous[cur.destination := cur.source];
        order := order[cur.destination := next];
        next := next + 1;
        found := true;
        break;
      }
      if cur.destination !in g {
        assert cur in g[cur.source] && Reachable(Edges(g), start, cur.source);
        return true, [];
      }
      SearchGrow(g, start, dest, previous, order, next, q0, cur);
      assert cur.destination in g.Keys - previous.Keys;
      previous := previous[cur.destination := cur.source];
      order := order[cur.destination := next];
      next := next + 1;
      q := PushUnreached(g[cur.destination], previous, q);
    }
    if !found {
      SearchExhausted(g, start, dest, previous, order, next);
      return false, [];
    }
    var back := Backtrack(previous, start, dest, g, order, next);
    ChainIsPath(g, order, start, dest, back);
    path := Reversed(back);
  }

  /**
   * The reconstruction loop: walks predecessors from `dest` until the node
   * that is its own predecessor, which is `start`, and appends `start`.
   */
  method Backtrack(previous: map<nat, nat>, start: nat, dest: nat,
                   ghost g: EdgeLists, ghost order: map<nat, nat>, ghost next: nat) returns (back: seq<nat>)
    requires TreeShape(start, previous, order, next) && TreeEdges(g, start, previous) && dest in previous
    ensures BackChain(g, order, dest, back) && back[|back| - 1] == start
  {
    back := [];
    var cur := dest;
    while previous[cur] != cur
      invariant cur in previous && BackChain(g, order, dest, back + [cur])
      decreases order[cur]
    {
      BackChainStep(g, start, previous, order, next, dest, back, cur);
      back := back + [cur];
      cur := previous[cur];
    }
    assert cur == start;
    back := back + [start];
  }

  lemma BackChainStep(g: EdgeLists, start: nat, previous: map<nat, nat>, order: map<nat, nat>, next: nat,
                      dest: nat, back: seq<nat>, cur: nat)
    requires TreeShape(start, previous, order, next) && TreeEdges(g, start, previous)
    requires cur in previous && previous[cur] != cur && BackChain(g, order, dest, back + [cur])
    ensures previous[cur] in previous && order[previous[cur]] < order[cur]
    ensures BackChain(g, order, dest, back + [cur] + [previous[cur]])
  {
    assert cur != start;
    var b := back + [cur];
    assert b[|b| - 1] == cur;
    assert previous[cur] in previous && order[previous[cur]] < order[cur] && HasEdge(g, previous[cur], cur);
    ChainExtend(g, order, dest, b, previous[cur]);
  }

  /** A chain extended by a predecessor of its last node, earlier in the order, is still a chain. */
  lemma ChainExtend(g: EdgeLists, order: map<nat, nat>, dest: nat, b: seq<nat>, x: nat)
    requires BackChain(g, order, dest, b) && x in order
    requires order[x] < order[b[|b| - 1]] && HasEdge(g, x, b[|b| - 1])
    ensures BackChain(g, order, dest, b + [x])
  {
    var b1 := b + [x];
    assert forall k :: 0 <= k < |b| ==> b1[k] == b[k];
    forall i, j | 0 <= i < j < |b1|
      ensures order[b1[i]] > order[b1[j]]
    {
      if j == |b1| - 1 && i < |b| - 1 {
        assert order[b[i]] > order[b[|b| - 1]];
      }
    }
  }
}
