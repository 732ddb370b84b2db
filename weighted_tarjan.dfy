/**
 * Tarjan's strongly-connected-component search over the weighted edge
 * lists, the variant without a depth limit: `tarjansSCC`, `findSCC` and
 * `tarjansSearch`.  Reading a node's edge list with `operator[]` inserts an
 * empty list for a node the graph does not hold, so the searches return the
 * graph with those insertions; the edges themselves never change.
 */
module WeightedTarjan {
  import opened Wrappers
  import opened Reach
  import opened WeightedGraph
  import opened Tarjan

  type State = SearchState<nat>

  /** `graph[k]` as read: the edges listed under `k`, none when `k` is not a key. */
  function Row(g: EdgeLists, k: nat): seq<WeightedEdge>
  {
    if k in g then g[k] else []
  }

  /** `graph` lists the same edges as `g0` under every node; it may hold more nodes, with none. */
  ghost predicate SameRows(g0: EdgeLists, graph: EdgeLists)
  {
    forall k :: Row(graph, k) == Row(g0, k)
  }

  /** The keys of `g` and every destination its edges name. */
  ghost function Nodes(g: EdgeLists): set<nat>
  {
    g.Keys + set k, e | k in g && e in g[k] :: e.destination
  }

  lemma NodesClosed(g: EdgeLists)
    ensures Closed(Edges(g), Nodes(g))
  {
    forall a, b | a in Nodes(g) && Edges(g)(a, b)
      ensures b in Nodes(g)
    {
      var e :| e in g[a] && e.destination == b;
    }
  }

  ghost function VisitedSet(data: map<nat, Entry>): set<nat>
  {
    set k | k in data && data[k].disc != Unvisited
  }

  /**
   * The fact behind the search's termination of each top-level call with an
   * empty stack: every node on the stack, and every node numbered from
   * `floor` on, has a low link of at least `floor`.
   */
  ghost predicate LowFloor(data: map<nat, Entry>, stack: seq<nat>, floor: int)
  {
    && (forall k :: k in stack ==> k in data && data[k].disc >= floor)
    && (forall k :: k in data && data[k].disc >= floor ==> data[k].lowLink >= floor)
  }

  /** The stack's nodes were numbered in increasing order from the bottom up. */
  ghost predicate Ordered(data: map<nat, Entry>, stack: seq<nat>)
  {
    forall i, j :: 0 <= i < j < |stack| ==> Get(data, stack[i]).disc < Get(data, stack[j]).disc
  }

  /** The node at position `i` of the stack reaches a node at or below it whose number is its low link. */
  ghost predicate LowWitness(edge: (nat, nat) -> bool, data: map<nat, Entry>, stack: seq<nat>, i: nat)
    requires i < |stack|
  {
    exists j :: 0 <= j <= i && Get(data, stack[j]).disc == Get(data, stack[i]).lowLink && Reachable(edge, stack[i], stack[j])
  }

  ghost predicate LowReach(edge: (nat, nat) -> bool, data: map<nat, Entry>, stack: seq<nat>)
  {
    forall i :: 0 <= i < |stack| ==> LowWitness(edge, data, stack, i)
  }

  /** In an ordered stack, a node numbered no later than another sits no higher. */
  lemma OrderedIndex(data: map<nat, Entry>, stack: seq<nat>, a: nat, b: nat)
    requires Ordered(data, stack) && a < |stack| && b < |stack|
    requires Get(data, stack[a]).disc <= Get(data, stack[b]).disc
    ensures a <= b
  {
  }

  ghost predicate StackReach(edge: (nat, nat) -> bool, data: map<nat, Entry>, stack: seq<nat>)
  {
    Ordered(data, stack) && LowReach(edge, data, stack)
  }

  /**
   * Every node above position `m` of the stack has a low link of at least
   * `v` and below its own number: its search is over, and it stayed on the
   * stack because it reached an older node.
   */
  ghost predicate DoneAbove(data: map<nat, Entry>, stack: seq<nat>, m: nat, v: int)
  {
    forall j :: m < j < |stack| ==> v <= Get(data, stack[j]).lowLink < Get(data, stack[j]).disc
  }

  /** Every two nodes of a reported component reach each other. */
  ghost predicate Strong(edge: (nat, nat) -> bool, ans: seq<seq<nat>>)
  {
    forall i, a, b :: 0 <= i < |ans| && a in ans[i] && b in ans[i] ==> Reachable(edge, a, b)
  }

  /** The state after `_low_link = std::min(_low_link, x)` for `current`. */
  function Lowered(t: State, current: nat, x: int): State
    requires current in t.data
  {
    t.(data := t.data[current := t.data[current].(lowLink := Min(t.data[current].lowLink, x))])
  }

  /**
   * What a search from `current` in state `s` over `graph` leaves behind.
   * The bookkeeping stays consistent and keeps every number given before;
   * `current` gets number `s.id`, and every node numbered during the search
   * is reachable from it; the graph gains empty lists for nodes of `u` only;
   * the stack grows by new nodes only, and returns to what it was exactly
   * when `current`'s low link equals its number, the case where the pop
   * loop completed `current`'s component; otherwise `current` stays on the
   * stack with every node above it finished.
   */
  ghost predicate SearchPost(g0: EdgeLists, u: set<nat>, floor: int, graph: EdgeLists, s: State, current: nat,
                             graphOut: EdgeLists, t: State)
  {
    && Consistent(t) && Keeps(s.data, t.data) && LowFloor(t.data, t.stack, floor)
    && Strong(Edges(g0), t.ans) && StackReach(Edges(g0), t.data, t.stack)
    && SameRows(g0, graphOut) && graph.Keys <= graphOut.Keys <= graph.Keys + u
    && t.id > s.id && current in t.data && t.data[current].disc == s.id
    && NewlyReached(Edges(g0), s.data, t.data, current, s.id)
    && Grows(s, t)
    && (t.data[current].lowLink == t.data[current].disc ==> t.stack == s.stack)
    && (t.data[current].lowLink != t.data[current].disc ==>
          |t.stack| > |s.stack| && t.stack[|s.stack|] == current
          && DoneAbove(t.data, t.stack, |s.stack|, t.data[current].lowLink))
  }

  /** The state of the loop over `current`'s edges, apart from the nodes above `current`. */
  ghost predicate ProgressBase(g0: EdgeLists, u: set<nat>, floor: int, graph: EdgeLists, s: State, current: nat,
                               graphOut: EdgeLists, t: State)
  {
    && Consistent(t) && Keeps(s.data, t.data) && LowFloor(t.data, t.stack, floor)
    && Strong(Edges(g0), t.ans) && StackReach(Edges(g0), t.data, t.stack)
    && SameRows(g0, graphOut) && graph.Keys <= graphOut.Keys <= graph.Keys + u && current in graphOut
    && t.id > s.id && current in t.data && t.data[current].disc == s.id && t.data[current].onStack
    && NewlyReached(Edges(g0), s.data, t.data, current, s.id)
    && Grows(s, t) && |t.stack| > |s.stack| && t.stack[|s.stack|] == current
  }

  ghost predicate Progress(g0: EdgeLists, u: set<nat>, floor: int, graph: EdgeLists, s: State, current: nat,
                           graphOut: EdgeLists, t: State)
  {
    && ProgressBase(g0, u, floor, graph, s, current, graphOut, t)
    && DoneAbove(t.data, t.stack, |s.stack|, t.data[current].lowLink)
  }

  /**
   * `tarjansSearch(ans, current_id, tarjans_data, scc_stack, id)`, with the
   * state passed by reference threaded through `s` and `t`.
   */
  method TarjansSearch(ghost g0: EdgeLists, ghost u: set<nat>, ghost floor: int,
                       graph: EdgeLists, s: State, current: nat)
    returns (graphOut: EdgeLists, t: State)
    requires Consistent(s) && !Visited(s.data, current)
    requires SameRows(g0, graph) && Closed(Edges(g0), u) && current in u
    requires 0 <= floor <= s.id && LowFloor(s.data, s.stack, floor)
    requires Strong(Edges(g0), s.ans) && StackReach(Edges(g0), s.data, s.stack)
    ensures SearchPost(g0, u, floor, graph, s, current, graphOut, t)
    decreases u - VisitedSet(s.data)
  {
    t := SearchState(s.data[current := Entry(s.id, s.id, true)], s.stack + [current], s.id + 1, s.ans);
    graphOut := if current in graph then graph else graph[current := []];
    ProgressStart(g0, u, floor, graph, s, current, graphOut);
    var edges := graphOut[current];
    var i := 0;
    while i < |edges|
      invariant 0 <= i <= |edges| && edges == Row(g0, current)
      invariant Progress(g0, u, floor, graph, s, current, graphOut, t)
    {
      var adj := edges[i].destination;
      assert Edges(g0)(current, adj) by {
        assert edges[i] in g0[current];
      }
      if Get(t.data, adj).disc == Unvisited {
        ProgressMeasure(g0, u, floor, graph, s, current, graphOut, t);
        var graphNext, r := TarjansSearch(g0, u, floor, graphOut, t, adj);
        ProgressChild(g0, u, floor, graph, s, current, graphOut, t, adj, graphNext, r);
        graphOut, t := graphNext, Lowered(r, current, r.data[adj].lowLink);
      } else if Get(t.data, adj).onStack {
        ProgressOnStack(g0, u, floor, graph, s, current, graphOut, t, adj);
        t := Lowered(t, current, t.data[adj].disc);
      }
      i := i + 1;
    }
    if t.data[current].disc == t.data[current].lowLink {
      var dataOut, stackOut, component := PopComponent(t.data, t.stack, current);
      ProgressPop(g0, u, floor, graph, s, current, graphOut, t, dataOut, stackOut, component);
      t := SearchState(dataOut, stackOut, t.id, if |component| > 1 then t.ans + [component] else t.ans);
    }
  }

  lemma ProgressStart(g0: EdgeLists, u: set<nat>, floor: int, graph: EdgeLists, s: State, current: nat, graphOut: EdgeLists)
    requires Consistent(s) && !Visited(s.data, current)
    requires SameRows(g0, graph) && current in u
    requires 0 <= floor <= s.id && LowFloor(s.data, s.stack, floor)
    requires Strong(Edges(g0), s.ans) && StackReach(Edges(g0), s.data, s.stack)
    requires graphOut == if current in graph then graph else graph[current := []]
    ensures Progress(g0, u, floor, graph, s, current, graphOut,
                     SearchState(s.data[current := Entry(s.id, s.id, true)], s.stack + [current], s.id + 1, s.ans))
    ensures graphOut[current] == Row(g0, current)
  {
    var t := SearchState(s.data[current := Entry(s.id, s.id, true)], s.stack + [current], s.id + 1, s.ans);
    VisitConsistent(s, current);
    ReachableRefl(Edges(g0), current);
    PushReach(Edges(g0), s, current);
    assert t.stack[..|s.stack|] == s.stack;
    assert forall k :: Row(graphOut, k) == Row(graph, k);
  }

  /** Pushing a newly numbered `current` keeps the stack ordered, and `current` reaches itself. */
  lemma PushReach(edge: (nat, nat) -> bool, s: State, current: nat)
    requires Consistent(s) && !Visited(s.data, current) && StackReach(edge, s.data, s.stack)
    ensures StackReach(edge, s.data[current := Entry(s.id, s.id, true)], s.stack + [current])
  {
    var data := s.data[current := Entry(s.id, s.id, true)];
    var stack := s.stack + [current];
    assert current !in s.stack;
    assert forall i :: 0 <= i < |s.stack| ==> stack[i] == s.stack[i] && Get(data, stack[i]) == Get(s.data, s.stack[i]);
    forall i, j | 0 <= i < j < |stack|
      ensures Get(data, stack[i]).disc < Get(data, stack[j]).disc
    {
      if j == |s.stack| {
        assert s.stack[i] in s.stack && EntryOk(s.data[s.stack[i]], s.id);
      }
    }
    forall i | 0 <= i < |stack|
      ensures LowWitness(edge, data, stack, i)
    {
      if i == |s.stack| {
        ReachableRefl(edge, current);
        assert Get(data, stack[i]).disc == Get(data, stack[i]).lowLink;
      } else {
        assert LowWitness(edge, s.data, s.stack, i);
        var j :| 0 <= j <= i && Get(s.data, s.stack[j]).disc == Get(s.data, s.stack[i]).lowLink && Reachable(edge, s.stack[i], s.stack[j]);
        assert stack[j] == s.stack[j];
      }
    }
  }

  lemma ProgressMeasure(g0: EdgeLists, u: set<nat>, floor: int, graph: EdgeLists, s: State, current: nat,
                        graphOut: EdgeLists, t: State)
    requires Progress(g0, u, floor, graph, s, current, graphOut, t) && !Visited(s.data, current) && current in u
    ensures u - VisitedSet(t.data) < u - VisitedSet(s.data)
  {
    assert current in VisitedSet(t.data) - VisitedSet(s.data);
    assert VisitedSet(s.data) <= VisitedSet(t.data);
  }

  /**
   * A child's search, and the lowering of `current`'s low link to the
   * child's, keep the loop state.
   */
  lemma ProgressChild(g0: EdgeLists, u: set<nat>, floor: int, graph: EdgeLists, s: State, current: nat,
                      graphOut: EdgeLists, t: State, adj: nat, graphNext: EdgeLists, r: State)
    requires Progress(g0, u, floor, graph, s, current, graphOut, t) && !Visited(s.data, current) && floor >= 0
    requires Edges(g0)(current, adj) && !Visited(t.data, adj)
    requires SearchPost(g0, u, floor, graphOut, t, adj, graphNext, r)
    ensures current in r.data && Progress(g0, u, floor, graph, s, current, graphNext, Lowered(r, current, r.data[adj].lowLink))
  {
    ChildBase(g0, u, floor, graph, s, current, graphOut, t, adj, graphNext, r);
    if r.data[adj].lowLink == r.data[adj].disc {
      ChildPopped(g0, u, floor, graph, s, current, graphNext, t, adj, r);
    } else {
      ChildStays(g0, u, floor, graph, s, current, graphNext, t, adj, r);
    }
  }

  /** A child that completed its own component leaves `current`'s low link and the stack as they were. */
  lemma ChildPopped(g0: EdgeLists, u: set<nat>, floor: int, graph: EdgeLists, s: State, current: nat,
                    graphNext: EdgeLists, t: State, adj: nat, r: State)
    requires ProgressBase(g0, u, floor, graph, s, current, graphNext, r)
    requires current in t.data && r.data[current] == t.data[current] && r.stack == t.stack
    requires DoneAbove(t.data, t.stack, |s.stack|, t.data[current].lowLink)
    requires forall j :: |s.stack| < j < |t.stack| ==> r.stack[j] == t.stack[j] && Get(r.data, r.stack[j]) == Get(t.data, t.stack[j])
    requires adj in r.data && r.data[current].lowLink < r.data[adj].lowLink
    ensures Progress(g0, u, floor, graph, s, current, graphNext, Lowered(r, current, r.data[adj].lowLink))
  {
    assert Lowered(r, current, r.data[adj].lowLink) == r;
    ChildAboveKept(s, current, t, r);
  }

  /** A child left on the stack lowers `current`'s low link to the number of a node that both reach. */
  lemma ChildStays(g0: EdgeLists, u: set<nat>, floor: int, graph: EdgeLists, s: State, current: nat,
                   graphNext: EdgeLists, t: State, adj: nat, r: State)
    requires ProgressBase(g0, u, floor, graph, s, current, graphNext, r) && floor >= 0
    requires current in t.data && r.data[current] == t.data[current] && Edges(g0)(current, adj)
    requires |s.stack| < |t.stack| < |r.stack| && r.stack[|t.stack|] == adj && adj in r.data
    requires r.data[adj].lowLink < r.data[adj].disc && r.data[adj].lowLink >= floor
    requires LowWitness(Edges(g0), r.data, r.stack, |t.stack|)
    requires DoneAbove(t.data, t.stack, |s.stack|, t.data[current].lowLink)
    requires DoneAbove(r.data, r.stack, |t.stack|, r.data[adj].lowLink)
    requires forall j :: |s.stack| < j < |t.stack| ==> r.stack[j] == t.stack[j] && Get(r.data, r.stack[j]) == Get(t.data, t.stack[j])
    ensures Progress(g0, u, floor, graph, s, current, graphNext, Lowered(r, current, r.data[adj].lowLink))
  {
    var m := |t.stack|;
    var j :| 0 <= j <= m && Get(r.data, r.stack[j]).disc == Get(r.data, r.stack[m]).lowLink && Reachable(Edges(g0), adj, r.stack[j]);
    ReachablePrepend(Edges(g0), current, adj, r.stack[j]);
    ChildAboveLowered(s, current, t, adj, r);
    LowerCurrent(g0, u, floor, graph, s, current, graphNext, r, j);
  }

  /** Everything of the loop state but the nodes above `current` survives a child's search. */
  lemma ChildBase(g0: EdgeLists, u: set<nat>, floor: int, graph: EdgeLists, s: State, current: nat,
                  graphOut: EdgeLists, t: State, adj: nat, graphNext: EdgeLists, r: State)
    requires Progress(g0, u, floor, graph, s, current, graphOut, t) && !Visited(s.data, current)
    requires Edges(g0)(current, adj) && !Visited(t.data, adj)
    requires SearchPost(g0, u, floor, graphOut, t, adj, graphNext, r)
    ensures ProgressBase(g0, u, floor, graph, s, current, graphNext, r) && r.data[adj].lowLink >= floor
    ensures current in t.data && r.data[current] == t.data[current] && |r.stack| >= |t.stack| && adj in r.data
    ensures r.data[adj].lowLink == r.data[adj].disc ==> r.stack == t.stack && r.data[current].lowLink < r.data[adj].lowLink
    ensures r.data[adj].lowLink != r.data[adj].disc ==>
              && |r.stack| > |t.stack| && r.stack[|t.stack|] == adj && r.data[adj].lowLink < r.data[adj].disc
              && LowWitness(Edges(g0), r.data, r.stack, |t.stack|)
              && DoneAbove(r.data, r.stack, |t.stack|, r.data[adj].lowLink)
    ensures forall j :: |s.stack| < j < |t.stack| ==> r.stack[j] == t.stack[j] && Get(r.data, r.stack[j]) == Get(t.data, t.stack[j])
  {
    ChildReached(Edges(g0), s.data, t.data, r.data, current, adj, s.id, t.id);
    GrowsTrans(s, t, r);
    forall j | |s.stack| < j < |t.stack|
      ensures r.stack[j] == t.stack[j] && Get(r.data, r.stack[j]) == Get(t.data, t.stack[j])
    {
      assert r.stack[..|t.stack|] == t.stack;
      assert t.stack[j] in t.stack;
    }
  }

  /** With the child's search popped, the nodes above `current` are those before it. */
  lemma ChildAboveKept(s: State, current: nat, t: State, r: State)
    requires |s.stack| < |t.stack| && r.stack == t.stack && current in t.data && current in r.data && r.data[current] == t.data[current]
    requires DoneAbove(t.data, t.stack, |s.stack|, t.data[current].lowLink)
    requires forall j :: |s.stack| < j < |t.stack| ==> r.stack[j] == t.stack[j] && Get(r.data, r.stack[j]) == Get(t.data, t.stack[j])
    ensures DoneAbove(r.data, r.stack, |s.stack|, r.data[current].lowLink)
  {
  }

  /** With the child `adj` left on the stack, every node above `current` has a low link of at least the lowered one. */
  lemma ChildAboveLowered(s: State, current: nat, t: State, adj: nat, r: State)
    requires |s.stack| < |t.stack| < |r.stack| && r.stack[|t.stack|] == adj && adj in r.data && current in t.data
    requires current in r.data && r.data[current] == t.data[current]
    requires r.data[adj].lowLink < r.data[adj].disc
    requires DoneAbove(t.data, t.stack, |s.stack|, t.data[current].lowLink)
    requires DoneAbove(r.data, r.stack, |t.stack|, r.data[adj].lowLink)
    requires forall j :: |s.stack| < j < |t.stack| ==> r.stack[j] == t.stack[j] && Get(r.data, r.stack[j]) == Get(t.data, t.stack[j])
    ensures DoneAbove(r.data, r.stack, |s.stack|, Min(r.data[current].lowLink, r.data[adj].lowLink))
  {
  }

  /**
   * Lowering `current`'s low link to the number of a stack node it reaches
   * keeps the loop state, when the nodes above `current` have low links of
   * at least the new value.
   */
  lemma LowerCurrent(g0: EdgeLists, u: set<nat>, floor: int, graph: EdgeLists, s: State, current: nat,
                     graphOut: EdgeLists, t: State, q: nat)
    requires ProgressBase(g0, u, floor, graph, s, current, graphOut, t) && floor >= 0
    requires q < |t.stack| && Reachable(Edges(g0), current, t.stack[q]) && Get(t.data, t.stack[q]).disc >= floor
    requires DoneAbove(t.data, t.stack, |s.stack|, Min(t.data[current].lowLink, Get(t.data, t.stack[q]).disc))
    ensures Progress(g0, u, floor, graph, s, current, graphOut, Lowered(t, current, Get(t.data, t.stack[q]).disc))
  {
    var x := Get(t.data, t.stack[q]).disc;
    assert t.stack[q] in t.stack;
    LowerReach(Edges(g0), t.data, t.stack, |s.stack|, q);
    LowerBase(g0, u, floor, graph, s, current, graphOut, t, x);
    LowerAbove(s, current, t, x);
  }

  /** Lowering `current`'s low link to a value of at least `floor` keeps the loop state apart from `StackReach`. */
  lemma LowerBase(g0: EdgeLists, u: set<nat>, floor: int, graph: EdgeLists, s: State, current: nat,
                  graphOut: EdgeLists, t: State, x: int)
    requires ProgressBase(g0, u, floor, graph, s, current, graphOut, t) && floor >= 0 && x >= floor
    requires StackReach(Edges(g0), Lowered(t, current, x).data, t.stack)
    ensures ProgressBase(g0, u, floor, graph, s, current, graphOut, Lowered(t, current, x))
  {
    var t' := Lowered(t, current, x);
    LowerConsistent(t, current, x);
    assert Keeps(s.data, t'.data);
    assert LowFloor(t'.data, t'.stack, floor);
    assert NewlyReached(Edges(g0), s.data, t'.data, current, s.id);
    assert Grows(s, t');
  }

  /** Lowering `current`'s low link leaves the entries of the nodes above it as they were. */
  lemma LowerAbove(s: State, current: nat, t: State, x: int)
    requires |s.stack| < |t.stack| && t.stack[|s.stack|] == current && Distinct(t.stack) && current in t.data
    requires DoneAbove(t.data, t.stack, |s.stack|, Min(t.data[current].lowLink, x))
    ensures var t' := Lowered(t, current, x); DoneAbove(t'.data, t'.stack, |s.stack|, t'.data[current].lowLink)
  {
    var t' := Lowered(t, current, x);
    forall j | |s.stack| < j < |t.stack|
      ensures Get(t'.data, t.stack[j]) == Get(t.data, t.stack[j])
    {
      assert t.stack[j] != current;
    }
  }

  /** Lowering the low link of the node at `p` to the number of a node at `q` it reaches keeps `StackReach`. */
  lemma LowerReach(edge: (nat, nat) -> bool, data: map<nat, Entry>, stack: seq<nat>, p: nat, q: nat)
    requires StackReach(edge, data, stack) && Distinct(stack) && p < |stack| && q < |stack| && stack[p] in data
    requires data[stack[p]].lowLink <= data[stack[p]].disc && Reachable(edge, stack[p], stack[q])
    ensures var e := data[stack[p]];
            StackReach(edge, data[stack[p] := e.(lowLink := Min(e.lowLink, Get(data, stack[q]).disc))], stack)
  {
    var e := data[stack[p]];
    var x := Get(data, stack[q]).disc;
    var data' := data[stack[p] := e.(lowLink := Min(e.lowLink, x))];
    assert forall i :: 0 <= i < |stack| ==> Get(data', stack[i]).disc == Get(data, stack[i]).disc;
    forall i | 0 <= i < |stack|
      ensures LowWitness(edge, data', stack, i)
    {
      if i == p && x < e.lowLink {
        OrderedIndex(data, stack, q, p);
        assert Get(data', stack[q]).disc == Get(data', stack[i]).lowLink;
      } else {
        if i != p {
          assert stack[i] != stack[p];
        }
        assert LowWitness(edge, data, stack, i);
        var j :| 0 <= j <= i && Get(data, stack[j]).disc == Get(data, stack[i]).lowLink && Reachable(edge, stack[i], stack[j]);
        assert Get(data', stack[j]).disc == Get(data', stack[i]).lowLink;
      }
    }
  }

  /** An edge to a node on the stack lowers `current`'s low link to that node's number. */
  lemma ProgressOnStack(g0: EdgeLists, u: set<nat>, floor: int, graph: EdgeLists, s: State, current: nat,
                        graphOut: EdgeLists, t: State, adj: nat)
    requires Progress(g0, u, floor, graph, s, current, graphOut, t) && floor >= 0
    requires Edges(g0)(current, adj) && Visited(t.data, adj) && Get(t.data, adj).onStack
    ensures current in t.data && Progress(g0, u, floor, graph, s, current, graphOut, Lowered(t, current, t.data[adj].disc))
  {
    assert adj in t.stack;
    var q :| 0 <= q < |t.stack| && t.stack[q] == adj;
    ReachableRefl(Edges(g0), adj);
    ReachablePrepend(Edges(g0), current, adj, adj);
    LowerCurrent(g0, u, floor, graph, s, current, graphOut, t, q);
  }

  /** The pop loop ends the search with the stack back to what it was and a strongly connected component. */
  lemma ProgressPop(g0: EdgeLists, u: set<nat>, floor: int, graph: EdgeLists, s: State, current: nat,
                    graphOut: EdgeLists, t: State, dataOut: map<nat, Entry>, stackOut: seq<nat>, component: seq<nat>)
    requires Progress(g0, u, floor, graph, s, current, graphOut, t) && t.data[current].disc == t.data[current].lowLink
    requires Popped(t.data, t.stack, current, dataOut, stackOut, component)
    ensures SearchPost(g0, u, floor, graph, s, current, graphOut,
                       SearchState(dataOut, stackOut, t.id, if |component| > 1 then t.ans + [component] else t.ans))
  {
    PopConsistent(t, current, dataOut, stackOut, component);
    assert t.stack[|stackOut|] == current;
    assert |stackOut| == |s.stack|;
    PopKeeps(Edges(g0), s, t, current, dataOut, stackOut, component);
    PopLowFloor(t, current, dataOut, stackOut, component, floor);
    PopReach(Edges(g0), t, current, dataOut, stackOut, component);
    ComponentReached(g0, s, t, current, stackOut, component);
    ComponentReturns(g0, s, t, current, component);
    StrongAppend(Edges(g0), t.ans, component, current);
    var ans := if |component| > 1 then t.ans + [component] else t.ans;
    assert ans[..|s.ans|] == s.ans;
  }

  /** The pop keeps `StackReach` for the nodes left on the stack. */
  lemma PopReach(edge: (nat, nat) -> bool, t: State, current: nat,
                 dataOut: map<nat, Entry>, stackOut: seq<nat>, component: seq<nat>)
    requires Popped(t.data, t.stack, current, dataOut, stackOut, component) && Distinct(t.stack)
    requires StackReach(edge, t.data, t.stack)
    ensures StackReach(edge, dataOut, stackOut)
  {
    forall i | 0 <= i < |stackOut|
      ensures stackOut[i] == t.stack[i] && Get(dataOut, stackOut[i]) == Get(t.data, t.stack[i])
    {
      assert t.stack[..|stackOut|][i] == t.stack[i];
      forall j | 0 <= j < |component|
        ensures component[j] != stackOut[i]
      {
        assert component[j] == t.stack[|t.stack| - 1 - j];
      }
    }
    forall i | 0 <= i < |stackOut|
      ensures LowWitness(edge, dataOut, stackOut, i)
    {
      assert LowWitness(edge, t.data, t.stack, i);
      var j :| 0 <= j <= i && Get(t.data, t.stack[j]).disc == Get(t.data, t.stack[i]).lowLink && Reachable(edge, t.stack[i], t.stack[j]);
      assert Get(dataOut, stackOut[j]).disc == Get(dataOut, stackOut[i]).lowLink;
    }
  }

  /**
   * Every node above `current` on the stack when it completes reaches
   * `current`: it reaches an older node of the stack, which is `current`
   * or a node above it, because its low link is at least `current`'s number.
   */
  lemma {:induction false} StackDescent(edge: (nat, nat) -> bool, data: map<nat, Entry>, stack: seq<nat>, m: nat, j: nat)
    requires StackReach(edge, data, stack) && m <= j < |stack|
    requires DoneAbove(data, stack, m, Get(data, stack[m]).disc)
    ensures Reachable(edge, stack[j], stack[m])
    decreases j
  {
    if j == m {
      ReachableRefl(edge, stack[m]);
    } else {
      assert LowWitness(edge, data, stack, j);
      var i :| 0 <= i <= j && Get(data, stack[i]).disc == Get(data, stack[j]).lowLink && Reachable(edge, stack[j], stack[i]);
      OrderedIndex(data, stack, m, i);
      StackDescent(edge, data, stack, m, i);
      ReachableTrans(edge, stack[j], stack[i], stack[m]);
    }
  }

  /** Every node of the component popped at `current` reaches `current`. */
  lemma ComponentReturns(g0: EdgeLists, s: State, t: State, current: nat, component: seq<nat>)
    requires |s.stack| < |t.stack| && t.stack[|s.stack|] == current && current in t.data
    requires t.data[current].disc == t.data[current].lowLink
    requires StackReach(Edges(g0), t.data, t.stack) && DoneAbove(t.data, t.stack, |s.stack|, t.data[current].lowLink)
    requires |component| == |t.stack| - |s.stack|
    requires forall j :: 0 <= j < |component| ==> component[j] == t.stack[|t.stack| - 1 - j]
    ensures forall n :: n in component ==> Reachable(Edges(g0), n, current)
  {
    forall n | n in component
      ensures Reachable(Edges(g0), n, current)
    {
      var j :| 0 <= j < |component| && component[j] == n;
      StackDescent(Edges(g0), t.data, t.stack, |s.stack|, |t.stack| - 1 - j);
    }
  }

  /** A component whose nodes all reach, and are reached from, `root` keeps the components strongly connected. */
  lemma StrongAppend(edge: (nat, nat) -> bool, ans: seq<seq<nat>>, component: seq<nat>, root: nat)
    requires Strong(edge, ans)
    requires forall n :: n in component ==> Reachable(edge, root, n)
    requires forall n :: n in component ==> Reachable(edge, n, root)
    ensures Strong(edge, if |component| > 1 then ans + [component] else ans)
  {
    if |component| > 1 {
      var all := ans + [component];
      forall i, a, b | 0 <= i < |all| && a in all[i] && b in all[i]
        ensures Reachable(edge, a, b)
      {
        if i < |ans| {
          assert all[i] == ans[i];
        } else {
          ReachableTrans(edge, a, root, b);
        }
      }
    }
  }

  lemma PopLowFloor(t: State, current: nat, dataOut: map<nat, Entry>, stackOut: seq<nat>, component: seq<nat>, floor: int)
    requires Popped(t.data, t.stack, current, dataOut, stackOut, component) && LowFloor(t.data, t.stack, floor)
    ensures LowFloor(dataOut, stackOut, floor)
  {
    forall k | k in stackOut
      ensures k in dataOut && dataOut[k].disc >= floor
    {
      var j :| 0 <= j < |stackOut| && stackOut[j] == k;
      assert t.stack[j] == k && t.stack[j] in t.stack;
    }
  }

  lemma ComponentReached(g0: EdgeLists, s: State, t: State, current: nat, stackOut: seq<nat>, component: seq<nat>)
    requires Consistent(t) && |stackOut| == |s.stack| < |t.stack|
    requires NewlyReached(Edges(g0), s.data, t.data, current, s.id) && Grows(s, t)
    requires |component| == |t.stack| - |stackOut|
    requires forall j :: 0 <= j < |component| ==> component[j] == t.stack[|t.stack| - 1 - j]
    ensures forall n :: n in component ==> Reachable(Edges(g0), current, n)
  {
    forall n | n in component
      ensures Reachable(Edges(g0), current, n)
    {
      var j :| 0 <= j < |component| && component[j] == n;
      var k := |t.stack| - 1 - j;
      assert t.stack[k] == n && t.stack[k] in t.stack;
    }
  }

  /** The pop loop of `tarjansSearch`: pops and collects nodes until it has popped `current`. */
  method PopComponent(data: map<nat, Entry>, stack: seq<nat>, current: nat)
    returns (dataOut: map<nat, Entry>, stackOut: seq<nat>, component: seq<nat>)
    requires current in stack && forall k :: k in stack ==> k in data
    ensures Popped(data, stack, current, dataOut, stackOut, component)
  {
    dataOut, stackOut, component := data, stack, [];
    while true
      invariant current in stackOut && stackOut == stack[..|stackOut|]
      invariant |component| == |stack| - |stackOut|
      invariant forall j :: 0 <= j < |component| ==> component[j] == stack[|stack| - 1 - j]
      invariant dataOut.Keys == data.Keys
      invariant forall k :: k in data ==> dataOut[k] == if k in component then data[k].(onStack := false) else data[k]
      decreases |stackOut|
    {
      var node := stackOut[|stackOut| - 1];
      stackOut := stackOut[..|stackOut| - 1];
      dataOut := dataOut[node := dataOut[node].(onStack := false)];
      component := component + [node];
      if node == current {
        break;
      }
    }
  }

  /**
   * `findSCC`: a search from every key still unvisited, in the map's
   * unspecified order.  Every key ends up numbered, every number given
   * before is kept and, because each top-level search completes its own
   * root's component, the stack is empty again after each one.
   */
  method FindScc(graph: EdgeLists, data: map<nat, Entry>, stack: seq<nat>, id: int)
    returns (graphOut: EdgeLists, t: State)
    requires Consistent(SearchState(data, stack, id, [])) && stack == []
    ensures Consistent(t) && t.stack == [] && Keeps(data, t.data) && Strong(Edges(graph), t.ans)
    ensures forall k :: k in graph ==> Visited(t.data, k)
    ensures SameRows(graph, graphOut) && graph.Keys <= graphOut.Keys <= Nodes(graph)
  {
    graphOut := graph;
    t := SearchState(data, stack, id, []);
    var remaining := graph.Keys;
    NodesClosed(graph);
    while remaining != {}
      invariant remaining <= graph.Keys
      invariant Consistent(t) && t.stack == [] && Keeps(data, t.data) && Strong(Edges(graph), t.ans)
      invariant forall k :: k in graph && k !in remaining ==> Visited(t.data, k)
      invariant SameRows(graph, graphOut) && graph.Keys <= graphOut.Keys <= Nodes(graph)
      decreases remaining
    {
      var k := Pick(remaining);
      remaining := remaining - {k};
      if Get(t.data, k).disc == Unvisited {
        var graphNext, r := TarjansSearch(graph, Nodes(graph), t.id, graphOut, t, k);
        FindStep(graph, data, remaining, k, graphOut, t, graphNext, r);
        graphOut, t := graphNext, r;
      }
    }
  }

  /** A search from an unvisited key, with the stack empty, keeps the state of `findSCC`'s loop and numbers that key. */
  lemma FindStep(graph: EdgeLists, data: map<nat, Entry>, remaining: set<nat>, k: nat,
                 graphOut: EdgeLists, t: State, graphNext: EdgeLists, r: State)
    requires Consistent(t) && t.stack == [] && Keeps(data, t.data) && !Visited(t.data, k)
    requires forall n :: n in graph && n !in remaining && n != k ==> Visited(t.data, n)
    requires graphOut.Keys <= Nodes(graph)
    requires SearchPost(graph, Nodes(graph), t.id, graphOut, t, k, graphNext, r)
    ensures Consistent(r) && r.stack == [] && Keeps(data, r.data) && Strong(Edges(graph), r.ans)
    ensures forall n :: n in graph && n !in remaining ==> Visited(r.data, n)
    ensures SameRows(graph, graphNext) && graphOut.Keys <= graphNext.Keys <= Nodes(graph)
  {
    assert EntryOk(r.data[k], r.id);
    assert r.data[k].lowLink == r.data[k].disc;
  }

  /**
   * `tarjansSCC`: every key starts unvisited, then `findSCC`.  The
   * components it returns have more than one node each, hold each node
   * once, are pairwise disjoint, and are strongly connected: every node of
   * a component reaches every other.
   */
  method TarjansScc(graph: EdgeLists) returns (graphOut: EdgeLists, components: seq<seq<nat>>)
    ensures forall i :: 0 <= i < |components| ==> |components[i]| > 1 && Distinct(components[i])
    ensures forall i, j, n :: 0 <= i < j < |components| && n in components[i] ==> n !in components[j]
    ensures Strong(Edges(graph), components)
    ensures SameRows(graph, graphOut) && graph.Keys <= graphOut.Keys <= Nodes(graph)
  {
    var data := InitData(graph.Keys);
    StartConsistent(data);
    var t;
    graphOut, t := FindScc(graph, data, [], 0);
    components := t.ans;
  }

  /**
   * The key `tarjansSearch` as written works on when `findSCC` or a tree
   * edge hands it key `k`: its parameter `current_id` is an `int`, so the
   * 64-bit key is cut to its low 32 bits, and using it again as an
   * `unsigned long` key sign-extends it.  Only keys below 2^31, and those
   * within 2^31 of 2^64, come through unchanged; `TarjansSearch` takes the
   * key itself, the evidently intended behaviour, which the signature of
   * the depth-limited variant also has.
   */
  function KeyThroughInt(k: nat): (r: nat)
    requires k < 0x1_0000_0000_0000_0000
    ensures r < 0x1_0000_0000_0000_0000 && r % 0x1_0000_0000 == k % 0x1_0000_0000
    ensures r == k <==> k < 0x8000_0000 || k >= 0xFFFF_FFFF_8000_0000
  {
    var low := k % 0x1_0000_0000;
    if low < 0x8000_0000 then low else low + 0xFFFF_FFFF_0000_0000
  }

  /** The key 2^31 is searched as the key 2^64 - 2^31, so the key itself is never numbered. */
  lemma KeyThroughIntMovesKey()
    ensures KeyThroughInt(0x8000_0000) == 0xFFFF_FFFF_8000_0000
    ensures KeyThroughInt(0x8000_0000) != 0x8000_0000
  {
  }
}
