/**
 * Tarjan's strongly-connected-component search over the author graph's
 * adjacency map, the variant that stops numbering nodes once `id` passes
 * 1024: `tarjansSCC`, `findSCC`, `tarjansSearch` and
 * `tarjansSCC_with_query`.  Reading a node's row with `operator[]` inserts
 * an empty row for a node the map does not hold, so the searches return
 * the adjacency map with those insertions; the edges themselves never
 * change.
 */
module AuthorTarjan {
  import opened Wrappers
  import opened Reach
  import opened Tarjan
  import AuthorGraph

  type AdjList = AuthorGraph.AdjList

  type State = SearchState<int>

  /** `tarjansSearch` returns at once, numbering nothing, when `id` exceeds this. */
  const MaximumRecursion: int := 1024

  ghost function Edges(g: AdjList): (int, int) -> bool
  {
    (a: int, b: int) => b in AuthorGraph.Row(g, a)
  }

  /** `graph` holds the same row as `g0` for every node; it may hold more nodes, with empty rows. */
  ghost predicate SameRows(g0: AdjList, graph: AdjList)
  {
    forall k :: AuthorGraph.Row(graph, k) == AuthorGraph.Row(g0, k)
  }

  /**
   * What a search from `current` in state `s` over `graph` leaves behind.
   * Past the limit nothing changes.  Otherwise the bookkeeping stays
   * consistent and keeps every number given before; `current` gets number
   * `s.id`, every node numbered during the search is reachable from it, and
   * no number exceeds the limit; the map gains empty rows for numbered nodes
   * only; the stack grows by new nodes only and returns to what it was
   * exactly when `current`'s low link equals its number.  When the search,
   * or one it started, hit the limit (`pruned`), `current`'s low link is -1,
   * so it completes no component.  A node without edges completes only a
   * single-node component, which is not reported.
   */
  ghost predicate SearchPost(g0: AdjList, graph: AdjList, s: State, current: int,
                             graphOut: AdjList, t: State, pruned: bool)
  {
    && Consistent(t) && Keeps(s.data, t.data) && Rooted(Edges(g0), t.ans)
    && SameRows(g0, graphOut) && graph.Keys <= graphOut.Keys
    && (forall k :: k in graphOut && k !in graph ==> k in t.data && t.data[k].disc != Unvisited)
    && s.id <= t.id <= MaximumRecursion + 1
    && NewlyReached(Edges(g0), s.data, t.data, current, s.id)
    && Grows(s, t)
    && (s.id > MaximumRecursion ==> graphOut == graph && t == s)
    && (s.id <= MaximumRecursion ==>
          && t.id > s.id && current in t.data && t.data[current].disc == s.id
          && (t.data[current].lowLink == t.data[current].disc <==> t.stack == s.stack))
    && (pruned ==> Get(t.data, current).lowLink == Unvisited && t.id == MaximumRecursion + 1)
    && (AuthorGraph.Row(g0, current) == map[] && s.id <= MaximumRecursion ==>
          t.ans == s.ans && graphOut == graph[current := map[]])
  }

  /** The state of the loop over `current`'s row. */
  ghost predicate Progress(g0: AdjList, graph: AdjList, s: State, current: int,
                           graphOut: AdjList, t: State, pruned: bool)
  {
    && Consistent(t) && Keeps(s.data, t.data) && Rooted(Edges(g0), t.ans)
    && SameRows(g0, graphOut) && graph.Keys <= graphOut.Keys && current in graphOut
    && (forall k :: k in graphOut && k !in graph ==> k in t.data && t.data[k].disc != Unvisited)
    && s.id < t.id <= MaximumRecursion + 1
    && current in t.data && t.data[current].disc == s.id && t.data[current].onStack
    && NewlyReached(Edges(g0), s.data, t.data, current, s.id)
    && Grows(s, t) && |t.stack| > |s.stack| && t.stack[|s.stack|] == current
    && (pruned ==> t.data[current].lowLink == Unvisited && t.id == MaximumRecursion + 1)
  }

  /**
   * `tarjansSearch(ans, current_id, tarjans_data, scc_stack, id)`, with the
   * state passed by reference threaded through `s` and `t`.  The row of
   * `current` is a map, walked in its unspecified order.
   */
  method TarjansSearch(ghost g0: AdjList, graph: AdjList, s: State, current: int)
    returns (graphOut: AdjList, t: State, ghost pruned: bool)
    requires Consistent(s) && !Visited(s.data, current) && s.id <= MaximumRecursion + 1
    requires SameRows(g0, graph) && Rooted(Edges(g0), s.ans)
    ensures SearchPost(g0, graph, s, current, graphOut, t, pruned)
    decreases MaximumRecursion + 1 - s.id
  {
    if s.id > MaximumRecursion {
      return graph, s, true;
    }
    t := SearchState(s.data[current := Entry(s.id, s.id, true)], s.stack + [current], s.id + 1, s.ans);
    var row := AuthorGraph.Row(graph, current);
    graphOut := graph[current := row];
    pruned := false;
    ProgressStart(g0, graph, s, current, graphOut);
    ghost var start := t;
    var remaining := row.Keys;
    while remaining != {}
      invariant remaining <= row.Keys && row == AuthorGraph.Row(g0, current)
      invariant Progress(g0, graph, s, current, graphOut, t, pruned)
      invariant row == map[] ==> t == start && graphOut == graph[current := map[]]
      decreases remaining
    {
      var adj := Pick(remaining);
      remaining := remaining - {adj};
      if Get(t.data, adj).disc == Unvisited {
        var graphNext, r, childPruned := TarjansSearch(g0, graphOut, t, adj);
        ProgressChild(g0, graph, s, current, graphOut, t, pruned, adj, graphNext, r, childPruned);
        graphOut, t := graphNext, r;
        ProgressLower(g0, graph, s, current, graphOut, t, pruned, pruned || childPruned, Get(t.data, adj).lowLink);
        t := t.(data := t.data[current := t.data[current].(lowLink := Min(t.data[current].lowLink, Get(t.data, adj).lowLink))]);
        pruned := pruned || childPruned;
      } else if Get(t.data, adj).onStack {
        ProgressLower(g0, graph, s, current, graphOut, t, pruned, pruned, t.data[adj].disc);
        t := t.(data := t.data[current := t.data[current].(lowLink := Min(t.data[current].lowLink, t.data[adj].disc))]);
      }
    }
    if t.data[current].disc == t.data[current].lowLink {
      var dataOut, stackOut, component := PopComponent(t.data, t.stack, current);
      ProgressPop(g0, graph, s, current, graphOut, t, pruned, dataOut, stackOut, component);
      t := SearchState(dataOut, stackOut, t.id, if |component| > 1 then t.ans + [component] else t.ans);
    } else {
      ProgressKeep(g0, graph, s, current, graphOut, t, pruned);
    }
  }

  lemma ProgressStart(g0: AdjList, graph: AdjList, s: State, current: int, graphOut: AdjList)
    requires Consistent(s) && !Visited(s.data, current) && s.id <= MaximumRecursion
    requires SameRows(g0, graph) && Rooted(Edges(g0), s.ans)
    requires graphOut == graph[current := AuthorGraph.Row(graph, current)]
    ensures Progress(g0, graph, s, current, graphOut,
                     SearchState(s.data[current := Entry(s.id, s.id, true)], s.stack + [current], s.id + 1, s.ans), false)
  {
    var t := SearchState(s.data[current := Entry(s.id, s.id, true)], s.stack + [current], s.id + 1, s.ans);
    VisitConsistent(s, current);
    ReachableRefl(Edges(g0), current);
    assert t.stack[..|s.stack|] == s.stack;
    assert forall k :: AuthorGraph.Row(graphOut, k) == AuthorGraph.Row(graph, k);
  }

  /** A child's search keeps the loop state; a child that hit the limit leaves a low link of -1. */
  lemma ProgressChild(g0: AdjList, graph: AdjList, s: State, current: int, graphOut: AdjList, t: State, pruned: bool,
                      adj: int, graphNext: AdjList, r: State, childPruned: bool)
    requires Progress(g0, graph, s, current, graphOut, t, pruned) && !Visited(s.data, current)
    requires adj in AuthorGraph.Row(g0, current) && !Visited(t.data, adj)
    requires SearchPost(g0, graphOut, t, adj, graphNext, r, childPruned)
    ensures Progress(g0, graph, s, current, graphNext, r, pruned)
    ensures Get(r.data, adj).lowLink >= -1
    ensures childPruned ==> Get(r.data, adj).lowLink == Unvisited && r.id == MaximumRecursion + 1
  {
    assert Edges(g0)(current, adj);
    ChildReached(Edges(g0), s.data, t.data, r.data, current, adj, s.id, t.id);
    GrowsTrans(s, t, r);
    if adj in r.data {
      assert EntryOk(r.data[adj], r.id);
    }
  }

  /** Lowering `current`'s low link to at least -1 keeps the loop state; lowering it to -1 past the limit records a prune. */
  lemma ProgressLower(g0: AdjList, graph: AdjList, s: State, current: int, graphOut: AdjList, t: State,
                      pruned: bool, prunedAfter: bool, x: int)
    requires Progress(g0, graph, s, current, graphOut, t, pruned) && !Visited(s.data, current) && x >= -1
    requires prunedAfter ==> pruned || (x == Unvisited && t.id == MaximumRecursion + 1)
    ensures Progress(g0, graph, s, current, graphOut,
                     t.(data := t.data[current := t.data[current].(lowLink := Min(t.data[current].lowLink, x))]), prunedAfter)
  {
    LowerConsistent(t, current, x);
  }

  /** The pop loop ends the search with the stack back to what it was and the component rooted at `current`. */
  lemma ProgressPop(g0: AdjList, graph: AdjList, s: State, current: int, graphOut: AdjList, t: State, pruned: bool,
                    dataOut: map<int, Entry>, stackOut: seq<int>, component: seq<int>)
    requires s.id <= MaximumRecursion && Progress(g0, graph, s, current, graphOut, t, pruned)
    requires t.data[current].disc == t.data[current].lowLink
    requires AuthorGraph.Row(g0, current) == map[] ==>
               |t.stack| == |s.stack| + 1 && t.ans == s.ans && graphOut == graph[current := map[]]
    requires Popped(t.data, t.stack, current, dataOut, stackOut, component)
    ensures SearchPost(g0, graph, s, current, graphOut,
                       SearchState(dataOut, stackOut, t.id, if |component| > 1 then t.ans + [component] else t.ans), pruned)
  {
    PopConsistent(t, current, dataOut, stackOut, component);
    PopShape(s, t, current, dataOut, stackOut, component);
    PopKeeps(Edges(g0), s, t, current, dataOut, stackOut, component);
    PopRooted(g0, s, t, current, stackOut, component);
  }

  /** The pop returns the stack to `s`'s and changes no entry but the on-stack flags. */
  lemma PopShape(s: State, t: State, current: int, dataOut: map<int, Entry>, stackOut: seq<int>, component: seq<int>)
    requires Grows(s, t) && |t.stack| > |s.stack| && t.stack[|s.stack|] == current && Distinct(t.stack)
    requires Popped(t.data, t.stack, current, dataOut, stackOut, component)
    ensures stackOut == s.stack && dataOut.Keys == t.data.Keys
    ensures forall k :: k in t.data ==> dataOut[k].disc == t.data[k].disc && dataOut[k].lowLink == t.data[k].lowLink
    ensures |t.stack| == |s.stack| + 1 ==> |component| == 1
    ensures Grows(s, SearchState(dataOut, stackOut, t.id, if |component| > 1 then t.ans + [component] else t.ans))
  {
    assert |stackOut| == |s.stack|;
    var ans := if |component| > 1 then t.ans + [component] else t.ans;
    assert ans[..|s.ans|] == s.ans;
  }

  /** A component completed at `current` keeps every component rooted. */
  lemma PopRooted(g0: AdjList, s: State, t: State, current: int, stackOut: seq<int>, component: seq<int>)
    requires Consistent(t) && |stackOut| == |s.stack| < |t.stack| && Rooted(Edges(g0), t.ans)
    requires NewlyReached(Edges(g0), s.data, t.data, current, s.id) && Grows(s, t)
    requires |component| == |t.stack| - |stackOut| && component[|component| - 1] == current
    requires forall j :: 0 <= j < |component| ==> component[j] == t.stack[|t.stack| - 1 - j]
    ensures Rooted(Edges(g0), if |component| > 1 then t.ans + [component] else t.ans)
  {
    if |component| > 1 {
      ComponentReached(g0, s, t, current, stackOut, component);
      RootedAppend(Edges(g0), t.ans, component);
    }
  }

  lemma ComponentReached(g0: AdjList, s: State, t: State, current: int, stackOut: seq<int>, component: seq<int>)
    requires Consistent(t) && |stackOut| == |s.stack| < |t.stack|
    requires NewlyReached(Edges(g0), s.data, t.data, current, s.id) && Grows(s, t)
    requires |component| == |t.stack| - |stackOut|
    requires forall j :: 0 <= j < |component| ==> component[j] == t.stack[|t.stack| - 1 - j]
    ensures forall n :: n in component ==> Reachable(Edges(g0), current, n)
  {
    forall n | n in component
      ensures Reachable(Edges(g0), current, n)
    {
      var j :| 0 <= j < |component| && component[j] == n;
      var k := |t.stack| - 1 - j;
      assert t.stack[k] == n && t.stack[k] in t.stack;
    }
  }

  /** When `current` does not complete a component the loop state is already the search's outcome. */
  lemma ProgressKeep(g0: AdjList, graph: AdjList, s: State, current: int, graphOut: AdjList, t: State, pruned: bool)
    requires s.id <= MaximumRecursion && Progress(g0, graph, s, current, graphOut, t, pruned)
    requires t.data[current].disc != t.data[current].lowLink
    requires AuthorGraph.Row(g0, current) == map[] ==> t.ans == s.ans && graphOut == graph[current := map[]]
    ensures SearchPost(g0, graph, s, current, graphOut, t, pruned)
  {
  }

  /**
   * The pop loop of `tarjansSearch`: pops and collects nodes while the top
   * is not `current`, then collects and pops `current`.
   */
  method PopComponent(data: map<int, Entry>, stack: seq<int>, current: int)
    returns (dataOut: map<int, Entry>, stackOut: seq<int>, component: seq<int>)
    requires current in stack && forall k :: k in stack ==> k in data
    ensures Popped(data, stack, current, dataOut, stackOut, component)
  {
    dataOut, stackOut, component := data, stack, [];
    while stackOut[|stackOut| - 1] != current
      invariant current in stackOut && stackOut == stack[..|stackOut|]
      invariant |component| == |stack| - |stackOut|
      invariant forall j :: 0 <= j < |component| ==> component[j] == stack[|stack| - 1 - j]
      invariant dataOut.Keys == data.Keys
      invariant forall k :: k in data ==> dataOut[k] == if k in component then data[k].(onStack := false) else data[k]
      decreases |stackOut|
    {
      var node := stackOut[|stackOut| - 1];
      component := component + [node];
      dataOut := dataOut[node := dataOut[node].(onStack := false)];
      stackOut := stackOut[..|stackOut| - 1];
    }
    component := component + [current];
    dataOut := dataOut[current := dataOut[current].(onStack := false)];
    stackOut := stackOut[..|stackOut| - 1];
  }

  /**
   * `findSCC`: a search from every key still unvisited, in the map's
   * unspecified order.  Every key ends up numbered unless the limit was
   * reached, no number exceeds 1024, and every number given before is kept.
   */
  method FindScc(graph: AdjList, data: map<int, Entry>, stack: seq<int>, id: int)
    returns (graphOut: AdjList, t: State)
    requires Consistent(SearchState(data, stack, id, [])) && id <= MaximumRecursion + 1
    ensures Consistent(t) && Keeps(data, t.data) && Rooted(Edges(graph), t.ans)
    ensures forall k :: k in graph ==> Visited(t.data, k) || t.id > MaximumRecursion
    ensures forall k :: k in t.data ==> t.data[k].disc <= MaximumRecursion
    ensures SameRows(graph, graphOut) && graph.Keys <= graphOut.Keys
    ensures forall k :: k in graphOut && k !in graph ==> Visited(t.data, k)
  {
    graphOut := graph;
    t := SearchState(data, stack, id, []);
    var remaining := graph.Keys;
    while remaining != {}
      invariant remaining <= graph.Keys && t.id <= MaximumRecursion + 1
      invariant Consistent(t) && Keeps(data, t.data) && Rooted(Edges(graph), t.ans)
      invariant forall k :: k in graph && k !in remaining ==> Visited(t.data, k) || t.id > MaximumRecursion
      invariant SameRows(graph, graphOut) && graph.Keys <= graphOut.Keys
      invariant forall k :: k in graphOut && k !in graph ==> Visited(t.data, k)
      decreases remaining
    {
      var k := Pick(remaining);
      remaining := remaining - {k};
      if Get(t.data, k).disc == Unvisited {
        ghost var pruned;
        var graphNext, r;
        graphNext, r, pruned := TarjansSearch(graph, graphOut, t, k);
        FindStep(graph, data, remaining, k, graphOut, t, graphNext, r, pruned);
        graphOut, t := graphNext, r;
      }
    }
    forall k | k in t.data
      ensures t.data[k].disc <= MaximumRecursion
    {
      assert EntryOk(t.data[k], t.id);
    }
  }

  /** A search from an unvisited key keeps the state of `findSCC`'s loop and numbers that key unless the limit is reached. */
  lemma FindStep(graph: AdjList, data: map<int, Entry>, remaining: set<int>, k: int,
                 graphOut: AdjList, t: State, graphNext: AdjList, r: State, pruned: bool)
    requires Consistent(t) && Keeps(data, t.data) && Rooted(Edges(graph), t.ans) && !Visited(t.data, k)
    requires forall n :: n in graph && n !in remaining && n != k ==> Visited(t.data, n) || t.id > MaximumRecursion
    requires SameRows(graph, graphOut) && graph.Keys <= graphOut.Keys
    requires forall n :: n in graphOut && n !in graph ==> Visited(t.data, n)
    requires SearchPost(graph, graphOut, t, k, graphNext, r, pruned)
    ensures r.id <= MaximumRecursion + 1 && Consistent(r) && Keeps(data, r.data) && Rooted(Edges(graph), r.ans)
    ensures forall n :: n in graph && n !in remaining ==> Visited(r.data, n) || r.id > MaximumRecursion
    ensures SameRows(graph, graphNext) && graph.Keys <= graphNext.Keys
    ensures forall n :: n in graphNext && n !in graph ==> Visited(r.data, n)
  {
    forall n | n in graph && n !in remaining
      ensures Visited(r.data, n) || r.id > MaximumRecursion
    {
      if n == k && t.id <= MaximumRecursion {
        assert r.data[k].disc == t.id >= 0;
      }
    }
    forall n | n in graphNext && n !in graph
      ensures Visited(r.data, n)
    {
      if n in graphOut {
        assert Visited(t.data, n);
      }
    }
  }

  /**
   * `tarjansSCC`: every key starts unvisited, then `findSCC`.  The
   * components it returns have more than one node each, hold each node
   * once, are pairwise disjoint, and consist of nodes reachable from the
   * component's last node.
   */
  method TarjansScc(graph: AdjList) returns (graphOut: AdjList, components: seq<seq<int>>)
    ensures forall i :: 0 <= i < |components| ==> |components[i]| > 1 && Distinct(components[i])
    ensures forall i, j, n :: 0 <= i < j < |components| && n in components[i] ==> n !in components[j]
    ensures Rooted(Edges(graph), components)
    ensures SameRows(graph, graphOut) && graph.Keys <= graphOut.Keys
  {
    var data := InitData(graph.Keys);
    StartConsistent(data);
    var t;
    graphOut, t := FindScc(graph, data, [], 0);
    components := t.ans;
  }

  /**
   * `tarjansSCC_with_query`: one search, from `query`, over a graph whose
   * keys all start unvisited.  For a query the map does not hold it reports
   * no component, yet the search's `adj_list[current_id]` leaves an empty
   * row for it behind.  The printed message is left out.
   */
  method TarjansSccWithQuery(graph: AdjList, query: int) returns (graphOut: AdjList, components: seq<seq<int>>)
    ensures forall i :: 0 <= i < |components| ==> |components[i]| > 1 && Distinct(components[i])
    ensures forall i, j, n :: 0 <= i < j < |components| && n in components[i] ==> n !in components[j]
    ensures Rooted(Edges(graph), components)
    ensures SameRows(graph, graphOut) && graph.Keys <= graphOut.Keys
    ensures query !in graph ==> components == [] && graphOut == graph[query := map[]]
  {
    var data := InitData(graph.Keys);
    StartConsistent(data);
    var t;
    ghost var pruned;
    graphOut, t, pruned := TarjansSearch(graph, graph, SearchState(data, [], 0, []), query);
    components := t.ans;
  }
}
