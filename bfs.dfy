/**
 * Breadth-first search over a graph of `v` vertices numbered 0..v-1, with
 * adjacency lists.  The search marks a vertex visited when it enqueues it.
 */
module Bfs {
  import opened Reach

  ghost function Edges(adj: seq<seq<int>>): (int, int) -> bool
  {
    (a: int, b: int) => 0 <= a < |adj| && b in adj[a]
  }

  /** Every adjacency entry names a vertex of the graph. */
  ghost predicate InRange(adj: seq<seq<int>>)
  {
    forall a, k :: 0 <= a < |adj| && 0 <= k < |adj[a]| ==> 0 <= adj[a][k] < |adj|
  }

  ghost predicate Distinct(s: seq<int>)
  {
    forall i, j :: 0 <= i < j < |s| ==> s[i] != s[j]
  }

  function Unvisited(visited: seq<bool>): set<int>
  {
    set x | 0 <= x < |visited| && !visited[x]
  }

  /**
   * The state of the search loop.  `order` lists the vertices in the order
   * they were enqueued; the first `done` of them have been dequeued and the
   * rest form the queue.  A vertex is visited exactly when it has been
   * enqueued, every enqueued vertex is reachable from the start, and all
   * neighbours of a dequeued vertex are visited.
   */
  ghost predicate BfsInv(adj: seq<seq<int>>, start: int, visited: seq<bool>, queue: seq<int>,
                         order: seq<int>, done: nat)
  {
    && InRange(adj) && 0 <= start < |adj| && |visited| == |adj|
    && |order| >= 1 && order[0] == start && done <= |order| && queue == order[done..]
    && Distinct(order) && (forall i :: 0 <= i < |order| ==> 0 <= order[i] < |adj|)
    && (forall x :: 0 <= x < |visited| ==> (visited[x] <==> x in order))
    && (forall i :: 0 <= i < |order| ==> Reachable(Edges(adj), start, order[i]))
    && (forall i, b :: 0 <= i < done && b in adj[order[i]] ==> visited[b])
  }

  /** What a search from `start` leaves behind. */
  ghost predicate BfsResult(adj: seq<seq<int>>, start: int, visited: seq<bool>, order: seq<int>)
  {
    && |visited| == |adj|
    && (forall x :: 0 <= x < |adj| ==> (visited[x] <==> Reachable(Edges(adj), start, x)))
    && |order| >= 1 && order[0] == start && Distinct(order) && |order| <= |adj|
    && (forall x :: 0 <= x < |adj| ==> (visited[x] <==> x in order))
  }

  /** A repetition-free sequence of vertex numbers is no longer than the number of vertices. */
  lemma {:induction false} DistinctBound(s: seq<int>, n: nat)
    requires Distinct(s) && forall i :: 0 <= i < |s| ==> 0 <= s[i] < n
    ensures |s| <= n
  {
    if |s| == 0 {
    } else if i :| 0 <= i < |s| && s[i] == n - 1 {
      var t := s[..i] + s[i + 1..];
      assert forall k :: 0 <= k < |t| ==> t[k] == (if k < i then s[k] else s[k + 1]);
      DistinctBound(t, n - 1);
    } else {
      assert 0 <= s[0] < n;
      DistinctBound(s, n - 1);
    }
  }

  lemma BfsStart(adj: seq<seq<int>>, start: int, visited: seq<bool>)
    requires InRange(adj) && 0 <= start < |adj|
    requires visited == seq(|adj|, x => false)[start := true]
    ensures BfsInv(adj, start, visited, [start], [start], 0)
  {
    ReachableRefl(Edges(adj), start);
  }

  /** Dequeuing `order[done]` and enqueuing its unvisited neighbours `added` keeps the invariant. */
  lemma BfsStep(adj: seq<seq<int>>, start: int, visited: seq<bool>, order: seq<int>, done: nat,
                visitedNext: seq<bool>, added: seq<int>)
    requires done < |order| && BfsInv(adj, start, visited, order[done..], order, done)
    requires |visitedNext| == |visited|
    requires forall y :: 0 <= y < |visited| ==> visitedNext[y] == (visited[y] || y in added)
    requires Distinct(added)
    requires forall y :: y in added ==> y in adj[order[done]] && !visited[y]
    requires forall b :: b in adj[order[done]] ==> 0 <= b < |visitedNext| && visitedNext[b]
    ensures BfsInv(adj, start, visitedNext, (order + added)[done + 1..], order + added, done + 1)
  {
    var x := order[done];
    var next := order + added;
    assert x in order;
    forall i, j | 0 <= i < j < |next|
      ensures next[i] != next[j]
    {
      if j >= |order| && i < |order| {
        assert next[j] in added;
        assert order[i] in order;
      }
    }
    forall i | 0 <= i < |next|
      ensures 0 <= next[i] < |adj| && Reachable(Edges(adj), start, next[i])
    {
      if i >= |order| {
        assert next[i] in added;
        ReachableStep(Edges(adj), start, x, next[i]);
      }
    }
    forall y | 0 <= y < |visitedNext|
      ensures visitedNext[y] <==> y in next
    {
    }
  }

  lemma BfsDone(adj: seq<seq<int>>, start: int, visited: seq<bool>, order: seq<int>)
    requires BfsInv(adj, start, visited, [], order, |order|)
    ensures BfsResult(adj, start, visited, order)
  {
    var s := set x | 0 <= x < |adj| && visited[x];
    assert start in order;
    forall a, b | a in s && Edges(adj)(a, b)
      ensures b in s
    {
      var i :| 0 <= i < |order| && order[i] == a;
    }
    forall x | 0 <= x < |adj| && Reachable(Edges(adj), start, x)
      ensures visited[x]
    {
      ClosedHoldsReachable(Edges(adj), s, start, x);
    }
    forall x | 0 <= x < |adj| && visited[x]
      ensures Reachable(Edges(adj), start, x)
    {
      var i :| 0 <= i < |order| && order[i] == x;
    }
    DistinctBound(order, |adj|);
  }

  class Graph {
    var v: int
    var adj: seq<seq<int>>

    ghost predicate Valid()
      reads this
    {
      v >= 0 && |adj| == v
    }

    /** `Graph(v)`: `v` vertices with empty adjacency lists. */
    constructor (v: int)
      requires v >= 0
      ensures this.v == v && adj == seq(v, i => []) && Valid()
    {
      this.v := v;
      adj := seq(v, i => []);
    }

    /** `addEdge`: appends `id2` to the list of `id1`; nothing else changes. */
    method AddEdge(id1: int, id2: int)
      requires Valid() && 0 <= id1 < v
      modifies this
      ensures v == old(v) && adj == old(adj)[id1 := old(adj)[id1] + [id2]] && Valid()
    {
      adj := adj[id1 := adj[id1] + [id2]];
    }

    /**
     * The search from `id`.  The source keeps `visited` local; the model
     * returns it, with the enqueue order as a ghost witness.
     */
    method BFS(id: int) returns (visited: seq<bool>, ghost order: seq<int>)
      requires Valid() && InRange(adj) && 0 <= id < v
      ensures BfsResult(adj, id, visited, order)
    {
      visited := seq(v, x => false);
      visited := visited[id := true];
      var queue := [id];
      order := [id];
      ghost var done := 0;
      BfsStart(adj, id, visited);
      while |queue| > 0
        invariant BfsInv(adj, id, visited, queue, order, done)
        decreases Unvisited(visited), |queue|
      {
        var current := queue[0];
        queue := queue[1..];
        ghost var visited0 := visited;
        var added;
        visited, added := VisitNeighbours(adj[current], visited);
        queue := queue + added;
        BfsStep(adj, id, visited0, order, done, visited, added);
        assert order[done + 1..] + added == (order + added)[done + 1..];
        order := order + added;
        done := done + 1;
        if |added| > 0 {
          assert added[0] in Unvisited(visited0) && added[0] !in Unvisited(visited);
        }
      }
      BfsDone(adj, id, visited, order);
    }
  }

  /** The inner loop of the search: marks and returns, in order, the neighbours not yet visited. */
  method VisitNeighbours(neighbours: seq<int>, visited: seq<bool>) returns (visitedNext: seq<bool>, added: seq<int>)
    requires forall k :: 0 <= k < |neighbours| ==> 0 <= neighbours[k] < |visited|
    ensures |visitedNext| == |visited|
    ensures forall y :: 0 <= y < |visited| ==> visitedNext[y] == (visited[y] || y in added)
    ensures Distinct(added) && forall y :: y in added ==> y in neighbours && !visited[y]
    ensures forall k :: 0 <= k < |neighbours| ==> visitedNext[neighbours[k]]
    ensures Unvisited(visitedNext) <= Unvisited(visited)
  {
    visitedNext := visited;
    added := [];
    var j := 0;
    while j < |neighbours|
      invariant 0 <= j <= |neighbours| && |visitedNext| == |visited|
      invariant forall y :: 0 <= y < |visited| ==> visitedNext[y] == (visited[y] || y in added)
      invariant Distinct(added) && forall y :: y in added ==> y in neighbours && !visited[y]
      invariant forall k :: 0 <= k < j ==> visitedNext[neighbours[k]]
    {
      var b := neighbours[j];
      if !visitedNext[b] {
        visitedNext := visitedNext[b := true];
        added := added + [b];
      }
      j := j + 1;
    }
  }
}
