/**
 * The citation graph: each paper id maps to the list of ids it references.
 * `AddEdge` adds one reference, the constructor adds the references of every
 * entry of the node data, and `GetIdeaHistory` records an iterative
 * depth-first traversal from a paper as `(parent, child)` steps.
 */
module JournalGraph {
  import opened Reach
  import opened Wrappers

  type Adjacency = map<nat, seq<nat>>

  /** A recorded traversal step `(parent, child)`. */
  type Step = (nat, nat)

  /**
   * Every id in an adjacency list is itself a key, and 0 is never an id.  This
   * is why the `seen.at` and `graph.at` lookups of the traversal never throw.
   */
  ghost predicate WellFormed(g: Adjacency)
  {
    0 !in g && forall k, o :: k in g && o in g[k] ==> o in g
  }

  /** The graph after `addEdge(id1, id2)`. */
  function WithEdge(g: Adjacency, id1: nat, id2: nat): (r: Adjacency)
  {
    if id1 == 0 || id2 == 0 then g
    else
      var g1 := if id2 in g then g else g[id2 := []];
      g1[id1 := (if id1 in g1 then g1[id1] else []) + [id2]]
  }

  /** What `addEdge` promises: an ignored edge changes nothing, otherwise one list grows by one id. */
  lemma WithEdgeEffect(g: Adjacency, id1: nat, id2: nat)
    ensures id1 == 0 || id2 == 0 ==> WithEdge(g, id1, id2) == g
    ensures id1 != 0 && id2 != 0 ==>
      var r := WithEdge(g, id1, id2);
      && r.Keys == g.Keys + {id1, id2}
      && r[id1] == (if id1 in g then g[id1] else []) + [id2]
      && forall k :: k in g && k != id1 ==> r[k] == g[k]
  {
  }

  lemma WithEdgeWellFormed(g: Adjacency, id1: nat, id2: nat)
    requires WellFormed(g)
    ensures WellFormed(WithEdge(g, id1, id2))
  {
    var r := WithEdge(g, id1, id2);
    if id1 != 0 && id2 != 0 {
      forall k, o | k in r && o in r[k]
        ensures o in r
      {
        if k == id1 {
          assert o == id2 || (k in g && o in g[k]);
        } else {
          assert k in g;
        }
      }
    }
  }

  /** `addEdge(source, r)` for each `r` of `refs`, in order. */
  function AddReferences(g: Adjacency, source: nat, refs: seq<nat>): (r: Adjacency)
  {
    if |refs| == 0 then g
    else WithEdge(AddReferences(g, source, refs[..|refs| - 1]), source, refs[|refs| - 1])
  }

  predicate EntriesNonEmpty(nodeData: seq<seq<nat>>)
  {
    forall i :: 0 <= i < |nodeData| ==> |nodeData[i]| >= 1
  }

  /** The graph the constructor builds: entry `[source, ref1, ref2, ...]` adds `source -> ref_j`. */
  function Build(nodeData: seq<seq<nat>>): (r: Adjacency)
    requires EntriesNonEmpty(nodeData)
  {
    if |nodeData| == 0 then map[]
    else
      var last := nodeData[|nodeData| - 1];
      AddReferences(Build(nodeData[..|nodeData| - 1]), last[0], last[1..])
  }

  lemma {:induction false} AddReferencesWellFormed(g: Adjacency, source: nat, refs: seq<nat>)
    requires WellFormed(g)
    ensures WellFormed(AddReferences(g, source, refs))
  {
    if |refs| > 0 {
      AddReferencesWellFormed(g, source, refs[..|refs| - 1]);
      WithEdgeWellFormed(AddReferences(g, source, refs[..|refs| - 1]), source, refs[|refs| - 1]);
    }
  }

  lemma {:induction false} BuildWellFormed(nodeData: seq<seq<nat>>)
    requires EntriesNonEmpty(nodeData)
    ensures WellFormed(Build(nodeData))
  {
    if |nodeData| > 0 {
      var last := nodeData[|nodeData| - 1];
      BuildWellFormed(nodeData[..|nodeData| - 1]);
      AddReferencesWellFormed(Build(nodeData[..|nodeData| - 1]), last[0], last[1..]);
    }
  }

  /** Adding edges never removes one. */
  lemma {:induction false} AddReferencesKeeps(g: Adjacency, source: nat, refs: seq<nat>, k: nat, o: nat)
    requires k in g && o in g[k]
    ensures var r := AddReferences(g, source, refs); k in r && o in r[k]
  {
    if |refs| > 0 {
      AddReferencesKeeps(g, source, refs[..|refs| - 1], k, o);
    }
  }

  lemma {:induction false} AddReferencesHas(g: Adjacency, source: nat, refs: seq<nat>, j: nat)
    requires j < |refs| && source != 0 && refs[j] != 0
    ensures var r := AddReferences(g, source, refs); source in r && refs[j] in r[source]
  {
    var init := refs[..|refs| - 1];
    if j < |refs| - 1 {
      AddReferencesHas(g, source, init, j);
      assert init[j] == refs[j];
    }
  }

  lemma {:induction false} BuildKeeps(nodeData: seq<seq<nat>>, n: nat, k: nat, o: nat)
    requires EntriesNonEmpty(nodeData) && n <= |nodeData|
    requires k in Build(nodeData[..n]) && o in Build(nodeData[..n])[k]
    ensures k in Build(nodeData) && o in Build(nodeData)[k]
  {
    if n < |nodeData| {
      var m := |nodeData| - 1;
      var init := nodeData[..m];
      assert init[..n] == nodeData[..n];
      BuildKeeps(init, n, k, o);
      AddReferencesKeeps(Build(init), nodeData[m][0], nodeData[m][1..], k, o);
    } else {
      assert nodeData[..n] == nodeData;
    }
  }

  /** Every reference of the node data whose ids are non-zero is an edge of the built graph. */
  lemma BuildHasReferences(nodeData: seq<seq<nat>>, i: nat, j: nat)
    requires EntriesNonEmpty(nodeData) && i < |nodeData| && 1 <= j < |nodeData[i]|
    requires nodeData[i][0] != 0 && nodeData[i][j] != 0
    ensures nodeData[i][0] in Build(nodeData) && nodeData[i][j] in Build(nodeData)[nodeData[i][0]]
  {
    var e := nodeData[i];
    var prefix := nodeData[..i + 1];
    assert prefix[..i] == nodeData[..i];
    AddReferencesHas(Build(nodeData[..i]), e[0], e[1..], j - 1);
    BuildKeeps(nodeData, i + 1, e[0], e[j]);
  }

  // ---------------------------------------------------------- traversal

  ghost function Edges(g: Adjacency): (nat, nat) -> bool
  {
    (a: nat, b: nat) => a in g && b in g[a]
  }

  /** The edges into nodes that are not yet seen: the ones a traversal from `seen` may take. */
  ghost function FreshEdges(g: Adjacency, seen: map<nat, bool>): (nat, nat) -> bool
  {
    (a: nat, b: nat) => a in g && b in g[a] && b in seen && !seen[b]
  }

  /** The children of a sequence of steps. */
  function Children(s: seq<Step>): set<nat>
  {
    set e | e in s :: e.1
  }

  function Unseen(seen: map<nat, bool>): set<nat>
  {
    set k | k in seen && !seen[k]
  }

  /** No child is recorded twice. */
  ghost predicate RecordsOnce(added: seq<Step>)
  {
    forall i, j :: 0 <= i < j < |added| ==> added[i].1 != added[j].1
  }

  /** The first step may be `(0, vertex)`; every other step follows an edge from the start or from an earlier child. */
  ghost predicate RecordsTree(g: Adjacency, vertex: nat, added: seq<Step>)
  {
    forall i :: 0 <= i < |added| ==>
      (i == 0 && added[i] == (0, vertex))
      || (added[i].0 in g && added[i].1 in g[added[i].0]
          && (added[i].0 == vertex || added[i].0 in Children(added[..i])))
  }

  lemma ChildrenConcat(a: seq<Step>, b: seq<Step>)
    ensures Children(a + b) == Children(a) + Children(b)
  {
    forall y | y in Children(a) + Children(b)
      ensures y in Children(a + b)
    {
      if y in Children(a) {
        var e :| e in a && e.1 == y;
        assert e in a + b;
      } else {
        var e :| e in b && e.1 == y;
        assert e in a + b;
      }
    }
  }

  lemma ChildrenPop(s: seq<Step>)
    requires |s| > 0
    ensures Children(s) == Children(s[..|s| - 1]) + {s[|s| - 1].1}
  {
    assert s == s[..|s| - 1] + [s[|s| - 1]];
    ChildrenConcat(s[..|s| - 1], [s[|s| - 1]]);
  }

  /**
   * The pushes of one traversal step: `(parent, o)` for every `o` of `adj` that
   * is not yet seen, in order.
   */
  method PushUnseen(stack: seq<Step>, parent: nat, adj: seq<nat>, seen: map<nat, bool>) returns (r: seq<Step>)
    requires forall o :: o in adj ==> o in seen
    ensures |r| >= |stack| && r[..|stack|] == stack
    ensures forall e :: e in r[|stack|..] ==> e.0 == parent && e.1 in adj && !seen[e.1]
    ensures forall o :: o in adj && !seen[o] ==> o in Children(r[|stack|..])
  {
    r := stack;
    var j := 0;
    while j < |adj|
      invariant 0 <= j <= |adj|
      invariant |r| >= |stack| && r[..|stack|] == stack
      invariant forall e :: e in r[|stack|..] ==> e.0 == parent && e.1 in adj && !seen[e.1]
      invariant forall o :: o in adj[..j] && !seen[o] ==> o in Children(r[|stack|..])
    {
      if !seen[adj[j]] {
        ghost var before := r;
        r := r + [(parent, adj[j])];
        assert r[|stack|..] == before[|stack|..] + [(parent, adj[j])];
        ChildrenConcat(before[|stack|..], [(parent, adj[j])]);
      }
      assert adj[..j + 1] == adj[..j] + [adj[j]];
      j := j + 1;
    }
    assert adj[..j] == adj;
  }

  /** The edges into children that have already been recorded or are still on the stack. */
  ghost predicate Frontier(g: Adjacency, seen: map<nat, bool>, vertex: nat, added: seq<Step>, stack: seq<Step>)
  {
    forall x, y :: (x == vertex || x in Children(added)) && FreshEdges(g, seen)(x, y)
      ==> y in Children(added) || y in Children(stack)
  }

  /**
   * The invariant of the traversal loop: `seenNow` is `seen` plus the recorded
   * children, every recorded or stacked child is reachable, and every fresh edge
   * out of the start or a recorded child ends at a recorded or stacked child.
   */
  ghost predicate DfsInv(g: Adjacency, vertex: nat, seen: map<nat, bool>, seenNow: map<nat, bool>,
                         added: seq<Step>, stack: seq<Step>, started: bool)
  {
    && WellFormed(g) && vertex in g && seen.Keys == g.Keys && seenNow.Keys == g.Keys
    && MarksAdded(seen, seenNow, added)
    && RecordsOnce(added) && RecordsTree(g, vertex, added)
    && (forall y :: y in Children(added) ==> y in seen && !seen[y] && Reachable(FreshEdges(g, seen), vertex, y))
    && (forall e :: e in stack ==> e.1 in g && (e.1 == vertex || !seen[e.1]) && Reachable(FreshEdges(g, seen), vertex, e.1))
    && (!started ==> stack == [(0, vertex)] && added == [])
    && (started ==> forall e :: e in stack ==>
          e.0 in g && e.1 in g[e.0] && (e.0 == vertex || e.0 in Children(added)))
    && (started && !seen[vertex] ==> |added| > 0 && added[0] == (0, vertex))
    && (started ==> Frontier(g, seen, vertex, added, stack))
  }

  /** 0 when the step on top of the stack leads to an unseen child: popping it then marks a node. */
  ghost function Priority(seenNow: map<nat, bool>, stack: seq<Step>): nat
  {
    if |stack| > 0 && stack[|stack| - 1].1 in seenNow && !seenNow[stack[|stack| - 1].1] then 0 else 1
  }

  /** The bookkeeping of one iteration: the popped child is recorded when it is not yet seen. */
  ghost predicate Popped(stack: seq<Step>, seenNow: map<nat, bool>, added: seq<Step>,
                         seenNext: map<nat, bool>, addedNext: seq<Step>)
  {
    && |stack| > 0 && stack[|stack| - 1].1 in seenNow
    && if !seenNow[stack[|stack| - 1].1]
       then seenNext == seenNow[stack[|stack| - 1].1 := true] && addedNext == added + [stack[|stack| - 1]]
       else seenNext == seenNow && addedNext == added
  }

  ghost predicate MarksAdded(seen: map<nat, bool>, seenNow: map<nat, bool>, added: seq<Step>)
  {
    seenNow.Keys == seen.Keys && forall k :: k in seen ==> seenNow[k] == (seen[k] || k in Children(added))
  }

  /** The steps one iteration pushes: to every neighbour of the popped child that is not yet seen. */
  ghost predicate Pushed(g: Adjacency, stack: seq<Step>, seenNext: map<nat, bool>, pushed: seq<Step>)
    requires |stack| > 0
  {
    && stack[|stack| - 1].1 in g
    && (forall e :: e in pushed ==> e.0 == stack[|stack| - 1].1 && e.1 in g[e.0] && e.1 in seenNext && !seenNext[e.1])
    && (forall o :: o in g[stack[|stack| - 1].1] && o in seenNext && !seenNext[o] ==> o in Children(pushed))
  }

  /** One iteration of the traversal loop keeps its invariant. */
  lemma DfsStep(g: Adjacency, vertex: nat, seen: map<nat, bool>, seenNow: map<nat, bool>,
                added: seq<Step>, stack: seq<Step>, started: bool,
                seenNext: map<nat, bool>, addedNext: seq<Step>, pushed: seq<Step>)
    requires DfsInv(g, vertex, seen, seenNow, added, stack, started)
    requires Popped(stack, seenNow, added, seenNext, addedNext)
    requires Pushed(g, stack, seenNext, pushed)
    ensures DfsInv(g, vertex, seen, seenNext, addedNext, stack[..|stack| - 1] + pushed, true)
  {
    StepMarks(seen, seenNow, added, stack, seenNext, addedNext);
    StepOnce(seen, seenNow, added, stack, seenNext, addedNext);
    StepTree(g, vertex, seen, seenNow, added, stack, started, seenNext, addedNext);
    StepReach(g, vertex, seen, seenNow, added, stack, seenNext, addedNext, pushed);
    StepShape(g, vertex, seen, seenNow, added, stack, started, seenNext, addedNext, pushed);
    assert stack[|stack| - 1] in stack;
    DfsStepFrontier(g, vertex, seen, seenNow, added, stack, started, seenNext, addedNext, pushed);
  }

  lemma StepMarks(seen: map<nat, bool>, seenNow: map<nat, bool>, added: seq<Step>, stack: seq<Step>,
                  seenNext: map<nat, bool>, addedNext: seq<Step>)
    requires Popped(stack, seenNow, added, seenNext, addedNext) && MarksAdded(seen, seenNow, added)
    ensures MarksAdded(seen, seenNext, addedNext)
  {
    ChildrenConcat(added, [stack[|stack| - 1]]);
  }

  lemma StepOnce(seen: map<nat, bool>, seenNow: map<nat, bool>, added: seq<Step>, stack: seq<Step>,
                 seenNext: map<nat, bool>, addedNext: seq<Step>)
    requires Popped(stack, seenNow, added, seenNext, addedNext) && MarksAdded(seen, seenNow, added)
    requires RecordsOnce(added)
    ensures RecordsOnce(addedNext)
  {
    var c := stack[|stack| - 1].1;
    if !seenNow[c] {
      forall i | 0 <= i < |added|
        ensures added[i].1 != c
      {
        assert added[i] in added;
      }
    }
  }

  lemma StepTree(g: Adjacency, vertex: nat, seen: map<nat, bool>, seenNow: map<nat, bool>,
                 added: seq<Step>, stack: seq<Step>, started: bool,
                 seenNext: map<nat, bool>, addedNext: seq<Step>)
    requires Popped(stack, seenNow, added, seenNext, addedNext)
    requires RecordsTree(g, vertex, added)
    requires !started ==> stack == [(0, vertex)] && added == []
    requires started ==> forall e :: e in stack ==>
               e.0 in g && e.1 in g[e.0] && (e.0 == vertex || e.0 in Children(added))
    ensures RecordsTree(g, vertex, addedNext)
  {
    var top := stack[|stack| - 1];
    if addedNext != added {
      assert top in stack;
      forall i | 0 <= i < |added|
        ensures addedNext[..i] == added[..i]
      {
      }
      assert addedNext[..|added|] == added;
    }
  }

  lemma StepReach(g: Adjacency, vertex: nat, seen: map<nat, bool>, seenNow: map<nat, bool>,
                  added: seq<Step>, stack: seq<Step>,
                  seenNext: map<nat, bool>, addedNext: seq<Step>, pushed: seq<Step>)
    requires WellFormed(g) && seen.Keys == g.Keys
    requires Popped(stack, seenNow, added, seenNext, addedNext) && MarksAdded(seen, seenNow, added)
    requires Pushed(g, stack, seenNext, pushed)
    requires forall y :: y in Children(added) ==> y in seen && !seen[y] && Reachable(FreshEdges(g, seen), vertex, y)
    requires forall e :: e in stack ==> e.1 in g && (e.1 == vertex || !seen[e.1]) && Reachable(FreshEdges(g, seen), vertex, e.1)
    ensures forall y :: y in Children(addedNext) ==> y in seen && !seen[y] && Reachable(FreshEdges(g, seen), vertex, y)
    ensures forall e :: e in stack[..|stack| - 1] + pushed ==>
              e.1 in g && (e.1 == vertex || !seen[e.1]) && Reachable(FreshEdges(g, seen), vertex, e.1)
  {
    var top := stack[|stack| - 1];
    var c := top.1;
    var edge := FreshEdges(g, seen);
    assert top in stack;
    ChildrenConcat(added, [top]);
    forall e | e in pushed
      ensures e.1 in g && !seen[e.1] && Reachable(edge, vertex, e.1)
    {
      assert edge(c, e.1);
      ReachableStep(edge, vertex, c, e.1);
    }
  }

  lemma StepShape(g: Adjacency, vertex: nat, seen: map<nat, bool>, seenNow: map<nat, bool>,
                  added: seq<Step>, stack: seq<Step>, started: bool,
                  seenNext: map<nat, bool>, addedNext: seq<Step>, pushed: seq<Step>)
    requires seen.Keys == g.Keys && vertex in g
    requires Popped(stack, seenNow, added, seenNext, addedNext) && MarksAdded(seen, seenNow, added)
    requires Pushed(g, stack, seenNext, pushed)
    requires forall e :: e in stack ==> e.1 in g && (e.1 == vertex || !seen[e.1])
    requires !started ==> stack == [(0, vertex)] && added == []
    requires started ==> forall e :: e in stack ==>
               e.0 in g && e.1 in g[e.0] && (e.0 == vertex || e.0 in Children(added))
    requires started && !seen[vertex] ==> |added| > 0 && added[0] == (0, vertex)
    ensures forall e :: e in stack[..|stack| - 1] + pushed ==>
              e.0 in g && e.1 in g[e.0] && (e.0 == vertex || e.0 in Children(addedNext))
    ensures !seen[vertex] ==> |addedNext| > 0 && addedNext[0] == (0, vertex)
  {
    var top := stack[|stack| - 1];
    var c := top.1;
    assert top in stack;
    ChildrenConcat(added, [top]);
    assert c == vertex || c in Children(addedNext) by {
      if c != vertex && seenNow[c] {
        assert !seen[c];
      }
    }
    forall e | e in stack[..|stack| - 1]
      ensures e.0 in g && e.1 in g[e.0] && (e.0 == vertex || e.0 in Children(addedNext))
    {
      assert e in stack;
      assert started;
    }
  }

  lemma DfsStepFrontier(g: Adjacency, vertex: nat, seen: map<nat, bool>, seenNow: map<nat, bool>,
                        added: seq<Step>, stack: seq<Step>, started: bool,
                        seenNext: map<nat, bool>, addedNext: seq<Step>, pushed: seq<Step>)
    requires WellFormed(g) && seen.Keys == g.Keys
    requires Popped(stack, seenNow, added, seenNext, addedNext) && MarksAdded(seen, seenNext, addedNext)
    requires Pushed(g, stack, seenNext, pushed)
    requires !started ==> stack == [(0, vertex)] && added == []
    requires started ==> Frontier(g, seen, vertex, added, stack)
    ensures Frontier(g, seen, vertex, addedNext, stack[..|stack| - 1] + pushed)
  {
    var top := stack[|stack| - 1];
    var c := top.1;
    var rest := stack[..|stack| - 1];
    var edge := FreshEdges(g, seen);
    ChildrenPop(stack);
    ChildrenConcat(added, [top]);
    ChildrenConcat(rest, pushed);
    forall x, y | (x == vertex || x in Children(addedNext)) && edge(x, y)
      ensures y in Children(addedNext) || y in Children(rest + pushed)
    {
      if y == c {
        assert seenNext[c];
        assert y in Children(addedNext);
      } else if x == c {
        if !seenNext[y] {
          assert y in Children(pushed);
        }
      } else {
        assert started;
        assert y in Children(added) || y in Children(stack);
      }
    }
  }

  /**
   * What a traversal from `vertex` leaves behind: the steps it added record each
   * child once, form a tree from the start, begin with `(0, vertex)` when the
   * start was unseen, and their children are exactly the unseen nodes reachable
   * from the start through unseen nodes; those and only those become seen.
   */
  ghost predicate DfsResult(g: Adjacency, vertex: nat, seen: map<nat, bool>, seenOut: map<nat, bool>, added: seq<Step>)
    requires vertex in seen
  {
    && seenOut.Keys == seen.Keys
    && RecordsOnce(added) && RecordsTree(g, vertex, added)
    && (!seen[vertex] ==> |added| >= 1 && added[0] == (0, vertex))
    && (forall k :: k in seen ==> seenOut[k] == (seen[k] || k in Children(added)))
    && (forall y :: y in Children(added) <==> y in seen && !seen[y] && Reachable(FreshEdges(g, seen), vertex, y))
  }

  /** The loop starts from the seed step alone. */
  lemma DfsStart(g: Adjacency, vertex: nat, seen: map<nat, bool>)
    requires WellFormed(g) && vertex in g && seen.Keys == g.Keys
    ensures DfsInv(g, vertex, seen, seen, [], [(0, vertex)], false)
  {
    ReachableRefl(FreshEdges(g, seen), vertex);
  }

  /** When the stack runs empty, the recorded children are exactly the fresh nodes reachable from the start. */
  lemma DfsDone(g: Adjacency, vertex: nat, seen: map<nat, bool>, seenNow: map<nat, bool>, added: seq<Step>)
    requires DfsInv(g, vertex, seen, seenNow, added, [], true)
    ensures DfsResult(g, vertex, seen, seenNow, added)
  {
    var edge := FreshEdges(g, seen);
    var s := Children(added) + {vertex};
    assert Closed(edge, s) by {
      assert Frontier(g, seen, vertex, added, []);
    }
    forall y | y in seen && !seen[y] && Reachable(edge, vertex, y)
      ensures y in Children(added)
    {
      ClosedHoldsReachable(edge, s, vertex, y);
      if y == vertex {
        assert |added| > 0 && added[0] == (0, vertex);
        assert added[0] in added;
      }
    }
  }

  class JournalGraph {
    var graph: Adjacency

    ghost predicate Valid()
      reads this
    {
      WellFormed(graph)
    }

    /** The constructor from node data: entry `[source, ref1, ref2, ...]`. */
    constructor (nodeData: seq<seq<nat>>)
      requires EntriesNonEmpty(nodeData)
      ensures graph == Build(nodeData) && Valid()
    {
      graph := map[];
      new;
      var i := 0;
      while i < |nodeData|
        invariant 0 <= i <= |nodeData|
        invariant graph == Build(nodeData[..i]) && Valid()
      {
        var entry := nodeData[i];
        var source := entry[0];
        var j := 1;
        while j < |entry|
          invariant 1 <= j <= |entry|
          invariant graph == AddReferences(Build(nodeData[..i]), source, entry[1..j]) && Valid()
        {
          ghost var before := graph;
          var ok := AddEdge(source, entry[j]);
          WithEdgeWellFormed(before, source, entry[j]);
          assert entry[1..j + 1][..j - 1] == entry[1..j];
          j := j + 1;
        }
        assert nodeData[..i + 1][..i] == nodeData[..i];
        assert entry[1..j] == entry[1..];
        i := i + 1;
      }
      assert nodeData[..i] == nodeData;
    }

    /** `addEdge`: an id of 0 is rejected; otherwise `id2` becomes a key and is appended to `id1`'s list. */
    method AddEdge(id1: nat, id2: nat) returns (ok: bool)
      modifies this
      ensures ok <==> id1 != 0 && id2 != 0
      ensures graph == WithEdge(old(graph), id1, id2)
    {
      if id1 == 0 || id2 == 0 {
        return false;
      }
      if id2 !in graph {
        graph := graph[id2 := []];
      }
      graph := graph[id1 := (if id1 in graph then graph[id1] else []) + [id2]];
      return true;
    }

    /**
     * `dfs`: pops `(parent, child)` steps from a stack seeded with `(0, vertex)`,
     * records each child that is not yet seen, and pushes a step to every
     * neighbour of the child that is not yet seen.
     */
    method Dfs(vertex: nat, seen: map<nat, bool>, record: seq<Step>) returns (seenOut: map<nat, bool>, recordOut: seq<Step>)
      requires Valid() && vertex in graph && seen.Keys == graph.Keys
      ensures |recordOut| >= |record| && recordOut[..|record|] == record
      ensures DfsResult(graph, vertex, seen, seenOut, recordOut[|record|..])
    {
      seenOut := seen;
      recordOut := record;
      var stack: seq<Step> := [(0, vertex)];
      ghost var started := false;
      ghost var added: seq<Step> := [];
      DfsStart(graph, vertex, seen);
      while |stack| > 0
        invariant recordOut == record + added
        invariant DfsInv(graph, vertex, seen, seenOut, added, stack, started)
        decreases Unseen(seenOut), Priority(seenOut, stack), |stack|
      {
        seenOut, recordOut, stack, added := DfsIteration(vertex, seen, seenOut, recordOut, stack, record, added, started);
        started := true;
      }
      DfsDone(graph, vertex, seen, seenOut, added);
      assert recordOut[|record|..] == added && recordOut[..|record|] == record;
    }

    /** One pass of the traversal loop: pop a step, record its child if unseen, push its unseen neighbours. */
    method DfsIteration(vertex: nat, seen: map<nat, bool>, seenNow: map<nat, bool>, recordNow: seq<Step>,
                        stack: seq<Step>, ghost record: seq<Step>, ghost added: seq<Step>, ghost started: bool)
      returns (seenNext: map<nat, bool>, recordNext: seq<Step>, stackNext: seq<Step>, ghost addedNext: seq<Step>)
      requires DfsInv(graph, vertex, seen, seenNow, added, stack, started) && |stack| > 0
      requires recordNow == record + added
      ensures DfsInv(graph, vertex, seen, seenNext, addedNext, stackNext, true)
      ensures recordNext == record + addedNext
      ensures Unseen(seenNext) < Unseen(seenNow)
              || (Unseen(seenNext) == Unseen(seenNow)
                  && (Priority(seenNext, stackNext) < Priority(seenNow, stack)
                      || (Priority(seenNext, stackNext) == Priority(seenNow, stack) && |stackNext| < |stack|)))
    {
      var current := stack[|stack| - 1];
      assert current in stack;
      var popped := stack[..|stack| - 1];
      seenNext, recordNext, addedNext := seenNow, recordNow, added;
      if !seenNow[current.1] {
        seenNext := seenNow[current.1 := true];
        recordNext := recordNow + [current];
        addedNext := added + [current];
        assert current.1 in Unseen(seenNow) && current.1 !in Unseen(seenNext);
      }
      assert Popped(stack, seenNow, added, seenNext, addedNext);
      stackNext := PushUnseen(popped, current.1, graph[current.1], seenNext);
      ghost var pushed := stackNext[|popped|..];
      assert stackNext == popped + pushed;
      assert Pushed(graph, stack, seenNext, pushed);
      DfsStep(graph, vertex, seen, seenNow, added, stack, started, seenNext, addedNext, pushed);
      if |pushed| > 0 {
        assert stackNext[|stackNext| - 1] in pushed;
      }
    }

    /**
     * `getIdeaHistory`: nothing for an unknown source; otherwise the steps of a
     * traversal from the source with every paper unseen.
     */
    method GetIdeaHistory(source: nat) returns (record: seq<Step>)
      requires Valid()
      ensures source !in graph ==> record == []
      ensures source in graph ==>
        && |record| >= 1 && record[0] == (0, source)
        && RecordsOnce(record) && RecordsTree(graph, source, record)
        && forall y :: y in Children(record) <==> Reachable(Edges(graph), source, y)
    {
      if source !in graph {
        return [];
      }
      var seen: map<nat, bool> := map[];
      var keys := graph.Keys;
      while keys != {}
        invariant seen.Keys + keys == graph.Keys && seen.Keys !! keys
        invariant forall k :: k in seen ==> !seen[k]
        decreases keys
      {
        var k := Pick(keys);
        seen := seen[k := false];
        keys := keys - {k};
      }
      var seenOut;
      seenOut, record := Dfs(source, seen, []);
      assert record[0..] == record;
      forall y
        ensures Reachable(FreshEdges(graph, seen), source, y) <==> Reachable(Edges(graph), source, y)
      {
        if Reachable(Edges(graph), source, y) {
          ReachableMono(Edges(graph), FreshEdges(graph, seen), source, y);
        }
        if Reachable(FreshEdges(graph, seen), source, y) {
          ReachableMono(FreshEdges(graph, seen), Edges(graph), source, y);
        }
      }
      forall y | Reachable(Edges(graph), source, y)
        ensures y in seen && !seen[y]
      {
        ReachableInGraph(source, y);
      }
    }

    /** Nodes reachable from a key are keys. */
    lemma ReachableInGraph(source: nat, y: nat)
      requires Valid() && source in graph && Reachable(Edges(graph), source, y)
      ensures y in graph
    {
      ClosedHoldsReachable(Edges(graph), graph.Keys, source, y);
    }
  }
}
