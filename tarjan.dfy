/**
 * The bookkeeping shared by the two strongly-connected-component searches:
 * each node's discovery number, low link and on-stack flag, the stack of
 * nodes of components not yet complete, the next discovery number and the
 * components found so far.  A node the map does not hold reads as a
 * default-constructed entry, which is what the source's `operator[]` inserts.
 */
module Tarjan {
  import opened Wrappers
  import opened Reach

  /** `tarjans_t`. */
  datatype Entry = Entry(disc: int, lowLink: int, onStack: bool)

  /** The value `unvisited`. */
  const Unvisited: int := -1

  /** A default-constructed `tarjans_t`. */
  const Fresh: Entry := Entry(Unvisited, Unvisited, false)

  /** The state the searches share by reference: `tarjans_data`, `scc_stack` (top last), `id` and `ans`. */
  datatype SearchState<K> = SearchState(data: map<K, Entry>, stack: seq<K>, id: int, ans: seq<seq<K>>)

  function Get<K>(data: map<K, Entry>, k: K): Entry
  {
    if k in data then data[k] else Fresh
  }

  predicate Visited<K>(data: map<K, Entry>, k: K)
  {
    Get(data, k).disc != Unvisited
  }

  /** `std::min`. */
  function Min(a: int, b: int): (r: int)
    ensures r <= a && r <= b && (r == a || r == b)
  {
    if b < a then b else a
  }

  ghost predicate Distinct<K>(s: seq<K>)
  {
    forall i, j :: 0 <= i < j < |s| ==> s[i] != s[j]
  }

  /** An entry is either untouched, or numbered below `id` with a low link between -1 and its number. */
  ghost predicate EntryOk(e: Entry, id: int)
  {
    e == Fresh || (0 <= e.disc < id && -1 <= e.lowLink <= e.disc)
  }

  /**
   * What every step of both searches keeps: discovery numbers are distinct
   * and below `id`; a node is flagged on the stack exactly when it is on the
   * stack, which holds visited nodes once each; every reported component
   * has more than one node, holds each node once, shares no node with
   * another component and holds only visited nodes off the stack.
   */
  ghost predicate Consistent<K>(s: SearchState<K>)
  {
    NumbersOk(s.data, s.id) && StackOk(s.data, s.stack) && AnswersOk(s.data, s.ans)
  }

  ghost predicate NumbersOk<K>(data: map<K, Entry>, id: int)
  {
    && id >= 0
    && (forall k :: k in data ==> EntryOk(data[k], id))
    && (forall a, b :: a in data && b in data && a != b && data[a].disc != Unvisited ==> data[a].disc != data[b].disc)
  }

  ghost predicate StackOk<K>(data: map<K, Entry>, stack: seq<K>)
  {
    && (forall k :: k in data ==> (data[k].onStack <==> k in stack))
    && (forall k :: k in stack ==> k in data && data[k].disc != Unvisited)
    && Distinct(stack)
  }

  ghost predicate AnswersOk<K>(data: map<K, Entry>, ans: seq<seq<K>>)
  {
    && (forall i :: 0 <= i < |ans| ==> |ans[i]| > 1 && Distinct(ans[i]))
    && (forall i, n :: 0 <= i < |ans| && n in ans[i] ==> n in data && data[n].disc != Unvisited && !data[n].onStack)
    && (forall i, j, n :: 0 <= i < j < |ans| && n in ans[i] ==> n !in ans[j])
  }

  /** Every entry visited in `before` is still there, unchanged, in `after`. */
  ghost predicate Keeps<K>(before: map<K, Entry>, after: map<K, Entry>)
  {
    forall k :: k in before && before[k].disc != Unvisited ==> k in after && after[k] == before[k]
  }

  /** Every component's nodes are reachable from its last node, the one whose search completed it. */
  ghost predicate Rooted<K(!new)>(edge: (K, K) -> bool, ans: seq<seq<K>>)
  {
    forall i, n :: 0 <= i < |ans| && |ans[i]| > 0 && n in ans[i] ==> Reachable(edge, ans[i][|ans[i]| - 1], n)
  }

  /** Appending a component whose nodes are all reachable from its last node keeps the components rooted. */
  lemma RootedAppend<K(!new)>(edge: (K, K) -> bool, ans: seq<seq<K>>, component: seq<K>)
    requires Rooted(edge, ans) && |component| > 0
    requires forall n :: n in component ==> Reachable(edge, component[|component| - 1], n)
    ensures Rooted(edge, ans + [component])
  {
    var all := ans + [component];
    forall i, n | 0 <= i < |all| && |all[i]| > 0 && n in all[i]
      ensures Reachable(edge, all[i][|all[i]| - 1], n)
    {
      if i < |ans| {
        assert all[i] == ans[i];
      }
    }
  }

  /** Every node numbered in `after` but not in `before` got a number from `from` on and is reachable from `root`. */
  ghost predicate NewlyReached<K(!new)>(edge: (K, K) -> bool, before: map<K, Entry>, after: map<K, Entry>, root: K, from: int)
  {
    forall k :: k in after && after[k].disc != Unvisited && !Visited(before, k) ==>
      from <= after[k].disc && Reachable(edge, root, k)
  }

  /** The stack only grows by nodes unvisited in `s`, and the components only by new ones. */
  ghost predicate Grows<K>(s: SearchState<K>, t: SearchState<K>)
  {
    && |t.stack| >= |s.stack| && t.stack[..|s.stack|] == s.stack
    && (forall j :: |s.stack| <= j < |t.stack| ==> !Visited(s.data, t.stack[j]))
    && |t.ans| >= |s.ans| && t.ans[..|s.ans|] == s.ans
  }

  /** What a child's search reached is reachable through the edge to the child. */
  lemma ChildReached<K(!new)>(edge: (K, K) -> bool, d0: map<K, Entry>, before: map<K, Entry>, after: map<K, Entry>,
                              current: K, adj: K, from: int, id: int)
    requires edge(current, adj) && from <= id
    requires Keeps(d0, before) && NewlyReached(edge, d0, before, current, from)
    requires Keeps(before, after) && NewlyReached(edge, before, after, adj, id)
    ensures Keeps(d0, after) && NewlyReached(edge, d0, after, current, from)
  {
    forall k | k in after && after[k].disc != Unvisited && !Visited(d0, k)
      ensures from <= after[k].disc && Reachable(edge, current, k)
    {
      if !Visited(before, k) {
        ReachablePrepend(edge, current, adj, k);
      }
    }
  }

  lemma GrowsTrans<K>(s: SearchState<K>, t: SearchState<K>, r: SearchState<K>)
    requires Grows(s, t) && Grows(t, r) && Keeps(s.data, t.data)
    ensures Grows(s, r) && (|t.stack| > |s.stack| ==> r.stack[|s.stack|] == t.stack[|s.stack|])
  {
    assert r.stack[..|t.stack|] == t.stack;
    assert r.stack[..|s.stack|] == s.stack;
    assert r.ans[..|s.ans|] == s.ans;
  }

  /** Every node starts unvisited: the initialisation loop of `tarjansSCC`. */
  method InitData<K>(keys: set<K>) returns (data: map<K, Entry>)
    ensures data.Keys == keys && forall k :: k in data ==> data[k] == Fresh
  {
    data := map[];
    var remaining := keys;
    while remaining != {}
      invariant remaining <= keys && data.Keys == keys - remaining
      invariant forall k :: k in data ==> data[k] == Fresh
      decreases remaining
    {
      var k := Pick(remaining);
      data := data[k := Fresh];
      remaining := remaining - {k};
    }
  }

  lemma StartConsistent<K>(data: map<K, Entry>)
    requires forall k :: k in data ==> data[k] == Fresh
    ensures Consistent(SearchState(data, [], 0, []))
  {
  }

  /** Numbering `current` and pushing it keeps the bookkeeping consistent and every earlier entry. */
  lemma VisitConsistent<K>(s: SearchState<K>, current: K)
    requires Consistent(s) && !Visited(s.data, current)
    ensures Consistent(SearchState(s.data[current := Entry(s.id, s.id, true)], s.stack + [current], s.id + 1, s.ans))
    ensures Keeps(s.data, s.data[current := Entry(s.id, s.id, true)])
  {
    var data := s.data[current := Entry(s.id, s.id, true)];
    var stack := s.stack + [current];
    assert current !in s.stack;
    forall i, j | 0 <= i < j < |stack|
      ensures stack[i] != stack[j]
    {
      if j == |stack| - 1 {
        assert stack[i] in s.stack;
      }
    }
    forall k | k in data
      ensures EntryOk(data[k], s.id + 1)
    {
    }
  }

  /** Lowering the low link of a visited node to at least -1 keeps the bookkeeping consistent. */
  lemma LowerConsistent<K>(s: SearchState<K>, current: K, x: int)
    requires Consistent(s) && current in s.data && s.data[current].disc != Unvisited && x >= -1
    ensures Consistent(s.(data := s.data[current := s.data[current].(lowLink := Min(s.data[current].lowLink, x))]))
  {
    var data := s.data[current := s.data[current].(lowLink := Min(s.data[current].lowLink, x))];
    forall k | k in data
      ensures EntryOk(data[k], s.id)
    {
    }
  }

  /**
   * The pop loop took `component`, top first, off `stack` down to and
   * including `current`, and cleared the on-stack flag of each node it took.
   */
  ghost predicate Popped<K>(data: map<K, Entry>, stack: seq<K>, current: K,
                            dataOut: map<K, Entry>, stackOut: seq<K>, component: seq<K>)
  {
    && |stackOut| < |stack| && stackOut == stack[..|stackOut|] && stack[|stackOut|] == current
    && |component| == |stack| - |stackOut|
    && (forall j :: 0 <= j < |component| ==> component[j] == stack[|stack| - 1 - j])
    && dataOut.Keys == data.Keys
    && (forall k :: k in data ==> dataOut[k] == if k in component then data[k].(onStack := false) else data[k])
  }

  /** The pop takes only nodes numbered since `s`, so it keeps every entry numbered before `s`. */
  lemma PopKeeps<K(!new)>(edge: (K, K) -> bool, s: SearchState<K>, t: SearchState<K>, current: K,
                          dataOut: map<K, Entry>, stackOut: seq<K>, component: seq<K>)
    requires Popped(t.data, t.stack, current, dataOut, stackOut, component)
    requires Grows(s, t) && |stackOut| == |s.stack| && Keeps(s.data, t.data)
    requires NewlyReached(edge, s.data, t.data, current, s.id)
    ensures Keeps(s.data, dataOut) && NewlyReached(edge, s.data, dataOut, current, s.id)
  {
    forall k | k in component
      ensures !Visited(s.data, k)
    {
      var j :| 0 <= j < |component| && component[j] == k;
      assert t.stack[|t.stack| - 1 - j] == k;
    }
  }

  /** Popping a component, and reporting it if it has more than one node, keeps the bookkeeping consistent. */
  lemma PopConsistent<K>(s: SearchState<K>, current: K, dataOut: map<K, Entry>, stackOut: seq<K>, component: seq<K>)
    requires Consistent(s) && Popped(s.data, s.stack, current, dataOut, stackOut, component)
    ensures Consistent(SearchState(dataOut, stackOut, s.id, if |component| > 1 then s.ans + [component] else s.ans))
    ensures component[|component| - 1] == current
  {
    assert forall j :: |stackOut| <= j < |s.stack| ==> s.stack[j] == component[|s.stack| - 1 - j];
    assert forall n :: n in component <==> exists j :: |stackOut| <= j < |s.stack| && s.stack[j] == n;
    PopNumbers(s, current, dataOut, stackOut, component);
    PopStack(s, current, dataOut, stackOut, component);
    PopAnswers(s, current, dataOut, stackOut, component);
  }

  lemma PopNumbers<K>(s: SearchState<K>, current: K, dataOut: map<K, Entry>, stackOut: seq<K>, component: seq<K>)
    requires Consistent(s) && Popped(s.data, s.stack, current, dataOut, stackOut, component)
    ensures NumbersOk(dataOut, s.id)
  {
    forall k | k in dataOut
      ensures EntryOk(dataOut[k], s.id)
    {
      assert EntryOk(s.data[k], s.id);
      if k in component {
        assert k in s.stack;
      }
    }
  }

  lemma PopStack<K>(s: SearchState<K>, current: K, dataOut: map<K, Entry>, stackOut: seq<K>, component: seq<K>)
    requires Consistent(s) && Popped(s.data, s.stack, current, dataOut, stackOut, component)
    requires forall n :: n in component <==> exists j :: |stackOut| <= j < |s.stack| && s.stack[j] == n
    ensures StackOk(dataOut, stackOut)
  {
    var m := |stackOut|;
    forall k | k in dataOut
      ensures dataOut[k].onStack <==> k in stackOut
    {
      if k in component {
        var j :| m <= j < |s.stack| && s.stack[j] == k;
        forall j' | 0 <= j' < m
          ensures stackOut[j'] != k
        {
          assert s.stack[j'] == stackOut[j'];
        }
      } else if k in s.stack {
        var j :| 0 <= j < |s.stack| && s.stack[j] == k;
        assert forall j :: m <= j < |s.stack| ==> s.stack[j] in component;
        assert stackOut[j] == k;
      }
    }
    forall k | k in stackOut
      ensures k in dataOut && dataOut[k].disc != Unvisited
    {
      var j :| 0 <= j < m && stackOut[j] == k;
      assert s.stack[j] == k;
    }
  }

  lemma PopAnswers<K>(s: SearchState<K>, current: K, dataOut: map<K, Entry>, stackOut: seq<K>, component: seq<K>)
    requires Consistent(s) && Popped(s.data, s.stack, current, dataOut, stackOut, component)
    requires forall n :: n in component <==> exists j :: |stackOut| <= j < |s.stack| && s.stack[j] == n
    ensures AnswersOk(dataOut, if |component| > 1 then s.ans + [component] else s.ans)
  {
    var m := |stackOut|;
    forall i, j | 0 <= i < j < |component|
      ensures component[i] != component[j]
    {
      assert component[i] == s.stack[|s.stack| - 1 - i];
    }
    var ans := if |component| > 1 then s.ans + [component] else s.ans;
    forall i, n | 0 <= i < |ans| && n in ans[i]
      ensures n in dataOut && dataOut[n].disc != Unvisited && !dataOut[n].onStack
    {
      if i == |s.ans| {
        var j :| m <= j < |s.stack| && s.stack[j] == n;
      }
    }
    assert forall n :: n in component ==> n in s.stack;
    forall i, j, n | 0 <= i < j < |ans| && n in ans[i]
      ensures n !in ans[j]
    {
    }
  }
}
