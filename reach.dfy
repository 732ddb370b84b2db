/**
 * Paths and reachability over an edge relation, shared by the graph
 * traversals.  `edge(a, b)` says that the traversal may step from `a` to `b`.
 */
module Reach {

  /** A non-empty walk whose consecutive nodes are joined by edges. */
  ghost predicate IsPath<K(!new)>(edge: (K, K) -> bool, p: seq<K>)
  {
    |p| >= 1 && forall i :: 0 <= i < |p| - 1 ==> edge(p[i], p[i + 1])
  }

  ghost predicate Reachable<K(!new)>(edge: (K, K) -> bool, a: K, b: K)
  {
    exists p :: IsPath(edge, p) && p[0] == a && p[|p| - 1] == b
  }

  lemma ReachableRefl<K(!new)>(edge: (K, K) -> bool, a: K)
    ensures Reachable(edge, a, a)
  {
    assert IsPath(edge, [a]);
  }

  lemma ReachableStep<K(!new)>(edge: (K, K) -> bool, a: K, b: K, c: K)
    requires Reachable(edge, a, b) && edge(b, c)
    ensures Reachable(edge, a, c)
  {
    var p :| IsPath(edge, p) && p[0] == a && p[|p| - 1] == b;
    var q := p + [c];
    assert forall i :: 0 <= i < |q| - 1 ==> q[i] == p[i];
    assert IsPath(edge, q);
  }

  /** An edge followed by a path is a path. */
  lemma ReachablePrepend<K(!new)>(edge: (K, K) -> bool, a: K, b: K, c: K)
    requires edge(a, b) && Reachable(edge, b, c)
    ensures Reachable(edge, a, c)
  {
    var p :| IsPath(edge, p) && p[0] == b && p[|p| - 1] == c;
    var q := [a] + p;
    assert forall i :: 1 <= i < |q| ==> q[i] == p[i - 1];
    assert IsPath(edge, q);
  }

  lemma ReachableTrans<K(!new)>(edge: (K, K) -> bool, a: K, b: K, c: K)
    requires Reachable(edge, a, b) && Reachable(edge, b, c)
    ensures Reachable(edge, a, c)
  {
    var p :| IsPath(edge, p) && p[0] == a && p[|p| - 1] == b;
    var q :| IsPath(edge, q) && q[0] == b && q[|q| - 1] == c;
    var r := p + q[1..];
    assert forall i :: 0 <= i < |p| ==> r[i] == p[i];
    assert forall i :: |p| <= i < |r| ==> r[i] == q[i - |p| + 1];
    assert IsPath(edge, r);
  }

  /** `s` contains every node that an edge leaves from a node of `s` for. */
  ghost predicate Closed<K(!new)>(edge: (K, K) -> bool, s: set<K>)
  {
    forall x, y :: x in s && edge(x, y) ==> y in s
  }

  /** A closed set that holds the start holds every node reachable from it. */
  lemma ClosedHoldsReachable<K(!new)>(edge: (K, K) -> bool, s: set<K>, a: K, b: K)
    requires a in s && Closed(edge, s) && Reachable(edge, a, b)
    ensures b in s
  {
    var p :| IsPath(edge, p) && p[0] == a && p[|p| - 1] == b;
    PathInClosed(edge, s, p);
  }

  lemma {:induction false} PathInClosed<K(!new)>(edge: (K, K) -> bool, s: set<K>, p: seq<K>)
    requires IsPath(edge, p) && p[0] in s && Closed(edge, s)
    ensures p[|p| - 1] in s
  {
    if |p| > 1 {
      var q := p[..|p| - 1];
      assert IsPath(edge, q);
      PathInClosed(edge, s, q);
      assert edge(q[|q| - 1], p[|p| - 1]);
    }
  }

  /** Reachability along a sub-relation implies reachability along the larger one. */
  lemma ReachableMono<K(!new)>(small: (K, K) -> bool, large: (K, K) -> bool, a: K, b: K)
    requires forall x, y :: small(x, y) ==> large(x, y)
    requires Reachable(small, a, b)
    ensures Reachable(large, a, b)
  {
    var p :| IsPath(small, p) && p[0] == a && p[|p| - 1] == b;
    assert IsPath(large, p);
  }
}
