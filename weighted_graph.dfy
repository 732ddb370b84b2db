/**
 * The author graph's weighted edge lists, shared by the shortest-path search
 * and the uncut strongly-connected-components search.  Each author id maps to
 * the edges that leave it; weights are integers, since the searches only
 * compare them.
 */
module WeightedGraph {
  import opened Reach

  datatype WeightedEdge = WeightedEdge(weight: int, source: nat, destination: nat)

  type EdgeLists = map<nat, seq<WeightedEdge>>

  /** Every edge listed under `k` leaves `k`. */
  ghost predicate SourcesOk(g: EdgeLists)
  {
    forall k, e :: k in g && e in g[k] ==> e.source == k
  }

  /** Every edge listed under `k` leaves `k` and arrives at a node of the graph. */
  ghost predicate WellFormed(g: EdgeLists)
  {
    SourcesOk(g) && forall k, e :: k in g && e in g[k] ==> e.destination in g
  }

  /** Some edge listed under `a` arrives at `b`. */
  ghost predicate HasEdge(g: EdgeLists, a: nat, b: nat)
  {
    a in g && exists e :: e in g[a] && e.destination == b
  }

  ghost function Edges(g: EdgeLists): (nat, nat) -> bool
  {
    (a: nat, b: nat) => HasEdge(g, a, b)
  }
}
