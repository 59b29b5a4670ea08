/**
  The read-only view of an undirected networkx graph that the colorer works on:
  the nodes in their insertion order and, for each node, its neighbours in their
  insertion order.
 */
module Graph {

  datatype Graph = Graph(nodes: seq<int>, adj: map<int, seq<int>>) {

    /** `v` is a neighbour of `u`. */
    predicate Adjacent(u: int, v: int) {
      u in adj && v in adj[u]
    }

    /**
      The shape every graph has: each node appears once, the adjacency has an
      entry for exactly the nodes, and adjacency is symmetric and has no
      self-loops.
     */
    ghost predicate Valid() {
      && (forall i, j :: 0 <= i < j < |nodes| ==> nodes[i] != nodes[j])
      && (forall v :: v in adj <==> v in nodes)
      && (forall u, v :: Adjacent(u, v) ==> Adjacent(v, u) && u != v)
    }
  }

  /** The position of `v` in the node order. */
  function IndexOf(nodes: seq<int>, v: int): (i: nat)
    requires v in nodes
    ensures i < |nodes| && nodes[i] == v
    ensures forall j :: 0 <= j < i ==> nodes[j] != v
  {
    if nodes[0] == v then 0 else 1 + IndexOf(nodes[1..], v)
  }

  /** Every neighbour of a node is itself a node of the graph. */
  lemma NeighborsAreNodes(g: Graph, u: int)
    requires g.Valid() && u in g.adj
    ensures forall t :: 0 <= t < |g.adj[u]| ==> g.adj[u][t] in g.nodes
  {
    forall t | 0 <= t < |g.adj[u]| ensures g.adj[u][t] in g.nodes {
      assert g.Adjacent(u, g.adj[u][t]);
    }
  }
}
