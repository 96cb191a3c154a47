// The four topology mutations of the simulator, as functions on the
// adjacency structure. The Network class applies them in place.

module Topology {
  import opened Walks

  /** `add_router`: a new node with no outgoing links. */
  function AddNode(g: Graph, x: string): (r: Graph)
    requires x !in g
    ensures r.Keys == g.Keys + {x} && r[x] == map[]
    ensures forall u, v :: HasEdge(r, u, v) <==> HasEdge(g, u, v)
    ensures forall u, v | HasEdge(g, u, v) :: HasEdge(r, u, v) && r[u][v] == g[u][v]
    ensures EndpointsKnown(g) ==> EndpointsKnown(r)
  {
    g[x := map[]]
  }

  /** `remove_router`: drop the node, its outgoing links and every link into it. */
  function RemoveNode(g: Graph, x: string): (r: Graph)
    ensures r.Keys == g.Keys - {x}
    ensures forall u, v :: HasEdge(r, u, v) <==> HasEdge(g, u, v) && u != x && v != x
    ensures forall u, v | HasEdge(r, u, v) :: HasEdge(g, u, v) && r[u][v] == g[u][v]
    ensures EndpointsKnown(g) ==> EndpointsKnown(r)
  {
    map u | u in g && u != x :: g[u] - {x}
  }

  /** `add_link`: create or overwrite the one directed link u -> v. */
  function SetEdge(g: Graph, u: string, v: string, c: int): (r: Graph)
    requires u in g
    ensures r.Keys == g.Keys && HasEdge(r, u, v) && r[u][v] == c
    ensures forall a, b | a != u || b != v :: HasEdge(r, a, b) <==> HasEdge(g, a, b)
    ensures forall a, b | (a != u || b != v) && HasEdge(g, a, b) :: HasEdge(r, a, b) && r[a][b] == g[a][b]
    ensures EndpointsKnown(g) && v in g ==> EndpointsKnown(r)
  {
    g[u := g[u][v := c]]
  }

  /** `remove_link`: delete the one directed link u -> v. */
  function DeleteEdge(g: Graph, u: string, v: string): (r: Graph)
    requires HasEdge(g, u, v)
    ensures r.Keys == g.Keys && !HasEdge(r, u, v)
    ensures forall a, b | a != u || b != v :: HasEdge(r, a, b) <==> HasEdge(g, a, b)
    ensures forall a, b | HasEdge(r, a, b) :: HasEdge(g, a, b) && r[a][b] == g[a][b]
    ensures EndpointsKnown(g) ==> EndpointsKnown(r)
  {
    g[u := g[u] - {v}]
  }

  /** Adding a router and removing it again restores the topology. */
  lemma AddThenRemoveNode(g: Graph, x: string)
    requires EndpointsKnown(g) && x !in g
    ensures RemoveNode(AddNode(g, x), x) == g
  {
    var r := RemoveNode(AddNode(g, x), x);
    forall u | u in g ensures r[u] == g[u] {
      assert forall v | v in g[u] :: HasEdge(g, u, v);
      assert g[u] - {x} == g[u];
    }
  }

  /** A fresh link removed again leaves the topology as it was. */
  lemma SetThenDeleteEdge(g: Graph, u: string, v: string, c: int)
    requires u in g && !HasEdge(g, u, v)
    ensures DeleteEdge(SetEdge(g, u, v, c), u, v) == g
  {
    assert g[u][v := c] - {v} == g[u];
  }

  /** Removing a link and adding it back with its old cost restores the topology. */
  lemma DeleteThenSetEdge(g: Graph, u: string, v: string)
    requires HasEdge(g, u, v)
    ensures SetEdge(DeleteEdge(g, u, v), u, v, g[u][v]) == g
  {
    assert (g[u] - {v})[v := g[u][v]] == g[u];
  }

  /** A second `add_link` for the same ordered pair only overwrites the cost. */
  lemma SetEdgeOverwrites(g: Graph, u: string, v: string, c1: int, c2: int)
    requires u in g
    ensures SetEdge(SetEdge(g, u, v, c1), u, v, c2) == SetEdge(g, u, v, c2)
  {
    var g1 := g[u := g[u][v := c1]];
    assert g1[u][v := c2] == g[u][v := c2];
    assert g1[u := g1[u][v := c2]] == g[u := g[u][v := c2]];
  }

  /**
   * A graph that lacks x and whose every row is the old row without the link
   * to x is exactly `RemoveNode`; this is what the in-place scan produces.
   */
  lemma RemoveNodeRowwise(g: Graph, x: string, r: Graph)
    requires r.Keys == g.Keys - {x}
    requires forall u | u in r :: r[u] == g[u] - {x}
    ensures r == RemoveNode(g, x)
  {
  }

  /** Deleting an absent key leaves a row as it was. */
  lemma RowWithoutAbsent(row: map<string, int>, x: string)
    requires x !in row
    ensures row - {x} == row
  {
  }
}
