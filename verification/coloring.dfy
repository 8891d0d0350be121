/** The colouring accessors of a `hypercube` object: resetting every
    colour to 0, setting one edge's colour, and reading it back.  Each
    returns the updated object; nothing but the colouring changes. */
module Coloring {
  import opened PyDict
  import opened Edges
  import opened Cube

  /** resetColoring: every key of the colouring keeps its place and gets
      colour 0. */
  function ResetColoring(h: Hypercube): (r: Hypercube)
    ensures r.coloring.Keys == h.coloring.Keys
    ensures forall e :: e in r.coloring ==> r.coloring[e] == 0
    ensures r.n == h.n && r.vertices == h.vertices && r.edges == h.edges
    ensures r.edgeAsVertexDirection == h.edgeAsVertexDirection
  {
    h.(coloring := map e | e in h.coloring :: 0)
  }

  /** setEdgeColor: a dictionary update, so an edge that is not yet a key
      becomes one. */
  function SetEdgeColor(h: Hypercube, edge: Edge, color: int): (r: Hypercube)
    ensures r.coloring.Keys == h.coloring.Keys + {edge}
    ensures r.coloring[edge] == color
    ensures forall e :: e in h.coloring && e != edge ==> r.coloring[e] == h.coloring[e]
    ensures r.n == h.n && r.vertices == h.vertices && r.edges == h.edges
    ensures r.edgeAsVertexDirection == h.edgeAsVertexDirection
  {
    h.(coloring := h.coloring[edge := color])
  }

  /** getEdgeColor: the edge's colour, or None where the Python code
      raises KeyError. */
  function GetEdgeColor(h: Hypercube, edge: Edge): (r: Option<int>)
    ensures r.Some? <==> edge in h.coloring
    ensures r.Some? ==> r.value == h.coloring[edge]
  {
    Lookup(h.coloring, edge)
  }

  // ---------------------------------------------------------------------
  // How the accessors combine
  // ---------------------------------------------------------------------

  /** Reading an edge just set gives the colour it was set to. */
  lemma SetThenGet(h: Hypercube, edge: Edge, color: int)
    ensures GetEdgeColor(SetEdgeColor(h, edge, color), edge) == Some(color)
  {
  }

  /** Setting one edge leaves what every other edge reads unchanged. */
  lemma SetLeavesOthers(h: Hypercube, edge: Edge, color: int, other: Edge)
    requires other != edge
    ensures GetEdgeColor(SetEdgeColor(h, edge, color), other) == GetEdgeColor(h, other)
  {
  }

  /** After a reset every edge with a colour reads 0, and an unknown edge
      is still unknown. */
  lemma ResetThenGet(h: Hypercube, edge: Edge)
    ensures edge in h.coloring ==> GetEdgeColor(ResetColoring(h), edge) == Some(0)
    ensures edge !in h.coloring ==> GetEdgeColor(ResetColoring(h), edge) == None
  {
  }

  /** Resetting twice is resetting once. */
  lemma ResetIdempotent(h: Hypercube)
    ensures ResetColoring(ResetColoring(h)) == ResetColoring(h)
  {
  }

  /** A reset undoes any colour set on an edge that was already a key. */
  lemma ResetForgetsSet(h: Hypercube, edge: Edge, color: int)
    requires edge in h.coloring
    ensures ResetColoring(SetEdgeColor(h, edge, color)) == ResetColoring(h)
  {
    assert (h.coloring[edge := color]).Keys == h.coloring.Keys;
  }

  /** A freshly constructed hypercube is already reset. */
  lemma ConstructedIsReset(h: Hypercube)
    requires forall e :: e in h.coloring ==> h.coloring[e] == 0
    ensures ResetColoring(h) == h
  {
    assert (map e | e in h.coloring :: 0) == h.coloring;
  }

  /** Resetting keeps the colouring keyed by exactly the edges. */
  lemma ResetPreservesValid(h: Hypercube)
    requires Valid(h)
    ensures Valid(ResetColoring(h))
  {
  }

  /** Colouring an edge of the cube keeps the colouring keyed by exactly
      the edges; colouring anything else would add a key. */
  lemma SetPreservesValid(h: Hypercube, edge: Edge, color: int)
    requires Valid(h)
    ensures Valid(SetEdgeColor(h, edge, color)) <==> edge in h.edges
  {
    if edge !in h.edges {
      assert edge in SetEdgeColor(h, edge, color).coloring;
    }
  }
}
