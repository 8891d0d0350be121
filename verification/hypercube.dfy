/** Construction of a `hypercube` object: its vertex list and its three
    tables (edge to direction, edge to colour, and (vertex, direction) to
    edge).  The methods follow the loops of the constructor; the
    predicates below say what the finished tables hold. */
module Cube {
  import opened Bits
  import opened PyDict
  import opened Edges

  /** The number of edges along the first k directions of the n-cube,
      counted direction by direction. */
  function EdgesAlongFirst(k: nat, n: nat): nat
    requires k <= n
  {
    if k == 0 then 0 else EdgesAlongFirst(k - 1, n) + Pow2(n - 1)
  }

  /** Each of the k directions contributes 2^(n-1) edges. */
  lemma {:induction false} EdgesAlongFirstCount(k: nat, n: nat)
    requires 0 < k <= n
    ensures EdgesAlongFirst(k, n) == k * Pow2(n - 1)
  {
    if k > 1 {
      EdgesAlongFirstCount(k - 1, n);
      MulSucc(k - 1, Pow2(n - 1));
    }
  }

  /** The fields of a `hypercube` object; `getVertices`, `getEdges` and
      `getColoring` return `vertices`, `edges` and `coloring`. */
  datatype Hypercube = Hypercube(
    n: nat,
    vertices: seq<Vertex>,
    edges: map<Edge, int>,
    coloring: map<Edge, int>,
    edgeAsVertexDirection: map<(Vertex, int), Edge>)

  /** vertices[i] is the n-bit rendering of i, for every i below 2^n. */
  ghost predicate VertexList(n: nat, vertices: seq<Vertex>) {
    && |vertices| == Pow2(n)
    && forall i :: 0 <= i < |vertices| ==> IsVertex(vertices[i], n) && Value(vertices[i]) == i
  }

  /** edges holds exactly the edges of the n-cube along the directions
      below k, each mapped to its direction. */
  ghost predicate EdgesBelow(n: nat, k: nat, edges: map<Edge, int>) {
    && k <= n
    && (forall e :: e in edges ==> 0 <= edges[e] < k && IsEdge(e, n, edges[e]))
    && (forall e, d :: 0 <= d < k && IsEdge(e, n, d) ==> e in edges)
  }

  /** byVertexDirection is defined exactly on the pairs (v, d) of an
      n-cube vertex and a direction below k, and gives the edge through v
      along d. */
  ghost predicate LookupBelow(n: nat, k: nat, byVertexDirection: map<(Vertex, int), Edge>) {
    && k <= n
    && (forall key :: key in byVertexDirection ==>
          && 0 <= key.1 < k && IsVertex(key.0, n)
          && byVertexDirection[key] == EdgeFromVertexDirection(key.0, n, key.1))
    && (forall v, d :: 0 <= d < k && IsVertex(v, n) ==> (v, d) in byVertexDirection)
  }

  /** The state the constructor leaves, apart from the colour values:
      the colouring has a key for every edge and for nothing else. */
  ghost predicate Valid(h: Hypercube) {
    && VertexList(h.n, h.vertices)
    && EdgesBelow(h.n, h.n, h.edges)
    && h.coloring.Keys == h.edges.Keys
    && LookupBelow(h.n, h.n, h.edgeAsVertexDirection)
  }

  // ---------------------------------------------------------------------
  // Vertices
  // ---------------------------------------------------------------------

  /** The inner loop of genVertices: bit k of i, computed as
      `(i / 2**k) % 2`, is put in front of the string built so far. */
  method RenderVertex(i: nat, n: nat) returns (vertex: Vertex)
    ensures IsVertex(vertex, n)
    ensures Value(vertex) == i % Pow2(n)
    ensures vertex == Render(i, n)
  {
    vertex := "";
    var k := 0;
    while k < n
      invariant k <= n
      invariant vertex == Render(i, k)
    {
      var temp := (i / Pow2(k)) % 2;
      RenderPrepend(i, k);
      vertex := [Digit(temp)] + vertex;
      k := k + 1;
    }
    ValueOfRender(i, n);
  }

  /** genVertices: the 2^n vertices in increasing order, vertex i being
      the n-bit rendering of i.  The list is strictly increasing in
      Python's string order, has no repetition, and holds every n-cube
      vertex. */
  method GenVertices(n: nat) returns (vertices: seq<Vertex>)
    ensures VertexList(n, vertices)
    ensures forall i, j :: 0 <= i < j < |vertices| ==> LexLess(vertices[i], vertices[j])
    ensures Distinct(vertices)
    ensures forall v :: IsVertex(v, n) ==> v in vertices
  {
    vertices := [];
    var i := 0;
    while i < Pow2(n)
      invariant i <= Pow2(n)
      invariant |vertices| == i
      invariant forall j :: 0 <= j < i ==> vertices[j] == Render(j, n)
    {
      var vertex := RenderVertex(i, n);
      vertices := vertices + [vertex];
      i := i + 1;
    }
    forall j | 0 <= j < |vertices|
      ensures Value(vertices[j]) == j
    {
      RenderRoundTrip(j, n);
    }
    forall i, j | 0 <= i < j < |vertices|
      ensures LexLess(vertices[i], vertices[j])
    {
      RenderMonotone(i, j, n);
    }
    forall v | IsVertex(v, n)
      ensures v in vertices
    {
      RenderOfValue(v);
      assert vertices[Value(v)] == v;
    }
  }

  // ---------------------------------------------------------------------
  // Edges
  // ---------------------------------------------------------------------

  /** The list genDirectionalEdges returns for direction d: each edge of
      the n-cube along d exactly once. */
  ghost predicate DirectionalList(n: nat, d: nat, directionalEdges: seq<Edge>) {
    && d < n
    && |directionalEdges| == Pow2(n - 1)
    && (forall i :: 0 <= i < |directionalEdges| ==> IsEdge(directionalEdges[i], n, d))
    && Distinct(directionalEdges)
    && (forall e :: IsEdge(e, n, d) ==> e in directionalEdges)
  }

  /** The edge along d obtained from a vertex w of the (n-1)-cube: its
      ends are w with '0' and with '1' inserted at index p. */
  function Lift(w: Vertex, p: nat): Edge {
    Edge(Insert(w, p, '0'), Insert(w, p, '1'))
  }

  /** Lifting the whole vertex list of the (n-1)-cube gives each edge along
      d exactly once. */
  lemma LiftedListIsDirectional(n: nat, d: nat, lower: seq<Vertex>, directionalEdges: seq<Edge>)
    requires d < n
    requires VertexList(n - 1, lower)
    requires forall v :: IsVertex(v, n - 1) ==> v in lower
    requires |directionalEdges| == |lower|
    requires forall j :: 0 <= j < |lower| ==> directionalEdges[j] == Lift(lower[j], n - 1 - d)
    ensures DirectionalList(n, d, directionalEdges)
  {
    LiftedAreEdges(n, d, lower, directionalEdges);
    LiftedDistinct(n, d, lower, directionalEdges);
    LiftedComplete(n, d, lower, directionalEdges);
  }

  lemma LiftedAreEdges(n: nat, d: nat, lower: seq<Vertex>, directionalEdges: seq<Edge>)
    requires d < n
    requires forall j :: 0 <= j < |lower| ==> IsVertex(lower[j], n - 1)
    requires |directionalEdges| == |lower|
    requires forall j :: 0 <= j < |lower| ==> directionalEdges[j] == Lift(lower[j], n - 1 - d)
    ensures forall j :: 0 <= j < |directionalEdges| ==> IsEdge(directionalEdges[j], n, d)
  {
    forall j | 0 <= j < |directionalEdges|
      ensures IsEdge(directionalEdges[j], n, d)
    {
      LiftedEdge(lower[j], n, d);
    }
  }

  lemma LiftedDistinct(n: nat, d: nat, lower: seq<Vertex>, directionalEdges: seq<Edge>)
    requires d < n
    requires forall j :: 0 <= j < |lower| ==> |lower[j]| == n - 1
    requires Distinct(lower)
    requires |directionalEdges| == |lower|
    requires forall j :: 0 <= j < |lower| ==> directionalEdges[j] == Lift(lower[j], n - 1 - d)
    ensures Distinct(directionalEdges)
  {
    forall i, j | 0 <= i < j < |directionalEdges|
      ensures directionalEdges[i] != directionalEdges[j]
    {
      if directionalEdges[i] == directionalEdges[j] {
        InsertInjective(lower[i], lower[j], n - 1 - d, '0');
      }
    }
  }

  lemma LiftedComplete(n: nat, d: nat, lower: seq<Vertex>, directionalEdges: seq<Edge>)
    requires d < n
    requires forall v :: IsVertex(v, n - 1) ==> v in lower
    requires |directionalEdges| == |lower|
    requires forall j :: 0 <= j < |lower| ==> directionalEdges[j] == Lift(lower[j], n - 1 - d)
    ensures forall e :: IsEdge(e, n, d) ==> e in directionalEdges
  {
    forall e | IsEdge(e, n, d)
      ensures e in directionalEdges
    {
      EdgeIsLifted(e, n, d);
      var w := Remove(e.source, n - 1 - d);
      assert w in lower;
      var j :| 0 <= j < |lower| && lower[j] == w;
      LiftedEdge(w, n, d);
      assert directionalEdges[j] == e;
    }
  }

  /** genDirectionalEdges: for each vertex of the (n-1)-cube, '0' is
      inserted at index n - 1 - d and the edge along d is taken.  The
      result lists each edge of the n-cube along d exactly once, so it has
      2^(n-1) entries. */
  method GenDirectionalEdges(n: nat, d: nat) returns (directionalEdges: seq<Edge>)
    requires d < n
    ensures DirectionalList(n, d, directionalEdges)
  {
    var p := n - 1 - d;
    var verticesOneLessDim := GenVertices(n - 1);
    assert Distinct(verticesOneLessDim);
    directionalEdges := [];
    var i := 0;
    while i < Pow2(n - 1)
      invariant i <= Pow2(n - 1)
      invariant |directionalEdges| == i
      invariant forall j :: 0 <= j < i ==> directionalEdges[j] == Lift(verticesOneLessDim[j], p)
    {
      var sourceVertex := Insert(verticesOneLessDim[i], p, '0');
      LiftedEdge(verticesOneLessDim[i], n, d);
      directionalEdges := directionalEdges + [EdgeFromVertexDirection(sourceVertex, n, d)];
      i := i + 1;
    }
    LiftedListIsDirectional(n, d, verticesOneLessDim, directionalEdges);
  }

  /** dict.fromkeys over a list without repetition has one key per
      entry. */
  lemma FromKeysCard<K, V>(ks: seq<K>, v: V)
    requires Distinct(ks)
    ensures |FromKeys(ks, v)| == |ks|
  {
    assert FromKeys(ks, v).Keys == set k | k in ks;
    DistinctCard(ks);
  }

  /** No edge along d is already in a table of the directions below d. */
  lemma EdgesDisjoint(n: nat, d: nat, directionalEdges: seq<Edge>, edges: map<Edge, int>)
    requires forall i :: 0 <= i < |directionalEdges| ==> IsEdge(directionalEdges[i], n, d)
    requires EdgesBelow(n, d, edges)
    ensures edges.Keys !! FromKeys(directionalEdges, d).Keys
  {
    forall e | e in edges && e in directionalEdges
      ensures false
    {
      var i :| 0 <= i < |directionalEdges| && directionalEdges[i] == e;
      EdgeDirectionUnique(e, n, edges[e], d);
    }
  }

  /** One pass of genEdges' loop adds the edges along d to the edge
      table, disjoint from those already there. */
  lemma EdgesStep(n: nat, d: nat, directionalEdges: seq<Edge>, edges: map<Edge, int>)
    requires d < n
    requires |directionalEdges| == Pow2(n - 1) && Distinct(directionalEdges)
    requires forall i :: 0 <= i < |directionalEdges| ==> IsEdge(directionalEdges[i], n, d)
    requires forall e :: IsEdge(e, n, d) ==> e in directionalEdges
    requires EdgesBelow(n, d, edges) && |edges| == EdgesAlongFirst(d, n)
    ensures EdgesBelow(n, d + 1, edges + FromKeys(directionalEdges, d))
    ensures |edges + FromKeys(directionalEdges, d)| == EdgesAlongFirst(d + 1, n)
  {
    var added := FromKeys(directionalEdges, d);
    var edges' := edges + added;
    FromKeysCard(directionalEdges, d);
    EdgesDisjoint(n, d, directionalEdges, edges);
    assert edges'.Keys == edges.Keys + added.Keys;
    assert |edges'| == |edges| + |added|;
    forall e | e in edges'
      ensures 0 <= edges'[e] < d + 1 && IsEdge(e, n, edges'[e])
    {
      if e in added {
        assert e in directionalEdges;
        var i :| 0 <= i < |directionalEdges| && directionalEdges[i] == e;
        assert edges'[e] == d;
      } else {
        assert edges'[e] == edges[e];
      }
    }
    forall e, d' | 0 <= d' < d + 1 && IsEdge(e, n, d')
      ensures e in edges'
    {
      if d' == d {
        assert e in directionalEdges;
        assert e in added;
      } else {
        assert e in edges;
      }
    }
  }

  /** `[(x[0], d) for x in directionalEdges]`. */
  function SourceKeys(directionalEdges: seq<Edge>, d: int): (keys: seq<(Vertex, int)>)
    ensures |keys| == |directionalEdges|
    ensures forall i :: 0 <= i < |keys| ==> keys[i] == (directionalEdges[i].source, d)
  {
    if |directionalEdges| == 0 then []
    else
      var last := |directionalEdges| - 1;
      SourceKeys(directionalEdges[..last], d) + [(directionalEdges[last].source, d)]
  }

  /** `[(x[1], d) for x in directionalEdges]`. */
  function TargetKeys(directionalEdges: seq<Edge>, d: int): (keys: seq<(Vertex, int)>)
    ensures |keys| == |directionalEdges|
    ensures forall i :: 0 <= i < |keys| ==> keys[i] == (directionalEdges[i].target, d)
  {
    if |directionalEdges| == 0 then []
    else
      var last := |directionalEdges| - 1;
      TargetKeys(directionalEdges[..last], d) + [(directionalEdges[last].target, d)]
  }

  /** Distinct edges along one direction have distinct sources and
      distinct targets. */
  lemma EndpointKeysDistinct(n: nat, d: nat, directionalEdges: seq<Edge>)
    requires Distinct(directionalEdges)
    requires forall i :: 0 <= i < |directionalEdges| ==> IsEdge(directionalEdges[i], n, d)
    ensures Distinct(SourceKeys(directionalEdges, d))
    ensures Distinct(TargetKeys(directionalEdges, d))
  {
    var des := directionalEdges;
    forall i, j | 0 <= i < j < |des|
      ensures des[i].source != des[j].source
      ensures des[i].target != des[j].target
    {
      EdgeFromEitherEndpoint(des[i], n, d);
      EdgeFromEitherEndpoint(des[j], n, d);
    }
  }

  /** One pass of genEdges' loop adds the (vertex, d) keys of both ends of
      every edge along d to the lookup table. */
  lemma LookupStep(n: nat, d: nat, directionalEdges: seq<Edge>, byVertexDirection: map<(Vertex, int), Edge>)
    requires DirectionalList(n, d, directionalEdges)
    requires LookupBelow(n, d, byVertexDirection)
    ensures LookupBelow(n, d + 1,
      byVertexDirection
      + Zip(SourceKeys(directionalEdges, d), directionalEdges)
      + Zip(TargetKeys(directionalEdges, d), directionalEdges))
  {
    LookupStepSound(n, d, directionalEdges, byVertexDirection);
    LookupStepComplete(n, d, directionalEdges, byVertexDirection);
  }

  /** Every key the pass adds looks up the edge through its vertex. */
  lemma LookupStepSound(n: nat, d: nat, des: seq<Edge>, byVertexDirection: map<(Vertex, int), Edge>)
    requires d < n
    requires forall i :: 0 <= i < |des| ==> IsEdge(des[i], n, d)
    requires LookupBelow(n, d, byVertexDirection)
    requires Distinct(des)
    ensures forall key :: key in byVertexDirection + Zip(SourceKeys(des, d), des) + Zip(TargetKeys(des, d), des) ==>
      && 0 <= key.1 < d + 1 && IsVertex(key.0, n)
      && (byVertexDirection + Zip(SourceKeys(des, d), des) + Zip(TargetKeys(des, d), des))[key]
           == EdgeFromVertexDirection(key.0, n, key.1)
  {
    var sources, targets := SourceKeys(des, d), TargetKeys(des, d);
    EndpointKeysDistinct(n, d, des);
    ZipLookup(sources, des);
    ZipLookup(targets, des);
    var bySource, byTarget := Zip(sources, des), Zip(targets, des);
    var result := byVertexDirection + bySource + byTarget;
    forall key | key in result
      ensures 0 <= key.1 < d + 1 && IsVertex(key.0, n)
      ensures result[key] == EdgeFromVertexDirection(key.0, n, key.1)
    {
      if key in byTarget {
        var i :| 0 <= i < |targets| && targets[i] == key;
        assert result[key] == des[i];
        EdgeFromEitherEndpoint(des[i], n, d);
        TargetIsVertex(des[i], n, d);
      } else if key in bySource {
        var i :| 0 <= i < |sources| && sources[i] == key;
        assert result[key] == des[i];
        EdgeFromEitherEndpoint(des[i], n, d);
      } else {
        assert result[key] == byVertexDirection[key];
      }
    }
  }

  /** After the pass, every vertex has a key for every direction up to d. */
  lemma LookupStepComplete(n: nat, d: nat, des: seq<Edge>, byVertexDirection: map<(Vertex, int), Edge>)
    requires d < n
    requires forall e :: IsEdge(e, n, d) ==> e in des
    requires LookupBelow(n, d, byVertexDirection)
    ensures forall v, d' :: 0 <= d' < d + 1 && IsVertex(v, n) ==>
      (v, d') in byVertexDirection + Zip(SourceKeys(des, d), des) + Zip(TargetKeys(des, d), des)
  {
    var sources, targets := SourceKeys(des, d), TargetKeys(des, d);
    ZipHasKeys(sources, des);
    ZipHasKeys(targets, des);
    var result := byVertexDirection + Zip(sources, des) + Zip(targets, des);
    forall v, d' | 0 <= d' < d + 1 && IsVertex(v, n)
      ensures (v, d') in result
    {
      if d' == d {
        EdgeFromVertexDirectionIsEdge(v, n, d);
        var e := EdgeFromVertexDirection(v, n, d);
        assert e in des;
        var i :| 0 <= i < |des| && des[i] == e;
        if v == e.source {
          assert sources[i] == (v, d');
        } else {
          assert targets[i] == (v, d');
        }
      } else {
        assert (v, d') in byVertexDirection;
      }
    }
  }

  /** The tables genEdges has built once the directions below k are done:
      the edge table and lookup table as above, the colouring keyed like
      the edge table with every colour 0. */
  ghost predicate TablesBelow(n: nat, k: nat, edges: map<Edge, int>, coloring: map<Edge, int>,
                              edgeAsVertexDirection: map<(Vertex, int), Edge>)
  {
    && EdgesBelow(n, k, edges)
    && |edges| == EdgesAlongFirst(k, n)
    && coloring.Keys == edges.Keys
    && (forall e :: e in coloring ==> coloring[e] == 0)
    && LookupBelow(n, k, edgeAsVertexDirection)
  }

  /** The colouring gains the same keys as the edge table, all with
      colour 0. */
  lemma ColoringStep(edges: map<Edge, int>, coloring: map<Edge, int>, directionalEdges: seq<Edge>, d: int)
    requires coloring.Keys == edges.Keys
    requires forall e :: e in coloring ==> coloring[e] == 0
    ensures (coloring + FromKeys(directionalEdges, 0)).Keys == (edges + FromKeys(directionalEdges, d)).Keys
    ensures forall e :: e in coloring + FromKeys(directionalEdges, 0) ==> (coloring + FromKeys(directionalEdges, 0))[e] == 0
  {
  }

  /** One pass of genEdges' loop takes the tables for the directions below
      d to those for the directions up to d. */
  lemma TablesStep(n: nat, d: nat, directionalEdges: seq<Edge>, edges: map<Edge, int>, coloring: map<Edge, int>,
                   edgeAsVertexDirection: map<(Vertex, int), Edge>)
    requires DirectionalList(n, d, directionalEdges)
    requires TablesBelow(n, d, edges, coloring, edgeAsVertexDirection)
    ensures TablesBelow(n, d + 1,
      edges + FromKeys(directionalEdges, d),
      coloring + FromKeys(directionalEdges, 0),
      edgeAsVertexDirection + Zip(SourceKeys(directionalEdges, d), directionalEdges)
                            + Zip(TargetKeys(directionalEdges, d), directionalEdges))
  {
    EdgesStep(n, d, directionalEdges, edges);
    LookupStep(n, d, directionalEdges, edgeAsVertexDirection);
    ColoringStep(edges, coloring, directionalEdges, d);
  }

  /** One pass of genEdges' loop: the edges along d go into the edge table
      under d, into the colouring with colour 0, and into the lookup table
      under (source, d) and then under (target, d). */
  method AddDirection(n: nat, d: nat, edges: map<Edge, int>, coloring: map<Edge, int>,
                      edgeAsVertexDirection: map<(Vertex, int), Edge>)
    returns (edges': map<Edge, int>, coloring': map<Edge, int>,
             edgeAsVertexDirection': map<(Vertex, int), Edge>)
    requires d < n
    requires TablesBelow(n, d, edges, coloring, edgeAsVertexDirection)
    ensures TablesBelow(n, d + 1, edges', coloring', edgeAsVertexDirection')
  {
    var directionalEdges := GenDirectionalEdges(n, d);
    TablesStep(n, d, directionalEdges, edges, coloring, edgeAsVertexDirection);
    edges' := edges + FromKeys(directionalEdges, d);
    coloring' := coloring + FromKeys(directionalEdges, 0);
    edgeAsVertexDirection' := edgeAsVertexDirection + Zip(SourceKeys(directionalEdges, d), directionalEdges);
    edgeAsVertexDirection' := edgeAsVertexDirection' + Zip(TargetKeys(directionalEdges, d), directionalEdges);
  }

  /** genEdges: each direction in turn is added to the three tables, which
      end up holding the n * 2^(n-1) edges of the n-cube. */
  method GenEdges(n: nat)
    returns (edges: map<Edge, int>, coloring: map<Edge, int>, edgeAsVertexDirection: map<(Vertex, int), Edge>)
    ensures TablesBelow(n, n, edges, coloring, edgeAsVertexDirection)
  {
    edges, coloring, edgeAsVertexDirection := map[], map[], map[];
    var direction := 0;
    while direction < n
      invariant direction <= n
      invariant TablesBelow(n, direction, edges, coloring, edgeAsVertexDirection)
    {
      edges, coloring, edgeAsVertexDirection := AddDirection(n, direction, edges, coloring, edgeAsVertexDirection);
      direction := direction + 1;
    }
  }

  /** The constructor: the vertex list, then the tables, starting from an
      empty lookup table.  Every edge starts with colour 0. */
  method Construct(n: nat) returns (h: Hypercube)
    ensures h.n == n
    ensures Valid(h)
    ensures forall i, j :: 0 <= i < j < |h.vertices| ==> LexLess(h.vertices[i], h.vertices[j])
    ensures n == 0 ==> |h.edges| == 0
    ensures n > 0 ==> |h.edges| == n * Pow2(n - 1)
    ensures forall e :: e in h.coloring ==> h.coloring[e] == 0
  {
    var vertices := GenVertices(n);
    var edges, coloring, edgeAsVertexDirection := GenEdges(n);
    h := Hypercube(n, vertices, edges, coloring, edgeAsVertexDirection);
    if n > 0 {
      EdgesAlongFirstCount(n, n);
    }
  }

  /** In a constructed hypercube, both ends of every edge, together with
      the edge's direction, look the edge up. */
  lemma LookupFindsEdgeFromBothEnds(h: Hypercube, e: Edge)
    requires Valid(h)
    requires e in h.edges
    ensures (e.source, h.edges[e]) in h.edgeAsVertexDirection
    ensures h.edgeAsVertexDirection[(e.source, h.edges[e])] == e
    ensures (e.target, h.edges[e]) in h.edgeAsVertexDirection
    ensures h.edgeAsVertexDirection[(e.target, h.edges[e])] == e
  {
    var d := h.edges[e];
    EdgeFromEitherEndpoint(e, h.n, d);
    assert IsVertex(e.target, h.n) by {
      EdgeFromVertexDirectionIsEdge(e.source, h.n, d);
      assert e.target == e.source[h.n - 1 - d := '1'];
    }
  }

  /** In a constructed hypercube, an edge is in the edge table exactly when
      it is an n-cube edge, and then its entry is its direction. */
  lemma EdgeTableExact(h: Hypercube, e: Edge, d: int)
    requires Valid(h)
    ensures (e in h.edges && h.edges[e] == d) <==> IsEdge(e, h.n, d)
  {
    if IsEdge(e, h.n, d) {
      assert e in h.edges;
      EdgeDirectionUnique(e, h.n, h.edges[e], d);
    }
  }
}
