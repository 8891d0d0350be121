/** Edges of the n-cube as pairs of vertex strings.

    Direction d names bit d of the vertex number, bit 0 being the least
    significant; in the most-significant-first string it is the character
    at index n - 1 - d.  An edge joins two vertices that differ only in
    that character, and is written with the '0' end first. */
module Edges {
  import opened Bits

  type Vertex = string

  /** An edge as the Python code's pair of vertices, '0' end first. */
  datatype Edge = Edge(source: Vertex, target: Vertex)

  /** v is a vertex of the n-cube: n characters, each '0' or '1'. */
  predicate IsVertex(v: Vertex, n: nat) {
    |v| == n && IsBinary(v)
  }

  /** e is the edge of the n-cube along direction d whose '0' end is
      e.source: the target is the source with index n - 1 - d set to '1'. */
  predicate IsEdge(e: Edge, n: nat, d: int) {
    && 0 <= d < n
    && IsVertex(e.source, n)
    && e.source[n - 1 - d] == '0'
    && e.target == e.source[n - 1 - d := '1']
  }

  /** The position Python's `s[i]` reads in a sequence of length len: a
      negative index counts from the end. */
  function PyIndex(len: nat, i: int): (p: nat)
    requires 0 <= len + i && i < len
    ensures p < len
  {
    if i < 0 then len + i else i
  }

  /** The position Python's `list.insert(i, x)` inserts at: a negative
      index counts from the end, and the result is clamped to the list. */
  function PyInsertIndex(len: nat, i: int): (p: nat)
    ensures p <= len
  {
    if i < 0 then (if len + i < 0 then 0 else len + i)
    else if i > len then len
    else i
  }

  /** `l = list(s); l.insert(i, c); "".join(l)`. */
  function Insert(s: string, i: int, c: char): (r: string)
    ensures |r| == |s| + 1
  {
    var p := PyInsertIndex(|s|, i);
    s[..p] + [c] + s[p..]
  }

  /** The string with the character at index p removed. */
  function Remove(s: string, p: nat): (r: string)
    requires p < |s|
    ensures |r| == |s| - 1
  {
    s[..p] + s[p + 1..]
  }

  /** genEdgeFromVertexDirection: the edge through v along direction d.
      The character at index n - 1 - d is flipped, and the end holding
      '0' there is put first.  For any index inside v, the result
      contains v, its two ends agree with v off that index, the first end
      has '0' at it, and the second has '1' there when v had '0'. */
  function EdgeFromVertexDirection(v: Vertex, n: nat, d: int): (e: Edge)
    requires 0 <= |v| + (n - 1 - d) && n - 1 - d < |v|
    ensures v == e.source || v == e.target
    ensures |e.source| == |v| && |e.target| == |v|
    ensures e.source[PyIndex(|v|, n - 1 - d)] == '0'
    ensures var p := PyIndex(|v|, n - 1 - d);
              e.target[p] == (if v[p] == '0' then '1' else v[p])
    ensures forall q :: 0 <= q < |v| && q != PyIndex(|v|, n - 1 - d) ==>
              e.source[q] == v[q] && e.target[q] == v[q]
  {
    var p := PyIndex(|v|, n - 1 - d);
    if v[p] == '0' then Edge(v, v[p := '1']) else Edge(v[p := '0'], v)
  }

  // ---------------------------------------------------------------------
  // Properties of a single edge
  // ---------------------------------------------------------------------

  /** From a vertex of the n-cube and a direction below n,
      genEdgeFromVertexDirection produces an edge of the cube in that direction. */
  lemma EdgeFromVertexDirectionIsEdge(v: Vertex, n: nat, d: int)
    requires IsVertex(v, n) && 0 <= d < n
    ensures IsEdge(EdgeFromVertexDirection(v, n, d), n, d)
  {
    var e := EdgeFromVertexDirection(v, n, d);
    var p := n - 1 - d;
    assert IsBinary(e.source) by {
      forall q | 0 <= q < n
        ensures e.source[q] == '0' || e.source[q] == '1'
      {
        if q != p { assert e.source[q] == v[q]; }
      }
    }
    if v[p] != '0' {
      assert v[p] == '1';
      assert e.target == e.source[p := '1'];
    }
  }

  /** Starting from either end of an edge gives back the same edge: the
      result does not depend on which endpoint one starts from. */
  lemma EdgeFromEitherEndpoint(e: Edge, n: nat, d: int)
    requires IsEdge(e, n, d)
    ensures EdgeFromVertexDirection(e.source, n, d) == e
    ensures EdgeFromVertexDirection(e.target, n, d) == e
  {
    var p := n - 1 - d;
    assert e.target[p] == '1';
    assert e.target[p := '0'] == e.source;
  }

  /** The target of an n-cube edge is itself an n-cube vertex. */
  lemma TargetIsVertex(e: Edge, n: nat, d: int)
    requires IsEdge(e, n, d)
    ensures IsVertex(e.target, n)
  {
    var p := n - 1 - d;
    forall q | 0 <= q < n
      ensures e.target[q] == '0' || e.target[q] == '1'
    {
      if q != p { assert e.target[q] == e.source[q]; }
    }
  }

  /** The two ends of an edge are distinct and the first is the
      lexicographically smaller one. */
  lemma EdgeEndpointsOrdered(e: Edge, n: nat, d: int)
    requires IsEdge(e, n, d)
    ensures e.source != e.target
    ensures LexLess(e.source, e.target)
  {
    var p := n - 1 - d;
    assert e.source[..p] == e.target[..p];
    assert LexLessAt(e.source, e.target, p);
  }

  /** An edge has exactly one direction. */
  lemma EdgeDirectionUnique(e: Edge, n: nat, d1: int, d2: int)
    requires IsEdge(e, n, d1) && IsEdge(e, n, d2)
    ensures d1 == d2
  {
    var p1 := n - 1 - d1;
    assert e.target[p1] != e.source[p1];
  }

  /** Direction d is the bit that flips along an edge: bit d of the first
      end's number is 0, and the second end's number is 2^d larger. */
  lemma EdgeValue(e: Edge, n: nat, d: int)
    requires IsEdge(e, n, d)
    ensures (Value(e.source) / Pow2(d)) % 2 == 0
    ensures Value(e.target) == Value(e.source) + Pow2(d)
  {
    var p := n - 1 - d;
    RenderOfValue(e.source);
    BitAt(Value(e.source), n, d);
    SetBitValue(e.source, p);
  }

  // ---------------------------------------------------------------------
  // Edges obtained from the (n-1)-cube by inserting a bit
  // ---------------------------------------------------------------------

  /** Inserting '0' at index n - 1 - d into a vertex of the (n-1)-cube and
      taking the edge along d gives the edge whose ends are w with '0'
      and with '1' inserted there. */
  lemma LiftedEdge(w: Vertex, n: nat, d: int)
    requires 0 <= d < n && IsVertex(w, n - 1)
    ensures EdgeFromVertexDirection(Insert(w, n - 1 - d, '0'), n, d)
              == Edge(Insert(w, n - 1 - d, '0'), Insert(w, n - 1 - d, '1'))
    ensures IsEdge(Edge(Insert(w, n - 1 - d, '0'), Insert(w, n - 1 - d, '1')), n, d)
  {
    var p := n - 1 - d;
    var s0, s1 := Insert(w, p, '0'), Insert(w, p, '1');
    assert s0 == w[..p] + ['0'] + w[p..];
    assert s0[p] == '0';
    assert s0[p := '1'] == s1;
    assert IsBinary(s0) by {
      forall q | 0 <= q < n
        ensures s0[q] == '0' || s0[q] == '1'
      {
        if q < p { assert s0[q] == w[q]; }
        else if q > p { assert s0[q] == w[q - 1]; }
      }
    }
  }

  /** Inserting the same character at the same index is injective. */
  lemma InsertInjective(w1: Vertex, w2: Vertex, p: nat, c: char)
    requires |w1| == |w2| && p <= |w1|
    requires Insert(w1, p, c) == Insert(w2, p, c)
    ensures w1 == w2
  {
    assert Remove(Insert(w1, p, c), p) == w1;
    assert Remove(Insert(w2, p, c), p) == w2;
  }

  /** Every edge of the n-cube along d arises by inserting '0' at index
      n - 1 - d into a vertex of the (n-1)-cube. */
  lemma EdgeIsLifted(e: Edge, n: nat, d: int)
    requires IsEdge(e, n, d)
    ensures IsVertex(Remove(e.source, n - 1 - d), n - 1)
    ensures Insert(Remove(e.source, n - 1 - d), n - 1 - d, '0') == e.source
  {
    var p := n - 1 - d;
    var w := Remove(e.source, p);
    assert IsBinary(w) by {
      forall q | 0 <= q < n - 1
        ensures w[q] == '0' || w[q] == '1'
      {
        if q < p { assert w[q] == e.source[q]; }
        else { assert w[q] == e.source[q + 1]; }
      }
    }
    assert w[..p] == e.source[..p];
    assert w[p..] == e.source[p + 1..];
    assert e.source == e.source[..p] + [e.source[p]] + e.source[p + 1..];
  }

  // ---------------------------------------------------------------------
  // The 3-cube
  // ---------------------------------------------------------------------

  /** Worked values in the 3-cube: vertex 5 is "101"; direction 0 flips
      the last character and direction 2 the first; the '0' end always
      comes first. */
  lemma ThreeCubeExamples()
    ensures Render(5, 3) == "101"
    ensures EdgeFromVertexDirection("000", 3, 0) == Edge("000", "001")
    ensures EdgeFromVertexDirection("001", 3, 0) == Edge("000", "001")
    ensures EdgeFromVertexDirection("011", 3, 2) == Edge("011", "111")
    ensures EdgeFromVertexDirection("111", 3, 1) == Edge("101", "111")
    ensures Insert("01", 3 - 1 - 1, '0') == "001"
  {
  }
}
