# Hypercube skeleton and edge colouring table, in Dafny

This project models the construction part of the `hypercube` class of
`hypercube_coloring.py`. The class builds the n-dimensional hypercube as
bit strings:

- the vertex list: vertex i, for i below 2^n, written as an n-character
  binary string with the most significant bit first;
- the edge table: each edge, a pair of adjacent vertices with the '0' end
  first, mapped to its direction;
- the colouring: each edge mapped to a colour, 0 at construction;
- the lookup table `edgeAsVertexDirection`: each (endpoint, direction)
  pair mapped to its edge.

It also models the three colouring accessors: `resetColoring`,
`setEdgeColor` and `getEdgeColor`.

Direction d is bit d of the vertex number, with bit 0 the least significant
bit. In the string it is the character at index n - 1 - d; `Bits.BitAt` and
`Edges.EdgeValue` prove that the two readings agree.

Layout:

- `bits.dfy` (module `Bits`): the n-bit rendering `Render`, the value of a
  binary string `Value`, and Python's string order `LexLess`. It proves that
  rendering and value are inverse, and that rendering is strictly monotone.
- `pydict.dfy` (module `PyDict`): the Python dictionary operations used to
  build the tables. `Lookup` is `d[k]`, `FromKeys` is `dict.fromkeys`, and
  `Zip` is `dict(zip(...))` with "later key wins".
- `edges.dfy` (module `Edges`): the edge predicate `IsEdge`,
  `genEdgeFromVertexDirection` with Python's negative indexing, and
  `list.insert` with Python's index clamping. It proves the single-edge
  facts.
- `hypercube.dfy` (module `Cube`): the `Hypercube` state, plus methods that
  follow the loops of `genVertices`, `genDirectionalEdges`, `genEdges` and
  the constructor. The predicates `VertexList`, `EdgesBelow`, `LookupBelow`
  and `Valid` say what the finished tables hold.
- `coloring.dfy` (module `Coloring`): the accessors as pure functions that
  return the updated object, with lemmas on how they combine.

`getVertices`, `getEdges` and `getColoring` return the fields `vertices`,
`edges` and `coloring` of the `Hypercube` datatype.

Deviations from the code:

- The constructor never initialises `self.edgeAsVertexDirection`
  (hypercube_coloring.py:20-23). Yet `genEdges` updates it
  (hypercube_coloring.py:75-76). As written, construction would raise
  AttributeError for every n >= 1. The model starts this table from the
  empty map, which is evidently what was intended.
- `genDirectionalEdges` builds a whole `hypercube(self.n-1)` object only to
  read its vertex list (hypercube_coloring.py:58-59). The model calls
  `GenVertices(n - 1)` directly.
- `getEdgeColor` returns `None` for an unknown edge, where Python's
  `self.coloring[edge]` raises KeyError (hypercube_coloring.py:122).
- Line 32 is Python 2 integer division, so `(i/(2**k))%2` is bit k of i.

## Model

| member | source | states |
|---|---|---|
| Cube.RenderVertex | hypercube_coloring.py:30-33 | The inner loop yields an n-character binary string whose value is i mod 2^n; it equals the MSB-first rendering of i. |
| Bits.RenderPrepend | hypercube_coloring.py:32-33 | Bit k, computed as `(i / 2^k) % 2`, put in front of the low k bits gives the rendering of the low k+1 bits. |
| Cube.GenVertices | hypercube_coloring.py:25-34 | genVertices yields 2^n vertices, and vertex i is an n-bit binary string of value i. The list is strictly increasing in string order, has no repetition, and contains every n-bit binary string. |
| Bits.ValueOfRender | hypercube_coloring.py:29-34 | The rendering of i over n bits denotes i mod 2^n. |
| Bits.RenderRoundTrip | hypercube_coloring.py:12 | For i below 2^n, reading back the rendering of i gives i. |
| Bits.RenderOfValue | hypercube_coloring.py:12 | Every binary string is the rendering of its own value, so every n-bit string is a vertex label. |
| Bits.RenderInjective | hypercube_coloring.py:12 | Distinct numbers below 2^n render to distinct strings. |
| Bits.RenderMonotone | hypercube_coloring.py:29-34 | A larger number renders to a lexicographically larger string, so the vertex list is sorted. |
| Edges.EdgeFromVertexDirection | hypercube_coloring.py:38-50 | For any index inside the string, negative ones counted from the end as in Python, the edge contains v and both ends agree with v off that index. The first end has '0' there, and the second end has '1' there when v had '0', so the bit is flipped. |
| Edges.EdgeFromVertexDirectionIsEdge | hypercube_coloring.py:44-49 | From an n-cube vertex and a direction below n, the result is a cube edge along that direction. Its ends differ only at index n-1-d, with '0' first and '1' second. |
| Edges.EdgeFromEitherEndpoint | hypercube_coloring.py:44-50 | Starting from either end of an edge returns that same edge, so the result does not depend on the end chosen. |
| Edges.EdgeEndpointsOrdered | hypercube_coloring.py:14 | The two ends of an edge are distinct, and the first is lexicographically smaller. |
| Bits.BitAt | hypercube_coloring.py:13 | The character at index n-1-d of the rendering of i is bit d of i, so a string index names a bit of the vertex number. |
| Bits.SetBitValue | hypercube_coloring.py:13 | Turning a '0' at index p of a bit string into '1' raises its value by 2^(length-1-p). |
| Edges.EdgeValue | hypercube_coloring.py:13 | Along an edge in direction d, bit d is the bit that flips: it is 0 in the first end's number, and the second end's number is 2^d larger. |
| Edges.EdgeDirectionUnique | hypercube_coloring.py:13 | An edge lies along exactly one direction. |
| Edges.TargetIsVertex | hypercube_coloring.py:45-46 | The '1' end of an edge is itself an n-cube vertex. |
| Edges.LiftedEdge | hypercube_coloring.py:61-63 | Inserting '0' at index n-1-d into an (n-1)-cube vertex gives an edge along d. Its other end is the same vertex with '1' inserted there. |
| Edges.InsertInjective | hypercube_coloring.py:61-62 | Inserting the same character at the same index sends distinct vertices to distinct strings. |
| Edges.EdgeIsLifted | hypercube_coloring.py:60-63 | Every edge along d arises by inserting '0' at index n-1-d into some (n-1)-cube vertex. |
| Edges.ThreeCubeExamples | hypercube_coloring.py:38-50 | Worked 3-cube values: vertex 5 renders as "101", and edges come out '0' end first from either end. |
| Cube.GenDirectionalEdges | hypercube_coloring.py:53-64 | genDirectionalEdges lists 2^(n-1) pairwise-distinct edges along d. Each first end has '0' at index n-1-d, and every edge along d is listed. |
| Cube.LiftedListIsDirectional | hypercube_coloring.py:57-64 | Lifting the whole (n-1)-cube vertex list gives each edge along d exactly once. |
| PyDict.ZipLookup | hypercube_coloring.py:75-76 | With distinct keys, dict(zip(ks, vs)) has exactly the keys ks, and the i-th key maps to the i-th value. |
| PyDict.ZipHasKeys | hypercube_coloring.py:75-76 | Every paired key is a key of dict(zip(ks, vs)). |
| Cube.EdgesStep | hypercube_coloring.py:72-73 | One direction's update of the edge table adds exactly the edges along d, all mapped to d. They are disjoint from the edges already there, and the count grows by 2^(n-1). |
| Cube.LookupStep | hypercube_coloring.py:75-76 | The two zip updates add the (source, d) and (target, d) keys. Each new key maps to the edge through that vertex along d. |
| Cube.TablesStep | hypercube_coloring.py:71-76 | One loop pass takes the three tables for the directions below d to those for the directions up to d. |
| Cube.AddDirection | hypercube_coloring.py:71-76 | The body of the genEdges loop keeps the tables correct for one more direction. |
| Cube.GenEdges | hypercube_coloring.py:66-76 | After genEdges, the edge table holds exactly the cube's edges, each under its direction. The colouring has the same keys, all with colour 0. The lookup table maps every (vertex, direction) to the edge through that vertex. |
| Cube.EdgesAlongFirstCount | hypercube_coloring.py:71-73 | Adding 2^(n-1) edges for each of k directions gives k * 2^(n-1) edges. |
| Cube.Construct | hypercube_coloring.py:8-80 | The constructed object has 2^n sorted vertices and n * 2^(n-1) edges (none when n = 0). Every edge has colour 0, and the tables agree with one another. |
| Cube.LookupFindsEdgeFromBothEnds | hypercube_coloring.py:75-76 | In a constructed hypercube, each endpoint of an edge, paired with the edge's direction, looks up that edge. |
| Cube.EdgeTableExact | hypercube_coloring.py:73 | In a constructed hypercube, an edge maps to d in the edge table exactly when it is a cube edge along d. |
| Coloring.ResetColoring | hypercube_coloring.py:105-109 | resetColoring keeps the key set and sets every colour to 0. Nothing else in the object changes. |
| Coloring.SetEdgeColor | hypercube_coloring.py:111-115 | setEdgeColor gives the edge the colour and adds the key if it was absent. Every other key keeps its colour, and nothing else changes. |
| Coloring.GetEdgeColor | hypercube_coloring.py:118-122 | getEdgeColor gives a colour exactly when the edge is a key of the colouring, and that colour is the one stored for the edge. |
| Coloring.SetThenGet | hypercube_coloring.py:111-122 | Reading an edge just set gives the colour it was set to. |
| Coloring.SetLeavesOthers | hypercube_coloring.py:111-122 | Setting one edge leaves what every other edge reads unchanged. |
| Coloring.ResetThenGet | hypercube_coloring.py:105-122 | After a reset, every colouring key reads 0 and an unknown edge stays unknown. |
| Coloring.ResetIdempotent | hypercube_coloring.py:105-109 | Resetting twice is the same as resetting once. |
| Coloring.ResetForgetsSet | hypercube_coloring.py:105-115 | A reset undoes a colour set on an edge that was already a key. |
| Coloring.ConstructedIsReset | hypercube_coloring.py:74 | A colouring that is all 0, as the constructor leaves it, is unchanged by a reset. |
| Coloring.ResetPreservesValid | hypercube_coloring.py:105-109 | Resetting keeps the colouring keyed by exactly the edges. |
| Coloring.SetPreservesValid | hypercube_coloring.py:111-115 | Setting a colour keeps the colouring keyed by exactly the edges if and only if the edge is a cube edge. |

## Left out

- The `numpy`, `random` and `pylab` imports (hypercube_coloring.py:1-3). They are unused in this file.
- The `remainingEdges` field. The docstring describes it (hypercube_coloring.py:18), but the code never defines or uses it.
- The AttributeError caused by the missing `edgeAsVertexDirection` initialisation. The model starts from the empty table instead (see above).
- Negative n. The dimension is a `nat`. For n < 0 Python 2 raises TypeError at hypercube_coloring.py:29, because `2**n` is then a float and `range` rejects it.
- Coloring.GetEdgeColor: an unknown edge gives `None` instead of the KeyError Python raises at hypercube_coloring.py:122; the model has no exceptions.
- Python 3's float reading of `/` at line 32. Only Python 2's integer division is modelled.
- Aliasing. `getColoring` returns the live dictionary, and callers can mutate it in Python. The model's maps are immutable values.
- Dictionary iteration order. It does not affect any table's contents.
- Edges.EdgeFromVertexDirection: requires the index n-1-d to lie inside v, because for an index outside the string Python raises IndexError at hypercube_coloring.py:44. Its only caller, `genDirectionalEdges` (hypercube_coloring.py:63), passes length-n strings and directions from `range(n)`.
- Cube.GenDirectionalEdges: requires 0 <= d < n. Its only caller, `genEdges`, passes a direction from `range(n)`, and other directions are not modelled.
