# Vietoris–Rips kernel of VietorisRipsVisualization, in Dafny

This project models the computational core of `simplicial.js`: given a list
of planar points and one ball radius, `vietorisrips` returns the 1-skeleton
(`lines`, the pairs of points whose disks meet) and the 2-skeleton
(`triangles`, the triples whose disks pairwise meet) of the Vietoris–Rips
complex. The helpers it rests on are modelled too: `distance2`,
`doCircleIntersects`, `intersect`, and the rescaling helper `linearMap`.

Modules:

- `Geometry` (`geometry.dfy`): `linearMap`, `distance2` and
  `doCircleIntersects` as functions over exact `real`s, with lemmas on
  symmetry, the closed (tangent-inclusive) boundary, growth with the radius
  and the round trip of `linearMap`.
- `IndexSets` (`index_sets.dfy`): a JavaScript `Set` of indices, modelled as
  a sequence without repeats in insertion order (the order `forEach` visits),
  `set.add`, and `intersect` as a method with a loop, proved against the
  specification function `Intersection`.
- `Rips` (`rips.dfy`): `vietorisrips` as the method `VietorisRips`. Its two
  passes are the methods `IndexNeighbours` (the nested `for` loops that fill
  `intersectionsWith` and push `lines`, with `TestHigherPoints` for the
  inner loop) and `CollectTriangles`, with `CollectRowTriangles` for one
  step of the outer `forEach` and `PushFan` for the innermost one. Each is proved
  equal to a specification function that follows the source's order of
  pushes (`Lines`, `AdjacencyTable`, `Triangles`). Lemmas then show that
  the outputs are exactly the intersecting pairs and the 3-cliques, in
  lexicographic order and so without repeats.
- `RipsProperties` (`rips_properties.dfy`): growth of the complex with the
  radius, degenerate inputs, and two worked configurations.

The triangle pass is stated over any adjacency table whose i-th set holds
ascending indices above i (`Rips.HigherNeighbours`). This is the property
that stops a triangle from being emitted twice: `[i, j, k]` can only arise
from i's own set with j < k.

Two consequences of the code as written:

- The code has no check for a negative radius or for non-finite
  coordinates. A negative radius behaves like its absolute value, because
  the test squares `radius0 + radius1`, so the model has no error path.
- For the points (0,0), (1,0), (0,1), (10,10) with radius 1, points 1 and 2
  are √2 ≤ 2 apart. The closed test joins them, so the first three points
  form the triangle [0, 1, 2] (`RipsProperties.UnitSquareCorner`).

## Model

| member | source | states |
|---|---|---|
| `Geometry.LinearMap` | simplicial.js:1-13 | For x0 ≠ x1, the value x0 is mapped to y0 and the value x1 is mapped to y1. |
| `Geometry.LinearMapBounded` | simplicial.js:2-13 | For x0 < x1, y0 ≤ y1 and a value in [x0, x1], the result lies in [y0, y1]. |
| `Geometry.LinearMapMonotone` | simplicial.js:11-13 | For x0 < x1 and y0 ≤ y1, the map preserves order. |
| `Geometry.LinearMapRoundTrip` | simplicial.js:11-13 | Mapping [x0, x1] onto [y0, y1] and then [y0, y1] back onto [x0, x1] returns the original value (x0 ≠ x1, y0 ≠ y1). |
| `Geometry.Distance2` | simplicial.js:24-28 | The squared distance is never negative, and it is 0 for coincident points. |
| `Geometry.Distance2Symmetric` | simplicial.js:24-28 | distance2 gives the same value with its two points swapped. |
| `Geometry.IntersectsSymmetric` | simplicial.js:41-44 | doCircleIntersects gives the same answer with its two circles swapped. |
| `Geometry.IntersectsIffWithinSumOfRadii` | simplicial.js:41-44 | For non-negative radii, the circles intersect iff the distance between the centres is at most r0 + r1. |
| `Geometry.DoCircleIntersects` | simplicial.js:41-44 | The closed test: true exactly when distance2 ≤ (radius0 + radius1)², so tangent circles count as intersecting. Its properties are the lemmas below. |
| `Geometry.CoincidentCirclesIntersect` | simplicial.js:41-44 | Circles with the same centre always intersect, whatever the radii. |
| `Geometry.TangentCirclesIntersect` | simplicial.js:41-44 | Tangent circles (distance² = (r0 + r1)²) count as intersecting, because the test is closed (≤). |
| `Geometry.IntersectsMonotone` | simplicial.js:41-44 | If the circles intersect and 0 ≤ r0 + r1 ≤ s0 + s1, they still intersect with radii s0, s1. |
| `IndexSets.Add` | simplicial.js:60 | `set.add(x)` leaves the set holding exactly its old elements plus x, and it still has no repeats. |
| `IndexSets.IntersectionMembers` | simplicial.js:52-63 | The intersection holds exactly the elements that are in both operands. |
| `IndexSets.IntersectionIncreasing` | simplicial.js:59-60 | Iterating an ascending set gives an ascending intersection. |
| `IndexSets.IntersectionOperandsCommute` | simplicial.js:53-57 | Swapping the operands does not change which elements the intersection holds. |
| `IndexSets.Intersect` | simplicial.js:52-63 | The loop over `a` returns `Intersection(a, b)`: exactly the common elements, in `a`'s order, without repeats. |
| `Rips.NeighboursMembers` | simplicial.js:78-82 | After the inner loop has reached hi, the set of i holds exactly the j with i < j < hi whose disks meet that of i. |
| `Rips.AdjacencySetSpec` | simplicial.js:76-85 | `intersectionsWith[i]` holds exactly the j with i < j < n whose disks meet that of i, in ascending order. |
| `Rips.IndexNeighbours` | simplicial.js:76-85 | The first pass returns n sets, each holding exactly the intersecting higher neighbours, and `lines` equal to `Lines(points, r)`. |
| `Rips.TestHigherPoints` | simplicial.js:77-83 | The inner loop for point i leaves the set of i equal to its intersecting higher neighbours and appends [i, j] to `lines` for each of them, in ascending j. |
| `Rips.LinesSpec` | simplicial.js:76-83 | `lines` holds exactly the pairs (i, j) with i < j < n whose disks meet, in strictly increasing lexicographic order, so no pair appears twice. |
| `Rips.RowTrianglesMembers` | simplicial.js:88-92 | For point i, the triangles pushed are exactly the (i, j, k) with j in the walked part of i's set and k in both i's set and j's set. |
| `Rips.TrianglesBeforeMembers` | simplicial.js:87-93 | For any higher-neighbour table, `triangles` holds exactly the (i, j, k) with j and k in i's set and k in j's set. |
| `Rips.CollectRowTriangles` | simplicial.js:88-92 | One step of the outer forEach pushes exactly `RowTriangles(adj, i, adj[i])`. |
| `Rips.PushFan` | simplicial.js:90-92 | The innermost forEach appends [i, j, k] for every k of the intersection, in its order, and keeps what was pushed before. |
| `Rips.CollectTriangles` | simplicial.js:87-93 | The second pass returns the triangles of the table in the order they are pushed. |
| `Rips.TrianglesSpec` | simplicial.js:87-93 | `triangles` holds exactly the i < j < k < n whose three disks pairwise meet, in strictly increasing lexicographic order, so no triangle appears twice. |
| `Rips.CliqueCondition` | simplicial.js:76-93 | A triple (i, j, k) with i < j < k is a triangle iff (i, j), (i, k) and (j, k) are all lines. |
| `Rips.VietorisRips` | simplicial.js:71-96 | The returned lines and triangles equal the specification functions: exactly the edges and the 3-cliques, each in lexicographic order. |
| `RipsProperties.MeetsSymmetric` | simplicial.js:79 | The edge test on points i and j does not depend on their order. |
| `RipsProperties.MeetsMonotone` | simplicial.js:41-44 | Two points joined at radius r ≥ 0 stay joined at any r' ≥ r. |
| `RipsProperties.LinesMonotone` | simplicial.js:76-83 | For 0 ≤ r ≤ r', every line at radius r is also a line at radius r'. |
| `RipsProperties.TrianglesMonotone` | simplicial.js:87-93 | For 0 ≤ r ≤ r', every triangle at radius r is also a triangle at radius r'. |
| `RipsProperties.AtMostOnePoint` | simplicial.js:76-93 | Zero or one point give no lines and no triangles. |
| `RipsProperties.FewerThanThreePoints` | simplicial.js:87-93 | Fewer than three points give no triangles. |
| `RipsProperties.PairIsLineIffWithinTwoRadii` | simplicial.js:41-44 | For any two points at distance d and radius r ≥ 0, the lines are [[0, 1]] when d ≤ 2r (tangent disks included) and empty when d > 2r. |
| `RipsProperties.UnitSquareCorner` | simplicial.js:71-96 | Points (0,0), (1,0), (0,1), (10,10) with radius 1 give lines [0,1], [0,2], [1,2] and the triangle [0,1,2]. |

## Left out

- `drawCircle`, `randomFromCircle`, `Renderer` and the `load`, `resize` and
  slider handlers (simplicial.js:98-283): canvas drawing, DOM access and
  random demo points, with no contract to state. The render cap on the
  number of triangles is part of this presentation code.
- slider/slider.js: mouse state, element geometry and event dispatch.
  Nothing in it is part of this model.
- IEEE-754 rounding, NaN and infinities: coordinates, radii and results are
  exact `real`s.
- `Geometry.LinearMap`: requires x0 ≠ x1. When x0 = x1, JavaScript divides by
  zero and returns NaN or ±Infinity, which a `real` cannot represent. Its
  doc comment allows x0 = x1.
- `IndexSets.Intersect`: the operand swap under `b.length < a.length` is not
  modelled. A `Set` has no `length` property, so the guard compares
  `undefined < undefined`, which is always false, and `a` is always the set
  iterated. `IndexSets.IntersectionOperandsCommute` shows a swap would not
  change the elements anyway.
- `IndexSets.Intersect`: requires its first operand to have no repeats.
  This is what a JavaScript `Set` always is.
- `RipsProperties.LinesMonotone`, `RipsProperties.TrianglesMonotone` and
  `RipsProperties.MeetsMonotone`: stated only for 0 ≤ r ≤ r'. With a negative
  radius the code's test depends on |r|, so it is not monotone in r.
- No fail-fast error path for a negative radius or a non-finite coordinate,
  because the code has none.
- The JavaScript objects `{lines, triangles}` and the `[i, j]` /
  `[i, j, k]` arrays become a pair of results and tuples.
