# BSP segment/triangle intersection library, modelled in Dafny

This project models `src/poligono.hpp`, a small C++ library that:
- indexes a set of triangles in a binary space partitioning (BSP) tree;
- finds the triangles a segment crosses.

The model covers these parts of the library:

- **Vector algebra** (`ponto` `+`, `-`, scalar `*`, `prod_vetorial`, `prod_escalar`):
  - module `Geometry`;
  - coordinates are exact `real`s.
- **The splitting plane** (`hiperplano`):
  - module `Planes`;
  - built from a triangle as `normal = (v1 - v0) x (v2 - v0)` and `d = -normal . v0`;
  - its signed value is `meioEspaco`;
  - segments are classified by `ladoSegmento` and triangles by `ladoTriangulo`;
  - every "on the plane" decision uses the fixed tolerance `EPS = 1E-9`;
  - `ladoTriangulo`'s vertex loop is the method `ClassifyTriangle`, which returns the verdict as written, `TriangleSideAsWritten`.
- **The triangle splitter** (`intersecta_plano_segmento`, `split_triangulo`):
  - module `Splitter`;
  - the splitter's bucketing loop is the method `SplitTriangle`.
- **The tree builder** `criaBSP`:
  - module `Bsp`;
  - the specification functions `Build`/`Grow` (the recursion) and `Lists`/`Loop`/`Step` (the loop over `s[1..]` that fills `sPlus`, `sMinus` and `sPlane`);
  - they take the vertex rule of the triangle verdict as a parameter `rule`: `AsWritten` is the code, `Consistent` the corrected rule (see "The tolerance rules");
  - the methods `Partition` (the loop) and `CriaBSP` (the recursion), which compute `Build(AsWritten, s, fuel)`, the tree the code builds.
- **The segment/triangle test** `intersecta_segmento_triangulo`:
  - module `Intersection`;
  - the Möller–Trumbore test in the non-parallel case;
  - in the coplanar case, the fall-back on `orientacao_coplanar`, `ponto_no_segmento`, `intersecta_segmentos_coplanares` and `ponto_dentro_triangulo_coplanar`.
- **The search** `busca_intersecao`:
  - module `Traversal`;
  - the method `BuscaIntersecao`, which computes `QueryAsWritten`, the search as written;
  - the specification function `Query`, the corrected search.
- **Two defects of the library**: modules `LostTriangle` and `MissedHit`, described under Findings.

Modelling choices:

- **The tree.** It is the datatype `BSP = Nil | Node(plane, onPlane, left, right)`. `Nil` stands for the null pointer, and `IsLeaf` for `ehFolha`.
- **Fuel.** `criaBSP` has no decreasing measure, because splitting can enlarge the lists it recurses on. The builder therefore takes a `fuel` bound and returns `None` if it runs out.
  - `Bsp.BuildFuelMonotone` proves that more fuel never changes a result that was found.
- **The output vector.** `busca_intersecao` appends to a vector passed by reference. Here the vector goes in as `ids` and comes back extended.
- **The tolerance rules.** The library classifies a point against a plane in two ways:
  - `ladoSegmento` (src/poligono.hpp:90-104) and the vertex loop of `split_triangulo` (src/poligono.hpp:171-181) use "above when the value is > EPS, below when it is < -EPS, on the plane otherwise" (`Plane.Where`);
  - `ladoTriangulo` (src/poligono.hpp:110-115) uses "on the plane when |value| < EPS, else by the sign" (`Plane.WhereAsWritten`).
  - The two rules differ exactly at the values +EPS and -EPS. The model follows the code: `ClassifyTriangle`, `Partition` and `CriaBSP` use the rule as written. `Build(Consistent, …)` is the builder with one rule in both places, the correction of Finding 1.
- **The search.** At a node whose plane contains the segment (`NoPlano`, src/poligono.hpp:451-453), the code tests the node's own triangles and does not descend. `BuscaIntersecao` and `QueryAsWritten` do the same. `Query` descends into both subtrees there, the correction of Finding 2.

## Model

| member | source | states |
|---|---|---|
| Geometry.Point.Add | src/poligono.hpp:47 | no contract; the coordinate-wise sum `operator+`, characterised by `Geometry.DotAdd` and `Geometry.CrossAddLeft` |
| Geometry.Point.Sub | src/poligono.hpp:46 | no contract; the coordinate-wise difference `operator-`, characterised by `Geometry.SubAddInverse` and `Geometry.DotAdd` |
| Geometry.Point.Scale | src/poligono.hpp:48 | no contract; the scalar product `operator*`, characterised by `Geometry.DotScale`, `Geometry.ScaleDistributes` and `Geometry.CrossScaleLeft` |
| Geometry.Cross | src/poligono.hpp:150 | no contract; `prod_vetorial`, characterised by `Geometry.CrossOrthogonal`, `Geometry.CrossAntisymmetric` and `Geometry.TripleCyclic` |
| Geometry.Dot | src/poligono.hpp:153 | no contract; `prod_escalar`, characterised by `Geometry.DotSymmetric`, `Geometry.DotAdd` and `Geometry.DotScale` |
| Geometry.Tri.Edges | src/poligono.hpp:68-72 | the two edge vectors lead from the first vertex to the second and to the third |
| Geometry.CrossOrthogonal | src/poligono.hpp:149-153 | the cross product is orthogonal to both of its factors |
| Geometry.CrossAntisymmetric | src/poligono.hpp:150 | swapping the factors of the cross product negates it |
| Geometry.TripleCyclic | src/poligono.hpp:149-153 | the triple product a . (b x c) is invariant under cyclic rotation |
| Geometry.DotAdd | src/poligono.hpp:153 | the dot product distributes over vector sum and difference |
| Planes.Plane.Eval | src/poligono.hpp:88 | no contract; `meioEspaco`, normal . p + d, characterised by `Planes.PlaneOfContains` and `Planes.EvalAlong` |
| Planes.Plane.Where | src/poligono.hpp:171-181 | no contract; the vertex rule of `split_triangulo` and `ladoSegmento` (above beyond EPS, below under -EPS), characterised by `Planes.TriangleSideCases` and `Planes.TriangleSidesAgree` |
| Planes.Plane.WhereAsWritten | src/poligono.hpp:110-115 | no contract; the vertex rule of `ladoTriangulo` (on the plane when \|value\| < EPS, else by sign), characterised by `Planes.TriangleSideAsWrittenCases` and `Planes.TriangleSidesAgree` |
| Planes.Plane.SegmentSide | src/poligono.hpp:90-104 | Positive iff both endpoint values exceed EPS, Negative iff both are below -EPS, OnPlane iff both lie in [-EPS, EPS], Intersects iff the endpoints lie on different sides, one of them possibly on the plane |
| Planes.PlaneOf | src/poligono.hpp:81-86 | the `hiperplano` constructor: its normal is the cross product of the two edges; `Planes.PlaneOfContains` proves the plane passes through the three vertices |
| Planes.PlaneOfContains | src/poligono.hpp:81-86 | the plane built from a triangle has value 0 at each of its three vertices |
| Planes.PivotOnItsPlane | src/poligono.hpp:243-248 | the pivot is classified OnPlane by its own plane, as its place at the head of `sPlane` requires |
| Planes.ClassifyTriangle | src/poligono.hpp:106-124 | the counting loop over the vertices, with the test \|value\| < EPS of line 110, returns the verdict as written `TriangleSideAsWritten` |
| Planes.TriangleSideAsWritten | src/poligono.hpp:106-124 | no contract; `ladoTriangulo` as written, characterised by `Planes.TriangleSideAsWrittenCases` and computed by `Planes.ClassifyTriangle` |
| Planes.TriangleSide | src/poligono.hpp:106-124 | no contract; `ladoTriangulo` with the vertex rule of `split_triangulo`, characterised by `Planes.TriangleSideCases` |
| Planes.ThreeVertexVerdict | src/poligono.hpp:117-123 | for three vertex sides: OnPlane iff all on, Positive iff one above and none below, Negative iff one below and none above, Intersects iff one above and one below |
| Planes.TriangleSideAsWrittenCases | src/poligono.hpp:106-124 | `ladoTriangulo` as written: OnPlane iff every \|value\| < EPS; Positive iff some value >= EPS and none <= -EPS; Negative symmetrically; Intersects iff some value >= EPS and some <= -EPS |
| Planes.TriangleSideCases | src/poligono.hpp:171-181 | the consistent rule, with the bounds of `split_triangulo`'s vertex loop: OnPlane iff every \|value\| <= EPS, and the same iff-statements with strict sides beyond EPS |
| Planes.TriangleSidesAgree | src/poligono.hpp:110-115 | both rules give the same verdict whenever no vertex value is exactly +EPS or -EPS |
| Planes.NearPointsOnPlane | src/poligono.hpp:90-104 | a segment whose endpoints have \|value\| < EPS is OnPlane, and its start is on the plane under both vertex rules |
| Planes.PositiveSegmentAbove | src/poligono.hpp:90-98 | every point of a Positive segment has value above EPS |
| Splitter.Crossing | src/poligono.hpp:158-163 | for a nonzero denominator, the crossing point lies exactly on the plane |
| Splitter.OppositeSidesCross | src/poligono.hpp:158-163 | when one end is strictly above and the other strictly below, the denominator `normal . (p2 - p1)` is nonzero |
| Splitter.CrossingParameter | src/poligono.hpp:161 | for endpoint values of opposite signs, the line parameter of the crossing lies strictly between 0 and 1 |
| Splitter.CrossingBetween | src/poligono.hpp:158-163 | the crossing lies between its endpoints: any half-space q(x) <= c holding both endpoints holds it |
| Splitter.Bucket | src/poligono.hpp:171-181 | a bucket holds as many vertices as the vertex classes count on that side, and only vertices of that side |
| Splitter.Fragments | src/poligono.hpp:183-233 | the case analysis on the bucket sizes: every fragment carries the given id; characterised further by `Splitter.SplitCounts`, `Splitter.SplitSides` and `Splitter.SplitInHalfSpace` |
| Splitter.Split | src/poligono.hpp:168-233 | no contract; `split_triangulo` as a function, computed by `Splitter.SplitTriangle` and characterised by `Splitter.SplitOneSided`, `Splitter.SplitCounts`, `Splitter.SplitSides` and `Splitter.SplitInHalfSpace` |
| Splitter.SplitTriangle | src/poligono.hpp:168-233 | the bucketing loop and the case analysis return exactly `Split` |
| Splitter.SplitOneSided | src/poligono.hpp:186-190 | with no vertex strictly above, or none strictly below, both fragment lists are empty |
| Splitter.SplitFragmentsWellFormed | src/poligono.hpp:201-229 | every fragment carries the id of the split triangle; a fragment has exactly three vertices by its type |
| Splitter.SplitCounts | src/poligono.hpp:192-230 | fragment counts per case: 1 above and 2 below give 1 + 2, 2 above and 1 below give 2 + 1, 1 and 1 give 1 + 1, and a straddling triangle always yields fragments on both sides |
| Splitter.SplitSides | src/poligono.hpp:192-230 | no vertex of a positive fragment is below the plane and no vertex of a negative fragment is above it |
| Splitter.SplitInHalfSpace | src/poligono.hpp:192-230 | fragments stay inside every half-space that holds the original triangle |
| Bsp.BSP.IsLeaf | src/poligono.hpp:138 | no contract; `ehFolha`: both children are `Nil` |
| Bsp.Place | src/poligono.hpp:254-272 | no contract; one pass of the `switch` on the verdict, characterised by `Bsp.PlaceExtendsPlane`, `Bsp.PlaceMultiset`, `Bsp.PlaceIdsWithin`, `Bsp.PlaceSided` and `Bsp.PlaceInHalfSpace` |
| Bsp.Lists | src/poligono.hpp:243-273 | no contract; the three lists the loop fills from `sPlane = [s[0]]`, computed by `Bsp.Partition` |
| Bsp.Build | src/poligono.hpp:237-279 | no contract; `criaBSP` for a given vertex rule, computed by `Bsp.CriaBSP` for the rule as written and characterised by the lemmas below |
| Bsp.Grow | src/poligono.hpp:243-278 | no contract; the nonempty case of `criaBSP`: the node over the trees of `sMinus` and `sPlus`, unfolded by `Bsp.BuildStep` |
| Bsp.BuildShape | src/poligono.hpp:237-279 | a built tree is `Nil` iff the input is empty; otherwise its root plane is the plane of `s[0]` and `s[0]` heads the root's on-plane list |
| Bsp.BuildStep | src/poligono.hpp:275-278 | with fuel left, the tree of a nonempty list is the node of the pivot's plane and `sPlane` over the trees of `sMinus` (left) and `sPlus` (right), or `None` when either subtree runs out of fuel |
| Bsp.LoopStep | src/poligono.hpp:250-273 | one pass of the loop places the next triangle by its verdict and continues with the rest |
| Bsp.Loop | src/poligono.hpp:250-273 | the loop only appends to `sPlane`: the on-plane list accumulated so far is a prefix of the result |
| Bsp.PlaceExtendsPlane | src/poligono.hpp:254-272 | one step of the loop only appends to `sPlane` |
| Bsp.PlaceMultiset | src/poligono.hpp:254-272 | one step adds the triangle, or its fragments when it Intersects, to the three lists and removes nothing |
| Bsp.SplitIds | src/poligono.hpp:264-268 | the fragments of a straddling triangle carry exactly its id |
| Bsp.PlaceIdsWithin | src/poligono.hpp:250-273 | under any verdict, one step adds no id other than the placed triangle's |
| Bsp.PlaceKeepsIds | src/poligono.hpp:250-273 | under the consistent verdict, one step adds exactly the placed triangle's id to the ids held in the three lists |
| Bsp.Partition | src/poligono.hpp:243-273 | the loop method over `s[1..]`, with the verdict as written, returns the lists of `Loop(AsWritten, …)` started from `sPlane = [pivo]` |
| Bsp.CriaBSP | src/poligono.hpp:237-279 | the builder method returns `Build(AsWritten, s, fuel)`, the tree of the code |
| Bsp.LoopIds | src/poligono.hpp:250-273 | the loop invents no id, under either rule; under the consistent rule it keeps every id |
| Bsp.BuildIds | src/poligono.hpp:237-279 | the ids stored in a built tree are among the input's ids under either rule, and exactly the input's ids under the consistent rule |
| Bsp.BuildKeepsEveryId | src/poligono.hpp:237-279 | under the consistent rule, every input triangle is represented in the tree by a triangle with its id |
| Bsp.BuildFuelMonotone | src/poligono.hpp:237-279 | once the fuel suffices, more fuel yields the same tree |
| Bsp.VerdictBoundsVertices | src/poligono.hpp:106-124 | under either rule, no vertex of a Negative triangle is above the plane, none of a Positive triangle below, and an OnPlane triangle is OnPlane under the consistent rule too |
| Bsp.PlaceSided | src/poligono.hpp:250-273 | one step keeps the three lists sided: the on-plane list holds OnPlane triangles, and each side list holds triangles in its closed half-space |
| Bsp.LoopSided | src/poligono.hpp:250-273 | the whole loop keeps the three lists sided |
| Bsp.PlaceInHalfSpace | src/poligono.hpp:250-273 | one step keeps every list inside a half-space that holds the placed triangle and the lists |
| Bsp.LoopInHalfSpace | src/poligono.hpp:250-273 | the loop over triangles of a half-space keeps the lists inside it |
| Bsp.BuildInHalfSpace | src/poligono.hpp:237-279 | a tree built from triangles inside a half-space stores only triangles inside it |
| Bsp.BuildPartitioned | src/poligono.hpp:237-279 | under either rule, in a built tree each node's own triangles lie on its plane, its left subtree in value <= EPS and its right subtree in value >= -EPS |
| Bsp.SingleLeaf | src/poligono.hpp:237-279 | one triangle builds a single leaf holding it |
| Bsp.TwoBelow | src/poligono.hpp:254-259 | a second triangle with verdict Negative becomes a leaf in the left subtree of the pivot's node |
| Bsp.TwoDropped | src/poligono.hpp:264-268 | a second triangle with verdict Intersects that splits into nothing leaves the pivot alone in the tree |
| LostTriangle.LostPivotPlane | src/poligono.hpp:81-86 | the pivot (0,0,0), (1,0,0), (0,1,0) has the plane z = 0 |
| LostTriangle.StraddlesAsWritten | src/poligono.hpp:106-124 | `ladoTriangulo` as written calls the triangle (0,0,EPS), (1,0,-1), (0,1,-1) Intersects against z = 0 |
| LostTriangle.NoFragments | src/poligono.hpp:171-190 | `split_triangulo` finds no vertex of that triangle above z = 0 and returns two empty lists |
| LostTriangle.LostUnderRuleAsWritten | src/poligono.hpp:264-268 | placing that triangle by the verdict as written leaves all three lists empty |
| LostTriangle.KeptUnderConsistentRule | src/poligono.hpp:254-259 | under the consistent rule the triangle is Negative and goes to `sMinus` |
| LostTriangle.LostFromTree | src/poligono.hpp:237-279 | for a pivot and a triangle the verdict as written calls Intersects, which splits into nothing and is Negative under the consistent rule: the tree as written loses its id, the consistent tree keeps it |
| LostTriangle.LostTriangleAsWritten | src/poligono.hpp:110-115 | the concrete pivot and triangle meet the three premises of `LostFromTree` |
| Intersection.Orientation | src/poligono.hpp:287-296 | no contract; `orientacao_coplanar`, characterised by `Intersection.OrientationSwap`, `Intersection.OrientationCyclic`, `Intersection.OrientationDegenerate` and `Intersection.NonnegativeTurn` |
| Intersection.OnSegment | src/poligono.hpp:300-304 | no contract; `ponto_no_segmento`, characterised by `Intersection.OnSegmentCovers` |
| Intersection.SegmentsIntersectCoplanar | src/poligono.hpp:308-332 | no contract; `intersecta_segmentos_coplanares`, characterised by `Intersection.SegmentsIntersectSymmetric`, `Intersection.SegmentsIntersectReverse`, `Intersection.SharedEndpointIntersects` and `Intersection.EndpointOnOtherIntersects` |
| Intersection.PointInTriangleCoplanar | src/poligono.hpp:337-347 | no contract; `ponto_dentro_triangulo_coplanar`, characterised by `Intersection.PointInTriangleCases`, `Intersection.VerticesInside` and `Intersection.BarycentricInside` |
| Intersection.MollerTrumbore | src/poligono.hpp:396-417 | no contract; the non-parallel branch, characterised by `Intersection.MollerTrumboreExact` |
| Intersection.IntersectsSegmentTriangle | src/poligono.hpp:352-418 | no contract; `intersecta_segmento_triangulo`, characterised by `Intersection.IntersectsNonParallel`, `Intersection.ParallelOffPlaneMisses`, `Intersection.ParallelTouchingHits`, `Intersection.ParallelThroughVertexHits` and `Intersection.ParallelInsideHits` |
| Intersection.OrientationSwap | src/poligono.hpp:287-296 | swapping the last two points negates the orientation |
| Intersection.OrientationCyclic | src/poligono.hpp:287-296 | the orientation is invariant under cyclic rotation of the three points |
| Intersection.OrientationDegenerate | src/poligono.hpp:287-296 | a repeated point gives orientation 0 |
| Intersection.OnSegmentCovers | src/poligono.hpp:300-304 | every point of the segment, its endpoints included, passes the bounding-box test |
| Intersection.SegmentsIntersectSymmetric | src/poligono.hpp:308-332 | the coplanar segment test is symmetric in its two segments |
| Intersection.SegmentsIntersectReverse | src/poligono.hpp:308-332 | reversing the first segment does not change the coplanar segment test |
| Intersection.SharedEndpointIntersects | src/poligono.hpp:308-332 | segments sharing an endpoint intersect |
| Intersection.EndpointOnOtherIntersects | src/poligono.hpp:322-323 | an endpoint of the second segment lying anywhere on the first (at a parameter in [0, 1]) is detected through the collinear branch `o1 == 0 && ponto_no_segmento` |
| Intersection.PointInTriangleCases | src/poligono.hpp:337-347 | a point is inside iff the three edge orientations do not include both +1 and -1 |
| Intersection.VerticesInside | src/poligono.hpp:337-347 | each vertex of the triangle passes the inside test |
| Intersection.BarycentricInside | src/poligono.hpp:337-347 | every point u e1 + v e2 from the first vertex with u, v >= 0 and u + v <= 1 passes the inside test against the triangle's normal |
| Intersection.CombinationTurn | src/poligono.hpp:287-296 | two points given as edge combinations whose coefficient determinant is nonnegative have nonnegative orientation against `e1 x e2` |
| Intersection.NonnegativeTurn | src/poligono.hpp:287-296 | a turn that is a nonnegative multiple of the normal has orientation 0 or +1 |
| Intersection.CrossCombination | src/poligono.hpp:149-153 | the cross product of two combinations of a and b is `a x b` times the determinant of the coefficients |
| Intersection.CoordinatesMeet | src/poligono.hpp:397-410 | the computed (u, v, t) locate a common point: start + t d == v0 + u e1 + v e2 |
| Intersection.CoordinatesUnique | src/poligono.hpp:397-410 | those coordinates are the only ones at which the segment's line meets the triangle's plane |
| Intersection.MollerTrumboreExact | src/poligono.hpp:397-417 | for a nonzero determinant, the Möller–Trumbore test accepts iff the line meets the closed triangle (u, v >= 0, u + v <= 1) at a parameter in (EPS, 1 + EPS) |
| Intersection.IntersectsNonParallel | src/poligono.hpp:352-418 | when \|a\| >= EPS, `intersecta_segmento_triangulo` holds iff that meeting exists |
| Intersection.DeterminantNormal | src/poligono.hpp:354-360 | the determinant `a` is minus the normal's component along the segment's direction |
| Intersection.ParallelEvalConstant | src/poligono.hpp:363-372 | along a segment with `a == 0` the plane's value is constant |
| Intersection.EvalBarycentric | src/poligono.hpp:81-86 | a plane's value at a point of the triangle is the weighted mean of its values at the vertices |
| Intersection.BarycentricOnPlane | src/poligono.hpp:81-86 | every point of the triangle's span lies on the triangle's plane |
| Intersection.ParallelOffPlaneMisses | src/poligono.hpp:363-372 | with `a == 0` and the start more than EPS from the plane, the segment's line meets the triangle's span at no (u, v, t), and the test rejects it |
| Intersection.ParallelTouchingHits | src/poligono.hpp:374-383 | a parallel segment within EPS of the plane that shares an endpoint with the triangle hits |
| Intersection.ParallelThroughVertexHits | src/poligono.hpp:374-383 | a parallel segment within EPS of the plane that passes through a vertex of the triangle, anywhere along it, hits: the edge leaving that vertex is reported by `intersecta_segmentos_coplanares` |
| Intersection.ParallelInsideHits | src/poligono.hpp:385-389 | a (nearly) parallel segment that starts at a point of the closed triangle hits it |
| Traversal.NodeHits | src/poligono.hpp:430-434 | no contract; the ids of a node's triangles the segment hits, characterised by `Traversal.NodeHitsExact` and computed by `Traversal.TestOnPlane` |
| Traversal.QueryAsWritten | src/poligono.hpp:423-460 | no contract; `busca_intersecao` as written, computed by `Traversal.BuscaIntersecao` and characterised by `Traversal.QueryAsWrittenSound`, `Traversal.QueryAsWrittenWithin` and `Traversal.BuiltTreeCompleteAsWritten` |
| Traversal.Query | src/poligono.hpp:423-460 | no contract; the corrected search, characterised by `Traversal.QuerySound`, `Traversal.QueryComplete` and `Traversal.BuiltTreeComplete` |
| Traversal.NodeHitsExact | src/poligono.hpp:430-434 | the ids the node loop appends are exactly the ids of the node's triangles the segment hits |
| Traversal.TestOnPlane | src/poligono.hpp:430-434 | the loop over `triangulosSobrePlano` appends exactly those hit ids, in order, to the vector |
| Traversal.BuscaIntersecao | src/poligono.hpp:423-460 | the search only appends: the result is the input vector followed by the ids of `QueryAsWritten`, the search as written |
| Traversal.QueryLeaf | src/poligono.hpp:437-439 | at a leaf the search reports the node's hits and stops |
| Traversal.QueryStops | src/poligono.hpp:451-453 | at an inner node whose plane holds the segment, the search as written reports the node's hits and stops |
| Traversal.QueryOneSide | src/poligono.hpp:444-450 | a Positive segment continues in the right subtree only, a Negative one in the left subtree only |
| Traversal.QueryBothSides | src/poligono.hpp:454-458 | a segment crossing the plane is searched in the left subtree, then in the right |
| Traversal.QuerySound | src/poligono.hpp:423-460 | every id the corrected search reports belongs to a triangle stored in the tree that the segment hits |
| Traversal.QueryAsWrittenWithin | src/poligono.hpp:451-453 | the search as written reports a sub-multiset of what the corrected search reports |
| Traversal.QueryAsWrittenSound | src/poligono.hpp:423-460 | the search as written is sound too: only stored triangles the segment hits are reported |
| Traversal.MeetingNotPositive | src/poligono.hpp:444-450 | a segment meeting a triangle of the closed negative half-space is not classified Positive, so going right alone loses nothing on the left |
| Traversal.MeetingNotNegative | src/poligono.hpp:444-450 | symmetrically, such a segment meeting a positive-side triangle is not classified Negative |
| Traversal.QueryComplete | src/poligono.hpp:423-460 | on a partitioned tree, every stored triangle that the test accepts and that the segment meets at a parameter in [0, 1] is reported by the corrected search |
| Traversal.QueryMatchesScan | src/poligono.hpp:423-460 | for such triangles, the tree search and a linear scan of all stored triangles agree |
| Traversal.BuiltTreeComplete | src/poligono.hpp:237-279 | the completeness of `QueryComplete` holds on every tree the builder makes, under either rule |
| Traversal.QueryAsWrittenAgrees | src/poligono.hpp:451-453 | when no inner node's plane classifies the segment OnPlane, the search as written equals the corrected search |
| Traversal.BuiltTreeCompleteAsWritten | src/poligono.hpp:423-460 | for such segments, the search as written is complete on every built tree |
| MissedHit.TouchingTriangleBelow | src/poligono.hpp:106-124 | the triangle (5,5,0), (5,6,-1), (6,5,-1) is Negative against z = 0 under both rules |
| MissedHit.MissedHitAsWritten | src/poligono.hpp:451-453 | for a pivot, a triangle whose verdict as written is Negative, and a segment in the pivot's plane that meets the triangle at its first vertex: the tree as written is built, the search as written misses the triangle's id and the corrected search reports it |
| MissedHit.TouchingExample | src/poligono.hpp:451-453 | concrete data meeting those premises: pivot (0,0,0), (1,0,0), (0,1,0); triangle (5,5,0), (5,6,-1), (6,5,-1); segment (4,4,0) to (6,6,0) |
| MissedHit.TouchingMissed | src/poligono.hpp:451-453 | on that data, with ids 1 and 2, id 2 is missing from the search as written and present in the corrected search |

## Left out

- `src/main.cpp` (reading points and triangles, de-duplicating and printing the ids) and `draw/plot.py` (plotting): these are input/output, not logic.
- IEEE-754 rounding: coordinates are exact reals, and every comparison and division is exact.
- The epsilon-tolerant `ponto::operator==` (src/poligono.hpp:39-44): the core algorithms do not use it. Where the model compares points, it uses exact equality.
- Raw pointers, heap allocation and the recursive destructor of `BSPNode`: the tree is an algebraic datatype.
- The `std::runtime_error` of `getVetores`: triangles are the subset type `Triangle` with exactly three vertices. The vertex loops of `ladoTriangulo` and `split_triangulo` still accept any vertex list (`Tri`).
- Degenerate triangles with a zero normal: no property is claimed for them.
  - `Splitter.Crossing` requires its denominator to be nonzero. `Splitter.OppositeSidesCross` proves this at every call site.
  - The division `1.0 / a` is reached only when |a| >= EPS.
- Bsp.Build: the recursion has a fuel bound. A run that exhausts it returns `None`, whereas the source would keep recursing. `Bsp.BuildFuelMonotone` shows that fuel never changes a result once it is found.
- Splitter.SplitInHalfSpace: it bounds the fragments (no fragment leaves a half-space holding the triangle); it does not state the converse, that the fragments together cover the whole triangle.
- Traversal.BuiltTreeComplete: completeness is stated for the triangles stored in the tree, and only for those that the segment meets exactly, at a parameter in [0, 1].
  - It says nothing about input triangles the builder drops (Finding 1); for the consistent rule `Bsp.BuildKeepsEveryId` covers that gap by id, not by geometry.
  - Möller–Trumbore also accepts parameters up to 1 + EPS, just past the segment's end.
  - The coplanar branch accepts segments that are only within EPS of the triangle's plane.
  - For those near hits, the pruning by `ladoSegmento` can skip a subtree, so nothing is claimed for them.
- Traversal.QueryComplete: the same restriction to exact meetings at a parameter in [0, 1].
- Traversal.QueryMatchesScan: the same restriction to stored triangles met exactly at a parameter in [0, 1].
- Traversal.BuiltTreeCompleteAsWritten: the same restriction as `Traversal.BuiltTreeComplete`, stored triangles met exactly at a parameter in [0, 1], and in addition only for segments no inner node classifies OnPlane.

## Findings

| source | as written | input that shows it | evidently intended | confidence | as-written member | corrected member |
|---|---|---|---|---|---|---|
| src/poligono.hpp:110-115 | `ladoTriangulo` counts a vertex as on the plane only when \|value\| < EPS, and otherwise by its sign. `split_triangulo` (lines 174-180) counts it as on the plane when \|value\| <= EPS. A vertex at value exactly EPS is therefore "positive" for the verdict but "on the plane" for the split. A triangle can be declared Intersecta and then split into nothing, so `criaBSP` drops it from the tree. | pivot (0,0,0), (1,0,0), (0,1,0) (plane z = 0); triangle (0,0,1E-9), (1,0,-1), (0,1,-1). `ladoTriangulo` gives Intersecta, while `split_triangulo` finds no positive vertex and returns two empty lists. `LostTriangle.LostTriangleAsWritten` proves, for this data, the three premises of `LostTriangle.LostFromTree`. | classify vertices by one rule in both places, so the triangle is Negative and goes to `sMinus` | not executed | LostTriangle.LostFromTree | Bsp.BuildIds |
| src/poligono.hpp:451-453 | a segment lying in the node's plane (NoPlano) stops the search after the node's own triangles. A triangle in a subtree can still touch that plane, and such a segment can hit it. | `criaBSP` on [pivot (0,0,0), (1,0,0), (0,1,0) with id 1; triangle (5,5,0), (5,6,-1), (6,5,-1) with id 2]; segment (4,4,0) to (6,6,0). Triangle 2 lands in the left subtree. The segment is NoPlano at the root and hits triangle 2 at (5,5,0) with u = v = 0 and t = 0.5, but id 2 is not reported. | descend into both subtrees when the segment lies in the plane | not executed | MissedHit.TouchingMissed | Traversal.BuiltTreeComplete |
