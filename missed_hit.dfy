/** `busca_intersecao` stops when the segment lies in a node's plane, yet a
    triangle of a subtree may reach that plane with one vertex: a segment
    through that vertex hits it and the search as written never looks. */
module MissedHit {
  import opened Geometry
  import opened Planes
  import opened Bsp
  import opened Intersection
  import opened Traversal
  import opened LostTriangle

  /** A point at value 0 is on the plane. */
  lemma AtZero(pl: Plane, p: Point)
    requires pl.Eval(p) == 0.0
    ensures pl.Where(p) == On && pl.WhereAsWritten(p) == On
  {
  }

  /** The vertex sides of (5,5,0), (5,6,-1), (6,5,-1) with respect to z = 0:
      it touches the plane with its first vertex and lies below it otherwise,
      by either vertex rule. */
  lemma TouchingTriangleClasses(t: Tri)
    requires |t.vertices| == 3 && t.vertices[0] == Point(5.0, 5.0, 0.0)
    requires t.vertices[1] == Point(5.0, 6.0, -1.0) && t.vertices[2] == Point(6.0, 5.0, -1.0)
    ensures Classes(Plane(Point(0.0, 0.0, 1.0), 0.0), t.vertices) == [On, Below, Below]
    ensures ClassesAsWritten(Plane(Point(0.0, 0.0, 1.0), 0.0), t.vertices) == [On, Below, Below]
  {
    var pl := Plane(Point(0.0, 0.0, 1.0), 0.0);
    ClassesOfThree(pl, t.vertices);
    AtZero(pl, t.vertices[0]);
    AtMinusOne(pl, t.vertices[1]);
    AtMinusOne(pl, t.vertices[2]);
  }

  /** So it goes to the minus list of the plane z = 0 under either rule. */
  lemma TouchingTriangleBelow(t: Triangle)
    requires t.vertices[0] == Point(5.0, 5.0, 0.0)
    requires t.vertices[1] == Point(5.0, 6.0, -1.0) && t.vertices[2] == Point(6.0, 5.0, -1.0)
    ensures TriangleSideAsWritten(Plane(Point(0.0, 0.0, 1.0), 0.0), t) == Negative
    ensures TriangleSide(Plane(Point(0.0, 0.0, 1.0), 0.0), t) == Negative
  {
    TouchingTriangleClasses(t);
    ThreeVertexVerdict([On, Below, Below]);
  }

  /** The segment (4,4,0) to (6,6,0) lies in z = 0. */
  lemma SegmentInPlane(seg: Segment)
    requires seg == Segment(Point(4.0, 4.0, 0.0), Point(6.0, 6.0, 0.0))
    ensures Plane(Point(0.0, 0.0, 1.0), 0.0).SegmentSide(seg) == OnPlane
  {
  }

  /** The edge vectors of the touching triangle. */
  lemma TouchingEdges(t: Triangle)
    requires t.vertices[0] == Point(5.0, 5.0, 0.0)
    requires t.vertices[1] == Point(5.0, 6.0, -1.0) && t.vertices[2] == Point(6.0, 5.0, -1.0)
    ensures t.Edges() == (Point(0.0, 1.0, -1.0), Point(1.0, 0.0, -1.0))
  {
  }

  /** The segment is not parallel to the touching triangle: determinant 4. */
  lemma TouchingDeterminant(seg: Segment, t: Triangle)
    requires seg == Segment(Point(4.0, 4.0, 0.0), Point(6.0, 6.0, 0.0))
    requires t.Edges() == (Point(0.0, 1.0, -1.0), Point(1.0, 0.0, -1.0))
    ensures Determinant(seg, t) == 4.0
  {
    assert seg.Dir() == Point(2.0, 2.0, 0.0);
    assert Cross(Point(2.0, 2.0, 0.0), Point(1.0, 0.0, -1.0)) == Point(-2.0, 2.0, -2.0);
  }

  /** The barycentric point (0, 0) is the first vertex. */
  lemma BarycentricOrigin(t: Triangle)
    ensures Barycentric(t, 0.0, 0.0) == t.vertices[0]
  {
    var (e1, e2) := t.Edges();
    var v0 := t.vertices[0];
    assert e1.Scale(0.0) == Point(0.0, 0.0, 0.0);
    assert e2.Scale(0.0) == Point(0.0, 0.0, 0.0);
    assert v0.Add(Point(0.0, 0.0, 0.0)) == v0;
  }

  /** Half-way along, the segment (4,4,0) to (6,6,0) is at (5,5,0). */
  lemma HalfWay(seg: Segment)
    requires seg == Segment(Point(4.0, 4.0, 0.0), Point(6.0, 6.0, 0.0))
    ensures PointAt(seg, 0.5) == Point(5.0, 5.0, 0.0)
  {
    assert seg.Dir() == Point(2.0, 2.0, 0.0);
  }

  /** Half-way along, the segment is at the touching triangle's first vertex. */
  lemma TouchingMeeting(seg: Segment, t: Triangle)
    requires seg == Segment(Point(4.0, 4.0, 0.0), Point(6.0, 6.0, 0.0))
    requires t.vertices[0] == Point(5.0, 5.0, 0.0)
    ensures MeetsAt(seg, t, 0.0, 0.0, 0.5)
  {
    BarycentricOrigin(t);
    HalfWay(seg);
  }

  /** A segment that is not parallel to a triangle and meets it half-way at
      a vertex is accepted by the test. */
  lemma HitAtVertexHalfWay(seg: Segment, t: Triangle)
    requires Determinant(seg, t) == 4.0
    requires MeetsAt(seg, t, 0.0, 0.0, 0.5)
    ensures IntersectsSegmentTriangle(seg, t)
  {
    assert InTriangle(0.0, 0.0) && EPS < 0.5 < 1.0 + EPS;
    IntersectsNonParallel(seg, t);
  }

  /** What the touching triangle and the segment (4,4,0) to (6,6,0) are
      with respect to z = 0: the triangle goes to the minus list as
      `ladoTriangulo` is written, the segment
      lies in the plane, and the test accepts the segment against the
      triangle at its first vertex. */
  lemma TouchingFacts(seg: Segment, t: Triangle)
    requires t.vertices[0] == Point(5.0, 5.0, 0.0)
    requires t.vertices[1] == Point(5.0, 6.0, -1.0) && t.vertices[2] == Point(6.0, 5.0, -1.0)
    requires seg == Segment(Point(4.0, 4.0, 0.0), Point(6.0, 6.0, 0.0))
    ensures TriangleSideAsWritten(Plane(Point(0.0, 0.0, 1.0), 0.0), t) == Negative
    ensures Plane(Point(0.0, 0.0, 1.0), 0.0).SegmentSide(seg) == OnPlane
    ensures IntersectsSegmentTriangle(seg, t) && MeetsAt(seg, t, 0.0, 0.0, 0.5)
  {
    TouchingTriangleBelow(t);
    SegmentInPlane(seg);
    TouchingEdges(t);
    TouchingDeterminant(seg, t);
    TouchingMeeting(seg, t);
    HitAtVertexHalfWay(seg, t);
  }

  /** `criaBSP` as written on [pivot, t], t on the minus side of the pivot's
      plane, and a segment lying in that plane that hits t: the corrected
      search reports t, the search as written does not, since its descent
      stops at the root, which holds only the pivot. */
  lemma MissedHitAsWritten(pivo: Triangle, t: Triangle, seg: Segment)
    requires TriangleSideAsWritten(PlaneOf(pivo), t) == Negative
    requires pivo.id != t.id
    requires PlaneOf(pivo).SegmentSide(seg) == OnPlane
    requires IntersectsSegmentTriangle(seg, t) && MeetsAt(seg, t, 0.0, 0.0, 0.5)
    ensures Build(AsWritten, [pivo, t], 2).Some?
    ensures t.id !in QueryAsWritten(Build(AsWritten, [pivo, t], 2).value, seg)
    ensures t.id in Query(Build(AsWritten, [pivo, t], 2).value, seg)
  {
    TwoBelow(AsWritten, pivo, t);
    var tree := Build(AsWritten, [pivo, t], 2).value;
    assert !tree.IsLeaf();
    assert QueryAsWritten(tree, seg) == NodeHits(seg, [pivo]) + [];
    NodeHitsExact(seg, [pivo]);
    assert t in Stored(tree);
    BuiltTreeComplete(AsWritten, [pivo, t], 2, seg, t, 0.0, 0.0, 0.5);
  }

  /** The concrete instance: the pivot (0,0,0), (1,0,0), (0,1,0) with id 1,
      the touching triangle with id 2 and the segment (4,4,0) to (6,6,0)
      meet every premise of `MissedHitAsWritten`. */
  lemma TouchingExample(pivo: Triangle, t: Triangle, seg: Segment)
    requires pivo.vertices[0] == Point(0.0, 0.0, 0.0)
    requires pivo.vertices[1] == Point(1.0, 0.0, 0.0) && pivo.vertices[2] == Point(0.0, 1.0, 0.0)
    requires pivo.id == 1
    requires t.vertices[0] == Point(5.0, 5.0, 0.0)
    requires t.vertices[1] == Point(5.0, 6.0, -1.0) && t.vertices[2] == Point(6.0, 5.0, -1.0)
    requires t.id == 2
    requires seg == Segment(Point(4.0, 4.0, 0.0), Point(6.0, 6.0, 0.0))
    ensures TriangleSideAsWritten(PlaneOf(pivo), t) == Negative
    ensures pivo.id != t.id
    ensures PlaneOf(pivo).SegmentSide(seg) == OnPlane
    ensures IntersectsSegmentTriangle(seg, t) && MeetsAt(seg, t, 0.0, 0.0, 0.5)
  {
    LostPivotPlane(pivo);
    TouchingFacts(seg, t);
  }

  /** So on the tree `criaBSP` builds from those two triangles, the search as
      written does not report id 2 for the segment, which hits triangle 2 at
      (5,5,0), while the corrected search does. */
  lemma TouchingMissed(pivo: Triangle, t: Triangle, seg: Segment)
    requires pivo.vertices[0] == Point(0.0, 0.0, 0.0)
    requires pivo.vertices[1] == Point(1.0, 0.0, 0.0) && pivo.vertices[2] == Point(0.0, 1.0, 0.0)
    requires pivo.id == 1
    requires t.vertices[0] == Point(5.0, 5.0, 0.0)
    requires t.vertices[1] == Point(5.0, 6.0, -1.0) && t.vertices[2] == Point(6.0, 5.0, -1.0)
    requires t.id == 2
    requires seg == Segment(Point(4.0, 4.0, 0.0), Point(6.0, 6.0, 0.0))
    ensures Build(AsWritten, [pivo, t], 2).Some?
    ensures 2 !in QueryAsWritten(Build(AsWritten, [pivo, t], 2).value, seg)
    ensures 2 in Query(Build(AsWritten, [pivo, t], 2).value, seg)
  {
    TouchingExample(pivo, t, seg);
    MissedHitAsWritten(pivo, t, seg);
  }
}
