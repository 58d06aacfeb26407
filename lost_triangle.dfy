/** The vertex rule of `ladoTriangulo` disagrees with that of
    `split_triangulo` on a value of magnitude exactly EPS; a triangle caught
    between the two is dropped by `criaBSP`. */
module LostTriangle {
  import opened Geometry
  import opened Planes
  import opened Splitter
  import opened Bsp

  /** The pivot (0,0,0), (1,0,0), (0,1,0) spans the plane z = 0. */
  lemma LostPivotPlane(t: Tri)
    requires |t.vertices| == 3 && t.vertices[0] == Point(0.0, 0.0, 0.0) && t.vertices[1] == Point(1.0, 0.0, 0.0) && t.vertices[2] == Point(0.0, 1.0, 0.0)
    ensures PlaneOf(t) == Plane(Point(0.0, 0.0, 1.0), 0.0)
  {
    var e := t.Edges();
    assert e == (Point(1.0, 0.0, 0.0), Point(0.0, 1.0, 0.0));
    CrossUnit();
  }

  lemma CrossUnit()
    ensures Cross(Point(1.0, 0.0, 0.0), Point(0.0, 1.0, 0.0)) == Point(0.0, 0.0, 1.0)
  {
  }

  /** The sides of a three-vertex list are the sides of its three vertices. */
  lemma ClassesOfThree(pl: Plane, vs: seq<Point>)
    requires |vs| == 3
    ensures Classes(pl, vs) == [pl.Where(vs[0]), pl.Where(vs[1]), pl.Where(vs[2])]
    ensures ClassesAsWritten(pl, vs) ==
            [pl.WhereAsWritten(vs[0]), pl.WhereAsWritten(vs[1]), pl.WhereAsWritten(vs[2])]
  {
  }

  /** A point at value exactly EPS is on the plane by the consistent rule but
      above it by the rule as written. */
  lemma AtEps(pl: Plane, p: Point)
    requires pl.Eval(p) == EPS
    ensures pl.Where(p) == On && pl.WhereAsWritten(p) == Above
  {
  }

  /** A point at value -1 is below the plane by both rules. */
  lemma AtMinusOne(pl: Plane, p: Point)
    requires pl.Eval(p) == -1.0
    ensures pl.Where(p) == Below && pl.WhereAsWritten(p) == Below
  {
  }

  /** A triangle with one vertex at height exactly EPS and two below z = 0:
      its vertex sides under the two rules. */
  lemma LostTriangleClasses(t: Tri)
    requires |t.vertices| == 3 && t.vertices[0] == Point(0.0, 0.0, EPS)
    requires t.vertices[1] == Point(1.0, 0.0, -1.0) && t.vertices[2] == Point(0.0, 1.0, -1.0)
    ensures ClassesAsWritten(Plane(Point(0.0, 0.0, 1.0), 0.0), t.vertices) == [Above, Below, Below]
    ensures Classes(Plane(Point(0.0, 0.0, 1.0), 0.0), t.vertices) == [On, Below, Below]
  {
    var pl := Plane(Point(0.0, 0.0, 1.0), 0.0);
    ClassesOfThree(pl, t.vertices);
    AtEps(pl, t.vertices[0]);
    AtMinusOne(pl, t.vertices[1]);
    AtMinusOne(pl, t.vertices[2]);
  }

  /** Under the rule as written the triangle straddles z = 0. */
  lemma StraddlesAsWritten(t: Triangle)
    requires t.vertices[0] == Point(0.0, 0.0, EPS)
    requires t.vertices[1] == Point(1.0, 0.0, -1.0) && t.vertices[2] == Point(0.0, 1.0, -1.0)
    ensures TriangleSideAsWritten(Plane(Point(0.0, 0.0, 1.0), 0.0), t) == Intersects
  {
    LostTriangleClasses(t);
    ThreeVertexVerdict([Above, Below, Below]);
  }

  /** Yet it has no vertex above EPS by the consistent rule, so splitting it
      yields no fragment. */
  lemma NoFragments(t: Triangle)
    requires t.vertices[0] == Point(0.0, 0.0, EPS)
    requires t.vertices[1] == Point(1.0, 0.0, -1.0) && t.vertices[2] == Point(0.0, 1.0, -1.0)
    ensures Split(Plane(Point(0.0, 0.0, 1.0), 0.0), t) == ([], [])
  {
    var pl := Plane(Point(0.0, 0.0, 1.0), 0.0);
    LostTriangleClasses(t);
    assert Above !in Classes(pl, t.vertices);
    SplitOneSided(pl, t);
  }

  /** So placing it as a straddling triangle adds nothing to the lists. */
  lemma LostUnderRuleAsWritten(t: Triangle)
    requires t.vertices[0] == Point(0.0, 0.0, EPS)
    requires t.vertices[1] == Point(1.0, 0.0, -1.0) && t.vertices[2] == Point(0.0, 1.0, -1.0)
    ensures var pl := Plane(Point(0.0, 0.0, 1.0), 0.0);
            TriangleSideAsWritten(pl, t) == Intersects &&
            Place(pl, t, TriangleSideAsWritten(pl, t), Parts([], [], [])) == Parts([], [], [])
  {
    StraddlesAsWritten(t);
    NoFragments(t);
  }

  /** Under the consistent rule the same triangle is Negative and lands in
      the minus list. */
  lemma KeptUnderConsistentRule(t: Triangle)
    requires t.vertices[0] == Point(0.0, 0.0, EPS)
    requires t.vertices[1] == Point(1.0, 0.0, -1.0) && t.vertices[2] == Point(0.0, 1.0, -1.0)
    ensures var pl := Plane(Point(0.0, 0.0, 1.0), 0.0);
            TriangleSide(pl, t) == Negative &&
            Place(pl, t, TriangleSide(pl, t), Parts([], [], [])) == Parts([], [t], [])
  {
    LostTriangleClasses(t);
    ThreeVertexVerdict([On, Below, Below]);
  }

  /** A triangle judged Intersects by the rule as written that yields no
      fragment, and Negative by the consistent rule, is lost from the tree
      `criaBSP` builds on [pivot, t] as written and kept by the corrected
      construction. */
  lemma LostFromTree(pivo: Triangle, t: Triangle)
    requires pivo.id != t.id
    requires TriangleSideAsWritten(PlaneOf(pivo), t) == Intersects && Split(PlaneOf(pivo), t) == ([], [])
    requires TriangleSide(PlaneOf(pivo), t) == Negative
    ensures Build(AsWritten, [pivo, t], 1).Some?
    ensures t.id !in Ids(Stored(Build(AsWritten, [pivo, t], 1).value))
    ensures Build(Consistent, [pivo, t], 2).Some?
    ensures t.id in Ids(Stored(Build(Consistent, [pivo, t], 2).value))
  {
    TwoDropped(AsWritten, pivo, t);
    assert Stored(Build(AsWritten, [pivo, t], 1).value) == [pivo];
    TwoBelow(Consistent, pivo, t);
    BuildIds(Consistent, [pivo, t], 2);
    assert t.id in Ids([pivo, t]);
  }

  /** With `ladoTriangulo` as written, a triangle with a vertex at value
      exactly EPS and the other two below the pivot's plane is judged
      Intersects and `split_triangulo` (which needs a value above EPS)
      returns two empty lists; the consistent verdict is Negative. These are
      the premises of `LostFromTree`. */
  lemma LostTriangleAsWritten(pivo: Triangle, t: Triangle)
    requires pivo.vertices[0] == Point(0.0, 0.0, 0.0)
    requires pivo.vertices[1] == Point(1.0, 0.0, 0.0) && pivo.vertices[2] == Point(0.0, 1.0, 0.0)
    requires t.vertices[0] == Point(0.0, 0.0, EPS)
    requires t.vertices[1] == Point(1.0, 0.0, -1.0) && t.vertices[2] == Point(0.0, 1.0, -1.0)
    ensures TriangleSideAsWritten(PlaneOf(pivo), t) == Intersects
    ensures Split(PlaneOf(pivo), t) == ([], [])
    ensures TriangleSide(PlaneOf(pivo), t) == Negative
  {
    LostPivotPlane(pivo);
    StraddlesAsWritten(t);
    NoFragments(t);
    KeptUnderConsistentRule(t);
  }
}
