/** Points, segments and triangles of 3-space, and the vector algebra on them.
    Coordinates are exact reals: the library is generic over its coordinate type
    and the program instantiates it with double; rounding is not modelled. */
module Geometry {

  /** A point, also used as a vector (the library's `ponto`). */
  datatype Point = Point(x: real, y: real, z: real) {
    function Add(o: Point): Point { Point(x + o.x, y + o.y, z + o.z) }
    function Sub(o: Point): Point { Point(x - o.x, y - o.y, z - o.z) }
    function Scale(k: real): Point { Point(x * k, y * k, z * k) }
  }

  /** Cross product (`prod_vetorial`). */
  function Cross(a: Point, b: Point): Point {
    Point(a.y * b.z - a.z * b.y, a.z * b.x - a.x * b.z, a.x * b.y - a.y * b.x)
  }

  /** Dot product (`prod_escalar`). */
  function Dot(a: Point, b: Point): real {
    a.x * b.x + a.y * b.y + a.z * b.z
  }

  /** A directed segment from `ini` to `fim` (`segmento`). */
  datatype Segment = Segment(ini: Point, fim: Point) {
    function Dir(): Point { fim.Sub(ini) }
  }

  /** A triangle with the id of the input triangle it comes from (`triangulo`). */
  datatype Tri = Tri(vertices: seq<Point>, id: int) {
    /** A triangle of the model has exactly three vertices. */
    predicate Valid() { |vertices| == 3 }

    /** The two edge vectors from the first vertex (`getVetores`). */
    function Edges(): (e: (Point, Point))
      requires |vertices| >= 3
      ensures vertices[0].Add(e.0) == vertices[1] && vertices[0].Add(e.1) == vertices[2]
    {
      (vertices[1].Sub(vertices[0]), vertices[2].Sub(vertices[0]))
    }
  }

  /** The triangles the builder and the traversal work with: exactly three
      vertices, the invariant the library's `getVetores` enforces by throwing. */
  type Triangle = t: Tri | t.Valid()
    witness Tri([Point(0.0, 0.0, 0.0), Point(0.0, 0.0, 0.0), Point(0.0, 0.0, 0.0)], 0)

  // ---------------------------------------------------------------------
  // Algebraic laws of the operators
  // ---------------------------------------------------------------------

  lemma SubAddInverse(a: Point, b: Point)
    ensures a.Sub(b).Add(b) == a && b.Add(a.Sub(b)) == a
  {
  }

  lemma DotSymmetric(a: Point, b: Point)
    ensures Dot(a, b) == Dot(b, a)
  {
  }

  lemma DotAdd(a: Point, b: Point, c: Point)
    ensures Dot(a, b.Add(c)) == Dot(a, b) + Dot(a, c)
    ensures Dot(a, b.Sub(c)) == Dot(a, b) - Dot(a, c)
  {
  }

  lemma DotScale(a: Point, b: Point, k: real)
    ensures Dot(a, b.Scale(k)) == k * Dot(a, b)
  {
  }

  /** The cross product is orthogonal to both of its factors. */
  lemma CrossOrthogonal(a: Point, b: Point)
    ensures Dot(Cross(a, b), a) == 0.0 && Dot(Cross(a, b), b) == 0.0
  {
  }

  lemma CrossAntisymmetric(a: Point, b: Point)
    ensures Cross(b, a) == Cross(a, b).Scale(-1.0)
  {
  }

  /** Scaling distributes over sums and differences and composes. */
  lemma ScaleDistributes(a: Point, b: Point, k: real)
    ensures a.Add(b).Scale(k) == a.Scale(k).Add(b.Scale(k))
    ensures a.Sub(b).Scale(k) == a.Scale(k).Sub(b.Scale(k))
  {
  }

  lemma ScaleScale(a: Point, j: real, k: real)
    ensures a.Scale(j).Scale(k) == a.Scale(k * j)
  {
  }

  /** The cross product is linear in its first factor. */
  lemma CrossAddLeft(a: Point, b: Point, c: Point)
    ensures Cross(a.Add(b), c) == Cross(a, c).Add(Cross(b, c))
  {
    TwoByTwoLinear(a.y, b.y, a.z, b.z, c.z, c.y);
    TwoByTwoLinear(a.z, b.z, a.x, b.x, c.x, c.z);
    TwoByTwoLinear(a.x, b.x, a.y, b.y, c.y, c.x);
  }

  /** One coordinate of a cross product is linear in the first factor. */
  lemma TwoByTwoLinear(p1: real, q1: real, p2: real, q2: real, r1: real, r2: real)
    ensures (p1 + q1) * r1 - (p2 + q2) * r2 == (p1 * r1 - p2 * r2) + (q1 * r1 - q2 * r2)
  {
  }

  lemma CrossScaleLeft(a: Point, c: Point, k: real)
    ensures Cross(a.Scale(k), c) == Cross(a, c).Scale(k)
  {
  }

  lemma CrossSelf(a: Point)
    ensures Cross(a, a) == Point(0.0, 0.0, 0.0)
  {
  }

  /** The scalar triple product is invariant under cyclic rotation. */
  lemma TripleCyclic(a: Point, b: Point, c: Point)
    ensures Dot(a, Cross(b, c)) == Dot(b, Cross(c, a))
  {
    TripleExpanded(a.x, a.y, a.z, b.x, b.y, b.z, c.x, c.y, c.z);
  }

  /** The triple product on coordinates. */
  lemma TripleExpanded(a1: real, a2: real, a3: real, b1: real, b2: real, b3: real,
                       c1: real, c2: real, c3: real)
    ensures a1 * (b2 * c3 - b3 * c2) + a2 * (b3 * c1 - b1 * c3) + a3 * (b1 * c2 - b2 * c1) ==
            b1 * (c2 * a3 - c3 * a2) + b2 * (c3 * a1 - c1 * a3) + b3 * (c1 * a2 - c2 * a1)
  {
  }

  /** Cramer's rule in vector form: with det = e1 . (d x e2), every vector s
      is det-times the combination of e1, e2 and d whose coefficients are the
      three triple products Moller and Trumbore compute. */
  lemma Cramer(s: Point, d: Point, e1: Point, e2: Point)
    ensures CramerLeft(s, d, e1, e2) == CramerRight(s, d, e1, e2)
  {
    CramerX(s, d, e1, e2);
    CramerX(Rot(s), Rot(d), Rot(e1), Rot(e2));
    CramerX(Rot(Rot(s)), Rot(Rot(d)), Rot(Rot(e1)), Rot(Rot(e2)));
    RotCommutes(s, d, e1, e2);
    RotCommutes(Rot(s), Rot(d), Rot(e1), Rot(e2));
  }

  function CramerLeft(s: Point, d: Point, e1: Point, e2: Point): Point {
    s.Scale(Dot(e1, Cross(d, e2)))
  }

  function CramerRight(s: Point, d: Point, e1: Point, e2: Point): Point {
    var h := Cross(d, e2);
    var q := Cross(s, e1);
    e1.Scale(Dot(s, h)).Add(e2.Scale(Dot(d, q))).Sub(d.Scale(Dot(e2, q)))
  }

  function Rot(p: Point): Point { Point(p.y, p.z, p.x) }

  lemma CramerX(s: Point, d: Point, e1: Point, e2: Point)
    ensures CramerLeft(s, d, e1, e2).x == CramerRight(s, d, e1, e2).x
  {
    var h, q := Cross(d, e2), Cross(s, e1);
    CramerCoordinate(s.x, s.y, s.z, d.x, d.y, d.z, e1.x, e1.y, e1.z, e2.x, e2.y, e2.z,
                     h.x, h.y, h.z, q.x, q.y, q.z,
                     Dot(e1, h), Dot(s, h), Dot(d, q), Dot(e2, q));
  }

  /** The first coordinate of Cramer's identity, on scalars. */
  lemma CramerCoordinate(s1: real, s2: real, s3: real, d1: real, d2: real, d3: real,
                         a1: real, a2: real, a3: real, b1: real, b2: real, b3: real,
                         h1: real, h2: real, h3: real, q1: real, q2: real, q3: real,
                         det: real, sh: real, dq: real, bq: real)
    requires h1 == d2 * b3 - d3 * b2 && h2 == d3 * b1 - d1 * b3 && h3 == d1 * b2 - d2 * b1
    requires q1 == s2 * a3 - s3 * a2 && q2 == s3 * a1 - s1 * a3 && q3 == s1 * a2 - s2 * a1
    requires det == a1 * h1 + a2 * h2 + a3 * h3 && sh == s1 * h1 + s2 * h2 + s3 * h3
    requires dq == d1 * q1 + d2 * q2 + d3 * q3 && bq == b1 * q1 + b2 * q2 + b3 * q3
    ensures s1 * det == a1 * sh + b1 * dq - d1 * bq
  {
  }

  lemma RotCommutes(s: Point, d: Point, e1: Point, e2: Point)
    ensures CramerLeft(Rot(s), Rot(d), Rot(e1), Rot(e2)) == Rot(CramerLeft(s, d, e1, e2))
    ensures CramerRight(Rot(s), Rot(d), Rot(e1), Rot(e2)) == Rot(CramerRight(s, d, e1, e2))
  {
    RotCross(d, e2);
    RotCross(s, e1);
    RotDot(e1, Cross(d, e2));
    RotDot(s, Cross(d, e2));
    RotDot(d, Cross(s, e1));
    RotDot(e2, Cross(s, e1));
    var h, q := Cross(d, e2), Cross(s, e1);
    RotLinear(s, s, Dot(e1, h));
    RotLinear(e1.Scale(Dot(s, h)), e2.Scale(Dot(d, q)), 1.0);
    RotLinear(e1, e2, Dot(s, h));
    RotLinear(e2, e1, Dot(d, q));
    RotLinear(e1.Scale(Dot(s, h)).Add(e2.Scale(Dot(d, q))), d.Scale(Dot(e2, q)), 1.0);
    RotLinear(d, d, Dot(e2, q));
  }

  /** Rotating the coordinates commutes with the cross product and keeps
      the dot product. */
  lemma RotCross(a: Point, b: Point)
    ensures Cross(Rot(a), Rot(b)) == Rot(Cross(a, b))
  {
  }

  lemma RotDot(a: Point, b: Point)
    ensures Dot(Rot(a), Rot(b)) == Dot(a, b)
  {
  }

  lemma RotLinear(a: Point, b: Point, k: real)
    ensures Rot(a.Add(b)) == Rot(a).Add(Rot(b)) && Rot(a.Sub(b)) == Rot(a).Sub(Rot(b))
    ensures Rot(a.Scale(k)) == Rot(a).Scale(k)
  {
  }
}
