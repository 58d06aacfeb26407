/** The segment/triangle intersection test (`intersecta_segmento_triangulo`):
    the Moller-Trumbore test when the segment is not parallel to the
    triangle's plane, and a test in the plane when it is. */
module Intersection {
  import opened Geometry
  import opened Planes

  // ---------------------------------------------------------------------
  // The test in the plane
  // ---------------------------------------------------------------------

  /** `orientacao_coplanar`: the turn from p to q to r seen along `normal`:
      0 when the triple product is within EPS of zero (collinear), 1 when it
      is positive (counter-clockwise), -1 otherwise (clockwise). */
  function Orientation(p: Point, q: Point, r: Point, normal: Point): int {
    var dot := Dot(Cross(q.Sub(p), r.Sub(p)), normal);
    if Abs(dot) < EPS then 0 else if dot > 0.0 then 1 else -1
  }

  /** Exchanging the last two points reverses the turn. */
  lemma OrientationSwap(p: Point, q: Point, r: Point, normal: Point)
    ensures Orientation(p, r, q, normal) == -Orientation(p, q, r, normal)
  {
    var a, b := q.Sub(p), r.Sub(p);
    assert Dot(Cross(b, a), normal) == -Dot(Cross(a, b), normal) by {
      CrossAntisymmetric(a, b);
      DotSymmetric(Cross(a, b).Scale(-1.0), normal);
      DotScale(normal, Cross(a, b), -1.0);
      DotSymmetric(Cross(a, b), normal);
    }
  }

  /** Rotating the three points keeps the turn. */
  lemma OrientationCyclic(p: Point, q: Point, r: Point, normal: Point)
    ensures Orientation(q, r, p, normal) == Orientation(p, q, r, normal)
  {
    assert Cross(r.Sub(q), p.Sub(q)) == Cross(q.Sub(p), r.Sub(p));
  }

  /** A triple with a repeated point is collinear. */
  lemma OrientationDegenerate(p: Point, q: Point, normal: Point)
    ensures Orientation(p, p, q, normal) == 0
    ensures Orientation(p, q, p, normal) == 0
    ensures Orientation(p, q, q, normal) == 0
  {
    CrossSelf(q.Sub(p));
  }

  function Max(a: real, b: real): real { if a < b then b else a }

  function Min(a: real, b: real): real { if b < a then b else a }

  /** `ponto_no_segmento`: p lies in the axis-aligned box spanned by the
      segment's endpoints (the test the caller uses for a collinear point). */
  predicate OnSegment(p: Point, s: Segment) {
    p.x <= Max(s.ini.x, s.fim.x) && p.x >= Min(s.ini.x, s.fim.x) &&
    p.y <= Max(s.ini.y, s.fim.y) && p.y >= Min(s.ini.y, s.fim.y) &&
    p.z <= Max(s.ini.z, s.fim.z) && p.z >= Min(s.ini.z, s.fim.z)
  }

  /** The point of parameter tau on the line of s (tau = 0 at `ini`, 1 at `fim`). */
  function PointAt(s: Segment, tau: real): Point {
    s.ini.Add(s.Dir().Scale(tau))
  }

  /** The box holds every point of the segment, both endpoints included. */
  lemma OnSegmentCovers(s: Segment, tau: real)
    requires 0.0 <= tau <= 1.0
    ensures OnSegment(PointAt(s, tau), s)
    ensures OnSegment(s.ini, s) && OnSegment(s.fim, s)
  {
    var p := PointAt(s, tau);
    var d := s.Dir();
    assert p.x == (1.0 - tau) * s.ini.x + tau * s.fim.x;
    assert p.y == (1.0 - tau) * s.ini.y + tau * s.fim.y;
    assert p.z == (1.0 - tau) * s.ini.z + tau * s.fim.z;
    Interpolate(s.ini.x, s.fim.x, tau);
    Interpolate(s.ini.y, s.fim.y, tau);
    Interpolate(s.ini.z, s.fim.z, tau);
  }

  lemma Interpolate(a: real, b: real, tau: real)
    requires 0.0 <= tau <= 1.0
    ensures Min(a, b) <= (1.0 - tau) * a + tau * b <= Max(a, b)
  {
    var k := b - a;
    assert (1.0 - tau) * a + tau * b == a + tau * k;
    assert tau * k + (1.0 - tau) * k == k;
    if a <= b {
      assert 0.0 <= tau * k && 0.0 <= (1.0 - tau) * k;
    } else {
      assert tau * k <= 0.0 && (1.0 - tau) * k <= 0.0;
    }
  }

  /** The box does not depend on the segment's direction. */
  lemma OnSegmentReverse(p: Point, s: Segment)
    ensures OnSegment(p, Segment(s.fim, s.ini)) == OnSegment(p, s)
  {
  }

  /** `intersecta_segmentos_coplanares`: the endpoints of each segment lie on
      strictly different turns of the other (the general case), or an endpoint
      of one is collinear with the other and inside its box. */
  predicate SegmentsIntersectCoplanar(s1: Segment, s2: Segment, normal: Point) {
    var p1, q1, p2, q2 := s1.ini, s1.fim, s2.ini, s2.fim;
    var o1 := Orientation(p1, q1, p2, normal);
    var o2 := Orientation(p1, q1, q2, normal);
    var o3 := Orientation(p2, q2, p1, normal);
    var o4 := Orientation(p2, q2, q1, normal);
    if o1 != o2 && o3 != o4 then true
    else if o1 == 0 && OnSegment(p2, s1) then true
    else if o2 == 0 && OnSegment(q2, s1) then true
    else if o3 == 0 && OnSegment(p1, s2) then true
    else if o4 == 0 && OnSegment(q1, s2) then true
    else false
  }

  /** The test is symmetric in the two segments. */
  lemma SegmentsIntersectSymmetric(s1: Segment, s2: Segment, normal: Point)
    ensures SegmentsIntersectCoplanar(s1, s2, normal) == SegmentsIntersectCoplanar(s2, s1, normal)
  {
  }

  /** The test does not depend on the direction of the first segment (and, by
      symmetry, of the second). */
  lemma SegmentsIntersectReverse(s1: Segment, s2: Segment, normal: Point)
    ensures SegmentsIntersectCoplanar(Segment(s1.fim, s1.ini), s2, normal) ==
            SegmentsIntersectCoplanar(s1, s2, normal)
  {
    var p1, q1, p2, q2 := s1.ini, s1.fim, s2.ini, s2.fim;
    OrientationCyclic(q1, p1, p2, normal);
    OrientationSwap(p1, p2, q1, normal);
    OrientationCyclic(p1, q1, p2, normal);
    OrientationCyclic(q1, p1, q2, normal);
    OrientationSwap(p1, q2, q1, normal);
    OrientationCyclic(p1, q1, q2, normal);
    OnSegmentReverse(p2, s1);
    OnSegmentReverse(q2, s1);
  }

  /** Two segments with a common endpoint intersect. */
  lemma SharedEndpointIntersects(s1: Segment, s2: Segment, normal: Point)
    requires s1.ini == s2.ini || s1.ini == s2.fim || s1.fim == s2.ini || s1.fim == s2.fim
    ensures SegmentsIntersectCoplanar(s1, s2, normal)
  {
    OrientationDegenerate(s1.ini, s1.fim, normal);
    OrientationDegenerate(s2.ini, s2.fim, normal);
    OnSegmentCovers(s1, 0.0);
    OnSegmentCovers(s2, 0.0);
  }

  /** An endpoint of the second segment lying on the first is detected by
      the collinear branch: it is collinear with the first segment and in its
      box. */
  lemma EndpointOnOtherIntersects(s1: Segment, s2: Segment, normal: Point, tau: real)
    requires 0.0 <= tau <= 1.0 && s2.ini == PointAt(s1, tau)
    ensures SegmentsIntersectCoplanar(s1, s2, normal)
  {
    var d := s1.Dir();
    assert s2.ini.Sub(s1.ini) == d.Scale(tau);
    assert Cross(d, d.Scale(tau)) == Point(0.0, 0.0, 0.0) by {
      CrossScaleLeft(d, d, tau);
      CrossSelf(d);
      CrossAntisymmetric(d, d.Scale(tau));
    }
    assert Orientation(s1.ini, s1.fim, s2.ini, normal) == 0;
    OnSegmentCovers(s1, tau);
  }

  /** `ponto_dentro_triangulo_coplanar`: p turns the same way (or is
      collinear) with respect to all three edges, taken in order. */
  predicate PointInTriangleCoplanar(p: Point, t: Triangle, normal: Point) {
    var o1 := Orientation(t.vertices[0], t.vertices[1], p, normal);
    var o2 := Orientation(t.vertices[1], t.vertices[2], p, normal);
    var o3 := Orientation(t.vertices[2], t.vertices[0], p, normal);
    var mesmoLadoNegativo := (o1 < 0 || o1 == 0) && (o2 < 0 || o2 == 0) && (o3 < 0 || o3 == 0);
    var mesmoLadoPositivo := (o1 > 0 || o1 == 0) && (o2 > 0 || o2 == 0) && (o3 > 0 || o3 == 0);
    mesmoLadoNegativo || mesmoLadoPositivo
  }

  /** A point is inside exactly when no two edges see it turning strictly in
      opposite directions. */
  lemma PointInTriangleCases(p: Point, t: Triangle, normal: Point)
    ensures var os := [Orientation(t.vertices[0], t.vertices[1], p, normal),
                       Orientation(t.vertices[1], t.vertices[2], p, normal),
                       Orientation(t.vertices[2], t.vertices[0], p, normal)];
            PointInTriangleCoplanar(p, t, normal) <==> !(1 in os && -1 in os)
  {
  }

  /** Every vertex of the triangle is inside it. */
  lemma VerticesInside(t: Triangle, normal: Point)
    ensures forall k | 0 <= k < 3 :: PointInTriangleCoplanar(t.vertices[k], t, normal)
  {
    var v0, v1, v2 := t.vertices[0], t.vertices[1], t.vertices[2];
    OrientationDegenerate(v0, v1, normal);
    OrientationDegenerate(v1, v2, normal);
    OrientationDegenerate(v2, v0, normal);
  }

  // ---------------------------------------------------------------------
  // Moller-Trumbore
  // ---------------------------------------------------------------------

  /** The point with barycentric coordinates (u, v) in the frame of t's first
      vertex and its two edges. */
  function Barycentric(t: Triangle, u: real, v: real): Point {
    var (e1, e2) := t.Edges();
    t.vertices[0].Add(e1.Scale(u)).Add(e2.Scale(v))
  }

  /** The determinant edge1 . (dir x edge2); zero when the segment is parallel
      to the triangle's plane. */
  function Determinant(s: Segment, t: Triangle): real {
    var (e1, e2) := t.Edges();
    Dot(e1, Cross(s.Dir(), e2))
  }

  /** Barycentric coordinates u, v of a point of the triangle's plane and the
      parameter tau of the same point on the segment's line. */
  datatype Coords = Coords(u: real, v: real, tau: real)

  /** The three numbers Moller and Trumbore extract by Cramer's rule from
      sVec = ini - v0, the direction and the two edges: the barycentric
      coordinates u and v and the segment parameter. */
  function Solve(sVec: Point, segDir: Point, edge1: Point, edge2: Point): Coords
    requires Dot(edge1, Cross(segDir, edge2)) != 0.0
  {
    var h := Cross(segDir, edge2);
    var q := Cross(sVec, edge1);
    Scaled(Dot(edge1, h), Dot(sVec, h), Dot(segDir, q), Dot(edge2, q))
  }

  /** With f = 1 / a, the three products f * sh, f * dq and f * bq. */
  function Scaled(a: real, sh: real, dq: real, bq: real): Coords
    requires a != 0.0
  {
    var f := 1.0 / a;
    Coords(f * sh, f * dq, f * bq)
  }

  function Coordinates(s: Segment, t: Triangle): Coords
    requires Determinant(s, t) != 0.0
  {
    Solve(s.ini.Sub(t.vertices[0]), s.Dir(), t.Edges().0, t.Edges().1)
  }

  /** The non-parallel branch of `intersecta_segmento_triangulo`: the
      barycentric coordinates must lie in the triangle and the parameter in
      (EPS, 1 + EPS). */
  predicate MollerTrumbore(s: Segment, t: Triangle)
    requires Determinant(s, t) != 0.0
  {
    var Coords(u, v, tIntersect) := Coordinates(s, t);
    if u < 0.0 || u > 1.0 then false
    else if v < 0.0 || u + v > 1.0 then false
    else tIntersect > EPS && tIntersect < 1.0 + EPS
  }

  /** The line of s meets the plane of t at the point of barycentric
      coordinates (u, v) and segment parameter tau. */
  ghost predicate MeetsAt(s: Segment, t: Triangle, u: real, v: real, tau: real) {
    PointAt(s, tau) == Barycentric(t, u, v)
  }

  /** The meeting point lies in the closed triangle. */
  predicate InTriangle(u: real, v: real) {
    0.0 <= u && 0.0 <= v && u + v <= 1.0
  }

  /** The vector u e1 + v e2 - tau d. */
  function Combination(e1: Point, e2: Point, d: Point, u: real, v: real, tau: real): Point {
    e1.Scale(u).Add(e2.Scale(v)).Sub(d.Scale(tau))
  }

  /** A meeting point, written relative to the first vertex. */
  lemma MeetsAtRelative(s: Segment, t: Triangle, u: real, v: real, tau: real)
    ensures MeetsAt(s, t, u, v, tau) <==>
            s.ini.Sub(t.vertices[0]) == Combination(t.Edges().0, t.Edges().1, s.Dir(), u, v, tau)
  {
  }

  /** Cramer's rule: the coordinates Moller and Trumbore compute name a point
      the line and the plane share. */
  lemma CoordinatesMeet(s: Segment, t: Triangle)
    requires Determinant(s, t) != 0.0
    ensures var c := Coordinates(s, t); MeetsAt(s, t, c.u, c.v, c.tau)
  {
    var c := Coordinates(s, t);
    SolveRecombines(s.ini.Sub(t.vertices[0]), s.Dir(), t.Edges().0, t.Edges().1);
    MeetsAtRelative(s, t, c.u, c.v, c.tau);
  }

  /** The solved coefficients recombine e1, e2 and the direction into sVec. */
  lemma SolveRecombines(sVec: Point, d: Point, e1: Point, e2: Point)
    requires Dot(e1, Cross(d, e2)) != 0.0
    ensures var c := Solve(sVec, d, e1, e2); sVec == Combination(e1, e2, d, c.u, c.v, c.tau)
  {
    var h, q := Cross(d, e2), Cross(sVec, e1);
    var a := Dot(e1, h);
    var sh, dq, bq := Dot(sVec, h), Dot(d, q), Dot(e2, q);
    assert Solve(sVec, d, e1, e2) == Scaled(a, sh, dq, bq);
    Cramer(sVec, d, e1, e2);
    assert sVec.Scale(a) == Combination(e1, e2, d, sh, dq, bq);
    Unscale(sVec, a, e1, e2, d, sh, dq, bq);
  }

  /** Cramer's identity divided by the determinant. */
  lemma Unscale(x: Point, a: real, p: Point, q: Point, r: Point, sh: real, dq: real, bq: real)
    requires a != 0.0
    requires x.Scale(a) == Combination(p, q, r, sh, dq, bq)
    ensures var c := Scaled(a, sh, dq, bq); x == Combination(p, q, r, c.u, c.v, c.tau)
  {
    var f := 1.0 / a;
    assert f * a == 1.0;
    assert Scaled(a, sh, dq, bq) == Coords(f * sh, f * dq, f * bq);
    var ps, qs := p.Scale(sh), q.Scale(dq);
    calc {
      x;
      { ScaleScale(x, a, f); }
      x.Scale(a).Scale(f);
      ps.Add(qs).Sub(r.Scale(bq)).Scale(f);
      { ScaleDistributes(ps.Add(qs), r.Scale(bq), f); ScaleDistributes(ps, qs, f); }
      ps.Scale(f).Add(qs.Scale(f)).Sub(r.Scale(bq).Scale(f));
      { ScaleScale(p, sh, f); ScaleScale(q, dq, f); ScaleScale(r, bq, f); }
      Combination(p, q, r, f * sh, f * dq, f * bq);
    }
  }

  /** A line not parallel to the plane meets it in one point only: any
      coordinates naming a shared point are the computed ones. */
  lemma CoordinatesUnique(s: Segment, t: Triangle, u: real, v: real, tau: real)
    requires Determinant(s, t) != 0.0
    requires MeetsAt(s, t, u, v, tau)
    ensures Coordinates(s, t) == Coords(u, v, tau)
  {
    MeetsAtRelative(s, t, u, v, tau);
    SolveUnique(s.ini.Sub(t.vertices[0]), s.Dir(), t.Edges().0, t.Edges().1, u, v, tau);
  }

  /** Cramer's rule read backwards: the triple products divided by the
      determinant recover the coefficients of any combination. */
  lemma SolveUnique(sVec: Point, d: Point, e1: Point, e2: Point, u: real, v: real, tau: real)
    requires Dot(e1, Cross(d, e2)) != 0.0
    requires sVec == Combination(e1, e2, d, u, v, tau)
    ensures Solve(sVec, d, e1, e2) == Coords(u, v, tau)
  {
    var a := Dot(e1, Cross(d, e2));
    var h, q := Cross(d, e2), Cross(sVec, e1);
    var r := Cross(e2, e1).Scale(v).Sub(Cross(d, e1).Scale(tau));
    assert Dot(sVec, h) == u * a by {
      DotAgainstH(e1, e2, d, u, v, tau);
    }
    assert q == r by {
      CrossWithEdge1(e1, e2, d, u, v, tau);
    }
    assert Dot(d, q) == v * a by {
      DotDirection(e1, e2, d, v, tau);
    }
    assert Dot(e2, q) == tau * a by {
      DotEdge2(e1, e2, d, v, tau);
    }
    assert Solve(sVec, d, e1, e2) == Scaled(a, u * a, v * a, tau * a);
    ScaledCancels(a, u, v, tau);
  }

  lemma ScaledCancels(a: real, u: real, v: real, tau: real)
    requires a != 0.0
    ensures Scaled(a, u * a, v * a, tau * a) == Coords(u, v, tau)
  {
    assert (1.0 / a) * (u * a) == u;
    assert (1.0 / a) * (v * a) == v;
    assert (1.0 / a) * (tau * a) == tau;
  }

  /** h = d x e2 is orthogonal to d and e2, so dotting a combination with h
      keeps only its e1 part. */
  lemma DotAgainstH(e1: Point, e2: Point, d: Point, u: real, v: real, tau: real)
    ensures Dot(Combination(e1, e2, d, u, v, tau), Cross(d, e2)) == u * Dot(e1, Cross(d, e2))
  {
  }

  /** Crossing a combination with e1 drops its e1 part. */
  lemma CrossWithEdge1(e1: Point, e2: Point, d: Point, u: real, v: real, tau: real)
    ensures Cross(Combination(e1, e2, d, u, v, tau), e1) ==
            Cross(e2, e1).Scale(v).Sub(Cross(d, e1).Scale(tau))
  {
    var w := e1.Scale(u).Add(e2.Scale(v));
    assert Cross(w.Sub(d.Scale(tau)), e1) == Cross(w, e1).Sub(Cross(d.Scale(tau), e1)) by {
      CrossAddLeft(w, d.Scale(tau), e1);
    }
    assert Cross(d.Scale(tau), e1) == Cross(d, e1).Scale(tau) by {
      CrossScaleLeft(d, e1, tau);
    }
    assert Cross(w, e1) == Cross(e1.Scale(u), e1).Add(Cross(e2.Scale(v), e1)) by {
      CrossAddLeft(e1.Scale(u), e2.Scale(v), e1);
    }
    assert Cross(e1.Scale(u), e1) == Point(0.0, 0.0, 0.0) by {
      CrossScaleLeft(e1, e1, u);
      CrossSelf(e1);
    }
    assert Cross(e2.Scale(v), e1) == Cross(e2, e1).Scale(v) by {
      CrossScaleLeft(e2, e1, v);
    }
  }

  lemma DotDirection(e1: Point, e2: Point, d: Point, v: real, tau: real)
    ensures Dot(d, Cross(e2, e1).Scale(v).Sub(Cross(d, e1).Scale(tau))) == v * Dot(e1, Cross(d, e2))
  {
    DotAdd(d, Cross(e2, e1).Scale(v), Cross(d, e1).Scale(tau));
    DotScale(d, Cross(e2, e1), v);
    DotScale(d, Cross(d, e1), tau);
    TripleCyclic(e1, d, e2);
    CrossOrthogonal(d, e1);
    DotSymmetric(Cross(d, e1), d);
  }

  lemma DotEdge2(e1: Point, e2: Point, d: Point, v: real, tau: real)
    ensures Dot(e2, Cross(e2, e1).Scale(v).Sub(Cross(d, e1).Scale(tau))) == tau * Dot(e1, Cross(d, e2))
  {
    DotAdd(e2, Cross(e2, e1).Scale(v), Cross(d, e1).Scale(tau));
    DotScale(e2, Cross(e2, e1), v);
    DotScale(e2, Cross(d, e1), tau);
    CrossOrthogonal(e2, e1);
    DotSymmetric(Cross(e2, e1), e2);
    TripleCyclic(e1, d, e2);
    TripleCyclic(d, e2, e1);
    CrossAntisymmetric(e1, d);
    DotScale(e2, Cross(e1, d), -1.0);
  }

  /** Moller-Trumbore on a non-parallel segment: it reports a hit exactly
      when the line meets the closed triangle at a parameter in (EPS, 1 + EPS). */
  lemma MollerTrumboreExact(s: Segment, t: Triangle)
    requires Determinant(s, t) != 0.0
    ensures MollerTrumbore(s, t) <==>
            exists u, v, tau :: MeetsAt(s, t, u, v, tau) && InTriangle(u, v) && EPS < tau < 1.0 + EPS
  {
    var Coords(u, v, tau) := Coordinates(s, t);
    CoordinatesMeet(s, t);
    forall u', v', tau' | MeetsAt(s, t, u', v', tau')
      ensures Coords(u', v', tau') == Coords(u, v, tau)
    {
      CoordinatesUnique(s, t, u', v', tau');
    }
  }

  // ---------------------------------------------------------------------
  // The full test
  // ---------------------------------------------------------------------

  /** `intersecta_segmento_triangulo`. When |a| < EPS the segment is taken as
      parallel: it misses unless its start is within EPS of the triangle's
      plane, and then it hits when it meets an edge in the plane or starts
      inside the triangle. Otherwise Moller-Trumbore decides. */
  predicate IntersectsSegmentTriangle(s: Segment, t: Triangle) {
    var a := Determinant(s, t);
    if Abs(a) < EPS then
      var planoTriangulo := PlaneOf(t);
      if Abs(planoTriangulo.Eval(s.ini)) > EPS then false
      else
        var aresta1 := Segment(t.vertices[0], t.vertices[1]);
        var aresta2 := Segment(t.vertices[1], t.vertices[2]);
        var aresta3 := Segment(t.vertices[2], t.vertices[0]);
        if SegmentsIntersectCoplanar(s, aresta1, planoTriangulo.normal) ||
           SegmentsIntersectCoplanar(s, aresta2, planoTriangulo.normal) ||
           SegmentsIntersectCoplanar(s, aresta3, planoTriangulo.normal) then true
        else PointInTriangleCoplanar(s.ini, t, planoTriangulo.normal)
    else
      MollerTrumbore(s, t)
  }

  /** Away from the parallel case the test is exact: a hit iff the line meets
      the closed triangle at a parameter in (EPS, 1 + EPS). */
  lemma IntersectsNonParallel(s: Segment, t: Triangle)
    requires Abs(Determinant(s, t)) >= EPS
    ensures IntersectsSegmentTriangle(s, t) <==>
            exists u, v, tau :: MeetsAt(s, t, u, v, tau) && InTriangle(u, v) && EPS < tau < 1.0 + EPS
  {
    MollerTrumboreExact(s, t);
  }

  /** A parallel segment starting within EPS of the plane, with an endpoint
      at a vertex of the triangle, hits it. */
  lemma ParallelTouchingHits(s: Segment, t: Triangle, k: nat)
    requires Abs(Determinant(s, t)) < EPS
    requires Abs(PlaneOf(t).Eval(s.ini)) <= EPS
    requires k < 3 && (s.ini == t.vertices[k] || s.fim == t.vertices[k])
    ensures IntersectsSegmentTriangle(s, t)
  {
    var n := PlaneOf(t).normal;
    if k == 0 || k == 1 {
      SharedEndpointIntersects(s, Segment(t.vertices[0], t.vertices[1]), n);
    } else {
      SharedEndpointIntersects(s, Segment(t.vertices[1], t.vertices[2]), n);
    }
  }

  /** A parallel segment within EPS of the plane that runs through a vertex
      of the triangle hits it: the edge leaving that vertex has its first
      endpoint on the segment. */
  lemma ParallelThroughVertexHits(s: Segment, t: Triangle, k: nat, tau: real)
    requires Abs(Determinant(s, t)) < EPS
    requires Abs(PlaneOf(t).Eval(s.ini)) <= EPS
    requires k < 3 && 0.0 <= tau <= 1.0 && t.vertices[k] == PointAt(s, tau)
    ensures IntersectsSegmentTriangle(s, t)
  {
    var n := PlaneOf(t).normal;
    var v0, v1, v2 := t.vertices[0], t.vertices[1], t.vertices[2];
    if k == 0 {
      EndpointOnOtherIntersects(s, Segment(v0, v1), n, tau);
    } else if k == 1 {
      EndpointOnOtherIntersects(s, Segment(v1, v2), n, tau);
    } else {
      EndpointOnOtherIntersects(s, Segment(v2, v0), n, tau);
    }
  }

  /** A segment exactly parallel to the triangle's plane whose start is
      farther than EPS from it is rejected, and rightly so: its line never
      meets the plane, at any parameter. */
  lemma ParallelOffPlaneMisses(s: Segment, t: Triangle)
    requires Determinant(s, t) == 0.0
    requires Abs(PlaneOf(t).Eval(s.ini)) > EPS
    ensures !IntersectsSegmentTriangle(s, t)
    ensures forall u, v, tau :: !MeetsAt(s, t, u, v, tau)
  {
    forall u, v, tau ensures !MeetsAt(s, t, u, v, tau) {
      ParallelEvalConstant(s, t, tau);
      BarycentricOnPlane(t, u, v);
    }
  }

  /** A segment (nearly) parallel to the triangle's plane that starts at a
      point of the closed triangle is reported as a hit: the start lies on
      the plane and every edge sees it turning the same way. */
  lemma ParallelInsideHits(s: Segment, t: Triangle, u: real, v: real)
    requires Abs(Determinant(s, t)) < EPS
    requires InTriangle(u, v) && s.ini == Barycentric(t, u, v)
    ensures IntersectsSegmentTriangle(s, t)
  {
    BarycentricOnPlane(t, u, v);
    BarycentricInside(t, u, v);
  }

  /** The determinant is minus the normal's component along the segment. */
  lemma DeterminantNormal(s: Segment, t: Triangle)
    ensures Determinant(s, t) == -Dot(PlaneOf(t).normal, s.Dir())
  {
    var (e1, e2) := t.Edges();
    var d := s.Dir();
    TripleCyclic(e1, d, e2);
    CrossAntisymmetric(e1, e2);
    DotScale(d, Cross(e1, e2), -1.0);
    DotSymmetric(d, Cross(e1, e2));
  }

  /** Along a segment exactly parallel to the plane the value is constant. */
  lemma ParallelEvalConstant(s: Segment, t: Triangle, tau: real)
    requires Determinant(s, t) == 0.0
    ensures PlaneOf(t).Eval(PointAt(s, tau)) == PlaneOf(t).Eval(s.ini)
  {
    DeterminantNormal(s, t);
    EvalAlong(PlaneOf(t), s.ini, s.Dir(), tau);
  }

  /** The value at a barycentric point is the weighted mean of the vertex values. */
  lemma EvalBarycentric(q: Plane, t: Triangle, u: real, v: real)
    ensures q.Eval(Barycentric(t, u, v)) ==
            (1.0 - u - v) * q.Eval(t.vertices[0]) + u * q.Eval(t.vertices[1]) + v * q.Eval(t.vertices[2])
  {
    var (e1, e2) := t.Edges();
    var v0 := t.vertices[0];
    EvalAlong(q, v0, e1, u);
    EvalAlong(q, v0.Add(e1.Scale(u)), e2, v);
    EvalSub(q, v0, t.vertices[1]);
    EvalSub(q, v0, t.vertices[2]);
  }

  /** Every barycentric point of a triangle lies on its plane. */
  lemma BarycentricOnPlane(t: Triangle, u: real, v: real)
    ensures PlaneOf(t).Eval(Barycentric(t, u, v)) == 0.0
  {
    PlaneOfContains(t);
    EvalBarycentric(PlaneOf(t), t, u, v);
  }

  /** A point of the closed triangle is inside it by the test in the plane. */
  lemma BarycentricInside(t: Triangle, u: real, v: real)
    requires InTriangle(u, v)
    ensures PointInTriangleCoplanar(Barycentric(t, u, v), t, PlaneOf(t).normal)
  {
    var p := Barycentric(t, u, v);
    var (e1, e2) := t.Edges();
    var v0, v1, v2 := t.vertices[0], t.vertices[1], t.vertices[2];
    assert PlaneOf(t).normal == Cross(e1, e2);
    FirstEdgeOffsets(v0, v1, p, e1, e2, u, v);
    CombinationTurn(v0, v1, p, e1, e2, 1.0, 0.0, u, v, v);
    SecondEdgeOffsets(v0, v1, v2, p, e1, e2, u, v);
    CombinationTurn(v1, v2, p, e1, e2, -1.0, 1.0, u - 1.0, v, 1.0 - u - v);
    ThirdEdgeOffsets(v0, v2, p, e1, e2, u, v);
    CombinationTurn(v2, v0, p, e1, e2, 0.0, -1.0, u, v - 1.0, u);
  }

  /** Seen from each vertex, the next vertex and the barycentric point as combinations of the edges. */
  lemma FirstEdgeOffsets(v0: Point, v1: Point, p: Point, e1: Point, e2: Point, u: real, v: real)
    requires v1 == v0.Add(e1) && p == v0.Add(e1.Scale(u)).Add(e2.Scale(v))
    ensures v1.Sub(v0) == e1.Scale(1.0).Add(e2.Scale(0.0))
    ensures p.Sub(v0) == e1.Scale(u).Add(e2.Scale(v))
  {
  }

  lemma SecondEdgeOffsets(v0: Point, v1: Point, v2: Point, p: Point, e1: Point, e2: Point, u: real, v: real)
    requires v1 == v0.Add(e1) && v2 == v0.Add(e2) && p == v0.Add(e1.Scale(u)).Add(e2.Scale(v))
    ensures v2.Sub(v1) == e1.Scale(-1.0).Add(e2.Scale(1.0))
    ensures p.Sub(v1) == e1.Scale(u - 1.0).Add(e2.Scale(v))
  {
    Shifted(v0.x, e1.x, e2.x, u, v, v1.x, p.x);
    Shifted(v0.y, e1.y, e2.y, u, v, v1.y, p.y);
    Shifted(v0.z, e1.z, e2.z, u, v, v1.z, p.z);
  }

  lemma ThirdEdgeOffsets(v0: Point, v2: Point, p: Point, e1: Point, e2: Point, u: real, v: real)
    requires v2 == v0.Add(e2) && p == v0.Add(e1.Scale(u)).Add(e2.Scale(v))
    ensures v0.Sub(v2) == e1.Scale(0.0).Add(e2.Scale(-1.0))
    ensures p.Sub(v2) == e1.Scale(u).Add(e2.Scale(v - 1.0))
  {
    Shifted(v0.x, e2.x, e1.x, v, u, v2.x, p.x);
    Shifted(v0.y, e2.y, e1.y, v, u, v2.y, p.y);
    Shifted(v0.z, e2.z, e1.z, v, u, v2.z, p.z);
  }

  /** One coordinate of the offsets: from `o + a`, the point `o + a * u + b * v`
      is at `a * (u - 1) + b * v`. */
  lemma Shifted(o: real, a: real, b: real, u: real, v: real, q: real, r: real)
    requires q == o + a && (r == o + a * u + b * v || r == o + b * v + a * u)
    ensures r - q == a * (u - 1.0) + b * v && r - q == b * v + a * (u - 1.0)
  {
  }

  /** Seen from `o`, points `q` and `r` given as combinations of e1 and e2 whose
      coefficient determinant `k` is nonnegative turn the way of `Cross(e1, e2)`. */
  lemma CombinationTurn(o: Point, q: Point, r: Point, e1: Point, e2: Point,
                        p1: real, q1: real, p2: real, q2: real, k: real)
    requires q.Sub(o) == e1.Scale(p1).Add(e2.Scale(q1))
    requires r.Sub(o) == e1.Scale(p2).Add(e2.Scale(q2))
    requires k == p1 * q2 - q1 * p2 && 0.0 <= k
    ensures Orientation(o, q, r, Cross(e1, e2)) >= 0
  {
    CrossCombination(e1, e2, p1, q1, p2, q2, q.Sub(o), r.Sub(o), k);
    NonnegativeTurn(o, q, r, Cross(e1, e2), k);
  }

  /** Three points whose turn is a nonnegative multiple of the normal turn
      counter-clockwise or are collinear. */
  lemma NonnegativeTurn(p: Point, q: Point, r: Point, normal: Point, k: real)
    requires 0.0 <= k && Cross(q.Sub(p), r.Sub(p)) == normal.Scale(k)
    ensures Orientation(p, q, r, normal) >= 0
  {
    DotSymmetric(normal.Scale(k), normal);
    DotScale(normal, normal, k);
    var d := Dot(normal, normal);
    assert d >= 0.0;
    assert k * d >= 0.0;
  }

  /** The cross product of two combinations `c` and `d` of a and b is the cross
      product of a and b times the determinant `k` of the coefficients. */
  lemma CrossCombination(a: Point, b: Point, p: real, q: real, r: real, s: real, c: Point, d: Point, k: real)
    requires c == a.Scale(p).Add(b.Scale(q)) && d == a.Scale(r).Add(b.Scale(s))
    requires k == p * s - q * r
    ensures Cross(c, d) == Cross(a, b).Scale(k)
  {
    CombinationCoordinates(a, b, p, q, c);
    CombinationCoordinates(a, b, r, s, d);
    CombinationX(a, b, p, q, r, s, c, d, k);
    CombinationY(a, b, p, q, r, s, c, d, k);
    CombinationZ(a, b, p, q, r, s, c, d, k);
  }

  /** The three coordinates of CrossCombination, for `c` and `d` given by their coordinates. */
  lemma CombinationX(a: Point, b: Point, p: real, q: real, r: real, s: real, c: Point, d: Point, k: real)
    requires c.y == a.y * p + b.y * q && c.z == a.z * p + b.z * q
    requires d.y == a.y * r + b.y * s && d.z == a.z * r + b.z * s
    requires k == p * s - q * r
    ensures Cross(c, d).x == Cross(a, b).x * k
  {
    Bilinear(c.y, c.z, d.y, d.z, a.y, a.z, b.y, b.z, p, q, r, s, Cross(a, b).x, k);
  }

  lemma CombinationY(a: Point, b: Point, p: real, q: real, r: real, s: real, c: Point, d: Point, k: real)
    requires c.z == a.z * p + b.z * q && c.x == a.x * p + b.x * q
    requires d.z == a.z * r + b.z * s && d.x == a.x * r + b.x * s
    requires k == p * s - q * r
    ensures Cross(c, d).y == Cross(a, b).y * k
  {
    Bilinear(c.z, c.x, d.z, d.x, a.z, a.x, b.z, b.x, p, q, r, s, Cross(a, b).y, k);
  }

  lemma CombinationZ(a: Point, b: Point, p: real, q: real, r: real, s: real, c: Point, d: Point, k: real)
    requires c.x == a.x * p + b.x * q && c.y == a.y * p + b.y * q
    requires d.x == a.x * r + b.x * s && d.y == a.y * r + b.y * s
    requires k == p * s - q * r
    ensures Cross(c, d).z == Cross(a, b).z * k
  {
    Bilinear(c.x, c.y, d.x, d.y, a.x, a.y, b.x, b.y, p, q, r, s, Cross(a, b).z, k);
  }

  lemma CombinationCoordinates(a: Point, b: Point, p: real, q: real, c: Point)
    requires c == a.Scale(p).Add(b.Scale(q))
    ensures c.x == a.x * p + b.x * q && c.y == a.y * p + b.y * q && c.z == a.z * p + b.z * q
  {}

  /** One coordinate of CrossCombination: `e` is that coordinate of `Cross(a, b)`, `k` the determinant of the coefficients. */
  lemma Bilinear(c1: real, c2: real, d1: real, d2: real, a1: real, a2: real, b1: real, b2: real,
                 p: real, q: real, r: real, s: real, e: real, k: real)
    requires c1 == a1 * p + b1 * q && c2 == a2 * p + b2 * q
    requires d1 == a1 * r + b1 * s && d2 == a2 * r + b2 * s
    requires e == a1 * b2 - a2 * b1 && k == p * s - q * r
    ensures c1 * d2 - c2 * d1 == e * k
  {
    assert c1 * d2 == a1 * a2 * (p * r) + a1 * b2 * (p * s) + b1 * a2 * (q * r) + b1 * b2 * (q * s);
    assert c2 * d1 == a2 * a1 * (p * r) + a2 * b1 * (p * s) + b2 * a1 * (q * r) + b2 * b1 * (q * s);
  }
}
