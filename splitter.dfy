/** Clipping a triangle that straddles a plane into fragments on each side
    (`intersecta_plano_segmento` and `split_triangulo`). */
module Splitter {
  import opened Geometry
  import opened Planes

  /** `intersecta_plano_segmento`: the point where the line through p1 and p2
      meets the plane, p1 + (p2 - p1) * t with t = -value(p1) / (normal . (p2 - p1)).
      The source divides without a guard; the model requires a nonzero divisor. */
  function Crossing(p1: Point, p2: Point, pl: Plane): (r: Point)
    requires Dot(pl.normal, p2.Sub(p1)) != 0.0
    ensures pl.Eval(r) == 0.0
  {
    var direcao := p2.Sub(p1);
    var denom := Dot(pl.normal, direcao);
    var t := -pl.Eval(p1) / denom;
    EvalAlong(pl, p1, direcao, t);
    assert t * denom == -pl.Eval(p1);
    p1.Add(direcao.Scale(t))
  }

  /** Two points strictly on opposite sides span a direction the plane's
      normal is not orthogonal to, so their crossing is defined. */
  lemma OppositeSidesCross(pl: Plane, p1: Point, p2: Point)
    requires pl.Where(p1) != On && pl.Where(p2) != On && pl.Where(p1) != pl.Where(p2)
    ensures Dot(pl.normal, p2.Sub(p1)) != 0.0
  {
    EvalSub(pl, p1, p2);
  }

  /** The crossing of two points on opposite strict sides lies between them,
      so any half-space {q.Eval <= c} holding both endpoints holds it too. */
  lemma {:induction false} CrossingBetween(p1: Point, p2: Point, pl: Plane, q: Plane, c: real)
    requires pl.Where(p1) != On && pl.Where(p2) != On && pl.Where(p1) != pl.Where(p2)
    requires Dot(pl.normal, p2.Sub(p1)) != 0.0
    requires q.Eval(p1) <= c && q.Eval(p2) <= c
    ensures q.Eval(Crossing(p1, p2, pl)) <= c
  {
    var dir := p2.Sub(p1);
    var t := -pl.Eval(p1) / Dot(pl.normal, dir);
    EvalSub(pl, p1, p2);
    CrossingParameter(pl.Eval(p1), pl.Eval(p2), t);
    EvalAlong(q, p1, dir, t);
    EvalSub(q, p1, p2);
    BetweenBound(q.Eval(p1), q.Eval(p2), c, t);
  }

  /** The line parameter of the crossing of values e1 and e2 of opposite
      signs lies strictly between 0 and 1. */
  lemma CrossingParameter(e1: real, e2: real, t: real)
    requires (e1 > 0.0 && e2 < 0.0) || (e1 < 0.0 && e2 > 0.0)
    requires t == -e1 / (e2 - e1)
    ensures 0.0 < t < 1.0
  {
    assert t == e1 / (e1 - e2);
    if e1 > 0.0 {
      assert e1 - e2 > e1;
    } else {
      assert e1 - e2 < e1;
    }
  }

  /** A point a fraction t of the way from a value a to a value b has value
      at most any bound of both. */
  lemma BetweenBound(a: real, b: real, c: real, t: real)
    requires 0.0 < t < 1.0 && a <= c && b <= c
    ensures a + t * (b - a) <= c
  {
    var r, da, db := 1.0 - t, c - a, c - b;
    assert t * db >= 0.0;
    assert r * da >= 0.0;
    assert a + t * (b - a) == c - r * da - t * db;
  }

  /** The vertices of vs on side w, in order (the vectors `pontos_pos`,
      `pontos_neg` and `pontos_no_plano`). */
  function Bucket(pl: Plane, vs: seq<Point>, w: Where): (b: seq<Point>)
    ensures |b| == Count(Classes(pl, vs), w)
    ensures forall p <- b :: p in vs && pl.Where(p) == w
  {
    if vs == [] then []
    else
      var last := vs[|vs| - 1];
      var rest := Bucket(pl, vs[..|vs| - 1], w);
      CountSnoc(Classes(pl, vs[..|vs| - 1]), pl.Where(last));
      if pl.Where(last) == w then rest + [last] else rest
  }

  /** One more vertex extends its own side's bucket only. */
  lemma BucketStep(pl: Plane, vs: seq<Point>, i: nat)
    requires i < |vs|
    ensures forall w :: Bucket(pl, vs[..i + 1], w) ==
                        Bucket(pl, vs[..i], w) + (if pl.Where(vs[i]) == w then [vs[i]] else [])
  {
    assert vs[..i + 1][..i] == vs[..i];
  }

  /** The fragments `split_triangulo` emits for the three buckets, as
      (positive-side fragments, negative-side fragments). */
  function Fragments(pl: Plane, id: int, pontosPos: seq<Point>, pontosNeg: seq<Point>,
                     pontosNoPlano: seq<Point>): (r: (seq<Triangle>, seq<Triangle>))
    requires forall p <- pontosPos :: pl.Where(p) == Above
    requires forall p <- pontosNeg :: pl.Where(p) == Below
    ensures forall f <- r.0 + r.1 :: f.id == id
  {
    if |pontosPos| == 0 || |pontosNeg| == 0 then ([], [])
    else if |pontosPos| == 1 && |pontosNeg| == 2 then
      var pPos, pNeg1, pNeg2 := pontosPos[0], pontosNeg[0], pontosNeg[1];
      OppositeSidesCross(pl, pPos, pNeg1);
      OppositeSidesCross(pl, pPos, pNeg2);
      var i1, i2 := Crossing(pPos, pNeg1, pl), Crossing(pPos, pNeg2, pl);
      ([Tri([pPos, i1, i2], id)], [Tri([pNeg1, pNeg2, i1], id), Tri([pNeg2, i2, i1], id)])
    else if |pontosPos| == 2 && |pontosNeg| == 1 then
      var pPos1, pPos2, pNeg := pontosPos[0], pontosPos[1], pontosNeg[0];
      OppositeSidesCross(pl, pNeg, pPos1);
      OppositeSidesCross(pl, pNeg, pPos2);
      var i1, i2 := Crossing(pNeg, pPos1, pl), Crossing(pNeg, pPos2, pl);
      ([Tri([pPos1, pPos2, i1], id), Tri([pPos2, i2, i1], id)], [Tri([pNeg, i1, i2], id)])
    else if |pontosPos| == 1 && |pontosNeg| == 1 && |pontosNoPlano| == 1 then
      var pPos, pNeg, pPlano := pontosPos[0], pontosNeg[0], pontosNoPlano[0];
      OppositeSidesCross(pl, pPos, pNeg);
      var i := Crossing(pPos, pNeg, pl);
      ([Tri([pPos, i, pPlano], id)], [Tri([pNeg, i, pPlano], id)])
    else ([], [])
  }

  /** `split_triangulo` as a function of the triangle and the plane. */
  function Split(pl: Plane, t: Tri): (r: (seq<Triangle>, seq<Triangle>)) {
    Fragments(pl, t.id, Bucket(pl, t.vertices, Above), Bucket(pl, t.vertices, Below),
              Bucket(pl, t.vertices, On))
  }

  /** `split_triangulo`: bucket the vertices in one pass, then emit the fragments. */
  method SplitTriangle(t: Tri, pl: Plane) returns (triangulosPositivos: seq<Triangle>, triangulosNegativos: seq<Triangle>)
    ensures (triangulosPositivos, triangulosNegativos) == Split(pl, t)
  {
    var pontosPos, pontosNeg, pontosNoPlano := [], [], [];
    for i := 0 to |t.vertices|
      invariant pontosPos == Bucket(pl, t.vertices[..i], Above)
      invariant pontosNeg == Bucket(pl, t.vertices[..i], Below)
      invariant pontosNoPlano == Bucket(pl, t.vertices[..i], On)
    {
      var v := t.vertices[i];
      BucketStep(pl, t.vertices, i);
      var lado := pl.Eval(v);
      if lado > EPS {
        pontosPos := pontosPos + [v];
      } else if lado < -EPS {
        pontosNeg := pontosNeg + [v];
      } else {
        pontosNoPlano := pontosNoPlano + [v];
      }
    }
    assert t.vertices[..|t.vertices|] == t.vertices;
    var fragments := Fragments(pl, t.id, pontosPos, pontosNeg, pontosNoPlano);
    triangulosPositivos, triangulosNegativos := fragments.0, fragments.1;
  }

  // ---------------------------------------------------------------------
  // Properties
  // ---------------------------------------------------------------------

  /** A triangle with no vertex strictly above, or none strictly below, is
      not split: both lists are empty. */
  lemma SplitOneSided(pl: Plane, t: Tri)
    requires Above !in Classes(pl, t.vertices) || Below !in Classes(pl, t.vertices)
    ensures Split(pl, t) == ([], [])
  {
    var ws := Classes(pl, t.vertices);
    if Above !in ws {
      CountAbsent(ws, Above);
    } else {
      CountAbsent(ws, Below);
    }
  }

  lemma {:induction false} CountAbsent(ws: seq<Where>, w: Where)
    requires w !in ws
    ensures Count(ws, w) == 0
  {
    if ws != [] {
      CountAbsent(ws[..|ws| - 1], w);
    }
  }

  lemma {:induction false} CountPresent(ws: seq<Where>, w: Where)
    requires w in ws
    ensures Count(ws, w) > 0
  {
    if ws[|ws| - 1] != w {
      CountPresent(ws[..|ws| - 1], w);
    }
  }

  /** Every fragment carries the source triangle's id (and, by its type, has
      exactly three vertices). */
  lemma SplitFragmentsWellFormed(pl: Plane, t: Tri)
    ensures forall f <- Split(pl, t).0 + Split(pl, t).1 :: f.id == t.id
  {
  }

  /** The fragment counts of the three configurations of a three-vertex
      triangle: 1 above and 2 below give 1 + 2 fragments, 2 above and 1 below
      give 2 + 1, and 1 above, 1 below, 1 on the plane give 1 + 1. No other
      configuration has a vertex on both strict sides, so a triangle with
      vertices on both strict sides always yields fragments on both sides. */
  lemma {:induction false} SplitCounts(pl: Plane, t: Triangle)
    ensures var ws := Classes(pl, t.vertices);
            var (ps, ns) := Split(pl, t);
            (Count(ws, Above) == 1 && Count(ws, Below) == 2 ==> |ps| == 1 && |ns| == 2) &&
            (Count(ws, Above) == 2 && Count(ws, Below) == 1 ==> |ps| == 2 && |ns| == 1) &&
            (Count(ws, Above) == 1 && Count(ws, Below) == 1 ==> |ps| == 1 && |ns| == 1) &&
            (Above in ws && Below in ws ==> |ps| > 0 && |ns| > 0)
  {
    var ws := Classes(pl, t.vertices);
    var a, b, c := ws[0], ws[1], ws[2];
    assert ws == [a, b, c];
    CountThree(a, b, c, Above);
    CountThree(a, b, c, Below);
    CountThree(a, b, c, On);
  }

  /** Fragments stay on their own side: no vertex of a positive fragment is
      strictly below the plane and no vertex of a negative fragment is strictly
      above it (the crossing points lie exactly on the plane). */
  lemma SplitSides(pl: Plane, t: Tri)
    ensures forall f <- Split(pl, t).0, v <- f.vertices :: pl.Where(v) != Below
    ensures forall f <- Split(pl, t).1, v <- f.vertices :: pl.Where(v) != Above
  {
    FragmentsSides(pl, t.id, Bucket(pl, t.vertices, Above), Bucket(pl, t.vertices, Below),
                   Bucket(pl, t.vertices, On));
  }

  /** Sides of the fragments, on the buckets themselves. */
  lemma FragmentsSides(pl: Plane, id: int, pos: seq<Point>, neg: seq<Point>, on: seq<Point>)
    requires forall p <- pos :: pl.Where(p) == Above
    requires forall p <- neg :: pl.Where(p) == Below
    requires forall p <- on :: pl.Where(p) == On
    ensures forall f <- Fragments(pl, id, pos, neg, on).0, v <- f.vertices :: pl.Where(v) != Below
    ensures forall f <- Fragments(pl, id, pos, neg, on).1, v <- f.vertices :: pl.Where(v) != Above
  {
    if |pos| == 0 || |neg| == 0 {
    } else if |pos| == 1 && |neg| == 2 {
      SidesOneTwo(pl, id, pos, neg, on);
    } else if |pos| == 2 && |neg| == 1 {
      SidesTwoOne(pl, id, pos, neg, on);
    } else if |pos| == 1 && |neg| == 1 && |on| == 1 {
      SidesOneOne(pl, id, pos, neg, on);
    }
  }

  lemma SidesOneTwo(pl: Plane, id: int, pos: seq<Point>, neg: seq<Point>, on: seq<Point>)
    requires |pos| == 1 && |neg| == 2
    requires pl.Where(pos[0]) == Above && pl.Where(neg[0]) == Below && pl.Where(neg[1]) == Below
    ensures forall f <- Fragments(pl, id, pos, neg, on).0, v <- f.vertices :: pl.Where(v) != Below
    ensures forall f <- Fragments(pl, id, pos, neg, on).1, v <- f.vertices :: pl.Where(v) != Above
  {
    OppositeSidesCross(pl, pos[0], neg[0]);
    OppositeSidesCross(pl, pos[0], neg[1]);
    CrossingOn(pos[0], neg[0], pl);
    CrossingOn(pos[0], neg[1], pl);
  }

  lemma SidesTwoOne(pl: Plane, id: int, pos: seq<Point>, neg: seq<Point>, on: seq<Point>)
    requires |pos| == 2 && |neg| == 1
    requires pl.Where(pos[0]) == Above && pl.Where(pos[1]) == Above && pl.Where(neg[0]) == Below
    ensures forall f <- Fragments(pl, id, pos, neg, on).0, v <- f.vertices :: pl.Where(v) != Below
    ensures forall f <- Fragments(pl, id, pos, neg, on).1, v <- f.vertices :: pl.Where(v) != Above
  {
    OppositeSidesCross(pl, neg[0], pos[0]);
    OppositeSidesCross(pl, neg[0], pos[1]);
    CrossingOn(neg[0], pos[0], pl);
    CrossingOn(neg[0], pos[1], pl);
  }

  lemma SidesOneOne(pl: Plane, id: int, pos: seq<Point>, neg: seq<Point>, on: seq<Point>)
    requires |pos| == 1 && |neg| == 1 && |on| == 1
    requires pl.Where(pos[0]) == Above && pl.Where(neg[0]) == Below && pl.Where(on[0]) == On
    ensures forall f <- Fragments(pl, id, pos, neg, on).0, v <- f.vertices :: pl.Where(v) != Below
    ensures forall f <- Fragments(pl, id, pos, neg, on).1, v <- f.vertices :: pl.Where(v) != Above
  {
    OppositeSidesCross(pl, pos[0], neg[0]);
    CrossingOn(pos[0], neg[0], pl);
  }

  /** A crossing point is on the plane. */
  lemma CrossingOn(p1: Point, p2: Point, pl: Plane)
    requires Dot(pl.normal, p2.Sub(p1)) != 0.0
    ensures pl.Where(Crossing(p1, p2, pl)) == On
  {
  }

  /** All vertices of t lie in the half-space {q.Eval <= c}. */
  ghost predicate InHalfSpace(q: Plane, c: real, t: Tri) {
    forall v <- t.vertices :: q.Eval(v) <= c
  }

  /** Splitting never leaves a half-space that holds the whole triangle: every
      fragment vertex is a vertex of t or a crossing between two of them. */
  lemma SplitInHalfSpace(pl: Plane, t: Tri, q: Plane, c: real)
    requires InHalfSpace(q, c, t)
    ensures forall f <- Split(pl, t).0 + Split(pl, t).1 :: InHalfSpace(q, c, f)
  {
    var pos, neg, on := Bucket(pl, t.vertices, Above), Bucket(pl, t.vertices, Below),
                        Bucket(pl, t.vertices, On);
    FragmentsInHalfSpace(pl, t.id, pos, neg, on, q, c);
  }

  /** The same on the buckets: fragments of points in a half-space stay in it. */
  lemma FragmentsInHalfSpace(pl: Plane, id: int, pos: seq<Point>, neg: seq<Point>, on: seq<Point>,
                             q: Plane, c: real)
    requires forall p <- pos :: pl.Where(p) == Above && q.Eval(p) <= c
    requires forall p <- neg :: pl.Where(p) == Below && q.Eval(p) <= c
    requires forall p <- on :: q.Eval(p) <= c
    ensures forall f <- Fragments(pl, id, pos, neg, on).0 + Fragments(pl, id, pos, neg, on).1 ::
              InHalfSpace(q, c, f)
  {
    if |pos| == 0 || |neg| == 0 {
    } else if |pos| == 1 && |neg| == 2 {
      OppositeSidesCross(pl, pos[0], neg[0]);
      OppositeSidesCross(pl, pos[0], neg[1]);
      var i1, i2 := Crossing(pos[0], neg[0], pl), Crossing(pos[0], neg[1], pl);
      CrossingBetween(pos[0], neg[0], pl, q, c);
      CrossingBetween(pos[0], neg[1], pl, q, c);
      TriInHalfSpace(q, c, pos[0], i1, i2, id);
      TriInHalfSpace(q, c, neg[0], neg[1], i1, id);
      TriInHalfSpace(q, c, neg[1], i2, i1, id);
    } else if |pos| == 2 && |neg| == 1 {
      OppositeSidesCross(pl, neg[0], pos[0]);
      OppositeSidesCross(pl, neg[0], pos[1]);
      var i1, i2 := Crossing(neg[0], pos[0], pl), Crossing(neg[0], pos[1], pl);
      CrossingBetween(neg[0], pos[0], pl, q, c);
      CrossingBetween(neg[0], pos[1], pl, q, c);
      TriInHalfSpace(q, c, pos[0], pos[1], i1, id);
      TriInHalfSpace(q, c, pos[1], i2, i1, id);
      TriInHalfSpace(q, c, neg[0], i1, i2, id);
    } else if |pos| == 1 && |neg| == 1 && |on| == 1 {
      OppositeSidesCross(pl, pos[0], neg[0]);
      var i := Crossing(pos[0], neg[0], pl);
      CrossingBetween(pos[0], neg[0], pl, q, c);
      TriInHalfSpace(q, c, pos[0], i, on[0], id);
      TriInHalfSpace(q, c, neg[0], i, on[0], id);
    }
  }

  lemma TriInHalfSpace(q: Plane, c: real, a: Point, b: Point, d: Point, id: int)
    requires q.Eval(a) <= c && q.Eval(b) <= c && q.Eval(d) <= c
    ensures InHalfSpace(q, c, Tri([a, b, d], id))
  {
  }
}
