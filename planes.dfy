/** The splitting plane of a BSP node (`hiperplano`) and the classification of
    points, segments and triangles against it, all with the fixed tolerance EPS. */
module Planes {
  import opened Geometry

  /** Absolute tolerance of every "on the plane" decision (the library's 1E-9). */
  const EPS: real := 0.000000001

  function Abs(v: real): real { if v < 0.0 then -v else v }

  /** The verdict of `ladoSegmento` and `ladoTriangulo` (`LadoPlano`). */
  datatype Side = Positive | Negative | Intersects | OnPlane

  /** Where a single point lies: strictly above, strictly below, or on the plane. */
  datatype Where = Above | Below | On

  /** The plane normal . P + d == 0. */
  datatype Plane = Plane(normal: Point, d: real) {

    /** The signed value whose sign tells the side of p (`meioEspaco`). */
    function Eval(p: Point): real { Dot(normal, p) + d }

    /** The same plane with its sides exchanged. */
    function Flip(): (f: Plane)
      ensures forall p :: f.Eval(p) == -Eval(p)
    {
      Plane(normal.Scale(-1.0), -d)
    }

    /** The side of one point under the tolerance rule of `ladoSegmento` and
        `split_triangulo`: above when its value exceeds EPS, below when it is
        under -EPS, on the plane otherwise. */
    function Where(p: Point): Where {
      var v := Eval(p);
      if v > EPS then Above else if v < -EPS then Below else On
    }

    /** The side of one point under the rule `ladoTriangulo` is written with:
        on the plane when |value| < EPS, else above when the value is positive,
        else below. */
    function WhereAsWritten(p: Point): Where {
      var v := Eval(p);
      if Abs(v) < EPS then On else if v > 0.0 then Above else Below
    }

    /** `ladoSegmento`. */
    function SegmentSide(s: Segment): (r: Side)
      ensures r == Positive <==> Eval(s.ini) > EPS && Eval(s.fim) > EPS
      ensures r == Negative <==> Eval(s.ini) < -EPS && Eval(s.fim) < -EPS
      ensures r == OnPlane <==> Abs(Eval(s.ini)) <= EPS && Abs(Eval(s.fim)) <= EPS
      ensures r == Intersects <==> Where(s.ini) != Where(s.fim)
    {
      var valIni, valFim := Eval(s.ini), Eval(s.fim);
      var iniPositivo, fimPositivo := valIni > EPS, valFim > EPS;
      var iniNegativo, fimNegativo := valIni < -EPS, valFim < -EPS;
      if iniPositivo && fimPositivo then Positive
      else if iniNegativo && fimNegativo then Negative
      else if !iniPositivo && !iniNegativo && !fimPositivo && !fimNegativo then OnPlane
      else Intersects
    }
  }

  /** The plane through a triangle's first three vertices (the `hiperplano`
      constructor): normal = (v1 - v0) x (v2 - v0), d = -normal . v0. The source
      throws when there are fewer than three vertices; the model requires them. */
  function PlaneOf(t: Tri): (pl: Plane)
    requires |t.vertices| >= 3
    ensures pl.normal == Cross(t.Edges().0, t.Edges().1)
  {
    var (e1, e2) := t.Edges();
    var n := Cross(e1, e2);
    var p1 := t.vertices[0];
    Plane(n, -(n.x * p1.x + n.y * p1.y + n.z * p1.z))
  }

  /** The plane of a triangle passes through its three vertices. */
  lemma PlaneOfContains(t: Tri)
    requires |t.vertices| >= 3
    ensures forall i | 0 <= i < 3 :: PlaneOf(t).Eval(t.vertices[i]) == 0.0
  {
    var pl := PlaneOf(t);
    var (e1, e2) := t.Edges();
    var n := Cross(e1, e2);
    var p1 := t.vertices[0];
    assert pl.d == -Dot(n, p1);
    assert pl.Eval(t.vertices[0]) == 0.0;
    assert pl.Eval(t.vertices[1]) == 0.0 by {
      CrossOrthogonal(e1, e2);
      DotSymmetric(n, e1);
      DotAdd(n, p1, e1);
    }
    assert pl.Eval(t.vertices[2]) == 0.0 by {
      CrossOrthogonal(e1, e2);
      DotSymmetric(n, e2);
      DotAdd(n, p1, e2);
    }
  }

  // ---------------------------------------------------------------------
  // Counting the vertices of a triangle by side (`ladoTriangulo`)
  // ---------------------------------------------------------------------

  /** The side of every vertex, in order, by the rule `Where`. */
  function Classes(pl: Plane, vs: seq<Point>): (ws: seq<Where>)
    ensures |ws| == |vs|
    ensures forall i | 0 <= i < |vs| :: ws[i] == pl.Where(vs[i])
  {
    if vs == [] then [] else Classes(pl, vs[..|vs| - 1]) + [pl.Where(vs[|vs| - 1])]
  }

  /** The side of every vertex, in order, by the rule `WhereAsWritten`. */
  function ClassesAsWritten(pl: Plane, vs: seq<Point>): (ws: seq<Where>)
    ensures |ws| == |vs|
    ensures forall i | 0 <= i < |vs| :: ws[i] == pl.WhereAsWritten(vs[i])
  {
    if vs == [] then [] else ClassesAsWritten(pl, vs[..|vs| - 1]) + [pl.WhereAsWritten(vs[|vs| - 1])]
  }

  /** How many entries of ws are w. */
  function Count(ws: seq<Where>, w: Where): nat {
    if ws == [] then 0
    else Count(ws[..|ws| - 1], w) + (if ws[|ws| - 1] == w then 1 else 0)
  }

  /** The verdict `ladoTriangulo` draws from its three counters. */
  function SideOfCounts(numPos: nat, numNeg: nat, numNoPlano: nat): Side {
    if numNoPlano == 3 then OnPlane
    else if numPos > 0 && numNeg == 0 then Positive
    else if numNeg > 0 && numPos == 0 then Negative
    else Intersects
  }

  function SideOfClasses(ws: seq<Where>): Side {
    SideOfCounts(Count(ws, Above), Count(ws, Below), Count(ws, On))
  }

  /** `ladoTriangulo` with its vertices counted by the rule `Where`, the rule
      `split_triangulo` buckets them with (see Findings in the README). */
  function TriangleSide(pl: Plane, t: Tri): Side {
    SideOfClasses(Classes(pl, t.vertices))
  }

  /** `ladoTriangulo` as written: vertices counted by `WhereAsWritten`. */
  function TriangleSideAsWritten(pl: Plane, t: Tri): Side {
    SideOfClasses(ClassesAsWritten(pl, t.vertices))
  }

  /** The two vertex rules a triangle verdict can count with: the one
      `ladoTriangulo` is written with, and the consistent one `ladoSegmento`
      and `split_triangulo` use. */
  datatype Rule = AsWritten | Consistent

  function Verdict(rule: Rule, pl: Plane, t: Tri): Side {
    match rule
    case AsWritten => TriangleSideAsWritten(pl, t)
    case Consistent => TriangleSide(pl, t)
  }

  /** `ladoTriangulo`: one pass over the vertices updating three counters,
      with the source's test (on the plane when |value| < EPS, else by sign). */
  method ClassifyTriangle(pl: Plane, t: Tri) returns (side: Side)
    ensures side == TriangleSideAsWritten(pl, t)
  {
    var numPos, numNeg, numNoPlano := 0, 0, 0;
    for i := 0 to |t.vertices|
      invariant numPos == Count(ClassesAsWritten(pl, t.vertices[..i]), Above)
      invariant numNeg == Count(ClassesAsWritten(pl, t.vertices[..i]), Below)
      invariant numNoPlano == Count(ClassesAsWritten(pl, t.vertices[..i]), On)
    {
      var v := t.vertices[i];
      CountStep(pl, t.vertices, i);
      var val := pl.Eval(v);
      if Abs(val) < EPS {
        numNoPlano := numNoPlano + 1;
      } else if val > 0.0 {
        numPos := numPos + 1;
      } else {
        numNeg := numNeg + 1;
      }
    }
    assert t.vertices[..|t.vertices|] == t.vertices;
    side := SideOfCounts(numPos, numNeg, numNoPlano);
  }

  /** One more vertex adds one to the count of its own side only. */
  lemma CountStep(pl: Plane, vs: seq<Point>, i: nat)
    requires i < |vs|
    ensures var before, after := ClassesAsWritten(pl, vs[..i]), ClassesAsWritten(pl, vs[..i + 1]);
            var w := pl.WhereAsWritten(vs[i]);
            Count(after, Above) == Count(before, Above) + (if w == Above then 1 else 0) &&
            Count(after, Below) == Count(before, Below) + (if w == Below then 1 else 0) &&
            Count(after, On) == Count(before, On) + (if w == On then 1 else 0)
  {
    assert vs[..i + 1][..i] == vs[..i];
    CountSnoc(ClassesAsWritten(pl, vs[..i]), pl.WhereAsWritten(vs[i]));
  }

  lemma CountSnoc(ws: seq<Where>, x: Where)
    ensures forall w :: Count(ws + [x], w) == Count(ws, w) + (if x == w then 1 else 0)
  {
    assert (ws + [x])[..|ws|] == ws;
  }

  // ---------------------------------------------------------------------
  // Properties
  // ---------------------------------------------------------------------

  /** Evaluating the plane along a line is affine in the line parameter. */
  lemma EvalAlong(pl: Plane, p: Point, v: Point, t: real)
    ensures pl.Eval(p.Add(v.Scale(t))) == pl.Eval(p) + t * Dot(pl.normal, v)
  {
    DotAdd(pl.normal, p, v.Scale(t));
    DotScale(pl.normal, v, t);
  }

  /** The difference of two values is the normal's dot with the difference of the points. */
  lemma EvalSub(pl: Plane, p: Point, q: Point)
    ensures Dot(pl.normal, q.Sub(p)) == pl.Eval(q) - pl.Eval(p)
  {
    DotAdd(pl.normal, q, p);
  }

  /** A point within EPS of the plane is never taken for a strict side: a
      segment whose endpoints are both such points is `OnPlane`. */
  lemma NearPointsOnPlane(pl: Plane, s: Segment)
    requires Abs(pl.Eval(s.ini)) < EPS && Abs(pl.Eval(s.fim)) < EPS
    ensures pl.SegmentSide(s) == OnPlane
    ensures pl.Where(s.ini) == On && pl.WhereAsWritten(s.ini) == On
  {
  }

  /** A segment classified Positive lies strictly above the plane (with margin
      EPS) all along, not only at its endpoints. */
  lemma {:induction false} PositiveSegmentAbove(pl: Plane, s: Segment, tau: real)
    requires pl.SegmentSide(s) == Positive
    requires 0.0 <= tau <= 1.0
    ensures pl.Eval(s.ini.Add(s.Dir().Scale(tau))) > EPS
  {
    EvalAlong(pl, s.ini, s.Dir(), tau);
    EvalSub(pl, s.ini, s.fim);
    var a, b := pl.Eval(s.ini), pl.Eval(s.fim);
    assert a + tau * (b - a) == (1.0 - tau) * a + tau * b;
    assert (1.0 - tau) * a >= (1.0 - tau) * EPS;
    assert tau * b >= tau * EPS;
  }

  /** Flipping the plane exchanges Positive and Negative verdicts on segments. */
  lemma FlipSegmentSide(pl: Plane, s: Segment)
    ensures pl.SegmentSide(s) == Positive <==> pl.Flip().SegmentSide(s) == Negative
    ensures pl.SegmentSide(s) == Negative <==> pl.Flip().SegmentSide(s) == Positive
  {
  }

  /** Each vertex of a triangle lies exactly on the triangle's own plane, so
      the pivot of a node is classified OnPlane by the node's plane. */
  lemma {:induction false} PivotOnItsPlane(t: Triangle)
    ensures TriangleSide(PlaneOf(t), t) == OnPlane
  {
    var pl := PlaneOf(t);
    var ws := Classes(pl, t.vertices);
    PlaneOfContains(t);
    assert ws == [On, On, On];
    ThreeVertexVerdict(ws);
  }

  /** The verdict on three vertex sides:
      on the plane iff all three are on it; Positive iff one is above and none
      below; Negative symmetrically; Intersects iff one is above and one below. */
  lemma {:induction false} ThreeVertexVerdict(ws: seq<Where>)
    requires |ws| == 3
    ensures SideOfClasses(ws) == OnPlane <==> ws == [On, On, On]
    ensures SideOfClasses(ws) == Positive <==> Above in ws && Below !in ws
    ensures SideOfClasses(ws) == Negative <==> Below in ws && Above !in ws
    ensures SideOfClasses(ws) == Intersects <==> Above in ws && Below in ws
  {
    var a, b, c := ws[0], ws[1], ws[2];
    assert ws == [a, b, c];
    CountThree(a, b, c, Above);
    CountThree(a, b, c, Below);
    CountThree(a, b, c, On);
  }

  lemma CountThree(a: Where, b: Where, c: Where, w: Where)
    ensures Count([a, b, c], w) ==
      (if a == w then 1 else 0) + (if b == w then 1 else 0) + (if c == w then 1 else 0)
  {
    assert [a, b, c][..2] == [a, b];
    assert [a, b][..1] == [a];
    assert [a][..0] == [];
    assert Count([a], w) == if a == w then 1 else 0;
    assert Count([a, b], w) == Count([a], w) + if b == w then 1 else 0;
  }

  /** `ladoTriangulo` as written, on a three-vertex triangle: OnPlane iff all
      three values are under EPS in magnitude; Positive iff some value is at
      least EPS and none is at most -EPS; Negative symmetrically; Intersects
      iff there is a value at least EPS and another at most -EPS. */
  lemma {:induction false} TriangleSideAsWrittenCases(pl: Plane, t: Triangle)
    ensures TriangleSideAsWritten(pl, t) == OnPlane <==>
      forall i | 0 <= i < 3 :: Abs(pl.Eval(t.vertices[i])) < EPS
    ensures TriangleSideAsWritten(pl, t) == Positive <==>
      (exists i | 0 <= i < 3 :: pl.Eval(t.vertices[i]) >= EPS) &&
      (forall i | 0 <= i < 3 :: pl.Eval(t.vertices[i]) > -EPS)
    ensures TriangleSideAsWritten(pl, t) == Negative <==>
      (exists i | 0 <= i < 3 :: pl.Eval(t.vertices[i]) <= -EPS) &&
      (forall i | 0 <= i < 3 :: pl.Eval(t.vertices[i]) < EPS)
    ensures TriangleSideAsWritten(pl, t) == Intersects <==>
      (exists i | 0 <= i < 3 :: pl.Eval(t.vertices[i]) >= EPS) &&
      (exists i | 0 <= i < 3 :: pl.Eval(t.vertices[i]) <= -EPS)
  {
    var ws := ClassesAsWritten(pl, t.vertices);
    ThreeVertexVerdict(ws);
    assert ws == [ws[0], ws[1], ws[2]];
  }

  /** `ladoTriangulo` with the consistent vertex rule, on a three-vertex
      triangle: OnPlane iff every value is within [-EPS, EPS]; Positive iff
      some value exceeds EPS and none is under -EPS; Negative symmetrically;
      Intersects iff some value exceeds EPS and some is under -EPS. */
  lemma {:induction false} TriangleSideCases(pl: Plane, t: Triangle)
    ensures TriangleSide(pl, t) == OnPlane <==>
      forall i | 0 <= i < 3 :: Abs(pl.Eval(t.vertices[i])) <= EPS
    ensures TriangleSide(pl, t) == Positive <==>
      (exists i | 0 <= i < 3 :: pl.Eval(t.vertices[i]) > EPS) &&
      (forall i | 0 <= i < 3 :: pl.Eval(t.vertices[i]) >= -EPS)
    ensures TriangleSide(pl, t) == Negative <==>
      (exists i | 0 <= i < 3 :: pl.Eval(t.vertices[i]) < -EPS) &&
      (forall i | 0 <= i < 3 :: pl.Eval(t.vertices[i]) <= EPS)
    ensures TriangleSide(pl, t) == Intersects <==>
      (exists i | 0 <= i < 3 :: pl.Eval(t.vertices[i]) > EPS) &&
      (exists i | 0 <= i < 3 :: pl.Eval(t.vertices[i]) < -EPS)
  {
    var ws := Classes(pl, t.vertices);
    ThreeVertexVerdict(ws);
    assert ws == [ws[0], ws[1], ws[2]];
  }

  /** The two vertex rules differ only on a value of magnitude exactly EPS, so
      the two triangle verdicts agree on every triangle with no such vertex. */
  lemma TriangleSidesAgree(pl: Plane, t: Tri)
    requires forall i | 0 <= i < |t.vertices| :: Abs(pl.Eval(t.vertices[i])) != EPS
    ensures TriangleSide(pl, t) == TriangleSideAsWritten(pl, t)
  {
    assert Classes(pl, t.vertices) == ClassesAsWritten(pl, t.vertices);
  }
}
