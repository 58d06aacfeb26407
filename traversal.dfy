/** The search for the triangles a segment hits (`busca_intersecao`). */
module Traversal {
  import opened Geometry
  import opened Planes
  import opened Splitter
  import opened Bsp
  import opened Intersection

  /** The ids of the triangles of ts the segment hits, in order (the loop over
      a node's `triangulosSobrePlano`). */
  function NodeHits(seg: Segment, ts: seq<Triangle>): seq<int> {
    if ts == [] then []
    else
      var last := ts[|ts| - 1];
      var rest := NodeHits(seg, ts[..|ts| - 1]);
      if IntersectsSegmentTriangle(seg, last) then rest + [last.id] else rest
  }

  /** NodeHits lists exactly the ids of the triangles of ts the segment hits. */
  lemma {:induction false} NodeHitsExact(seg: Segment, ts: seq<Triangle>)
    ensures forall id <- NodeHits(seg, ts) :: exists t <- ts :: t.id == id && IntersectsSegmentTriangle(seg, t)
    ensures forall t <- ts :: IntersectsSegmentTriangle(seg, t) ==> t.id in NodeHits(seg, ts)
  {
    if ts != [] {
      NodeHitsExact(seg, ts[..|ts| - 1]);
      assert forall t <- ts :: t in ts[..|ts| - 1] || t == ts[|ts| - 1];
      assert forall t <- ts[..|ts| - 1] :: t in ts;
    }
  }

  /** The ids the search appends, with the descent fixed so that a segment
      lying in a node's plane is searched for on both sides: a triangle of
      a subtree can touch the plane. */
  function Query(tree: BSP, seg: Segment): seq<int> {
    match tree
    case Nil => []
    case Node(pl, on, l, r) =>
      NodeHits(seg, on) +
      if tree.IsLeaf() then []
      else
        match pl.SegmentSide(seg)
        case Positive => Query(r, seg)
        case Negative => Query(l, seg)
        case OnPlane => Query(l, seg) + Query(r, seg)
        case Intersects => Query(l, seg) + Query(r, seg)
  }

  /** The ids `busca_intersecao` appends as written: a segment lying in the
      node's plane stops the descent. */
  function QueryAsWritten(tree: BSP, seg: Segment): seq<int> {
    match tree
    case Nil => []
    case Node(pl, on, l, r) =>
      NodeHits(seg, on) +
      if tree.IsLeaf() then []
      else
        match pl.SegmentSide(seg)
        case Positive => QueryAsWritten(r, seg)
        case Negative => QueryAsWritten(l, seg)
        case OnPlane => []
        case Intersects => QueryAsWritten(l, seg) + QueryAsWritten(r, seg)
  }

  /** `busca_intersecao`: the caller's vector is passed in and the extended
      vector returned. A segment lying in a node's plane ends the descent at
      that node. */
  method BuscaIntersecao(no: BSP, seg: Segment, ids: seq<int>) returns (idsIntersectados: seq<int>)
    ensures idsIntersectados == ids + QueryAsWritten(no, seg)
    decreases no
  {
    if no == Nil {
      return ids;
    }
    idsIntersectados := TestOnPlane(seg, no.onPlane, ids);
    if no.IsLeaf() {
      QueryLeaf(no, seg, ids);
      return;
    }
    var lado := no.plane.SegmentSide(seg);
    match lado {
      case Positive =>
        QueryOneSide(no, seg, ids);
        idsIntersectados := BuscaIntersecao(no.right, seg, idsIntersectados);
      case Negative =>
        QueryOneSide(no, seg, ids);
        idsIntersectados := BuscaIntersecao(no.left, seg, idsIntersectados);
      case OnPlane =>
        QueryStops(no, seg, ids);
      case Intersects =>
        QueryBothSides(no, seg, ids);
        idsIntersectados := BuscaIntersecao(no.left, seg, idsIntersectados);
        idsIntersectados := BuscaIntersecao(no.right, seg, idsIntersectados);
    }
  }

  /** One step of the search, after the caller's prefix ids: a leaf appends
      its own hits only, ... */
  lemma QueryLeaf(no: BSP, seg: Segment, ids: seq<int>)
    requires no.Node? && no.IsLeaf()
    ensures ids + QueryAsWritten(no, seg) == ids + NodeHits(seg, no.onPlane)
  {
    var on := NodeHits(seg, no.onPlane);
    assert QueryAsWritten(no, seg) == on + [];
    assert on + [] == on;
  }

  /** ... so does a node whose plane holds the segment, ... */
  lemma QueryStops(no: BSP, seg: Segment, ids: seq<int>)
    requires no.Node? && !no.IsLeaf() && no.plane.SegmentSide(seg) == OnPlane
    ensures ids + QueryAsWritten(no, seg) == ids + NodeHits(seg, no.onPlane)
  {
    var on := NodeHits(seg, no.onPlane);
    assert QueryAsWritten(no, seg) == on + [];
    assert on + [] == on;
  }

  /** ... a node whose plane has the segment strictly on one side appends
      its hits and then that side's, ... */
  lemma QueryOneSide(no: BSP, seg: Segment, ids: seq<int>)
    requires no.Node? && !no.IsLeaf()
    ensures no.plane.SegmentSide(seg) == Positive ==>
              ids + QueryAsWritten(no, seg) == ids + NodeHits(seg, no.onPlane) + QueryAsWritten(no.right, seg)
    ensures no.plane.SegmentSide(seg) == Negative ==>
              ids + QueryAsWritten(no, seg) == ids + NodeHits(seg, no.onPlane) + QueryAsWritten(no.left, seg)
  {
    var on := NodeHits(seg, no.onPlane);
    AppendAssociative(ids, on, QueryAsWritten(no.right, seg));
    AppendAssociative(ids, on, QueryAsWritten(no.left, seg));
  }

  /** ... and a node whose plane the segment crosses appends its hits, then
      the left side's, then the right side's. */
  lemma QueryBothSides(no: BSP, seg: Segment, ids: seq<int>)
    requires no.Node? && !no.IsLeaf() && no.plane.SegmentSide(seg) == Intersects
    ensures ids + QueryAsWritten(no, seg) ==
            ids + NodeHits(seg, no.onPlane) + QueryAsWritten(no.left, seg) + QueryAsWritten(no.right, seg)
  {
    var on, l, r := NodeHits(seg, no.onPlane), QueryAsWritten(no.left, seg), QueryAsWritten(no.right, seg);
    assert QueryAsWritten(no, seg) == on + (l + r);
    AppendAssociative(ids, on, l + r);
    AppendAssociative(ids + on, l, r);
  }

  lemma AppendAssociative(a: seq<int>, b: seq<int>, c: seq<int>)
    ensures a + (b + c) == a + b + c
  {
  }

  /** The loop over a node's on-plane triangles, appending each hit's id. */
  method TestOnPlane(seg: Segment, triangulosSobrePlano: seq<Triangle>, ids: seq<int>)
    returns (idsIntersectados: seq<int>)
    ensures idsIntersectados == ids + NodeHits(seg, triangulosSobrePlano)
  {
    idsIntersectados := ids;
    for i := 0 to |triangulosSobrePlano|
      invariant idsIntersectados == ids + NodeHits(seg, triangulosSobrePlano[..i])
    {
      var trianguloNoPlano := triangulosSobrePlano[i];
      assert triangulosSobrePlano[..i + 1][..i] == triangulosSobrePlano[..i];
      var hit := IntersectsSegmentTriangle(seg, trianguloNoPlano);
      if hit {
        idsIntersectados := idsIntersectados + [trianguloNoPlano.id];
      }
    }
    assert triangulosSobrePlano[..|triangulosSobrePlano|] == triangulosSobrePlano;
  }

  // ---------------------------------------------------------------------
  // Properties
  // ---------------------------------------------------------------------

  /** Every id in ids belongs to a triangle of ts that the segment hits. */
  ghost predicate Reported(seg: Segment, ids: seq<int>, ts: seq<Triangle>) {
    forall id <- ids :: exists t <- ts :: t.id == id && IntersectsSegmentTriangle(seg, t)
  }

  lemma ReportedJoin(seg: Segment, a: seq<int>, b: seq<int>, ta: seq<Triangle>, tb: seq<Triangle>,
                     ts: seq<Triangle>)
    requires Reported(seg, a, ta) && Reported(seg, b, tb)
    requires forall t <- ta :: t in ts
    requires forall t <- tb :: t in ts
    ensures Reported(seg, a + b, ts)
  {
  }

  /** Every id the search reports belongs to a triangle stored in the tree
      that the segment hits. */
  lemma {:induction false} QuerySound(tree: BSP, seg: Segment)
    ensures Reported(seg, Query(tree, seg), Stored(tree))
  {
    if tree.Node? {
      QuerySound(tree.left, seg);
      QuerySound(tree.right, seg);
      var all := Stored(tree);
      var l, r := Query(tree.left, seg), Query(tree.right, seg);
      assert forall t <- Stored(tree.left) :: t in all;
      assert forall t <- Stored(tree.right) :: t in all;
      ReportedJoin(seg, l, r, Stored(tree.left), Stored(tree.right), all);
      ReportedJoin(seg, l, [], Stored(tree.left), [], all);
      ReportedJoin(seg, r, [], Stored(tree.right), [], all);
      ReportedJoin(seg, [], [], [], [], all);
      assert l + [] == l && r + [] == r;
      NodeHitsExact(seg, tree.onPlane);
      var below := Query(tree, seg)[|NodeHits(seg, tree.onPlane)|..];
      assert Query(tree, seg) == NodeHits(seg, tree.onPlane) + below;
      assert Reported(seg, below, all);
      ReportedJoin(seg, NodeHits(seg, tree.onPlane), below, tree.onPlane, all, all);
    }
  }

  /** The search as written reports a sub-list of what the corrected search
      reports: it only ever prunes more. */
  lemma {:induction false} QueryAsWrittenWithin(tree: BSP, seg: Segment)
    ensures multiset(QueryAsWritten(tree, seg)) <= multiset(Query(tree, seg))
  {
    if tree.Node? {
      QueryAsWrittenWithin(tree.left, seg);
      QueryAsWrittenWithin(tree.right, seg);
    }
  }

  /** So the search as written is sound too: every id it reports belongs to
      a stored triangle the segment hits. */
  lemma QueryAsWrittenSound(tree: BSP, seg: Segment)
    ensures Reported(seg, QueryAsWritten(tree, seg), Stored(tree))
  {
    QueryAsWrittenWithin(tree, seg);
    QuerySound(tree, seg);
    forall id <- QueryAsWritten(tree, seg)
      ensures exists t <- Stored(tree) :: t.id == id && IntersectsSegmentTriangle(seg, t)
    {
      assert id in multiset(QueryAsWritten(tree, seg));
      assert id in Query(tree, seg);
    }
  }

  /** The convex combinations of a triangle's vertices stay in any half-space
      that holds the vertices. */
  lemma HalfSpaceConvex(q: Plane, c: real, t: Triangle, u: real, v: real)
    requires InHalfSpace(q, c, t) && InTriangle(u, v)
    ensures q.Eval(Barycentric(t, u, v)) <= c
  {
    EvalBarycentric(q, t, u, v);
    var a, b, d := q.Eval(t.vertices[0]), q.Eval(t.vertices[1]), q.Eval(t.vertices[2]);
    assert a <= c && b <= c && d <= c;
    ConvexBound(a, b, d, c, u, v);
  }

  lemma ConvexBound(a: real, b: real, d: real, c: real, u: real, v: real)
    requires a <= c && b <= c && d <= c
    requires 0.0 <= u && 0.0 <= v && u + v <= 1.0
    ensures (1.0 - u - v) * a + u * b + v * d <= c
  {
    var w := 1.0 - u - v;
    assert w * (c - a) >= 0.0 && u * (c - b) >= 0.0 && v * (c - d) >= 0.0;
    assert w * a + u * b + v * d == (w + u + v) * c - (w * (c - a) + u * (c - b) + v * (c - d));
  }

  /** A segment that meets a triangle lying in {value <= EPS} at a point of
      the segment itself is not classified Positive by the plane. */
  lemma MeetingNotPositive(pl: Plane, seg: Segment, t: Triangle, u: real, v: real, tau: real)
    requires InHalfSpace(pl, EPS, t)
    requires MeetsAt(seg, t, u, v, tau) && InTriangle(u, v) && 0.0 <= tau <= 1.0
    ensures pl.SegmentSide(seg) != Positive
  {
    HalfSpaceConvex(pl, EPS, t, u, v);
    if pl.SegmentSide(seg) == Positive {
      PositiveSegmentAbove(pl, seg, tau);
    }
  }

  /** Symmetrically, a triangle in {value >= -EPS} met by the segment keeps
      the segment from being classified Negative. */
  lemma MeetingNotNegative(pl: Plane, seg: Segment, t: Triangle, u: real, v: real, tau: real)
    requires InHalfSpace(pl.Flip(), EPS, t)
    requires MeetsAt(seg, t, u, v, tau) && InTriangle(u, v) && 0.0 <= tau <= 1.0
    ensures pl.SegmentSide(seg) != Negative
  {
    HalfSpaceConvex(pl.Flip(), EPS, t, u, v);
    FlipSegmentSide(pl, seg);
    if pl.SegmentSide(seg) == Negative {
      PositiveSegmentAbove(pl.Flip(), seg, tau);
    }
  }

  /** Completeness of the corrected search on a tree with the builder's
      ordering invariant: a stored triangle that the test accepts and that the
      segment meets at one of its own points (parameter in [0, 1]) is
      reported. */
  lemma {:induction false} QueryComplete(tree: BSP, seg: Segment, t: Triangle, u: real, v: real, tau: real)
    requires Partitioned(tree) && t in Stored(tree)
    requires IntersectsSegmentTriangle(seg, t)
    requires MeetsAt(seg, t, u, v, tau) && InTriangle(u, v) && 0.0 <= tau <= 1.0
    ensures t.id in Query(tree, seg)
  {
    var Node(pl, on, l, r) := tree;
    if t in on {
      NodeHitsExact(seg, on);
    } else if t in Stored(l) {
      MeetingNotPositive(pl, seg, t, u, v, tau);
      QueryComplete(l, seg, t, u, v, tau);
    } else {
      assert t in Stored(r);
      MeetingNotNegative(pl, seg, t, u, v, tau);
      QueryComplete(r, seg, t, u, v, tau);
    }
  }

  /** The search finds a stored triangle exactly when a scan of every stored
      triangle does, for the triangles the segment meets at one of its own
      points. */
  lemma QueryMatchesScan(tree: BSP, seg: Segment, t: Triangle, u: real, v: real, tau: real)
    requires Partitioned(tree) && t in Stored(tree)
    requires MeetsAt(seg, t, u, v, tau) && InTriangle(u, v) && 0.0 <= tau <= 1.0
    ensures IntersectsSegmentTriangle(seg, t) ==> t.id in Query(tree, seg)
    ensures t.id in Query(tree, seg) ==> t.id in NodeHits(seg, Stored(tree))
  {
    if IntersectsSegmentTriangle(seg, t) {
      QueryComplete(tree, seg, t, u, v, tau);
    }
    QuerySound(tree, seg);
    NodeHitsExact(seg, Stored(tree));
  }

  /** The corrected search finds every hit in a tree built by the builder,
      under either vertex rule. */
  lemma BuiltTreeComplete(rule: Rule, s: seq<Triangle>, fuel: nat, seg: Segment, t: Triangle,
                          u: real, v: real, tau: real)
    requires Build(rule, s, fuel).Some? && t in Stored(Build(rule, s, fuel).value)
    requires IntersectsSegmentTriangle(seg, t)
    requires MeetsAt(seg, t, u, v, tau) && InTriangle(u, v) && 0.0 <= tau <= 1.0
    ensures t.id in Query(Build(rule, s, fuel).value, seg)
  {
    BuildPartitioned(rule, s, fuel);
    QueryComplete(Build(rule, s, fuel).value, seg, t, u, v, tau);
  }

  /** The segment lies in the plane of no node of the tree. */
  ghost predicate OffEveryPlane(tree: BSP, seg: Segment) {
    match tree
    case Nil => true
    case Node(pl, _, l, r) => pl.SegmentSide(seg) != OnPlane && OffEveryPlane(l, seg) && OffEveryPlane(r, seg)
  }

  /** When the segment lies in no node's plane, the search as written and
      the corrected search report the same ids in the same order. */
  lemma {:induction false} QueryAsWrittenAgrees(tree: BSP, seg: Segment)
    requires OffEveryPlane(tree, seg)
    ensures QueryAsWritten(tree, seg) == Query(tree, seg)
  {
    if tree.Node? {
      QueryAsWrittenAgrees(tree.left, seg);
      QueryAsWrittenAgrees(tree.right, seg);
    }
  }

  /** So on such a segment the search as written is complete as well: in a
      tree built under either rule it reports every stored triangle the
      segment hits at one of its own points. */
  lemma BuiltTreeCompleteAsWritten(rule: Rule, s: seq<Triangle>, fuel: nat, seg: Segment, t: Triangle,
                                   u: real, v: real, tau: real)
    requires Build(rule, s, fuel).Some? && t in Stored(Build(rule, s, fuel).value)
    requires OffEveryPlane(Build(rule, s, fuel).value, seg)
    requires IntersectsSegmentTriangle(seg, t)
    requires MeetsAt(seg, t, u, v, tau) && InTriangle(u, v) && 0.0 <= tau <= 1.0
    ensures t.id in QueryAsWritten(Build(rule, s, fuel).value, seg)
  {
    BuiltTreeComplete(rule, s, fuel, seg, t, u, v, tau);
    QueryAsWrittenAgrees(Build(rule, s, fuel).value, seg);
  }
}
