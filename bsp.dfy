/** The BSP tree (`BSPNode`) and its construction (`criaBSP`). */
module Bsp {
  import opened Geometry
  import opened Planes
  import opened Splitter

  datatype Option<T> = None | Some(value: T)

  /** A node holds its splitting plane, the triangles lying on that plane and
      the subtrees of the negative (left) and positive (right) sides; Nil is
      the empty region (the null pointer). */
  datatype BSP = Nil | Node(plane: Plane, onPlane: seq<Triangle>, left: BSP, right: BSP) {
    /** `ehFolha`: a node with no children. */
    predicate IsLeaf()
      requires Node?
    {
      left == Nil && right == Nil
    }
  }

  /** Every triangle stored in the tree: a node's own, then the left subtree's,
      then the right subtree's. */
  function Stored(tree: BSP): seq<Triangle> {
    match tree
    case Nil => []
    case Node(_, on, l, r) => on + Stored(l) + Stored(r)
  }

  /** The ids of a list of triangles. */
  function Ids(ts: seq<Triangle>): set<int> {
    set t <- ts :: t.id
  }

  lemma IdsAppend(a: seq<Triangle>, b: seq<Triangle>)
    ensures Ids(a + b) == Ids(a) + Ids(b)
  {
    assert forall t <- a + b :: t in a || t in b;
  }

  // ---------------------------------------------------------------------
  // Distributing the non-pivot triangles (the loop of `criaBSP`)
  // ---------------------------------------------------------------------

  /** The three lists `criaBSP` fills: sPlus, sMinus and the node's on-plane
      list (without the pivot). */
  datatype Parts = Parts(sPlus: seq<Triangle>, sMinus: seq<Triangle>, sPlane: seq<Triangle>) {
    function All(): seq<Triangle> { sPlus + sMinus + sPlane }
  }

  /** One step of the loop: place t according to the verdict on it; a
      triangle that Intersects is split and its fragments distributed. */
  function Place(pl: Plane, t: Triangle, side: Side, p: Parts): Parts {
    match side
    case Positive => p.(sPlus := p.sPlus + [t])
    case Negative => p.(sMinus := p.sMinus + [t])
    case OnPlane => p.(sPlane := p.sPlane + [t])
    case Intersects =>
      var (novosPositivos, novosNegativos) := Split(pl, t);
      p.(sPlus := p.sPlus + novosPositivos, sMinus := p.sMinus + novosNegativos)
  }

  /** Placing a triangle by any verdict adds no id but its own to the lists. */
  lemma PlaceIdsWithin(pl: Plane, t: Triangle, side: Side, p: Parts)
    ensures Ids(Place(pl, t, side, p).All()) <= Ids(p.All()) + {t.id}
  {
    var q := Place(pl, t, side, p);
    if side == Intersects {
      var (ps, ns) := Split(pl, t);
      PlaceMultiset(pl, t, side, p, ps + ns);
      SplitFragmentsWellFormed(pl, t);
      PartsIds(p, q, ps + ns);
    } else {
      PlaceMultiset(pl, t, side, p, [t]);
      PartsIds(p, q, [t]);
    }
  }

  /** Placing a triangle by its consistent verdict adds exactly its id to the
      lists: a triangle that Intersects leaves fragments carrying its id. */
  lemma PlaceKeepsIds(pl: Plane, t: Triangle, p: Parts)
    ensures Ids(Place(pl, t, TriangleSide(pl, t), p).All()) == Ids(p.All()) + {t.id}
  {
    var side := TriangleSide(pl, t);
    var q := Place(pl, t, side, p);
    if side == Intersects {
      var (ps, ns) := Split(pl, t);
      PlaceMultiset(pl, t, side, p, ps + ns);
      SplitIds(pl, t);
      PartsIds(p, q, ps + ns);
    } else {
      PlaceMultiset(pl, t, side, p, [t]);
      PartsIds(p, q, [t]);
      assert t in [t];
    }
  }

  /** Placing a triangle adds its fragments, or the triangle itself, to the
      three lists and removes nothing. */
  lemma PlaceMultiset(pl: Plane, t: Triangle, side: Side, p: Parts, added: seq<Triangle>)
    requires added == if side == Intersects then Split(pl, t).0 + Split(pl, t).1 else [t]
    ensures multiset(Place(pl, t, side, p).All()) == multiset(p.All()) + multiset(added)
  {
    var q := Place(pl, t, side, p);
    match side
    case Positive =>
      assert q.All() == p.sPlus + [t] + p.sMinus + p.sPlane;
    case Negative =>
      assert q.All() == p.sPlus + (p.sMinus + [t]) + p.sPlane;
    case OnPlane =>
      assert q.All() == p.sPlus + p.sMinus + (p.sPlane + [t]);
    case Intersects =>
      var (ps, ns) := Split(pl, t);
      assert q.All() == p.sPlus + ps + (p.sMinus + ns) + p.sPlane;
  }

  /** The fragments of a triangle that Intersects carry exactly its id. */
  lemma SplitIds(pl: Plane, t: Triangle)
    requires TriangleSide(pl, t) == Intersects
    ensures Ids(Split(pl, t).0 + Split(pl, t).1) == {t.id}
  {
    var (ps, ns) := Split(pl, t);
    SplitFragmentsWellFormed(pl, t);
    ThreeVertexVerdict(Classes(pl, t.vertices));
    SplitCounts(pl, t);
    assert ps[0] in ps + ns;
  }

  /** Ids are additive over the three lists. */
  lemma PartsIds(p: Parts, q: Parts, added: seq<Triangle>)
    requires multiset(q.All()) == multiset(p.All()) + multiset(added)
    ensures Ids(q.All()) == Ids(p.All()) + Ids(added)
  {
    forall t | t in q.All() ensures t in p.All() || t in added {
      assert t in multiset(q.All());
    }
    forall t | t in p.All() ensures t in q.All() {
      assert t in multiset(p.All());
      assert t in multiset(q.All());
    }
    forall t | t in added ensures t in q.All() {
      assert t in multiset(added);
      assert t in multiset(q.All());
    }
  }

  // ---------------------------------------------------------------------
  // The builder
  // ---------------------------------------------------------------------

  /** The loop of `criaBSP`: place the triangles of todo one by one, in
      order, into the three lists, each by its verdict under the rule. The
      on-plane list is only ever extended. */
  function Loop(rule: Rule, pl: Plane, todo: seq<Triangle>, parts: Parts): (r: Parts)
    ensures |r.sPlane| >= |parts.sPlane| && r.sPlane[..|parts.sPlane|] == parts.sPlane
    decreases |todo|, 1
  {
    if todo == [] then parts else Step(rule, pl, todo, parts)
  }

  /** One iteration of the loop and the rest of it: place the next triangle
      by its verdict, then go on with the others. */
  function Step(rule: Rule, pl: Plane, todo: seq<Triangle>, parts: Parts): (r: Parts)
    requires todo != []
    ensures |r.sPlane| >= |parts.sPlane| && r.sPlane[..|parts.sPlane|] == parts.sPlane
    decreases |todo|, 0
  {
    var t := todo[0];
    var next := Place(pl, t, Verdict(rule, pl, t), parts);
    PlaceExtendsPlane(pl, t, Verdict(rule, pl, t), parts);
    Loop(rule, pl, todo[1..], next)
  }

  /** A step of the loop only appends to the on-plane list. */
  lemma PlaceExtendsPlane(pl: Plane, t: Triangle, side: Side, p: Parts)
    ensures var q := Place(pl, t, side, p);
            |q.sPlane| >= |p.sPlane| && q.sPlane[..|p.sPlane|] == p.sPlane
  {
  }

  /** `criaBSP`. The source's recursion has no decreasing measure (splitting
      can make the lists grow), so the model carries a fuel bound and answers
      None when it runs out. The empty input builds the empty region; any
      other input builds a node whose plane is the pivot's plane, whose
      on-plane list starts with the pivot, and whose subtrees are built from
      the minus (left) and plus (right) lists the loop leaves. */
  function Build(rule: Rule, s: seq<Triangle>, fuel: nat): Option<BSP>
    decreases fuel, 0
  {
    if s == [] then Some(Nil)
    else if fuel == 0 then None
    else Grow(rule, s, fuel - 1)
  }

  /** The body of `criaBSP` for a nonempty list: run the loop, then build the
      left subtree from the minus list and the right one from the plus list;
      None if either runs out of fuel. */
  function Grow(rule: Rule, s: seq<Triangle>, fuel: nat): Option<BSP>
    requires s != []
    decreases fuel, 1
  {
    var parts := Lists(rule, s);
    var esquerda := Build(rule, parts.sMinus, fuel);
    var direita := Build(rule, parts.sPlus, fuel);
    if esquerda.None? || direita.None? then None
    else Some(Node(PlaneOf(s[0]), parts.sPlane, esquerda.value, direita.value))
  }

  /** The three lists the loop leaves for a nonempty input. */
  function Lists(rule: Rule, s: seq<Triangle>): Parts
    requires s != []
  {
    Loop(rule, PlaneOf(s[0]), s[1..], Parts([], [], [s[0]]))
  }

  /** The shape of a built tree: the empty input builds the empty region;
      any other input builds a node on the pivot's plane whose on-plane list
      starts with the pivot. */
  lemma BuildShape(rule: Rule, s: seq<Triangle>, fuel: nat)
    requires Build(rule, s, fuel).Some?
    ensures Build(rule, s, fuel).value == Nil <==> s == []
    ensures s != [] ==>
      var node := Build(rule, s, fuel).value;
      node.Node? && node.plane == PlaneOf(s[0]) && |node.onPlane| > 0 && node.onPlane[0] == s[0]
  {
    if s != [] {
      assert Build(rule, s, fuel) == Grow(rule, s, fuel - 1);
    }
  }

  /** A nonempty list with fuel left builds a node from the loop's lists. */
  lemma BuildStep(rule: Rule, s: seq<Triangle>, fuel: nat, parts: Parts, esquerda: Option<BSP>, direita: Option<BSP>)
    requires s != [] && fuel > 0 && parts == Lists(rule, s)
    requires esquerda == Build(rule, parts.sMinus, fuel - 1) && direita == Build(rule, parts.sPlus, fuel - 1)
    ensures Build(rule, s, fuel) ==
            if esquerda.None? || direita.None? then None
            else Some(Node(PlaneOf(s[0]), parts.sPlane, esquerda.value, direita.value))
  {
    assert Build(rule, s, fuel) == Grow(rule, s, fuel - 1);
  }

  /** One iteration of the loop: place the next triangle. */
  lemma LoopStep(rule: Rule, pl: Plane, todo: seq<Triangle>, parts: Parts)
    requires todo != []
    ensures Loop(rule, pl, todo, parts) ==
            Loop(rule, pl, todo[1..], Place(pl, todo[0], Verdict(rule, pl, todo[0]), parts))
  {
    assert Loop(rule, pl, todo, parts) == Step(rule, pl, todo, parts);
  }

  /** The loop of `criaBSP`: classify each remaining triangle by
      `ladoTriangulo` as written and append it, or its fragments, to the
      lists it belongs to. */
  method Partition(plano: Plane, rest: seq<Triangle>, pivo: Triangle)
    returns (sPlus: seq<Triangle>, sMinus: seq<Triangle>, sPlane: seq<Triangle>)
    ensures Parts(sPlus, sMinus, sPlane) == Loop(AsWritten, plano, rest, Parts([], [], [pivo]))
  {
    sPlus, sMinus, sPlane := [], [], [pivo];
    for i := 0 to |rest|
      invariant Loop(AsWritten, plano, rest[i..], Parts(sPlus, sMinus, sPlane)) ==
                Loop(AsWritten, plano, rest, Parts([], [], [pivo]))
    {
      var t := rest[i];
      assert rest[i..][1..] == rest[i + 1..];
      LoopStep(AsWritten, plano, rest[i..], Parts(sPlus, sMinus, sPlane));
      ghost var before := Parts(sPlus, sMinus, sPlane);
      var lado := ClassifyTriangle(plano, t);
      match lado {
        case Positive =>
          sPlus := sPlus + [t];
        case Negative =>
          sMinus := sMinus + [t];
        case OnPlane =>
          sPlane := sPlane + [t];
        case Intersects =>
          var novosPositivos, novosNegativos := SplitTriangle(t, plano);
          sPlus := sPlus + novosPositivos;
          sMinus := sMinus + novosNegativos;
      }
      assert Parts(sPlus, sMinus, sPlane) == Place(plano, t, lado, before);
    }
    assert rest[|rest|..] == [];
  }

  /** `criaBSP`: split off the pivot, run the loop over the rest, then build
      the left (negative) and right (positive) subtrees. */
  method CriaBSP(s: seq<Triangle>, fuel: nat) returns (r: Option<BSP>)
    ensures r == Build(AsWritten, s, fuel)
    decreases fuel
  {
    if s == [] {
      r := Some(Nil);
    } else if fuel == 0 {
      r := None;
    } else {
      var pivo := s[0];
      var plano := PlaneOf(pivo);
      var sPlus, sMinus, sPlane := Partition(plano, s[1..], pivo);
      assert Parts(sPlus, sMinus, sPlane) == Lists(AsWritten, s);
      var esquerda := CriaBSP(sMinus, fuel - 1);
      var direita := CriaBSP(sPlus, fuel - 1);
      BuildStep(AsWritten, s, fuel, Parts(sPlus, sMinus, sPlane), esquerda, direita);
      if esquerda.Some? && direita.Some? {
        r := Some(Node(plano, sPlane, esquerda.value, direita.value));
      } else {
        r := None;
      }
    }
  }

  // ---------------------------------------------------------------------
  // Properties of the builder
  // ---------------------------------------------------------------------

  /** The loop's lists hold at most the ids already placed and those still
      to be placed, and exactly those with the consistent rule. */
  lemma {:induction false} LoopIds(rule: Rule, pl: Plane, todo: seq<Triangle>, parts: Parts)
    ensures Ids(Loop(rule, pl, todo, parts).All()) <= Ids(parts.All()) + Ids(todo)
    ensures rule == Consistent ==> Ids(Loop(rule, pl, todo, parts).All()) == Ids(parts.All()) + Ids(todo)
    decreases |todo|
  {
    if todo != [] {
      var t := todo[0];
      LoopStep(rule, pl, todo, parts);
      LoopIds(rule, pl, todo[1..], Place(pl, t, Verdict(rule, pl, t), parts));
      PlaceIdsWithin(pl, t, Verdict(rule, pl, t), parts);
      if rule == Consistent {
        PlaceKeepsIds(pl, t, parts);
      }
      IdsAppend([t], todo[1..]);
      assert todo == [t] + todo[1..];
    }
  }

  /** A built tree stores only ids of the input, whatever the vertex rule;
      with the consistent rule it stores exactly those ids: no triangle is
      lost and no id is invented. */
  lemma {:induction false} BuildIds(rule: Rule, s: seq<Triangle>, fuel: nat)
    requires Build(rule, s, fuel).Some?
    ensures Ids(Stored(Build(rule, s, fuel).value)) <= Ids(s)
    ensures rule == Consistent ==> Ids(Stored(Build(rule, s, fuel).value)) == Ids(s)
    decreases fuel, 0
  {
    if s != [] {
      GrowIds(rule, s, fuel - 1);
    }
  }

  lemma {:induction false} GrowIds(rule: Rule, s: seq<Triangle>, fuel: nat)
    requires s != [] && Grow(rule, s, fuel).Some?
    ensures Ids(Stored(Grow(rule, s, fuel).value)) <= Ids(s)
    ensures rule == Consistent ==> Ids(Stored(Grow(rule, s, fuel).value)) == Ids(s)
    decreases fuel, 1
  {
    var parts := Lists(rule, s);
    BuildIds(rule, parts.sMinus, fuel);
    BuildIds(rule, parts.sPlus, fuel);
    LoopIds(rule, PlaneOf(s[0]), s[1..], Parts([], [], [s[0]]));
    var node := Grow(rule, s, fuel).value;
    IdsAppend(node.onPlane + Stored(node.left), Stored(node.right));
    IdsAppend(node.onPlane, Stored(node.left));
    IdsAppend(parts.sPlus + parts.sMinus, parts.sPlane);
    IdsAppend(parts.sPlus, parts.sMinus);
    IdsAppend([s[0]], s[1..]);
    assert s == [s[0]] + s[1..];
    assert Parts([], [], [s[0]]).All() == [s[0]];
  }

  /** More fuel never changes a tree that was built: the bound only decides
      whether the construction finishes. */
  lemma {:induction false} BuildFuelMonotone(rule: Rule, s: seq<Triangle>, f1: nat, f2: nat)
    requires f1 <= f2 && Build(rule, s, f1).Some?
    ensures Build(rule, s, f2) == Build(rule, s, f1)
    decreases f1, 0
  {
    if s != [] {
      GrowFuelMonotone(rule, s, f1 - 1, f2 - 1);
    }
  }

  lemma {:induction false} GrowFuelMonotone(rule: Rule, s: seq<Triangle>, f1: nat, f2: nat)
    requires s != [] && f1 <= f2 && Grow(rule, s, f1).Some?
    ensures Grow(rule, s, f2) == Grow(rule, s, f1)
    decreases f1, 1
  {
    var parts := Lists(rule, s);
    BuildFuelMonotone(rule, parts.sMinus, f1, f2);
    BuildFuelMonotone(rule, parts.sPlus, f1, f2);
  }

  /** The tree's ordering invariant: every triangle of a node lies on the
      node's plane, every triangle of the left subtree lies in the closed
      negative half-space (value <= EPS) and every triangle of the right
      subtree in the closed positive half-space (value >= -EPS). */
  ghost predicate Partitioned(tree: BSP) {
    match tree
    case Nil => true
    case Node(pl, on, l, r) =>
      (forall t <- on :: TriangleSide(pl, t) == OnPlane) &&
      (forall t <- Stored(l) :: InHalfSpace(pl, EPS, t)) &&
      (forall t <- Stored(r) :: InHalfSpace(pl.Flip(), EPS, t)) &&
      Partitioned(l) && Partitioned(r)
  }

  /** The side invariant of the three lists: on-plane entries are OnPlane,
      minus entries lie in value <= EPS and plus entries in value >= -EPS. */
  ghost predicate Sided(pl: Plane, p: Parts) {
    (forall t <- p.sPlane :: TriangleSide(pl, t) == OnPlane) &&
    (forall t <- p.sMinus :: InHalfSpace(pl, EPS, t)) &&
    (forall t <- p.sPlus :: InHalfSpace(pl.Flip(), EPS, t))
  }

  /** A triangle with no vertex strictly above lies in value <= EPS. */
  lemma NotAboveInHalfSpace(pl: Plane, t: Tri)
    requires forall v <- t.vertices :: pl.Where(v) != Above
    ensures InHalfSpace(pl, EPS, t)
  {
  }

  /** A triangle with no vertex strictly below lies in value >= -EPS. */
  lemma NotBelowInHalfSpace(pl: Plane, t: Tri)
    requires forall v <- t.vertices :: pl.Where(v) != Below
    ensures InHalfSpace(pl.Flip(), EPS, t)
  {
  }

  /** The verdict bounds the sides of the vertices, under either rule: no
      vertex of a Negative triangle is above and no vertex of a Positive one
      is below, and an OnPlane triangle is OnPlane by the consistent rule. */
  lemma VerdictBoundsVertices(rule: Rule, pl: Plane, t: Triangle)
    ensures Verdict(rule, pl, t) == Negative ==> forall v <- t.vertices :: pl.Where(v) != Above
    ensures Verdict(rule, pl, t) == Positive ==> forall v <- t.vertices :: pl.Where(v) != Below
    ensures Verdict(rule, pl, t) == OnPlane ==> TriangleSide(pl, t) == OnPlane
  {
    TriangleSideCases(pl, t);
    TriangleSideAsWrittenCases(pl, t);
    assert forall v <- t.vertices :: exists i | 0 <= i < 3 :: t.vertices[i] == v;
  }

  /** One step of the loop keeps the side invariant. */
  lemma PlaceSided(rule: Rule, pl: Plane, t: Triangle, p: Parts)
    requires Sided(pl, p)
    ensures Sided(pl, Place(pl, t, Verdict(rule, pl, t), p))
  {
    var side := Verdict(rule, pl, t);
    VerdictBoundsVertices(rule, pl, t);
    match side
    case Positive => NotBelowInHalfSpace(pl, t);
    case Negative => NotAboveInHalfSpace(pl, t);
    case OnPlane =>
    case Intersects =>
      var (ps, ns) := Split(pl, t);
      SplitSides(pl, t);
      forall f <- ps ensures InHalfSpace(pl.Flip(), EPS, f) {
        NotBelowInHalfSpace(pl, f);
      }
      forall f <- ns ensures InHalfSpace(pl, EPS, f) {
        NotAboveInHalfSpace(pl, f);
      }
  }

  /** One step of the loop never leaves a half-space that holds the lists and
      the triangle placed. */
  lemma PlaceInHalfSpace(pl: Plane, t: Triangle, side: Side, p: Parts, q: Plane, c: real)
    requires InHalfSpace(q, c, t) && forall u <- p.All() :: InHalfSpace(q, c, u)
    ensures forall u <- Place(pl, t, side, p).All() :: InHalfSpace(q, c, u)
  {
    if side == Intersects {
      SplitInHalfSpace(pl, t, q, c);
    }
  }

  /** The loop never leaves a half-space that holds the lists and every
      triangle still to be placed. */
  lemma {:induction false} LoopInHalfSpace(rule: Rule, pl: Plane, todo: seq<Triangle>, parts: Parts,
                                           q: Plane, c: real)
    requires forall t <- todo :: InHalfSpace(q, c, t)
    requires forall t <- parts.All() :: InHalfSpace(q, c, t)
    ensures forall t <- Loop(rule, pl, todo, parts).All() :: InHalfSpace(q, c, t)
    decreases |todo|
  {
    if todo != [] {
      var t := todo[0];
      LoopStep(rule, pl, todo, parts);
      PlaceInHalfSpace(pl, t, Verdict(rule, pl, t), parts, q, c);
      LoopInHalfSpace(rule, pl, todo[1..], Place(pl, t, Verdict(rule, pl, t), parts), q, c);
    }
  }

  /** Building never leaves a half-space that holds every input triangle. */
  lemma {:induction false} BuildInHalfSpace(rule: Rule, s: seq<Triangle>, fuel: nat, q: Plane, c: real)
    requires forall t <- s :: InHalfSpace(q, c, t)
    requires Build(rule, s, fuel).Some?
    ensures forall t <- Stored(Build(rule, s, fuel).value) :: InHalfSpace(q, c, t)
    decreases fuel, 0
  {
    if s != [] {
      GrowInHalfSpace(rule, s, fuel - 1, q, c);
    }
  }

  lemma {:induction false} GrowInHalfSpace(rule: Rule, s: seq<Triangle>, fuel: nat, q: Plane, c: real)
    requires s != [] && forall t <- s :: InHalfSpace(q, c, t)
    requires Grow(rule, s, fuel).Some?
    ensures forall t <- Stored(Grow(rule, s, fuel).value) :: InHalfSpace(q, c, t)
    decreases fuel, 1
  {
    var parts := Lists(rule, s);
    assert Parts([], [], [s[0]]).All() == [s[0]];
    LoopInHalfSpace(rule, PlaneOf(s[0]), s[1..], Parts([], [], [s[0]]), q, c);
    BuildInHalfSpace(rule, parts.sMinus, fuel, q, c);
    BuildInHalfSpace(rule, parts.sPlus, fuel, q, c);
  }

  /** The loop keeps the side invariant of the three lists. */
  lemma {:induction false} LoopSided(rule: Rule, pl: Plane, todo: seq<Triangle>, parts: Parts)
    requires Sided(pl, parts)
    ensures Sided(pl, Loop(rule, pl, todo, parts))
    decreases |todo|
  {
    if todo != [] {
      var t := todo[0];
      LoopStep(rule, pl, todo, parts);
      PlaceSided(rule, pl, t, parts);
      LoopSided(rule, pl, todo[1..], Place(pl, t, Verdict(rule, pl, t), parts));
    }
  }

  /** A built tree satisfies the ordering invariant, under either rule. */
  lemma {:induction false} BuildPartitioned(rule: Rule, s: seq<Triangle>, fuel: nat)
    requires Build(rule, s, fuel).Some?
    ensures Partitioned(Build(rule, s, fuel).value)
    decreases fuel, 0
  {
    if s != [] {
      GrowPartitioned(rule, s, fuel - 1);
    }
  }

  lemma {:induction false} GrowPartitioned(rule: Rule, s: seq<Triangle>, fuel: nat)
    requires s != [] && Grow(rule, s, fuel).Some?
    ensures Partitioned(Grow(rule, s, fuel).value)
    decreases fuel, 1
  {
    var pl := PlaneOf(s[0]);
    var parts := Lists(rule, s);
    PivotOnItsPlane(s[0]);
    LoopSided(rule, pl, s[1..], Parts([], [], [s[0]]));
    BuildPartitioned(rule, parts.sMinus, fuel);
    BuildPartitioned(rule, parts.sPlus, fuel);
    BuildInHalfSpace(rule, parts.sMinus, fuel, pl, EPS);
    BuildInHalfSpace(rule, parts.sPlus, fuel, pl.Flip(), EPS);
  }

  /** With the consistent verdict no triangle is lost: every id of the input
      is stored in the built tree (the converse of the id bound of Build). */
  lemma BuildKeepsEveryId(s: seq<Triangle>, fuel: nat, t: Triangle)
    requires t in s && Build(Consistent, s, fuel).Some?
    ensures exists u <- Stored(Build(Consistent, s, fuel).value) :: u.id == t.id
  {
    BuildIds(Consistent, s, fuel);
    assert t.id in Ids(s);
  }

  /** A one-triangle list builds a single leaf on that triangle's plane. */
  lemma SingleLeaf(rule: Rule, t: Triangle)
    ensures Build(rule, [t], 1) == Some(Node(PlaneOf(t), [t], Nil, Nil))
  {
    assert [t][1..] == [];
    assert Lists(rule, [t]) == Parts([], [], [t]);
    BuildStep(rule, [t], 1, Parts([], [], [t]), Build(rule, [], 0), Build(rule, [], 0));
  }

  /** `criaBSP` on [pivot, t] with t judged Negative against the pivot's
      plane: the pivot alone at the root and t alone in the left (minus)
      subtree. */
  lemma TwoBelow(rule: Rule, pivo: Triangle, t: Triangle)
    requires Verdict(rule, PlaneOf(pivo), t) == Negative
    ensures Build(rule, [pivo, t], 2) == Some(Node(PlaneOf(pivo), [pivo], Node(PlaneOf(t), [t], Nil, Nil), Nil))
  {
    var pl := PlaneOf(pivo);
    assert [pivo, t][1..] == [t] && [t][1..] == [];
    LoopStep(rule, pl, [t], Parts([], [], [pivo]));
    assert Place(pl, t, Negative, Parts([], [], [pivo])) == Parts([], [t], [pivo]);
    assert Lists(rule, [pivo, t]) == Parts([], [t], [pivo]);
    BuildStep(rule, [pivo, t], 2, Parts([], [t], [pivo]), Build(rule, [t], 1), Build(rule, [], 1));
    SingleLeaf(rule, t);
    assert Build(rule, [], 1) == Some(Nil);
  }

  /** `criaBSP` on [pivot, t] with t judged Intersects although splitting it
      yields no fragment: the tree holds the pivot alone. */
  lemma TwoDropped(rule: Rule, pivo: Triangle, t: Triangle)
    requires Verdict(rule, PlaneOf(pivo), t) == Intersects && Split(PlaneOf(pivo), t) == ([], [])
    ensures Build(rule, [pivo, t], 1) == Some(Node(PlaneOf(pivo), [pivo], Nil, Nil))
  {
    var pl := PlaneOf(pivo);
    assert [pivo, t][1..] == [t] && [t][1..] == [];
    LoopStep(rule, pl, [t], Parts([], [], [pivo]));
    assert Place(pl, t, Intersects, Parts([], [], [pivo])) == Parts([], [], [pivo]);
    assert Lists(rule, [pivo, t]) == Parts([], [], [pivo]);
    BuildStep(rule, [pivo, t], 1, Parts([], [], [pivo]), Build(rule, [], 0), Build(rule, [], 0));
    assert Build(rule, [], 0) == Some(Nil);
  }
}
