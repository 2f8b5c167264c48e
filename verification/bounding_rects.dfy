/** The viewer's bounding rectangle (`bounding_rect.cpp`): an axis-aligned
    rectangle grown point by point, and the approximate extent of a map taken
    over the reference lines' geometry start vertices and end vertices. The
    vertex positions themselves come from the trigonometric geometry
    evaluation, which is not part of this model: each road contributes its
    points as an input. */
module BoundingRects {

  /** `DBL_MAX`, the largest finite double. */
  const DBL_MAX: real := 1.7976931348623157e308

  datatype Point = Point(x: real, y: real)

  /** A point whose coordinates are finite doubles (NaN and infinities are not modelled). */
  predicate Finite(p: Point) {
    -DBL_MAX <= p.x <= DBL_MAX && -DBL_MAX <= p.y <= DBL_MAX
  }

  /** `BoundingRect`: the corners `min_` and `max_`. */
  datatype Rect = Rect(lo: Point, hi: Point)

  /** The rectangle `xodrMapApproxBoundingRect` starts from: `min_` at +DBL_MAX and
      `max_` at -DBL_MAX, so that it contains no point. */
  const EMPTY: Rect := Rect(Point(DBL_MAX, DBL_MAX), Point(-DBL_MAX, -DBL_MAX))

  predicate Contains(r: Rect, p: Point) {
    r.lo.x <= p.x <= r.hi.x && r.lo.y <= p.y <= r.hi.y
  }

  /** One rectangle lies inside another (every point of the first is in the second). */
  predicate Within(r: Rect, q: Rect) {
    q.lo.x <= r.lo.x && q.lo.y <= r.lo.y && r.hi.x <= q.hi.x && r.hi.y <= q.hi.y
  }

  /** `BoundingRect::expand`: each coordinate of `min_` is lowered to the point's
      when the point's is smaller, and each coordinate of `max_` raised when larger. */
  function Expand(r: Rect, p: Point): (e: Rect)
    ensures Contains(e, p)
    ensures Within(r, e)
  {
    Rect(Point(if p.x < r.lo.x then p.x else r.lo.x, if p.y < r.lo.y then p.y else r.lo.y),
         Point(if p.x > r.hi.x then p.x else r.hi.x, if p.y > r.hi.y then p.y else r.hi.y))
  }

  lemma EmptyContainsNothing(p: Point)
    requires Finite(p)
    ensures !Contains(EMPTY, p)
  {
  }

  /** Expanding only widens: a point inside stays inside. */
  lemma ExpandKeepsContained(r: Rect, p: Point, q: Point)
    requires Contains(r, q)
    ensures Contains(Expand(r, p), q)
  {
  }

  /** Expanding is minimal: any rectangle holding the old one and the point
      holds the expanded one. */
  lemma ExpandMinimal(r: Rect, p: Point, q: Rect)
    requires Within(r, q) && Contains(q, p)
    ensures Within(Expand(r, p), q)
  {
  }

  /** Expanding by a point already inside changes nothing. */
  lemma ExpandInsideNoop(r: Rect, p: Point)
    requires Contains(r, p)
    ensures Expand(r, p) == r
  {
  }

  /** Expanding by every point in turn. */
  function ExpandAll(r: Rect, pts: seq<Point>): (e: Rect)
    ensures Within(r, e)
    ensures forall i :: 0 <= i < |pts| ==> Contains(e, pts[i])
    decreases |pts|
  {
    if pts == [] then r
    else
      var e := ExpandAll(Expand(r, pts[0]), pts[1..]);
      assert forall i :: 1 <= i < |pts| ==> pts[i] == pts[1..][i - 1];
      e
  }

  /** The points a road contributes: its geometries' start vertices and its
      reference line's end vertex. */
  datatype RoadOutline = RoadOutline(geometryStarts: seq<Point>, end: Point)

  /** The points in the order `xodrMapApproxBoundingRect` visits them. */
  function MapPoints(roads: seq<RoadOutline>): (pts: seq<Point>)
    ensures |roads| > 0 ==> |pts| > 0
  {
    if roads == [] then []
    else MapPoints(roads[..|roads| - 1]) + roads[|roads| - 1].geometryStarts + [roads[|roads| - 1].end]
  }

  /** Every start and end vertex of every road is among the visited points. */
  lemma {:induction false} MapPointsHasVertices(roads: seq<RoadOutline>, i: nat)
    requires i < |roads|
    ensures roads[i].end in MapPoints(roads)
    ensures forall g :: 0 <= g < |roads[i].geometryStarts| ==> roads[i].geometryStarts[g] in MapPoints(roads)
    decreases |roads|
  {
    var last := |roads| - 1;
    var pts := MapPoints(roads);
    assert pts == MapPoints(roads[..last]) + roads[last].geometryStarts + [roads[last].end];
    if i < last {
      MapPointsHasVertices(roads[..last], i);
      assert roads[..last][i] == roads[i];
    } else {
      assert pts[|pts| - 1] == roads[i].end;
      var base := |MapPoints(roads[..last])|;
      forall g | 0 <= g < |roads[i].geometryStarts|
        ensures roads[i].geometryStarts[g] in pts
      {
        assert pts[base + g] == roads[i].geometryStarts[g];
      }
    }
  }

  /** Only the start and end vertices of the roads are visited. */
  lemma {:induction false} MapPointsOnlyVertices(roads: seq<RoadOutline>, p: Point)
    requires p in MapPoints(roads)
    ensures exists i :: 0 <= i < |roads| && (p == roads[i].end || p in roads[i].geometryStarts)
    decreases |roads|
  {
    var last := |roads| - 1;
    if p in MapPoints(roads[..last]) {
      MapPointsOnlyVertices(roads[..last], p);
      var i :| 0 <= i < last && (p == roads[..last][i].end || p in roads[..last][i].geometryStarts);
      assert roads[..last][i] == roads[i];
    } else {
      assert p == roads[last].end || p in roads[last].geometryStarts;
    }
  }

  /** `xodrMapApproxBoundingRect`. */
  function ApproxBoundingRect(roads: seq<RoadOutline>): (r: Rect)
    ensures forall p :: p in MapPoints(roads) ==> Contains(r, p)
  {
    ExpandAll(EMPTY, MapPoints(roads))
  }

  /** The result contains every geometry start vertex and every end vertex. */
  lemma ApproxContainsVertices(roads: seq<RoadOutline>, i: nat)
    requires i < |roads|
    ensures Contains(ApproxBoundingRect(roads), roads[i].end)
    ensures forall g :: 0 <= g < |roads[i].geometryStarts| ==>
              Contains(ApproxBoundingRect(roads), roads[i].geometryStarts[g])
  {
    MapPointsHasVertices(roads, i);
  }

  /** The rectangle's corners are the extremes of the points: each corner
      coordinate is attained by some point, or is the empty rectangle's when
      there are none. */
  predicate Attained(r: Rect, start: Rect, pts: seq<Point>) {
    (r.lo.x == start.lo.x || exists i :: 0 <= i < |pts| && r.lo.x == pts[i].x) &&
    (r.lo.y == start.lo.y || exists i :: 0 <= i < |pts| && r.lo.y == pts[i].y) &&
    (r.hi.x == start.hi.x || exists i :: 0 <= i < |pts| && r.hi.x == pts[i].x) &&
    (r.hi.y == start.hi.y || exists i :: 0 <= i < |pts| && r.hi.y == pts[i].y)
  }

  lemma {:induction false} ExpandAllAttained(r: Rect, pts: seq<Point>)
    ensures Attained(ExpandAll(r, pts), r, pts)
    decreases |pts|
  {
    if pts != [] {
      var r1 := Expand(r, pts[0]);
      ExpandAllAttained(r1, pts[1..]);
      var e := ExpandAll(r, pts);
      assert e == ExpandAll(r1, pts[1..]);
      assert forall i :: 0 <= i < |pts| - 1 ==> pts[1..][i] == pts[i + 1];
      if e.lo.x != r.lo.x && e.lo.x == r1.lo.x { assert e.lo.x == pts[0].x; }
      if e.lo.y != r.lo.y && e.lo.y == r1.lo.y { assert e.lo.y == pts[0].y; }
      if e.hi.x != r.hi.x && e.hi.x == r1.hi.x { assert e.hi.x == pts[0].x; }
      if e.hi.y != r.hi.y && e.hi.y == r1.hi.y { assert e.hi.y == pts[0].y; }
    }
  }

  /** The tightest rectangle around a set of finite points, or the empty
      rectangle when there are none. */
  predicate IsHull(r: Rect, pts: set<Point>)
  {
    (forall p :: p in pts ==> Contains(r, p)) &&
    (pts == {} ==> r == EMPTY) &&
    (pts != {} ==>
      (exists p :: p in pts && r.lo.x == p.x) && (exists p :: p in pts && r.lo.y == p.y) &&
      (exists p :: p in pts && r.hi.x == p.x) && (exists p :: p in pts && r.hi.y == p.y))
  }

  /** The approximate bounding rectangle is the componentwise minimum and
      maximum of the visited points. */
  lemma ApproxIsHull(roads: seq<RoadOutline>)
    requires forall p :: p in MapPoints(roads) ==> Finite(p)
    ensures IsHull(ApproxBoundingRect(roads), set p | p in MapPoints(roads))
  {
    var pts := MapPoints(roads);
    var r := ApproxBoundingRect(roads);
    ExpandAllAttained(EMPTY, pts);
    if pts != [] {
      assert pts[0] in pts;
      assert Contains(r, pts[0]) && Finite(pts[0]);
      // A corner left at the empty rectangle's value is attained by a point at +-DBL_MAX.
      var i: nat := 0;
      if r.lo.x != EMPTY.lo.x { i :| i < |pts| && r.lo.x == pts[i].x; }
      var j: nat := 0;
      if r.lo.y != EMPTY.lo.y { j :| j < |pts| && r.lo.y == pts[j].y; }
      var k: nat := 0;
      if r.hi.x != EMPTY.hi.x { k :| k < |pts| && r.hi.x == pts[k].x; }
      var l: nat := 0;
      if r.hi.y != EMPTY.hi.y { l :| l < |pts| && r.hi.y == pts[l].y; }
      assert r.lo.x == pts[i].x && r.lo.y == pts[j].y && r.hi.x == pts[k].x && r.hi.y == pts[l].y;
      var ps := set p | p in pts;
      assert pts[i] in ps && pts[j] in ps && pts[k] in ps && pts[l] in ps;
    }
  }

  /** The hull of a set is unique. */
  lemma HullUnique(r1: Rect, r2: Rect, pts: set<Point>)
    requires IsHull(r1, pts) && IsHull(r2, pts)
    ensures r1 == r2
  {
    if pts != {} {
      var a :| a in pts && r1.lo.x == a.x;
      var b :| b in pts && r2.lo.x == b.x;
      assert Contains(r1, b) && Contains(r2, a);
      var c :| c in pts && r1.lo.y == c.y;
      var d :| d in pts && r2.lo.y == d.y;
      assert Contains(r1, d) && Contains(r2, c);
      var e :| e in pts && r1.hi.x == e.x;
      var f :| f in pts && r2.hi.x == f.x;
      assert Contains(r1, f) && Contains(r2, e);
      var g :| g in pts && r1.hi.y == g.y;
      var h :| h in pts && r2.hi.y == h.y;
      assert Contains(r1, h) && Contains(r2, g);
    }
  }

  /** The result does not depend on the order of the roads, nor on the order
      in which a road lists its geometries: only the set of visited points matters. */
  lemma ApproxOrderIndependent(roads1: seq<RoadOutline>, roads2: seq<RoadOutline>)
    requires forall p :: p in MapPoints(roads1) ==> Finite(p)
    requires (set p | p in MapPoints(roads1)) == (set p | p in MapPoints(roads2))
    ensures ApproxBoundingRect(roads1) == ApproxBoundingRect(roads2)
  {
    var s := set p | p in MapPoints(roads1);
    assert forall p :: p in MapPoints(roads2) ==> p in s;
    ApproxIsHull(roads1);
    ApproxIsHull(roads2);
    HullUnique(ApproxBoundingRect(roads1), ApproxBoundingRect(roads2), s);
  }
}
