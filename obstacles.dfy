/** Collision geometry of polygonal obstacles (obstacles.py): half-open ranges,
    segments with exact case-split intersection, obstacles with a bounding box
    and even-odd ray casting, and the field of obstacles a planner queries.
    All coordinates are exact reals. */
module Geometry {
  import opened Common

  /** `Range`: the half-open interval [min, max). */
  datatype Range = Range(min: real, max: real) {
    /** `val in range`. */
    predicate Contains(v: real)
    {
      min <= v < max
    }
  }

  function MinOf(vals: seq<real>): (m: real)
    requires |vals| > 0
    ensures m in vals
    ensures forall v :: v in vals ==> m <= v
  {
    if |vals| == 1 then vals[0]
    else
      var rest := MinOf(vals[1..]);
      assert forall v :: v in vals ==> v == vals[0] || v in vals[1..];
      if vals[0] <= rest then vals[0] else rest
  }

  function MaxOf(vals: seq<real>): (m: real)
    requires |vals| > 0
    ensures m in vals
    ensures forall v :: v in vals ==> v <= m
  {
    if |vals| == 1 then vals[0]
    else
      var rest := MaxOf(vals[1..]);
      assert forall v :: v in vals ==> v == vals[0] || v in vals[1..];
      if vals[0] >= rest then vals[0] else rest
  }

  /** `Range(vals)`: from the smallest to the largest of a non-empty list. */
  function RangeOf(vals: seq<real>): (r: Range)
    requires |vals| > 0
    ensures r.min in vals && r.max in vals
    ensures forall v :: v in vals ==> r.min <= v <= r.max
  {
    Range(MinOf(vals), MaxOf(vals))
  }

  /** A list that holds `lo` and `hi` and lies between them has range [lo, hi). */
  lemma RangeOfBounds(vals: seq<real>, lo: real, hi: real)
    requires lo in vals && hi in vals
    requires forall v :: v in vals ==> lo <= v <= hi
    ensures RangeOf(vals) == Range(lo, hi)
  {
  }

  /** `Range([a, b])`, the range a segment spans on one axis. Built from two
      equal values it contains nothing. */
  function Span(a: real, b: real): (r: Range)
    ensures r.min <= r.max
    ensures (r.min == a && r.max == b) || (r.min == b && r.max == a)
    ensures a == b ==> forall v :: !r.Contains(v)
  {
    if a <= b then Range(a, b) else Range(b, a)
  }

  datatype Point = Point(x: real, y: real)

  /** A segment from `start` to `end`. The flags, slope, intercept and ranges
      that the source computes in its constructor are derived members here;
      the slope exists only when the segment is not vertical. */
  datatype Line = Line(start: Point, end: Point) {

    /** `y_bar`: the segment is vertical (parallel to the y axis). */
    predicate YBar()
    {
      start.x == end.x
    }

    /** `x_bar`: the segment is horizontal (parallel to the x axis). */
    predicate XBar()
    {
      start.y == end.y
    }

    /** `_slope`. It is zero exactly for horizontal segments, so dividing by
        the slope of a segment that is neither horizontal nor vertical is safe. */
    function Slope(): (m: real)
      requires !YBar()
      ensures m * (end.x - start.x) == end.y - start.y
      ensures m == 0.0 <==> XBar()
    {
      (end.y - start.y) / (end.x - start.x)
    }

    function Intercept(): real
      requires !YBar()
    {
      end.y - Slope() * end.x
    }

    function XRange(): Range
    {
      Span(start.x, end.x)
    }

    function YRange(): Range
    {
      Span(start.y, end.y)
    }

    /** `intersects`: exact intersection test, split on the horizontal and
        vertical flags of both segments so that every division is by a
        non-zero value. Parallel segments never intersect, even when they
        overlap. */
    predicate Intersects(other: Line)
    {
      if XBar() then
        if other.XBar() then false
        else if other.YBar() then other.YRange().Contains(end.y) && XRange().Contains(other.end.x)
        else
          var xp := other.XAt(end.y);
          XRange().Contains(xp) && other.XRange().Contains(xp) && other.YRange().Contains(end.y)
      else if YBar() then
        if other.XBar() then YRange().Contains(other.end.y) && other.XRange().Contains(end.x)
        else if other.YBar() then false
        else
          var yp := other.YAt(end.x);
          YRange().Contains(yp) && other.YRange().Contains(yp) && other.XRange().Contains(end.x)
      else if other.XBar() then
        var xp := XAt(other.end.y);
        other.XRange().Contains(xp) && XRange().Contains(xp) && YRange().Contains(other.end.y)
      else if other.YBar() then
        var yp := YAt(other.end.x);
        other.YRange().Contains(yp) && XRange().Contains(other.end.x) && YRange().Contains(yp)
      else if Slope() == other.Slope() then false
      else
        var xp := CrossingX(other);
        var yp := YAt(xp);
        XRange().Contains(xp) && other.XRange().Contains(xp) &&
        YRange().Contains(yp) && other.YRange().Contains(yp)
    }

    /** `slope * x + intercept`: the height of the line at `x`. */
    function YAt(x: real): real
      requires !YBar()
    {
      Slope() * x + Intercept()
    }

    /** `(y - intercept) / slope`: where the line reaches height `y`; the
        slope is non-zero because the segment is not horizontal. */
    function XAt(y: real): (x: real)
      requires !YBar() && !XBar()
      ensures YAt(x) == y
    {
      (y - Intercept()) / Slope()
    }

    /** `(other.intercept - intercept) / (slope - other.slope)`: the x at
        which two lines of different slopes meet. */
    function CrossingX(other: Line): (x: real)
      requires !YBar() && !other.YBar() && Slope() != other.Slope()
      ensures YAt(x) == other.YAt(x)
    {
      var x := (other.Intercept() - Intercept()) / (Slope() - other.Slope());
      assert x * (Slope() - other.Slope()) == other.Intercept() - Intercept();
      x
    }

    /** `point_on_line`: an exact test with a half-open range check for
        horizontal and vertical segments; for any other segment only the
        distance to the infinite line, `|y - slope*x - intercept| < 0.001`. */
    predicate PointOnLine(p: Point)
    {
      if XBar() then p.y == end.y && XRange().Contains(p.x)
      else if YBar() then p.x == end.x && YRange().Contains(p.y)
      else Abs(p.y - Slope() * p.x - Intercept()) < 0.001
    }
  }

  /** `p` lies on the infinite line through the segment (zero cross product). */
  predicate OnLine(l: Line, p: Point)
  {
    (l.end.x - l.start.x) * (p.y - l.start.y) == (l.end.y - l.start.y) * (p.x - l.start.x)
  }

  /** `p` lies in the closed bounding box of the segment. */
  predicate InBox(l: Line, p: Point)
  {
    l.XRange().min <= p.x <= l.XRange().max && l.YRange().min <= p.y <= l.YRange().max
  }

  /** `p` lies on the closed segment. */
  predicate OnSegment(l: Line, p: Point)
  {
    OnLine(l, p) && InBox(l, p)
  }

  /** On a non-vertical segment, the line through it is `y = slope*x + intercept`. */
  lemma OnLineIffSlopeForm(l: Line, p: Point)
    requires !l.YBar()
    ensures OnLine(l, p) <==> p.y == l.YAt(p.x)
  {
    var dx, dy, m := l.end.x - l.start.x, l.end.y - l.start.y, l.Slope();
    assert m * dx == dy;
    assert l.Intercept() == l.start.y - m * l.start.x by {
      assert l.end.y == l.start.y + dy;
      assert m * l.end.x == m * l.start.x + m * dx;
    }
    assert dx * (p.y - l.start.y) - dy * (p.x - l.start.x)
        == dx * (p.y - (m * p.x + l.Intercept()));
    MulZeroIff(dx, p.y - (m * p.x + l.Intercept()));
  }

  lemma MulZeroIff(x: real, y: real)
    requires x != 0.0
    ensures x * y == 0.0 <==> y == 0.0
  {
  }

  /** Parallel segments never intersect: two horizontal ones, two vertical
      ones, and two slanted ones with equal slopes, overlapping or not. */
  lemma ParallelNeverIntersect(a: Line, b: Line)
    ensures a.XBar() && b.XBar() ==> !a.Intersects(b)
    ensures a.YBar() && b.YBar() ==> !a.Intersects(b)
    ensures !a.XBar() && !a.YBar() && !b.XBar() && !b.YBar() && a.Slope() == b.Slope() ==> !a.Intersects(b)
  {
  }

  /** `a.intersects(b) == b.intersects(a)` in every pairing of the branches:
      over exact reals both orders compute the same crossing point. */
  lemma IntersectsSymmetric(a: Line, b: Line)
    ensures a.Intersects(b) == b.Intersects(a)
  {
    if a.XBar() || a.YBar() || b.XBar() || b.YBar() {
      AxisCasesSymmetric(a, b);
    } else if a.Slope() != b.Slope() {
      SlantedCrossingSymmetric(a, b);
    }
  }

  lemma AxisCasesSymmetric(a: Line, b: Line)
    requires a.XBar() || a.YBar() || b.XBar() || b.YBar()
    ensures a.Intersects(b) == b.Intersects(a)
  {
  }

  /** Both orders of the slanted/slanted case solve the same linear system. */
  lemma SlantedCrossingSymmetric(a: Line, b: Line)
    requires !a.XBar() && !a.YBar() && !b.XBar() && !b.YBar() && a.Slope() != b.Slope()
    ensures a.Intersects(b) == b.Intersects(a)
  {
    var x1, x2 := a.CrossingX(b), b.CrossingX(a);
    UniqueCrossing(a.Slope(), b.Slope(), a.Intercept(), b.Intercept(), x1, x2);
  }

  /** Two lines of different slopes meet at one x only. */
  lemma UniqueCrossing(ma: real, mb: real, ia: real, ib: real, x1: real, x2: real)
    requires ma != mb
    requires ma * x1 + ia == mb * x1 + ib
    requires ma * x2 + ia == mb * x2 + ib
    ensures x1 == x2
  {
    assert (ma - mb) * (x1 - x2) == 0.0;
    MulZeroIff(ma - mb, x1 - x2);
  }

  /** The point at which `a.Intersects(b)` finds the two segments crossing,
      as each branch of the test computes it. It lies on both closed
      segments; in the slanted/slanted case it also lies in both segments'
      half-open x and y ranges. */
  function IntersectionPoint(a: Line, b: Line): (w: Point)
    requires a.Intersects(b)
    ensures OnSegment(a, w) && OnSegment(b, w)
    ensures !a.XBar() && !a.YBar() && !b.XBar() && !b.YBar() ==>
      a.XRange().Contains(w.x) && b.XRange().Contains(w.x) &&
      a.YRange().Contains(w.y) && b.YRange().Contains(w.y)
  {
    if a.XBar() || a.YBar() || b.XBar() || b.YBar() then AxisIntersectionPoint(a, b)
    else
      var xp := a.CrossingX(b);
      var w := Point(xp, a.YAt(xp));
      OnLineIffSlopeForm(a, w);
      OnLineIffSlopeForm(b, w);
      w
  }

  /** The intersection point when at least one segment is horizontal or vertical. */
  function AxisIntersectionPoint(a: Line, b: Line): (w: Point)
    requires a.Intersects(b)
    requires a.XBar() || a.YBar() || b.XBar() || b.YBar()
    ensures OnSegment(a, w) && OnSegment(b, w)
  {
    if a.XBar() || a.YBar() then
      if b.XBar() || b.YBar() then
        if a.XBar() then Point(b.end.x, a.end.y) else Point(a.end.x, b.end.y)
      else SlantedAxisPoint(b, a)
    else
      IntersectsSymmetric(a, b);
      SlantedAxisPoint(a, b)
  }

  /** The crossing of a slanted segment `s` with a horizontal or vertical one. */
  function SlantedAxisPoint(s: Line, h: Line): (w: Point)
    requires !s.XBar() && !s.YBar() && (h.XBar() || h.YBar())
    requires h.Intersects(s)
    ensures OnSegment(s, w) && OnSegment(h, w)
  {
    var w := if h.XBar() then Point(s.XAt(h.end.y), h.end.y) else Point(h.end.x, s.YAt(h.end.x));
    AxisSlantedOnBoth(s, h, w);
    w
  }

  /** The crossing of a slanted segment `s` with a horizontal or vertical
      segment `h`, when the branch's range checks have passed. */
  lemma AxisSlantedOnBoth(s: Line, h: Line, w: Point)
    requires !s.XBar() && !s.YBar() && (h.XBar() || h.YBar())
    requires w.y == s.YAt(w.x)
    requires h.XBar() ==> w.y == h.end.y
    requires h.YBar() ==> w.x == h.end.x
    requires InBox(s, w) && InBox(h, w)
    ensures OnSegment(s, w) && OnSegment(h, w)
  {
    OnLineIffSlopeForm(s, w);
  }

  /** Intersection is sound: a reported intersection is a common point of the
      two closed segments. */
  lemma IntersectsSound(a: Line, b: Line)
    requires a.Intersects(b)
    ensures exists w :: OnSegment(a, w) && OnSegment(b, w)
  {
    var w := IntersectionPoint(a, b);
  }

  /** On a horizontal or vertical segment `point_on_line` is an exact match:
      the point is on the closed segment and is not its upper endpoint (the
      range is half-open). */
  lemma PointOnAxisSegment(l: Line, p: Point)
    requires l.XBar() != l.YBar()
    ensures l.XBar() ==> (l.PointOnLine(p) <==> OnSegment(l, p) && p.x != l.XRange().max)
    ensures l.YBar() ==> (l.PointOnLine(p) <==> OnSegment(l, p) && p.y != l.YRange().max)
  {
    var dx, dy := l.end.x - l.start.x, l.end.y - l.start.y;
    if l.XBar() {
      MulZeroIff(dx, p.y - l.start.y);
    } else {
      MulZeroIff(dy, p.x - l.start.x);
    }
  }

  /** On a slanted segment `point_on_line` accepts every point of the infinite
      line through it, inside the segment's box or not. */
  lemma PointOnSlantedLine(l: Line, p: Point)
    requires !l.XBar() && !l.YBar()
    requires OnLine(l, p)
    ensures l.PointOnLine(p)
  {
    OnLineIffSlopeForm(l, p);
  }

  /** An obstacle: the ranges of its vertices' x and y coordinates and the
      segments joining consecutive vertices. */
  datatype Obstacle = Obstacle(x: Range, y: Range, lines: seq<Line>) {

    /** The closed bounding box test of `point_in_obstacle`. */
    predicate InBounds(p: Point)
    {
      x.min <= p.x <= x.max && y.min <= p.y <= y.max
    }

    /** The box rejection of `check_collisions`: the segment's box lies
        strictly outside the obstacle's box on one axis. */
    predicate BoxMisses(line: Line)
    {
      line.XRange().max < x.min || line.XRange().min > x.max ||
      line.YRange().max < y.min || line.YRange().min > y.max
    }

    /** What `check_collisions` decides for a segment. */
    predicate Collides(line: Line)
    {
      !BoxMisses(line) && exists i :: 0 <= i < |lines| && lines[i].Intersects(line)
    }

    /** The horizontal segment cast from `pt` to 5 units beyond the box. */
    function Projection(pt: Point): Line
    {
      Line(pt, Point(x.max + 5.0, pt.y))
    }

    /** What `point_in_obstacle` decides: inside the closed box, and either on
        some edge or crossing the edges an odd number of times. */
    predicate Contains(pt: Point)
    {
      InBounds(pt) &&
      ((exists i :: 0 <= i < |lines| && lines[i].PointOnLine(pt)) ||
       Crossings(lines, Projection(pt)) % 2 == 1)
    }

    /** `check_collisions`: box rejection, then the first edge that meets the
        segment decides. */
    method CheckCollisions(line: Line) returns (hit: bool)
      ensures BoxMisses(line) ==> !hit
      ensures hit <==> !BoxMisses(line) && exists i :: 0 <= i < |lines| && lines[i].Intersects(line)
      ensures hit == Collides(line)
    {
      if BoxMisses(line) {
        return false;
      }
      for i := 0 to |lines|
        invariant forall j :: 0 <= j < i ==> !lines[j].Intersects(line)
      {
        if lines[i].Intersects(line) {
          return true;
        }
      }
      return false;
    }

    /** `point_in_obstacle`: box rejection, then one pass over the edges that
        stops at the first edge the point lies on and otherwise counts the
        edges crossing the projection. */
    method PointInObstacle(pt: Point) returns (inside: bool)
      ensures !InBounds(pt) ==> !inside
      ensures InBounds(pt) && (exists i :: 0 <= i < |lines| && lines[i].PointOnLine(pt)) ==> inside
      ensures inside == Contains(pt)
    {
      if !InBounds(pt) {
        return false;
      }
      var projection := Projection(pt);
      var numCross := 0;
      for i := 0 to |lines|
        invariant forall j :: 0 <= j < i ==> !lines[j].PointOnLine(pt)
        invariant numCross == Crossings(lines[..i], projection)
      {
        if lines[i].PointOnLine(pt) {
          return true;
        }
        assert lines[..i + 1][..i] == lines[..i];
        numCross := numCross + if lines[i].Intersects(projection) then 1 else 0;
      }
      assert lines[..|lines|] == lines;
      return numCross % 2 == 1;
    }
  }

  /** How many of `lines` intersect `ray`. */
  function Crossings(lines: seq<Line>, ray: Line): (n: nat)
    ensures n <= |lines|
  {
    if |lines| == 0 then 0
    else Crossings(lines[..|lines| - 1], ray) + if lines[|lines| - 1].Intersects(ray) then 1 else 0
  }

  /** Every edge endpoint of the obstacle lies in its closed bounding box. */
  predicate WellFormed(o: Obstacle)
  {
    forall i :: 0 <= i < |o.lines| ==> o.InBounds(o.lines[i].start) && o.InBounds(o.lines[i].end)
  }

  /** `Obstacle(vertices)`: the ranges of the vertex coordinates and one
      segment per pair of consecutive vertices (the ring is closed by its
      caller repeating the first vertex). An empty vertex list has no range:
      the source fails there, and the model answers `None`. */
  function NewObstacle(vertices: seq<Point>): (r: Option<Obstacle>)
    ensures r.None? <==> |vertices| == 0
    ensures r.Some? ==> |r.value.lines| == |vertices| - 1
    ensures r.Some? ==> forall i :: 0 <= i < |vertices| - 1 ==> r.value.lines[i] == Line(vertices[i], vertices[i + 1])
    ensures r.Some? ==> forall v :: v in vertices ==> r.value.InBounds(v)
    ensures r.Some? ==> r.value.x.min in Xs(vertices) && r.value.x.max in Xs(vertices)
    ensures r.Some? ==> r.value.y.min in Ys(vertices) && r.value.y.max in Ys(vertices)
    ensures r.Some? ==> WellFormed(r.value)
  {
    if |vertices| == 0 then None
    else
      var o := Obstacle(RangeOf(Xs(vertices)), RangeOf(Ys(vertices)), Edges(vertices));
      assert forall v :: v in vertices ==> o.InBounds(v) by {
        forall v | v in vertices ensures o.InBounds(v) {
          var i :| 0 <= i < |vertices| && vertices[i] == v;
          assert Xs(vertices)[i] in Xs(vertices) && Ys(vertices)[i] in Ys(vertices);
        }
      }
      assert WellFormed(o) by {
        forall i | 0 <= i < |o.lines| ensures o.InBounds(o.lines[i].start) && o.InBounds(o.lines[i].end) {
          assert vertices[i] in vertices && vertices[i + 1] in vertices;
        }
      }
      Some(o)
  }

  function Xs(vertices: seq<Point>): (xs: seq<real>)
    ensures |xs| == |vertices| && forall i :: 0 <= i < |vertices| ==> xs[i] == vertices[i].x
  {
    seq(|vertices|, i requires 0 <= i < |vertices| => vertices[i].x)
  }

  function Ys(vertices: seq<Point>): (ys: seq<real>)
    ensures |ys| == |vertices| && forall i :: 0 <= i < |vertices| ==> ys[i] == vertices[i].y
  {
    seq(|vertices|, i requires 0 <= i < |vertices| => vertices[i].y)
  }

  /** The segments joining consecutive vertices. */
  function Edges(vertices: seq<Point>): (lines: seq<Line>)
    ensures |vertices| == 0 ==> lines == []
    ensures |vertices| > 0 ==> |lines| == |vertices| - 1
    ensures forall i :: 0 <= i < |vertices| - 1 ==> lines[i] == Line(vertices[i], vertices[i + 1])
  {
    if |vertices| == 0 then []
    else seq(|vertices| - 1, i requires 0 <= i < |vertices| - 1 => Line(vertices[i], vertices[i + 1]))
  }

  /** The box rejection of `check_collisions` never changes its answer on a
      well-formed obstacle: a segment that meets an edge meets the obstacle's
      closed box, so the test is exactly "some edge intersects the segment". */
  lemma BoxRejectIsSound(o: Obstacle, line: Line)
    requires WellFormed(o)
    ensures o.Collides(line) <==> exists i :: 0 <= i < |o.lines| && o.lines[i].Intersects(line)
  {
    if i :| 0 <= i < |o.lines| && o.lines[i].Intersects(line) {
      var w := IntersectionPoint(o.lines[i], line);
      assert o.InBounds(o.lines[i].start) && o.InBounds(o.lines[i].end);
    }
  }

  /** A closed axis-aligned rectangle, as the planner's input gives it. */
  function Rectangle(x0: real, x1: real, y0: real, y1: real): seq<Point>
  {
    [Point(x0, y0), Point(x1, y0), Point(x1, y1), Point(x0, y1), Point(x0, y0)]
  }

  lemma CrossingsOfFour(a: Line, b: Line, c: Line, d: Line, ray: Line)
    ensures Crossings([a, b, c, d], ray) ==
      (if a.Intersects(ray) then 1 else 0) + (if b.Intersects(ray) then 1 else 0) +
      (if c.Intersects(ray) then 1 else 0) + (if d.Intersects(ray) then 1 else 0)
  {
    assert [a, b, c, d][..3] == [a, b, c];
    assert [a, b, c][..2] == [a, b];
    assert [a, b][..1] == [a];
    assert [a][..0] == [];
    assert Crossings([a], ray) == if a.Intersects(ray) then 1 else 0;
    assert Crossings([a, b], ray) == Crossings([a], ray) + if b.Intersects(ray) then 1 else 0;
    assert Crossings([a, b, c], ray) == Crossings([a, b], ray) + if c.Intersects(ray) then 1 else 0;
  }

  /** `Obstacle(Rectangle(...))` spans the rectangle and has its four sides as edges. */
  lemma RectangleObstacle(x0: real, x1: real, y0: real, y1: real)
    requires x0 < x1 && y0 < y1
    ensures var vs := Rectangle(x0, x1, y0, y1);
      NewObstacle(vs) == Some(Obstacle(Range(x0, x1), Range(y0, y1),
        [Line(vs[0], vs[1]), Line(vs[1], vs[2]), Line(vs[2], vs[3]), Line(vs[3], vs[4])]))
  {
    var vs := Rectangle(x0, x1, y0, y1);
    assert Xs(vs) == [x0, x1, x1, x0, x0] && Ys(vs) == [y0, y0, y1, y1, y0];
    RangeOfBounds(Xs(vs), x0, x1);
    RangeOfBounds(Ys(vs), y0, y1);
    assert Edges(vs) == [Line(vs[0], vs[1]), Line(vs[1], vs[2]), Line(vs[2], vs[3]), Line(vs[3], vs[4])];
  }

  /** Ray casting agrees with the geometry on rectangles: a point is reported
      inside a rectangle exactly when it lies in the closed rectangle, except
      the top-right corner, which the half-open ranges leave out. */
  lemma RectangleContainment(x0: real, x1: real, y0: real, y1: real, p: Point)
    requires x0 < x1 && y0 < y1
    ensures NewObstacle(Rectangle(x0, x1, y0, y1)).Some?
    ensures NewObstacle(Rectangle(x0, x1, y0, y1)).value.Contains(p) <==>
      x0 <= p.x <= x1 && y0 <= p.y <= y1 && p != Point(x1, y1)
  {
    RectangleObstacle(x0, x1, y0, y1);
    var vs := Rectangle(x0, x1, y0, y1);
    var e0, e1, e2, e3 := Line(vs[0], vs[1]), Line(vs[1], vs[2]), Line(vs[2], vs[3]), Line(vs[3], vs[4]);
    var o := Obstacle(Range(x0, x1), Range(y0, y1), [e0, e1, e2, e3]);
    var ray := o.Projection(p);
    CrossingsOfFour(e0, e1, e2, e3, ray);
    if o.InBounds(p) {
      assert !e0.Intersects(ray) && !e2.Intersects(ray);
      assert e1.Intersects(ray) <==> y0 <= p.y < y1;
      assert e3.Intersects(ray) <==> y0 <= p.y < y1 && p.x == x0;
      if p.x == x0 && y0 <= p.y < y1 {
        assert e3.PointOnLine(p);
      } else if p.y == y1 && p.x < x1 {
        assert e2.PointOnLine(p);
      } else if p.x == x1 && p.y < y1 {
        assert e1.PointOnLine(p);
      } else if p == Point(x1, y1) {
        assert !e0.PointOnLine(p) && !e1.PointOnLine(p) && !e2.PointOnLine(p) && !e3.PointOnLine(p);
      }
    }
  }

  /** `point_on_line` has no range check on slanted edges, so a point of the
      bounding box that lies on the extension of a slanted edge is reported
      inside. Here the convex quadrilateral (0,0), (10,0), (9,9), (0,10) and
      the point (8.9, 9.9): it lies on the line through the edge from (10,0)
      to (9,9) but beyond that edge, strictly above the line carrying the top
      edge from (9,9) to (0,10), while every vertex lies on or below that line,
      so it is outside the polygon; yet the obstacle contains it. */
  lemma SlantedEdgeExtensionInside()
    ensures var vs := Quadrilateral();
      var o := NewObstacle(vs);
      var pt := Point(8.9, 9.9);
      o.Some? && |o.value.lines| == 4 &&
      (forall v :: v in vs ==> v.y <= o.value.lines[2].YAt(v.x)) &&
      pt.y > o.value.lines[2].YAt(pt.x) &&
      o.value.lines[1].PointOnLine(pt) && !InBox(o.value.lines[1], pt) &&
      o.value.Contains(pt)
  {
    var vs := Quadrilateral();
    QuadrilateralObstacle();
    var o := NewObstacle(vs).value;
    var pt := Point(8.9, 9.9);
    assert o.lines[1] == Line(Point(10.0, 0.0), Point(9.0, 9.0));
    assert o.lines[2] == Line(Point(9.0, 9.0), Point(0.0, 10.0));
    TopEdgeSeparates(vs, pt);
    SideEdgeExtended(pt);
    assert o.InBounds(pt);
  }

  lemma TopEdgeSeparates(vs: seq<Point>, pt: Point)
    requires vs == Quadrilateral() && pt == Point(8.9, 9.9)
    ensures var top := Line(Point(9.0, 9.0), Point(0.0, 10.0));
      (forall v :: v in vs ==> v.y <= top.YAt(v.x)) && pt.y > top.YAt(pt.x)
  {
    var top := Line(Point(9.0, 9.0), Point(0.0, 10.0));
    assert top.Slope() == -1.0 / 9.0;
    assert top.Intercept() == 10.0;
    assert top.YAt(0.0) == 10.0 && top.YAt(10.0) == 10.0 - 10.0 / 9.0 && top.YAt(9.0) == 9.0;
    assert top.YAt(8.9) == 10.0 - 8.9 / 9.0;
  }

  lemma SideEdgeExtended(pt: Point)
    requires pt == Point(8.9, 9.9)
    ensures var side := Line(Point(10.0, 0.0), Point(9.0, 9.0));
      side.PointOnLine(pt) && !InBox(side, pt)
  {
    var side := Line(Point(10.0, 0.0), Point(9.0, 9.0));
    assert OnLine(side, pt);
    PointOnSlantedLine(side, pt);
  }

  function Quadrilateral(): seq<Point>
  {
    [Point(0.0, 0.0), Point(10.0, 0.0), Point(9.0, 9.0), Point(0.0, 10.0), Point(0.0, 0.0)]
  }

  lemma QuadrilateralObstacle()
    ensures var vs := Quadrilateral();
      NewObstacle(vs) == Some(Obstacle(Range(0.0, 10.0), Range(0.0, 10.0),
        [Line(vs[0], vs[1]), Line(vs[1], vs[2]), Line(vs[2], vs[3]), Line(vs[3], vs[4])]))
  {
    var vs := Quadrilateral();
    assert Xs(vs) == [0.0, 10.0, 9.0, 0.0, 0.0] && Ys(vs) == [0.0, 0.0, 9.0, 10.0, 0.0];
    RangeOfBounds(Xs(vs), 0.0, 10.0);
    RangeOfBounds(Ys(vs), 0.0, 10.0);
    assert Edges(vs) == [Line(vs[0], vs[1]), Line(vs[1], vs[2]), Line(vs[2], vs[3]), Line(vs[3], vs[4])];
  }

  /** `Obstacles`: the obstacle field a planner checks against. */
  datatype Obstacles = Obstacles(obss: seq<Obstacle>) {

    /** `point_is_valid`: the point (x, y) is in no obstacle. */
    method PointIsValid(x: real, y: real) returns (valid: bool)
      ensures valid <==> forall i :: 0 <= i < |obss| ==> !obss[i].Contains(Point(x, y))
    {
      var point := Point(x, y);
      for i := 0 to |obss|
        invariant forall j :: 0 <= j < i ==> !obss[j].Contains(point)
      {
        var inside := obss[i].PointInObstacle(point);
        if inside {
          return false;
        }
      }
      return true;
    }

    /** `check_collisions`: the segment between the two configurations hits
        some obstacle. */
    method CheckCollisions(pair: (Pt, Pt)) returns (hit: bool)
      ensures hit <==> exists i :: 0 <= i < |obss| && obss[i].Collides(SegmentOf(pair))
    {
      var line := SegmentOf(pair);
      for i := 0 to |obss|
        invariant forall j :: 0 <= j < i ==> !obss[j].Collides(line)
      {
        var h := obss[i].CheckCollisions(line);
        if h {
          return true;
        }
      }
      return false;
    }
  }

  /** `Line(Point(*pair[0]), Point(*pair[1]))`. */
  function SegmentOf(pair: (Pt, Pt)): Line
  {
    Line(Point(pair.0.0, pair.0.1), Point(pair.1.0, pair.1.1))
  }

  /** `int(v)` on a float: truncation toward zero. */
  function Truncate(v: real): (n: int)
    ensures v >= 0.0 ==> n as real <= v < n as real + 1.0
    ensures v < 0.0 ==> n as real - 1.0 < v <= n as real
  {
    if v >= 0.0 then v.Floor else -((-v).Floor)
  }

  /** `pt.astype(int)` for one vertex. */
  function TruncatePoint(p: Point): Point
  {
    Point(Truncate(p.x) as real, Truncate(p.y) as real)
  }

  /** `Obstacles(obstacles)`: one obstacle per vertex ring, integer-truncated.
      The field exists only when no ring is empty. */
  function NewObstacles(rings: seq<seq<Point>>): (r: Option<Obstacles>)
    ensures r.None? <==> exists i :: 0 <= i < |rings| && |rings[i]| == 0
    ensures r.Some? ==> |r.value.obss| == |rings|
    ensures r.Some? ==> forall i :: 0 <= i < |rings| ==> NewObstacle(Truncated(rings[i])) == Some(r.value.obss[i])
    ensures r.Some? ==> forall i :: 0 <= i < |rings| ==> WellFormed(r.value.obss[i])
  {
    if exists i :: 0 <= i < |rings| && |rings[i]| == 0 then None
    else Some(Obstacles(seq(|rings|, i requires 0 <= i < |rings| => NewObstacle(Truncated(rings[i])).value)))
  }

  function Truncated(ring: seq<Point>): (t: seq<Point>)
    ensures |t| == |ring| && forall i :: 0 <= i < |ring| ==> t[i] == TruncatePoint(ring[i])
  {
    seq(|ring|, i requires 0 <= i < |ring| => TruncatePoint(ring[i]))
  }
}
