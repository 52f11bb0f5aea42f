/** The rectangles and circles of the scatter plot, over exact reals. */
module LabelGeometry {
  datatype Point = Point(x: real, y: real)
  datatype Rect = Rect(x: real, y: real, w: real, h: real)
  datatype Bounds = Bounds(left: real, top: real, right: real, bottom: real)

  const BOX_GAP: real := 4.0

  function MinR(a: real, b: real): real {
    if a < b then a else b
  }

  function MaxR(a: real, b: real): real {
    if a < b then b else a
  }

  function Clamp(n: real, low: real, high: real): real {
    MinR(high, MaxR(low, n))
  }

  /** The point belongs to the closed rectangle. */
  predicate Inside(p: Point, box: Rect) {
    box.x <= p.x <= box.x + box.w && box.y <= p.y <= box.y + box.h
  }

  predicate Within(box: Rect, bounds: Bounds) {
    && bounds.left <= box.x && box.x + box.w <= bounds.right
    && bounds.top <= box.y && box.y + box.h <= bounds.bottom
  }

  function Square(a: real): real {
    a * a
  }

  function SquaredDistance(p: Point, q: Point): real {
    Square(p.x - q.x) + Square(p.y - q.y)
  }

  function ClosestOnRect(p: Point, box: Rect): Point {
    Point(Clamp(p.x, box.x, box.x + box.w), Clamp(p.y, box.y, box.y + box.h))
  }

  predicate CircleHitsBox(c: Point, r: real, box: Rect) {
    SquaredDistance(c, ClosestOnRect(c, box)) < Square(r)
  }

  predicate BoxesOverlap(a: Rect, b: Rect, pad: real) {
    !(|| a.x + a.w + pad <= b.x || b.x + b.w + pad <= a.x
      || a.y + a.h + pad <= b.y || b.y + b.h + pad <= a.y)
  }

  lemma SquareGrows(a: real, b: real)
    requires 0.0 <= a <= b
    ensures Square(a) <= Square(b)
  {
    assert b * b - a * a == (b - a) * (b + a);
    assert (b - a) * (b + a) >= 0.0;
  }

  lemma AxisClosest(c: real, low: real, high: real, p: real)
    requires low <= p <= high
    ensures low <= Clamp(c, low, high) <= high
    ensures Square(c - Clamp(c, low, high)) <= Square(c - p)
  {
    if c < low {
      SquareGrows(low - c, p - c);
      assert Square(low - c) == Square(c - low) && Square(p - c) == Square(c - p);
    } else if c > high {
      SquareGrows(c - high, c - p);
    } else {
      assert Square(c - p) >= 0.0;
    }
  }

  /** The clamped point is the point of the box nearest to `p`. */
  lemma ClosestIsNearest(p: Point, box: Rect, q: Point)
    requires Inside(q, box)
    ensures Inside(ClosestOnRect(p, box), box)
    ensures SquaredDistance(p, ClosestOnRect(p, box)) <= SquaredDistance(p, q)
  {
    hide Square;
    hide Clamp;
    AxisClosest(p.x, box.x, box.x + box.w, q.x);
    AxisClosest(p.y, box.y, box.y + box.h, q.y);
  }

  /** A circle hits a box exactly when some point of the box is nearer to the centre than the radius. */
  lemma CircleHitsBoxIff(c: Point, r: real, box: Rect)
    requires box.w >= 0.0 && box.h >= 0.0
    ensures CircleHitsBox(c, r, box) <==> exists q :: Inside(q, box) && SquaredDistance(c, q) < Square(r)
  {
    hide SquaredDistance;
    hide Square;
    var corner := Point(box.x, box.y);
    ClosestIsNearest(c, box, corner);
    if q :| Inside(q, box) && SquaredDistance(c, q) < Square(r) {
      ClosestIsNearest(c, box, q);
    }
  }

  function Abs(a: real): real {
    if a < 0.0 then -a else a
  }

  /** Two points less than `pad` apart on both axes. */
  predicate Near(p: Point, q: Point, pad: real) {
    Abs(p.x - q.x) < pad && Abs(p.y - q.y) < pad
  }

  /** Two intervals less than `pad` apart hold points less than `pad` apart. */
  lemma AxisNear(a: real, w: real, b: real, v: real, pad: real) returns (p: real, q: real)
    requires w >= 0.0 && v >= 0.0 && pad > 0.0
    requires a + w + pad > b && b + v + pad > a
    ensures a <= p <= a + w && b <= q <= b + v && Abs(p - q) < pad
  {
    p := Clamp(b, a, a + w);
    q := Clamp(p, b, b + v);
  }

  /** Boxes overlap exactly when a point of one is less than the gap away from a point of the other on
      both axes. */
  lemma BoxesOverlapIff(a: Rect, b: Rect, pad: real)
    requires a.w >= 0.0 && a.h >= 0.0 && b.w >= 0.0 && b.h >= 0.0 && pad > 0.0
    ensures BoxesOverlap(a, b, pad) <==> exists p, q :: Inside(p, a) && Inside(q, b) && Near(p, q, pad)
  {
    if BoxesOverlap(a, b, pad) {
      var px, qx := AxisNear(a.x, a.w, b.x, b.w, pad);
      var py, qy := AxisNear(a.y, a.h, b.y, b.h, pad);
      assert Inside(Point(px, py), a) && Inside(Point(qx, qy), b) && Near(Point(px, py), Point(qx, qy), pad);
    }
  }

  function ClampBox(box: Rect, bounds: Bounds): Rect {
    var w := MinR(box.w, MaxR(8.0, bounds.right - bounds.left));
    var h := MinR(box.h, MaxR(8.0, bounds.bottom - bounds.top));
    Rect(Clamp(box.x, bounds.left, bounds.right - w), Clamp(box.y, bounds.top, bounds.bottom - h), w, h)
  }

  /** The clamped box lies within bounds that are at least 8 wide and high, or hold the whole box; the two
      far edges are always kept, the two near ones exactly then. */
  lemma ClampBoxWithin(box: Rect, bounds: Bounds)
    ensures var c := ClampBox(box, bounds);
            && c.x + c.w <= bounds.right && c.y + c.h <= bounds.bottom
            && (bounds.left <= c.x <==> box.w <= bounds.right - bounds.left || 8.0 <= bounds.right - bounds.left)
            && (bounds.top <= c.y <==> box.h <= bounds.bottom - bounds.top || 8.0 <= bounds.bottom - bounds.top)
  {
  }

  /** It moves the box no farther than it must: no box of that size within the bounds is nearer on either
      axis, and a box already within stays. */
  lemma ClampBoxMovesLeast(box: Rect, bounds: Bounds, other: Rect)
    requires other.w == ClampBox(box, bounds).w && other.h == ClampBox(box, bounds).h && Within(other, bounds)
    ensures Abs(ClampBox(box, bounds).x - box.x) <= Abs(other.x - box.x)
    ensures Abs(ClampBox(box, bounds).y - box.y) <= Abs(other.y - box.y)
    ensures Within(box, bounds) ==> ClampBox(box, bounds) == box
  {
  }

  function OverlapArea(a: Rect, b: Rect): (r: real)
    ensures r >= 0.0
  {
    var x := MaxR(0.0, MinR(a.x + a.w, b.x + b.w) - MaxR(a.x, b.x));
    var y := MaxR(0.0, MinR(a.y + a.h, b.y + b.h) - MaxR(a.y, b.y));
    x * y
  }

  /** Boxes share area exactly when they overlap without any gap; labels that keep the gap share none. */
  lemma SharedAreaIff(a: Rect, b: Rect)
    requires a.w > 0.0 && a.h > 0.0 && b.w > 0.0 && b.h > 0.0
    ensures OverlapArea(a, b) > 0.0 <==> BoxesOverlap(a, b, 0.0)
    ensures !BoxesOverlap(a, b, BOX_GAP) ==> OverlapArea(a, b) == 0.0
  {
    var x := MaxR(0.0, MinR(a.x + a.w, b.x + b.w) - MaxR(a.x, b.x));
    var y := MaxR(0.0, MinR(a.y + a.h, b.y + b.h) - MaxR(a.y, b.y));
    ProductPositive(x, y);
    assert BoxesOverlap(a, b, 0.0) <==> x > 0.0 && y > 0.0;
  }

  /** It is the area of the rectangle of the points that both have. */
  lemma OverlapIsArea(a: Rect, b: Rect, both: Rect)
    requires a.w >= 0.0 && a.h >= 0.0 && b.w >= 0.0 && b.h >= 0.0 && both.w >= 0.0 && both.h >= 0.0
    requires forall p :: Inside(p, both) <==> Inside(p, a) && Inside(p, b)
    ensures OverlapArea(a, b) == both.w * both.h
  {
    var (left, top) := (MaxR(a.x, b.x), MaxR(a.y, b.y));
    var (right, bottom) := (MinR(a.x + a.w, b.x + b.w), MinR(a.y + a.h, b.y + b.h));
    assert Inside(Point(both.x, both.y), both) && Inside(Point(both.x + both.w, both.y + both.h), both);
    assert Inside(Point(left, top), a) && Inside(Point(left, top), b);
    assert Inside(Point(right, bottom), a) && Inside(Point(right, bottom), b);
    assert both.x == left && both.y == top && both.x + both.w == right && both.y + both.h == bottom;
  }

  lemma ProductPositive(x: real, y: real)
    requires x >= 0.0 && y >= 0.0
    ensures x * y > 0.0 <==> x > 0.0 && y > 0.0
  {
  }

  function Ratio(a: real, b: real): real
    requires b != 0.0
  {
    a / b
  }

  /** Two segments cross away from their ends. */
  predicate SegmentsCross(a1: Point, a2: Point, b1: Point, b2: Point) {
    DirectionsCross(a2.x - a1.x, a2.y - a1.y, b2.x - b1.x, b2.y - b1.y, b1.x - a1.x, b1.y - a1.y)
  }

  /** The directions of the two, and where the second starts, seen from the first. */
  predicate DirectionsCross(dax: real, day: real, dbx: real, dby: real, ex: real, ey: real) {
    var den := dax * dby - day * dbx;
    if -0.000001 < den < 0.000001 then false
    else
      var t := Ratio(ex * dby - ey * dbx, den);
      var u := Ratio(ex * day - ey * dax, den);
      0.04 < t < 0.96 && 0.04 < u < 0.96
  }

  /** The point at the share `t` of the way from `a` to `b`. */
  function Between(a: Point, b: Point, t: real): Point {
    Point(a.x + t * (b.x - a.x), a.y + t * (b.y - a.y))
  }

  predicate Parallel(dax: real, day: real, dbx: real, dby: real) {
    -0.000001 < dax * dby - day * dbx < 0.000001
  }

  /** They cross exactly when they are not all but parallel and meet at a point away from the ends of both. */
  lemma SegmentsCrossIff(a1: Point, a2: Point, b1: Point, b2: Point)
    ensures SegmentsCross(a1, a2, b1, b2) <==>
              !Parallel(a2.x - a1.x, a2.y - a1.y, b2.x - b1.x, b2.y - b1.y)
              && exists t, u :: 0.04 < t < 0.96 && 0.04 < u < 0.96 && Between(a1, a2, t) == Between(b1, b2, u)
  {
    if !Parallel(a2.x - a1.x, a2.y - a1.y, b2.x - b1.x, b2.y - b1.y) {
      var t, u := TheMeeting(a1, a2, b1, b2);
      hide SegmentsCross;
      hide Between;
      if r, v :| 0.04 < r < 0.96 && 0.04 < v < 0.96 && Between(a1, a2, r) == Between(b1, b2, v) {
        OneMeeting(a1, a2, b1, b2, t, u, r, v);
      }
    }
  }

  lemma TheMeeting(a1: Point, a2: Point, b1: Point, b2: Point) returns (t: real, u: real)
    requires !Parallel(a2.x - a1.x, a2.y - a1.y, b2.x - b1.x, b2.y - b1.y)
    ensures Between(a1, a2, t) == Between(b1, b2, u)
    ensures SegmentsCross(a1, a2, b1, b2) <==> 0.04 < t < 0.96 && 0.04 < u < 0.96
  {
    hide Parallel;
    hide DirectionsCross;
    hide Between;
    t, u := Solution(a2.x - a1.x, a2.y - a1.y, b2.x - b1.x, b2.y - b1.y, b1.x - a1.x, b1.y - a1.y);
    MeetIff(a1, a2, b1, b2, t, u);
  }

  lemma Solution(p: real, q: real, r: real, v: real, ex: real, ey: real) returns (t: real, u: real)
    requires !Parallel(p, q, r, v)
    ensures t * p - u * r == ex && t * q - u * v == ey
    ensures DirectionsCross(p, q, r, v, ex, ey) <==> 0.04 < t < 0.96 && 0.04 < u < 0.96
  {
    hide Ratio;
    t := Ratio(ex * v - ey * r, p * v - q * r);
    u := Ratio(ex * q - ey * p, p * v - q * r);
    Solves(p, q, r, v, ex, ey, t, u);
  }

  lemma MeetIff(a1: Point, a2: Point, b1: Point, b2: Point, t: real, u: real)
    ensures Between(a1, a2, t) == Between(b1, b2, u) <==>
              t * (a2.x - a1.x) - u * (b2.x - b1.x) == b1.x - a1.x && t * (a2.y - a1.y) - u * (b2.y - b1.y) == b1.y - a1.y
  {
    var (p, q) := (Between(a1, a2, t), Between(b1, b2, u));
    AxisMeet(p.x, q.x, a1.x, b1.x, t * (a2.x - a1.x), u * (b2.x - b1.x));
    AxisMeet(p.y, q.y, a1.y, b1.y, t * (a2.y - a1.y), u * (b2.y - b1.y));
    assert p == q <==> p.x == q.x && p.y == q.y;
  }

  lemma AxisMeet(p: real, q: real, a: real, b: real, d: real, e: real)
    requires p == a + d && q == b + e
    ensures p == q <==> d - e == b - a
  {
  }

  lemma OneMeeting(a1: Point, a2: Point, b1: Point, b2: Point, t: real, u: real, r: real, v: real)
    requires !Parallel(a2.x - a1.x, a2.y - a1.y, b2.x - b1.x, b2.y - b1.y)
    requires Between(a1, a2, t) == Between(b1, b2, u) && Between(a1, a2, r) == Between(b1, b2, v)
    ensures r == t && v == u
  {
    MeetIff(a1, a2, b1, b2, t, u);
    MeetIff(a1, a2, b1, b2, r, v);
    hide Between;
    OnlySolution(a2.x - a1.x, a2.y - a1.y, b2.x - b1.x, b2.y - b1.y, b1.x - a1.x, b1.y - a1.y, t, u, r, v);
  }

  lemma Solves(p: real, q: real, r: real, v: real, ex: real, ey: real, t: real, u: real)
    requires var den := p * v - q * r; den != 0.0 && t == Ratio(ex * v - ey * r, den) && u == Ratio(ex * q - ey * p, den)
    ensures t * p - u * r == ex && t * q - u * v == ey
  {
    var den := p * v - q * r;
    assert t * den == ex * v - ey * r && u * den == ex * q - ey * p;
    assert (t * p - u * r) * den == t * den * p - u * den * r;
    assert (ex * v - ey * r) * p - (ex * q - ey * p) * r == ex * den;
    assert (t * q - u * v) * den == t * den * q - u * den * v;
    assert (ex * v - ey * r) * q - (ex * q - ey * p) * v == ey * den;
    Cancel(t * p - u * r, ex, den);
    Cancel(t * q - u * v, ey, den);
  }

  lemma Cancel(a: real, b: real, c: real)
    requires c != 0.0 && a * c == b * c
    ensures a == b
  {
  }

  lemma OnlySolution(p: real, q: real, r: real, v: real, ex: real, ey: real, t: real, u: real, t': real, u': real)
    requires p * v - q * r != 0.0 && t * p - u * r == ex && t * q - u * v == ey && t' * p - u' * r == ex && t' * q - u' * v == ey
    ensures t == t' && u == u'
  {
    Eliminated(p, q, r, v, ex, ey, t, u);
    Eliminated(p, q, r, v, ex, ey, t', u');
    Cancel(t, t', p * v - q * r);
    Cancel(u, u', p * v - q * r);
  }

  lemma Eliminated(p: real, q: real, r: real, v: real, ex: real, ey: real, t: real, u: real)
    requires t * p - u * r == ex && t * q - u * v == ey
    ensures t * (p * v - q * r) == ex * v - ey * r && u * (p * v - q * r) == ex * q - ey * p
  {
    assert (t * p - u * r) * v - (t * q - u * v) * r == t * (p * v - q * r);
    assert (t * p - u * r) * q - (t * q - u * v) * p == u * (p * v - q * r);
  }

  /** How far `p` lies along the direction from `a` to `b`. */
  function Along(p: Point, a: Point, b: Point): real {
    (p.x - a.x) * (b.x - a.x) + (p.y - a.y) * (b.y - a.y)
  }

  /** The point of the segment from `a` to `b` that `p` projects to. */
  function Projection(p: Point, a: Point, b: Point): Point {
    var l2 := SquaredDistance(a, b);
    if l2 == 0.0 then a else Between(a, b, Clamp(Ratio(Along(p, a, b), l2), 0.0, 1.0))
  }

  /** `distPointToSeg(...) < r`. */
  predicate NearSegment(p: Point, a: Point, b: Point, r: real) {
    SquaredDistance(p, Projection(p, a, b)) < Square(r)
  }

  /** A point is near a segment exactly when some point of the segment is nearer than the radius. */
  lemma NearSegmentIff(p: Point, a: Point, b: Point, r: real)
    ensures NearSegment(p, a, b, r) <==> exists t :: 0.0 <= t <= 1.0 && SquaredDistance(p, Between(a, b, t)) < Square(r)
  {
    hide Square;
    var best := ProjectionIsBetween(p, a, b);
    hide Projection;
    if t :| 0.0 <= t <= 1.0 && SquaredDistance(p, Between(a, b, t)) < Square(r) {
      ProjectionIsNearest(p, a, b, t);
    }
  }

  lemma ProjectionIsBetween(p: Point, a: Point, b: Point) returns (t: real)
    ensures 0.0 <= t <= 1.0 && Projection(p, a, b) == Between(a, b, t)
  {
    hide Ratio;
    hide Along;
    hide SquaredDistance;
    if SquaredDistance(a, b) == 0.0 {
      t := 0.0;
    } else {
      hide Between;
      t := Clamp(Ratio(Along(p, a, b), SquaredDistance(a, b)), 0.0, 1.0);
    }
  }

  lemma ProjectionIsNearest(p: Point, a: Point, b: Point, t: real)
    requires 0.0 <= t <= 1.0
    ensures SquaredDistance(p, Projection(p, a, b)) <= SquaredDistance(p, Between(a, b, t))
  {
    hide SquaredDistance;
    hide Ratio;
    hide Along;
    var l2 := SquaredDistance(a, b);
    if l2 == 0.0 {
      SamePoint(a, b);
      assert Between(a, b, t) == a;
    } else {
      hide Between;
      NotNegative(a, b);
      var best := Clamp(Ratio(Along(p, a, b), l2), 0.0, 1.0);
      assert Projection(p, a, b) == Between(a, b, best);
      hide Projection;
      hide Clamp;
      DistanceBetween(p, a, b, t);
      DistanceBetween(p, a, b, best);
      LeastAt(l2, Along(p, a, b), best, t);
    }
  }

  lemma LengthIs(a: Point, b: Point)
    ensures SquaredDistance(a, b) == (b.x - a.x) * (b.x - a.x) + (b.y - a.y) * (b.y - a.y) >= 0.0
  {
    SquareOfOffset(b.x, a.x, b.x - a.x);
    SquareOfOffset(b.y, a.y, b.y - a.y);
    SquareFlips(a.x - b.x);
    SquareFlips(a.y - b.y);
  }

  lemma NotNegative(a: Point, b: Point)
    ensures SquaredDistance(a, b) >= 0.0
  {
    SquareFlips(a.x - b.x);
    SquareFlips(a.y - b.y);
  }

  lemma SquareFlips(x: real)
    ensures Square(x) == Square(-x) >= 0.0
  {
  }

  lemma SamePoint(a: Point, b: Point)
    requires SquaredDistance(a, b) == 0.0
    ensures a == b
  {
    SquareFlips(a.x - b.x);
    SquareFlips(a.y - b.y);
    SquareZero(a.x - b.x);
    SquareZero(a.y - b.y);
  }

  lemma SquareZero(x: real)
    requires Square(x) == 0.0
    ensures x == 0.0
  {
    if x != 0.0 { ZeroFactor(x, x, Square(x)); }
  }

  lemma ZeroFactor(x: real, y: real, product: real)
    requires x != 0.0 && product == x * y && product == 0.0
    ensures y == 0.0
  {
  }

  /** The distance along the segment, as a parabola in the share of the way. */
  lemma DistanceBetween(p: Point, a: Point, b: Point, t: real)
    ensures var l2 := SquaredDistance(a, b);
            SquaredDistance(p, Between(a, b, t)) == SquaredDistance(p, a) - 2.0 * (t * Along(p, a, b)) + t * t * l2
  {
    LengthIs(a, b);
    SquareLess(p.x - a.x, b.x - a.x, t);
    SquareLess(p.y - a.y, b.y - a.y, t);
    var (fx, fy) := ((p.x - a.x) * (b.x - a.x), (p.y - a.y) * (b.y - a.y));
    assert t * (fx + fy) == t * fx + t * fy;
    var (gx, gy) := ((b.x - a.x) * (b.x - a.x), (b.y - a.y) * (b.y - a.y));
    assert t * t * (gx + gy) == t * t * gx + t * t * gy;
    assert p.x - (a.x + t * (b.x - a.x)) == p.x - a.x - t * (b.x - a.x);
    assert p.y - (a.y + t * (b.y - a.y)) == p.y - a.y - t * (b.y - a.y);
  }

  lemma SquareLess(e: real, d: real, t: real)
    ensures Square(e - t * d) == Square(e) - 2.0 * (t * (e * d)) + t * t * (d * d)
  {
    var x := t * d;
    assert (e - x) * (e - x) == e * e - 2.0 * (e * x) + x * x;
    assert e * x == t * (e * d) && x * x == t * t * (d * d);
  }

  lemma LeastAt(l2: real, dot: real, best: real, t: real)
    requires l2 > 0.0 && best == Clamp(Ratio(dot, l2), 0.0, 1.0) && 0.0 <= t <= 1.0
    ensures -2.0 * (best * dot) + best * best * l2 <= -2.0 * (t * dot) + t * t * l2
  {
    hide Clamp;
    hide Ratio;
    var top := Factors(l2, dot, best, t);
    SameSign((t - best) * (t + best - 2.0 * top), l2);
    Parabola(top, best, t, l2, dot);
  }

  lemma Factors(l2: real, dot: real, best: real, t: real) returns (top: real)
    requires l2 > 0.0 && best == Clamp(Ratio(dot, l2), 0.0, 1.0) && 0.0 <= t <= 1.0
    ensures top * l2 == dot && (t - best) * (t + best - 2.0 * top) >= 0.0
  {
    top := Ratio(dot, l2);
    assert top * l2 == dot;
    hide Ratio;
    if top <= 0.0 {
      SameSign(t - best, t + best - 2.0 * top);
    } else if top >= 1.0 {
      SameSign(best - t, 2.0 * top - t - best);
      assert (best - t) * (2.0 * top - t - best) == (t - best) * (t + best - 2.0 * top);
    } else {
      SquareFlips(t - best);
    }
  }

  lemma SameSign(a: real, b: real)
    requires a >= 0.0 && b >= 0.0
    ensures a * b >= 0.0
  {
  }

  lemma Parabola(top: real, best: real, t: real, l2: real, dot: real)
    requires top * l2 == dot
    ensures (t - best) * (t + best - 2.0 * top) * l2 == (t * t * l2 - 2.0 * (t * dot)) - (best * best * l2 - 2.0 * (best * dot))
  {
    TimesOut(t, best, 2.0 * top);
    Spread(t * t, best * best, t * (2.0 * top), best * (2.0 * top), l2);
    Regroup(t, top, l2, dot);
    Regroup(best, top, l2, dot);
  }

  lemma Regroup(t: real, top: real, l2: real, dot: real)
    requires top * l2 == dot
    ensures t * (2.0 * top) * l2 == 2.0 * (t * dot)
  {
    assert t * (2.0 * top) * l2 == 2.0 * (t * (top * l2));
  }

  lemma TimesOut(t: real, b: real, c: real)
    ensures (t - b) * (t + b - c) == t * t - b * b - t * c + b * c
  {
  }

  lemma Spread(a: real, b: real, c: real, d: real, l: real)
    ensures (a - b - c + d) * l == a * l - b * l - c * l + d * l
  {
  }

  /** One of the eight candidate boxes around a point. */
  function BoxFor(c: Point, w: real, h: real, dx: int, dy: int, pad: real): Rect {
    var o := if dx == 0 || dy == 0 then pad else pad * 0.78;
    var x := if dx == 0 then c.x - w / 2.0 else if dx > 0 then c.x + o else c.x - o - w;
    var y := if dy == 0 then c.y - h / 2.0 else if dy > 0 then c.y + o else c.y - o - h;
    Rect(x, y, w, h)
  }

  /** A candidate box keeps the ring's distance from its point: exactly on the axes, a tenth more at most
      on the diagonals. */
  lemma BoxForDistance(c: Point, w: real, h: real, dx: int, dy: int, pad: real)
    requires w >= 0.0 && h >= 0.0 && pad >= 0.0 && !(dx == 0 && dy == 0)
    ensures var gap := SquaredDistance(c, ClosestOnRect(c, BoxFor(c, w, h, dx, dy, pad)));
            if dx == 0 || dy == 0 then gap == Square(pad) else gap == 1.2168 * Square(pad)
  {
    hide Square;
    var box := BoxFor(c, w, h, dx, dy, pad);
    var q := ClosestOnRect(c, box);
    var o := if dx == 0 || dy == 0 then pad else pad * 0.78;
    assert q.x == if dx == 0 then c.x else if dx > 0 then c.x + o else c.x - o;
    assert q.y == if dy == 0 then c.y else if dy > 0 then c.y + o else c.y - o;
    SquareOfOffset(c.x, q.x, o);
    SquareOfOffset(c.y, q.y, o);
    SquareScaled(pad);
  }

  lemma SquareOfOffset(a: real, b: real, o: real)
    ensures b == a ==> Square(a - b) == 0.0
    ensures b == a + o || b == a - o ==> Square(a - b) == Square(o)
  {
    assert b == a + o ==> a - b == -o;
    assert b == a - o ==> a - b == o;
    assert (-o) * (-o) == o * o;
  }

  lemma SquareScaled(pad: real)
    ensures Square(pad * 0.78) == 0.6084 * Square(pad)
  {
    var o := pad * 0.78;
    assert o * o == 0.78 * (pad * o);
    assert pad * o == 0.78 * (pad * pad);
  }
}
