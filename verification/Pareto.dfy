/** The Pareto front of the leaderboard charts: little of a resource, high pass rate. */
module Pareto {
  import opened Wrappers
  import Sorting

  datatype Axis = Cost | Tokens | Time

  datatype Point = Point(name: string, costUsd: Option<real>, tokens: Option<real>, durationS: Option<real>, passRate: Option<real>)

  function AxisValue(p: Point, axis: Axis): Option<real> {
    match axis
    case Cost => p.costUsd
    case Tokens => p.tokens
    case Time => p.durationS
  }

  predicate Usable(p: Point, axis: Axis) {
    p.passRate.Some? && AxisValue(p, axis).Some?
  }

  /** What the front compares: resource and rate. */
  datatype Pair = Pair(x: real, y: real)

  function PairOf(p: Point, axis: Axis): Pair
    requires Usable(p, axis)
  {
    Pair(AxisValue(p, axis).value, p.passRate.value)
  }

  predicate Beats(a: Pair, b: Pair) {
    a.x <= b.x && a.y >= b.y
  }

  /** As good on both axes and better on one. */
  predicate Dominates(a: Pair, b: Pair) {
    Beats(a, b) && a != b
  }

  /** The sort's order: little resource first, of equals the higher rate; unusable points, which are filtered
      out before, at the end. */
  predicate Earlier(a: Point, b: Point, axis: Axis) {
    if !Usable(a, axis) then !Usable(b, axis)
    else if !Usable(b, axis) then true
    else
      Sooner(PairOf(a, axis), PairOf(b, axis))
  }

  /** A point of the input: its position tells it from points with the same fields. */
  datatype Placed = Placed(at: nat, point: Point)

  /** The usable points from position `from` on, in input order. */
  function UsableFrom(points: seq<Point>, axis: Axis, from: nat): (r: seq<Placed>)
    requires from <= |points|
    ensures forall i :: 0 <= i < |r| ==> from <= r[i].at && IsPlaced(points, r[i], axis)
    ensures forall i, j :: 0 <= i < j < |r| ==> r[i].at < r[j].at
    ensures forall k :: from <= k < |points| && Usable(points[k], axis) ==> Placed(k, points[k]) in r
    decreases |points| - from
  {
    if from == |points| then []
    else
      var rest := UsableFrom(points, axis, from + 1);
      if Usable(points[from], axis) then [Placed(from, points[from])] + rest else rest
  }

  predicate IsPlaced(points: seq<Point>, f: Placed, axis: Axis) {
    f.at < |points| && f.point == points[f.at] && Usable(f.point, axis)
  }

  predicate AllUsable(s: seq<Placed>, axis: Axis) {
    forall i :: 0 <= i < |s| ==> Usable(s[i].point, axis)
  }

  function PairsOf(s: seq<Placed>, axis: Axis): (r: seq<Pair>)
    requires AllUsable(s, axis)
    ensures |r| == |s| && forall i :: 0 <= i < |r| ==> r[i] == PairOf(s[i].point, axis)
  {
    seq(|s|, i requires 0 <= i < |s| => PairOf(s[i].point, axis))
  }

  /** The pairs in the plot. */
  function Plotted(points: seq<Point>, axis: Axis): set<Pair> {
    set p | p in points && Usable(p, axis) :: PairOf(p, axis)
  }

  ghost predicate Rising(front: seq<Pair>) {
    forall i, j :: 0 <= i < j < |front| ==> front[i].x < front[j].x && front[i].y < front[j].y
  }

  ghost predicate Covered(q: Pair, front: seq<Pair>) {
    exists f :: f in front && Beats(f, q)
  }

  ghost predicate Undominated(q: Pair, plot: set<Pair>) {
    forall p :: p in plot ==> !Dominates(p, q)
  }

  /** The front of a plot: strictly better rate for strictly more resource, each plotted pair matched or
      beaten by one in front, none in front dominated. */
  ghost predicate IsFront(front: seq<Pair>, plot: set<Pair>) {
    && Rising(front)
    && (forall f :: f in front ==> f in plot && Undominated(f, plot))
    && (forall q :: q in plot ==> Covered(q, front))
  }

  /** The usable point at `k` is the first of the input with its pair. */
  ghost predicate FirstOfPair(points: seq<Point>, k: nat, axis: Axis) {
    && k < |points| && Usable(points[k], axis)
    && forall j :: 0 <= j < k && Usable(points[j], axis) ==> PairOf(points[j], axis) != PairOf(points[k], axis)
  }

  /** Input points, each the first with its pair, whose pairs are the front of the plot. */
  ghost predicate IsFrontOf(front: seq<Placed>, points: seq<Point>, axis: Axis) {
    && (forall i :: 0 <= i < |front| ==> IsPlaced(points, front[i], axis) && FirstOfPair(points, front[i].at, axis))
    && IsFront(PairsOf(front, axis), Plotted(points, axis))
  }

  predicate Before(a: Placed, b: Placed, axis: Axis) {
    Earlier(a.point, b.point, axis)
  }

  lemma BeforePreorder(axis: Axis)
    ensures Sorting.TotalPreorder((a, b) => Before(a, b, axis))
  {
  }

  /** The front by one field of the points: both the field and the pass rate rise strictly, and every point that
      has both is matched or beaten by one in front. */
  ghost predicate FrontBy(front: seq<Placed>, points: seq<Point>, field: Point -> Option<real>) {
    && (forall i :: 0 <= i < |front| ==> front[i].point in points && field(front[i].point).Some? && front[i].point.passRate.Some?)
    && (forall i, j :: 0 <= i < j < |front| ==>
          field(front[i].point).value < field(front[j].point).value && front[i].point.passRate.value < front[j].point.passRate.value)
    && forall p :: p in points && field(p).Some? && p.passRate.Some? ==>
         exists i :: 0 <= i < |front| && field(front[i].point).value <= field(p).value && front[i].point.passRate.value >= p.passRate.value
  }

  lemma FrontByField(front: seq<Placed>, points: seq<Point>, axis: Axis, field: Point -> Option<real>)
    requires IsFrontOf(front, points, axis) && forall p :: field(p) == AxisValue(p, axis)
    ensures FrontBy(front, points, field)
  {
    hide IsFrontOf;
    hide AxisValue;
    FrontUsable(front, points, axis);
    forall i, j | 0 <= i < j < |front|
      ensures field(front[i].point).value < field(front[j].point).value && front[i].point.passRate.value < front[j].point.passRate.value
    {
      FrontRises(front, points, axis, i, j);
    }
    forall p | p in points && field(p).Some? && p.passRate.Some?
      ensures exists i :: 0 <= i < |front| && field(front[i].point).value <= field(p).value && front[i].point.passRate.value >= p.passRate.value
    {
      var i := Matched(front, points, axis, p);
      assert field(front[i].point) == AxisValue(front[i].point, axis);
    }
  }

  lemma FrontUsable(front: seq<Placed>, points: seq<Point>, axis: Axis)
    requires IsFrontOf(front, points, axis)
    ensures forall i :: 0 <= i < |front| ==> front[i].point in points && Usable(front[i].point, axis)
  {
    hide IsFront;
    hide FirstOfPair;
    hide Usable;
    forall i | 0 <= i < |front| ensures front[i].point in points && Usable(front[i].point, axis) { assert IsPlaced(points, front[i], axis); }
  }

  lemma FrontRises(front: seq<Placed>, points: seq<Point>, axis: Axis, i: nat, j: nat)
    requires IsFrontOf(front, points, axis) && i < j < |front|
    ensures Usable(front[i].point, axis) && Usable(front[j].point, axis)
    ensures AxisValue(front[i].point, axis).value < AxisValue(front[j].point, axis).value
    ensures front[i].point.passRate.value < front[j].point.passRate.value
  {
    hide FirstOfPair;
    hide AxisValue;
    hide Undominated;
    hide Covered;
    FrontUsable(front, points, axis);
    var pairs := PairsOf(front, axis);
    assert pairs[i].x < pairs[j].x && pairs[i].y < pairs[j].y;
  }

  lemma Matched(front: seq<Placed>, points: seq<Point>, axis: Axis, p: Point) returns (i: nat)
    requires IsFrontOf(front, points, axis) && p in points && Usable(p, axis)
    ensures i < |front| && Usable(front[i].point, axis)
    ensures AxisValue(front[i].point, axis).value <= AxisValue(p, axis).value && front[i].point.passRate.value >= p.passRate.value
  {
    hide FirstOfPair;
    hide Usable;
    hide IsFront;
    FrontUsable(front, points, axis);
    var pairs := PairsOf(front, axis);
    var q := PairOf(p, axis);
    assert q in Plotted(points, axis);
    hide Plotted;
    i := Coverer(pairs, Plotted(points, axis), q);
    assert pairs[i] == PairOf(front[i].point, axis);
  }

  lemma Coverer(pairs: seq<Pair>, plot: set<Pair>, q: Pair) returns (i: nat)
    requires IsFront(pairs, plot) && q in plot
    ensures i < |pairs| && Beats(pairs[i], q)
  {
    hide Undominated;
    hide Rising;
    assert Covered(q, pairs);
    var f :| f in pairs && Beats(f, q);
    i :| 0 <= i < |pairs| && pairs[i] == f;
  }

  /** Points of the input, each the first with its pair, and their pairs are the front of the plot: by cost, by
      tokens, or by time. */
  method ParetoFront(points: seq<Point>, axis: Axis) returns (front: seq<Placed>)
    ensures IsFrontOf(front, points, axis)
    ensures axis == Cost ==> FrontBy(front, points, (p: Point) => p.costUsd)
    ensures axis == Tokens ==> FrontBy(front, points, (p: Point) => p.tokens)
    ensures axis == Time ==> FrontBy(front, points, (p: Point) => p.durationS)
  {
    hide FrontBy;
    hide IsFront;
    hide Before;
    hide Usable;
    hide FirstOfPair;
    hide LeadsItsPair;
    var le := (a, b) => Before(a, b, axis);
    var usable := UsableFrom(points, axis, 0);
    var sorted := Sorting.Sort(usable, le);
    SortedUsable(points, sorted, axis);
    front := Sweep(sorted, axis);
    forall i | 0 <= i < |front| ensures IsPlaced(points, front[i], axis) && FirstOfPair(points, front[i].at, axis) {
      LeadingIsFirst(points, sorted, axis, front[i]);
    }
    match axis
    case Cost => FrontByField(front, points, axis, (p: Point) => p.costUsd);
    case Tokens => FrontByField(front, points, axis, (p: Point) => p.tokens);
    case Time => FrontByField(front, points, axis, (p: Point) => p.durationS);
  }

  /** What the sort hands to the pass. */
  ghost predicate IsSorted(points: seq<Point>, sorted: seq<Placed>, axis: Axis) {
    && (forall i :: 0 <= i < |sorted| ==> IsPlaced(points, sorted[i], axis))
    && (forall k :: 0 <= k < |points| && Usable(points[k], axis) ==> Placed(k, points[k]) in sorted)
    && InOrder(PairsOf(sorted, axis)) && EqualsInInputOrder(sorted, axis)
  }

  ghost predicate EqualsInInputOrder(sorted: seq<Placed>, axis: Axis)
    requires AllUsable(sorted, axis)
  {
    forall i, j :: 0 <= i < j < |sorted| && PairOf(sorted[i].point, axis) == PairOf(sorted[j].point, axis) ==> sorted[i].at < sorted[j].at
  }

  lemma SortedUsable(points: seq<Point>, sorted: seq<Placed>, axis: Axis)
    requires sorted == Sorting.Sort(UsableFrom(points, axis, 0), (a, b) => Before(a, b, axis))
    ensures IsSorted(points, sorted, axis) && SetOf(PairsOf(sorted, axis)) == Plotted(points, axis)
  {
    hide Usable;
    hide PairOf;
    hide Earlier;
    hide UsableFrom;
    hide Sorting.Sort;
    hide Sooner;
    var le := (a, b) => Before(a, b, axis);
    var usable := UsableFrom(points, axis, 0);
    BeforePreorder(axis);
    Sorting.SortSorted(usable, le);
    Sorting.SortStable(usable, le, (f: Placed) => f.at);
    forall f ensures f in sorted <==> f in usable { Sorting.SortMembers(usable, le, f); }
    forall i | 0 <= i < |sorted| ensures IsPlaced(points, sorted[i], axis) { assert sorted[i] in sorted; }
    forall i, j | 0 <= i < j < |sorted|
      ensures Sooner(PairOf(sorted[i].point, axis), PairOf(sorted[j].point, axis))
      ensures PairOf(sorted[i].point, axis) == PairOf(sorted[j].point, axis) ==> sorted[i].at < sorted[j].at
    {
      assert le(sorted[i], sorted[j]);
      BeforeIsSooner(sorted[i], sorted[j], axis);
      BeforeIsSooner(sorted[j], sorted[i], axis);
    }
    SamePlot(points, sorted, axis);
  }

  lemma BeforeIsSooner(a: Placed, b: Placed, axis: Axis)
    requires Usable(a.point, axis) && Usable(b.point, axis)
    ensures Before(a, b, axis) <==> Sooner(PairOf(a.point, axis), PairOf(b.point, axis))
    ensures PairOf(a.point, axis) == PairOf(b.point, axis) ==> Before(a, b, axis)
  {
  }

  lemma SamePlot(points: seq<Point>, sorted: seq<Placed>, axis: Axis)
    requires IsSorted(points, sorted, axis)
    ensures SetOf(PairsOf(sorted, axis)) == Plotted(points, axis)
  {
    hide Usable;
    hide PairOf;
    hide InOrder;
    hide EqualsInInputOrder;
    var pairs := PairsOf(sorted, axis);
    forall q ensures q in pairs <==> q in Plotted(points, axis) {
      if q in pairs {
        var i :| 0 <= i < |pairs| && pairs[i] == q;
        assert IsPlaced(points, sorted[i], axis) && sorted[i].point in points;
      }
      if q in Plotted(points, axis) {
        var p :| p in points && Usable(p, axis) && PairOf(p, axis) == q;
        var k :| 0 <= k < |points| && points[k] == p;
        var i :| 0 <= i < |sorted| && sorted[i] == Placed(k, points[k]);
        assert pairs[i] == q;
      }
    }
  }

  function SetOf(pairs: seq<Pair>): set<Pair> {
    set q | q in pairs
  }

  /** `f` is where the pass first meets its pair. */
  ghost predicate LeadsItsPair(sorted: seq<Placed>, axis: Axis, f: Placed)
    requires AllUsable(sorted, axis)
  {
    exists m :: 0 <= m < |sorted| && sorted[m] == f && PairIsNewAt(PairsOf(sorted, axis), m)
  }

  ghost predicate PairIsNewAt(pairs: seq<Pair>, m: nat)
    requires m < |pairs|
  {
    forall j :: 0 <= j < m ==> pairs[j] != pairs[m]
  }

  /** Since the sort keeps equals in input order, the pass meets first what the input has first. */
  lemma LeadingIsFirst(points: seq<Point>, sorted: seq<Placed>, axis: Axis, f: Placed)
    requires IsSorted(points, sorted, axis) && LeadsItsPair(sorted, axis, f)
    ensures IsPlaced(points, f, axis) && FirstOfPair(points, f.at, axis)
  {
    hide Usable;
    hide PairOf;
    hide InOrder;
    var m :| 0 <= m < |sorted| && sorted[m] == f && PairIsNewAt(PairsOf(sorted, axis), m);
    assert IsPlaced(points, sorted[m], axis);
    forall j | 0 <= j < f.at && Usable(points[j], axis) ensures PairOf(points[j], axis) != PairOf(points[f.at], axis) {
      assert Placed(j, points[j]) in sorted;
      var i :| 0 <= i < |sorted| && sorted[i] == Placed(j, points[j]);
      assert PairsOf(sorted, axis)[i] == PairOf(points[j], axis) && PairsOf(sorted, axis)[m] == PairOf(f.point, axis);
    }
  }

  predicate Sooner(p: Pair, q: Pair) {
    p.x < q.x || (p.x == q.x && p.y >= q.y)
  }

  ghost predicate InOrder(pairs: seq<Pair>) {
    forall i, j :: 0 <= i < j < |pairs| ==> Sooner(pairs[i], pairs[j])
  }

  /** What the pass has after `k` pairs. */
  ghost predicate Swept(front: seq<Pair>, pairs: seq<Pair>, k: nat)
    requires k <= |pairs|
  {
    && (front == [] ==> k == 0)
    && Rising(front)
    && (forall f :: f in front ==> f in pairs[..k] && forall j :: 0 <= j < |pairs| ==> !Dominates(pairs[j], f))
    && (forall j :: 0 <= j < k ==> Covered(pairs[j], front) && front != [] && pairs[j].y <= front[|front| - 1].y)
  }

  lemma SweepStep(front: seq<Pair>, pairs: seq<Pair>, k: nat)
    requires k < |pairs| && InOrder(pairs) && Swept(front, pairs, k)
    ensures Swept(if front == [] || pairs[k].y > front[|front| - 1].y then front + [pairs[k]] else front, pairs, k + 1)
  {
    hide Swept;
    if front == [] || pairs[k].y > front[|front| - 1].y { SweepKeeps(front, pairs, k); } else { SweepSkips(front, pairs, k); }
  }

  lemma SweepKeeps(front: seq<Pair>, pairs: seq<Pair>, k: nat)
    requires k < |pairs| && InOrder(pairs) && Swept(front, pairs, k) && (front == [] || pairs[k].y > front[|front| - 1].y)
    ensures Swept(front + [pairs[k]], pairs, k + 1)
  {
    hide Dominates;
    hide Covered;
    hide Rising;
    hide InOrder;
    var p := pairs[k];
    assert pairs[..k + 1] == pairs[..k] + [p];
    forall i | 0 <= i < |front| ensures front[i].x < p.x && front[i].y < p.y { FrontBelow(front, pairs, k, i); }
    Push(front, p);
    forall j | 0 <= j < |pairs| ensures !Dominates(pairs[j], p) { NotBeaten(front, pairs, k, j); }
  }

  lemma Push(front: seq<Pair>, p: Pair)
    requires Rising(front) && forall i :: 0 <= i < |front| ==> front[i].x < p.x && front[i].y < p.y
    ensures Rising(front + [p]) && Covered(p, front + [p])
    ensures forall q :: Covered(q, front) ==> Covered(q, front + [p])
  {
    assert p in front + [p] && Beats(p, p);
    forall q | Covered(q, front) ensures Covered(q, front + [p]) {
      var f :| f in front && Beats(f, q);
      assert f in front + [p];
    }
  }

  lemma NotBeaten(front: seq<Pair>, pairs: seq<Pair>, k: nat, j: nat)
    requires k < |pairs| && j < |pairs| && InOrder(pairs) && Swept(front, pairs, k)
    requires front == [] || pairs[k].y > front[|front| - 1].y
    ensures !Dominates(pairs[j], pairs[k])
  {
    hide Rising;
    hide Covered;
    if k < j { assert Sooner(pairs[k], pairs[j]); }
  }

  lemma SweepSkips(front: seq<Pair>, pairs: seq<Pair>, k: nat)
    requires k < |pairs| && InOrder(pairs) && Swept(front, pairs, k) && front != [] && pairs[k].y <= front[|front| - 1].y
    ensures Swept(front, pairs, k + 1)
  {
    LastCovers(front, pairs, k);
    hide Dominates;
    hide Rising;
    hide Covered;
    assert pairs[..k + 1] == pairs[..k] + [pairs[k]];
  }

  lemma LastCovers(front: seq<Pair>, pairs: seq<Pair>, k: nat)
    requires k < |pairs| && InOrder(pairs) && Swept(front, pairs, k) && front != [] && pairs[k].y <= front[|front| - 1].y
    ensures Covered(pairs[k], front)
  {
    hide Dominates;
    hide Rising;
    var last := front[|front| - 1];
    assert last in front;
    assert last in pairs[..k];
    var j :| 0 <= j < k && pairs[j] == last;
    assert Sooner(last, pairs[k]);
    assert Beats(last, pairs[k]);
  }

  lemma FrontBelow(front: seq<Pair>, pairs: seq<Pair>, k: nat, i: nat)
    requires k < |pairs| && InOrder(pairs) && Swept(front, pairs, k) && i < |front| && pairs[k].y > front[|front| - 1].y
    ensures front[i].x < pairs[k].x && front[i].y < pairs[k].y
  {
    assert front[i] in front;
    var j :| 0 <= j < k && pairs[j] == front[i];
    assert Sooner(pairs[j], pairs[k]) && pairs[j].y <= front[|front| - 1].y;
  }

  /** One pass over the sorted points, keeping each that raises the best rate. */
  method Sweep(sorted: seq<Placed>, axis: Axis) returns (front: seq<Placed>)
    requires AllUsable(sorted, axis) && InOrder(PairsOf(sorted, axis))
    ensures AllUsable(front, axis) && IsFront(PairsOf(front, axis), SetOf(PairsOf(sorted, axis)))
    ensures forall i :: 0 <= i < |front| ==> LeadsItsPair(sorted, axis, front[i])
  {
    hide Swept;
    hide IsFront;
    hide InOrder;
    hide AxisValue;
    hide LeadsItsPair;
    ghost var pairs := PairsOf(sorted, axis);
    front := [];
    SweepStart(pairs);
    var bestY: Option<real> := None;
    for k := 0 to |sorted|
      invariant AllUsable(front, axis) && forall i :: 0 <= i < |front| ==> LeadsItsPair(sorted, axis, front[i])
      invariant Swept(PairsOf(front, axis), pairs, k)
      invariant bestY == if front == [] then None else Some(PairsOf(front, axis)[|front| - 1].y)
    {
      SweepStep(PairsOf(front, axis), pairs, k);
      var y := sorted[k].point.passRate.value;
      if bestY == None || y > bestY.value {
        NewPair(PairsOf(front, axis), sorted, axis, k);
        assert PairsOf(front + [sorted[k]], axis) == PairsOf(front, axis) + [pairs[k]];
        front := front + [sorted[k]];
        bestY := Some(y);
      }
    }
    SweepEnd(PairsOf(front, axis), pairs);
  }

  /** A point that raises the best rate has a pair not met before. */
  lemma NewPair(front: seq<Pair>, sorted: seq<Placed>, axis: Axis, k: nat)
    requires AllUsable(sorted, axis) && k < |sorted| && Swept(front, PairsOf(sorted, axis), k)
    requires front == [] || PairsOf(sorted, axis)[k].y > front[|front| - 1].y
    ensures LeadsItsPair(sorted, axis, sorted[k])
  {
    hide Usable;
    hide PairOf;
    hide Rising;
    hide Dominates;
    hide Covered;
    assert PairIsNewAt(PairsOf(sorted, axis), k);
  }

  lemma SweepStart(pairs: seq<Pair>)
    ensures Swept([], pairs, 0)
  {
  }

  lemma SweepEnd(front: seq<Pair>, pairs: seq<Pair>)
    requires Swept(front, pairs, |pairs|)
    ensures IsFront(front, SetOf(pairs))
  {
    hide Covered;
    hide Rising;
    hide Dominates;
    assert pairs[..|pairs|] == pairs;
    forall f, p | f in front && p in SetOf(pairs) ensures !Dominates(p, f) {
      var j :| 0 <= j < |pairs| && pairs[j] == p;
      assert !Dominates(pairs[j], f);
    }
  }

  /** A pair is in front if and only if it is plotted and no plotted pair dominates it. */
  lemma FrontIffUndominated(front: seq<Pair>, plot: set<Pair>, q: Pair)
    requires IsFront(front, plot)
    ensures q in front <==> q in plot && Undominated(q, plot)
  {
    if q in plot && Undominated(q, plot) {
      var f :| f in front && Beats(f, q);
      assert !Dominates(f, q);
    }
  }

  /** The plot fixes the front: neither the input's order nor its duplicates matter. */
  lemma {:induction false} FrontIsUnique(first: seq<Pair>, second: seq<Pair>, plot: set<Pair>)
    requires IsFront(first, plot) && IsFront(second, plot)
    ensures first == second
  {
    forall q ensures q in first <==> q in second {
      FrontIffUndominated(first, plot, q);
      FrontIffUndominated(second, plot, q);
    }
    RisingIsUnique(first, second);
  }

  lemma {:induction false} RisingIsUnique(first: seq<Pair>, second: seq<Pair>)
    requires Rising(first) && Rising(second) && forall q :: q in first <==> q in second
    ensures first == second
  {
    assert first != [] ==> first[0] in second;
    assert second != [] ==> second[0] in first;
    if first != [] {
      SameHead(first, second);
      forall q ensures q in first[1..] <==> q in second[1..] {
        RestOfRising(first, q);
        RestOfRising(second, q);
      }
      RisingIsUnique(first[1..], second[1..]);
      assert first == [first[0]] + first[1..] && second == [second[0]] + second[1..];
    }
  }

  lemma SameHead(first: seq<Pair>, second: seq<Pair>)
    requires first != [] && second != [] && Rising(first) && Rising(second) && first[0] in second && second[0] in first
    ensures first[0] == second[0]
  {
    HeadIsLeast(first, second[0]);
    HeadIsLeast(second, first[0]);
  }

  lemma HeadIsLeast(s: seq<Pair>, q: Pair)
    requires q in s && Rising(s)
    ensures s[0].x < q.x || s[0] == q
  {
  }

  lemma RestOfRising(s: seq<Pair>, q: Pair)
    requires s != [] && Rising(s)
    ensures q in s[1..] <==> q in s && q != s[0]
  {
    assert s == [s[0]] + s[1..];
    if q in s[1..] {
      var i :| 0 <= i < |s[1..]| && s[1..][i] == q;
      assert s[i + 1] == q;
    }
  }

  predicate OnFront(front: seq<Placed>, points: seq<Point>, k: nat)
    requires k < |points|
  {
    Placed(k, points[k]) in front
  }

  /** No plotted point is better: what the comment on the function asks of a point of the front. */
  ghost predicate NoneBetter(points: seq<Point>, k: nat, axis: Axis)
    requires k < |points| && Usable(points[k], axis)
  {
    Undominated(PairOf(points[k], axis), Plotted(points, axis))
  }

  /** A point is on the front iff no plotted point is better and it is the first of the input with its pair. */
  lemma OnFrontIff(front: seq<Placed>, points: seq<Point>, axis: Axis, k: nat)
    requires IsFrontOf(front, points, axis) && k < |points| && Usable(points[k], axis)
    ensures OnFront(front, points, k) <==> NoneBetter(points, k, axis) && FirstOfPair(points, k, axis)
  {
    hide Usable;
    hide PairOf;
    hide IsFront;
    hide Undominated;
    var (q, pairs) := (PairOf(points[k], axis), PairsOf(front, axis));
    assert points[k] in points && q in Plotted(points, axis);
    FrontIffUndominated(pairs, Plotted(points, axis), q);
    if OnFront(front, points, k) {
      var i :| 0 <= i < |front| && front[i] == Placed(k, points[k]);
      assert pairs[i] == q && IsPlaced(points, front[i], axis);
    }
    if q in pairs && FirstOfPair(points, k, axis) {
      var i :| 0 <= i < |pairs| && pairs[i] == q;
      assert IsPlaced(points, front[i], axis) && FirstOfPair(points, front[i].at, axis);
    }
  }

  /** Two points of the input share a pair that none beats. */
  ghost predicate UndominatedTie(points: seq<Point>, axis: Axis, j: nat, k: nat) {
    && j < k < |points| && Usable(points[j], axis) && Usable(points[k], axis)
    && PairOf(points[j], axis) == PairOf(points[k], axis) && NoneBetter(points, k, axis)
  }

  /** "A point is on the front iff no other plotted point is better" holds of exactly those inputs in which no
      two points share an undominated pair. */
  lemma CommentHoldsIff(front: seq<Placed>, points: seq<Point>, axis: Axis)
    requires IsFrontOf(front, points, axis)
    ensures (forall k: nat :: k < |points| && Usable(points[k], axis) ==> (OnFront(front, points, k) <==> NoneBetter(points, k, axis)))
       <==> (forall j: nat, k: nat :: !UndominatedTie(points, axis, j, k))
  {
    hide Usable;
    hide PairOf;
    hide IsFrontOf;
    hide OnFront;
    hide NoneBetter;
    forall k: nat | k < |points| && Usable(points[k], axis)
      ensures OnFront(front, points, k) <==> NoneBetter(points, k, axis) && FirstOfPair(points, k, axis)
    {
      OnFrontIff(front, points, axis, k);
    }
    if j: nat, k: nat :| UndominatedTie(points, axis, j, k) {
      assert !FirstOfPair(points, k, axis);
    } else {
      forall k: nat | k < |points| && Usable(points[k], axis) && NoneBetter(points, k, axis) ensures FirstOfPair(points, k, axis) {
        forall j | 0 <= j < k && Usable(points[j], axis) ensures PairOf(points[j], axis) != PairOf(points[k], axis) {
          assert !UndominatedTie(points, axis, j, k);
        }
      }
    }
  }

  /** Each undominated pair has exactly one point on the front, the first of the input with that pair. */
  lemma OneForEachPair(front: seq<Placed>, points: seq<Point>, axis: Axis, q: Pair)
    requires IsFrontOf(front, points, axis) && q in Plotted(points, axis) && Undominated(q, Plotted(points, axis))
    ensures exists i :: && 0 <= i < |front| && PairOf(front[i].point, axis) == q && FirstOfPair(points, front[i].at, axis)
                        && forall j :: 0 <= j < |front| && PairOf(front[j].point, axis) == q ==> j == i
  {
    hide Usable;
    hide PairOf;
    hide FirstOfPair;
    hide Undominated;
    var pairs := PairsOf(front, axis);
    FrontIffUndominated(pairs, Plotted(points, axis), q);
    var i :| 0 <= i < |pairs| && pairs[i] == q;
    forall j | 0 <= j < |front| && PairOf(front[j].point, axis) == q ensures j == i {
      assert pairs[j] == q;
    }
  }

  /** The comment fails on any two points with the same pair alone: nothing beats the second, which is left out. */
  lemma TiesKeepOne(front: seq<Placed>, a: Point, b: Point, axis: Axis)
    requires Usable(a, axis) && Usable(b, axis) && PairOf(a, axis) == PairOf(b, axis) && IsFrontOf(front, [a, b], axis)
    ensures NoneBetter([a, b], 1, axis) && OnFront(front, [a, b], 0) && !OnFront(front, [a, b], 1)
  {
    hide Usable;
    hide PairOf;
    hide Beats;
    hide IsFrontOf;
    hide OnFront;
    var plot := Plotted([a, b], axis);
    forall p | p in plot ensures p == PairOf(a, axis) {}
    OnFrontIff(front, [a, b], axis, 0);
    OnFrontIff(front, [a, b], axis, 1);
    assert !FirstOfPair([a, b], 1, axis);
  }
}
