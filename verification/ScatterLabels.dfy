/** Greedy placement of the scatter plot's labels, over exact reals. Text measurement and the
    leader line are given functions. */
module ScatterLabels {
  import opened Wrappers
  import opened LabelGeometry
  import Sorting

  const ELLIPSIS: string := "…"

  // ---- preparing the items -----------------------------------------------------------------------

  /** The text cut to its first `k` characters fits. */
  predicate Fits(text: string, k: nat, maxW: real, measure: string -> real)
    requires k <= |text|
  {
    measure(text[..k] + ELLIPSIS) <= maxW
  }

  /** Measured width does not shrink as the cut text grows. */
  ghost predicate Monotone(text: string, measure: string -> real) {
    forall i, j :: 0 <= i <= j <= |text| ==> measure(text[..i] + ELLIPSIS) <= measure(text[..j] + ELLIPSIS)
  }

  /** The bisection keeps the whole text if it fits; otherwise the result fits, or is the bare ellipsis; and
      when width grows with the text, no longer cut fits. */
  method TruncateToWidth(text: string, maxW: real, measure: string -> real) returns (cut: string)
    ensures measure(text) <= maxW ==> cut == text
    ensures measure(cut) <= maxW || cut == ELLIPSIS
    ensures measure(text) > maxW ==> exists k ::
                0 <= k <= |text| && cut == text[..k] + ELLIPSIS
                && (Monotone(text, measure) ==> forall j :: k < j <= |text| ==> !Fits(text, j, maxW, measure))
  {
    if measure(text) <= maxW { return text; }
    var lo, hi := 0, |text|;
    while lo < hi
      invariant 0 <= lo <= hi <= |text|
      invariant lo == 0 || Fits(text, lo, maxW, measure)
      invariant Monotone(text, measure) ==> forall j :: hi < j <= |text| ==> !Fits(text, j, maxW, measure)
      decreases hi - lo
    {
      var mid := (lo + hi + 1) / 2;
      if measure(text[..mid] + ELLIPSIS) <= maxW {
        lo := mid;
      } else {
        hi := mid - 1;
      }
    }
    cut := if lo <= 0 then ELLIPSIS else text[..lo] + ELLIPSIS;
    assert text[..0] + ELLIPSIS == ELLIPSIS;
    assert cut == text[..lo] + ELLIPSIS;
  }

  datatype Item = Item(at: Point, text: string, extraW: Option<real>)

  datatype Prepared = Prepared(at: Point, text: string, extraW: real, textW: real, w: real, h: real)

  function Ceil(x: real): int {
    -((-x).Floor)
  }

  /** The prepared item keeps its point, is never empty, and reserves room for the whole measured text: the
      width is cut only when the text needs its last two units. */
  method Prepare(item: Item, fontPx: real, measure: string -> real) returns (p: Prepared)
    requires fontPx > 0.0
    ensures p.at == item.at && p.h == 1.3 * fontPx && p.w > 0.0
    ensures p.extraW == if item.extraW.Some? && item.extraW.value >= 0.0 then item.extraW.value else 0.0
    ensures 8.0 <= p.textW && measure(p.text) + 2.0 <= p.textW && (p.textW == 8.0 || p.textW < measure(p.text) + 3.0)
    ensures p.w - p.extraW == if p.textW <= 13.0 * fontPx then p.textW else 13.0 * fontPx
    ensures p.text == ELLIPSIS || p.w - p.extraW >= measure(p.text)
    ensures measure(item.text) <= 13.0 * fontPx ==> p.text == item.text
  {
    var maxLabelW := fontPx * 13.0;
    var extraW := MaxR(0.0, if item.extraW.Some? then item.extraW.value else 0.0);
    var text := TruncateToWidth(item.text, maxLabelW, measure);
    var textW := MaxR(8.0, Ceil(measure(text) + 2.0) as real);
    p := Prepared(item.at, text, extraW, textW, MinR(maxLabelW + extraW, textW + extraW), fontPx * 1.3);
  }

  // ---- the order of placement ----------------------------------------------------------------------

  const NEIGHBOR_R: real := 56.0

  function Neighbors(items: seq<Prepared>, i: nat, n: nat): nat
    requires i < |items| && n <= |items|
  {
    if n == 0 then 0
    else Neighbors(items, i, n - 1)
         + if n - 1 != i && SquaredDistance(items[i].at, items[n - 1].at) < Square(NEIGHBOR_R) then 1 else 0
  }

  /** Crowded first, then wide, then left, then high: the sort's comparison is at most zero. */
  predicate Before(items: seq<Prepared>, a: nat, b: nat) {
    if a >= |items| || b >= |items| then a <= b
    else
      var (na, nb) := (Neighbors(items, a, |items|), Neighbors(items, b, |items|));
      if na != nb then na > nb
      else if items[a].w != items[b].w then items[a].w > items[b].w
      else if items[a].at.x != items[b].at.x then items[a].at.x < items[b].at.x
      else items[a].at.y <= items[b].at.y
  }

  function Indices(n: nat): (s: seq<nat>)
    ensures |s| == n && forall i :: 0 <= i < n ==> s[i] == i
  {
    seq(n, i => i)
  }

  function Order(items: seq<Prepared>): seq<nat> {
    Sorting.Sort(Indices(|items|), (a, b) => Before(items, a, b))
  }

  /** The order visits every index once, the more crowded first. */
  lemma OrderVisitsAll(items: seq<Prepared>)
    ensures |Order(items)| == |items| && Sorting.Distinct(Order(items))
    ensures forall i: nat :: i in Order(items) <==> i < |items|
  {
    var le := (a, b) => Before(items, a, b);
    Sorting.SortPerm(Indices(|items|), le);
    Sorting.SortDistinct(Indices(|items|), le);
    forall i: nat ensures i in Order(items) <==> i < |items| {
      Sorting.SortMembers(Indices(|items|), le, i);
      if i < |items| { assert Indices(|items|)[i] == i; }
    }
  }

  /** The items around an item. */
  function Around(items: seq<Prepared>, i: nat, n: nat): set<nat>
    requires i < |items| && n <= |items|
  {
    set j: nat | j < n && j != i && SquaredDistance(items[i].at, items[j].at) < Square(NEIGHBOR_R)
  }

  lemma {:induction false} NeighborsAreAround(items: seq<Prepared>, i: nat, n: nat)
    requires i < |items| && n <= |items|
    ensures Neighbors(items, i, n) == |Around(items, i, n)|
  {
    hide SquaredDistance;
    if n == 0 {
      assert Around(items, i, 0) == {};
    } else {
      hide Around;
      NeighborsAreAround(items, i, n - 1);
      AroundGrows(items, i, n - 1);
    }
  }

  lemma AroundGrows(items: seq<Prepared>, i: nat, n: nat)
    requires i < |items| && n < |items|
    ensures |Around(items, i, n + 1)|
         == |Around(items, i, n)| + if n != i && SquaredDistance(items[i].at, items[n].at) < Square(NEIGHBOR_R) then 1 else 0
  {
    hide SquaredDistance;
    hide Square;
    if n != i && SquaredDistance(items[i].at, items[n].at) < Square(NEIGHBOR_R) {
      assert Around(items, i, n + 1) == Around(items, i, n) + {n};
    } else {
      assert Around(items, i, n + 1) == Around(items, i, n);
    }
  }

  /** Who has more items within 56 around comes first; of equals the wider, then the one farther left, then the
      higher one, then the one that came first. */
  lemma CrowdedFirst(items: seq<Prepared>, i: nat, j: nat)
    requires i < j < |Order(items)|
    ensures Order(items)[i] < |items| && Order(items)[j] < |items|
    ensures var (a, b) := (Order(items)[i], Order(items)[j]);
            var (p, q) := (items[a], items[b]);
            var (na, nb) := (|Around(items, a, |items|)|, |Around(items, b, |items|)|);
            && na >= nb
            && (na == nb ==> p.w >= q.w)
            && (na == nb && p.w == q.w ==> p.at.x <= q.at.x)
            && (na == nb && p.w == q.w && p.at.x == q.at.x ==> p.at.y <= q.at.y)
            && (na == nb && p.w == q.w && p.at == q.at ==> a < b)
  {
    var le := (a: nat, b: nat) => Before(items, a, b);
    OrderVisitsAll(items);
    assert Order(items)[i] in Order(items) && Order(items)[j] in Order(items);
    BeforePreorder(items);
    Sorting.SortSorted(Indices(|items|), le);
    Sorting.SortStable(Indices(|items|), le, (k: nat) => k);
    var (a, b) := (Order(items)[i], Order(items)[j]);
    assert le(a, b);
    NeighborsAreAround(items, a, |items|);
    NeighborsAreAround(items, b, |items|);
    hide Neighbors;
    hide Around;
    assert le(b, a) ==> a < b;
  }

  lemma BeforePreorder(items: seq<Prepared>)
    ensures Sorting.TotalPreorder((a: nat, b: nat) => Before(items, a, b))
  {
    hide Neighbors;
  }

  // ---- candidates ------------------------------------------------------------------------------------

  datatype Anchor = Start | Middle | End

  datatype Direction = Direction(dx: int, dy: int, anchor: Anchor)

  const COMPASS: seq<Direction> := [
    Direction(0, 1, Middle), Direction(1, 1, Start), Direction(-1, 1, End), Direction(1, 0, Start),
    Direction(-1, 0, End), Direction(0, -1, Middle), Direction(1, -1, Start), Direction(-1, -1, End)]

  const RINGS: seq<real> := [10.0, 22.0, 36.0, 54.0, 76.0, 102.0, 132.0]

  /** Rings times directions. */
  const CANDIDATES: nat := 56

  const MIN_LEADER: real := 26.0

  datatype Leader = Leader(start: Point, end: Point, a: Point, b: Point, c: Point)

  datatype Label = Label(text: string, extraW: real, textW: real, box: Rect, at: Point, anchor: Anchor, leader: Option<Leader>)

  function PlacedFrom(item: Prepared, box: Rect, anchor: Anchor, leader: Option<Leader>): Label {
    var tx := match anchor case Start => box.x case End => box.x + box.w case Middle => box.x + box.w / 2.0;
    Label(item.text, item.extraW, item.textW, box, Point(tx, box.y + box.h * 0.78), anchor, leader)
  }

  /** A shared area costs a fixed charge and itself. */
  function Charged(area: real, charge: real): (r: real)
    requires area >= 0.0 && charge >= 0.0
    ensures r >= 0.0
  {
    if area > 0.0 then charge + area else 0.0
  }

  /** What one placed label costs a candidate: shared area, a crossed leader, a leader across its text. */
  function Clash(box: Rect, leader: Option<Leader>, other: Label): (r: real)
    ensures r >= 0.0 && (OverlapArea(box, other.box) > 0.0 ==> r >= 4000.0)
  {
    Charged(OverlapArea(box, other.box), 4000.0)
    + (if leader.Some? && other.leader.Some?
          && SegmentsCross(leader.value.start, leader.value.end, other.leader.value.start, other.leader.value.end) then 55.0 else 0.0)
    + (if leader.Some? && NearSegment(other.at, leader.value.start, leader.value.end, 8.0) then 40.0 else 0.0)
  }

  /** Everything that stays fixed during one placement. `leader`, of an item and its box, is left
      uninterpreted. */
  datatype Scene = Scene(
    items: seq<Prepared>, bounds: Bounds, obstacles: seq<Rect>, dotR: real,
    leader: (nat, Rect) -> Option<Leader>)
  {
    /** The candidates of item `i` in the order tried. */
    function Raw(i: nat, k: nat): Rect
      requires i < |items| && k < CANDIDATES
    {
      var d := COMPASS[k % 8];
      BoxFor(items[i].at, items[i].w, items[i].h, d.dx, d.dy, RINGS[k / 8])
    }

    function Box(i: nat, k: nat): Rect
      requires i < |items| && k < CANDIDATES
    {
      ClampBox(Raw(i, k), bounds)
    }

    function Candidate(i: nat, k: nat): Label
      requires i < |items| && k < CANDIDATES
    {
      PlacedFrom(items[i], Box(i, k), COMPASS[k % 8].anchor, leader(i, Box(i, k)))
    }

    /** The clearance a box must keep from a point: one more than the dot for its own, two dots else. */
    function Clearance(i: nat, j: nat): real {
      if i == j then dotR + 1.0 else dotR * 2.0
    }

    /** The box covers no point of the plot. */
    ghost predicate CoversNoPoint(i: nat, box: Rect) {
      forall j :: 0 <= j < |items| ==> !CircleHitsBox(items[j].at, Clearance(i, j), box)
    }

    ghost predicate Apart(box: Rect, placed: seq<Label>) {
      forall p :: 0 <= p < |placed| ==> !BoxesOverlap(box, placed[p].box, BOX_GAP)
    }

    predicate Far(i: nat, box: Rect)
      requires i < |items|
    {
      SquaredDistance(items[i].at, ClosestOnRect(items[i].at, box)) >= Square(MIN_LEADER)
    }

    /** A candidate that survives the first pass. */
    ghost predicate Clear(i: nat, k: nat, placed: seq<Label>)
      requires i < |items| && k < CANDIDATES
    {
      && Apart(Box(i, k), placed)
      && CoversNoPoint(i, Box(i, k))
      && (Far(i, Box(i, k)) ==> leader(i, Box(i, k)).Some?)
    }

    // What a candidate is charged: for its place, its leader, the labels, points and obstacles in its way.

    function Place(i: nat, k: nat): real
      requires i < |items| && k < CANDIDATES
    {
      var (raw, box) := (Raw(i, k), Box(i, k));
      (k / 8 * 10 + k % 8) as real + (Abs(box.x - raw.x) + Abs(box.y - raw.y)) * 0.15
    }

    function Leading(i: nat, k: nat): real
      requires i < |items| && k < CANDIDATES
    {
      if Far(i, Box(i, k)) then if leader(i, Box(i, k)).Some? then 6.0 else 2500.0 else -4.0
    }

    function Labels(i: nat, k: nat, placed: seq<Label>, n: nat): (r: real)
      requires i < |items| && k < CANDIDATES && n <= |placed|
      ensures r >= 0.0
    {
      if n == 0 then 0.0 else Labels(i, k, placed, n - 1) + Clash(Box(i, k), leader(i, Box(i, k)), placed[n - 1])
    }

    function Points(i: nat, k: nat, n: nat): (r: real)
      requires i < |items| && k < CANDIDATES && n <= |items|
      ensures r >= 0.0
    {
      if n == 0 then 0.0
      else Points(i, k, n - 1) + if n - 1 != i && CircleHitsBox(items[n - 1].at, dotR * 2.0, Box(i, k)) then 900.0 else 0.0
    }

    function Obstacles(i: nat, k: nat, n: nat): (r: real)
      requires i < |items| && k < CANDIDATES && n <= |obstacles|
      ensures r >= 0.0
    {
      if n == 0 then 0.0 else Obstacles(i, k, n - 1) + Charged(OverlapArea(Box(i, k), obstacles[n - 1]), 200.0)
    }

    /** `candidateScore`. */
    function Score(i: nat, k: nat, placed: seq<Label>): real
      requires i < |items| && k < CANDIDATES
    {
      Place(i, k) + Leading(i, k) + Labels(i, k, placed, |placed|) + Points(i, k, |items|)
      + (if CircleHitsBox(items[i].at, dotR + 1.0, Box(i, k)) then 1200.0 else 0.0) + Obstacles(i, k, |obstacles|)
    }

    /** Candidate `k` has the least score among the first `n` allowed ones, the earliest of equals. */
    ghost predicate Least(i: nat, k: nat, n: nat, placed: seq<Label>, clear: bool)
      requires i < |items| && n <= CANDIDATES
    {
      && k < n && (clear ==> Clear(i, k, placed))
      && (forall j :: 0 <= j < n && (clear ==> Clear(i, j, placed)) ==> Score(i, k, placed) <= Score(i, j, placed))
      && (forall j :: 0 <= j < k && (clear ==> Clear(i, j, placed)) ==> Score(i, k, placed) < Score(i, j, placed))
    }

    ghost predicate NoneClear(i: nat, n: nat, placed: seq<Label>)
      requires i < |items| && n <= CANDIDATES
    {
      forall j :: 0 <= j < n ==> !Clear(i, j, placed)
    }

    /** A clear candidate below 50 among the first `n`. */
    ghost predicate GoodEnough(i: nat, n: nat, placed: seq<Label>)
      requires i < |items| && n <= CANDIDATES
    {
      exists j :: 0 <= j < n && Clear(i, j, placed) && Score(i, j, placed) < 50.0
    }

    /** What the first pass chooses: the least clear candidate of the rings up to the first that brings a
        score below 50. */
    ghost predicate FirstChoice(i: nat, k: nat, placed: seq<Label>)
      requires i < |items|
    {
      exists rings :: 1 <= rings <= 7 && Least(i, k, 8 * rings, placed, true)
        && !GoodEnough(i, 8 * (rings - 1), placed) && (rings == 7 || GoodEnough(i, 8 * rings, placed))
    }

    /** The label item `i` gets when `placed` are there already. */
    ghost predicate Selected(i: nat, placed: seq<Label>, chosen: Label)
      requires i < |items|
    {
      exists k :: 0 <= k < CANDIDATES && chosen == Candidate(i, k)
        && (if NoneClear(i, CANDIDATES, placed) then Least(i, k, CANDIDATES, placed, false) else FirstChoice(i, k, placed))
    }
  }

  method SomeOverlap(box: Rect, placed: seq<Label>) returns (b: bool)
    ensures b <==> exists p :: 0 <= p < |placed| && BoxesOverlap(box, placed[p].box, BOX_GAP)
  {
    for p := 0 to |placed|
      invariant forall q :: 0 <= q < p ==> !BoxesOverlap(box, placed[q].box, BOX_GAP)
    {
      if BoxesOverlap(box, placed[p].box, BOX_GAP) { return true; }
    }
    return false;
  }

  /** The inner loop's three `continue`s. */
  method IsClear(s: Scene, i: nat, k: nat, placed: seq<Label>) returns (b: bool)
    requires i < |s.items| && k < CANDIDATES
    ensures b <==> s.Clear(i, k, placed)
  {
    var box := s.Box(i, k);
    var overlaps := SomeOverlap(box, placed);
    if overlaps { return false; }
    if CircleHitsBox(s.items[i].at, s.dotR + 1.0, box) {
      assert CircleHitsBox(s.items[i].at, s.Clearance(i, i), box);
      return false;
    }
    for j := 0 to |s.items|
      invariant forall q :: 0 <= q < j && q != i ==> !CircleHitsBox(s.items[q].at, s.Clearance(i, q), box)
    {
      if j != i && CircleHitsBox(s.items[j].at, s.dotR * 2.0, box) {
        assert CircleHitsBox(s.items[j].at, s.Clearance(i, j), box);
        return false;
      }
    }
    return !(s.Far(i, box) && s.leader(i, box) == None);
  }

  /** The best so far over the first `n` candidates. */
  ghost predicate BestOf(s: Scene, i: nat, best: Option<nat>, n: nat, placed: seq<Label>, clear: bool)
    requires i < |s.items| && n <= CANDIDATES
  {
    if best.Some? then s.Least(i, best.value, n, placed, clear)
    else if clear then s.NoneClear(i, n, placed) else n == 0
  }

  function Better(s: Scene, i: nat, best: Option<nat>, k: nat, placed: seq<Label>): Option<nat>
    requires i < |s.items| && k < CANDIDATES && (best.Some? ==> best.value < CANDIDATES)
  {
    if best == None || s.Score(i, k, placed) < s.Score(i, best.value, placed) then Some(k) else best
  }

  /** The loops of `candidateScore`. */
  method CandidateScore(s: Scene, i: nat, k: nat, placed: seq<Label>) returns (score: real)
    requires i < |s.items| && k < CANDIDATES
    ensures score == s.Score(i, k, placed)
  {
    var (raw, box) := (s.Raw(i, k), s.Box(i, k));
    var leader := s.leader(i, box);
    var start := s.Place(i, k) + (if !s.Far(i, box) then -4.0 else if leader.Some? then 6.0 else 2500.0);
    score := start;
    for n := 0 to |placed|
      invariant score == start + s.Labels(i, k, placed, n)
    {
      score := score + Clash(box, leader, placed[n]);
    }
    start := score;
    for n := 0 to |s.items|
      invariant score == start + s.Points(i, k, n)
    {
      if n != i && CircleHitsBox(s.items[n].at, s.dotR * 2.0, box) { score := score + 900.0; }
    }
    if CircleHitsBox(s.items[i].at, s.dotR + 1.0, box) { score := score + 1200.0; }
    start := score;
    for n := 0 to |s.obstacles|
      invariant score == start + s.Obstacles(i, k, n)
    {
      score := score + Charged(OverlapArea(box, s.obstacles[n]), 200.0);
    }
  }

  lemma BestStep(s: Scene, i: nat, best: Option<nat>, k: nat, placed: seq<Label>, clear: bool)
    requires i < |s.items| && k < CANDIDATES && BestOf(s, i, best, k, placed, clear)
    ensures (clear ==> s.Clear(i, k, placed)) ==> BestOf(s, i, Better(s, i, best, k, placed), k + 1, placed, clear)
    ensures clear && !s.Clear(i, k, placed) ==> BestOf(s, i, best, k + 1, placed, clear)
  {
    hide Scene.Clear;
    hide Scene.Score;
  }

  lemma GoodEnoughIff(s: Scene, i: nat, best: Option<nat>, n: nat, placed: seq<Label>)
    requires i < |s.items| && n <= CANDIDATES && BestOf(s, i, best, n, placed, true)
    ensures s.GoodEnough(i, n, placed) <==> best.Some? && s.Score(i, best.value, placed) < 50.0
  {
  }

  lemma BestAtStart(s: Scene, i: nat, placed: seq<Label>, clear: bool)
    requires i < |s.items|
    ensures BestOf(s, i, None, 0, placed, clear) && !s.GoodEnough(i, 0, placed)
  {
  }

  lemma BestIsFirstChoice(s: Scene, i: nat, best: Option<nat>, rings: nat, placed: seq<Label>)
    requires i < |s.items| && 1 <= rings <= 7 && BestOf(s, i, best, 8 * rings, placed, true)
    requires !s.GoodEnough(i, 8 * (rings - 1), placed) && (rings == 7 || s.GoodEnough(i, 8 * rings, placed))
    ensures best == None <==> s.NoneClear(i, CANDIDATES, placed)
    ensures best.Some? ==> best.value < CANDIDATES && s.FirstChoice(i, best.value, placed)
  {
    hide Scene.Clear;
    if best.Some? {
      assert s.Clear(i, best.value, placed);
    } else {
      assert rings == 7;
    }
  }

  method FirstPass(s: Scene, i: nat, placed: seq<Label>) returns (best: Option<nat>)
    requires i < |s.items|
    ensures best == None <==> s.NoneClear(i, CANDIDATES, placed)
    ensures best.Some? ==> best.value < CANDIDATES && s.FirstChoice(i, best.value, placed)
  {
    hide Scene.Clear;
    hide BestOf;
    hide Scene.GoodEnough;
    hide Scene.Least;
    hide Scene.Score;
    BestAtStart(s, i, placed, true);
    best := None;
    var bestScore := 0.0;
    var ring := 0;
    while ring < 7
      invariant 0 <= ring <= 7 && HasScore(s, i, best, bestScore, placed)
      invariant BestOf(s, i, best, 8 * ring, placed, true) && !s.GoodEnough(i, 8 * ring, placed)
      invariant ring == 7 ==> (best == None <==> s.NoneClear(i, CANDIDATES, placed))
      invariant ring == 7 && best.Some? ==> s.FirstChoice(i, best.value, placed)
    {
      for dir := 0 to 8
        invariant BestOf(s, i, best, 8 * ring + dir, placed, true) && HasScore(s, i, best, bestScore, placed)
      {
        var k := 8 * ring + dir;
        BestStep(s, i, best, k, placed, true);
        var clear := IsClear(s, i, k, placed);
        if clear {
          var score := CandidateScore(s, i, k, placed);
          if best == None || score < bestScore { best, bestScore := Some(k), score; }
        }
      }
      GoodEnoughIff(s, i, best, 8 * (ring + 1), placed);
      if best.Some? && bestScore < 50.0 {
        BestIsFirstChoice(s, i, best, ring + 1, placed);
        return;
      }
      if ring == 6 { BestIsFirstChoice(s, i, best, 7, placed); }
      ring := ring + 1;
    }
  }

  ghost predicate HasScore(s: Scene, i: nat, best: Option<nat>, score: real, placed: seq<Label>)
    requires i < |s.items|
  {
    best.Some? ==> best.value < CANDIDATES && score == s.Score(i, best.value, placed)
  }

  /** With no clear candidate, the least of all 56: there always is one. */
  method Fallback(s: Scene, i: nat, placed: seq<Label>) returns (best: Option<nat>)
    requires i < |s.items|
    ensures best.Some? && best.value < CANDIDATES && s.Least(i, best.value, CANDIDATES, placed, false)
  {
    hide Scene.Clear;
    hide Scene.Score;
    best := None;
    var bestScore := 0.0;
    for k := 0 to CANDIDATES
      invariant BestOf(s, i, best, k, placed, false) && HasScore(s, i, best, bestScore, placed)
    {
      BestStep(s, i, best, k, placed, false);
      var score := CandidateScore(s, i, k, placed);
      if best == None || score < bestScore { best, bestScore := Some(k), score; }
    }
  }

  // ---- the whole placement ---------------------------------------------------------------------------

  /** The labels present, in item order. */
  function Present(placed: seq<Option<Label>>): seq<Label> {
    if placed == [] then []
    else (if placed[0].Some? then [placed[0].value] else []) + Present(placed[1..])
  }

  lemma {:induction false} PresentHas(placed: seq<Option<Label>>, i: nat)
    requires i < |placed| && placed[i].Some?
    ensures placed[i].value in Present(placed)
  {
    if i > 0 { PresentHas(placed[1..], i - 1); }
  }

  /** What was placed before the order's position `n`. */
  function Upto(placed: seq<Option<Label>>, order: seq<nat>, n: nat): (r: seq<Option<Label>>)
    requires n <= |order|
    ensures |r| == |placed|
  {
    seq(|placed|, i requires 0 <= i < |placed| => if i in order[..n] then placed[i] else None)
  }

  /** The first `n` items of the order each got the label selected for them, given the earlier ones. */
  ghost predicate LaidOut(s: Scene, order: seq<nat>, placed: seq<Option<Label>>, n: nat)
    requires n <= |order|
  {
    && |placed| == |s.items|
    && forall m :: 0 <= m < n ==>
        && order[m] < |placed| && placed[order[m]].Some?
        && s.Selected(order[m], Present(Upto(placed, order, m)), placed[order[m]].value)
  }

  function Whole(labels: seq<Label>): seq<Option<Label>> {
    seq(|labels|, i requires 0 <= i < |labels| => Some(labels[i]))
  }

  /** A finished layout. */
  ghost predicate IsLayout(s: Scene, labels: seq<Label>) {
    LaidOut(s, Order(s.items), Whole(labels), |Order(s.items)|)
  }

  lemma PlaceOne(s: Scene, order: seq<nat>, placed: seq<Option<Label>>, n: nat, chosen: Label)
    requires n < |order| && Sorting.Distinct(order) && order[n] < |s.items| && LaidOut(s, order, placed, n)
    requires forall i: nat :: i < |placed| ==> (placed[i].Some? <==> i in order[..n])
    requires s.Selected(order[n], Present(placed), chosen)
    ensures var after := placed[order[n] := Some(chosen)];
            LaidOut(s, order, after, n + 1) && forall i: nat :: i < |after| ==> (after[i].Some? <==> i in order[..n + 1])
  {
    hide Scene.Selected;
    hide Present;
    var after := placed[order[n] := Some(chosen)];
    forall m | 0 <= m <= n
      ensures Upto(after, order, m) == Upto(placed, order, m) && (m < n ==> order[m] != order[n])
    {
      assert order[n] !in order[..m];
    }
    assert Upto(placed, order, n) == placed;
    assert order[..n + 1] == order[..n] + [order[n]];
  }

  /** One label per item, at its index; the two default branches never run, since the fallback search
      always chooses and the order visits every index. */
  method PlaceScatterLabels(s: Scene) returns (labels: seq<Label>)
    ensures IsLayout(s, labels)
  {
    hide Scene.Selected;
    hide Scene.NoneClear;
    hide Scene.FirstChoice;
    hide Scene.Least;
    hide Present;
    hide LaidOut;
    var order := Order(s.items);
    OrderVisitsAll(s.items);
    var placed: seq<Option<Label>> := seq(|s.items|, _ => None);
    StartsOut(s, order, placed);
    for n := 0 to |order|
      invariant |placed| == |s.items| && LaidOut(s, order, placed, n)
      invariant forall i: nat :: i < |placed| ==> (placed[i].Some? <==> i in order[..n])
    {
      var i := order[n];
      assert i in order;
      var standing := Present(placed);
      var best := FirstPass(s, i, standing);
      if best == None { best := Fallback(s, i, standing); }
      Selects(s, i, best.value, standing);
      PlaceOne(s, order, placed, n, s.Candidate(i, best.value));
      placed := placed[i := Some(s.Candidate(i, best.value))];
    }
    assert order[..|order|] == order;
    labels := seq(|placed|, i requires 0 <= i < |placed| => placed[i].value);
    assert Whole(labels) == placed;
  }

  lemma StartsOut(s: Scene, order: seq<nat>, placed: seq<Option<Label>>)
    requires |placed| == |s.items|
    ensures LaidOut(s, order, placed, 0)
  {
  }

  lemma Selects(s: Scene, i: nat, k: nat, placed: seq<Label>)
    requires i < |s.items| && k < CANDIDATES
    requires if s.NoneClear(i, CANDIDATES, placed) then s.Least(i, k, CANDIDATES, placed, false) else s.FirstChoice(i, k, placed)
    ensures s.Selected(i, placed, s.Candidate(i, k))
  {
  }

  /** No candidate of the order's `n`-th item was clear when its turn came. */
  ghost predicate FellBack(s: Scene, labels: seq<Label>, n: nat)
    requires n < |Order(s.items)| && Order(s.items)[n] < |s.items|
  {
    s.NoneClear(Order(s.items)[n], CANDIDATES, Present(Upto(Whole(labels), Order(s.items), n)))
  }

  /** Every item's label carries its text, in a candidate box drawn towards the bounds: the far edges stay
      within, and the near ones exactly when the bounds are 8 wide (high) or hold the box. */
  lemma LabelsStayInBounds(s: Scene, labels: seq<Label>, i: nat)
    requires IsLayout(s, labels) && i < |s.items|
    ensures |labels| == |s.items|
    ensures labels[i].text == s.items[i].text && labels[i].extraW == s.items[i].extraW && labels[i].textW == s.items[i].textW
    ensures labels[i].leader == s.leader(i, labels[i].box)
    ensures labels[i].box.w <= s.items[i].w && labels[i].box.h <= s.items[i].h
    ensures labels[i].box.x + labels[i].box.w <= s.bounds.right && labels[i].box.y + labels[i].box.h <= s.bounds.bottom
    ensures s.bounds.left <= labels[i].box.x <==> s.items[i].w <= s.bounds.right - s.bounds.left || 8.0 <= s.bounds.right - s.bounds.left
    ensures s.bounds.top <= labels[i].box.y <==> s.items[i].h <= s.bounds.bottom - s.bounds.top || 8.0 <= s.bounds.bottom - s.bounds.top
  {
    var k := ChosenCandidate(s, labels, i);
    ClampBoxWithin(s.Raw(i, k), s.bounds);
  }

  lemma ChosenCandidate(s: Scene, labels: seq<Label>, i: nat) returns (k: nat)
    requires IsLayout(s, labels) && i < |s.items|
    ensures k < CANDIDATES && |labels| == |s.items| && labels[i] == s.Candidate(i, k)
  {
    hide Scene.NoneClear;
    hide Scene.FirstChoice;
    hide Scene.Least;
    hide Present;
    var order := Order(s.items);
    OrderVisitsAll(s.items);
    assert i in order;
    var n :| 0 <= n < |order| && order[n] == i;
    assert s.Selected(order[n], Present(Upto(Whole(labels), order, n)), labels[i]);
    k :| 0 <= k < CANDIDATES && labels[i] == s.Candidate(i, k);
  }

  // ---- where the text stands ----------------------------------------------------------------------

  /** Every direction is tried once, and a label is anchored on the side of its point. */
  lemma AllDirections(dx: int, dy: int)
    requires -1 <= dx <= 1 && -1 <= dy <= 1 && !(dx == 0 && dy == 0)
    ensures exists d :: 0 <= d < |COMPASS| == 8 && COMPASS[d].dx == dx && COMPASS[d].dy == dy
              && COMPASS[d].anchor == (if dx > 0 then Start else if dx < 0 then End else Middle)
  {
    var d := if dx == 0 then (if dy > 0 then 0 else 5)
             else if dx > 0 then (if dy > 0 then 1 else if dy == 0 then 3 else 6)
             else if dy > 0 then 2 else if dy == 0 then 4 else 7;
    assert COMPASS[d].dx == dx && COMPASS[d].dy == dy;
  }

  /** The text of every label fills the width of its box, seen from the anchor, and stands on a line within the
      box; it is anchored at the start when the candidate, before it was drawn into the bounds, lay right of the
      point, at the end when it lay left of it, and in the middle otherwise. */
  lemma TextStandsInItsBox(s: Scene, labels: seq<Label>, i: nat) returns (k: nat)
    requires IsLayout(s, labels) && i < |s.items| && PositiveSizes(s)
    ensures k < CANDIDATES && i < |labels| && labels[i].box == s.Box(i, k)
    ensures var (it, raw) := (labels[i], s.Raw(i, k));
            && (match it.anchor
                case Start => it.at.x == it.box.x
                case Middle => it.at.x - it.box.w / 2.0 == it.box.x
                case End => it.at.x - it.box.w == it.box.x)
            && it.box.y <= it.at.y <= it.box.y + it.box.h && it.at.y - it.box.y == 0.78 * it.box.h
            && (it.anchor == Start <==> s.items[i].at.x < raw.x)
            && (it.anchor == End <==> raw.x + raw.w < s.items[i].at.x)
  {
    hide IsLayout;
    hide Order;
    k := ChosenCandidate(s, labels, i);
    assert s.items[i].w > 0.0 && s.items[i].h > 0.0;
    AnchorFits(k);
  }

  lemma AnchorFits(k: nat)
    requires k < CANDIDATES
    ensures RINGS[k / 8] > 0.0
    ensures COMPASS[k % 8].anchor == (if COMPASS[k % 8].dx > 0 then Start else if COMPASS[k % 8].dx < 0 then End else Middle)
  {
  }

  // ---- what a score is made of ----------------------------------------------------------------------

  /** The area that a box shares with each of these, added up. */
  function SharedArea(box: Rect, others: seq<Rect>): real {
    if others == [] then 0.0 else SharedArea(box, others[..|others| - 1]) + OverlapArea(box, others[|others| - 1])
  }

  function BoxesOf(placed: seq<Label>): (r: seq<Rect>)
    ensures |r| == |placed| && forall p :: 0 <= p < |r| ==> r[p] == placed[p].box
  {
    seq(|placed|, p requires 0 <= p < |placed| => placed[p].box)
  }

  /** The box and the leader meet these of the labels placed. */
  function Sharing(box: Rect, others: seq<Rect>): set<nat> {
    set p: nat | p < |others| && OverlapArea(box, others[p]) > 0.0
  }

  function Crossing(leader: Option<Leader>, placed: seq<Label>): set<nat> {
    set p: nat | p < |placed| && leader.Some? && placed[p].leader.Some?
                 && SegmentsCross(leader.value.start, leader.value.end, placed[p].leader.value.start, placed[p].leader.value.end)
  }

  function Striking(leader: Option<Leader>, placed: seq<Label>): set<nat> {
    set p: nat | p < |placed| && leader.Some? && NearSegment(placed[p].at, leader.value.start, leader.value.end, 8.0)
  }

  /** The points of the first `n` items, but for item `i`, that the box covers. */
  function Hit(s: Scene, i: nat, box: Rect, n: nat): set<nat>
    requires n <= |s.items|
  {
    set j: nat | j < n && j != i && CircleHitsBox(s.items[j].at, s.dotR * 2.0, box)
  }

  /** The score counts: ten a ring, one a direction, 0.15 a unit moved into the bounds; 6 for a leader, 2500 for a
      missing one, 4 off where none is needed; 4000 and the shared area for each label met, 55 for each leader
      crossed, 40 for each text struck, 900 for each other point covered, 1200 for the own one, and 200 and the
      shared area for each obstacle. */
  lemma ScoreCounts(s: Scene, i: nat, k: nat, placed: seq<Label>)
    requires i < |s.items| && k < CANDIDATES
    ensures var (box, raw, leader) := (s.Box(i, k), s.Raw(i, k), s.leader(i, s.Box(i, k)));
            s.Score(i, k, placed)
            == 10.0 * (k / 8) as real + (k % 8) as real + 0.15 * (Abs(box.x - raw.x) + Abs(box.y - raw.y))
               + (if !s.Far(i, box) then -4.0 else if leader.Some? then 6.0 else 2500.0)
               + 4000.0 * |Sharing(box, BoxesOf(placed))| as real + SharedArea(box, BoxesOf(placed))
               + 55.0 * |Crossing(leader, placed)| as real + 40.0 * |Striking(leader, placed)| as real
               + 900.0 * |Hit(s, i, box, |s.items|)| as real
               + (if CircleHitsBox(s.items[i].at, s.dotR + 1.0, box) then 1200.0 else 0.0)
               + 200.0 * |Sharing(box, s.obstacles)| as real + SharedArea(box, s.obstacles)
  {
    hide Scene.Raw;
    hide Scene.Box;
    hide Scene.Far;
    hide CircleHitsBox;
    hide Sharing;
    hide SharedArea;
    hide Crossing;
    hide Striking;
    hide Hit;
    LabelsCount(s, i, k, placed, |placed|);
    assert placed[..|placed|] == placed;
    PointsCount(s, i, k, |s.items|);
    ObstaclesCount(s, i, k, |s.obstacles|);
    assert s.obstacles[..|s.obstacles|] == s.obstacles;
    assert 10.0 * (k / 8) as real == (k / 8 * 10) as real;
  }

  function LabelCharges(box: Rect, leader: Option<Leader>, placed: seq<Label>): real {
    4000.0 * |Sharing(box, BoxesOf(placed))| as real + SharedArea(box, BoxesOf(placed))
    + 55.0 * |Crossing(leader, placed)| as real + 40.0 * |Striking(leader, placed)| as real
  }

  lemma {:induction false} LabelsCount(s: Scene, i: nat, k: nat, placed: seq<Label>, n: nat)
    requires i < |s.items| && k < CANDIDATES && n <= |placed|
    ensures s.Labels(i, k, placed, n) == LabelCharges(s.Box(i, k), s.leader(i, s.Box(i, k)), placed[..n])
  {
    hide Scene.Box;
    hide LabelCharges;
    hide Clash;
    var (box, leader) := (s.Box(i, k), s.leader(i, s.Box(i, k)));
    if n == 0 {
      NoLabels(box, leader);
      assert placed[..0] == [];
    } else {
      LabelsCount(s, i, k, placed, n - 1);
      OneMoreLabel(box, leader, placed[..n - 1], placed[n - 1]);
      assert placed[..n] == placed[..n - 1] + [placed[n - 1]];
    }
  }

  lemma NoLabels(box: Rect, leader: Option<Leader>)
    ensures LabelCharges(box, leader, []) == 0.0
  {
    assert Sharing(box, BoxesOf([])) == {} && Crossing(leader, []) == {} && Striking(leader, []) == {};
  }

  /** One more label placed adds what it costs. */
  lemma OneMoreLabel(box: Rect, leader: Option<Leader>, placed: seq<Label>, other: Label)
    ensures LabelCharges(box, leader, placed + [other]) == LabelCharges(box, leader, placed) + Clash(box, leader, other)
  {
    hide OverlapArea;
    hide SegmentsCross;
    hide NearSegment;
    hide Sharing;
    hide Crossing;
    hide Striking;
    hide SharedArea;
    SharingGrows(box, BoxesOf(placed), other.box);
    assert BoxesOf(placed + [other]) == BoxesOf(placed) + [other.box];
    CrossingGrows(leader, placed, other);
    StrikingGrows(leader, placed, other);
  }

  lemma SharingGrows(box: Rect, others: seq<Rect>, other: Rect)
    ensures Sharing(box, others + [other]) == Sharing(box, others) + (if OverlapArea(box, other) > 0.0 then {|others|} else {})
    ensures |Sharing(box, others + [other])| == |Sharing(box, others)| + if OverlapArea(box, other) > 0.0 then 1 else 0
    ensures SharedArea(box, others + [other]) == SharedArea(box, others) + OverlapArea(box, other)
  {
    hide OverlapArea;
    var all := others + [other];
    assert all[..|others|] == others;
    forall p: nat ensures p in Sharing(box, all) <==> p in Sharing(box, others) || (p == |others| && OverlapArea(box, other) > 0.0) {
      if p < |others| { assert all[p] == others[p]; }
    }
  }

  lemma CrossingGrows(leader: Option<Leader>, placed: seq<Label>, other: Label)
    ensures var one := leader.Some? && other.leader.Some?
                       && SegmentsCross(leader.value.start, leader.value.end, other.leader.value.start, other.leader.value.end);
            && Crossing(leader, placed + [other]) == Crossing(leader, placed) + (if one then {|placed|} else {})
            && |Crossing(leader, placed + [other])| == |Crossing(leader, placed)| + if one then 1 else 0
  {
    hide SegmentsCross;
    var all := placed + [other];
    forall p: nat ensures p in Crossing(leader, all) <==> p in Crossing(leader, placed) || (p == |placed| && p in Crossing(leader, all)) {
      if p < |placed| { assert all[p] == placed[p]; }
    }
  }

  lemma StrikingGrows(leader: Option<Leader>, placed: seq<Label>, other: Label)
    ensures var one := leader.Some? && NearSegment(other.at, leader.value.start, leader.value.end, 8.0);
            && Striking(leader, placed + [other]) == Striking(leader, placed) + (if one then {|placed|} else {})
            && |Striking(leader, placed + [other])| == |Striking(leader, placed)| + if one then 1 else 0
  {
    hide NearSegment;
    var all := placed + [other];
    forall p: nat ensures p in Striking(leader, all) <==> p in Striking(leader, placed) || (p == |placed| && p in Striking(leader, all)) {
      if p < |placed| { assert all[p] == placed[p]; }
    }
  }

  lemma {:induction false} PointsCount(s: Scene, i: nat, k: nat, n: nat)
    requires i < |s.items| && k < CANDIDATES && n <= |s.items|
    ensures s.Points(i, k, n) == 900.0 * |Hit(s, i, s.Box(i, k), n)| as real
  {
    hide CircleHitsBox;
    hide Scene.Box;
    if n == 0 {
      assert Hit(s, i, s.Box(i, k), 0) == {};
    } else {
      hide Hit;
      PointsCount(s, i, k, n - 1);
      HitGrows(s, i, s.Box(i, k), n - 1);
    }
  }

  lemma HitGrows(s: Scene, i: nat, box: Rect, n: nat)
    requires n < |s.items|
    ensures |Hit(s, i, box, n + 1)| == |Hit(s, i, box, n)| + if n != i && CircleHitsBox(s.items[n].at, s.dotR * 2.0, box) then 1 else 0
  {
    hide CircleHitsBox;
    if n != i && CircleHitsBox(s.items[n].at, s.dotR * 2.0, box) {
      assert Hit(s, i, box, n + 1) == Hit(s, i, box, n) + {n};
    } else {
      assert Hit(s, i, box, n + 1) == Hit(s, i, box, n);
    }
  }

  lemma {:induction false} ObstaclesCount(s: Scene, i: nat, k: nat, n: nat)
    requires i < |s.items| && k < CANDIDATES && n <= |s.obstacles|
    ensures var box := s.Box(i, k);
            s.Obstacles(i, k, n) == 200.0 * |Sharing(box, s.obstacles[..n])| as real + SharedArea(box, s.obstacles[..n])
  {
    hide OverlapArea;
    hide Scene.Box;
    var box := s.Box(i, k);
    if n == 0 {
      assert Sharing(box, s.obstacles[..0]) == {};
    } else {
      ObstaclesCount(s, i, k, n - 1);
      SharingGrows(box, s.obstacles[..n - 1], s.obstacles[n - 1]);
      assert s.obstacles[..n] == s.obstacles[..n - 1] + [s.obstacles[n - 1]];
    }
  }

  /** A label from the first pass keeps the gap from every label placed before it and covers no point; if
      it lies far from its point it has a leader. */
  lemma FirstPassKeepsClear(s: Scene, labels: seq<Label>, n: nat)
    requires IsLayout(s, labels) && n < |Order(s.items)|
    ensures var i := Order(s.items)[n];
            && i < |s.items| == |labels|
            && (!FellBack(s, labels, n) ==>
                  && s.CoversNoPoint(i, labels[i].box)
                  && (s.Far(i, labels[i].box) ==> labels[i].leader.Some?)
                  && forall m :: 0 <= m < n && Order(s.items)[m] < |s.items| ==>
                       !BoxesOverlap(labels[i].box, labels[Order(s.items)[m]].box, 4.0))
  {
    hide BoxesOverlap;
    hide Scene.CoversNoPoint;
    hide Scene.Far;
    hide ClampBox;
    hide BoxFor;
    var order := Order(s.items);
    var i := order[n];
    var standing := Present(Upto(Whole(labels), order, n));
    assert s.Selected(i, standing, labels[i]);
    if !FellBack(s, labels, n) {
      var k :| 0 <= k < CANDIDATES && labels[i] == s.Candidate(i, k) && s.FirstChoice(i, k, standing);
      assert s.Clear(i, k, standing);
      forall m | 0 <= m < n && order[m] < |s.items| ensures !BoxesOverlap(labels[i].box, labels[order[m]].box, BOX_GAP) {
        assert order[m] in order[..n];
        PresentHas(Upto(Whole(labels), order, n), order[m]);
      }
    }
  }

  /** A candidate that shares area with a placed label scores at least 3996. */
  lemma {:induction false} ClashCosts(s: Scene, i: nat, k: nat, placed: seq<Label>, p: nat)
    requires i < |s.items| && k < CANDIDATES && p < |placed| && OverlapArea(s.Box(i, k), placed[p].box) > 0.0
    ensures s.Score(i, k, placed) >= 3996.0
  {
    hide Scene.Box;
    hide Scene.Far;
    hide CircleHitsBox;
    LabelsCost(s, i, k, placed, p, |placed|);
    PlaceCosts(s, i, k);
  }

  lemma PlaceCosts(s: Scene, i: nat, k: nat)
    requires i < |s.items| && k < CANDIDATES
    ensures s.Place(i, k) >= 0.0
  {
    hide Scene.Box;
    hide Scene.Raw;
  }

  lemma {:induction false} LabelsCost(s: Scene, i: nat, k: nat, placed: seq<Label>, p: nat, n: nat)
    requires i < |s.items| && k < CANDIDATES && p < n <= |placed| && OverlapArea(s.Box(i, k), placed[p].box) > 0.0
    ensures s.Labels(i, k, placed, n) >= 4000.0
  {
    hide Scene.Box;
    if p < n - 1 { LabelsCost(s, i, k, placed, p, n - 1); }
  }

  /** A label shares area with one placed before it only if all its 56 candidates score at least 3996: any that
      shares none is charged that much for points, leaders and obstacles. */
  lemma OverlapsOnlyWhenForced(s: Scene, labels: seq<Label>, n: nat, m: nat, k: nat)
    requires IsLayout(s, labels) && m < n < |Order(s.items)| && k < CANDIDATES
    requires var (i, j) := (Order(s.items)[n], Order(s.items)[m]);
             i < |labels| == |s.items| && j < |labels| && PositiveSizes(s) && OverlapArea(labels[i].box, labels[j].box) > 0.0
    ensures FellBack(s, labels, n)
    ensures s.Score(Order(s.items)[n], k, Present(Upto(Whole(labels), Order(s.items), n))) >= 3996.0
  {
    hide Scene.Score;
    hide Scene.CoversNoPoint;
    hide Scene.Far;
    hide BoxesOverlap;
    hide ClampBox;
    hide BoxFor;
    hide OverlapArea;
    hide Order;
    var (i, j) := (Order(s.items)[n], Order(s.items)[m]);
    var standing := Present(Upto(Whole(labels), Order(s.items), n));
    FirstPassKeepsClear(s, labels, n);
    BoxesArePositive(s, labels, i);
    BoxesArePositive(s, labels, j);
    SharedAreaIff(labels[i].box, labels[j].box);
    assert s.Selected(i, standing, labels[i]);
    var l :| 0 <= l < CANDIDATES && labels[i] == s.Candidate(i, l) && s.Least(i, l, CANDIDATES, standing, false);
    assert j in Order(s.items)[..n];
    PresentHas(Upto(Whole(labels), Order(s.items), n), j);
    var p :| 0 <= p < |standing| && standing[p] == labels[j];
    ClashCosts(s, i, l, standing, p);
    assert s.Score(i, l, standing) <= s.Score(i, k, standing);
  }

  /** Items and bounds have some width and height. */
  ghost predicate PositiveSizes(s: Scene) {
    forall i :: 0 <= i < |s.items| ==> s.items[i].w > 0.0 && s.items[i].h > 0.0
  }

  lemma BoxesArePositive(s: Scene, labels: seq<Label>, i: nat)
    requires IsLayout(s, labels) && i < |s.items| && PositiveSizes(s)
    ensures i < |labels| && labels[i].box.w > 0.0 && labels[i].box.h > 0.0
  {
    hide IsLayout;
    hide Order;
    var k := ChosenCandidate(s, labels, i);
  }

  /** Of two labels that overlap, the later one had no clear candidate; so a run without fallback leaves
      all labels apart and all points uncovered. */
  lemma NoFallbackNoOverlap(s: Scene, labels: seq<Label>)
    requires IsLayout(s, labels)
    requires forall n :: 0 <= n < |Order(s.items)| && Order(s.items)[n] < |s.items| ==> !FellBack(s, labels, n)
    ensures |labels| == |s.items|
    ensures forall i, j :: 0 <= i < |labels| && 0 <= j < |labels| && i != j ==> !BoxesOverlap(labels[i].box, labels[j].box, 4.0)
    ensures forall i :: 0 <= i < |labels| ==> s.CoversNoPoint(i, labels[i].box)
  {
    hide FellBack;
    hide Scene.CoversNoPoint;
    hide BoxesOverlap;
    hide Scene.Far;
    OneLabelEach(s, labels);
    hide IsLayout;
    hide Order;
    forall i: nat | i < |s.items| ensures s.CoversNoPoint(i, labels[i].box) {
      var n := TurnOf(s, i);
      FirstPassKeepsClear(s, labels, n);
    }
    forall i: nat, j: nat | i < |s.items| && j < |s.items| && i != j ensures !BoxesOverlap(labels[i].box, labels[j].box, BOX_GAP) {
      var n := TurnOf(s, i);
      var m := TurnOf(s, j);
      if n < m { LaterKeepsClear(s, labels, m, n); } else { LaterKeepsClear(s, labels, n, m); }
      OverlapSymmetric(labels[i].box, labels[j].box);
    }
  }

  lemma OneLabelEach(s: Scene, labels: seq<Label>)
    requires IsLayout(s, labels)
    ensures |labels| == |s.items|
  {
    hide Order;
  }

  lemma TurnOf(s: Scene, i: nat) returns (n: nat)
    requires i < |s.items|
    ensures n < |Order(s.items)| && Order(s.items)[n] == i
  {
    hide Order;
    OrderVisitsAll(s.items);
    assert i in Order(s.items);
    n :| 0 <= n < |Order(s.items)| && Order(s.items)[n] == i;
  }

  lemma LaterKeepsClear(s: Scene, labels: seq<Label>, n: nat, m: nat)
    requires IsLayout(s, labels) && m < n < |Order(s.items)|
    requires Order(s.items)[n] < |s.items| && Order(s.items)[m] < |s.items| && !FellBack(s, labels, n)
    ensures |labels| == |s.items|
    ensures !BoxesOverlap(labels[Order(s.items)[n]].box, labels[Order(s.items)[m]].box, BOX_GAP)
  {
    hide FellBack;
    hide BoxesOverlap;
    hide Order;
    hide Scene.CoversNoPoint;
    hide Scene.Far;
    hide LaidOut;
    FirstPassKeepsClear(s, labels, n);
  }

  lemma OverlapSymmetric(a: Rect, b: Rect)
    ensures BoxesOverlap(a, b, BOX_GAP) == BoxesOverlap(b, a, BOX_GAP)
  {
  }

  /** The scene fixes the layout. */
  lemma {:induction false} LayoutIsUnique(s: Scene, first: seq<Label>, second: seq<Label>)
    requires IsLayout(s, first) && IsLayout(s, second)
    ensures first == second
  {
    hide Scene.Selected;
    hide Present;
    var order := Order(s.items);
    OrderVisitsAll(s.items);
    PrefixIsUnique(s, order, Whole(first), Whole(second), |order|);
    forall i: nat | i < |first| ensures first[i] == second[i] {
      assert i in order;
      var n :| 0 <= n < |order| && order[n] == i;
      assert Whole(first)[i] == Whole(second)[i];
    }
  }

  lemma {:induction false} PrefixIsUnique(s: Scene, order: seq<nat>, first: seq<Option<Label>>, second: seq<Option<Label>>, n: nat)
    requires n <= |order| && LaidOut(s, order, first, n) && LaidOut(s, order, second, n)
    ensures forall m :: 0 <= m < n ==> first[order[m]] == second[order[m]]
  {
    hide Scene.Selected;
    hide Present;
    if n > 0 {
      PrefixIsUnique(s, order, first, second, n - 1);
      assert Upto(first, order, n - 1) == Upto(second, order, n - 1);
      SelectedIsUnique(s, order[n - 1], Present(Upto(first, order, n - 1)), first[order[n - 1]].value, second[order[n - 1]].value);
    }
  }

  lemma SelectedIsUnique(s: Scene, i: nat, placed: seq<Label>, a: Label, b: Label)
    requires i < |s.items| && s.Selected(i, placed, a) && s.Selected(i, placed, b)
    ensures a == b
  {
    hide Scene.Clear;
    hide Scene.Least;
    hide Scene.Candidate;
    if s.NoneClear(i, CANDIDATES, placed) {
      var k :| 0 <= k < CANDIDATES && a == s.Candidate(i, k) && s.Least(i, k, CANDIDATES, placed, false);
      var l :| 0 <= l < CANDIDATES && b == s.Candidate(i, l) && s.Least(i, l, CANDIDATES, placed, false);
      LeastIsUnique(s, i, k, l, CANDIDATES, placed, false);
    } else {
      var k :| 0 <= k < CANDIDATES && a == s.Candidate(i, k) && s.FirstChoice(i, k, placed);
      var l :| 0 <= l < CANDIDATES && b == s.Candidate(i, l) && s.FirstChoice(i, l, placed);
      FirstChoiceIsUnique(s, i, k, l, placed);
    }
  }

  lemma FirstChoiceIsUnique(s: Scene, i: nat, k: nat, l: nat, placed: seq<Label>)
    requires i < |s.items| && s.FirstChoice(i, k, placed) && s.FirstChoice(i, l, placed)
    ensures k == l
  {
    hide Scene.Clear;
    hide Scene.Least;
    hide Scene.GoodEnough;
    var a :| 1 <= a <= 7 && s.Least(i, k, 8 * a, placed, true)
      && !s.GoodEnough(i, 8 * (a - 1), placed) && (a == 7 || s.GoodEnough(i, 8 * a, placed));
    var b :| 1 <= b <= 7 && s.Least(i, l, 8 * b, placed, true)
      && !s.GoodEnough(i, 8 * (b - 1), placed) && (b == 7 || s.GoodEnough(i, 8 * b, placed));
    GoodEnoughGrows(s, i, 8 * a, 8 * (b - 1), placed);
    GoodEnoughGrows(s, i, 8 * b, 8 * (a - 1), placed);
    LeastIsUnique(s, i, k, l, 8 * a, placed, true);
  }

  lemma LeastIsUnique(s: Scene, i: nat, k: nat, l: nat, n: nat, placed: seq<Label>, clear: bool)
    requires i < |s.items| && n <= CANDIDATES && s.Least(i, k, n, placed, clear) && s.Least(i, l, n, placed, clear)
    ensures k == l
  {
    hide Scene.Clear;
    assert clear ==> s.Clear(i, k, placed) && s.Clear(i, l, placed);
    assert s.Score(i, k, placed) <= s.Score(i, l, placed) <= s.Score(i, k, placed);
  }

  lemma GoodEnoughGrows(s: Scene, i: nat, m: nat, n: nat, placed: seq<Label>)
    requires i < |s.items| && m <= CANDIDATES && n <= CANDIDATES
    ensures m <= n && s.GoodEnough(i, m, placed) ==> s.GoodEnough(i, n, placed)
  {
    hide Scene.Clear;
  }
}
