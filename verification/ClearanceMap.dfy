/** Goal candidates for the navigation stress run: a breadth-first distance transform over an
    occupancy grid, then a filter on clearance. */
module ClearanceMap {
  import opened Arithmetic
  import opened Sums

  /** Cells are numbered row by row; 0 is free, anything else is occupied or unknown. An occupancy
      grid message carries width times height cells at a positive resolution. */
  datatype Grid = Grid(width: nat, height: nat, resolution: real, originX: real, originY: real, data: seq<int>) {
    ghost predicate Valid() {
      |data| == width * height && resolution > 0.0
    }

    predicate Blocked(i: int)
    {
      0 <= i < |data| && data[i] != 0
    }
  }

  // ---------------------------------------------------------------- cells and coordinates

  function Column(g: Grid, i: int): int
    requires g.width > 0
  {
    i % g.width
  }

  function Row(g: Grid, i: int): int
    requires g.width > 0
  {
    i / g.width
  }

  predicate Inside(g: Grid, x: int, y: int) {
    0 <= x < g.width && 0 <= y < g.height
  }

  function Cell(g: Grid, x: int, y: int): int {
    y * g.width + x
  }

  lemma CellInRange(g: Grid, x: int, y: int)
    requires g.Valid() && Inside(g, x, y)
    ensures g.width > 0 && 0 <= Cell(g, x, y) < |g.data|
    ensures Column(g, Cell(g, x, y)) == x && Row(g, Cell(g, x, y)) == y
  {
    MulLess(y, g.height, g.width);
    if y > 0 {
      MulLess(0, y, g.width);
    }
    DivModUnique(Cell(g, x, y), g.width, y, x);
  }

  lemma CoordinatesInside(g: Grid, i: int)
    requires g.Valid() && 0 <= i < |g.data|
    ensures g.width > 0 && Inside(g, Column(g, i), Row(g, i)) && Cell(g, Column(g, i), Row(g, i)) == i
  {
    assert g.width != 0;
    DivMod(i, g.width);
    var y := i / g.width;
    if y < 0 {
      MulLess(y, 0, g.width);
    }
    if g.height <= y && g.height < y {
      MulLess(g.height, y, g.width);
    }
  }

  function Abs(x: int): nat { if x < 0 then -x else x }

  /** Steps between two cells. */
  function Manhattan(g: Grid, i: int, j: int): nat
    requires g.width > 0
  {
    Abs(Column(g, i) - Column(g, j)) + Abs(Row(g, i) - Row(g, j))
  }

  // ---------------------------------------------------------------- the distance transform

  /** The least Manhattan distance from cell i to a blocked cell below k, or -1 if there is none. */
  ghost function NearestBelow(g: Grid, i: int, k: nat): int
    requires g.width > 0
  {
    if k == 0 then -1
    else
      var d := NearestBelow(g, i, k - 1);
      if g.Blocked(k - 1) && (d < 0 || Manhattan(g, i, k - 1) < d) then Manhattan(g, i, k - 1) else d
  }

  ghost function Nearest(g: Grid, i: int): int
    requires g.width > 0
  {
    NearestBelow(g, i, |g.data|)
  }

  lemma {:induction false} NearestBelowFacts(g: Grid, i: int, k: nat)
    requires g.width > 0
    ensures NearestBelow(g, i, k) >= -1
    ensures forall s :: 0 <= s < k && g.Blocked(s) ==> 0 <= NearestBelow(g, i, k) <= Manhattan(g, i, s)
    ensures NearestBelow(g, i, k) >= 0 ==> exists s :: 0 <= s < k && g.Blocked(s) && Manhattan(g, i, s) == NearestBelow(g, i, k)
  {
    if k != 0 {
      NearestBelowFacts(g, i, k - 1);
    }
  }

  /** Nearest is a minimum: attained, and below every distance to a blocked cell. */
  lemma NearestIsMinimum(g: Grid, i: int)
    requires g.width > 0
    ensures forall s :: g.Blocked(s) ==> 0 <= Nearest(g, i) <= Manhattan(g, i, s)
    ensures Nearest(g, i) >= 0 ==> exists s :: g.Blocked(s) && Manhattan(g, i, s) == Nearest(g, i)
    ensures Nearest(g, i) >= -1
  {
    NearestBelowFacts(g, i, |g.data|);
  }

  ghost predicate Adjacent(g: Grid, i: int, j: int)
    requires g.width > 0
  {
    0 <= j < |g.data| && Manhattan(g, i, j) == 1
  }

  /** One step changes the nearest distance by at most one. */
  lemma NearestNextDoor(g: Grid, i: int, j: int)
    requires g.width > 0 && Adjacent(g, i, j) && Nearest(g, i) >= 0
    ensures 0 <= Nearest(g, j) <= Nearest(g, i) + 1
  {
    NearestIsMinimum(g, i);
    NearestIsMinimum(g, j);
    var s :| g.Blocked(s) && Manhattan(g, i, s) == Nearest(g, i);
    assert Manhattan(g, j, s) <= Manhattan(g, i, s) + 1;
  }

  /** From a free cell some step leads closer. */
  lemma StepCloser(g: Grid, i: int) returns (j: int)
    requires g.Valid() && 0 <= i < |g.data| && g.width > 0 && Nearest(g, i) > 0
    ensures Adjacent(g, i, j) && Adjacent(g, j, i) && Nearest(g, j) == Nearest(g, i) - 1
  {
    hide Nearest;
    NearestIsMinimum(g, i);
    var s :| g.Blocked(s) && Manhattan(g, i, s) == Nearest(g, i);
    CoordinatesInside(g, i);
    CoordinatesInside(g, s);
    var x, y := Column(g, i), Row(g, i);
    if x < Column(g, s) {
      x := x + 1;
    } else if x > Column(g, s) {
      x := x - 1;
    } else if y < Row(g, s) {
      y := y + 1;
    } else {
      y := y - 1;
    }
    j := Cell(g, x, y);
    CellInRange(g, x, y);
    assert Manhattan(g, j, s) == Manhattan(g, i, s) - 1;
    NearestIsMinimum(g, j);
    NearestNextDoor(g, j, i);
  }

  lemma NearestZero(g: Grid, i: int)
    requires g.Valid() && 0 <= i < |g.data| && g.width > 0
    ensures Nearest(g, i) == 0 <==> g.Blocked(i)
  {
    NearestIsMinimum(g, i);
    if Nearest(g, i) == 0 {
      var s :| g.Blocked(s) && Manhattan(g, i, s) == 0;
      CoordinatesInside(g, i);
      CoordinatesInside(g, s);
    }
  }

  // ---------------------------------------------------------------- the search

  /** `order` lists the cells in the order they were enqueued, each once; the first `done` have been
      expanded and the rest are the queue. Distances along it never fall and spread by at most 1 from
      the head of the queue on. */
  ghost predicate SearchInv(g: Grid, dist: seq<int>, order: seq<int>, done: nat) {
    && g.Valid() && g.width > 0 && |dist| == |g.data| && done <= |order|
    && Below(order, |dist|) && Injective(order)
    && (forall c :: 0 <= c < |dist| ==> if c in order then dist[c] == Nearest(g, c) >= 0 else dist[c] == -1)
    && (forall a, b :: 0 <= a < b < |order| ==> dist[order[a]] <= dist[order[b]])
    && (done < |order| ==> forall a :: 0 <= a < |order| ==> dist[order[a]] <= dist[order[done]] + 1)
    && (forall a, j :: 0 <= a < done && Adjacent(g, order[a], j) ==> dist[j] >= 0)
    && (forall s :: g.Blocked(s) ==> dist[s] == 0)
  }

  /** Every cell as near as the head of the queue has its distance; with an empty queue, every cell
      that has a nearest blocked cell does. */
  lemma {:induction false} FrontierComplete(g: Grid, dist: seq<int>, order: seq<int>, done: nat, c: int)
    requires SearchInv(g, dist, order, done) && 0 <= c < |dist|
    requires 0 <= Nearest(g, c) && (done < |order| ==> Nearest(g, c) <= dist[order[done]])
    ensures dist[c] == Nearest(g, c)
    decreases Nearest(g, c)
  {
    if Nearest(g, c) == 0 {
      NearestZero(g, c);
    } else {
      var j := StepCloser(g, c);
      FrontierComplete(g, dist, order, done, j);
      assert j in order;
      var a :| 0 <= a < |order| && order[a] == j;
      assert a < done;
    }
  }

  /** A fresh neighbour of the head of the queue is exactly one step further away. */
  lemma FreshIsOneFurther(g: Grid, dist: seq<int>, order: seq<int>, done: nat, j: int)
    requires SearchInv(g, dist, order, done) && done < |order| && Adjacent(g, order[done], j) && dist[j] < 0
    ensures order[done] in order && j !in order && Nearest(g, j) == dist[order[done]] + 1
  {
    var i := order[done];
    assert i in order;
    NearestNextDoor(g, i, j);
    if Nearest(g, j) <= dist[i] {
      FrontierComplete(g, dist, order, done, j);
    }
  }

  lemma EnqueueKeeps(g: Grid, dist: seq<int>, order: seq<int>, done: nat, j: int)
    requires SearchInv(g, dist, order, done) && done < |order| && 0 <= j < |dist|
    requires j !in order && order[done] in order && Nearest(g, j) == dist[order[done]] + 1
    ensures SearchInv(g, dist[j := dist[order[done]] + 1], order + [j], done)
  {
    hide Nearest, Manhattan;
  }

  lemma VisitKeeps(g: Grid, dist: seq<int>, order: seq<int>, done: nat, j: int)
    requires SearchInv(g, dist, order, done) && done < |order| && Adjacent(g, order[done], j) && dist[j] < 0
    ensures dist[order[done]] >= 0
    ensures SearchInv(g, dist[j := dist[order[done]] + 1], order + [j], done)
  {
    FreshIsOneFurther(g, dist, order, done, j);
    EnqueueKeeps(g, dist, order, done, j);
  }

  lemma AdvanceKeeps(g: Grid, dist: seq<int>, order: seq<int>, done: nat)
    requires SearchInv(g, dist, order, done) && done < |order|
    requires forall j :: Adjacent(g, order[done], j) ==> dist[j] >= 0
    ensures SearchInv(g, dist, order, done + 1)
  {
  }

  /** The four cells beside (x, y), in the order they are tried. */
  function Beside(x: int, y: int): seq<(int, int)> {
    [(x + 1, y), (x - 1, y), (x, y + 1), (x, y - 1)]
  }

  lemma BesideIsAdjacent(g: Grid, i: int, k: int)
    requires g.Valid() && 0 <= i < |g.data| && g.width > 0 && 0 <= k < 4
    ensures var n := Beside(Column(g, i), Row(g, i))[k];
      Inside(g, n.0, n.1) ==> 0 <= Cell(g, n.0, n.1) < |g.data| && Adjacent(g, i, Cell(g, n.0, n.1))
  {
    var n := Beside(Column(g, i), Row(g, i))[k];
    if Inside(g, n.0, n.1) {
      CellInRange(g, n.0, n.1);
    }
  }

  lemma AdjacentIsBeside(g: Grid, i: int, j: int)
    requires g.Valid() && 0 <= i < |g.data| && g.width > 0 && Adjacent(g, i, j)
    ensures exists k :: 0 <= k < 4 && Beside(Column(g, i), Row(g, i))[k] == (Column(g, j), Row(g, j))
    ensures Inside(g, Column(g, j), Row(g, j)) && Cell(g, Column(g, j), Row(g, j)) == j
  {
    CoordinatesInside(g, j);
    var x, y := Column(g, i), Row(g, i);
    var k := if Column(g, j) == x + 1 then 0 else if Column(g, j) == x - 1 then 1 else if Row(g, j) == y + 1 then 2 else 3;
    assert Beside(x, y)[k] == (Column(g, j), Row(g, j));
  }

  /** Looks at one neighbour of cell i, the head of the queue: a cell on the map without a distance gets
      one and joins the queue. */
  method Visit(g: Grid, dist: array<int>, i: int, nx: int, ny: int, queue: seq<int>, ghost order: seq<int>, ghost done: nat)
    returns (queue': seq<int>, ghost order': seq<int>)
    requires SearchInv(g, dist[..], order, done) && done < |order| && order[done] == i && queue == order[done + 1..]
    requires Inside(g, nx, ny) ==> 0 <= Cell(g, nx, ny) < |g.data| && Adjacent(g, i, Cell(g, nx, ny))
    modifies dist
    ensures SearchInv(g, dist[..], order', done) && done < |order'| && order'[done] == i && queue' == order'[done + 1..]
    ensures forall c :: 0 <= c < dist.Length && old(dist[c]) >= 0 ==> dist[c] >= 0
    ensures Inside(g, nx, ny) ==> dist[Cell(g, nx, ny)] >= 0
  {
    hide SearchInv, Nearest, Adjacent;
    queue', order' := queue, order;
    HeadOnMap(g, dist[..], order, done);
    if Inside(g, nx, ny) && dist[Cell(g, nx, ny)] < 0 {
      ghost var before, j := dist[..], Cell(g, nx, ny);
      VisitKeeps(g, before, order, done, j);
      dist[Cell(g, nx, ny)] := dist[i] + 1;
      assert dist[..] == before[j := before[i] + 1];
      queue' := queue' + [Cell(g, nx, ny)];
      order' := order' + [j];
    }
  }

  lemma HeadOnMap(g: Grid, dist: seq<int>, order: seq<int>, done: nat)
    requires SearchInv(g, dist, order, done) && done < |order|
    ensures g.Valid() && g.width > 0 && |dist| == |g.data| && 0 <= order[done] < |g.data|
  {
  }

  lemma AdjacentIsVisited(g: Grid, dist: seq<int>, i: int, j: int)
    requires g.Valid() && 0 <= i < |g.data| == |dist| && g.width > 0 && Adjacent(g, i, j)
    requires forall k :: 0 <= k < 4 ==> var n := Beside(Column(g, i), Row(g, i))[k]; VisitedIfInside(g, dist, n.0, n.1)
    ensures 0 <= j < |dist| && dist[j] >= 0
  {
    AdjacentIsBeside(g, i, j);
  }

  /** Expands the head of the queue: its unvisited neighbours get their distance and join the queue. */
  method Expand(g: Grid, dist: array<int>, i: int, queue: seq<int>, ghost order: seq<int>, ghost done: nat)
    returns (queue': seq<int>, ghost order': seq<int>)
    requires SearchInv(g, dist[..], order, done) && done < |order| && order[done] == i && queue == order[done + 1..]
    modifies dist
    ensures SearchInv(g, dist[..], order', done + 1) && queue' == order'[done + 1..]
  {
    hide SearchInv, Adjacent;
    queue', order' := queue, order;
    HeadOnMap(g, dist[..], order, done);
    var beside := Beside(Column(g, i), Row(g, i));
    for k := 0 to 4
      invariant SearchInv(g, dist[..], order', done) && done < |order'| && order'[done] == i && queue' == order'[done + 1..]
      invariant forall l :: 0 <= l < k ==> VisitedIfInside(g, dist[..], beside[l].0, beside[l].1)
    {
      BesideIsAdjacent(g, i, k);
      queue', order' := Visit(g, dist, i, beside[k].0, beside[k].1, queue', order', done);
    }
    ghost var final := dist[..];
    forall j | Adjacent(g, i, j) ensures 0 <= j < |final| && final[j] >= 0 {
      AdjacentIsVisited(g, final, i, j);
    }
    AdvanceKeeps(g, final, order', done);
  }

  ghost predicate VisitedIfInside(g: Grid, dist: seq<int>, x: int, y: int) {
    Inside(g, x, y) ==> 0 <= Cell(g, x, y) < |dist| && dist[Cell(g, x, y)] >= 0
  }

  /** Queues every blocked cell at distance 0. */
  method Seed(g: Grid, dist: array<int>) returns (queue: seq<int>)
    requires g.Valid() && g.width > 0 && dist.Length == |g.data|
    requires forall c :: 0 <= c < dist.Length ==> dist[c] == -1
    modifies dist
    ensures SearchInv(g, dist[..], queue, 0)
  {
    queue := [];
    for i := 0 to |g.data|
      invariant forall c :: 0 <= c < dist.Length ==> dist[c] == if c < i && g.Blocked(c) then 0 else -1
      invariant Injective(queue) && forall c :: c in queue <==> 0 <= c < i && g.Blocked(c)
    {
      if g.data[i] != 0 {
        dist[i] := 0;
        queue := queue + [i];
      }
    }
    SeedKeeps(g, dist[..], queue);
  }

  lemma SeedKeeps(g: Grid, dist: seq<int>, queue: seq<int>)
    requires g.Valid() && g.width > 0 && |dist| == |g.data|
    requires forall c :: 0 <= c < |dist| ==> dist[c] == if g.Blocked(c) then 0 else -1
    requires Injective(queue) && forall c :: c in queue <==> 0 <= c < |dist| && g.Blocked(c)
    ensures SearchInv(g, dist, queue, 0)
  {
    forall c | 0 <= c < |dist| && g.Blocked(c) ensures Nearest(g, c) == 0 {
      NearestZero(g, c);
    }
    assert forall k :: 0 <= k < |queue| ==> queue[k] in queue;
  }

  /** Breadth-first from all blocked cells at once: the distances are the nearest Manhattan distances,
      -1 everywhere when nothing is blocked. `order` lists the cells as enqueued: those with a distance,
      each once, nearest first. */
  method DistanceTransform(g: Grid) returns (distances: seq<int>, ghost order: seq<int>)
    requires g.Valid() && g.width > 0
    ensures |distances| == |g.data| && forall c :: 0 <= c < |g.data| ==> distances[c] == Nearest(g, c)
    ensures forall c :: c in order <==> 0 <= c < |g.data| && Nearest(g, c) >= 0
    ensures Injective(order) && forall a, b :: 0 <= a < b < |order| ==> Nearest(g, order[a]) <= Nearest(g, order[b])
  {
    var dist := new int[|g.data|](_ => -1);
    var queue := Seed(g, dist);
    order := queue;
    ghost var done := 0;
    while queue != []
      invariant SearchInv(g, dist[..], order, done) && queue == order[done..]
      decreases |g.data| - done
    {
      Pigeonhole(order, |g.data|);
      var i := queue[0];
      queue, order := Expand(g, dist, i, queue[1..], order, done);
      done := done + 1;
    }
    distances := dist[..];
    forall c | 0 <= c < |g.data| ensures distances[c] == Nearest(g, c) {
      NearestIsMinimum(g, c);
      if Nearest(g, c) >= 0 {
        FrontierComplete(g, distances, order, done, c);
      }
    }
    assert forall k :: 0 <= k < |order| ==> order[k] in order;
  }

  // ---------------------------------------------------------------- candidate cells

  function Ceil(x: real): int {
    -((-x).Floor)
  }

  /** The distance in cells a candidate has to have. */
  function Need(clearance: real, resolution: real): int
    requires resolution > 0.0
  {
    Ceil(clearance / resolution)
  }

  function CenterX(g: Grid, i: int): real
    requires g.width > 0
  {
    g.originX + (Column(g, i) as real + 0.5) * g.resolution
  }

  function CenterY(g: Grid, i: int): real
    requires g.width > 0
  {
    g.originY + (Row(g, i) as real + 0.5) * g.resolution
  }

  /** A free cell far enough from every blocked one. An all-free grid has distance -1 everywhere. */
  ghost predicate Candidate(g: Grid, clearance: real, i: int)
    requires g.resolution > 0.0
  {
    0 <= i < |g.data| && g.width > 0 && g.data[i] == 0 && Nearest(g, i) >= Need(clearance, g.resolution)
  }

  /** The candidates below k: all of them, in index order. */
  ghost function CandidatesBelow(g: Grid, clearance: real, k: nat): (cells: seq<int>)
    requires g.resolution > 0.0
    ensures forall i :: i in cells <==> i < k && Candidate(g, clearance, i)
    ensures forall a, b :: 0 <= a < b < |cells| ==> cells[a] < cells[b]
  {
    if k == 0 then []
    else
      var before := CandidatesBelow(g, clearance, k - 1);
      assert forall a :: 0 <= a < |before| ==> before[a] in before;
      before + if Candidate(g, clearance, k - 1) then [k - 1] else []
  }

  ghost function Centers(g: Grid, cells: seq<int>): seq<(real, real)>
    requires g.width > 0
  {
    seq(|cells|, k requires 0 <= k < |cells| => (CenterX(g, cells[k]), CenterY(g, cells[k])))
  }

  /** On the axis that starts at `origin`, p lies inside cell x and halfway between its edges. */
  ghost predicate Halfway(p: real, origin: real, x: int, r: real) {
    && origin + x as real * r < p < origin + (x + 1) as real * r
    && p - (origin + x as real * r) == (origin + (x + 1) as real * r) - p
  }

  /** The point is in the middle of the cell. */
  ghost predicate InMiddle(g: Grid, cell: int, point: (real, real)) {
    exists x, y :: 0 <= x < g.width && 0 <= y < g.height && cell == y * g.width + x
      && Halfway(point.0, g.originX, x, g.resolution) && Halfway(point.1, g.originY, y, g.resolution)
  }

  lemma CenterIsHalfway(origin: real, x: int, r: real)
    requires r > 0.0
    ensures Halfway(origin + (x as real + 0.5) * r, origin, x, r)
  {
    var low, p, high := origin + x as real * r, origin + (x as real + 0.5) * r, origin + (x + 1) as real * r;
    assert p == low + 0.5 * r && high == low + r;
  }

  lemma CenterIsInMiddle(g: Grid, i: int)
    requires g.Valid() && g.width > 0 && 0 <= i < |g.data|
    ensures InMiddle(g, i, (CenterX(g, i), CenterY(g, i)))
  {
    hide Halfway;
    var x, y, point := Column(g, i), Row(g, i), (CenterX(g, i), CenterY(g, i));
    CoordinatesInside(g, i);
    CenterIsHalfway(g.originX, x, g.resolution);
    CenterIsHalfway(g.originY, y, g.resolution);
    assert i == y * g.width + x;
    assert Halfway(point.0, g.originX, x, g.resolution) && Halfway(point.1, g.originY, y, g.resolution);
  }

  lemma CentersAreInMiddle(g: Grid, cells: seq<int>)
    requires g.Valid() && g.width > 0 && forall k :: 0 <= k < |cells| ==> 0 <= cells[k] < |g.data|
    ensures forall k :: 0 <= k < |cells| ==> InMiddle(g, cells[k], Centers(g, cells)[k])
  {
    hide InMiddle, CenterX, CenterY;
    forall k | 0 <= k < |cells| ensures InMiddle(g, cells[k], Centers(g, cells)[k]) {
      CenterIsInMiddle(g, cells[k]);
    }
  }

  lemma CandidatesInRange(g: Grid, clearance: real)
    requires g.resolution > 0.0
    ensures var cells := CandidatesBelow(g, clearance, |g.data|);
      forall k :: 0 <= k < |cells| ==> 0 <= cells[k] < |g.data|
  {
    var cells := CandidatesBelow(g, clearance, |g.data|);
    forall k | 0 <= k < |cells| ensures 0 <= cells[k] < |g.data| {
      assert cells[k] in cells;
    }
  }

  /** The centres of exactly the candidate cells, in index order. */
  method Candidates(g: Grid, clearance: real) returns (points: seq<(real, real)>)
    requires g.Valid()
    ensures if g.width == 0 then points == [] else points == Centers(g, CandidatesBelow(g, clearance, |g.data|))
    ensures g.width > 0 ==>
      var cells := CandidatesBelow(g, clearance, |g.data|);
      |points| == |cells| && forall k :: 0 <= k < |points| ==> InMiddle(g, cells[k], points[k])
  {
    hide InMiddle;
    points := [];
    if g.width == 0 {
      return;
    }
    var dist, _ := DistanceTransform(g);
    var need := Need(clearance, g.resolution);
    for i := 0 to |g.data|
      invariant points == Centers(g, CandidatesBelow(g, clearance, i))
    {
      if dist[i] >= need && g.data[i] == 0 {
        points := points + [(CenterX(g, i), CenterY(g, i))];
      }
    }
    CandidatesInRange(g, clearance);
    CentersAreInMiddle(g, CandidatesBelow(g, clearance, |g.data|));
  }

  lemma CeilFacts(x: real)
    ensures Ceil(x) as real >= x > (Ceil(x) - 1) as real
  {
  }

  /** The rule in the terms of the map: with something blocked, the candidates are the free cells whose
      Manhattan distance to every blocked cell is at least the needed number of cells. */
  lemma CandidateMeaning(g: Grid, clearance: real, i: int)
    requires g.Valid() && 0 <= i < |g.data| && g.width > 0
    requires exists s :: g.Blocked(s)
    ensures Candidate(g, clearance, i) <==>
      g.data[i] == 0 && forall s :: g.Blocked(s) ==> Manhattan(g, i, s) >= Need(clearance, g.resolution)
  {
    NearestIsMinimum(g, i);
  }

  /** With nothing blocked there is no candidate, exactly when the clearance is above minus one cell. */
  lemma AllFreeHasNoCandidates(g: Grid, clearance: real)
    requires g.Valid() && |g.data| > 0
    requires forall s :: !g.Blocked(s)
    ensures (forall i :: !Candidate(g, clearance, i)) <==> clearance > -g.resolution
  {
    CoordinatesInside(g, 0);
    NearestIsMinimum(g, 0);
    forall i | 0 <= i < |g.data| ensures Nearest(g, i) == -1 {
      NearestIsMinimum(g, i);
    }
    CeilFacts(clearance / g.resolution);
    var need := Need(clearance, g.resolution);
    QuotientSign(clearance, g.resolution);
    assert Nearest(g, 0) == -1 && !g.Blocked(0);
    assert need <= -1 ==> Candidate(g, clearance, 0);
  }

  lemma QuotientSign(c: real, r: real)
    requires r > 0.0
    ensures c / r > -1.0 <==> c > -r
  {
    var q := c / r;
    assert c == q * r;
    if q > -1.0 {
      assert (q + 1.0) * r > 0.0;
    } else {
      assert (-1.0 - q) * r >= 0.0;
    }
  }

  // ---------------------------------------------------------------- clearance in metres

  function SquaredDistance(g: Grid, i: int, j: int): real
    requires g.width > 0
  {
    (CenterX(g, i) - CenterX(g, j)) * (CenterX(g, i) - CenterX(g, j))
    + (CenterY(g, i) - CenterY(g, j)) * (CenterY(g, i) - CenterY(g, j))
  }

  /** Squared distance in cells. */
  function SquaredSteps(g: Grid, i: int, j: int): nat
    requires g.width > 0
  {
    var dx, dy := Abs(Column(g, i) - Column(g, j)), Abs(Row(g, i) - Row(g, j));
    dx * dx + dy * dy
  }

  /** Square cells as square metres. */
  function InMetres(n: int, r: real): real {
    n as real * (r * r)
  }

  /** Along one axis, centres lie the difference of their cells apart. */
  lemma SquareOfDifference(a: int, b: int, origin: real, r: real)
    ensures var d := (origin + (a as real + 0.5) * r) - (origin + (b as real + 0.5) * r);
      d * d == InMetres(Abs(a - b) * Abs(a - b), r)
  {
    var d := (origin + (a as real + 0.5) * r) - (origin + (b as real + 0.5) * r);
    var k := (a - b) as real;
    assert d == k * r;
    assert d * d == k * k * (r * r);
    assert (Abs(a - b) * Abs(a - b)) as real == k * k;
  }

  lemma InMetresAdds(a: int, b: int, r: real)
    ensures InMetres(a, r) + InMetres(b, r) == InMetres(a + b, r)
  {
  }

  /** The squared distance of two cell centres in square metres. */
  function SquaredMetres(g: Grid, i: int, j: int): real
    requires g.width > 0
  {
    InMetres(SquaredSteps(g, i, j), g.resolution)
  }

  lemma SquaredDistanceInSteps(g: Grid, i: int, j: int)
    requires g.width > 0
    ensures SquaredDistance(g, i, j) == SquaredMetres(g, i, j)
  {
    SquareOfDifference(Column(g, i), Column(g, j), g.originX, g.resolution);
    SquareOfDifference(Row(g, i), Row(g, j), g.originY, g.resolution);
    var dx, dy := Abs(Column(g, i) - Column(g, j)), Abs(Row(g, i) - Row(g, j));
    InMetresAdds(dx * dx, dy * dy, g.resolution);
  }

  /** The least squared distance two cells n steps apart can have: half of the steps each way. */
  function LeastSquare(n: nat): nat {
    var half := n / 2;
    half * half + (n - half) * (n - half)
  }

  lemma LeastSquareIsLeast(dx: nat, dy: nat, n: nat)
    requires dx + dy >= n
    ensures dx * dx + dy * dy >= LeastSquare(n)
    ensures 2 * LeastSquare(n) >= n * n
  {
    var h := n / 2;
    var k := n - h;
    assert k == h || k == h + 1;
    var a, b := if dx <= dy then dx else dy, if dx <= dy then dy else dx;
    assert a * a + b * b == dx * dx + dy * dy;
    SplitSquares(a, b, h, k);
    assert (k - h) * (k - h) >= 0;
    assert 2 * (h * h + k * k) == (h + k) * (h + k) + (k - h) * (k - h);
  }

  lemma SquareMonotone(a: nat, b: nat)
    requires a <= b
    ensures a * a <= b * b
  {
    assert (b - a) * (b + a) >= 0;
  }

  lemma SplitSquares(a: nat, b: nat, h: nat, k: nat)
    requires a <= b && a + b >= h + k && h <= k <= h + 1
    ensures a * a + b * b >= h * h + k * k
  {
    if a >= h {
      assert b >= k;
      SquareMonotone(h, a);
      SquareMonotone(k, b);
    } else {
      var e := h - a;
      SquareMonotone(k + e, b);
      assert a * a + (k + e) * (k + e) == h * h + k * k + 2 * (e * (k - h)) + 2 * (e * e);
      assert e * (k - h) >= 0;
    }
  }

  // ---------------------------------------------------------------- the promise about clearance

  /** The least squared distance, in square metres, of two cells the needed number of steps apart. */
  function LeastReach(clearance: real, r: real): real
    requires r > 0.0
  {
    var need := Need(clearance, r);
    InMetres(LeastSquare(if need < 0 then 0 else need), r)
  }

  lemma ReachCovers(clearance: real, r: real)
    requires clearance >= 0.0 && r > 0.0
    ensures 2.0 * LeastReach(clearance, r) >= clearance * clearance
  {
    hide InMetres, LeastSquare, Need;
    NeedCovers(clearance, r);
    LeastSquareInMetres(Need(clearance, r), clearance, r);
  }

  /** A candidate's centre is at least clearance / sqrt(2) away from every blocked centre. */
  lemma ClearanceGuarantee(g: Grid, clearance: real, i: int, s: int)
    requires g.Valid() && clearance >= 0.0 && Candidate(g, clearance, i) && g.Blocked(s)
    ensures 2.0 * SquaredDistance(g, i, s) >= clearance * clearance
  {
    SquaredDistanceInSteps(g, i, s);
    CandidateReach(g, clearance, i, s);
    ReachCovers(clearance, g.resolution);
    hide *;
  }

  lemma CandidateReach(g: Grid, clearance: real, i: int, s: int)
    requires g.Valid() && clearance >= 0.0 && Candidate(g, clearance, i) && g.Blocked(s)
    ensures SquaredMetres(g, i, s) >= LeastReach(clearance, g.resolution)
  {
    StepsBound(g, clearance, i, s);
    ScaleMonotone(LeastSquare(Need(clearance, g.resolution)), SquaredSteps(g, i, s), g.resolution);
  }

  lemma StepsBound(g: Grid, clearance: real, i: int, s: int)
    requires g.Valid() && clearance >= 0.0 && g.resolution > 0.0 && Candidate(g, clearance, i) && g.Blocked(s)
    ensures Need(clearance, g.resolution) >= 0
    ensures SquaredSteps(g, i, s) >= LeastSquare(Need(clearance, g.resolution))
  {
    NeedCovers(clearance, g.resolution);
    NearestIsMinimum(g, i);
    var dx, dy := Abs(Column(g, i) - Column(g, s)), Abs(Row(g, i) - Row(g, s));
    LeastSquareIsLeast(dx, dy, Need(clearance, g.resolution));
  }

  lemma NeedCovers(clearance: real, r: real)
    requires clearance >= 0.0 && r > 0.0
    ensures Need(clearance, r) >= 0 && Need(clearance, r) as real * r >= clearance
  {
    var q := clearance / r;
    CeilFacts(q);
    assert clearance == q * r;
    assert q >= 0.0;
    assert (Ceil(q) as real - q) * r >= 0.0;
  }

  lemma ScaleMonotone(a: int, b: int, r: real)
    requires a <= b
    ensures InMetres(a, r) <= InMetres(b, r)
  {
    assert r * r >= 0.0;
    assert (b - a) as real * (r * r) >= 0.0;
  }

  lemma LeastSquareInMetres(n: nat, clearance: real, r: real)
    requires clearance >= 0.0 && r > 0.0 && n as real * r >= clearance
    ensures 2.0 * InMetres(LeastSquare(n), r) >= clearance * clearance
  {
    LeastSquareIsLeast(n, 0, n);
    var reach := n as real * r;
    assert reach * reach >= clearance * clearance by { assert (reach - clearance) * (reach + clearance) >= 0.0; }
    assert reach * reach == InMetres(n * n, r);
    ScaleMonotone(n * n, 2 * LeastSquare(n), r);
    assert InMetres(2 * LeastSquare(n), r) == 2.0 * InMetres(LeastSquare(n), r);
  }

  /** The documented promise: every candidate is at least `clearance` from every blocked cell. */
  ghost predicate KeepsClearance(g: Grid, clearance: real)
    requires g.resolution > 0.0
  {
    forall i, s :: Candidate(g, clearance, i) && g.Blocked(s) ==> SquaredDistance(g, i, s) >= clearance * clearance
  }

  /** The other half of the promise is always kept: with something blocked, every free cell at least
      `clearance` from every blocked cell is a candidate. */
  lemma FarCellsAreCandidates(g: Grid, clearance: real, i: int)
    requires g.Valid() && 0 <= i < |g.data| && g.width > 0 && g.data[i] == 0
    requires exists s :: g.Blocked(s)
    requires forall s :: g.Blocked(s) ==> clearance <= 0.0 || SquaredDistance(g, i, s) >= clearance * clearance
    ensures Candidate(g, clearance, i)
  {
    hide SquaredDistance;
    forall s | g.Blocked(s) ensures Manhattan(g, i, s) >= Need(clearance, g.resolution) {
      if clearance <= 0.0 {
        NeedOfNothing(clearance, g.resolution);
      } else {
        SquaredDistanceInSteps(g, i, s);
        FarInSteps(g, i, s, clearance);
      }
    }
    CandidateMeaning(g, clearance, i);
  }

  lemma NeedOfNothing(clearance: real, r: real)
    requires clearance <= 0.0 && r > 0.0
    ensures Need(clearance, r) <= 0
  {
    var q := clearance / r;
    assert clearance == q * r;
    assert q <= 0.0;
  }

  /** Centres no nearer than the clearance lie enough steps apart. */
  lemma FarInSteps(g: Grid, i: int, s: int, clearance: real)
    requires g.width > 0 && g.resolution > 0.0 && clearance > 0.0
    requires SquaredMetres(g, i, s) >= clearance * clearance
    ensures Manhattan(g, i, s) >= Need(clearance, g.resolution)
  {
    var dx, dy, n := Abs(Column(g, i) - Column(g, s)), Abs(Row(g, i) - Row(g, s)), Manhattan(g, i, s);
    SquaresOfSum(dx, dy);
    ScaleMonotone(SquaredSteps(g, i, s), n * n, g.resolution);
    ReachOfSteps(n, clearance, g.resolution);
  }

  lemma SquaresOfSum(dx: nat, dy: nat)
    ensures dx * dx + dy * dy <= (dx + dy) * (dx + dy)
  {
    assert dx * dy >= 0;
  }

  lemma SquareLess(a: real, b: real)
    requires 0.0 <= a < b
    ensures a * a < b * b
  {
    assert (b - a) * (b + a) == b * b - a * a;
    MulPositive(b - a, b + a);
  }

  lemma MulPositive(a: real, b: real)
    requires a > 0.0 && b > 0.0
    ensures a * b > 0.0
  {
  }

  lemma ReachOfSteps(n: nat, clearance: real, r: real)
    requires r > 0.0 && clearance > 0.0 && InMetres(n * n, r) >= clearance * clearance
    ensures n >= Need(clearance, r)
  {
    var reach := n as real * r;
    SquareOfReach(n, r);
    if reach < clearance {
      SquareLess(reach, clearance);
    }
    QuotientAtMost(clearance, r, n);
    CeilFacts(clearance / r);
  }

  lemma SquareOfReach(n: nat, r: real)
    requires r > 0.0
    ensures n as real * r >= 0.0 && (n as real * r) * (n as real * r) == InMetres(n * n, r)
  {
    var k := n as real;
    assert (n * n) as real == k * k;
    assert (k * r) * (k * r) == (k * k) * (r * r);
  }

  lemma QuotientAtMost(c: real, r: real, n: nat)
    requires r > 0.0
    ensures n as real * r >= c ==> c / r <= n as real
  {
    var q := c / r;
    assert c == q * r;
    if n as real < q {
      MulPositive(q - n as real, r);
      assert (q - n as real) * r == q * r - n as real * r;
    }
  }

  /** A free cell at least `clearance` from every occupied or unknown one. */
  ghost predicate IsClear(g: Grid, clearance: real, i: int) {
    0 <= i < |g.data| && g.width > 0 && g.data[i] == 0
    && forall s :: 0 <= s < |g.data| && g.data[s] != 0 ==> SquaredDistance(g, i, s) >= clearance * clearance
  }

  /** So on a map with something blocked the promise is kept exactly when the candidates are the clear cells,
      no more and no fewer. */
  lemma KeptMeansExact(g: Grid, clearance: real)
    requires g.Valid() && clearance >= 0.0 && exists s :: g.Blocked(s)
    ensures KeepsClearance(g, clearance) <==> forall i :: Candidate(g, clearance, i) <==> IsClear(g, clearance, i)
  {
    hide SquaredDistance, Nearest;
    forall i | IsClear(g, clearance, i) ensures Candidate(g, clearance, i) {
      FarCellsAreCandidates(g, clearance, i);
    }
    if KeepsClearance(g, clearance) {
      forall i | Candidate(g, clearance, i) ensures IsClear(g, clearance, i) {
      }
    }
  }

  /** What a caller has to check for the promise to hold on every map of that resolution. */
  predicate ClearanceIsSafe(clearance: real, r: real)
    requires r > 0.0
  {
    clearance <= 0.0 || LeastReach(clearance, r) >= clearance * clearance
  }

  lemma SafeClearanceIsKept(g: Grid, clearance: real)
    requires g.Valid() && clearance >= 0.0 && ClearanceIsSafe(clearance, g.resolution)
    ensures KeepsClearance(g, clearance)
  {
    hide SquaredDistance;
    forall i, s | Candidate(g, clearance, i) && g.Blocked(s) ensures SquaredDistance(g, i, s) >= clearance * clearance {
      SquaredDistanceInSteps(g, i, s);
      CandidateReach(g, clearance, i, s);
    }
  }

  /** A map whose only blocked cell is a corner, just large enough for a cell n steps away along the
      diagonal. */
  function CornerMap(n: nat, r: real): Grid {
    var half := n / 2;
    Grid(half + 1, n - half + 1, r, 0.0, 0.0, seq((half + 1) * (n - half + 1), k => if k == 0 then 100 else 0))
  }

  lemma CornerMapCandidate(clearance: real, r: real)
    requires r > 0.0 && clearance > 0.0
    ensures Need(clearance, r) >= 1
    ensures var n := Need(clearance, r); var g := CornerMap(n, r); var i := Cell(g, n / 2, n - n / 2);
      && g.Valid() && g.Blocked(0) && Candidate(g, clearance, i)
      && Column(g, i) == n / 2 && Row(g, i) == n - n / 2 && Column(g, 0) == 0 && Row(g, 0) == 0
  {
    NeedCovers(clearance, r);
    var n := Need(clearance, r);
    assert n != 0;
    var g := CornerMap(n, r);
    var i := Cell(g, n / 2, n - n / 2);
    CellInRange(g, n / 2, n - n / 2);
    CellInRange(g, 0, 0);
    assert Cell(g, 0, 0) == 0;
    assert i != 0;
    assert forall s :: g.Blocked(s) <==> s == 0;
    NearestIsMinimum(g, i);
  }

  lemma CornerMapBreaksPromise(clearance: real, r: real)
    requires r > 0.0 && clearance > 0.0 && !ClearanceIsSafe(clearance, r)
    ensures exists g: Grid :: g.Valid() && g.resolution == r && !KeepsClearance(g, clearance)
  {
    hide SquaredDistance;
    CornerMapCandidate(clearance, r);
    var n := Need(clearance, r);
    var g := CornerMap(n, r);
    var i := Cell(g, n / 2, n - n / 2);
    SquaredDistanceInSteps(g, i, 0);
    assert SquaredSteps(g, i, 0) == LeastSquare(n);
    assert SquaredMetres(g, i, 0) == LeastReach(clearance, r);
    assert !KeepsClearance(g, clearance);
  }

  /** The promise holds on every map of a resolution exactly when the clearance is safe: steps count
      diagonal moves twice, so a longer clearance is cut short along diagonals. */
  lemma ClearancePromise(clearance: real, r: real)
    requires r > 0.0 && clearance >= 0.0
    ensures (forall g: Grid :: g.Valid() && g.resolution == r ==> KeepsClearance(g, clearance)) <==> ClearanceIsSafe(clearance, r)
  {
    if ClearanceIsSafe(clearance, r) {
      forall g: Grid | g.Valid() && g.resolution == r ensures KeepsClearance(g, clearance) {
        SafeClearanceIsKept(g, clearance);
      }
    } else {
      CornerMapBreaksPromise(clearance, r);
    }
  }

  /** The stress run's default of 0.2 m on a 0.05 m map is not safe: diagonal candidates lie closer. */
  lemma DefaultClearanceIsUnsafe()
    ensures exists g: Grid :: g.Valid() && g.resolution == 0.05 && !KeepsClearance(g, 0.2)
  {
    assert 0.2 / 0.05 == 4.0;
    assert Need(0.2, 0.05) == 4 && LeastSquare(4) == 8;
    CornerMapBreaksPromise(0.2, 0.05);
  }
}
