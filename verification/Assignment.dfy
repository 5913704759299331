/** The square minimum-cost assignment solver: a potential-based Hungarian method that inserts
    one row at a time and repairs the matching along a shortest augmenting path.

    Rows and columns are numbered from 1 inside the solver; entry 0 of `v`, `p`, `way`,
    `minimum` and `used` belongs to the artificial column that holds the row being inserted. */
module Assignment {
  import opened Sums

  type Matrix = seq<seq<real>>

  /** Slack estimates start out infinite. */
  datatype Extended = Finite(value: real) | Infinity {
    predicate Less(other: Extended) {
      match (this, other)
      case (Finite(a), Finite(b)) => a < b
      case (Finite(_), Infinity) => true
      case (Infinity, _) => false
    }

    function Minus(delta: real): Extended {
      match this
      case Finite(a) => Finite(a - delta)
      case Infinity => Infinity
    }
  }

  datatype Outcome = Assigned(columns: seq<int>) | NotSquare

  ghost predicate Square(c: Matrix) {
    forall i :: 0 <= i < |c| ==> |c[i]| == |c|
  }

  // ---------------------------------------------------------------- what a solution is

  /** `cols` sends the first |cols| rows to distinct columns. */
  ghost predicate Placement(c: Matrix, cols: seq<int>) {
    |cols| <= |c| && Below(cols, |c|) && Injective(cols)
  }

  ghost function CostOf(c: Matrix, cols: seq<int>): real
    requires Square(c) && Placement(c, cols)
  {
    if cols == [] then 0.0
    else
      var k := |cols| - 1;
      CostOf(c, cols[..k]) + c[k][cols[k]]
  }

  ghost predicate Cheapest(c: Matrix, cols: seq<int>)
    requires Square(c)
  {
    && Placement(c, cols)
    && forall other :: Placement(c, other) && |other| == |cols| ==> CostOf(c, cols) <= CostOf(c, other)
  }

  // ---------------------------------------------------------------- weak duality

  ghost predicate Shaped(c: Matrix, u: seq<real>, v: seq<real>) {
    Square(c) && |u| == |c| + 1 && |v| == |c| + 1
  }

  ghost function Slack(c: Matrix, u: seq<real>, v: seq<real>, i: int, j: int): real
    requires Shaped(c, u, v) && 1 <= i <= |c| && 1 <= j <= |c|
  {
    c[i - 1][j - 1] - u[i] - v[j]
  }

  ghost predicate Feasible(c: Matrix, u: seq<real>, v: seq<real>, r: int)
    requires Shaped(c, u, v) && 0 <= r <= |c|
  {
    forall i, j :: 1 <= i <= r && 1 <= j <= |c| ==> Slack(c, u, v, i, j) >= 0.0
  }

  /** Cost minus dual value is the total slack of the chosen cells. */
  lemma {:induction false} CostFromDuals(c: Matrix, u: seq<real>, v: seq<real>, cols: seq<int>)
    requires Shaped(c, u, v) && Placement(c, cols)
    ensures Feasible(c, u, v, |cols|) ==> CostOf(c, cols) >= Sum(u[1..|cols| + 1]) + SumAt(v[1..], cols)
    ensures (forall k :: 0 <= k < |cols| ==> Slack(c, u, v, k + 1, cols[k] + 1) == 0.0)
              ==> CostOf(c, cols) == Sum(u[1..|cols| + 1]) + SumAt(v[1..], cols)
  {
    if cols != [] {
      var k := |cols| - 1;
      CostFromDuals(c, u, v, cols[..k]);
      assert u[1..|cols| + 1][..k] == u[1..k + 1];
      var s := Slack(c, u, v, k + 1, cols[k] + 1);
      assert c[k][cols[k]] == s + u[k + 1] + v[1..][cols[k]];
    }
  }

  // ---------------------------------------------------------------- matchings in progress

  /** Leaving out column `hole`, `p` and `at` are inverse to each other: `at[i]` is the column of
      row i for each of the rows 1..r, and a column whose `p` is 0 is free. */
  ghost predicate Matched(p: seq<int>, at: seq<int>, r: int, hole: int) {
    && |at| == |p|
    && (forall i :: 1 <= i <= r && i < |at| ==> 0 <= at[i] < |p| && at[i] != hole && p[at[i]] == i)
    && (forall j :: 0 <= j < |p| && j != hole && p[j] != 0 ==> 1 <= p[j] <= r && p[j] < |at| && at[p[j]] == j)
  }

  ghost predicate Tight(c: Matrix, u: seq<real>, v: seq<real>, p: seq<int>, hole: int)
    requires Shaped(c, u, v) && |p| == |v|
  {
    forall j :: 1 <= j < |p| && j != hole && 1 <= p[j] <= |c| ==> Slack(c, u, v, p[j], j) == 0.0
  }

  /** Column potentials are never positive and stay 0 on free columns; rows not yet inserted have
      potential 0; all potentials, the artificial column's included, cancel. */
  ghost predicate Balanced(u: seq<real>, v: seq<real>, p: seq<int>, r: int)
    requires |u| == |v| == |p|
  {
    && (forall j :: 1 <= j < |v| ==> v[j] <= 0.0)
    && (forall j :: 1 <= j < |v| && p[j] == 0 ==> v[j] == 0.0)
    && (forall i :: 0 <= i < |u| && (i == 0 || i > r) ==> u[i] == 0.0)
    && Sum(u) + Sum(v) == 0.0
  }

  /** The state between two outer phases, after rows 1..r have been inserted. */
  ghost predicate PhaseInv(c: Matrix, u: seq<real>, v: seq<real>, p: seq<int>, at: seq<int>, r: int) {
    && Shaped(c, u, v) && |p| == |c| + 1 && 0 <= r <= |c|
    && Matched(p, at, r, 0)
    && Feasible(c, u, v, r)
    && Tight(c, u, v, p, 0)
    && Balanced(u, v, p, r)
  }

  /** The columns (from 0) of the inserted rows. */
  ghost function Columns(at: seq<int>, r: nat): (cols: seq<int>)
    requires r < |at|
  {
    seq(r, k requires 0 <= k < r => at[k + 1] - 1)
  }

  lemma ColumnsPlaced(c: Matrix, p: seq<int>, at: seq<int>, r: int)
    requires |p| == |c| + 1 && 0 <= r <= |c| && Matched(p, at, r, 0)
    ensures Placement(c, Columns(at, r))
  {
    var cols := Columns(at, r);
    forall a, b | 0 <= a < b < r ensures cols[a] != cols[b] {
      assert p[at[a + 1]] == a + 1 && p[at[b + 1]] == b + 1;
    }
  }

  lemma ColumnsTight(c: Matrix, u: seq<real>, v: seq<real>, p: seq<int>, at: seq<int>, r: int)
    requires Shaped(c, u, v) && |p| == |c| + 1 && 0 <= r <= |c| && Matched(p, at, r, 0) && Tight(c, u, v, p, 0)
    ensures forall k :: 0 <= k < r ==>
      0 <= Columns(at, r)[k] < |c| && Slack(c, u, v, k + 1, Columns(at, r)[k] + 1) == 0.0
  {
    forall k | 0 <= k < r
      ensures 0 <= Columns(at, r)[k] < |c| && Slack(c, u, v, k + 1, Columns(at, r)[k] + 1) == 0.0
    {
      var i := k + 1;
      assert p[at[i]] == i;
    }
  }

  lemma ColumnsCover(p: seq<int>, at: seq<int>, r: int, j: int)
    requires 0 <= r < |p| && Matched(p, at, r, 0) && 1 <= j < |p| && p[j] != 0
    ensures j - 1 in Columns(at, r)
  {
    assert at[p[j]] == j;
    assert Columns(at, r)[p[j] - 1] == j - 1;
  }

  lemma UncoveredIsWeightless(c: Matrix, u: seq<real>, v: seq<real>, p: seq<int>, at: seq<int>, r: int)
    requires PhaseInv(c, u, v, p, at, r)
    ensures forall j :: 0 <= j < |c| && j !in Columns(at, r) ==> v[j + 1] == 0.0
  {
    assert |at| == |p|;
    hide Matched, Columns;
    forall j | 0 <= j < |c| && v[j + 1] != 0.0 ensures j in Columns(at, r) {
      ColumnsCover(p, at, r, j + 1);
    }
  }

  /** After every phase the partial matching is cheapest among all placements of the inserted rows,
      and -v[0] is its cost. */
  lemma PhaseOptimal(c: Matrix, u: seq<real>, v: seq<real>, p: seq<int>, at: seq<int>, r: int)
    requires PhaseInv(c, u, v, p, at, r)
    ensures Cheapest(c, Columns(at, r))
    ensures CostOf(c, Columns(at, r)) == -v[0]
  {
    assert |at| == |p|;
    hide Matched, Tight, Slack, CostOf, Feasible;
    ColumnsPlaced(c, p, at, r);
    ColumnsTight(c, u, v, p, at, r);
    UncoveredIsWeightless(c, u, v, p, at, r);
    DualBound(c, u, v, Columns(at, r), r);
    forall other | Placement(c, other) && |other| == r ensures -v[0] <= CostOf(c, other) {
      DualBound(c, u, v, other, r);
    }
  }

  /** -v[0] is a lower bound on every placement of the first r rows, reached by the tight ones that
      leave only weightless columns free. */
  lemma DualBound(c: Matrix, u: seq<real>, v: seq<real>, cols: seq<int>, r: int)
    requires Shaped(c, u, v) && 0 <= r <= |c| && Feasible(c, u, v, r)
    requires forall j :: 1 <= j < |v| ==> v[j] <= 0.0
    requires forall i :: 0 <= i < |u| && (i == 0 || i > r) ==> u[i] == 0.0
    requires Sum(u) + Sum(v) == 0.0
    requires Placement(c, cols) && |cols| == r
    ensures CostOf(c, cols) >= -v[0]
    ensures (forall k :: 0 <= k < r ==> Slack(c, u, v, k + 1, cols[k] + 1) == 0.0)
         && (forall j :: 0 <= j < |c| && j !in cols ==> v[j + 1] == 0.0)
         ==> CostOf(c, cols) == -v[0]
  {
    SumMiddle(u, 1, r + 1);
    SumSplitHead(v);
    CostFromDuals(c, u, v, cols);
    InjectiveSum(v[1..], cols);
  }

  // ---------------------------------------------------------------- the search tree of one phase

  /** `path` lists the used columns in the order they were used, `rank` is its inverse, and every
      used column holds a row. */
  ghost predicate Explored(p: seq<int>, used: seq<bool>, path: seq<int>, rank: seq<int>) {
    && |used| == |p| == |rank|
    && (forall k :: 0 <= k < |path| ==> 0 <= path[k] < |used| && used[path[k]] && rank[path[k]] == k)
    && (forall j :: 0 <= j < |used| && used[j] ==> 0 <= rank[j] < |path| && path[rank[j]] == j && p[j] != 0)
    && (path != [] ==> path[0] == 0)
  }

  /** `way` leads from each used column to one used earlier, over a cell without slack. */
  ghost predicate Tree(c: Matrix, u: seq<real>, v: seq<real>, p: seq<int>, way: seq<int>, used: seq<bool>, rank: seq<int>)
    requires Shaped(c, u, v) && |p| == |way| == |used| == |rank| == |c| + 1
  {
    forall j :: 1 <= j < |used| && used[j] ==>
      && 0 <= way[j] < |used| && used[way[j]] && rank[way[j]] < rank[j]
      && 1 <= p[way[j]] <= |c| && Slack(c, u, v, p[way[j]], j) == 0.0
  }

  /** `minimum[j]` is the least slack of unused column j over the rows of the used columns, and
      `way[j]` is a column whose row attains it. */
  ghost predicate Margins(c: Matrix, u: seq<real>, v: seq<real>, p: seq<int>, way: seq<int>,
                          minimum: seq<Extended>, used: seq<bool>)
    requires Shaped(c, u, v) && |p| == |way| == |used| == |minimum| == |c| + 1
  {
    && (forall j :: 1 <= j < |used| && !used[j] ==>
         && minimum[j].Finite?
         && 0 <= way[j] < |used| && used[way[j]] && 1 <= p[way[j]] <= |c|
         && minimum[j].value == Slack(c, u, v, p[way[j]], j))
    && (forall w, j :: 0 <= w < |used| && used[w] && 1 <= p[w] <= |c| && 1 <= j < |used| && !used[j] ==>
         minimum[j].Finite? && minimum[j].value <= Slack(c, u, v, p[w], j))
  }

  /** The state at the head of the search loop of phase `row`. */
  ghost predicate SearchInv(c: Matrix, u: seq<real>, v: seq<real>, p: seq<int>, at: seq<int>, row: int,
                            way: seq<int>, minimum: seq<Extended>, used: seq<bool>,
                            path: seq<int>, rank: seq<int>, column0: int)
  {
    && Shaped(c, u, v) && 1 <= row <= |c|
    && |p| == |way| == |minimum| == |used| == |c| + 1
    && Matched(p, at, row, -1) && p[0] == row
    && Explored(p, used, path, rank)
    && Tree(c, u, v, p, way, used, rank)
    && Feasible(c, u, v, row - 1)
    && Tight(c, u, v, p, 0)
    && Balanced(u, v, p, row)
    && 0 <= column0 < |used| && !used[column0]
    && if path == [] then
         && column0 == 0 && u[row] == 0.0
         && (forall j :: 0 <= j < |minimum| ==> minimum[j] == Infinity)
       else
         && column0 != 0
         && Feasible(c, u, v, row)
         && Margins(c, u, v, p, way, minimum, used)
         && minimum[column0] == Finite(0.0)
  }

  /** What one pass of the relaxation loop does: every unused column takes the slack of the new row
      when that is strictly smaller. */
  ghost predicate Relaxed(c: Matrix, u: seq<real>, v: seq<real>, used: seq<bool>, row0: int, column0: int,
                          way: seq<int>, minimum: seq<Extended>, way': seq<int>, minimum': seq<Extended>)
    requires Shaped(c, u, v) && 1 <= row0 <= |c|
    requires |used| == |way| == |minimum| == |way'| == |minimum'| == |c| + 1
  {
    forall j :: 1 <= j < |used| ==>
      if !used[j] && Finite(Slack(c, u, v, row0, j)).Less(minimum[j])
      then minimum'[j] == Finite(Slack(c, u, v, row0, j)) && way'[j] == column0
      else minimum'[j] == minimum[j] && way'[j] == way[j]
  }

  /** `column1` is the first unused column of least margin, and `delta` that margin; 0 and infinity
      when no unused column has a finite margin. */
  ghost predicate Least(minimum: seq<Extended>, used: seq<bool>, delta: Extended, column1: int)
    requires |minimum| == |used|
  {
    && (forall j :: 1 <= j < |used| && !used[j] ==> !minimum[j].Less(delta))
    && (column1 == 0 ==> delta == Infinity)
    && (column1 != 0 ==>
         && 1 <= column1 < |used| && !used[column1] && delta.Finite? && minimum[column1] == delta
         && forall j :: 1 <= j < column1 && !used[j] ==> delta.Less(minimum[j]))
  }

  lemma RelaxExplores(p: seq<int>, used: seq<bool>, path: seq<int>, rank: seq<int>, column0: int)
    requires Explored(p, used, path, rank) && 0 <= column0 < |used| && !used[column0] && p[column0] != 0
    requires path == [] ==> column0 == 0
    ensures Explored(p, used[column0 := true], path + [column0], rank[column0 := |path|])
  {
  }

  /** The new column hangs below the column whose row gave it its margin of 0. */
  lemma RelaxExtendsTree(c: Matrix, u: seq<real>, v: seq<real>, p: seq<int>, way: seq<int>, minimum: seq<Extended>,
                         used: seq<bool>, path: seq<int>, rank: seq<int>, column0: int, way': seq<int>)
    requires Shaped(c, u, v) && |p| == |way| == |minimum| == |used| == |way'| == |c| + 1
    requires Explored(p, used, path, rank) && Tree(c, u, v, p, way, used, rank)
    requires 0 <= column0 < |used| && !used[column0]
    requires column0 != 0 ==> Margins(c, u, v, p, way, minimum, used) && minimum[column0] == Finite(0.0)
    requires forall j :: 1 <= j < |used| && (used[j] || j == column0) ==> way'[j] == way[j]
    ensures Tree(c, u, v, p, way', used[column0 := true], rank[column0 := |path|])
  {
  }

  lemma RelaxMargins(c: Matrix, u: seq<real>, v: seq<real>, p: seq<int>, way: seq<int>, minimum: seq<Extended>,
                     used: seq<bool>, column0: int, way': seq<int>, minimum': seq<Extended>)
    requires Shaped(c, u, v) && |p| == |way| == |minimum| == |used| == |way'| == |minimum'| == |c| + 1
    requires 0 <= column0 < |used| && !used[column0] && 1 <= p[column0] <= |c|
    requires if column0 == 0 then forall j :: 0 <= j < |used| ==> !used[j] && minimum[j] == Infinity
             else Margins(c, u, v, p, way, minimum, used)
    requires Relaxed(c, u, v, used[column0 := true], p[column0], column0, way, minimum, way', minimum')
    ensures Margins(c, u, v, p, way', minimum', used[column0 := true])
  {
  }

  /** Used columns hold distinct rows among 1..row, so there are at most `row` of them, and some real
      column is still unused. */
  lemma FreshColumn(p: seq<int>, at: seq<int>, row: int, used: seq<bool>, path: seq<int>, rank: seq<int>)
    requires Explored(p, used, path, rank) && Matched(p, at, row, -1) && path != []
    requires 1 <= row < |p|
    ensures |path| <= row
    ensures exists j :: 1 <= j < |used| && !used[j]
  {
    var rows := seq(|path|, k requires 0 <= k < |path| => p[path[k]] - 1);
    forall a, b | 0 <= a < b < |rows| ensures rows[a] != rows[b] {
      assert at[p[path[a]]] == path[a] && at[p[path[b]]] == path[b];
    }
    Pigeonhole(rows, row);
    if forall j :: 1 <= j < |used| ==> used[j] {
      Pigeonhole(seq(|used|, j requires 0 <= j < |used| => rank[j]), |path|);
    }
  }

  /** The potentials after moving the used columns, and the rows they hold, by `delta`. */
  ghost predicate Shifted(at: seq<int>, row: int, used: seq<bool>, delta: real,
                          u: seq<real>, v: seq<real>, minimum: seq<Extended>,
                          u': seq<real>, v': seq<real>, minimum': seq<Extended>)
  {
    && |used| == |at| == |u| == |v| == |minimum| == |u'| == |v'| == |minimum'|
    && (forall i :: 0 <= i < |u| ==> u'[i] == u[i] + if Moved(|used|, at, row, used, i) then delta else 0.0)
    && (forall j :: 0 <= j < |v| ==> v'[j] == v[j] - if used[j] then delta else 0.0)
    && (forall j :: 0 <= j < |v| ==> minimum'[j] == if used[j] then minimum[j] else minimum[j].Minus(delta))
    && Sum(u') + Sum(v') == Sum(u) + Sum(v)
  }

  /** Row i is held by a used column before `column`. */
  ghost predicate Moved(column: int, at: seq<int>, row: int, used: seq<bool>, i: int) {
    1 <= i <= row && i < |at| && 0 <= at[i] < column && at[i] < |used| && used[at[i]]
  }

  lemma SlackAfterShift(c: Matrix, u: seq<real>, v: seq<real>, p: seq<int>, at: seq<int>, row: int,
                        used: seq<bool>, delta: real, minimum: seq<Extended>,
                        u': seq<real>, v': seq<real>, minimum': seq<Extended>)
    requires Shaped(c, u, v) && 1 <= row <= |c| && |p| == |used| == |c| + 1 && Matched(p, at, row, -1)
    requires Shifted(at, row, used, delta, u, v, minimum, u', v', minimum')
    ensures forall i, j :: 1 <= i <= row && 1 <= j <= |c| ==>
      Slack(c, u', v', i, j) == Slack(c, u, v, i, j)
        - (if used[at[i]] then delta else 0.0) + (if used[j] then delta else 0.0)
  {
  }

  /** Moving the potentials by the least margin keeps every row feasible and makes the row being
      inserted feasible, the first time too, when the margin may be negative. */
  lemma ShiftFeasible(c: Matrix, u: seq<real>, v: seq<real>, p: seq<int>, at: seq<int>, row: int,
                      way: seq<int>, minimum: seq<Extended>, used: seq<bool>,
                      delta: real, u': seq<real>, v': seq<real>, minimum': seq<Extended>)
    requires Shaped(c, u, v) && 1 <= row <= |c| && |p| == |way| == |minimum| == |used| == |c| + 1
    requires Matched(p, at, row, -1) && p[0] == row && used[0]
    requires Feasible(c, u, v, row - 1)
    requires (delta >= 0.0 && Feasible(c, u, v, row)) || (forall j :: 1 <= j < |used| ==> !used[j])
    requires Margins(c, u, v, p, way, minimum, used)
    requires forall j :: 1 <= j < |used| && !used[j] ==> !minimum[j].Less(Finite(delta))
    requires Shifted(at, row, used, delta, u, v, minimum, u', v', minimum')
    ensures Feasible(c, u', v', row)
  {
    SlackAfterShift(c, u, v, p, at, row, used, delta, minimum, u', v', minimum');
    forall i, j | 1 <= i <= row && 1 <= j <= |c| ensures Slack(c, u', v', i, j) >= 0.0 {
      assert p[at[i]] == i;
      if used[at[i]] && !used[j] {
        assert minimum[j].value <= Slack(c, u, v, p[at[i]], j);
      }
    }
  }

  lemma ShiftTree(c: Matrix, u: seq<real>, v: seq<real>, p: seq<int>, at: seq<int>, row: int,
                  way: seq<int>, minimum: seq<Extended>, used: seq<bool>, rank: seq<int>,
                  delta: real, u': seq<real>, v': seq<real>, minimum': seq<Extended>)
    requires Shaped(c, u, v) && 1 <= row <= |c| && |p| == |way| == |minimum| == |used| == |rank| == |c| + 1
    requires Matched(p, at, row, -1) && Tree(c, u, v, p, way, used, rank)
    requires Shifted(at, row, used, delta, u, v, minimum, u', v', minimum')
    ensures Tree(c, u', v', p, way, used, rank)
  {
    SlackAfterShift(c, u, v, p, at, row, used, delta, minimum, u', v', minimum');
    assert forall j :: 0 <= j < |p| && p[j] != 0 ==> at[p[j]] == j;
  }

  lemma ShiftMargins(c: Matrix, u: seq<real>, v: seq<real>, p: seq<int>, at: seq<int>, row: int,
                     way: seq<int>, minimum: seq<Extended>, used: seq<bool>,
                     delta: real, u': seq<real>, v': seq<real>, minimum': seq<Extended>)
    requires Shaped(c, u, v) && 1 <= row <= |c| && |p| == |way| == |minimum| == |used| == |c| + 1
    requires Matched(p, at, row, -1) && Margins(c, u, v, p, way, minimum, used)
    requires Shifted(at, row, used, delta, u, v, minimum, u', v', minimum')
    ensures Margins(c, u', v', p, way, minimum', used)
  {
    SlackAfterShift(c, u, v, p, at, row, used, delta, minimum, u', v', minimum');
    assert forall j :: 0 <= j < |p| && p[j] != 0 ==> at[p[j]] == j;
  }

  lemma ShiftTight(c: Matrix, u: seq<real>, v: seq<real>, p: seq<int>, at: seq<int>, row: int,
                   used: seq<bool>, minimum: seq<Extended>,
                   delta: real, u': seq<real>, v': seq<real>, minimum': seq<Extended>)
    requires Shaped(c, u, v) && 1 <= row <= |c| && |p| == |minimum| == |used| == |c| + 1
    requires Matched(p, at, row, -1) && Tight(c, u, v, p, 0)
    requires Shifted(at, row, used, delta, u, v, minimum, u', v', minimum')
    ensures Tight(c, u', v', p, 0)
  {
    SlackAfterShift(c, u, v, p, at, row, used, delta, minimum, u', v', minimum');
    assert forall j :: 0 <= j < |p| && p[j] != 0 ==> at[p[j]] == j;
  }

  // ---------------------------------------------------------------- the solver

  /** One pass over the unused columns: relax their margins from `row0`, pick the least. */
  method RelaxColumns(c: Matrix, u: array<real>, v: array<real>, used: array<bool>, row0: int, column0: int,
                      minimum: array<Extended>, way: array<int>)
    returns (delta: Extended, column1: int, ghost visits: nat)
    requires Shaped(c, u[..], v[..]) && 1 <= row0 <= |c|
    requires used.Length == minimum.Length == way.Length == |c| + 1
    modifies minimum, way
    ensures Relaxed(c, u[..], v[..], used[..], row0, column0, old(way[..]), old(minimum[..]), way[..], minimum[..])
    ensures Least(minimum[..], used[..], delta, column1)
    ensures visits == |c|
  {
    delta, column1, visits := Infinity, 0, 0;
    for column := 1 to |c| + 1
      invariant visits == column - 1
      invariant forall j :: column <= j < minimum.Length ==> minimum[j] == old(minimum[j]) && way[j] == old(way[j])
      invariant forall j :: 1 <= j < column ==>
        if !used[j] && Finite(Slack(c, u[..], v[..], row0, j)).Less(old(minimum[j]))
        then minimum[j] == Finite(Slack(c, u[..], v[..], row0, j)) && way[j] == column0
        else minimum[j] == old(minimum[j]) && way[j] == old(way[j])
      invariant forall j :: 1 <= j < column && !used[j] ==> !minimum[j].Less(delta)
      invariant column1 == 0 ==> delta == Infinity
      invariant column1 != 0 ==>
        && 1 <= column1 < column && !used[column1] && delta.Finite? && minimum[column1] == delta
        && forall j :: 1 <= j < column1 && !used[j] ==> delta.Less(minimum[j])
    {
      visits := visits + 1;
      if used[column] {
        continue;
      }
      var current := Finite(c[row0 - 1][column - 1] - u[row0] - v[column]);
      assert current == Finite(Slack(c, u[..], v[..], row0, column));
      if current.Less(minimum[column]) {
        minimum[column] := current;
        way[column] := column0;
      }
      if minimum[column].Less(delta) {
        delta := minimum[column];
        column1 := column;
      }
    }
  }

  /** The potentials and margins, as one value. */
  datatype Duals = Duals(u: seq<real>, v: seq<real>, minimum: seq<Extended>)

  /** The potentials after the columns before `column` have been visited. */
  ghost function ShiftedDuals(d: Duals, p: seq<int>, used: seq<bool>, delta: real, column: nat): (r: Duals)
    requires |d.u| == |d.v| == |d.minimum| == |p| == |used| && column <= |p|
    requires forall j :: 0 <= j < |p| ==> 0 <= p[j] < |p|
    ensures |r.u| == |r.v| == |r.minimum| == |p|
  {
    if column == 0 then d
    else ShiftedOnce(ShiftedDuals(d, p, used, delta, column - 1), p[column - 1], used[column - 1], delta, column - 1)
  }

  /** One visit of column j, which holds row i. */
  ghost function ShiftedOnce(d: Duals, i: int, used: bool, delta: real, j: int): Duals
    requires |d.u| == |d.v| == |d.minimum| && 0 <= i < |d.u| && 0 <= j < |d.v|
  {
    if used then Duals(d.u[i := d.u[i] + delta], d.v[j := d.v[j] - delta], d.minimum)
    else Duals(d.u, d.v, d.minimum[j := d.minimum[j].Minus(delta)])
  }

  lemma {:induction false} ShiftedRow(d: Duals, p: seq<int>, at: seq<int>, row: int, used: seq<bool>,
                                      delta: real, column: nat, i: int)
    requires |d.u| == |d.v| == |d.minimum| == |p| == |used| && column <= |p|
    requires 1 <= row < |p| && Matched(p, at, row, -1)
    requires forall j :: 0 <= j < |p| ==> 0 <= p[j] < |p|
    requires forall j :: 0 <= j < |p| && used[j] ==> p[j] != 0
    requires 0 <= i < |p|
    ensures ShiftedDuals(d, p, used, delta, column).u[i] == d.u[i] + if Moved(column, at, row, used, i) then delta else 0.0
  {
    if column != 0 {
      var j := column - 1;
      ShiftedRow(d, p, at, row, used, delta, j, i);
      if used[j] {
        assert at[p[j]] == j;
        assert 1 <= i <= row && at[i] == j ==> p[at[i]] == i;
      }
    }
  }

  lemma {:induction false} ShiftedColumn(d: Duals, p: seq<int>, used: seq<bool>, delta: real, column: nat, j: int)
    requires |d.u| == |d.v| == |d.minimum| == |p| == |used| && column <= |p|
    requires forall j :: 0 <= j < |p| ==> 0 <= p[j] < |p|
    requires 0 <= j < |p|
    ensures ShiftedDuals(d, p, used, delta, column).v[j] == d.v[j] - if j < column && used[j] then delta else 0.0
    ensures ShiftedDuals(d, p, used, delta, column).minimum[j]
         == if j < column && !used[j] then d.minimum[j].Minus(delta) else d.minimum[j]
  {
    if column != 0 {
      ShiftedColumn(d, p, used, delta, column - 1, j);
    }
  }

  lemma ShiftedOnceKeepsSum(d: Duals, i: int, used: bool, delta: real, j: int)
    requires |d.u| == |d.v| == |d.minimum| && 0 <= i < |d.u| && 0 <= j < |d.v|
    ensures var r := ShiftedOnce(d, i, used, delta, j); Sum(r.u) + Sum(r.v) == Sum(d.u) + Sum(d.v)
  {
    SumUpdate(d.u, i, d.u[i] + delta);
    SumUpdate(d.v, j, d.v[j] - delta);
  }

  lemma {:induction false} ShiftedSum(d: Duals, p: seq<int>, used: seq<bool>, delta: real, column: nat)
    requires |d.u| == |d.v| == |d.minimum| == |p| == |used| && column <= |p|
    requires forall j :: 0 <= j < |p| ==> 0 <= p[j] < |p|
    ensures var r := ShiftedDuals(d, p, used, delta, column); Sum(r.u) + Sum(r.v) == Sum(d.u) + Sum(d.v)
  {
    if column != 0 {
      var j := column - 1;
      ShiftedSum(d, p, used, delta, j);
      ShiftedOnceKeepsSum(ShiftedDuals(d, p, used, delta, j), p[j], used[j], delta, j);
    }
  }

  /** Visiting every column moves exactly the used columns and the rows they hold. */
  lemma ShiftedDualsMeaning(d: Duals, p: seq<int>, at: seq<int>, row: int, used: seq<bool>, delta: real)
    requires |d.u| == |d.v| == |d.minimum| == |p| == |used|
    requires 1 <= row < |p| && Matched(p, at, row, -1)
    requires forall j :: 0 <= j < |p| ==> 0 <= p[j] < |p|
    requires forall j :: 0 <= j < |p| && used[j] ==> p[j] != 0
    ensures var r := ShiftedDuals(d, p, used, delta, |p|);
      Shifted(at, row, used, delta, d.u, d.v, d.minimum, r.u, r.v, r.minimum)
  {
    ShiftedSum(d, p, used, delta, |p|);
    forall k | 0 <= k < |p|
      ensures
        var r := ShiftedDuals(d, p, used, delta, |p|);
        && r.u[k] == d.u[k] + (if Moved(|p|, at, row, used, k) then delta else 0.0)
        && r.v[k] == d.v[k] - (if used[k] then delta else 0.0)
        && r.minimum[k] == if used[k] then d.minimum[k] else d.minimum[k].Minus(delta)
    {
      ShiftedRow(d, p, at, row, used, delta, |p|, k);
      ShiftedColumn(d, p, used, delta, |p|, k);
    }
  }

  /** Moves the potentials of the used columns and of their rows by `delta`. */
  method ShiftPotentials(u: array<real>, v: array<real>, p: array<int>, used: array<bool>,
                         minimum: array<Extended>, delta: real)
    returns (ghost visits: nat)
    requires u != v && u.Length == v.Length == p.Length == used.Length == minimum.Length
    requires forall j :: 0 <= j < p.Length ==> 0 <= p[j] < p.Length
    modifies u, v, minimum
    ensures Duals(u[..], v[..], minimum[..])
         == ShiftedDuals(old(Duals(u[..], v[..], minimum[..])), p[..], used[..], delta, p.Length)
    ensures visits == p.Length
  {
    ghost var d, ps, flags := Duals(u[..], v[..], minimum[..]), p[..], used[..];
    visits := 0;
    for column := 0 to p.Length
      invariant visits == column
      invariant Duals(u[..], v[..], minimum[..]) == ShiftedDuals(d, ps, flags, delta, column)
    {
      visits := visits + 1;
      if used[column] {
        u[p[column]] := u[p[column]] + delta;
        v[column] := v[column] - delta;
      } else {
        minimum[column] := minimum[column].Minus(delta);
      }
    }
  }

  /** `path` after column0 has been marked used. */
  lemma RelaxKeeps(c: Matrix, u: seq<real>, v: seq<real>, p: seq<int>, at: seq<int>, row: int,
                   way: seq<int>, minimum: seq<Extended>, used: seq<bool>, path: seq<int>, rank: seq<int>, column0: int,
                   way': seq<int>, minimum': seq<Extended>)
    requires SearchInv(c, u, v, p, at, row, way, minimum, used, path, rank, column0)
    requires 1 <= p[column0] <= |c| && |way'| == |minimum'| == |used|
    requires Relaxed(c, u, v, used[column0 := true], p[column0], column0, way, minimum, way', minimum')
    ensures Explored(p, used[column0 := true], path + [column0], rank[column0 := |path|])
    ensures Tree(c, u, v, p, way', used[column0 := true], rank[column0 := |path|])
    ensures Margins(c, u, v, p, way', minimum', used[column0 := true])
  {
    if path == [] {
      assert forall j :: 0 <= j < |used| ==> !used[j];
    }
    RelaxExplores(p, used, path, rank, column0);
    RelaxExtendsTree(c, u, v, p, way, minimum, used, path, rank, column0, way');
    RelaxMargins(c, u, v, p, way, minimum, used, column0, way', minimum');
  }

  /** The state between relaxing from the row of the newest used column and moving the potentials:
      `column1` is the unused column of least margin `delta`. */
  ghost predicate Grown(c: Matrix, u: seq<real>, v: seq<real>, p: seq<int>, at: seq<int>, row: int,
                        way: seq<int>, minimum: seq<Extended>, used: seq<bool>, path: seq<int>, rank: seq<int>,
                        delta: real, column1: int)
  {
    && Shaped(c, u, v) && 1 <= row <= |c| && |p| == |way| == |minimum| == |used| == |c| + 1
    && Matched(p, at, row, -1) && p[0] == row
    && path != [] && Explored(p, used, path, rank) && Tree(c, u, v, p, way, used, rank)
    && Feasible(c, u, v, row - 1) && Tight(c, u, v, p, 0) && Balanced(u, v, p, row)
    && (|path| > 1 ==> Feasible(c, u, v, row))
    && Margins(c, u, v, p, way, minimum, used)
    && Least(minimum, used, Finite(delta), column1) && column1 != 0
    && |path| <= row
  }

  lemma GrownBounds(c: Matrix, u: seq<real>, v: seq<real>, p: seq<int>, at: seq<int>, row: int,
                    way: seq<int>, minimum: seq<Extended>, used: seq<bool>, path: seq<int>, rank: seq<int>,
                    delta: real, column1: int)
    requires Grown(c, u, v, p, at, row, way, minimum, used, path, rank, delta, column1)
    ensures |path| <= row
  {
  }

  lemma RowsInRange(p: seq<int>, at: seq<int>, row: int, used: seq<bool>, path: seq<int>, rank: seq<int>)
    requires Matched(p, at, row, -1) && 1 <= row < |p| && Explored(p, used, path, rank)
    ensures forall j :: 0 <= j < |p| ==> 0 <= p[j] < |p|
    ensures forall j :: 0 <= j < |p| && used[j] ==> p[j] != 0
  {
  }

  /** Only the very first margin of a phase can be negative. */
  lemma FirstOrNonNegative(c: Matrix, u: seq<real>, v: seq<real>, p: seq<int>, at: seq<int>, row: int,
                           way: seq<int>, minimum: seq<Extended>, used: seq<bool>, path: seq<int>, rank: seq<int>,
                           delta: real, column1: int)
    requires Shaped(c, u, v) && 1 <= row <= |c| && |p| == |way| == |minimum| == |used| == |c| + 1
    requires Matched(p, at, row, -1) && Explored(p, used, path, rank) && path != []
    requires |path| > 1 ==> Feasible(c, u, v, row)
    requires Margins(c, u, v, p, way, minimum, used)
    requires 1 <= column1 < |used| && !used[column1] && minimum[column1] == Finite(delta)
    ensures (|path| > 1 && delta >= 0.0) || (forall j :: 1 <= j < |used| ==> !used[j])
  {
    if |path| > 1 {
      var w := way[column1];
      assert Slack(c, u, v, p[w], column1) >= 0.0;
    } else {
      assert forall j :: 1 <= j < |used| ==> !used[j];
    }
  }

  lemma ShiftKeeps(c: Matrix, u: seq<real>, v: seq<real>, p: seq<int>, at: seq<int>, row: int,
                   way: seq<int>, minimum: seq<Extended>, used: seq<bool>, path: seq<int>, rank: seq<int>,
                   delta: real, column1: int, u': seq<real>, v': seq<real>, minimum': seq<Extended>)
    requires Grown(c, u, v, p, at, row, way, minimum, used, path, rank, delta, column1)
    requires Shifted(at, row, used, delta, u, v, minimum, u', v', minimum')
    ensures SearchInv(c, u', v', p, at, row, way, minimum', used, path, rank, column1)
  {
    FirstOrNonNegative(c, u, v, p, at, row, way, minimum, used, path, rank, delta, column1);
    ShiftFeasible(c, u, v, p, at, row, way, minimum, used, delta, u', v', minimum');
    ShiftTree(c, u, v, p, at, row, way, minimum, used, rank, delta, u', v', minimum');
    ShiftMargins(c, u, v, p, at, row, way, minimum, used, delta, u', v', minimum');
    ShiftTight(c, u, v, p, at, row, used, minimum, delta, u', v', minimum');
    ShiftBalanced(p, at, row, used, path, rank, delta, u, v, minimum, u', v', minimum');
  }

  lemma ShiftBalanced(p: seq<int>, at: seq<int>, row: int, used: seq<bool>, path: seq<int>, rank: seq<int>, delta: real,
                      u: seq<real>, v: seq<real>, minimum: seq<Extended>,
                      u': seq<real>, v': seq<real>, minimum': seq<Extended>)
    requires |u| == |v| == |p| && Balanced(u, v, p, row)
    requires Explored(p, used, path, rank)
    requires delta >= 0.0 || forall j :: 1 <= j < |used| ==> !used[j]
    requires Shifted(at, row, used, delta, u, v, minimum, u', v', minimum')
    ensures Balanced(u', v', p, row)
  {
  }

  /** What the search hands to the augmentation: a free column without slack, and the tree leading
      from it to column 0. */
  ghost predicate Found(c: Matrix, u: seq<real>, v: seq<real>, p: seq<int>, at: seq<int>, row: int,
                        way: seq<int>, used: seq<bool>, rank: seq<int>, column0: int)
  {
    && Shaped(c, u, v) && 1 <= row <= |c| && |p| == |way| == |used| == |rank| == |c| + 1
    && Matched(p, at, row, -1) && p[0] == row
    && Feasible(c, u, v, row) && Tight(c, u, v, p, 0) && Balanced(u, v, p, row)
    && 1 <= column0 < |p| && p[column0] == 0 && used[column0]
    && Tree(c, u, v, p, way, used, rank)
    && (forall j :: 0 <= j < |used| && used[j] && j != column0 ==> 0 <= rank[j] < rank[column0] && p[j] != 0)
  }

  lemma SearchEnds(c: Matrix, u: seq<real>, v: seq<real>, p: seq<int>, at: seq<int>, row: int,
                   way: seq<int>, minimum: seq<Extended>, used: seq<bool>, path: seq<int>, rank: seq<int>, column0: int)
    requires SearchInv(c, u, v, p, at, row, way, minimum, used, path, rank, column0)
    requires p[column0] == 0
    ensures Found(c, u, v, p, at, row, way, used[column0 := true], rank[column0 := |path|], column0)
  {
    RelaxExtendsTree(c, u, v, p, way, minimum, used, path, rank, column0, way);
  }

  lemma SearchShaped(c: Matrix, u: seq<real>, v: seq<real>, p: seq<int>, at: seq<int>, row: int,
                     way: seq<int>, minimum: seq<Extended>, used: seq<bool>, path: seq<int>, rank: seq<int>, column0: int)
    requires SearchInv(c, u, v, p, at, row, way, minimum, used, path, rank, column0)
    ensures Shaped(c, u, v) && 1 <= row <= |c| && |p| == |used| == |rank| == |c| + 1 && 0 <= column0 < |used|
    ensures p[column0] != 0 ==> 1 <= p[column0] <= |c|
    ensures path == [] ==> p[column0] == row
  {
  }

  /** With the least margin selected, the search may move on: some unused column has a finite margin. */
  lemma TreeGrows(c: Matrix, u: seq<real>, v: seq<real>, p: seq<int>, at: seq<int>, row: int,
                  way: seq<int>, minimum: seq<Extended>, used: seq<bool>, path: seq<int>, rank: seq<int>, column0: int,
                  way': seq<int>, minimum': seq<Extended>, delta: Extended, column1: int)
    requires SearchInv(c, u, v, p, at, row, way, minimum, used, path, rank, column0)
    requires 1 <= p[column0] <= |c| && |way'| == |minimum'| == |used|
    requires Relaxed(c, u, v, used[column0 := true], p[column0], column0, way, minimum, way', minimum')
    requires Least(minimum', used[column0 := true], delta, column1)
    ensures delta.Finite?
    ensures Grown(c, u, v, p, at, row, way', minimum', used[column0 := true], path + [column0], rank[column0 := |path|],
                  delta.value, column1)
  {
    hide Relaxed, Tree, Matched, Tight, Balanced, Feasible, Slack;
    RelaxKeeps(c, u, v, p, at, row, way, minimum, used, path, rank, column0, way', minimum');
    FreshColumn(p, at, row, used[column0 := true], path + [column0], rank[column0 := |path|]);
    var j :| 1 <= j < |used| && !used[column0 := true][j];
    assert minimum'[j].Finite?;
  }

  /** Marks `column0` used, relaxes from its row and selects the next column. */
  method GrowTree(c: Matrix, u: array<real>, v: array<real>, p: array<int>, way: array<int>,
                  minimum: array<Extended>, used: array<bool>, column0: int,
                  ghost at: seq<int>, ghost row: int, ghost path: seq<int>, ghost rank: seq<int>)
    returns (delta: Extended, column1: int, ghost visits: nat)
    requires u != v && p != way && p.Length == way.Length == minimum.Length == used.Length == |c| + 1
    requires SearchInv(c, u[..], v[..], p[..], at, row, way[..], minimum[..], used[..], path, rank, column0)
    requires 1 <= p[column0] <= |c|
    modifies way, minimum, used
    ensures delta.Finite?
    ensures Grown(c, u[..], v[..], p[..], at, row, way[..], minimum[..], used[..],
                  path + [column0], rank[column0 := |path|], delta.value, column1)
    ensures visits == |c|
  {
    hide *;
    ghost var us, vs, ps, ways, ms, flags := u[..], v[..], p[..], way[..], minimum[..], used[..];
    SearchShaped(c, us, vs, ps, at, row, ways, ms, flags, path, rank, column0);
    used[column0] := true;
    assert used[..] == flags[column0 := true];
    var row0 := p[column0];
    delta, column1, visits := RelaxColumns(c, u, v, used, row0, column0, minimum, way);
    TreeGrows(c, us, vs, ps, at, row, ways, ms, flags, path, rank, column0, way[..], minimum[..], delta, column1);
  }

  /** Moves the potentials of the tree by the least margin. */
  method MoveTree(c: Matrix, u: array<real>, v: array<real>, p: array<int>, way: array<int>,
                  minimum: array<Extended>, used: array<bool>, delta: real,
                  ghost column1: int, ghost at: seq<int>, ghost row: int, ghost path: seq<int>, ghost rank: seq<int>)
    returns (ghost visits: nat)
    requires u != v && p != way && u.Length == v.Length == p.Length == used.Length == minimum.Length
    requires Grown(c, u[..], v[..], p[..], at, row, way[..], minimum[..], used[..], path, rank, delta, column1)
    modifies u, v, minimum
    ensures SearchInv(c, u[..], v[..], p[..], at, row, way[..], minimum[..], used[..], path, rank, column1)
    ensures visits == p.Length
  {
    ghost var d, ps, flags, ways := Duals(u[..], v[..], minimum[..]), p[..], used[..], way[..];
    RowsInRange(ps, at, row, flags, path, rank);
    assert forall j :: 0 <= j < p.Length ==> ps[j] == p[j];
    visits := ShiftPotentials(u, v, p, used, minimum, delta);
    ShiftedDualsMeaning(d, ps, at, row, flags, delta);
    ShiftKeeps(c, d.u, d.v, ps, at, row, ways, d.minimum, flags, path, rank, delta, column1, u[..], v[..], minimum[..]);
  }

  /** The columns passed over in `rounds` rounds of a search: n and then n + 1 in each. */
  ghost function RoundVisits(n: nat, rounds: nat): nat {
    if rounds == 0 then 0 else RoundVisits(n, rounds - 1) + n + (n + 1)
  }

  lemma {:induction false} FewerRounds(n: nat, rounds: nat, row: nat)
    requires rounds <= row
    ensures RoundVisits(n, rounds) <= RoundVisits(n, row)
  {
    if rounds < row {
      FewerRounds(n, rounds, row - 1);
    }
  }

  /** The search loop of phase `row`: grows the tree of tight cells from column 0 until it reaches a
      free column, in at most `row` rounds. */
  method Search(c: Matrix, u: array<real>, v: array<real>, p: array<int>, way: array<int>,
                minimum: array<Extended>, used: array<bool>, row: int, ghost at: seq<int>, ghost rank0: seq<int>)
    returns (column0: int, ghost used': seq<bool>, ghost rank: seq<int>, ghost visits: nat)
    requires u != v && p != way && p.Length == way.Length == minimum.Length == used.Length == |c| + 1
    requires SearchInv(c, u[..], v[..], p[..], at, row, way[..], minimum[..], used[..], [], rank0, 0)
    modifies u, v, way, minimum, used
    ensures Found(c, u[..], v[..], p[..], at, row, way[..], used', rank, column0)
    ensures 0 <= column0 < |rank| && 0 <= rank[column0] <= row && visits == RoundVisits(|c|, rank[column0])
  {
    hide SearchInv, Grown, Found;
    column0 := 0;
    ghost var path: seq<int> := [];
    ghost var ps := p[..];
    rank, visits := rank0, 0;
    SearchShaped(c, u[..], v[..], ps, at, row, way[..], minimum[..], used[..], path, rank, column0);
    while true
      invariant SearchInv(c, u[..], v[..], ps, at, row, way[..], minimum[..], used[..], path, rank, column0)
      invariant |path| <= row && |rank| == |ps| && 0 <= column0 < |ps| && 1 <= ps[column0] <= |c|
      invariant visits == RoundVisits(|c|, |path|)
      decreases row - |path|
    {
      var delta, column1;
      ghost var relaxed, moved;
      delta, column1, relaxed := GrowTree(c, u, v, p, way, minimum, used, column0, at, row, path, rank);
      path, rank := path + [column0], rank[column0 := |path|];
      GrownBounds(c, u[..], v[..], ps, at, row, way[..], minimum[..], used[..], path, rank, delta.value, column1);
      moved := MoveTree(c, u, v, p, way, minimum, used, delta.value, column1, at, row, path, rank);
      visits := visits + relaxed + moved;
      column0 := column1;
      SearchShaped(c, u[..], v[..], ps, at, row, way[..], minimum[..], used[..], path, rank, column0);
      if p[column0] == 0 {
        break;
      }
    }
    SearchEnds(c, u[..], v[..], ps, at, row, way[..], minimum[..], used[..], path, rank, column0);
    used', rank := used[..][column0 := true], rank[column0 := |path|];
  }

  /** Halfway through the augmentation: column `hole` is to take over another column's row; the
      columns nearer to column 0 still hold the rows they held in `ps`. */
  ghost predicate Augmenting(c: Matrix, u: seq<real>, v: seq<real>, ps: seq<int>, row: int, used: seq<bool>,
                             rank: seq<int>, sink: int, p: seq<int>, at: seq<int>, hole: int)
  {
    && Shaped(c, u, v) && 1 <= row <= |c| && |p| == |ps| == |used| == |rank| == |c| + 1
    && 0 <= hole < |p| && used[hole]
    && Matched(p, at, row, hole) && Tight(c, u, v, p, hole)
    && (forall j :: 0 <= j < |p| && used[j] && rank[j] < rank[hole] ==> p[j] == ps[j] && p[j] != 0)
    && (forall j :: 1 <= j < |p| && j != hole ==> (p[j] == 0 <==> ps[j] == 0 && j != sink))
    && (hole == sink || ps[hole] != 0)
  }

  /** One augmentation step: column `hole` takes over the row of the column its `way` points to. */
  lemma AugmentStep(c: Matrix, u: seq<real>, v: seq<real>, ps: seq<int>, row: int, way: seq<int>, used: seq<bool>,
                    rank: seq<int>, sink: int, p: seq<int>, at: seq<int>, hole: int)
    requires Augmenting(c, u, v, ps, row, used, rank, sink, p, at, hole) && hole != 0
    requires |way| == |p| && Tree(c, u, v, ps, way, used, rank)
    ensures 0 <= way[hole] < |p| && rank[way[hole]] < rank[hole] && 1 <= p[way[hole]] < |at|
    ensures Augmenting(c, u, v, ps, row, used, rank, sink,
                       p[hole := p[way[hole]]], at[p[way[hole]] := hole], way[hole])
  {
    var from := way[hole];
    assert used[from] && p[from] == ps[from];
    HandOver(c, u, v, p, at, row, hole, from);
  }

  lemma HandOver(c: Matrix, u: seq<real>, v: seq<real>, p: seq<int>, at: seq<int>, row: int, hole: int, from: int)
    requires Shaped(c, u, v) && |p| == |c| + 1 && 1 <= row <= |c|
    requires Matched(p, at, row, hole) && Tight(c, u, v, p, hole)
    requires 1 <= hole < |p| && 0 <= from < |p| && from != hole && p[from] != 0
    requires Slack(c, u, v, p[from], hole) == 0.0
    ensures Matched(p[hole := p[from]], at[p[from] := hole], row, from)
    ensures Tight(c, u, v, p[hole := p[from]], from)
  {
  }

  /** Shifts the rows along `way` from the free column back to column 0. Every earlier row stays
      matched, row `row` leaves the artificial column, and only `sink` stops being free. */
  method Augment(ghost c: Matrix, ghost u: seq<real>, ghost v: seq<real>, p: array<int>, way: array<int>, sink: int,
                 ghost at: seq<int>, ghost row: int, ghost used: seq<bool>, ghost rank: seq<int>)
    returns (ghost at': seq<int>, ghost steps: nat)
    requires p != way && Found(c, u, v, p[..], at, row, way[..], used, rank, sink)
    modifies p
    ensures Augmenting(c, u, v, old(p[..]), row, used, rank, sink, p[..], at', 0)
    ensures steps <= rank[sink]
  {
    ghost var ps, ways := p[..], way[..];
    var column0 := sink;
    at', steps := at, 0;
    assert Augmenting(c, u, v, ps, row, used, rank, sink, ps, at', column0);
    while true
      invariant Augmenting(c, u, v, ps, row, used, rank, sink, p[..], at', column0) && column0 != 0
      invariant steps + rank[column0] <= rank[sink] && (column0 == sink || rank[column0] >= 0)
      decreases rank[column0]
    {
      var column1 := way[column0];
      ghost var before := p[..];
      AugmentStep(c, u, v, ps, row, ways, used, rank, sink, before, at', column0);
      p[column0] := p[column1];
      assert p[..] == before[column0 := before[column1]];
      at', steps := at'[before[column1] := column0], steps + 1;
      column0 := column1;
      if column0 == 0 {
        break;
      }
    }
  }

  lemma PhaseBegins(c: Matrix, u: seq<real>, v: seq<real>, p: seq<int>, at: seq<int>, row: int)
    requires PhaseInv(c, u, v, p, at, row - 1) && 1 <= row <= |c|
    ensures Shaped(c, u, v) && Feasible(c, u, v, row - 1) && |at| == |p|
    ensures Matched(p[0 := row], at[row := 0], row, -1)
    ensures Tight(c, u, v, p[0 := row], 0) && Balanced(u, v, p[0 := row], row) && u[row] == 0.0
  {
  }

  lemma SearchBegins(c: Matrix, u: seq<real>, v: seq<real>, p: seq<int>, at: seq<int>, row: int,
                     way: seq<int>, minimum: seq<Extended>, used: seq<bool>)
    requires Shaped(c, u, v) && 1 <= row <= |c| && |p| == |way| == |minimum| == |used| == |c| + 1
    requires Matched(p, at, row, -1) && p[0] == row
    requires Feasible(c, u, v, row - 1) && Tight(c, u, v, p, 0) && Balanced(u, v, p, row) && u[row] == 0.0
    requires forall j :: 0 <= j < |used| ==> !used[j] && minimum[j] == Infinity
    ensures SearchInv(c, u, v, p, at, row, way, minimum, used, [], p, 0)
  {
  }

  /** The columns looked at in the first `row` phases, at most: phase k takes at most k rounds and
      then k augmentation steps. */
  ghost function VisitBound(n: nat, row: nat): nat {
    if row == 0 then 0 else VisitBound(n, row - 1) + RoundVisits(n, row) + row
  }

  lemma {:induction false} RoundVisitsIsProduct(n: nat, rounds: nat)
    ensures RoundVisits(n, rounds) == rounds * (n + (n + 1))
  {
    if rounds != 0 {
      RoundVisitsIsProduct(n, rounds - 1);
    }
  }

  lemma CubicStep(row: int, x: int)
    ensures (row - 1) * (row - 1 + 1) * x + row * (2 * x - 1) + row == row * (row + 1) * x
  {
    var y := row * x;
    assert (row - 1) * row * x == (row - 1) * y;
    assert row * (row + 1) * x == (row + 1) * y;
    assert row * (2 * x - 1) == 2 * y - row;
  }

  lemma {:induction false} VisitsAreCubic(n: nat, row: nat)
    ensures VisitBound(n, row) == row * (row + 1) * (n + 1)
  {
    if row != 0 {
      VisitsAreCubic(n, row - 1);
      RoundVisitsIsProduct(n, row);
      CubicStep(row, n + 1);
    }
  }

  lemma PhaseEnds(c: Matrix, u: seq<real>, v: seq<real>, q: seq<int>, at: seq<int>, row: int, way: seq<int>,
                  used: seq<bool>, rank: seq<int>, sink: int, p: seq<int>, at': seq<int>)
    requires Found(c, u, v, q, at, row, way, used, rank, sink)
    requires Augmenting(c, u, v, q, row, used, rank, sink, p, at', 0)
    ensures PhaseInv(c, u, v, p, at', row)
  {
  }

  /** One outer phase: row `row` joins the matching. */
  method InsertRow(c: Matrix, u: array<real>, v: array<real>, p: array<int>, way: array<int>, row: int, ghost at: seq<int>)
    returns (ghost at': seq<int>, ghost visits: nat)
    requires u != v && p != way && way.Length == |c| + 1 && 1 <= row <= |c|
    requires u.Length == v.Length == p.Length == |c| + 1
    requires PhaseInv(c, u[..], v[..], p[..], at, row - 1)
    modifies u, v, p, way
    ensures PhaseInv(c, u[..], v[..], p[..], at', row)
    ensures visits <= RoundVisits(|c|, row) + row
  {
    hide PhaseInv, Shaped, Feasible, Matched, Tight, Balanced, SearchInv, Found, Augmenting;
    ghost var ps := p[..];
    PhaseBegins(c, u[..], v[..], ps, at, row);
    p[0] := row;
    assert p[..] == ps[0 := row];
    ghost var used, rank, searched, steps;
    var column0;
    var minimum := new Extended[|c| + 1](_ => Infinity);
    var flags := new bool[|c| + 1](_ => false);
    SearchBegins(c, u[..], v[..], p[..], at[row := 0], row, way[..], minimum[..], flags[..]);
    column0, used, rank, searched := Search(c, u, v, p, way, minimum, flags, row, at[row := 0], p[..]);
    ghost var q := p[..];
    at', steps := Augment(c, u[..], v[..], p, way, column0, at[row := 0], row, used, rank);
    PhaseEnds(c, u[..], v[..], q, at[row := 0], row, way[..], used, rank, column0, p[..], at');
    FewerRounds(|c|, rank[column0], row);
    visits := searched + steps;
  }

  lemma PhaseZero(c: Matrix, zeros: seq<real>, p: seq<int>)
    requires Square(c) && |zeros| == |p| == |c| + 1
    requires (forall k :: 0 <= k < |zeros| ==> zeros[k] == 0.0) && (forall k :: 0 <= k < |p| ==> p[k] == 0)
    ensures PhaseInv(c, zeros, zeros, p, p, 0)
  {
    SumZero(zeros);
  }

  /** Reading the matching off `p` gives the columns of the rows. */
  method ReadAssignment(n: int, p: array<int>, ghost at: seq<int>) returns (columns: seq<int>)
    requires n >= 1 && p.Length == n + 1 && Matched(p[..], at, n, 0)
    ensures columns == Columns(at, n)
  {
    var assignment := new int[n](_ => -1);
    ghost var ps := p[..];
    for column := 1 to n + 1
      invariant forall i :: 1 <= i <= n ==> assignment[i - 1] == if at[i] < column then at[i] - 1 else -1
    {
      assert ps[column] != 0 ==> at[ps[column]] == column;
      assert forall i :: 1 <= i <= n && at[i] == column ==> ps[at[i]] == i;
      if p[column] != 0 {
        assignment[p[column] - 1] := column - 1;
      }
    }
    columns := assignment[..];
    assert forall k :: 0 <= k < n ==> columns[k] == at[k + 1] - 1;
  }

  /** The outer loop, on a square matrix with at least one row. */
  method Solve(costs: Matrix) returns (columns: seq<int>, ghost visits: nat)
    requires Square(costs) && |costs| >= 1
    ensures |columns| == |costs| && Cheapest(costs, columns)
    ensures visits <= VisitBound(|costs|, |costs|)
  {
    var n := |costs|;
    var u := new real[n + 1](_ => 0.0);
    var v := new real[n + 1](_ => 0.0);
    var p := new int[n + 1](_ => 0);
    var way := new int[n + 1](_ => 0);
    ghost var at: seq<int> := p[..];
    visits := 0;
    assert u[..] == v[..];
    PhaseZero(costs, u[..], p[..]);
    for row := 1 to n + 1
      invariant PhaseInv(costs, u[..], v[..], p[..], at, row - 1)
      invariant visits <= VisitBound(n, row - 1)
    {
      ghost var more;
      at, more := InsertRow(costs, u, v, p, way, row, at);
      visits := visits + more;
    }
    columns := ReadAssignment(n, p, at);
    PhaseOptimal(costs, u[..], v[..], p[..], at, n);
  }

  /** The minimum-cost column of each row. `visits` counts the columns looked at by the search and
      augmentation loops. */
  method MinimumCostAssignment(costs: Matrix) returns (r: Outcome, ghost visits: nat)
    ensures r.NotSquare? <==> !Square(costs)
    ensures r.Assigned? ==> |r.columns| == |costs| && Cheapest(costs, r.columns)
    ensures visits <= |costs| * (|costs| + 1) * (|costs| + 1)
  {
    var n := |costs|;
    if n == 0 {
      return Assigned([]), 0;
    }
    if exists i :: 0 <= i < n && |costs[i]| != n {
      return NotSquare, 0;
    }
    var columns;
    columns, visits := Solve(costs);
    VisitsAreCubic(n, n);
    r := Assigned(columns);
  }
}
