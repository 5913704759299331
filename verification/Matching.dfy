/** Partial one-to-one matchings of truths to objects, and the reduction of "match as many as
    possible, then as cheaply as possible" to one square minimum-cost assignment.

    The square matrix has one row per truth and one dummy row per object, one column per object and
    one dummy column per truth, so either side may stay unmatched. */
module Matching {
  import opened Sums
  import opened Assignment

  /** `score` is what a matched admissible pair costs. */
  datatype Problem = Problem(truths: nat, objects: nat, admissible: (int, int) -> bool, score: (int, int) -> real) {
    function Size(): nat { truths + objects }

    function MaxMatches(): nat { if truths < objects then truths else objects }
  }

  const Unmatched := -1

  /** `m[t]` is the object of truth t, or Unmatched. */
  ghost predicate IsMatching(pr: Problem, m: seq<int>) {
    && |m| == pr.truths
    && (forall t :: 0 <= t < |m| ==> Unmatched <= m[t] < pr.objects)
    && (forall t :: 0 <= t < |m| && m[t] != Unmatched ==> pr.admissible(t, m[t]))
    && OneToOne(m)
  }

  ghost predicate OneToOne(m: seq<int>) {
    forall s, t :: 0 <= s < t < |m| && m[s] != Unmatched ==> m[s] != m[t]
  }

  ghost function Count(m: seq<int>): nat {
    if m == [] then 0
    else Count(m[..|m| - 1]) + if m[|m| - 1] == Unmatched then 0 else 1
  }

  ghost function Total(score: (int, int) -> real, m: seq<int>): real {
    if m == [] then 0.0
    else
      var t := |m| - 1;
      Total(score, m[..t]) + if m[t] == Unmatched then 0.0 else score(t, m[t])
  }

  /** First the most matches, then the least total score. */
  ghost predicate Best(pr: Problem, m: seq<int>) {
    && IsMatching(pr, m)
    && forall other :: IsMatching(pr, other) ==>
         && Count(other) <= Count(m)
         && (Count(other) == Count(m) ==> Total(pr.score, m) <= Total(pr.score, other))
  }

  // ---------------------------------------------------------------- facts about matchings

  /** The objects a matching uses, in truth order. */
  ghost function Chosen(m: seq<int>): seq<int> {
    if m == [] then []
    else
      var t := |m| - 1;
      if m[t] == Unmatched then Chosen(m[..t]) else Chosen(m[..t]) + [m[t]]
  }

  lemma {:induction false} ChosenFacts(m: seq<int>, objects: int)
    requires forall t :: 0 <= t < |m| ==> Unmatched <= m[t] < objects
    requires OneToOne(m)
    ensures |Chosen(m)| == Count(m) && Below(Chosen(m), objects) && Injective(Chosen(m))
    ensures forall k :: 0 <= k < |Chosen(m)| ==> Chosen(m)[k] in m
  {
    if m != [] {
      ChosenFacts(m[..|m| - 1], objects);
    }
  }

  lemma {:induction false} CountAtMostLength(m: seq<int>)
    ensures Count(m) <= |m|
  {
    if m != [] {
      CountAtMostLength(m[..|m| - 1]);
    }
  }

  lemma CountBound(pr: Problem, m: seq<int>)
    requires IsMatching(pr, m)
    ensures Count(m) <= pr.MaxMatches()
  {
    CountAtMostLength(m);
    ChosenFacts(m, pr.objects);
    Pigeonhole(Chosen(m), pr.objects);
  }

  /** `n` times `x`. */
  ghost function Times(n: nat, x: real): real {
    if n == 0 then 0.0 else Times(n - 1, x) + x
  }

  lemma {:induction false} TimesIsProduct(n: nat, x: real)
    ensures Times(n, x) == n as real * x
  {
    if n != 0 {
      TimesIsProduct(n - 1, x);
      assert n as real == (n - 1) as real + 1.0;
    }
  }

  lemma {:induction false} TimesMonotone(m: nat, n: nat, x: real)
    requires m <= n && x >= 0.0
    ensures Times(m, x) <= Times(n, x)
    ensures m < n ==> Times(m, x) + x <= Times(n, x)
  {
    if m < n {
      TimesMonotone(m, n - 1, x);
    }
  }

  /** Scores between 0 and `bound` total between 0 and `bound` per match. */
  lemma {:induction false} TotalBound(score: (int, int) -> real, bound: real, m: seq<int>)
    requires forall t :: 0 <= t < |m| && m[t] != Unmatched ==> 0.0 <= score(t, m[t]) <= bound
    ensures 0.0 <= Total(score, m) <= Times(Count(m), bound)
  {
    if m != [] {
      TotalBound(score, bound, m[..|m| - 1]);
    }
  }

  lemma {:induction false} CountUpdate(m: seq<int>, t: int, o: int)
    requires 0 <= t < |m| && m[t] == Unmatched && o != Unmatched
    ensures Count(m[t := o]) == Count(m) + 1
  {
    var k := |m| - 1;
    if t == k {
      assert m[t := o][..k] == m[..k];
    } else {
      CountUpdate(m[..k], t, o);
      assert m[t := o][..k] == m[..k][t := o];
    }
  }

  /** A best matching leaves no admissible pair with both ends unmatched. */
  lemma BestIsMaximal(pr: Problem, m: seq<int>, t: int, o: int)
    requires Best(pr, m) && 0 <= t < pr.truths && 0 <= o < pr.objects
    requires pr.admissible(t, o) && o !in m
    ensures m[t] != Unmatched
  {
    assert m[t] == Unmatched ==> IsMatching(pr, m[t := o]);
    if m[t] == Unmatched {
      CountUpdate(m, t, o);
    }
  }

  // ---------------------------------------------------------------- the square encoding

  ghost function Cell(c: Matrix, i: int, j: int): real
    requires Square(c) && 0 <= i < |c| && 0 <= j < |c|
  {
    c[i][j]
  }

  /** What the reductions need of a cost matrix: an admissible pair costs its score, leaving one item
      unmatched costs `leave`, and an inadmissible pair costs more than leaving both unmatched. */
  ghost predicate Encodes(pr: Problem, c: Matrix, leave: real) {
    && |c| == pr.Size() && Square(c)
    && (forall t, o :: 0 <= t < pr.truths && 0 <= o < pr.objects ==>
         if pr.admissible(t, o) then Cell(c, t, o) == pr.score(t, o) else Cell(c, t, o) > 2.0 * leave)
    && (forall t, j :: 0 <= t < pr.truths && pr.objects <= j < |c| ==>
         if j == pr.objects + t then Cell(c, t, j) == leave else Cell(c, t, j) >= leave)
    && (forall i, o :: pr.truths <= i < |c| && 0 <= o < pr.objects ==>
         if i == pr.truths + o then Cell(c, i, o) == leave else Cell(c, i, o) >= leave)
    && (forall i, j :: pr.truths <= i < |c| && pr.objects <= j < |c| ==> Cell(c, i, j) == 0.0)
  }

  /** The cell neither pairs an inadmissible pair nor charges more than `leave` for leaving one
      item unmatched. */
  ghost predicate Legal(pr: Problem, c: Matrix, leave: real, i: int, j: int)
    requires Encodes(pr, c, leave) && 0 <= i < |c| && 0 <= j < |c|
  {
    if i < pr.truths && j < pr.objects then pr.admissible(i, j)
    else i < pr.truths || j < pr.objects ==> Cell(c, i, j) == leave
  }

  /** The matching an assignment stands for; inadmissible pairs are dropped. */
  ghost function Projected(pr: Problem, cols: seq<int>): (m: seq<int>)
    requires |cols| == pr.Size()
    ensures |m| == pr.truths
  {
    seq(pr.truths, t requires 0 <= t < pr.truths =>
      if 0 <= cols[t] < pr.objects && pr.admissible(t, cols[t]) then cols[t] else Unmatched)
  }

  lemma ProjectedIsMatching(pr: Problem, c: Matrix, cols: seq<int>)
    requires |c| == pr.Size() == |cols| && Placement(c, cols)
    ensures IsMatching(pr, Projected(pr, cols))
  {
  }

  /** Score minus the two charges for leaving unmatched that the pair saves. */
  ghost function Net(score: (int, int) -> real, leave: real, m: seq<int>): real {
    Total(score, m) - Times(Count(m), 2.0 * leave)
  }

  lemma NetStep(score: (int, int) -> real, leave: real, m: seq<int>)
    requires m != []
    ensures var t := |m| - 1;
      Net(score, leave, m) == Net(score, leave, m[..t]) + if m[t] == Unmatched then 0.0 else score(t, m[t]) - 2.0 * leave
  {
  }

  /** `leave` for each of the first `marked` of `n` items. */
  ghost function Charges(leave: real, marked: int, n: nat): (s: seq<real>)
    ensures |s| == n
  {
    seq(n, k => if k < marked then leave else 0.0)
  }

  ghost function Shorter(k: int, n: int): int { if k < n then k else n }

  /** Cost of the first k rows beyond the charges of their rows and columns. */
  ghost function Rest(pr: Problem, c: Matrix, leave: real, cols: seq<int>, k: int): real
    requires |c| == pr.Size() && Square(c) && |cols| == |c| && Placement(c, cols) && 0 <= k <= |c|
  {
    CostOf(c, cols[..k]) - Sum(Charges(leave, pr.truths, |c|)[..k]) - SumAt(Charges(leave, pr.objects, |c|), cols[..k])
  }

  lemma RestStep(pr: Problem, c: Matrix, leave: real, cols: seq<int>, i: int)
    requires |c| == pr.Size() && Square(c) && |cols| == |c| && Placement(c, cols) && 0 <= i < |c|
    ensures Rest(pr, c, leave, cols, i + 1) == Rest(pr, c, leave, cols, i)
      + c[i][cols[i]] - (if i < pr.truths then leave else 0.0) - (if cols[i] < pr.objects then leave else 0.0)
  {
    assert cols[..i + 1][..i] == cols[..i];
    var rows := Charges(leave, pr.truths, |c|);
    assert rows[..i + 1][..i] == rows[..i];
  }

  ghost function NetOfFirst(pr: Problem, leave: real, cols: seq<int>, k: int): real
    requires |cols| == pr.Size() && 0 <= k <= |cols|
  {
    Net(pr.score, leave, Projected(pr, cols)[..Shorter(k, pr.truths)])
  }

  lemma NetOfFirstStep(pr: Problem, leave: real, cols: seq<int>, i: int)
    requires |cols| == pr.Size() && 0 <= i < |cols| && 0 <= cols[i]
    ensures NetOfFirst(pr, leave, cols, i + 1) == NetOfFirst(pr, leave, cols, i)
      + if i < pr.truths && cols[i] < pr.objects && pr.admissible(i, cols[i]) then pr.score(i, cols[i]) - 2.0 * leave else 0.0
  {
    if i < pr.truths {
      var m := Projected(pr, cols);
      assert m[..i + 1][..i] == m[..i];
      NetStep(pr.score, leave, m[..i + 1]);
    }
  }

  lemma CellAgainstNet(pr: Problem, c: Matrix, leave: real, i: int, j: int)
    requires Encodes(pr, c, leave) && 0 <= i < |c| && 0 <= j < |c|
    ensures
      var rest := c[i][j] - (if i < pr.truths then leave else 0.0) - (if j < pr.objects then leave else 0.0);
      var net := if i < pr.truths && j < pr.objects && pr.admissible(i, j) then pr.score(i, j) - 2.0 * leave else 0.0;
      rest >= net && (Legal(pr, c, leave, i, j) <==> rest == net)
  {
    assert c[i][j] == Cell(c, i, j);
  }

  /** One row adds at least as much beyond its charges as it adds to the net score; as much if legal. */
  lemma RowAgainstNet(pr: Problem, c: Matrix, leave: real, cols: seq<int>, i: int)
    requires Encodes(pr, c, leave) && |cols| == |c| && Placement(c, cols) && 0 <= i < |c|
    ensures
      var rest := Rest(pr, c, leave, cols, i + 1) - Rest(pr, c, leave, cols, i);
      var net := NetOfFirst(pr, leave, cols, i + 1) - NetOfFirst(pr, leave, cols, i);
      rest >= net && (Legal(pr, c, leave, i, cols[i]) <==> rest == net)
  {
    RestStep(pr, c, leave, cols, i);
    NetOfFirstStep(pr, leave, cols, i);
    CellAgainstNet(pr, c, leave, i, cols[i]);
    hide *;
  }

  ghost predicate AllLegal(pr: Problem, c: Matrix, leave: real, cols: seq<int>, k: int)
    requires Encodes(pr, c, leave) && |cols| == |c| && Placement(c, cols) && 0 <= k <= |c|
  {
    forall i :: 0 <= i < k ==> Legal(pr, c, leave, i, cols[i])
  }

  lemma AllLegalStep(pr: Problem, c: Matrix, leave: real, cols: seq<int>, k: int)
    requires Encodes(pr, c, leave) && |cols| == |c| && Placement(c, cols) && 0 <= k < |c|
    ensures AllLegal(pr, c, leave, cols, k + 1) <==> AllLegal(pr, c, leave, cols, k) && Legal(pr, c, leave, k, cols[k])
  {
    hide Legal;
  }

  lemma NothingPlaced(pr: Problem, c: Matrix, leave: real, cols: seq<int>)
    requires Encodes(pr, c, leave) && |cols| == |c| && Placement(c, cols)
    ensures Rest(pr, c, leave, cols, 0) == NetOfFirst(pr, leave, cols, 0) && AllLegal(pr, c, leave, cols, 0)
  {
    hide Legal, Encodes, Placement;
  }

  /** Up to the fixed charges of its rows and columns, an assignment costs at least the net score of
      its matching; exactly that when all its cells are legal, strictly more otherwise. */
  lemma {:induction false} CostAgainstNet(pr: Problem, c: Matrix, leave: real, cols: seq<int>, k: int)
    requires Encodes(pr, c, leave) && |cols| == |c| && Placement(c, cols) && 0 <= k <= |c|
    ensures Rest(pr, c, leave, cols, k) >= NetOfFirst(pr, leave, cols, k)
    ensures AllLegal(pr, c, leave, cols, k) <==> Rest(pr, c, leave, cols, k) == NetOfFirst(pr, leave, cols, k)
  {
    if k == 0 {
      NothingPlaced(pr, c, leave, cols);
      hide *;
    } else {
      hide *;
      CostAgainstNet(pr, c, leave, cols, k - 1);
      RowAgainstNet(pr, c, leave, cols, k - 1);
      AllLegalStep(pr, c, leave, cols, k - 1);
    }
  }

  /** The charges every full assignment pays. */
  ghost function Fixed(pr: Problem, leave: real): real {
    Sum(Charges(leave, pr.truths, pr.Size())) + Sum(Charges(leave, pr.objects, pr.Size()))
  }

  lemma FullCost(pr: Problem, c: Matrix, leave: real, cols: seq<int>)
    requires Encodes(pr, c, leave) && |cols| == |c| && Placement(c, cols)
    ensures var net := Net(pr.score, leave, Projected(pr, cols));
      && CostOf(c, cols) - Fixed(pr, leave) >= net
      && ((forall i :: 0 <= i < |c| ==> Legal(pr, c, leave, i, cols[i])) <==> CostOf(c, cols) - Fixed(pr, leave) == net)
  {
    CostAgainstNet(pr, c, leave, cols, |c|);
    assert cols[..|c|] == cols;
    var rows := Charges(leave, pr.truths, |c|);
    assert rows[..|c|] == rows;
    var m := Projected(pr, cols);
    assert m[..pr.truths] == m;
    PermutationSum(Charges(leave, pr.objects, |c|), cols);
  }

  // ---------------------------------------------------------------- from matchings to assignments

  ghost function TruthOf(m: seq<int>, o: int): (t: int)
    ensures o in m ==> 0 <= t < |m| && m[t] == o
  {
    if o in m then var t :| 0 <= t < |m| && m[t] == o; t else Unmatched
  }

  /** The assignment of a matching: an unmatched item goes to its own dummy, and the dummy row of a
      matched object takes the dummy column of its truth. */
  ghost function Extended(pr: Problem, m: seq<int>): (cols: seq<int>)
    requires |m| == pr.truths
    ensures |cols| == pr.Size()
  {
    seq(pr.Size(), i requires 0 <= i < pr.Size() =>
      if i < pr.truths then if m[i] == Unmatched then pr.objects + i else m[i]
      else if i - pr.truths in m then pr.objects + TruthOf(m, i - pr.truths)
      else i - pr.truths)
  }

  lemma ExtendedAt(pr: Problem, m: seq<int>, i: int)
    requires IsMatching(pr, m) && 0 <= i < pr.Size()
    ensures 0 <= Extended(pr, m)[i] < pr.Size()
    ensures i < pr.truths ==> m[i] in m && Extended(pr, m)[i] == if m[i] == Unmatched then pr.objects + i else m[i]
    ensures pr.truths <= i ==>
      var j, o := Extended(pr, m)[i], i - pr.truths;
      if j < pr.objects then j == o && o !in m else j < pr.Size() && m[j - pr.objects] == o
  {
  }

  lemma ExtendedIsPlacement(pr: Problem, c: Matrix, m: seq<int>)
    requires |c| == pr.Size() && IsMatching(pr, m)
    ensures Placement(c, Extended(pr, m))
  {
    var cols := Extended(pr, m);
    forall i | 0 <= i < |cols| ensures 0 <= cols[i] < |c| {
      ExtendedAt(pr, m, i);
    }
    forall a, b | 0 <= a < b < |cols| ensures cols[a] != cols[b] {
      ExtendedAt(pr, m, a);
      ExtendedAt(pr, m, b);
    }
  }

  lemma ExtendedIsLegal(pr: Problem, c: Matrix, leave: real, m: seq<int>)
    requires Encodes(pr, c, leave) && IsMatching(pr, m)
    ensures Placement(c, Extended(pr, m)) && Projected(pr, Extended(pr, m)) == m
    ensures CostOf(c, Extended(pr, m)) - Fixed(pr, leave) == Net(pr.score, leave, m)
  {
    ExtendedIsPlacement(pr, c, m);
    var cols := Extended(pr, m);
    assert Projected(pr, cols) == m;
    forall i | 0 <= i < |c| ensures Legal(pr, c, leave, i, cols[i]) {
      ExtendedAt(pr, m, i);
    }
    FullCost(pr, c, leave, cols);
  }

  // ---------------------------------------------------------------- the reduction

  /** A cheapest assignment uses only legal cells, and its matching has the least net score. */
  lemma CheapestIsLegal(pr: Problem, c: Matrix, leave: real, cols: seq<int>)
    requires Encodes(pr, c, leave) && |cols| == |c| && Cheapest(c, cols)
    ensures forall i :: 0 <= i < |c| ==> Legal(pr, c, leave, i, cols[i])
    ensures IsMatching(pr, Projected(pr, cols))
    ensures forall other :: IsMatching(pr, other) ==>
      Net(pr.score, leave, Projected(pr, cols)) <= Net(pr.score, leave, other)
  {
    ProjectedIsMatching(pr, c, cols);
    FullCost(pr, c, leave, cols);
    ExtendedIsLegal(pr, c, leave, Projected(pr, cols));
    forall other | IsMatching(pr, other)
      ensures Net(pr.score, leave, Projected(pr, cols)) <= Net(pr.score, leave, other)
    {
      ExtendedIsLegal(pr, c, leave, other);
    }
  }

  /** A charge above everything a matching can score makes the net order lexicographic. */
  lemma NetIsLexicographic(pr: Problem, leave: real, bound: real, m: seq<int>, other: seq<int>)
    requires IsMatching(pr, m) && IsMatching(pr, other)
    requires bound >= 0.0 && 2.0 * leave > Times(pr.MaxMatches(), bound)
    requires ScoresWithin(pr, bound)
    requires Net(pr.score, leave, m) <= Net(pr.score, leave, other)
    ensures Count(other) <= Count(m)
    ensures Count(other) == Count(m) ==> Total(pr.score, m) <= Total(pr.score, other)
  {
    TotalBound(pr.score, bound, m);
    TotalBound(pr.score, bound, other);
    CountBound(pr, other);
    TimesMonotone(Count(other), pr.MaxMatches(), bound);
    if Count(m) < Count(other) {
      TimesMonotone(Count(m), Count(other), 2.0 * leave);
    }
  }

  ghost predicate ScoresWithin(pr: Problem, bound: real) {
    forall t, o :: 0 <= t < pr.truths && 0 <= o < pr.objects && pr.admissible(t, o) ==> 0.0 <= pr.score(t, o) <= bound
  }

  /** The matching read off a cheapest assignment is best, and no pair has to be filtered out. */
  lemma ReductionIsExact(pr: Problem, c: Matrix, leave: real, bound: real, cols: seq<int>)
    requires Encodes(pr, c, leave) && |cols| == |c| && Cheapest(c, cols)
    requires bound >= 0.0 && 2.0 * leave > Times(pr.MaxMatches(), bound)
    requires ScoresWithin(pr, bound)
    ensures Best(pr, Projected(pr, cols))
    ensures forall t :: 0 <= t < pr.truths && cols[t] < pr.objects ==> pr.admissible(t, cols[t])
  {
    CheapestIsLegal(pr, c, leave, cols);
    forall other | IsMatching(pr, other)
      ensures Count(other) <= Count(Projected(pr, cols))
      ensures Count(other) == Count(Projected(pr, cols)) ==> Total(pr.score, Projected(pr, cols)) <= Total(pr.score, other)
    {
      NetIsLexicographic(pr, leave, bound, Projected(pr, cols), other);
    }
    forall t | 0 <= t < pr.truths && cols[t] < pr.objects ensures pr.admissible(t, cols[t]) {
      assert Legal(pr, c, leave, t, cols[t]);
    }
  }
}
