/** Association of predictions and targets by map-plane distance and box volume, preferring pairs
    with equivalent labels. */
module SemanticMatching {
  import opened Sums
  import opened Assignment
  import opened Matching
  import opened CostMatrix
  import opened SceneObjects

  datatype Error = BadVolumeRatio | SmallGroup | OverlappingGroups

  datatype Result<+T> = Ok(value: T) | Err(error: Error)

  /** Labels everywhere are already stripped and lower-cased. */
  datatype Policy = Policy(minVolumeRatio: real, preferLabels: bool,
                           groups: seq<seq<string>>, judgments: map<(string, string), bool>)

  // ---------------------------------------------------------------- label equivalence

  /** The non-empty labels of a group. */
  function Members(group: seq<string>): set<string> {
    set l | l in group && l != ""
  }

  ghost predicate GroupsDisjoint(groups: seq<seq<string>>) {
    forall g, h :: 0 <= g < h < |groups| ==> Members(groups[g]) !! Members(groups[h])
  }

  ghost predicate GroupsLargeEnough(groups: seq<seq<string>>) {
    forall g :: 0 <= g < |groups| ==> |Members(groups[g])| >= 2
  }

  /** Some group holds both labels. */
  ghost predicate Grouped(groups: seq<seq<string>>, a: string, b: string) {
    exists g :: 0 <= g < |groups| && a in Members(groups[g]) && b in Members(groups[g])
  }

  predicate SameGroup(table: map<string, set<string>>, expected: string, observed: string) {
    expected in table && observed in table[expected]
  }

  /** Each label of a group maps to that group, and nothing else is in the table. */
  ghost predicate Tabled(groups: seq<seq<string>>, table: map<string, set<string>>) {
    && (forall l :: l in table ==> exists g :: 0 <= g < |groups| && l in Members(groups[g]))
    && (forall g, l :: 0 <= g < |groups| && l in Members(groups[g]) ==> l in table && table[l] == Members(groups[g]))
  }

  lemma TabledMeaning(groups: seq<seq<string>>, table: map<string, set<string>>, expected: string, observed: string)
    requires Tabled(groups, table)
    ensures SameGroup(table, expected, observed) <==> Grouped(groups, expected, observed)
  {
  }

  lemma TableGrows(groups: seq<seq<string>>, table: map<string, set<string>>, group: seq<string>)
    requires Tabled(groups, table) && GroupsDisjoint(groups)
    ensures GroupsDisjoint(groups + [group]) <==> Members(group) * table.Keys == {}
    ensures Members(group) * table.Keys == {} ==>
      Tabled(groups + [group], table + map l | l in Members(group) :: Members(group))
  {
    var more := groups + [group];
    assert more[|groups|] == group;
    assert forall g :: 0 <= g < |groups| ==> more[g] == groups[g];
    if Members(group) * table.Keys != {} {
      var l :| l in Members(group) * table.Keys;
      var g :| 0 <= g < |groups| && l in Members(groups[g]);
      assert l in Members(more[g]) && l in Members(more[|groups|]);
    } else {
      forall g, l | 0 <= g < |groups| && l in Members(groups[g]) ensures l !in Members(group) {
        assert l in Members(group) ==> l in Members(group) * table.Keys;
      }
    }
  }

  ghost predicate NamesTwoLabels(group: seq<string>) {
    exists a, b :: a in group && b in group && a != b && a != "" && b != ""
  }

  lemma TwoMembers(group: seq<string>)
    ensures |Members(group)| >= 2 <==> NamesTwoLabels(group)
  {
    var members := Members(group);
    if a, b :| a in group && b in group && a != b && a != "" && b != "" {
      TwoInSet(members, a, b);
    }
    if |members| >= 2 {
      var a :| a in members;
      assert |members - {a}| == |members| - 1;
      var b :| b in members - {a};
    }
  }

  lemma TwoInSet(s: set<string>, a: string, b: string)
    requires a in s && b in s && a != b
    ensures |s| >= 2
  {
    assert |s - {a} - {b}| == |s| - 2;
  }

  lemma SharedLabel(group: seq<string>, other: seq<string>)
    ensures Members(group) !! Members(other) <==> forall l :: l in group && l in other ==> l == ""
  {
    if l :| l in group && l in other && l != "" {
      assert l in Members(group) && l in Members(other);
    }
  }

  /** What is asked of the groups, label by label; empty labels do not count. */
  lemma GroupsExactly(groups: seq<seq<string>>)
    ensures GroupsLargeEnough(groups) <==> forall g :: 0 <= g < |groups| ==> NamesTwoLabels(groups[g])
    ensures GroupsDisjoint(groups) <==>
      forall g, h :: 0 <= g < h < |groups| ==> forall l :: l in groups[g] && l in groups[h] ==> l == ""
  {
    hide Members, NamesTwoLabels;
    forall g | 0 <= g < |groups| ensures |Members(groups[g])| >= 2 <==> NamesTwoLabels(groups[g]) {
      TwoMembers(groups[g]);
    }
    forall g, h | 0 <= g < h < |groups|
      ensures Members(groups[g]) !! Members(groups[h]) <==> forall l :: l in groups[g] && l in groups[h] ==> l == ""
    {
      SharedLabel(groups[g], groups[h]);
    }
  }

  /** Groups before k are fine; group k is too small, or else overlaps one of them. */
  ghost predicate FirstBadGroup(groups: seq<seq<string>>, k: int, error: Error)
    requires 0 <= k < |groups|
  {
    && GroupsLargeEnough(groups[..k]) && GroupsDisjoint(groups[..k])
    && if |Members(groups[k])| < 2 then error == SmallGroup else error == OverlappingGroups && !GroupsDisjoint(groups[..k + 1])
  }

  lemma NoGroups(groups: seq<seq<string>>)
    requires groups == []
    ensures GroupsDisjoint(groups) && Tabled(groups, map[])
  {
  }

  lemma DisjointPrefix(groups: seq<seq<string>>, k: nat)
    requires k <= |groups|
    ensures GroupsDisjoint(groups) ==> GroupsDisjoint(groups[..k])
  {
  }

  /** The table answers "is there a group with both labels", and exists exactly for disjoint groups of
      two labels or more. */
  method EquivalenceTable(groups: seq<seq<string>>) returns (r: Result<map<string, set<string>>>)
    ensures r.Ok? <==> GroupsLargeEnough(groups) && GroupsDisjoint(groups)
    ensures r.Ok? ==> forall expected, observed ::
      SameGroup(r.value, expected, observed) <==> Grouped(groups, expected, observed)
    ensures r.Err? ==> exists k :: 0 <= k < |groups| && FirstBadGroup(groups, k, r.error)
  {
    hide Tabled, GroupsDisjoint;
    var table: map<string, set<string>> := map[];
    NoGroups(groups[..0]);
    for k := 0 to |groups|
      invariant GroupsLargeEnough(groups[..k]) && GroupsDisjoint(groups[..k]) && Tabled(groups[..k], table)
    {
      var group := Members(groups[k]);
      if |group| < 2 {
        assert FirstBadGroup(groups, k, SmallGroup);
        return Err(SmallGroup);
      }
      TableGrows(groups[..k], table, groups[k]);
      assert groups[..k + 1] == groups[..k] + [groups[k]];
      if group * table.Keys != {} {
        DisjointPrefix(groups, k + 1);
        assert FirstBadGroup(groups, k, OverlappingGroups);
        return Err(OverlappingGroups);
      }
      table := table + map l | l in group :: group;
    }
    assert groups[..|groups|] == groups;
    forall expected, observed ensures SameGroup(table, expected, observed) <==> Grouped(groups, expected, observed) {
      TabledMeaning(groups, table, expected, observed);
    }
    r := Ok(table);
  }

  /** `labels_equivalent`: equal, grouped together, or judged equivalent. */
  predicate LabelsEquivalent(policy: Policy, table: map<string, set<string>>, observed: string, expected: string) {
    observed == expected || SameGroup(table, expected, observed)
    || ((expected, observed) in policy.judgments && policy.judgments[(expected, observed)])
  }

  predicate VolumeCompatible(policy: Policy, obj: Detection, truth: Target) {
    if policy.minVolumeRatio <= 0.0 || obj.volume.None? || truth.volume <= 0.0 then true
    else
      var predicted := obj.volume.value;
      var smaller := if predicted < truth.volume then predicted else truth.volume;
      var larger := if predicted < truth.volume then truth.volume else predicted;
      smaller / larger >= policy.minVolumeRatio
  }

  // ---------------------------------------------------------------- the association problem

  /** The scene to associate; every prediction is eligible. */
  datatype Scene = Scene(predictions: seq<Detection>, truths: seq<Target>, xy: Metric,
                         policy: Policy, table: map<string, set<string>>)
  {
    ghost predicate Valid() {
      && (forall o :: 0 <= o < |predictions| ==> Eligible(predictions[o]))
      && ValidTargets(truths)
      && forall a, b :: xy(a, b) >= 0.0
    }

    predicate Indexes(t: int, o: int) {
      0 <= t < |truths| && 0 <= o < |predictions| && Eligible(predictions[o])
    }

    function XyError(t: int, o: int): real
      requires Indexes(t, o)
    {
      xy(predictions[o].center.value, truths[t].center)
    }

    /** Within the radius and of compatible volume. */
    predicate Admissible(t: int, o: int) {
      Indexes(t, o) && XyError(t, o) <= truths[t].radius && VolumeCompatible(policy, predictions[o], truths[t])
    }

    /** Every pair agrees when labels are not preferred. */
    predicate Agrees(t: int, o: int) {
      Indexes(t, o) && (!policy.preferLabels || LabelsEquivalent(policy, table, predictions[o].cls, truths[t].expectedLabel))
    }

    function NormalisedError(t: int, o: int): real {
      if Indexes(t, o) && truths[t].radius > 0.0 then XyError(t, o) / truths[t].radius else 0.0
    }

    function MaxMatchCount(): nat {
      if |truths| < |predictions| then |truths| else |predictions|
    }

    function SemanticPenalty(): real {
      (MaxMatchCount() + 1) as real
    }

    function UnmatchedCost(): real {
      (MaxMatchCount() + 1) as real * (SemanticPenalty() + 1.0)
    }

    function InvalidCost(): real {
      UnmatchedCost() * (|truths| + |predictions| + 1) as real * 4.0
    }

    function PairCost(t: int, o: int): real {
      (if Agrees(t, o) then 0.0 else SemanticPenalty()) + NormalisedError(t, o)
    }

    ghost function Problem(): Matching.Problem {
      Matching.Problem(|truths|, |predictions|, (t, o) => Admissible(t, o), (t, o) => PairCost(t, o))
    }
  }

  /** Neither volume is less than the asked part of the other, unless there is nothing to compare. */
  lemma VolumesCompareBothWays(policy: Policy, obj: Detection, truth: Target)
    ensures VolumeCompatible(policy, obj, truth) <==>
      || policy.minVolumeRatio <= 0.0 || obj.volume.None? || truth.volume <= 0.0
      || (obj.volume.value >= policy.minVolumeRatio * truth.volume && truth.volume >= policy.minVolumeRatio * obj.volume.value)
  {
    if policy.minVolumeRatio > 0.0 && obj.volume.Some? && truth.volume > 0.0 {
      var v, w, q := obj.volume.value, truth.volume, policy.minVolumeRatio;
      if v < w {
        RatioAtLeast(v, w, q);
      } else {
        RatioAtLeast(w, v, q);
      }
    }
  }

  lemma RatioAtLeast(smaller: real, larger: real, q: real)
    requires smaller <= larger && larger > 0.0 && q > 0.0
    ensures smaller / larger >= q <==> smaller >= q * larger && larger >= q * smaller
  {
    var r := smaller / larger;
    assert smaller == r * larger;
    if r >= q {
      assert (r - q) * larger >= 0.0;
      assert (1.0 - r) * larger >= 0.0;
      assert r <= 1.0;
      assert (1.0 - q) * smaller >= 0.0;
    } else {
      assert (q - r) * larger > 0.0;
    }
  }

  /** A pair may be matched when the prediction lies within the target's radius and the volumes are
      compatible; its normalised error is the distance in radii. */
  lemma AdmissibleExactly(s: Scene, t: int, o: int)
    requires s.Valid() && 0 <= t < |s.truths| && 0 <= o < |s.predictions|
    ensures s.predictions[o].center.Some?
    ensures
      var distance := s.xy(s.predictions[o].center.value, s.truths[t].center);
      && (s.Admissible(t, o) <==>
           distance <= s.truths[t].radius && VolumeCompatible(s.policy, s.predictions[o], s.truths[t]))
      && s.NormalisedError(t, o) * s.truths[t].radius == distance
  {
    QuotientTimes(s.NormalisedError(t, o), s.xy(s.predictions[o].center.value, s.truths[t].center), s.truths[t].radius);
  }

  lemma QuotientTimes(q: real, d: real, r: real)
    requires r > 0.0 && q == d / r
    ensures q * r == d
  {
  }

  /** When the labels of a pair agree, for the groups and judgments of the policy: always if labels are not
      preferred; otherwise if they are equal, both in some group, or judged so, expected label first. */
  lemma AgreesExactly(s: Scene, t: int, o: int)
    requires s.Valid() && 0 <= t < |s.truths| && 0 <= o < |s.predictions|
    requires forall expected, observed :: SameGroup(s.table, expected, observed) <==> Grouped(s.policy.groups, expected, observed)
    ensures
      var observed, expected := s.predictions[o].cls, s.truths[t].expectedLabel;
      s.Agrees(t, o) <==>
        || !s.policy.preferLabels || observed == expected
        || (observed != "" && expected != ""
            && exists g :: 0 <= g < |s.policy.groups| && observed in s.policy.groups[g] && expected in s.policy.groups[g])
        || ((expected, observed) in s.policy.judgments && s.policy.judgments[(expected, observed)])
  {
  }

  /** How many matched pairs agree. */
  ghost function Agreements(s: Scene, m: seq<int>): nat {
    if m == [] then 0
    else
      var t := |m| - 1;
      Agreements(s, m[..t]) + if m[t] != Unmatched && s.Agrees(t, m[t]) then 1 else 0
  }

  ghost function TotalError(s: Scene, m: seq<int>): real {
    Total((t, o) => s.NormalisedError(t, o), m)
  }

  /** First the most admissible pairs, then the most agreeing labels, then the least total of
      normalised map-plane errors. */
  ghost predicate LexicographicallyBest(s: Scene, m: seq<int>) {
    && IsMatching(s.Problem(), m)
    && forall other :: IsMatching(s.Problem(), other) ==>
         && Count(other) <= Count(m)
         && (Count(other) == Count(m) ==>
              && Agreements(s, other) <= Agreements(s, m)
              && (Agreements(s, other) == Agreements(s, m) ==> TotalError(s, m) <= TotalError(s, other)))
  }

  lemma {:induction false} AgreementsAtMostCount(s: Scene, m: seq<int>)
    ensures Agreements(s, m) <= Count(m)
  {
    if m != [] {
      AgreementsAtMostCount(s, m[..|m| - 1]);
    }
  }

  /** The total score is one penalty per disagreeing pair plus the total error. */
  lemma {:induction false} ScoreSplits(s: Scene, m: seq<int>)
    ensures Agreements(s, m) <= Count(m)
    ensures Total(s.Problem().score, m) == Times(Count(m) - Agreements(s, m), s.SemanticPenalty()) + TotalError(s, m)
  {
    AgreementsAtMostCount(s, m);
    if m != [] {
      AgreementsAtMostCount(s, m[..|m| - 1]);
      ScoreSplits(s, m[..|m| - 1]);
    }
  }

  lemma ErrorsWithinOne(s: Scene, t: int, o: int)
    requires s.Valid() && s.Admissible(t, o)
    ensures 0.0 <= s.NormalisedError(t, o) <= 1.0
  {
    Quotient(s.XyError(t, o), s.truths[t].radius);
  }

  lemma TotalErrorBound(s: Scene, m: seq<int>)
    requires s.Valid() && IsMatching(s.Problem(), m)
    ensures 0.0 <= TotalError(s, m) < s.SemanticPenalty()
  {
    var error := (t, o) => s.NormalisedError(t, o);
    forall t | 0 <= t < |m| && m[t] != Unmatched ensures 0.0 <= error(t, m[t]) <= 1.0 {
      ErrorsWithinOne(s, t, m[t]);
    }
    TotalBound(error, 1.0, m);
    CountBelowPenalty(s, m);
  }

  lemma CountBelowPenalty(s: Scene, m: seq<int>)
    requires IsMatching(s.Problem(), m)
    ensures Times(Count(m), 1.0) < s.SemanticPenalty()
  {
    hide IsMatching, Count;
    CountBound(s.Problem(), m);
    TimesIsProduct(Count(m), 1.0);
    assert Count(m) as real * 1.0 == Count(m) as real;
  }

  /** Of two matchings of equal size, the one of least score agrees on at least as many labels, and at equal
      agreement has no greater error. */
  lemma LeastIsLexicographic(s: Scene, m: seq<int>, other: seq<int>)
    requires s.Valid() && IsMatching(s.Problem(), m) && IsMatching(s.Problem(), other) && Count(other) == Count(m)
    requires Total(s.Problem().score, m) <= Total(s.Problem().score, other)
    ensures Agreements(s, other) <= Agreements(s, m)
    ensures Agreements(s, other) == Agreements(s, m) ==> TotalError(s, m) <= TotalError(s, other)
  {
    ScoreSplits(s, m);
    ScoreSplits(s, other);
    TotalErrorBound(s, m);
    TotalErrorBound(s, other);
    if Agreements(s, m) < Agreements(s, other) {
      TimesMonotone(Count(m) - Agreements(s, other), Count(m) - Agreements(s, m), s.SemanticPenalty());
    }
  }

  /** The least total score among matchings of equal size is lexicographic in labels and errors. */
  lemma BestIsLexicographic(s: Scene, m: seq<int>)
    requires s.Valid() && Best(s.Problem(), m)
    ensures LexicographicallyBest(s, m)
  {
    forall other | IsMatching(s.Problem(), other) && Count(other) == Count(m)
      ensures Agreements(s, other) <= Agreements(s, m)
      ensures Agreements(s, other) == Agreements(s, m) ==> TotalError(s, m) <= TotalError(s, other)
    {
      LeastIsLexicographic(s, m, other);
    }
  }

  // ---------------------------------------------------------------- the cost matrix

  ghost function SemanticCell(s: Scene): (int, int) -> real {
    (i, j) =>
      if i < |s.truths| && j < |s.predictions| then if s.Admissible(i, j) then s.PairCost(i, j) else s.InvalidCost()
      else if i < |s.truths| then if j == |s.predictions| + i then s.UnmatchedCost() else s.InvalidCost()
      else if j < |s.predictions| then if i == |s.truths| + j then s.UnmatchedCost() else s.InvalidCost()
      else 0.0
  }

  lemma Products(k: real, n: real)
    requires k >= 1.0 && n >= 1.0
    ensures k * (k + 1.0) >= 2.0
    ensures k * (k + 1.0) * n * 4.0 > 2.0 * (k * (k + 1.0))
    ensures (k - 1.0) * (k + 1.0) < k * (k + 1.0)
  {
    var u := k * (k + 1.0);
    assert u - k * 2.0 == k * (k - 1.0) >= 0.0;
    assert u * n - u == u * (n - 1.0) >= 0.0;
    assert (k - 1.0) * (k + 1.0) == u - (k + 1.0);
  }

  /** The penalties are large enough for the reduction to be exact. */
  lemma PenaltiesSuffice(s: Scene)
    ensures s.InvalidCost() > 2.0 * s.UnmatchedCost() > 0.0
    ensures 2.0 * s.UnmatchedCost() > Times(s.MaxMatchCount(), s.SemanticPenalty() + 1.0)
  {
    var k := s.SemanticPenalty();
    Products(k, (|s.truths| + |s.predictions| + 1) as real);
    TimesIsProduct(s.MaxMatchCount(), k + 1.0);
    assert s.MaxMatchCount() as real == k - 1.0;
  }

  lemma SemanticScores(s: Scene)
    requires s.Valid()
    ensures ScoresWithin(s.Problem(), s.SemanticPenalty() + 1.0)
  {
    forall t, o | 0 <= t < |s.truths| && 0 <= o < |s.predictions| && s.Problem().admissible(t, o)
      ensures 0.0 <= s.PairCost(t, o) <= s.SemanticPenalty() + 1.0
    {
      ErrorsWithinOne(s, t, o);
    }
  }

  lemma SemanticEncodes(s: Scene, c: Matrix)
    requires Painted(c, s.Problem().Size(), SemanticCell(s), s.InvalidCost(), s.Problem().Size(), 0)
    requires s.InvalidCost() > 2.0 * s.UnmatchedCost() > 0.0
    ensures Encodes(s.Problem(), c, s.UnmatchedCost())
  {
  }

  /** Fills the cost matrix and remembers the raw distances. */
  method SemanticCosts(s: Scene) returns (costs: Matrix, raw: map<(int, int), real>)
    requires s.Valid()
    ensures Painted(costs, s.Problem().Size(), SemanticCell(s), s.InvalidCost(), s.Problem().Size(), 0)
    ensures forall t, o :: s.Indexes(t, o) ==> (t, o) in raw && raw[(t, o)] == s.XyError(t, o)
  {
    hide Painted;
    var truthCount, predictionCount := |s.truths|, |s.predictions|;
    var matrixSize := truthCount + predictionCount;
    var unmatchedCost, invalidCost := s.UnmatchedCost(), s.InvalidCost();
    ghost var want := SemanticCell(s);
    costs := seq(matrixSize, _ => seq(matrixSize, _ => invalidCost));
    Unpainted(matrixSize, want, invalidCost);
    raw := map[];
    for t := 0 to truthCount
      invariant Painted(costs, matrixSize, want, invalidCost, t, 0)
      invariant forall i, o :: s.Indexes(i, o) && i < t ==> (i, o) in raw && raw[(i, o)] == s.XyError(i, o)
    {
      for o := 0 to predictionCount
        invariant Painted(costs, matrixSize, want, invalidCost, t, o)
        invariant forall i, p :: s.Indexes(i, p) && (i < t || (i == t && p < o)) ==>
          (i, p) in raw && raw[(i, p)] == s.XyError(i, p)
      {
        var xyDistance := s.XyError(t, o);
        raw := raw[(t, o) := xyDistance];
        if xyDistance <= s.truths[t].radius && VolumeCompatible(s.policy, s.predictions[o], s.truths[t]) {
          PaintCell(costs, matrixSize, want, invalidCost, t, o);
          var semanticCost := if s.Agrees(t, o) then 0.0 else s.SemanticPenalty();
          costs := SetCell(costs, t, o, semanticCost + xyDistance / s.truths[t].radius);
        } else {
          SkipCells(costs, matrixSize, want, invalidCost, t, o, o + 1);
        }
      }
      SkipCells(costs, matrixSize, want, invalidCost, t, predictionCount, predictionCount + t);
      PaintCell(costs, matrixSize, want, invalidCost, t, predictionCount + t);
      costs := SetCell(costs, t, predictionCount + t, unmatchedCost);
      NextRow(costs, matrixSize, want, invalidCost, t, predictionCount + t + 1);
    }
    for o := 0 to predictionCount
      invariant Painted(costs, matrixSize, want, invalidCost, truthCount + o, 0)
    {
      var dummyRow := truthCount + o;
      SkipCells(costs, matrixSize, want, invalidCost, dummyRow, 0, o);
      PaintCell(costs, matrixSize, want, invalidCost, dummyRow, o);
      costs := SetCell(costs, dummyRow, o, unmatchedCost);
      SkipCells(costs, matrixSize, want, invalidCost, dummyRow, o + 1, predictionCount);
      for dummyColumn := predictionCount to matrixSize
        invariant Painted(costs, matrixSize, want, invalidCost, dummyRow, dummyColumn)
      {
        PaintCell(costs, matrixSize, want, invalidCost, dummyRow, dummyColumn);
        costs := SetCell(costs, dummyRow, dummyColumn, 0.0);
      }
      NextRow(costs, matrixSize, want, invalidCost, dummyRow, matrixSize);
    }
  }

  /** Penalties, solver and extraction together: the assignment's pairs are all admissible, and they
      form a lexicographically best matching. */
  method AssociateSemantically(s: Scene)
    returns (assignment: seq<int>, raw: map<(int, int), real>, ghost m: seq<int>)
    requires s.Valid()
    ensures LexicographicallyBest(s, m) && Best(s.Problem(), m)
    ensures |assignment| == |s.truths| + |s.predictions|
    ensures forall t :: 0 <= t < |s.truths| ==>
      if assignment[t] < |s.predictions| then m[t] == assignment[t] >= 0 && s.Admissible(t, assignment[t])
      else m[t] == Unmatched
    ensures forall t, o :: s.Indexes(t, o) ==> (t, o) in raw && raw[(t, o)] == s.XyError(t, o)
  {
    var costs;
    costs, raw := SemanticCosts(s);
    var outcome, _ := MinimumCostAssignment(costs);
    assignment := outcome.columns;
    PenaltiesSuffice(s);
    SemanticEncodes(s, costs);
    SemanticScores(s);
    ReductionIsExact(s.Problem(), costs, s.UnmatchedCost(), s.SemanticPenalty() + 1.0, assignment);
    m := Projected(s.Problem(), assignment);
    BestIsLexicographic(s, m);
  }
}
