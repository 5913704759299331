/** One-to-one association of detected objects and targets by position alone. */
module PositionMatching {
  import opened Sums
  import opened Assignment
  import opened Matching
  import opened CostMatrix
  import opened Options
  import opened SceneObjects

  datatype Match = Match(truthIndex: int, objectIndex: int, centerError: real)

  function CenterError(objects: seq<Detection>, truths: seq<Target>, distance: Metric, t: int, o: int): real
    requires 0 <= t < |truths| && 0 <= o < |objects| && Eligible(objects[o])
  {
    distance(objects[o].center.value, truths[t].center)
  }

  /** Any eligible object may match any target it lies close enough to; labels play no part. */
  ghost function PositionProblem(objects: seq<Detection>, truths: seq<Target>, distance: Metric): Problem {
    Problem(|truths|, |objects|,
            (t, o) => 0 <= t < |truths| && 0 <= o < |objects| && Eligible(objects[o])
                      && CenterError(objects, truths, distance, t, o) <= truths[t].radius,
            (t, o) => if 0 <= t < |truths| && 0 <= o < |objects| && Eligible(objects[o]) && truths[t].radius > 0.0
                      then CenterError(objects, truths, distance, t, o) / truths[t].radius else 0.0)
  }

  /** Which pairs count, by the inputs alone, and what they score: the distance in radii. */
  lemma CountsExactly(objects: seq<Detection>, truths: seq<Target>, distance: Metric, t: int, o: int)
    requires ValidTargets(truths)
    ensures
      var pr := PositionProblem(objects, truths, distance);
      && (pr.admissible(t, o) <==>
           && 0 <= t < |truths| && 0 <= o < |objects|
           && !objects[o].missing && objects[o].cls != "robot" && objects[o].center.Some?
           && distance(objects[o].center.value, truths[t].center) <= truths[t].radius)
      && (pr.admissible(t, o) ==> pr.score(t, o) * truths[t].radius == distance(objects[o].center.value, truths[t].center))
  {
    var pr := PositionProblem(objects, truths, distance);
    if 0 <= t < |truths| && 0 <= o < |objects| {
      assert Eligible(objects[o]) <==> !objects[o].missing && objects[o].cls != "robot" && objects[o].center.Some?;
    }
    if 0 <= t < |truths| && 0 <= o < |objects| && Eligible(objects[o]) {
      assert CenterError(objects, truths, distance, t, o) == distance(objects[o].center.value, truths[t].center);
      QuotientTimes(pr.score(t, o), distance(objects[o].center.value, truths[t].center), truths[t].radius);
    }
  }

  lemma QuotientTimes(q: real, d: real, r: real)
    requires r > 0.0 && q == d / r
    ensures q * r == d
  {
  }

  /** The same problem with the eligible objects renumbered from 0. */
  ghost function Renumbered(pr: Problem, eligible: seq<int>): Problem {
    Problem(pr.truths, |eligible|,
            (t, e) => 0 <= e < |eligible| && pr.admissible(t, eligible[e]),
            (t, e) => if 0 <= e < |eligible| then pr.score(t, eligible[e]) else 0.0)
  }

  ghost function Restored(m: seq<int>, eligible: seq<int>): (r: seq<int>)
    requires forall t :: 0 <= t < |m| ==> Unmatched <= m[t] < |eligible|
    ensures |r| == |m|
  {
    seq(|m|, t requires 0 <= t < |m| => if m[t] == Unmatched then Unmatched else eligible[m[t]])
  }

  lemma {:induction false} RestoredTotals(pr: Problem, eligible: seq<int>, m: seq<int>)
    requires forall t :: 0 <= t < |m| ==> Unmatched <= m[t] < |eligible|
    requires forall e :: 0 <= e < |eligible| ==> 0 <= eligible[e]
    ensures Count(Restored(m, eligible)) == Count(m)
    ensures Total(pr.score, Restored(m, eligible)) == Total(Renumbered(pr, eligible).score, m)
  {
    if m != [] {
      var k := |m| - 1;
      RestoredTotals(pr, eligible, m[..k]);
      assert Restored(m, eligible)[..k] == Restored(m[..k], eligible);
    }
  }

  /** Renumbering the objects that can be matched at all loses nothing. */
  lemma RestoredIsBest(pr: Problem, eligible: seq<int>, m: seq<int>)
    requires Below(eligible, pr.objects) && Injective(eligible)
    requires forall t, o :: 0 <= t < pr.truths && 0 <= o < pr.objects && pr.admissible(t, o) ==> o in eligible
    requires Best(Renumbered(pr, eligible), m)
    ensures Best(pr, Restored(m, eligible))
  {
    RestoredTotals(pr, eligible, m);
    RestoredIsMatching(pr, eligible, m);
    forall other | IsMatching(pr, other)
      ensures Count(other) <= Count(m)
      ensures Count(other) == Count(m) ==> Total(Renumbered(pr, eligible).score, m) <= Total(pr.score, other)
    {
      var m' := Abbreviated(pr, eligible, other);
      RestoredTotals(pr, eligible, m');
    }
  }

  lemma RestoredIsMatching(pr: Problem, eligible: seq<int>, m: seq<int>)
    requires Below(eligible, pr.objects) && Injective(eligible)
    requires IsMatching(Renumbered(pr, eligible), m)
    ensures IsMatching(pr, Restored(m, eligible))
  {
    var r := Restored(m, eligible);
    forall s, t | 0 <= s < t < |r| && r[s] != Unmatched ensures r[s] != r[t] {
      assert m[s] != m[t];
    }
  }

  lemma Abbreviated(pr: Problem, eligible: seq<int>, other: seq<int>) returns (m: seq<int>)
    requires Below(eligible, pr.objects) && Injective(eligible)
    requires forall t, o :: 0 <= t < pr.truths && 0 <= o < pr.objects && pr.admissible(t, o) ==> o in eligible
    requires IsMatching(pr, other)
    ensures IsMatching(Renumbered(pr, eligible), m) && Restored(m, eligible) == other
  {
    m := [];
    while |m| < |other|
      invariant |m| <= |other|
      invariant forall t :: 0 <= t < |m| ==> Unmatched <= m[t] < |eligible|
      invariant forall t :: 0 <= t < |m| ==> other[t] == if m[t] == Unmatched then Unmatched else eligible[m[t]]
    {
      var o := other[|m|];
      if o == Unmatched {
        m := m + [Unmatched];
      } else {
        assert pr.admissible(|m|, o);
        var e :| 0 <= e < |eligible| && eligible[e] == o;
        m := m + [e];
      }
    }
    assert Restored(m, eligible) == other;
    forall s, t | 0 <= s < t < |m| && m[s] != Unmatched ensures m[s] != m[t] {
      assert other[s] != other[t];
    }
  }

  // ---------------------------------------------------------------- normalised or plain distance

  ghost function CenterErrors(objects: seq<Detection>, truths: seq<Target>, distance: Metric): (int, int) -> real {
    (t, o) => if 0 <= t < |truths| && 0 <= o < |objects| && Eligible(objects[o])
              then CenterError(objects, truths, distance, t, o) else 0.0
  }

  /** The documented goal: no matching with as many pairs has a smaller total of plain distances. */
  ghost predicate LeastTotalDistance(objects: seq<Detection>, truths: seq<Target>, distance: Metric, m: seq<int>) {
    var pr := PositionProblem(objects, truths, distance);
    var errors := CenterErrors(objects, truths, distance);
    && IsMatching(pr, m)
    && forall other :: IsMatching(pr, other) && Count(other) == Count(m) ==> Total(errors, m) <= Total(errors, other)
  }

  /** The association of every scene with these radii meets the documented goal. */
  ghost predicate AlwaysLeastDistance(distance: Metric, radii: seq<real>) {
    forall objects, truths: seq<Target>, m ::
      Radii(truths) == radii && Best(PositionProblem(objects, truths, distance), m)
      ==> LeastTotalDistance(objects, truths, distance, m)
  }

  ghost function Radii(truths: seq<Target>): seq<real> {
    seq(|truths|, t requires 0 <= t < |truths| => truths[t].radius)
  }

  /** Along the first axis distances are differences, as Euclid's are. */
  ghost predicate DifferencesOnAxis(distance: Metric) {
    forall a, b :: distance(Point(a, 0.0, 0.0), Point(b, 0.0, 0.0)) == if a <= b then b - a else a - b
  }

  lemma DivideSum(a: real, b: real, r: real)
    requires r > 0.0
    ensures (a + b) / r == a / r + b / r
  {
  }

  lemma DivideLess(a: real, b: real, r: real)
    requires r > 0.0
    ensures a / r < b / r <==> a < b
  {
    assert a == (a / r) * r && b == (b / r) * r;
  }

  lemma DivideSelf(r: real)
    requires r > 0.0
    ensures r / r == 1.0
  {
  }

  /** With one radius for all, the normalised total is the plain total divided by that radius. */
  lemma {:induction false} TotalScales(objects: seq<Detection>, truths: seq<Target>, distance: Metric, r: real, m: seq<int>)
    requires r > 0.0 && |m| <= |truths| && forall t :: 0 <= t < |truths| ==> truths[t].radius == r
    ensures Total(PositionProblem(objects, truths, distance).score, m) == Total(CenterErrors(objects, truths, distance), m) / r
  {
    if m != [] {
      var t := |m| - 1;
      TotalScales(objects, truths, distance, r, m[..t]);
      var errors := CenterErrors(objects, truths, distance);
      DivideSum(Total(errors, m[..t]), errors(t, m[t]), r);
    }
  }

  lemma EqualRadiiSuffice(objects: seq<Detection>, truths: seq<Target>, distance: Metric, r: real, m: seq<int>)
    requires r > 0.0 && forall t :: 0 <= t < |truths| ==> truths[t].radius == r
    requires Best(PositionProblem(objects, truths, distance), m)
    ensures LeastTotalDistance(objects, truths, distance, m)
  {
    var pr := PositionProblem(objects, truths, distance);
    var errors := CenterErrors(objects, truths, distance);
    TotalScales(objects, truths, distance, r, m);
    forall other | IsMatching(pr, other) && Count(other) == Count(m) ensures Total(errors, m) <= Total(errors, other) {
      TotalScales(objects, truths, distance, r, other);
      DivideLess(Total(errors, other), Total(errors, m), r);
    }
  }

  /** Only truth t is matched, to object 0. */
  ghost function Single(n: nat, t: int): seq<int>
    requires 0 <= t < n
  {
    seq(n, _ => Unmatched)[t := 0]
  }

  lemma {:induction false} NothingMatched(score: (int, int) -> real, n: nat)
    ensures Count(seq(n, _ => Unmatched)) == 0 && Total(score, seq(n, _ => Unmatched)) == 0.0
  {
    if n != 0 {
      NothingMatched(score, n - 1);
      assert seq(n, _ => Unmatched)[..n - 1] == seq(n - 1, _ => Unmatched);
    }
  }

  lemma {:induction false} SingleTotals(score: (int, int) -> real, n: nat, t: int)
    requires 0 <= t < n
    ensures Count(Single(n, t)) == 1 && Total(score, Single(n, t)) == score(t, 0)
  {
    if t == n - 1 {
      NothingMatched(score, t);
      assert Single(n, t)[..t] == seq(t, _ => Unmatched);
    } else {
      SingleTotals(score, n - 1, t);
      assert Single(n, t)[..n - 1] == Single(n - 1, t);
    }
  }

  lemma {:induction false} SomeoneMatched(m: seq<int>) returns (t: int)
    requires Count(m) > 0
    ensures 0 <= t < |m| && m[t] != Unmatched
  {
    t := |m| - 1;
    if m[t] == Unmatched {
      t := SomeoneMatched(m[..t]);
    }
  }

  /** With one object, a matching matches nothing or one truth. */
  lemma OneObject(pr: Problem, m: seq<int>) returns (t: int)
    requires pr.objects == 1 && IsMatching(pr, m) && Count(m) == 1
    ensures 0 <= t < pr.truths && m == Single(pr.truths, t) && pr.admissible(t, 0)
  {
    t := SomeoneMatched(m);
    assert m[t] == 0;
    assert forall s :: 0 <= s < |m| && m[s] != Unmatched ==> m[s] == m[t];
  }

  lemma SingleIsMatching(pr: Problem, t: int)
    requires pr.objects == 1 && 0 <= t < pr.truths && pr.admissible(t, 0)
    ensures IsMatching(pr, Single(pr.truths, t))
  {
  }

  lemma TwoWays(pr: Problem, near: int, far: int, m: seq<int>)
    requires pr.objects == 1 && 0 <= near < pr.truths && 0 <= far < pr.truths
    requires forall t :: 0 <= t < pr.truths ==> (pr.admissible(t, 0) <==> t == near || t == far)
    requires IsMatching(pr, m)
    ensures Count(m) <= 1 && (Count(m) == 1 ==> m == Single(pr.truths, far) || m == Single(pr.truths, near))
  {
    hide IsMatching;
    CountBound(pr, m);
    if Count(m) == 1 {
      var t := OneObject(pr, m);
    }
  }

  /** One object and two truths in reach of it: the nearer one loses when the other is nearer by its own
      radius. */
  lemma NearerLoses(pr: Problem, near: int, far: int)
    requires pr.objects == 1 && 0 <= near < pr.truths && 0 <= far < pr.truths
    requires forall t :: 0 <= t < pr.truths ==> (pr.admissible(t, 0) <==> t == near || t == far)
    requires pr.score(far, 0) < pr.score(near, 0)
    ensures IsMatching(pr, Single(pr.truths, near))
    ensures forall m :: Best(pr, m) <==> m == Single(pr.truths, far)
  {
    hide IsMatching, Single, Total, Count;
    SingleIsMatching(pr, near);
    SingleIsMatching(pr, far);
    SingleTotals(pr.score, pr.truths, near);
    SingleTotals(pr.score, pr.truths, far);
    forall m | IsMatching(pr, m)
      ensures Count(m) <= 1 && (Count(m) == 1 ==> m == Single(pr.truths, far) || m == Single(pr.truths, near))
    {
      TwoWays(pr, near, far, m);
    }
  }

  /** Truths on the first axis, one object at its origin. */
  ghost function AxisTruths(radii: seq<real>, places: seq<real>): (truths: seq<Target>)
    requires |radii| == |places|
    ensures Radii(truths) == radii
  {
    seq(|radii|, t requires 0 <= t < |radii| => Target("", "", Point(places[t], 0.0, 0.0), radii[t], 1.0))
  }

  const AtOrigin := [Detection(false, "", Some(Point(0.0, 0.0, 0.0)), None)]

  /** On such a scene the association takes the farther truth, and so misses the documented goal. */
  lemma GoalMissed(distance: Metric, radii: seq<real>, places: seq<real>, near: int, far: int)
    requires DifferencesOnAxis(distance) && |radii| == |places| && 0 <= near < |radii| && 0 <= far < |radii|
    requires forall t :: 0 <= t < |radii| ==> radii[t] > 0.0 && places[t] >= 0.0
    requires forall t :: 0 <= t < |radii| ==> (places[t] <= radii[t] <==> t == near || t == far)
    requires places[near] < places[far] && places[far] / radii[far] < places[near] / radii[near]
    ensures var truths := AxisTruths(radii, places);
      forall m :: Best(PositionProblem(AtOrigin, truths, distance), m) <==> m == Single(|radii|, far)
    ensures !LeastTotalDistance(AtOrigin, AxisTruths(radii, places), distance, Single(|radii|, far))
  {
    var truths := AxisTruths(radii, places);
    var pr := PositionProblem(AtOrigin, truths, distance);
    assert Eligible(AtOrigin[0]);
    forall t | 0 <= t < |radii| ensures CenterErrors(AtOrigin, truths, distance)(t, 0) == places[t] {
      assert CenterError(AtOrigin, truths, distance, t, 0) == places[t];
    }
    NearerLoses(pr, near, far);
    SingleTotals(CenterErrors(AtOrigin, truths, distance), |radii|, near);
    SingleTotals(CenterErrors(AtOrigin, truths, distance), |radii|, far);
  }

  /** Radii 1 and 2, distances 0.9 and 1.0: the association takes the pair at 1.0. */
  lemma TotalDistanceCounterexample(distance: Metric)
    requires DifferencesOnAxis(distance)
    ensures var truths := AxisTruths([1.0, 2.0], [0.9, 1.0]);
      && (forall m :: Best(PositionProblem(AtOrigin, truths, distance), m) <==> m == [Unmatched, 0])
      && !LeastTotalDistance(AtOrigin, truths, distance, [Unmatched, 0])
  {
    GoalMissed(distance, [1.0, 2.0], [0.9, 1.0], 0, 1);
    assert Single(2, 1) == [Unmatched, 0];
  }

  /** The documented goal is met on every scene with given radii exactly when the radii are all equal. */
  lemma TotalDistanceExactly(distance: Metric, radii: seq<real>)
    requires DifferencesOnAxis(distance) && forall t :: 0 <= t < |radii| ==> radii[t] > 0.0
    ensures AlwaysLeastDistance(distance, radii)
      <==> forall s, t :: 0 <= s < |radii| && 0 <= t < |radii| ==> radii[s] == radii[t]
  {
    if s, t :| 0 <= s < |radii| && 0 <= t < |radii| && radii[s] < radii[t] {
      var places := seq(|radii|, k requires 0 <= k < |radii| =>
        if k == s then radii[s] else if k == t then (radii[s] + radii[t]) / 2.0 else radii[k] + 1.0);
      DivideLess(places[t], radii[t], radii[t]);
      DivideSelf(radii[s]);
      DivideSelf(radii[t]);
      GoalMissed(distance, radii, places, s, t);
      assert Radii(AxisTruths(radii, places)) == radii;
    } else {
      forall objects, truths: seq<Target>, m
        | Radii(truths) == radii && Best(PositionProblem(objects, truths, distance), m)
        ensures LeastTotalDistance(objects, truths, distance, m)
      {
        forall t | 0 <= t < |truths| ensures truths[t].radius == radii[t] {
          assert Radii(truths)[t] == truths[t].radius;
        }
        EqualRadiiSuffice(objects, truths, distance, if radii == [] then 1.0 else radii[0], m);
      }
    }
  }

  // ---------------------------------------------------------------- the cost matrix

  ghost function PositionCell(pr: Problem, unmatchedCost: real): (int, int) -> real {
    (i, j) =>
      if i < pr.truths && j < pr.objects then if pr.admissible(i, j) then pr.score(i, j) else unmatchedCost * 4.0
      else if i < pr.truths || j < pr.objects then unmatchedCost
      else 0.0
  }

  /** The matched pairs in truth order, each with its distance. */
  ghost function Listed(objects: seq<Detection>, truths: seq<Target>, distance: Metric, m: seq<int>): seq<Match>
    requires |m| <= |truths|
  {
    if m == [] then []
    else
      var t := |m| - 1;
      Listed(objects, truths, distance, m[..t])
      + if 0 <= m[t] < |objects| && Eligible(objects[m[t]])
        then [Match(t, m[t], CenterError(objects, truths, distance, t, m[t]))] else []
  }

  lemma {:induction false} ListedNothing(objects: seq<Detection>, truths: seq<Target>, distance: Metric, m: seq<int>)
    requires |m| <= |truths| && forall t :: 0 <= t < |m| ==> m[t] == Unmatched
    ensures Listed(objects, truths, distance, m) == []
  {
    if m != [] {
      ListedNothing(objects, truths, distance, m[..|m| - 1]);
    }
  }

  lemma NothingToMatch(pr: Problem, m: seq<int>)
    requires |m| == pr.truths && forall t :: 0 <= t < |m| ==> m[t] == Unmatched
    requires forall t, o :: 0 <= t < pr.truths && 0 <= o < pr.objects ==> !pr.admissible(t, o)
    ensures Best(pr, m)
  {
    forall other | IsMatching(pr, other) ensures other == m {
    }
  }

  lemma PositionScores(objects: seq<Detection>, truths: seq<Target>, distance: Metric, eligible: seq<int>)
    requires ValidTargets(truths) && forall a, b :: distance(a, b) >= 0.0
    ensures ScoresWithin(Renumbered(PositionProblem(objects, truths, distance), eligible), 1.0)
  {
    var pr := Renumbered(PositionProblem(objects, truths, distance), eligible);
    forall t, e | 0 <= t < pr.truths && 0 <= e < pr.objects && pr.admissible(t, e) ensures 0.0 <= pr.score(t, e) <= 1.0 {
      Quotient(CenterError(objects, truths, distance, t, eligible[e]), truths[t].radius);
    }
  }

  /** The partial matching a result list stands for. */
  ghost function MatchingOf(matches: seq<Match>, truthCount: nat): (m: seq<int>)
    ensures |m| == truthCount
  {
    if matches == [] then seq(truthCount, _ => Unmatched)
    else
      var k := |matches| - 1;
      var before := MatchingOf(matches[..k], truthCount);
      if 0 <= matches[k].truthIndex < truthCount then before[matches[k].truthIndex := matches[k].objectIndex] else before
  }

  lemma MatchingOfSnoc(matches: seq<Match>, last: Match, truthCount: nat)
    requires 0 <= last.truthIndex < truthCount
    ensures MatchingOf(matches + [last], truthCount) == MatchingOf(matches, truthCount)[last.truthIndex := last.objectIndex]
  {
    assert (matches + [last])[..|matches|] == matches;
  }

  /** Listing a matching and reading the list gives the matching back. */
  lemma {:induction false} ListedStandsFor(objects: seq<Detection>, truths: seq<Target>, distance: Metric, m: seq<int>)
    requires |m| <= |truths|
    requires forall t :: 0 <= t < |m| && m[t] != Unmatched ==> 0 <= m[t] < |objects| && Eligible(objects[m[t]])
    ensures MatchingOf(Listed(objects, truths, distance, m), |truths|) == m + seq(|truths| - |m|, _ => Unmatched)
  {
    if m != [] {
      var t := |m| - 1;
      ListedStandsFor(objects, truths, distance, m[..t]);
      var before := m[..t] + seq(|truths| - t, _ => Unmatched);
      assert before[t := m[t]] == m + seq(|truths| - |m|, _ => Unmatched);
      if m[t] == Unmatched {
        assert before[t := m[t]] == before;
        assert Listed(objects, truths, distance, m) == Listed(objects, truths, distance, m[..t]);
      } else {
        MatchingOfSnoc(Listed(objects, truths, distance, m[..t]),
                       Match(t, m[t], CenterError(objects, truths, distance, t, m[t])), |truths|);
      }
    }
  }

  /** Associates unique objects and targets: as many as possible, then at the least total of distance
      over association radius. */
  method MatchObjectsOneToOne(objects: seq<Detection>, truths: seq<Target>, distance: Metric)
    returns (matches: seq<Match>)
    requires ValidTargets(truths) && forall a, b :: distance(a, b) >= 0.0
    ensures Best(PositionProblem(objects, truths, distance), MatchingOf(matches, |truths|))
    ensures matches == Listed(objects, truths, distance, MatchingOf(matches, |truths|))
    ensures forall k :: 0 <= k < |matches| ==> WellMatched(objects, truths, distance, matches[k])
    ensures forall j, k :: 0 <= j < k < |matches| ==>
      matches[j].truthIndex < matches[k].truthIndex && matches[j].objectIndex != matches[k].objectIndex
  {
    ghost var m;
    matches, m := AssociateEligible(objects, truths, distance);
    ListedStandsFor(objects, truths, distance, m);
    assert m + seq(|truths| - |m|, _ => Unmatched) == m;
    ListedIsWellMatched(objects, truths, distance, m);
  }

  /** An object that is not missing, is not the robot and has a centre, within the target's radius, with its
      plain distance. */
  ghost predicate WellMatched(objects: seq<Detection>, truths: seq<Target>, distance: Metric, p: Match) {
    && 0 <= p.truthIndex < |truths| && 0 <= p.objectIndex < |objects|
    && !objects[p.objectIndex].missing && objects[p.objectIndex].cls != "robot" && objects[p.objectIndex].center.Some?
    && p.centerError == distance(objects[p.objectIndex].center.value, truths[p.truthIndex].center)
    && p.centerError <= truths[p.truthIndex].radius
  }

  lemma {:induction false} ListedAt(objects: seq<Detection>, truths: seq<Target>, distance: Metric, m: seq<int>, k: int)
    requires |m| <= |truths| && 0 <= k < |Listed(objects, truths, distance, m)|
    ensures var p := Listed(objects, truths, distance, m)[k];
      && 0 <= p.truthIndex < |m| && p.objectIndex == m[p.truthIndex] && 0 <= p.objectIndex < |objects|
      && Eligible(objects[p.objectIndex]) && p.centerError == CenterError(objects, truths, distance, p.truthIndex, p.objectIndex)
    ensures forall j :: 0 <= j < k ==>
      Listed(objects, truths, distance, m)[j].truthIndex < Listed(objects, truths, distance, m)[k].truthIndex
  {
    var t := |m| - 1;
    var before := Listed(objects, truths, distance, m[..t]);
    if k < |before| {
      ListedAt(objects, truths, distance, m[..t], k);
    } else {
      forall j | 0 <= j < k ensures before[j].truthIndex < t {
        ListedAt(objects, truths, distance, m[..t], j);
      }
    }
  }

  lemma ListedIsWellMatched(objects: seq<Detection>, truths: seq<Target>, distance: Metric, m: seq<int>)
    requires IsMatching(PositionProblem(objects, truths, distance), m)
    ensures var matches := Listed(objects, truths, distance, m);
      && (forall k :: 0 <= k < |matches| ==> WellMatched(objects, truths, distance, matches[k]))
      && forall j, k :: 0 <= j < k < |matches| ==>
           matches[j].truthIndex < matches[k].truthIndex && matches[j].objectIndex != matches[k].objectIndex
  {
    var matches := Listed(objects, truths, distance, m);
    forall k | 0 <= k < |matches| ensures WellMatched(objects, truths, distance, matches[k]) {
      ListedAt(objects, truths, distance, m, k);
    }
    forall j, k | 0 <= j < k < |matches|
      ensures matches[j].truthIndex < matches[k].truthIndex && matches[j].objectIndex != matches[k].objectIndex
    {
      ListedAt(objects, truths, distance, m, j);
      ListedAt(objects, truths, distance, m, k);
    }
  }

  lemma AdmissibleIsEligible(objects: seq<Detection>, truths: seq<Target>, distance: Metric)
    ensures var pr := PositionProblem(objects, truths, distance);
      forall t, o :: 0 <= t < pr.truths && 0 <= o < pr.objects && pr.admissible(t, o) ==> o in EligibleIndexes(objects)
  {
    forall k | 0 <= k < |objects| && Eligible(objects[k]) ensures k in EligibleIndexes(objects) {
      EligibleIsIndexed(objects, k);
    }
  }

  /** What extraction will read off the assignment is the restored matching. */
  lemma RestoredReads(objects: seq<Detection>, truths: seq<Target>, distance: Metric, eligible: seq<int>,
                      cols: seq<int>, raw: map<(int, int), real>, m: seq<int>)
    requires forall e :: 0 <= e < |eligible| ==> 0 <= eligible[e] < |objects| && Eligible(objects[eligible[e]])
    requires |m| == |truths| <= |cols|
    requires forall t, e :: 0 <= t < |truths| && 0 <= e < |eligible| ==>
      (t, e) in raw && raw[(t, e)] == CenterError(objects, truths, distance, t, eligible[e])
    requires var pr := Renumbered(PositionProblem(objects, truths, distance), eligible);
      forall t :: 0 <= t < |truths| ==>
        if cols[t] < |eligible| then m[t] == cols[t] >= 0 && pr.admissible(t, cols[t]) else m[t] == Unmatched
    ensures forall t :: 0 <= t < |truths| ==>
      Restored(m, eligible)[t] == if 0 <= cols[t] < |eligible| && raw[(t, cols[t])] <= truths[t].radius
                                  then eligible[cols[t]] else Unmatched
  {
  }

  /** The association itself; `m` is the matching the result lists. */
  method AssociateEligible(objects: seq<Detection>, truths: seq<Target>, distance: Metric)
    returns (matches: seq<Match>, ghost m: seq<int>)
    requires ValidTargets(truths) && forall a, b :: distance(a, b) >= 0.0
    ensures Best(PositionProblem(objects, truths, distance), m)
    ensures matches == Listed(objects, truths, distance, m)
  {
    ghost var full := PositionProblem(objects, truths, distance);
    var eligible := CollectEligible(objects);
    EligibleIndexesFacts(objects);
    AdmissibleIsEligible(objects, truths, distance);
    var truthCount, objectCount := |truths|, |eligible|;
    if truthCount == 0 || objectCount == 0 {
      m := seq(truthCount, _ => Unmatched);
      NothingToMatch(full, m);
      ListedNothing(objects, truths, distance, m);
      return [], m;
    }
    hide Cheapest, Best;
    var costs, raw := PositionCosts(objects, truths, distance, eligible);
    var outcome, _ := MinimumCostAssignment(costs);
    ghost var projected := PositionReduction(objects, truths, distance, eligible, costs, outcome.columns);
    RestoredIsBest(full, eligible, projected);
    m := Restored(projected, eligible);
    RestoredReads(objects, truths, distance, eligible, outcome.columns, raw, projected);
    matches := ExtractMatches(objects, truths, distance, eligible, outcome.columns, raw, m);
  }

  /** Two unmatched costs exceed the total of any matching with scores up to 1. */
  lemma UnmatchedSuffices(pr: Problem)
    ensures 2.0 * (pr.Size() + 1) as real > Times(pr.MaxMatches(), 1.0)
  {
    var n := pr.MaxMatches();
    TimesIsProduct(n, 1.0);
    assert n as real * 1.0 == n as real;
    assert n <= pr.Size();
  }

  /** The filter at extraction keeps every pair of the assignment. */
  lemma PositionReduction(objects: seq<Detection>, truths: seq<Target>, distance: Metric, eligible: seq<int>,
                          c: Matrix, cols: seq<int>) returns (m: seq<int>)
    requires ValidTargets(truths) && forall a, b :: distance(a, b) >= 0.0
    requires var pr := Renumbered(PositionProblem(objects, truths, distance), eligible);
      Painted(c, pr.Size(), PositionCell(pr, (pr.Size() + 1) as real), 0.0, pr.Size(), 0)
    requires |cols| == |c| && Cheapest(c, cols)
    ensures var pr := Renumbered(PositionProblem(objects, truths, distance), eligible);
      && Best(pr, m)
      && forall t :: 0 <= t < |truths| ==>
           if cols[t] < |eligible| then m[t] == cols[t] >= 0 && pr.admissible(t, cols[t]) else m[t] == Unmatched
  {
    var pr := Renumbered(PositionProblem(objects, truths, distance), eligible);
    var unmatchedCost := (pr.Size() + 1) as real;
    PositionEncodes(pr, c, unmatchedCost);
    PositionScores(objects, truths, distance, eligible);
    UnmatchedSuffices(pr);
    ReductionIsExact(pr, c, unmatchedCost, 1.0, cols);
    m := Projected(pr, cols);
  }

  method CollectEligible(objects: seq<Detection>) returns (eligible: seq<int>)
    ensures eligible == EligibleIndexes(objects)
  {
    eligible := [];
    for index := 0 to |objects|
      invariant eligible == EligibleIndexes(objects[..index])
    {
      assert objects[..index + 1][..index] == objects[..index];
      if Eligible(objects[index]) {
        eligible := eligible + [index];
      }
    }
    assert objects[..|objects|] == objects;
  }

  /** Keeps the assigned pairs of a truth and a real object that lie within the radius. */
  method ExtractMatches(objects: seq<Detection>, truths: seq<Target>, distance: Metric, eligible: seq<int>,
                        assignment: seq<int>, raw: map<(int, int), real>, ghost m: seq<int>)
    returns (matches: seq<Match>)
    requires |truths| <= |assignment| && |m| == |truths|
    requires forall e :: 0 <= e < |eligible| ==> 0 <= eligible[e] < |objects| && Eligible(objects[eligible[e]])
    requires forall t, e :: 0 <= t < |truths| && 0 <= e < |eligible| ==>
      (t, e) in raw && raw[(t, e)] == CenterError(objects, truths, distance, t, eligible[e])
    requires forall t :: 0 <= t < |truths| ==>
      m[t] == if 0 <= assignment[t] < |eligible| && raw[(t, assignment[t])] <= truths[t].radius
              then eligible[assignment[t]] else Unmatched
    ensures matches == Listed(objects, truths, distance, m)
  {
    matches := [];
    for truthIndex := 0 to |truths|
      invariant matches == Listed(objects, truths, distance, m[..truthIndex])
    {
      assert m[..truthIndex + 1][..truthIndex] == m[..truthIndex];
      var eligibleIndex := assignment[truthIndex];
      if !(0 <= eligibleIndex < |eligible|) {
        continue;
      }
      var error := raw[(truthIndex, eligibleIndex)];
      if error > truths[truthIndex].radius {
        continue;
      }
      matches := matches + [Match(truthIndex, eligible[eligibleIndex], error)];
    }
    assert m[..|truths|] == m;
  }

  lemma PositionEncodes(pr: Problem, c: Matrix, unmatchedCost: real)
    requires unmatchedCost > 0.0
    requires Painted(c, pr.Size(), PositionCell(pr, unmatchedCost), 0.0, pr.Size(), 0)
    ensures Encodes(pr, c, unmatchedCost)
  {
  }

  /** Fills the cost matrix and remembers the raw distances. */
  method PositionCosts(objects: seq<Detection>, truths: seq<Target>, distance: Metric, eligible: seq<int>)
    returns (costs: Matrix, raw: map<(int, int), real>)
    requires ValidTargets(truths)
    requires forall e :: 0 <= e < |eligible| ==> 0 <= eligible[e] < |objects| && Eligible(objects[eligible[e]])
    ensures var pr := Renumbered(PositionProblem(objects, truths, distance), eligible);
      Painted(costs, pr.Size(), PositionCell(pr, (pr.Size() + 1) as real), 0.0, pr.Size(), 0)
    ensures forall t, e :: 0 <= t < |truths| && 0 <= e < |eligible| ==>
      (t, e) in raw && raw[(t, e)] == CenterError(objects, truths, distance, t, eligible[e])
  {
    hide Painted;
    var truthCount, objectCount := |truths|, |eligible|;
    var matrixSize := truthCount + objectCount;
    var unmatchedCost := (matrixSize + 1) as real;
    var invalidCost := unmatchedCost * 4.0;
    ghost var pr := Renumbered(PositionProblem(objects, truths, distance), eligible);
    ghost var want := PositionCell(pr, unmatchedCost);
    costs := seq(matrixSize, _ => seq(matrixSize, _ => 0.0));
    Unpainted(matrixSize, want, 0.0);
    raw := map[];
    for t := 0 to truthCount
      invariant Painted(costs, matrixSize, want, 0.0, t, 0)
      invariant forall s, e :: 0 <= s < t && 0 <= e < objectCount ==>
        (s, e) in raw && raw[(s, e)] == CenterError(objects, truths, distance, s, eligible[e])
    {
      for e := 0 to objectCount
        invariant Painted(costs, matrixSize, want, 0.0, t, e)
        invariant forall s, f :: (0 <= s < t && 0 <= f < objectCount) || (s == t && 0 <= f < e) ==>
          (s, f) in raw && raw[(s, f)] == CenterError(objects, truths, distance, s, eligible[f])
      {
        var d := CenterError(objects, truths, distance, t, eligible[e]);
        raw := raw[(t, e) := d];
        PaintCell(costs, matrixSize, want, 0.0, t, e);
        costs := SetCell(costs, t, e, if d <= truths[t].radius then d / truths[t].radius else invalidCost);
      }
      for dummy := objectCount to matrixSize
        invariant Painted(costs, matrixSize, want, 0.0, t, dummy)
      {
        PaintCell(costs, matrixSize, want, 0.0, t, dummy);
        costs := SetCell(costs, t, dummy, unmatchedCost);
      }
      NextRow(costs, matrixSize, want, 0.0, t, matrixSize);
    }
    for row := truthCount to matrixSize
      invariant Painted(costs, matrixSize, want, 0.0, row, 0)
    {
      for e := 0 to objectCount
        invariant Painted(costs, matrixSize, want, 0.0, row, e)
      {
        PaintCell(costs, matrixSize, want, 0.0, row, e);
        costs := SetCell(costs, row, e, unmatchedCost);
      }
      NextRow(costs, matrixSize, want, 0.0, row, objectCount);
    }
  }
}
