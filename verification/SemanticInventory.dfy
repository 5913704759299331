/** The detection report of the scene benchmark: matches, misses and the kinds of false positive. */
module SemanticInventory {
  import opened Sums
  import opened Matching
  import opened Options
  import opened SceneObjects
  import opened SemanticMatching

  datatype Pair = Pair(truthIndex: int, objectIndex: int, xyError: real)

  datatype Duplicate = Duplicate(objectIndex: int, nearestTruth: int)

  /** `perTarget` has an entry for each target in scope. */
  datatype Report = Report(visibleMatches: seq<Pair>, ignoredMatches: seq<Pair>, perTarget: seq<Option<Pair>>,
                           duplicates: seq<Duplicate>, ghosts: seq<int>,
                           tp: int, fp: int, fn: int, visibleTruthCount: int)

  function Predictions(objects: seq<Detection>): (r: seq<Detection>)
    ensures forall k :: 0 <= k < |r| ==> Eligible(r[k])
  {
    if objects == [] then []
    else
      var k := |objects| - 1;
      Predictions(objects[..k]) + if Eligible(objects[k]) then [objects[k]] else []
  }

  /** `kept` are the objects at the positions `idx`: in order, all that are not missing, are not the robot and
      have a centre, and no others. */
  ghost predicate Selects(objects: seq<Detection>, kept: seq<Detection>, idx: seq<int>) {
    && |idx| == |kept| && Below(idx, |objects|)
    && (forall a, b :: 0 <= a < b < |idx| ==> idx[a] < idx[b])
    && (forall k :: 0 <= k < |kept| ==> kept[k] == objects[idx[k]])
    && (forall i :: 0 <= i < |objects| ==>
         (i in idx <==> !objects[i].missing && objects[i].cls != "robot" && objects[i].center.Some?))
  }

  lemma SelectsOneMore(objects: seq<Detection>, last: Detection, kept: seq<Detection>, idx: seq<int>)
    requires Selects(objects, kept, idx) && !last.missing && last.cls != "robot" && last.center.Some?
    ensures Selects(objects + [last], kept + [last], idx + [|objects|])
  {
    var all, more := objects + [last], idx + [|objects|];
    forall i | 0 <= i < |all|
      ensures i in more <==> !all[i].missing && all[i].cls != "robot" && all[i].center.Some?
    {
      assert i in more <==> i in idx || i == |objects|;
    }
  }

  lemma SelectsNoMore(objects: seq<Detection>, last: Detection, kept: seq<Detection>, idx: seq<int>)
    requires Selects(objects, kept, idx) && !(!last.missing && last.cls != "robot" && last.center.Some?)
    ensures Selects(objects + [last], kept, idx)
  {
    assert |objects| !in idx;
  }

  lemma {:induction false} PredictionsAreSelected(objects: seq<Detection>) returns (idx: seq<int>)
    ensures Selects(objects, Predictions(objects), idx)
  {
    if objects == [] {
      idx := [];
    } else {
      hide Selects;
      var k := |objects| - 1;
      idx := PredictionsAreSelected(objects[..k]);
      assert objects == objects[..k] + [objects[k]];
      if Eligible(objects[k]) {
        SelectsOneMore(objects[..k], objects[k], Predictions(objects[..k]), idx);
        idx := idx + [k];
      } else {
        SelectsNoMore(objects[..k], objects[k], Predictions(objects[..k]), idx);
      }
    }
  }

  /** Without visibility evidence every target is in scope. */
  predicate InScope(visible: Option<set<string>>, truth: Target) {
    visible.None? || truth.identity in visible.value
  }

  ghost predicate UniqueIdentities(truths: seq<Target>) {
    forall a, b :: 0 <= a < b < |truths| ==> truths[a].identity != truths[b].identity
  }

  // ---------------------------------------------------------------- what the report should say

  ghost predicate Fits(s: Scene, m: seq<int>) {
    |m| <= |s.truths| && forall t :: 0 <= t < |m| ==> m[t] == Unmatched || s.Indexes(t, m[t])
  }

  ghost function PairAt(s: Scene, m: seq<int>, t: int): Pair
    requires Fits(s, m) && 0 <= t < |m| && m[t] != Unmatched
  {
    Pair(t, m[t], s.XyError(t, m[t]))
  }

  /** The matched pairs in truth order. */
  ghost function Pairs(s: Scene, m: seq<int>): seq<Pair>
    requires Fits(s, m)
  {
    if m == [] then []
    else
      var t := |m| - 1;
      Pairs(s, m[..t]) + if m[t] == Unmatched then [] else [PairAt(s, m, t)]
  }

  ghost predicate Indexed(s: Scene, pairs: seq<Pair>) {
    forall k :: 0 <= k < |pairs| ==> 0 <= pairs[k].truthIndex < |s.truths|
  }

  /** The pairs whose target is in scope, or those whose target is not. */
  ghost function Scoped(s: Scene, visible: Option<set<string>>, pairs: seq<Pair>, wanted: bool): seq<Pair>
    requires Indexed(s, pairs)
  {
    if pairs == [] then []
    else
      var k := |pairs| - 1;
      Scoped(s, visible, pairs[..k], wanted)
      + if InScope(visible, s.truths[pairs[k].truthIndex]) == wanted then [pairs[k]] else []
  }

  /** The last pair whose target has the identity. */
  ghost function LastPair(s: Scene, pairs: seq<Pair>, id: string): Option<Pair>
    requires Indexed(s, pairs)
  {
    if pairs == [] then None
    else
      var k := |pairs| - 1;
      if s.truths[pairs[k].truthIndex].identity == id then Some(pairs[k]) else LastPair(s, pairs[..k], id)
  }

  /** One entry for each target in scope below k: the last of the pairs with the target's identity. */
  ghost function Entries(s: Scene, visible: Option<set<string>>, pairs: seq<Pair>, k: nat): seq<Option<Pair>>
    requires Indexed(s, pairs) && k <= |s.truths|
  {
    if k == 0 then []
    else
      Entries(s, visible, pairs, k - 1)
      + if InScope(visible, s.truths[k - 1]) then [LastPair(s, pairs, s.truths[k - 1].identity)] else []
  }

  /** The same with each target's own match, if it has one. */
  ghost function OwnEntries(s: Scene, visible: Option<set<string>>, m: seq<int>): seq<Option<Pair>>
    requires Fits(s, m)
  {
    if m == [] then []
    else
      var t := |m| - 1;
      OwnEntries(s, visible, m[..t]) + if InScope(visible, s.truths[t]) then [Entry(s, m, t)] else []
  }

  ghost function Entry(s: Scene, m: seq<int>, t: int): Option<Pair>
    requires Fits(s, m) && 0 <= t < |m|
  {
    if m[t] == Unmatched then None else Some(PairAt(s, m, t))
  }

  /** An unmatched target whose entry shows the match of another target with its identity. */
  ghost predicate Borrows(s: Scene, m: seq<int>, t: int)
    requires |m| <= |s.truths|
  {
    && 0 <= t < |m| && m[t] == Unmatched
    && exists u :: 0 <= u < |m| && m[u] != Unmatched && s.truths[u].identity == s.truths[t].identity
  }

  ghost function CountSome(entries: seq<Option<Pair>>): nat {
    if entries == [] then 0
    else CountSome(entries[..|entries| - 1]) + if entries[|entries| - 1].Some? then 1 else 0
  }

  ghost predicate HasNearby(s: Scene, o: int) {
    exists t :: 0 <= t < |s.truths| && s.Admissible(t, o)
  }

  /** The first of the admissible targets closest to prediction o. */
  ghost predicate IsNearest(s: Scene, o: int, t: int) {
    && s.Admissible(t, o)
    && forall other :: s.Admissible(other, o) ==>
         s.XyError(t, o) <= s.XyError(other, o) && (other < t ==> s.XyError(t, o) < s.XyError(other, o))
  }

  /** The predictions below k left unmatched, with or without an admissible target. */
  ghost function Unclaimed(s: Scene, m: seq<int>, k: nat, near: bool): seq<int> {
    if k == 0 then []
    else Unclaimed(s, m, k - 1, near) + if k - 1 !in m && HasNearby(s, k - 1) == near then [k - 1] else []
  }

  ghost function DuplicateObjects(duplicates: seq<Duplicate>): seq<int> {
    seq(|duplicates|, i requires 0 <= i < |duplicates| => duplicates[i].objectIndex)
  }

  /** The report is the one of matching m. */
  ghost predicate Reports(s: Scene, visible: Option<set<string>>, m: seq<int>, r: Report) {
    && Fits(s, m) && |m| == |s.truths| && Indexed(s, Pairs(s, m))
    && r.visibleMatches == Scoped(s, visible, Pairs(s, m), true)
    && r.ignoredMatches == Scoped(s, visible, Pairs(s, m), false)
    && Indexed(s, r.visibleMatches) && r.perTarget == Entries(s, visible, r.visibleMatches, |s.truths|)
    && DuplicateObjects(r.duplicates) == Unclaimed(s, m, |s.predictions|, true)
    && (forall i :: 0 <= i < |r.duplicates| ==> IsNearest(s, r.duplicates[i].objectIndex, r.duplicates[i].nearestTruth))
    && r.ghosts == Unclaimed(s, m, |s.predictions|, false)
    && r.visibleTruthCount == |r.perTarget|
    && r.tp == |r.visibleMatches| && r.fn == r.visibleTruthCount - r.tp
    && r.fp == |r.duplicates| + |r.ghosts|
  }

  // ---------------------------------------------------------------- what follows for the reader

  /** The predictions below k that m uses. */
  ghost function Claimed(m: seq<int>, k: nat): seq<int> {
    if k == 0 then [] else Claimed(m, k - 1) + if k - 1 in m then [k - 1] else []
  }

  lemma {:induction false} ClaimedFacts(m: seq<int>, k: nat)
    ensures forall i :: 0 <= i < |Claimed(m, k)| ==> 0 <= Claimed(m, k)[i] < k && Claimed(m, k)[i] in m
    ensures Injective(Claimed(m, k))
    ensures forall o :: 0 <= o < k && o in m ==> o in Claimed(m, k)
  {
    if k != 0 {
      ClaimedFacts(m, k - 1);
      assert k - 1 in m ==> Claimed(m, k)[|Claimed(m, k - 1)|] == k - 1;
      assert forall o :: o in Claimed(m, k - 1) ==> o in Claimed(m, k);
    }
  }

  lemma {:induction false} ChosenCovers(m: seq<int>, o: int)
    requires o in m && o != Unmatched
    ensures o in Chosen(m)
  {
    var t := |m| - 1;
    if m[t] == o {
      assert Chosen(m)[|Chosen(m[..t])|] == o;
    } else {
      ChosenCovers(m[..t], o);
    }
  }

  lemma ClaimedCount(s: Scene, m: seq<int>)
    requires IsMatching(s.Problem(), m)
    ensures |Claimed(m, |s.predictions|)| == Count(m)
  {
    var claimed, chosen := Claimed(m, |s.predictions|), Chosen(m);
    ClaimedFacts(m, |s.predictions|);
    ChosenFacts(m, |s.predictions|);
    forall o | o in claimed ensures o in chosen {
      ChosenCovers(m, o);
    }
    assert SetOf(claimed) == SetOf(chosen);
    InjectiveCardinality(claimed);
    InjectiveCardinality(chosen);
  }

  lemma {:induction false} UnclaimedCount(s: Scene, m: seq<int>, k: nat)
    ensures |Unclaimed(s, m, k, true)| + |Unclaimed(s, m, k, false)| + |Claimed(m, k)| == k
  {
    if k != 0 {
      UnclaimedCount(s, m, k - 1);
    }
  }

  lemma {:induction false} PairsFacts(s: Scene, m: seq<int>)
    requires Fits(s, m)
    ensures |Pairs(s, m)| == Count(m) && Indexed(s, Pairs(s, m))
    ensures forall p: Pair :: p in Pairs(s, m) <==>
      0 <= p.truthIndex < |m| && m[p.truthIndex] != Unmatched && p == PairAt(s, m, p.truthIndex)
  {
    if m != [] {
      var t := |m| - 1;
      PairsFacts(s, m[..t]);
      assert Fits(s, m[..t]);
      forall p: Pair ensures p in Pairs(s, m) <==> p in Pairs(s, m[..t]) || (m[t] != Unmatched && p == PairAt(s, m, t)) {
      }
      forall p: Pair | 0 <= p.truthIndex < t && m[p.truthIndex] != Unmatched
        ensures PairAt(s, m[..t], p.truthIndex) == PairAt(s, m, p.truthIndex)
      {
      }
    }
  }

  lemma {:induction false} ScopedCount(s: Scene, visible: Option<set<string>>, pairs: seq<Pair>)
    requires Indexed(s, pairs)
    ensures |Scoped(s, visible, pairs, true)| + |Scoped(s, visible, pairs, false)| == |pairs|
  {
    if pairs != [] {
      ScopedCount(s, visible, pairs[..|pairs| - 1]);
    }
  }

  /** Every prediction is counted exactly once: as a true positive, as matched to a target out of
      scope, as a duplicate or as a ghost. */
  lemma PredictionsAccountedFor(s: Scene, visible: Option<set<string>>, m: seq<int>, r: Report)
    requires Reports(s, visible, m, r) && IsMatching(s.Problem(), m)
    ensures r.tp + |r.ignoredMatches| + |r.duplicates| + |r.ghosts| == |s.predictions|
    ensures r.tp + r.fp <= |s.predictions|
  {
    PairsFacts(s, m);
    ScopedCount(s, visible, Pairs(s, m));
    ClaimedCount(s, m);
    UnclaimedCount(s, m, |s.predictions|);
    assert |DuplicateObjects(r.duplicates)| == |r.duplicates|;
  }

  /** So every detection that is not missing, is not the robot and has a centre is counted exactly once, and
      nothing else is. */
  lemma DetectionsAccountedFor(objects: seq<Detection>, s: Scene, visible: Option<set<string>>, m: seq<int>, r: Report,
                               idx: seq<int>)
    requires Selects(objects, s.predictions, idx)
    requires Reports(s, visible, m, r) && IsMatching(s.Problem(), m)
    ensures r.tp == |r.visibleMatches| && r.fp == |r.duplicates| + |r.ghosts|
    ensures r.tp + |r.ignoredMatches| + r.fp
         == |set i | 0 <= i < |objects| && !objects[i].missing && objects[i].cls != "robot" && objects[i].center.Some?|
  {
    PredictionsAccountedFor(s, visible, m, r);
    InjectiveCardinality(idx);
    assert SetOf(idx)
        == set i | 0 <= i < |objects| && !objects[i].missing && objects[i].cls != "robot" && objects[i].center.Some?;
  }

  lemma ScopedSnoc(s: Scene, visible: Option<set<string>>, pairs: seq<Pair>, p: Pair)
    requires Indexed(s, pairs) && 0 <= p.truthIndex < |s.truths|
    ensures Indexed(s, pairs + [p])
    ensures Scoped(s, visible, pairs + [p], true)
         == Scoped(s, visible, pairs, true) + if InScope(visible, s.truths[p.truthIndex]) then [p] else []
  {
    assert (pairs + [p])[..|pairs|] == pairs;
  }

  lemma CountSomeSnoc(entries: seq<Option<Pair>>, entry: Option<Pair>)
    ensures CountSome(entries + [entry]) == CountSome(entries) + if entry.Some? then 1 else 0
  {
    assert (entries + [entry])[..|entries|] == entries;
  }

  lemma CountSomeIf(entries: seq<Option<Pair>>, entry: Option<Pair>, listed: bool)
    ensures CountSome(entries + if listed then [entry] else []) == CountSome(entries) + if listed && entry.Some? then 1 else 0
  {
    if listed {
      CountSomeSnoc(entries, entry);
    } else {
      assert entries + [] == entries;
    }
  }

  lemma {:induction false} CountSomeBound(entries: seq<Option<Pair>>)
    ensures CountSome(entries) <= |entries|
  {
    if entries != [] {
      CountSomeBound(entries[..|entries| - 1]);
    }
  }

  lemma PairsStep(s: Scene, m: seq<int>, t: int)
    requires Fits(s, m) && |m| == t + 1 > 0
    ensures Fits(s, m[..t]) && Indexed(s, Pairs(s, m[..t]))
    ensures Pairs(s, m) == if m[t] == Unmatched then Pairs(s, m[..t]) else Pairs(s, m[..t]) + [PairAt(s, m, t)]
  {
    PairsFacts(s, m[..t]);
  }

  lemma OwnEntriesStep(s: Scene, visible: Option<set<string>>, m: seq<int>, t: int)
    requires Fits(s, m) && |m| == t + 1 > 0
    ensures CountSome(OwnEntries(s, visible, m))
         == CountSome(OwnEntries(s, visible, m[..t])) + if InScope(visible, s.truths[t]) && m[t] != Unmatched then 1 else 0
  {
    var entries, next := OwnEntries(s, visible, m[..t]), OwnEntries(s, visible, m);
    CountSomeSnoc(entries, Entry(s, m, t));
    assert next == if InScope(visible, s.truths[t]) then entries + [Entry(s, m, t)] else entries;
  }

  lemma {:induction false} TruePositivesCount(s: Scene, visible: Option<set<string>>, m: seq<int>)
    requires Fits(s, m) && Indexed(s, Pairs(s, m))
    ensures |Scoped(s, visible, Pairs(s, m), true)| == CountSome(OwnEntries(s, visible, m))
  {
    if m != [] {
      hide Fits, InScope, OwnEntries, Pairs;
      var t := |m| - 1;
      PairsStep(s, m, t);
      OwnEntriesStep(s, visible, m, t);
      TruePositivesCount(s, visible, m[..t]);
      if m[t] != Unmatched {
        ScopedSnoc(s, visible, Pairs(s, m[..t]), PairAt(s, m, t));
      }
    }
  }

  lemma {:induction false} LastPairFacts(s: Scene, pairs: seq<Pair>, id: string)
    requires Indexed(s, pairs)
    ensures LastPair(s, pairs, id).Some? ==>
      LastPair(s, pairs, id).value in pairs && s.truths[LastPair(s, pairs, id).value.truthIndex].identity == id
    ensures LastPair(s, pairs, id).None? ==> forall p :: p in pairs ==> s.truths[p.truthIndex].identity != id
  {
    if pairs != [] {
      var k := |pairs| - 1;
      LastPairFacts(s, pairs[..k], id);
      assert pairs == pairs[..k] + [pairs[k]];
    }
  }

  /** The last one indeed: no pair after it has the identity. */
  lemma {:induction false} LastPairExactly(s: Scene, pairs: seq<Pair>, id: string, k: nat)
    requires Indexed(s, pairs) && k < |pairs| && s.truths[pairs[k].truthIndex].identity == id
    requires forall j :: k < j < |pairs| ==> s.truths[pairs[j].truthIndex].identity != id
    ensures LastPair(s, pairs, id) == Some(pairs[k])
    decreases |pairs|
  {
    if k < |pairs| - 1 {
      LastPairExactly(s, pairs[..|pairs| - 1], id, k);
    }
  }

  lemma {:induction false} ScopedFacts(s: Scene, visible: Option<set<string>>, pairs: seq<Pair>)
    requires Indexed(s, pairs)
    ensures Indexed(s, Scoped(s, visible, pairs, true))
    ensures forall p :: p in Scoped(s, visible, pairs, true) <==> p in pairs && InScope(visible, s.truths[p.truthIndex])
  {
    if pairs != [] {
      ScopedFacts(s, visible, pairs[..|pairs| - 1]);
    }
  }

  /** The visible matches are the pairs of the matched targets in scope. */
  lemma VisibleMatchesAre(s: Scene, visible: Option<set<string>>, m: seq<int>, p: Pair)
    requires Fits(s, m) && Indexed(s, Pairs(s, m))
    ensures p in Scoped(s, visible, Pairs(s, m), true) <==>
      && 0 <= p.truthIndex < |m| && m[p.truthIndex] != Unmatched && p == PairAt(s, m, p.truthIndex)
      && InScope(visible, s.truths[p.truthIndex])
  {
    ScopedFacts(s, visible, Pairs(s, m));
    PairsFacts(s, m);
  }

  /** The entry of a target in scope: a match of its identity, found exactly when the target is matched or
      borrows one; with unique identities its own. */
  lemma EntryFacts(s: Scene, visible: Option<set<string>>, m: seq<int>, pairs: seq<Pair>, t: int)
    requires Fits(s, m) && |m| == |s.truths| && Indexed(s, Pairs(s, m)) && Indexed(s, pairs)
    requires pairs == Scoped(s, visible, Pairs(s, m), true)
    requires 0 <= t < |m| && InScope(visible, s.truths[t])
    ensures LastPair(s, pairs, s.truths[t].identity).Some? <==> m[t] != Unmatched || Borrows(s, m, t)
    ensures UniqueIdentities(s.truths) ==> LastPair(s, pairs, s.truths[t].identity) == Entry(s, m, t)
  {
    hide LastPair, Scoped, Pairs, UniqueIdentities;
    var found := LastPair(s, pairs, s.truths[t].identity);
    LastPairFacts(s, pairs, s.truths[t].identity);
    forall u | 0 <= u < |m| && m[u] != Unmatched && s.truths[u].identity == s.truths[t].identity
      ensures PairAt(s, m, u) in pairs
    {
      VisibleMatchesAre(s, visible, m, PairAt(s, m, u));
    }
    if found.Some? {
      VisibleMatchesAre(s, visible, m, found.value);
      SameTarget(s, found.value.truthIndex, t);
    }
  }

  lemma SameTarget(s: Scene, u: int, t: int)
    requires 0 <= u < |s.truths| && 0 <= t < |s.truths| && s.truths[u].identity == s.truths[t].identity
    ensures UniqueIdentities(s.truths) ==> u == t
  {
  }

  lemma OwnEntriesOfFirst(s: Scene, visible: Option<set<string>>, m: seq<int>, t: int)
    requires Fits(s, m) && 0 <= t < |m|
    ensures Fits(s, m[..t]) && Fits(s, m[..t + 1])
    ensures OwnEntries(s, visible, m[..t + 1])
         == OwnEntries(s, visible, m[..t]) + if InScope(visible, s.truths[t]) then [Entry(s, m, t)] else []
  {
    assert m[..t + 1][..t] == m[..t];
    assert Entry(s, m[..t + 1], t) == Entry(s, m, t);
  }

  ghost predicate BorrowsBelow(s: Scene, visible: Option<set<string>>, m: seq<int>, k: nat)
    requires |m| <= |s.truths|
  {
    exists t :: 0 <= t < k && t < |m| && InScope(visible, s.truths[t]) && Borrows(s, m, t)
  }

  /** What target t adds to the entries and to the targets' own matches. */
  lemma EntryAdds(s: Scene, visible: Option<set<string>>, m: seq<int>, pairs: seq<Pair>, t: int)
    requires Fits(s, m) && |m| == |s.truths| && Indexed(s, Pairs(s, m)) && Indexed(s, pairs)
    requires pairs == Scoped(s, visible, Pairs(s, m), true) && 0 <= t < |m|
    ensures Fits(s, m[..t]) && Fits(s, m[..t + 1])
    ensures
      var own, own' := OwnEntries(s, visible, m[..t]), OwnEntries(s, visible, m[..t + 1]);
      var entries, entries' := Entries(s, visible, pairs, t), Entries(s, visible, pairs, t + 1);
      var inScope := InScope(visible, s.truths[t]);
      && |own'| - |own| == |entries'| - |entries|
      && CountSome(own') == CountSome(own) + (if inScope && m[t] != Unmatched then 1 else 0)
      && CountSome(entries') == CountSome(entries) + (if inScope && (m[t] != Unmatched || Borrows(s, m, t)) then 1 else 0)
      && (UniqueIdentities(s.truths) && entries == own ==> entries' == own')
  {
    hide Scoped, Pairs, Borrows, LastPair, UniqueIdentities, InScope, Fits, CountSome, Indexed;
    OwnEntriesOfFirst(s, visible, m, t);
    var inScope := InScope(visible, s.truths[t]);
    CountSomeIf(OwnEntries(s, visible, m[..t]), Entry(s, m, t), inScope);
    CountSomeIf(Entries(s, visible, pairs, t), LastPair(s, pairs, s.truths[t].identity), inScope);
    if inScope {
      EntryFacts(s, visible, m, pairs, t);
    }
  }

  lemma NoEntries(s: Scene, visible: Option<set<string>>, m: seq<int>, pairs: seq<Pair>)
    requires Indexed(s, pairs) && |m| <= |s.truths|
    ensures Fits(s, m[..0]) && OwnEntries(s, visible, m[..0]) == Entries(s, visible, pairs, 0) == []
    ensures !BorrowsBelow(s, visible, m, 0)
  {
    hide Borrows;
  }

  /** Entries against the targets' own matches: as many in all, at least as many filled, and just as many
      unless some target borrows. */
  lemma {:induction false} EntriesAgainstOwn(s: Scene, visible: Option<set<string>>, m: seq<int>, pairs: seq<Pair>, k: nat)
    requires Fits(s, m) && |m| == |s.truths| && Indexed(s, Pairs(s, m)) && Indexed(s, pairs)
    requires pairs == Scoped(s, visible, Pairs(s, m), true) && k <= |m|
    ensures Fits(s, m[..k]) && |Entries(s, visible, pairs, k)| == |OwnEntries(s, visible, m[..k])|
    ensures CountSome(OwnEntries(s, visible, m[..k])) <= CountSome(Entries(s, visible, pairs, k))
    ensures CountSome(OwnEntries(s, visible, m[..k])) == CountSome(Entries(s, visible, pairs, k))
      <==> !BorrowsBelow(s, visible, m, k)
    ensures UniqueIdentities(s.truths) ==> Entries(s, visible, pairs, k) == OwnEntries(s, visible, m[..k])
  {
    hide *;
    if k == 0 {
      NoEntries(s, visible, m, pairs);
    } else {
      EntriesAgainstOwn(s, visible, m, pairs, k - 1);
      EntryAdds(s, visible, m, pairs, k - 1);
      BorrowsStep(s, visible, m, k - 1);
      BorrowsMeansUnmatched(s, m, k - 1);
    }
  }

  lemma BorrowsStep(s: Scene, visible: Option<set<string>>, m: seq<int>, t: int)
    requires 0 <= t < |m| <= |s.truths|
    ensures BorrowsBelow(s, visible, m, t + 1) <==>
      BorrowsBelow(s, visible, m, t) || (InScope(visible, s.truths[t]) && Borrows(s, m, t))
  {
    hide Borrows;
  }

  lemma BorrowsMeansUnmatched(s: Scene, m: seq<int>, t: int)
    requires 0 <= t < |m| <= |s.truths|
    ensures Borrows(s, m, t) ==> m[t] == Unmatched
  {
  }

  /** Misses are never negative. No more targets are matched than entries filled, and just as many exactly
      when no unmatched target shares its identity with a matched one; with unique identities each entry is
      the target's own match. */
  lemma TruePositivesAreMatchedTargets(s: Scene, visible: Option<set<string>>, m: seq<int>, r: Report)
    requires Reports(s, visible, m, r)
    ensures 0 <= r.fn
    ensures r.tp <= CountSome(r.perTarget)
    ensures r.tp == CountSome(r.perTarget) <==> forall t :: 0 <= t < |m| && InScope(visible, s.truths[t]) ==> !Borrows(s, m, t)
    ensures UniqueIdentities(s.truths) ==> r.tp == CountSome(r.perTarget) && r.perTarget == OwnEntries(s, visible, m)
  {
    hide Scoped, Pairs, Borrows, Entries, UniqueIdentities;
    TruePositivesCount(s, visible, m);
    assert m[..|m|] == m;
    EntriesAgainstOwn(s, visible, m, r.visibleMatches, |s.truths|);
    CountSomeBound(OwnEntries(s, visible, m));
  }

  lemma {:induction false} UnclaimedFacts(s: Scene, m: seq<int>, k: nat, near: bool)
    ensures forall i :: 0 <= i < |Unclaimed(s, m, k, near)| ==>
      var o := Unclaimed(s, m, k, near)[i]; 0 <= o < k && o !in m && HasNearby(s, o) == near
  {
    if k != 0 {
      UnclaimedFacts(s, m, k - 1, near);
    }
  }

  /** A duplicate really is one: every target it could have matched has a match already. A ghost has
      no target to match at all. */
  lemma FalsePositivesAreJustified(s: Scene, visible: Option<set<string>>, m: seq<int>, r: Report, i: int, t: int)
    requires Reports(s, visible, m, r) && Best(s.Problem(), m)
    ensures 0 <= i < |r.duplicates| && s.Admissible(t, r.duplicates[i].objectIndex) ==> m[t] != Unmatched
    ensures 0 <= i < |r.ghosts| ==> !s.Admissible(t, r.ghosts[i])
  {
    UnclaimedFacts(s, m, |s.predictions|, true);
    UnclaimedFacts(s, m, |s.predictions|, false);
    if 0 <= i < |r.duplicates| {
      var o := r.duplicates[i].objectIndex;
      assert DuplicateObjects(r.duplicates)[i] == o;
      if s.Admissible(t, o) {
        BestIsMaximal(s.Problem(), m, t, o);
      }
    }
  }

  /** Which pairs a report lists: those of the matching, with their map-plane distance, as visible when there is
      no visibility evidence or it names the target, as ignored otherwise. */
  lemma MatchesExactly(s: Scene, visible: Option<set<string>>, m: seq<int>, r: Report, p: Pair)
    requires Reports(s, visible, m, r)
    ensures
      var t, o := p.truthIndex, p.objectIndex;
      var listed := 0 <= t < |s.truths| && m[t] != Unmatched && o == m[t] && s.Indexes(t, o)
        && p.xyError == s.xy(s.predictions[o].center.value, s.truths[t].center);
      && (p in r.visibleMatches <==> listed && (visible.None? || s.truths[t].identity in visible.value))
      && (p in r.ignoredMatches <==> listed && visible.Some? && s.truths[t].identity !in visible.value)
  {
    PairsFacts(s, m);
    ScopedMembers(s, visible, Pairs(s, m), true, p);
    ScopedMembers(s, visible, Pairs(s, m), false, p);
  }

  lemma {:induction false} ScopedMembers(s: Scene, visible: Option<set<string>>, pairs: seq<Pair>, wanted: bool, p: Pair)
    requires Indexed(s, pairs)
    ensures p in Scoped(s, visible, pairs, wanted)
      <==> p in pairs && 0 <= p.truthIndex < |s.truths| && InScope(visible, s.truths[p.truthIndex]) == wanted
  {
    hide InScope;
    if pairs != [] {
      var k := |pairs| - 1;
      ScopedMembers(s, visible, pairs[..k], wanted, p);
      assert pairs == pairs[..k] + [pairs[k]];
    }
  }

  /** The entries number the targets that visibility evidence, if there is any, names. */
  lemma {:induction false} EntriesCount(s: Scene, visible: Option<set<string>>, pairs: seq<Pair>, k: nat)
    requires Indexed(s, pairs) && k <= |s.truths|
    ensures |Entries(s, visible, pairs, k)|
         == |set t | 0 <= t < k && (visible.None? || s.truths[t].identity in visible.value)|
  {
    hide LastPair;
    var below := set t | 0 <= t < k && (visible.None? || s.truths[t].identity in visible.value);
    if k == 0 {
      assert below == {};
    } else {
      EntriesCount(s, visible, pairs, k - 1);
      var before := set t | 0 <= t < k - 1 && (visible.None? || s.truths[t].identity in visible.value);
      if visible.None? || s.truths[k - 1].identity in visible.value {
        assert below == before + {k - 1};
      } else {
        assert below == before;
      }
    }
  }

  /** Matched or missed: every target that visibility evidence, if there is any, names is counted once. */
  lemma TargetsAccountedFor(s: Scene, visible: Option<set<string>>, m: seq<int>, r: Report)
    requires Reports(s, visible, m, r)
    ensures r.tp + r.fn == r.visibleTruthCount == |r.perTarget|
         == |set t | 0 <= t < |s.truths| && (visible.None? || s.truths[t].identity in visible.value)|
  {
    EntriesCount(s, visible, r.visibleMatches, |s.truths|);
  }

  // ---------------------------------------------------------------- the evaluation

  /** Extracts the matches; the admissibility filter drops nothing. */
  method ExtractMatches(s: Scene, assignment: seq<int>, raw: map<(int, int), real>, ghost m: seq<int>)
    returns (matches: seq<Pair>, matchedObjects: set<int>)
    requires |s.truths| <= |assignment| && Fits(s, m) && |m| == |s.truths|
    requires forall t, o :: s.Indexes(t, o) ==> (t, o) in raw && raw[(t, o)] == s.XyError(t, o)
    requires forall o :: 0 <= o < |s.predictions| ==> Eligible(s.predictions[o])
    requires forall t :: 0 <= t < |m| ==>
      m[t] == if 0 <= assignment[t] < |s.predictions| && s.Admissible(t, assignment[t]) then assignment[t] else Unmatched
    ensures matches == Pairs(s, m)
    ensures forall o :: o in matchedObjects <==> o in m && o != Unmatched
  {
    matches, matchedObjects := [], {};
    for t := 0 to |s.truths|
      invariant matches == Pairs(s, m[..t])
      invariant forall o :: o in matchedObjects <==> o in m[..t] && o != Unmatched
    {
      assert m[..t + 1][..t] == m[..t] && m[..t + 1] == m[..t] + [m[t]];
      var o := assignment[t];
      if !(0 <= o < |s.predictions|) {
        continue;
      }
      var xyDistance := raw[(t, o)];
      if xyDistance > s.truths[t].radius || !VolumeCompatible(s.policy, s.predictions[o], s.truths[t]) {
        continue;
      }
      matchedObjects := matchedObjects + {o};
      matches := matches + [Pair(t, o, xyDistance)];
    }
    assert m[..|s.truths|] == m;
  }

  method SplitByScope(s: Scene, visible: Option<set<string>>, matches: seq<Pair>)
    returns (visibleMatches: seq<Pair>, ignoredMatches: seq<Pair>)
    requires Indexed(s, matches)
    ensures visibleMatches == Scoped(s, visible, matches, true)
    ensures ignoredMatches == Scoped(s, visible, matches, false)
  {
    visibleMatches, ignoredMatches := [], [];
    for k := 0 to |matches|
      invariant visibleMatches == Scoped(s, visible, matches[..k], true)
      invariant ignoredMatches == Scoped(s, visible, matches[..k], false)
    {
      assert matches[..k + 1][..k] == matches[..k];
      if InScope(visible, s.truths[matches[k].truthIndex]) {
        visibleMatches := visibleMatches + [matches[k]];
      } else {
        ignoredMatches := ignoredMatches + [matches[k]];
      }
    }
    assert matches[..|matches|] == matches;
  }

  lemma LastPairSnoc(s: Scene, pairs: seq<Pair>, p: Pair, id: string)
    requires Indexed(s, pairs) && 0 <= p.truthIndex < |s.truths|
    ensures Indexed(s, pairs + [p])
    ensures LastPair(s, pairs + [p], id) == if s.truths[p.truthIndex].identity == id then Some(p) else LastPair(s, pairs, id)
  {
    assert (pairs + [p])[..|pairs|] == pairs;
  }

  /** The table of matches by identity: a later match replaces an earlier one. */
  method IndexByIdentity(s: Scene, visibleMatches: seq<Pair>) returns (byIdentity: map<string, Pair>)
    requires Indexed(s, visibleMatches)
    ensures forall id :: Lookup(byIdentity, id) == LastPair(s, visibleMatches, id)
  {
    byIdentity := map[];
    for k := 0 to |visibleMatches|
      invariant forall id :: Lookup(byIdentity, id) == LastPair(s, visibleMatches[..k], id)
    {
      assert visibleMatches[..k + 1] == visibleMatches[..k] + [visibleMatches[k]];
      forall id
        ensures LastPair(s, visibleMatches[..k + 1], id)
             == if s.truths[visibleMatches[k].truthIndex].identity == id then Some(visibleMatches[k])
                else LastPair(s, visibleMatches[..k], id)
      {
        LastPairSnoc(s, visibleMatches[..k], visibleMatches[k], id);
      }
      byIdentity := byIdentity[s.truths[visibleMatches[k].truthIndex].identity := visibleMatches[k]];
    }
    assert visibleMatches[..|visibleMatches|] == visibleMatches;
  }

  function Lookup(byIdentity: map<string, Pair>, id: string): Option<Pair> {
    if id in byIdentity then Some(byIdentity[id]) else None
  }

  /** Looks up each target in scope by its identity. */
  method TargetEntries(s: Scene, visible: Option<set<string>>, visibleMatches: seq<Pair>) returns (perTarget: seq<Option<Pair>>)
    requires Indexed(s, visibleMatches)
    ensures perTarget == Entries(s, visible, visibleMatches, |s.truths|)
  {
    var byIdentity := IndexByIdentity(s, visibleMatches);
    perTarget := [];
    for t := 0 to |s.truths|
      invariant perTarget == Entries(s, visible, visibleMatches, t)
    {
      if InScope(visible, s.truths[t]) {
        perTarget := perTarget + [Lookup(byIdentity, s.truths[t].identity)];
      }
    }
  }

  /** The first closest admissible target, if there is one. */
  method NearestTarget(s: Scene, o: int) returns (nearest: Option<int>)
    requires 0 <= o < |s.predictions| && Eligible(s.predictions[o])
    ensures nearest.Some? <==> exists t :: 0 <= t < |s.truths| && s.Admissible(t, o)
    ensures nearest.Some? ==>
      && s.Admissible(nearest.value, o)
      && forall t :: s.Admissible(t, o) ==>
           && s.XyError(nearest.value, o) <= s.XyError(t, o)
           && (t < nearest.value ==> s.XyError(nearest.value, o) < s.XyError(t, o))
  {
    nearest := None;
    for t := 0 to |s.truths|
      invariant nearest.None? ==> forall k :: 0 <= k < t ==> !s.Admissible(k, o)
      invariant nearest.Some? ==>
        && s.Admissible(nearest.value, o) && nearest.value < t
        && forall k :: 0 <= k < t && s.Admissible(k, o) ==>
             s.XyError(nearest.value, o) <= s.XyError(k, o)
             && (k < nearest.value ==> s.XyError(nearest.value, o) < s.XyError(k, o))
    {
      if s.Admissible(t, o) {
        if nearest.None? || s.XyError(t, o) < s.XyError(nearest.value, o) {
          nearest := Some(t);
        }
      }
    }
  }

  /** Sorts the unmatched predictions into duplicates and ghosts. */
  method ClassifyUnmatched(s: Scene, matchedObjects: set<int>, ghost m: seq<int>)
    returns (duplicates: seq<Duplicate>, ghosts: seq<int>)
    requires forall o :: 0 <= o < |s.predictions| ==> Eligible(s.predictions[o])
    requires forall o :: o in matchedObjects <==> o in m && o != Unmatched
    ensures DuplicateObjects(duplicates) == Unclaimed(s, m, |s.predictions|, true)
    ensures forall i :: 0 <= i < |duplicates| ==> IsNearest(s, duplicates[i].objectIndex, duplicates[i].nearestTruth)
    ensures ghosts == Unclaimed(s, m, |s.predictions|, false)
  {
    duplicates, ghosts := [], [];
    for o := 0 to |s.predictions|
      invariant DuplicateObjects(duplicates) == Unclaimed(s, m, o, true)
      invariant forall i :: 0 <= i < |duplicates| ==> IsNearest(s, duplicates[i].objectIndex, duplicates[i].nearestTruth)
      invariant ghosts == Unclaimed(s, m, o, false)
    {
      if o in matchedObjects {
        continue;
      }
      var nearest := NearestTarget(s, o);
      if nearest.Some? {
        ghost var before := duplicates;
        duplicates := duplicates + [Duplicate(o, nearest.value)];
        assert DuplicateObjects(duplicates) == DuplicateObjects(before) + [o];
      } else {
        ghosts := ghosts + [o];
      }
    }
  }

  /** Measures detections against targets. `s` and `m` are the scene that was associated and the
      matching the report is about. */
  method Evaluate(objects: seq<Detection>, truths: seq<Target>, xy: Metric, visible: Option<set<string>>, policy: Policy)
    returns (r: Result<Report>, ghost s: Scene, ghost m: seq<int>)
    requires ValidTargets(truths) && forall a, b :: xy(a, b) >= 0.0
    ensures r.Ok? <==> 0.0 <= policy.minVolumeRatio <= 1.0 && GroupsLargeEnough(policy.groups) && GroupsDisjoint(policy.groups)
    ensures r == Err(BadVolumeRatio) <==> !(0.0 <= policy.minVolumeRatio <= 1.0)
    ensures r.Err? && r.error != BadVolumeRatio ==>
      exists k :: 0 <= k < |policy.groups| && FirstBadGroup(policy.groups, k, r.error)
    ensures r.Ok? ==> exists idx :: Selects(objects, s.predictions, idx)
    ensures r.Ok? ==>
      && s.Valid() && s.predictions == Predictions(objects) && s.truths == truths && s.xy == xy && s.policy == policy
      && (forall expected, observed :: SameGroup(s.table, expected, observed) <==> Grouped(policy.groups, expected, observed))
      && LexicographicallyBest(s, m) && Best(s.Problem(), m)
      && Reports(s, visible, m, r.value)
  {
    m := [];
    var scene := Scene(Predictions(objects), truths, xy, policy, map[]);
    s := scene;
    if !(0.0 <= policy.minVolumeRatio <= 1.0) {
      r := Err(BadVolumeRatio);
      return;
    }
    var table := EquivalenceTable(policy.groups);
    if table.Err? {
      r := Err(table.error);
      return;
    }
    scene := scene.(table := table.value);
    s := scene;
    ghost var idx := PredictionsAreSelected(objects);
    var report;
    report, m := EvaluateScene(scene, visible);
    r := Ok(report);
  }

  method EvaluateScene(s: Scene, visible: Option<set<string>>) returns (r: Report, ghost m: seq<int>)
    requires s.Valid()
    ensures LexicographicallyBest(s, m) && Best(s.Problem(), m) && Reports(s, visible, m, r)
  {
    var assignment, raw;
    assignment, raw, m := AssociateSemantically(s);
    var matches, matchedObjects := ExtractMatches(s, assignment, raw, m);
    PairsFacts(s, m);
    var visibleMatches, ignoredMatches := SplitByScope(s, visible, matches);
    ScopedFacts(s, visible, matches);
    var perTarget := TargetEntries(s, visible, visibleMatches);
    var duplicates, ghosts := ClassifyUnmatched(s, matchedObjects, m);
    var tp := |visibleMatches|;
    r := Report(visibleMatches, ignoredMatches, perTarget, duplicates, ghosts,
                tp, |duplicates| + |ghosts|, |perTarget| - tp, |perTarget|);
  }
}
