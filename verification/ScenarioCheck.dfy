/** Matching a scenario's expecting steps to the planning rounds of a run: steps take rounds in order,
    and within a round expectations take leaf results first come, first served. */
module ScenarioCheck {
  import opened FirstFit
  import opened Options
  import opened Sums

  datatype Call = Call(callId: string)

  datatype Leaf = Leaf(callId: string, contract: string, success: bool, output: string)

  /** A well-formed expectation of one `do` node; `args` and `output` are what else it asserts. */
  datatype Want = Want(contract: string, success: bool, args: string, output: string)

  /** The argument and output assertions are an input: whether they accept a leaf, given the calls. */
  type Assertions = (Want, seq<Call>, Leaf) -> bool

  predicate Satisfies(accepts: Assertions, want: Want, calls: seq<Call>, leaf: Leaf) {
    leaf.contract == want.contract && leaf.success == want.success && accepts(want, calls, leaf)
  }

  // ---------------------------------------------------------------- one round

  /** The leaf result belongs to one of the round's calls. */
  predicate OfRound(calls: seq<Call>, leaf: Leaf) {
    exists c :: c in calls && c.callId == leaf.callId
  }

  /** The leaf results of a round's calls. */
  function RoundLeaves(calls: seq<Call>, leaves: seq<Leaf>): seq<Leaf> {
    if leaves == [] then []
    else
      var k := |leaves| - 1;
      RoundLeaves(calls, leaves[..k]) + if OfRound(calls, leaves[k]) then [leaves[k]] else []
  }

  lemma {:induction false} RoundLeavesFacts(calls: seq<Call>, leaves: seq<Leaf>)
    ensures forall l :: 0 <= l < |RoundLeaves(calls, leaves)| ==> OfRound(calls, RoundLeaves(calls, leaves)[l])
  {
    hide OfRound;
    if leaves != [] {
      RoundLeavesFacts(calls, leaves[..|leaves| - 1]);
    }
  }

  lemma {:induction false} AllOfRound(calls: seq<Call>, leaves: seq<Leaf>)
    requires forall l :: 0 <= l < |leaves| ==> OfRound(calls, leaves[l])
    ensures RoundLeaves(calls, leaves) == leaves
  {
    hide OfRound;
    if leaves != [] {
      AllOfRound(calls, leaves[..|leaves| - 1]);
    }
  }

  /** `kept` are the leaf results at the positions `idx`: in order, all that carry the id of one of the calls, and
      no others. */
  ghost predicate Selects(calls: seq<Call>, leaves: seq<Leaf>, kept: seq<Leaf>, idx: seq<int>) {
    && |idx| == |kept| && Below(idx, |leaves|)
    && (forall a, b :: 0 <= a < b < |idx| ==> idx[a] < idx[b])
    && (forall k :: 0 <= k < |kept| ==> kept[k] == leaves[idx[k]])
    && (forall i :: 0 <= i < |leaves| ==> (i in idx <==> exists c :: c in calls && c.callId == leaves[i].callId))
  }

  lemma SelectsOneMore(calls: seq<Call>, leaves: seq<Leaf>, last: Leaf, kept: seq<Leaf>, idx: seq<int>)
    requires Selects(calls, leaves, kept, idx)
    ensures if exists c :: c in calls && c.callId == last.callId
            then Selects(calls, leaves + [last], kept + [last], idx + [|leaves|])
            else Selects(calls, leaves + [last], kept, idx)
  {
    var all, more := leaves + [last], idx + [|leaves|];
    assert |leaves| !in idx;
    forall i | 0 <= i < |all| ensures i in more <==> i in idx || i == |leaves| {
    }
  }

  /** A round's leaf results are selected by call id alone. */
  lemma {:induction false} RoundLeavesExactly(calls: seq<Call>, leaves: seq<Leaf>) returns (idx: seq<int>)
    ensures Selects(calls, leaves, RoundLeaves(calls, leaves), idx)
  {
    if leaves == [] {
      idx := [];
    } else {
      hide Selects;
      var k := |leaves| - 1;
      idx := RoundLeavesExactly(calls, leaves[..k]);
      assert leaves == leaves[..k] + [leaves[k]];
      SelectsOneMore(calls, leaves[..k], leaves[k], RoundLeaves(calls, leaves[..k]), idx);
      if OfRound(calls, leaves[k]) {
        idx := idx + [k];
      }
    }
  }

  /** The first unused leaf with the right contract and outcome whose assertions hold. */
  method FindExpectedLeafIndex(accepts: Assertions, want: Want, calls: seq<Call>, leaves: seq<Leaf>, used: set<int>)
    returns (found: Option<nat>)
    ensures found.Some? ==>
      found.value < |leaves| && found.value !in used && Satisfies(accepts, want, calls, leaves[found.value])
    ensures forall l :: 0 <= l < (if found.Some? then found.value else |leaves|) ==>
      l in used || !Satisfies(accepts, want, calls, leaves[l])
  {
    var idx := 0;
    while idx < |leaves|
      invariant idx <= |leaves|
      invariant forall l :: 0 <= l < idx ==> l in used || !Satisfies(accepts, want, calls, leaves[l])
    {
      if idx !in used && leaves[idx].contract == want.contract && leaves[idx].success == want.success {
        if Satisfies(accepts, want, calls, leaves[idx]) {
          return Some(idx);
        }
      }
      idx := idx + 1;
    }
    found := None;
  }

  /** Whether expectation k of a round takes a leaf result of that round. */
  ghost function Takes(accepts: Assertions, wants: seq<Want>, calls: seq<Call>): Accepts<Leaf> {
    (k, leaf) => 0 <= k < |wants| && OfRound(calls, leaf) && Satisfies(accepts, wants[k], calls, leaf)
  }

  /** The harness's own test of a round: as many calls as expectations, as many results as calls, and
      first fit serves every expectation. */
  ghost predicate RoundFits(accepts: Assertions, wants: seq<Want>, calls: seq<Call>, leaves: seq<Leaf>) {
    && |calls| == |wants|
    && |RoundLeaves(calls, leaves)| == |calls|
    && Taken(Takes(accepts, wants, calls), RoundLeaves(calls, leaves), {}, |wants|).Some?
  }

  /** What an expectation takes, by the records alone: a failed leaf never serves an expected success, nor the
      other way round. */
  lemma TakesExactly(accepts: Assertions, wants: seq<Want>, calls: seq<Call>, k: int, leaf: Leaf)
    ensures Takes(accepts, wants, calls)(k, leaf) <==>
      && 0 <= k < |wants| && (exists c :: c in calls && c.callId == leaf.callId)
      && leaf.contract == wants[k].contract && (leaf.success <==> wants[k].success) && accepts(wants[k], calls, leaf)
  {
    var takes := Takes(accepts, wants, calls);
    assert takes(k, leaf) <==> 0 <= k < |wants| && OfRound(calls, leaf) && Satisfies(accepts, wants[k], calls, leaf) by {
      hide OfRound, Satisfies;
    }
  }

  /** The test of a round, without first fit: the numbers agree, and giving each expectation in turn the first
      leaf result it takes serves all of them. */
  lemma RoundFitsInTurn(accepts: Assertions, wants: seq<Want>, calls: seq<Call>, leaves: seq<Leaf>)
    ensures RoundFits(accepts, wants, calls, leaves) <==>
      && |calls| == |wants| == |RoundLeaves(calls, leaves)|
      && exists g :: InTurn(Takes(accepts, wants, calls), RoundLeaves(calls, leaves), {}, |wants|, g)
  {
    hide Takes, InTurn, RoundLeaves, Taken;
    var takes, results := Takes(accepts, wants, calls), RoundLeaves(calls, leaves);
    if Taken(takes, results, {}, |wants|).Some? {
      TakenExactly(takes, results, {}, |wants|, Taken(takes, results, {}, |wants|).value);
    }
    if g :| InTurn(takes, results, {}, |wants|, g) {
      TakenExactly(takes, results, {}, |wants|, g);
    }
  }

  /** What the test is meant to find: `g` pairs the expectations with the round's leaf results one to one. */
  ghost predicate Corresponds(accepts: Assertions, wants: seq<Want>, calls: seq<Call>, leaves: seq<Leaf>, g: seq<int>) {
    var results := RoundLeaves(calls, leaves);
    && |g| == |wants| == |calls| == |results| && Below(g, |results|) && Injective(g)
    && forall k :: 0 <= k < |wants| ==> Satisfies(accepts, wants[k], calls, results[g[k]])
  }

  lemma CorrespondsServes(accepts: Assertions, wants: seq<Want>, calls: seq<Call>, leaves: seq<Leaf>, g: seq<int>)
    requires |wants| == |calls| == |RoundLeaves(calls, leaves)|
    ensures Corresponds(accepts, wants, calls, leaves, g)
      <==> Serves(Takes(accepts, wants, calls), RoundLeaves(calls, leaves), {}, |wants|, g)
  {
    hide Satisfies, OfRound;
    RoundLeavesFacts(calls, leaves);
  }

  /** In a round that fits, expectations and leaf results correspond one to one. */
  lemma RoundIsBijection(accepts: Assertions, wants: seq<Want>, calls: seq<Call>, leaves: seq<Leaf>) returns (g: seq<int>)
    requires RoundFits(accepts, wants, calls, leaves)
    ensures Corresponds(accepts, wants, calls, leaves, g)
    ensures forall l :: 0 <= l < |RoundLeaves(calls, leaves)| ==> l in g
  {
    var results := RoundLeaves(calls, leaves);
    g := Taken(Takes(accepts, wants, calls), results, {}, |wants|).value;
    TakenServes(Takes(accepts, wants, calls), results, {}, |wants|);
    CorrespondsServes(accepts, wants, calls, leaves, g);
    forall l | 0 <= l < |results| ensures l in g {
      InjectiveIsOnto(g, l);
    }
  }

  /** A round whose expectations are nested on its leaf results fits exactly when some correspondence
      exists. Equal expectations are nested. */
  lemma NestedRoundFits(accepts: Assertions, wants: seq<Want>, calls: seq<Call>, leaves: seq<Leaf>)
    requires NestedOn(Takes(accepts, wants, calls), |wants|, RoundLeaves(calls, leaves))
    ensures RoundFits(accepts, wants, calls, leaves) <==> exists g :: Corresponds(accepts, wants, calls, leaves, g)
  {
    hide NestedOn, Serves, Takes;
    if RoundFits(accepts, wants, calls, leaves) {
      var g := RoundIsBijection(accepts, wants, calls, leaves);
    }
    if g :| Corresponds(accepts, wants, calls, leaves, g) {
      CorrespondsServes(accepts, wants, calls, leaves, g);
      NestedIsEnough(Takes(accepts, wants, calls), RoundLeaves(calls, leaves), {}, |wants|);
    }
  }

  /** For given expectations and calls the test finds every correspondence of every run exactly when the
      expectations are nested, or one of them can be met by no leaf result of the round at all. */
  lemma RoundFitsExactly(accepts: Assertions, wants: seq<Want>, calls: seq<Call>)
    requires |calls| == |wants|
    ensures (forall leaves: seq<Leaf>, g ::
               Corresponds(accepts, wants, calls, leaves, g) ==> RoundFits(accepts, wants, calls, leaves))
      <==> (Nested(Takes(accepts, wants, calls), |wants|)
            || exists k :: 0 <= k < |wants| && !Acceptable(Takes(accepts, wants, calls), k))
  {
    hide Nested, Acceptable, Corresponds, Serves;
    var takes := Takes(accepts, wants, calls);
    NeverMissesExactly(takes, |wants|);
    if NeverMissesRound(takes, |wants|) {
      forall leaves: seq<Leaf>, g | Corresponds(accepts, wants, calls, leaves, g)
        ensures RoundFits(accepts, wants, calls, leaves)
      {
        CorrespondsCounts(accepts, wants, calls, leaves, g);
        CorrespondsServes(accepts, wants, calls, leaves, g);
      }
    } else {
      var leaves: seq<Leaf>, g :| |leaves| == |wants| && Serves(takes, leaves, {}, |wants|, g)
                                  && Taken(takes, leaves, {}, |wants|).None?;
      ServedLeavesAreOfRound(accepts, wants, calls, leaves, g);
      AllOfRound(calls, leaves);
      CorrespondsServes(accepts, wants, calls, leaves, g);
    }
  }

  lemma CorrespondsCounts(accepts: Assertions, wants: seq<Want>, calls: seq<Call>, leaves: seq<Leaf>, g: seq<int>)
    requires Corresponds(accepts, wants, calls, leaves, g)
    ensures |wants| == |calls| == |RoundLeaves(calls, leaves)|
  {
  }

  lemma ServedLeavesAreOfRound(accepts: Assertions, wants: seq<Want>, calls: seq<Call>, leaves: seq<Leaf>, g: seq<int>)
    requires |leaves| == |wants| && Serves(Takes(accepts, wants, calls), leaves, {}, |wants|, g)
    ensures forall l :: 0 <= l < |leaves| ==> OfRound(calls, leaves[l])
  {
    hide OfRound;
    forall l | 0 <= l < |leaves| ensures OfRound(calls, leaves[l]) {
      InjectiveIsOnto(g, l);
      var k :| 0 <= k < |g| && g[k] == l;
      assert Takes(accepts, wants, calls)(k, leaves[l]);
    }
  }

  ghost predicate Served(accepts: Assertions, want: Want, calls: seq<Call>, leaves: seq<Leaf>) {
    exists l :: 0 <= l < |leaves| && Satisfies(accepts, want, calls, leaves[l])
  }

  lemma {:induction false} ChooseLeaves(accepts: Assertions, wants: seq<Want>, calls: seq<Call>, results: seq<Leaf>, n: nat)
    returns (g: seq<int>)
    requires n <= |wants| && forall k :: 0 <= k < n ==> Served(accepts, wants[k], calls, results)
    ensures |g| == n && Below(g, |results|)
    ensures forall k :: 0 <= k < n ==> Satisfies(accepts, wants[k], calls, results[g[k]])
  {
    hide Satisfies;
    g := [];
    if n != 0 {
      var front := ChooseLeaves(accepts, wants, calls, results, n - 1);
      assert Served(accepts, wants[n - 1], calls, results);
      var l :| 0 <= l < |results| && Satisfies(accepts, wants[n - 1], calls, results[l]);
      g := front + [l];
    }
  }

  /** When no leaf result satisfies two of the expectations, a round of the right size fits exactly when
      every expectation has some leaf result. */
  lemma ExclusiveFirstFit(accepts: Assertions, wants: seq<Want>, calls: seq<Call>, leaves: seq<Leaf>)
    requires |wants| == |calls| == |RoundLeaves(calls, leaves)|
    requires forall i, j, l :: 0 <= i < j < |wants| && 0 <= l < |RoundLeaves(calls, leaves)| ==>
      !(Satisfies(accepts, wants[i], calls, RoundLeaves(calls, leaves)[l])
        && Satisfies(accepts, wants[j], calls, RoundLeaves(calls, leaves)[l]))
    ensures RoundFits(accepts, wants, calls, leaves)
      <==> forall k :: 0 <= k < |wants| ==> Served(accepts, wants[k], calls, RoundLeaves(calls, leaves))
  {
    hide Satisfies, OfRound, RoundFits, RoundLeaves;
    var results := RoundLeaves(calls, leaves);
    NestedRoundFits(accepts, wants, calls, leaves);
    if forall k :: 0 <= k < |wants| ==> Served(accepts, wants[k], calls, results) {
      var g := ChooseLeaves(accepts, wants, calls, results, |wants|);
      forall a, b | 0 <= a < b < |g| ensures g[a] != g[b] {
        assert Satisfies(accepts, wants[a], calls, results[g[a]]) && Satisfies(accepts, wants[b], calls, results[g[b]]);
      }
      assert Corresponds(accepts, wants, calls, leaves, g);
    }
  }

  /** An output clause that asks for a text, or, when empty, for nothing. */
  ghost function OutputEquals(): Assertions {
    (want: Want, calls: seq<Call>, leaf: Leaf) => want.output == "" || leaf.output == want.output
  }

  /** Out of order, two expectations can miss a correspondence: one without an output clause takes the
      only leaf result that has the text the other asks for. */
  lemma FirstFitIsNotComplete(x: Leaf, y: Leaf)
    requires x.contract == y.contract && x.success == y.success && x.callId != y.callId
    requires x.output != "" && x.output != y.output
    ensures var wants := [Want(x.contract, x.success, "", ""), Want(x.contract, x.success, "", x.output)];
      var calls := [Call(x.callId), Call(y.callId)];
      && !RoundFits(OutputEquals(), wants, calls, [x, y])
      && Corresponds(OutputEquals(), wants, calls, [x, y], [1, 0])
  {
    var wants := [Want(x.contract, x.success, "", ""), Want(x.contract, x.success, "", x.output)];
    var calls := [Call(x.callId), Call(y.callId)];
    var takes := Takes(OutputEquals(), wants, calls);
    assert calls[0] in calls && calls[1] in calls;
    AllOfRound(calls, [x, y]);
    assert takes(0, x) && !takes(1, y);
    var first := TakenInOrder(takes, [x, y], 1);
    assert first == [0] && 0 in SetOf(first);
  }

  // ---------------------------------------------------------------- the rounds of a run

  /** Round `round` suits step `step`. */
  type Suits = (int, int) -> bool

  /** Steps from `step` on matched to strictly later and later rounds, none before `cursor`. */
  ghost predicate Embeds(suits: Suits, steps: nat, rounds: nat, step: nat, cursor: nat, f: seq<nat>) {
    && step + |f| == steps
    && (forall k :: 0 <= k < |f| ==> cursor <= f[k] < rounds && suits(step + k, f[k]))
    && (forall k, l :: 0 <= k < l < |f| ==> f[k] < f[l])
  }

  /** The first suitable round from `cursor` on. */
  ghost function FirstRound(suits: Suits, rounds: nat, step: nat, cursor: nat): (r: Option<nat>)
    ensures r.Some? ==> cursor <= r.value < rounds && suits(step, r.value)
    ensures r.Some? ==> forall k :: cursor <= k < r.value ==> !suits(step, k)
    ensures r.None? ==> forall k :: cursor <= k < rounds ==> !suits(step, k)
    decreases rounds - cursor
  {
    if cursor >= rounds then None else if suits(step, cursor) then Some(cursor) else FirstRound(suits, rounds, step, cursor + 1)
  }

  /** The rounds taken by the steps from `step` on; a step without one leaves the cursor where it was. */
  ghost function Greedy(suits: Suits, steps: nat, rounds: nat, step: nat, cursor: nat): (r: seq<Option<nat>>)
    requires step <= steps
    ensures |r| == steps - step
    decreases steps - step
  {
    if step == steps then []
    else
      var round := FirstRound(suits, rounds, step, cursor);
      [round] + Greedy(suits, steps, rounds, step + 1, if round.Some? then round.value + 1 else cursor)
  }

  ghost predicate AllMatched(taken: seq<Option<nat>>) {
    forall k :: 0 <= k < |taken| ==> taken[k].Some?
  }

  /** Taking the earliest round never hurts: if the steps can be embedded in the rounds at all, every
      step finds a round, and none later than in any embedding. */
  lemma {:induction false} GreedyIsComplete(suits: Suits, steps: nat, rounds: nat, step: nat, cursor: nat, f: seq<nat>)
    requires step <= steps && Embeds(suits, steps, rounds, step, cursor, f)
    ensures AllMatched(Greedy(suits, steps, rounds, step, cursor))
    ensures forall k :: 0 <= k < |f| ==> Greedy(suits, steps, rounds, step, cursor)[k].value <= f[k]
    decreases steps - step
  {
    if step != steps {
      hide Embeds;
      var round, later := FirstRound(suits, rounds, step, cursor), f[1..];
      EmbedsLater(suits, steps, rounds, step, cursor, f);
      GreedyIsComplete(suits, steps, rounds, step + 1, round.value + 1, later);
      var rest := Greedy(suits, steps, rounds, step + 1, round.value + 1);
      forall k | 0 <= k < |f| ensures ([round] + rest)[k].Some? && ([round] + rest)[k].value <= f[k] {
        assert k > 0 ==> ([round] + rest)[k] == rest[k - 1] && f[k] == later[k - 1];
      }
    }
  }

  /** The first step's round is no later than its place in the embedding, which leaves the rest embedded. */
  lemma EmbedsLater(suits: Suits, steps: nat, rounds: nat, step: nat, cursor: nat, f: seq<nat>)
    requires step < steps && Embeds(suits, steps, rounds, step, cursor, f)
    ensures |f| == steps - step
    ensures var round := FirstRound(suits, rounds, step, cursor);
      round.Some? && round.value <= f[0] && Embeds(suits, steps, rounds, step + 1, round.value + 1, f[1..])
  {
    var round, later := FirstRound(suits, rounds, step, cursor), f[1..];
    assert suits(step + 0, f[0]);
    forall k | 0 <= k < |later| ensures round.value + 1 <= later[k] < rounds && suits(step + 1 + k, later[k]) {
      assert suits(step + (k + 1), f[k + 1]);
    }
  }

  /** Conversely the rounds taken, when all are, are an embedding. */
  lemma {:induction false} GreedyIsSound(suits: Suits, steps: nat, rounds: nat, step: nat, cursor: nat) returns (f: seq<nat>)
    requires step <= steps && AllMatched(Greedy(suits, steps, rounds, step, cursor))
    ensures Embeds(suits, steps, rounds, step, cursor, f)
    decreases steps - step
  {
    f := [];
    if step != steps {
      var taken := Greedy(suits, steps, rounds, step, cursor);
      var round := FirstRound(suits, rounds, step, cursor);
      assert taken[0] == round;
      var rest := Greedy(suits, steps, rounds, step + 1, round.value + 1);
      assert forall k :: 0 <= k < |rest| ==> rest[k] == taken[k + 1];
      var g := GreedyIsSound(suits, steps, rounds, step + 1, round.value + 1);
      f := [round.value] + g;
      forall k | 0 <= k < |f| ensures cursor <= f[k] < rounds && suits(step + k, f[k]) {
        if k > 0 {
          assert suits(step + 1 + (k - 1), g[k - 1]);
        }
      }
    }
  }

  /** Round q comes after every round taken by a step before s. */
  ghost predicate LaterThanTaken(taken: seq<Option<nat>>, s: nat, q: int)
    requires s <= |taken|
  {
    forall j :: 0 <= j < s && taken[j].Some? ==> taken[j].value < q
  }

  /** Entry k takes the first suitable round, from `cursor` on, after all that earlier entries took; None exactly
      if there is none. */
  ghost predicate EachInTurn(suits: Suits, rounds: nat, step: nat, cursor: nat, taken: seq<Option<nat>>) {
    forall k :: 0 <= k < |taken| ==>
      && (taken[k].Some? ==>
           cursor <= taken[k].value < rounds && suits(step + k, taken[k].value) && LaterThanTaken(taken, k, taken[k].value))
      && forall q :: cursor <= q < (if taken[k].Some? then taken[k].value else rounds) && LaterThanTaken(taken, k, q) ==>
           !suits(step + k, q)
  }

  lemma LaterCons(round: Option<nat>, rest: seq<Option<nat>>, s: nat, q: int)
    requires s <= |rest|
    ensures LaterThanTaken([round] + rest, s + 1, q)
      <==> (round.Some? ==> round.value < q) && LaterThanTaken(rest, s, q)
  {
    var taken := [round] + rest;
    assert taken[0] == round && forall j :: 0 <= j < |rest| ==> taken[j + 1] == rest[j];
  }

  lemma {:induction false} GreedyInTurn(suits: Suits, steps: nat, rounds: nat, step: nat, cursor: nat)
    requires step <= steps
    ensures EachInTurn(suits, rounds, step, cursor, Greedy(suits, steps, rounds, step, cursor))
    decreases steps - step
  {
    if step != steps {
      var round := FirstRound(suits, rounds, step, cursor);
      var cursor' := if round.Some? then round.value + 1 else cursor;
      var rest := Greedy(suits, steps, rounds, step + 1, cursor');
      GreedyInTurn(suits, steps, rounds, step + 1, cursor');
      InTurnCons(suits, rounds, step, cursor, round, rest);
    }
  }

  lemma InTurnCons(suits: Suits, rounds: nat, step: nat, cursor: nat, round: Option<nat>, rest: seq<Option<nat>>)
    requires round == FirstRound(suits, rounds, step, cursor)
    requires EachInTurn(suits, rounds, step + 1, if round.Some? then round.value + 1 else cursor, rest)
    ensures EachInTurn(suits, rounds, step, cursor, [round] + rest)
  {
    hide LaterThanTaken;
    var taken := [round] + rest;
    NoneTakenBefore(taken, if round.Some? then round.value else 0);
    forall k | 1 <= k < |taken|
      ensures taken[k].Some? ==>
        cursor <= taken[k].value < rounds && suits(step + k, taken[k].value) && LaterThanTaken(taken, k, taken[k].value)
      ensures forall q :: cursor <= q < (if taken[k].Some? then taken[k].value else rounds) && LaterThanTaken(taken, k, q) ==>
        !suits(step + k, q)
    {
      assert taken[k] == rest[k - 1] && step + 1 + (k - 1) == step + k;
      if taken[k].Some? {
        LaterCons(round, rest, k - 1, taken[k].value);
      }
      forall q | cursor <= q < (if taken[k].Some? then taken[k].value else rounds) && LaterThanTaken(taken, k, q)
        ensures !suits(step + k, q)
      {
        LaterCons(round, rest, k - 1, q);
        assert !suits(step + 1 + (k - 1), q);
      }
    }
  }

  lemma NoneTakenBefore(taken: seq<Option<nat>>, q: int)
    ensures LaterThanTaken(taken, 0, q)
  {
  }

  // ---------------------------------------------------------------- the check

  ghost function RoundSuits(accepts: Assertions, steps: seq<seq<Want>>, rounds: seq<seq<Call>>, leaves: seq<Leaf>): Suits {
    (s, r) => 0 <= s < |steps| && 0 <= r < |rounds| && RoundFits(accepts, steps[s], rounds[r], leaves)
  }

  /** Which rounds a step may take: those it fits, whatever else is in the run. */
  lemma RoundSuitsExactly(accepts: Assertions, steps: seq<seq<Want>>, rounds: seq<seq<Call>>, leaves: seq<Leaf>, s: int, r: int)
    ensures RoundSuits(accepts, steps, rounds, leaves)(s, r)
      <==> 0 <= s < |steps| && 0 <= r < |rounds| && RoundFits(accepts, steps[s], rounds[r], leaves)
  {
  }

  lemma NextTaken(accepts: Assertions, wants: seq<Want>, calls: seq<Call>, results: seq<Leaf>, used: seq<int>, k: nat,
                  found: Option<nat>)
    requires k < |wants| && forall l :: 0 <= l < |results| ==> OfRound(calls, results[l])
    requires Taken(Takes(accepts, wants, calls), results, {}, k) == Some(used)
    requires found.Some? ==>
      found.value < |results| && found.value !in SetOf(used) && Satisfies(accepts, wants[k], calls, results[found.value])
    requires forall l :: 0 <= l < (if found.Some? then found.value else |results|) ==>
      l in SetOf(used) || !Satisfies(accepts, wants[k], calls, results[l])
    ensures Taken(Takes(accepts, wants, calls), results, {}, k + 1)
      == if found.None? then None else Some(used + [found.value])
  {
    hide OfRound, Satisfies;
    FirstFreeIsOnly(Takes(accepts, wants, calls), k, results, {} + SetOf(used), found);
  }

  /** Gives each expectation in turn a leaf result; none is skipped when an earlier one finds nothing. */
  method ServeAll(accepts: Assertions, wants: seq<Want>, calls: seq<Call>, results: seq<Leaf>) returns (served: bool)
    requires forall l :: 0 <= l < |results| ==> OfRound(calls, results[l])
    ensures served <==> Taken(Takes(accepts, wants, calls), results, {}, |wants|).Some?
  {
    hide OfRound, Satisfies, Takes;
    ghost var takes := Takes(accepts, wants, calls);
    served := true;
    var used: seq<int> := [];
    for k := 0 to |wants|
      invariant if served then Taken(takes, results, {}, k) == Some(used) else Taken(takes, results, {}, |wants|).None?
    {
      var found := FindExpectedLeafIndex(accepts, wants[k], calls, results, SetOf(used));
      if served {
        NextTaken(accepts, wants, calls, results, used, k, found);
        if found.None? {
          NoneStays(takes, results, {}, k + 1, |wants|);
        }
      }
      if found.None? {
        served := false;
      } else {
        used := used + [found.value];
      }
    }
  }

  /** Whether a round passes without an error. */
  method TestRound(accepts: Assertions, wants: seq<Want>, calls: seq<Call>, leaves: seq<Leaf>) returns (fits: bool)
    ensures fits <==> RoundFits(accepts, wants, calls, leaves)
  {
    var results := RoundLeaves(calls, leaves);
    RoundLeavesFacts(calls, leaves);
    var served := ServeAll(accepts, wants, calls, results);
    fits := |calls| == |wants| && |results| == |calls| && served;
  }

  /** The steps that took no round, in order. */
  ghost function Missing(taken: seq<Option<nat>>): seq<nat> {
    if taken == [] then []
    else
      var k := |taken| - 1;
      Missing(taken[..k]) + if taken[k].None? then [k] else []
  }

  lemma {:induction false} MissingFacts(taken: seq<Option<nat>>)
    ensures Missing(taken) == [] <==> AllMatched(taken)
  {
    if taken != [] {
      var k := |taken| - 1;
      MissingFacts(taken[..k]);
      assert AllMatched(taken) <==> AllMatched(taken[..k]) && taken[k].Some?;
    }
  }

  lemma {:induction false} MissingMembers(taken: seq<Option<nat>>)
    ensures forall s: nat :: s in Missing(taken) <==> s < |taken| && taken[s].None?
  {
    if taken != [] {
      var k := |taken| - 1;
      var before := Missing(taken[..k]);
      MissingMembers(taken[..k]);
      forall s: nat ensures s in Missing(taken) <==> s in before || (s == k && taken[k].None?) {
        assert Missing(taken) == before + if taken[k].None? then [k] else [];
      }
    }
  }

  lemma {:induction false} MissingIncreases(taken: seq<Option<nat>>)
    ensures forall a, b :: 0 <= a < b < |Missing(taken)| ==> Missing(taken)[a] < Missing(taken)[b]
  {
    if taken != [] {
      var before := Missing(taken[..|taken| - 1]);
      MissingIncreases(taken[..|taken| - 1]);
      MissingMembers(taken[..|taken| - 1]);
      forall a | 0 <= a < |before| ensures before[a] < |taken| - 1 {
        assert before[a] in before;
      }
    }
  }

  lemma GreedyStep(suits: Suits, steps: nat, rounds: nat, step: nat, cursor: nat, all: seq<Option<nat>>)
    requires step < steps == |all| && all[step..] == Greedy(suits, steps, rounds, step, cursor)
    ensures var round := FirstRound(suits, rounds, step, cursor);
      && all[..step + 1] == all[..step] + [round]
      && all[step + 1..] == Greedy(suits, steps, rounds, step + 1, if round.Some? then round.value + 1 else cursor)
  {
    assert all[step] == all[step..][0];
    assert all[step + 1..] == all[step..][1..];
  }

  lemma MissingStep(taken: seq<Option<nat>>, round: Option<nat>)
    ensures Missing(taken + [round]) == Missing(taken) + if round.None? then [|taken|] else []
  {
    assert (taken + [round])[..|taken|] == taken;
  }

  /** The first round from `cursor` on that passes. */
  method FindRound(accepts: Assertions, steps: seq<seq<Want>>, rounds: seq<seq<Call>>, leaves: seq<Leaf>, step: nat, cursor: nat)
    returns (found: Option<nat>)
    requires step < |steps| && cursor <= |rounds|
    ensures found == FirstRound(RoundSuits(accepts, steps, rounds, leaves), |rounds|, step, cursor)
  {
    ghost var suits := RoundSuits(accepts, steps, rounds, leaves);
    for round := cursor to |rounds|
      invariant FirstRound(suits, |rounds|, step, round) == FirstRound(suits, |rounds|, step, cursor)
    {
      var fits := TestRound(accepts, steps[step], rounds[round], leaves);
      if fits {
        return Some(round);
      }
    }
    found := None;
  }

  /** The steps that matched no round, each by its own greedy turn: those for which no fitting round comes after
      all that earlier steps took. None is reported exactly when the expecting steps embed into the rounds in
      order. */
  method UnmatchedSteps(accepts: Assertions, steps: seq<seq<Want>>, rounds: seq<seq<Call>>, leaves: seq<Leaf>)
    returns (unmatched: seq<nat>)
    ensures unmatched == Missing(Greedy(RoundSuits(accepts, steps, rounds, leaves), |steps|, |rounds|, 0, 0))
    ensures unmatched == [] <==>
      exists f: seq<nat> :: Embeds(RoundSuits(accepts, steps, rounds, leaves), |steps|, |rounds|, 0, 0, f)
    ensures exists taken: seq<Option<nat>> ::
      && |taken| == |steps| && EachInTurn(RoundSuits(accepts, steps, rounds, leaves), |rounds|, 0, 0, taken)
      && forall s: nat :: s in unmatched <==> s < |steps| && taken[s].None?
    ensures forall a, b :: 0 <= a < b < |unmatched| ==> unmatched[a] < unmatched[b]
  {
    hide RoundFits, Embeds, AllMatched, EachInTurn;
    ghost var suits := RoundSuits(accepts, steps, rounds, leaves);
    ghost var all := Greedy(suits, |steps|, |rounds|, 0, 0);
    unmatched := [];
    var cursor: nat := 0;
    for step := 0 to |steps|
      invariant cursor <= |rounds|
      invariant all[step..] == Greedy(suits, |steps|, |rounds|, step, cursor)
      invariant unmatched == Missing(all[..step])
    {
      var round := FindRound(accepts, steps, rounds, leaves, step, cursor);
      GreedyStep(suits, |steps|, |rounds|, step, cursor, all);
      MissingStep(all[..step], round);
      if round.Some? {
        cursor := round.value + 1;
      } else {
        unmatched := unmatched + [step];
      }
    }
    assert all[..|steps|] == all;
    MissingFacts(all);
    MissingMembers(all);
    MissingIncreases(all);
    GreedyInTurn(suits, |steps|, |rounds|, 0, 0);
    GreedyDecides(suits, |steps|, |rounds|);
  }

  /** Every step finds a round exactly when some embedding exists. */
  lemma GreedyDecides(suits: Suits, steps: nat, rounds: nat)
    ensures AllMatched(Greedy(suits, steps, rounds, 0, 0)) <==> exists f: seq<nat> :: Embeds(suits, steps, rounds, 0, 0, f)
  {
    if AllMatched(Greedy(suits, steps, rounds, 0, 0)) {
      var f := GreedyIsSound(suits, steps, rounds, 0, 0);
    }
    if f: seq<nat> :| Embeds(suits, steps, rounds, 0, 0, f) {
      GreedyIsComplete(suits, steps, rounds, 0, 0, f);
    }
  }
}
