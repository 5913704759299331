/** Which step of a scenario the history of leaf results has reached: steps complete in order, each on
    leaves no earlier step has consumed. */
module HistoryProgress {
  import opened FirstFit
  import opened Options
  import opened Sums

  /** `contract` is empty when the expectation names none. */
  datatype Expectation = Expectation(contract: string, success: bool, captures: bool, output: string)

  datatype Leaf = Leaf(contract: string, success: bool, output: string)

  /** `nodes` are the expectations of the step's `do` nodes; `marksDone` is its status. */
  datatype Step = Step(nodes: seq<Expectation>, marksDone: bool, hasTree: bool, retries: bool)

  /** The full check of a leaf, its output clauses included, is an input. */
  type FullMatch = (Leaf, Expectation) -> bool

  /** A step that retries, or an expectation that captures, needs the full check; otherwise contract and
      outcome decide. */
  predicate Matches(full: FullMatch, step: Step, want: Expectation, leaf: Leaf) {
    if step.retries || want.captures then full(leaf, want)
    else (want.contract == "" || leaf.contract == want.contract) && leaf.success == want.success
  }

  /** Without retries and captures contract and outcome decide alone, and a failed leaf never serves an expected
      success; with either of them the full check decides alone. */
  lemma MatchesExactly(full: FullMatch, step: Step, want: Expectation, leaf: Leaf)
    ensures !step.retries && !want.captures ==>
      (Matches(full, step, want, leaf) <==>
        (want.contract != "" ==> leaf.contract == want.contract) && (leaf.success <==> want.success))
    ensures step.retries ==> (Matches(full, step, want, leaf) <==> full(leaf, want))
    ensures want.captures ==> (Matches(full, step, want, leaf) <==> full(leaf, want))
  {
  }

  // ---------------------------------------------------------------- one step

  /** Whether expectation n of the step takes a leaf result. */
  ghost function Takes(full: FullMatch, step: Step): Accepts<Leaf> {
    (n, leaf) => 0 <= n < |step.nodes| && Matches(full, step, step.nodes[n], leaf)
  }

  /** The leaves a complete step takes, one for each expectation in turn. A step without expectations
      completes on its status alone. */
  ghost function Completion(full: FullMatch, step: Step, leaves: seq<Leaf>, consumed: set<int>): Option<seq<int>> {
    if step.nodes == [] then if step.marksDone then Some([]) else None
    else Taken(Takes(full, step), leaves, consumed, |step.nodes|)
  }

  /** `uses` gives each expectation of the step a leaf of its own that it accepts and that was not consumed. */
  ghost predicate ServesStep(full: FullMatch, step: Step, leaves: seq<Leaf>, consumed: set<int>, uses: seq<int>) {
    && |uses| == |step.nodes| && Injective(uses)
    && forall n :: 0 <= n < |uses| ==>
         0 <= uses[n] < |leaves| && uses[n] !in consumed && Matches(full, step, step.nodes[n], leaves[uses[n]])
  }

  lemma ServesStepServes(full: FullMatch, step: Step, leaves: seq<Leaf>, consumed: set<int>, uses: seq<int>)
    ensures ServesStep(full, step, leaves, consumed, uses) <==> Serves(Takes(full, step), leaves, consumed, |step.nodes|, uses)
  {
    hide Matches;
  }

  lemma CompletionFacts(full: FullMatch, step: Step, leaves: seq<Leaf>, consumed: set<int>)
    requires Completion(full, step, leaves, consumed).Some?
    ensures ServesStep(full, step, leaves, consumed, Completion(full, step, leaves, consumed).value)
  {
    hide Matches, Serves;
    TakenServes(Takes(full, step), leaves, consumed, |step.nodes|);
    ServesStepServes(full, step, leaves, consumed, Completion(full, step, leaves, consumed).value);
  }

  /** A step without expectations is complete when it is marked done; any other when giving each expectation in
      turn the first fresh leaf that matches it serves all of them. */
  lemma CompletionExactly(full: FullMatch, step: Step, leaves: seq<Leaf>, consumed: set<int>, uses: seq<int>)
    ensures Completion(full, step, leaves, consumed) == Some(uses) <==>
      if step.nodes == [] then step.marksDone && uses == []
      else InTurn((n, leaf) => 0 <= n < |step.nodes| && Matches(full, step, step.nodes[n], leaf),
                  leaves, consumed, |step.nodes|, uses)
  {
    hide InTurn;
    TakenExactly(Takes(full, step), leaves, consumed, |step.nodes|, uses);
  }

  lemma CompletionStays(full: FullMatch, step: Step, leaves: seq<Leaf>, more: seq<Leaf>, consumed: set<int>)
    ensures Completion(full, step, leaves, consumed).Some? ==>
      Completion(full, step, leaves + more, consumed) == Completion(full, step, leaves, consumed)
  {
    TakenStays(Takes(full, step), leaves, more, consumed, |step.nodes|);
  }

  /** A step completes on every history that can serve it exactly when its expectations are nested, or one
      of them accepts no leaf result at all. */
  lemma StepCompletesExactly(full: FullMatch, step: Step)
    requires step.nodes != []
    ensures (forall leaves: seq<Leaf>, consumed, uses :: ServesStep(full, step, leaves, consumed, uses) ==>
               Completion(full, step, leaves, consumed).Some?)
      <==> (Nested(Takes(full, step), |step.nodes|)
            || exists n :: 0 <= n < |step.nodes| && !Acceptable(Takes(full, step), n))
  {
    hide Nested, Acceptable, Serves, ServesStep;
    forall leaves: seq<Leaf>, consumed, uses
      ensures ServesStep(full, step, leaves, consumed, uses) <==> Serves(Takes(full, step), leaves, consumed, |step.nodes|, uses)
    {
      ServesStepServes(full, step, leaves, consumed, uses);
    }
    NeverMissesExactly(Takes(full, step), |step.nodes|);
  }

  /** Of two expectations with the same outcome, one that names no contract does not come before one that does. */
  predicate ContractsFirst(step: Step) {
    forall i, j :: 0 <= i < j < |step.nodes| ==>
      step.nodes[i].contract == "" && step.nodes[i].success == step.nodes[j].success ==> step.nodes[j].contract == ""
  }

  /** Without retries and captures, contract and outcome decide. Then a step completes on every history that
      can serve it exactly when the expectations that name a contract come first. */
  lemma PlainStepCompletesExactly(full: FullMatch, step: Step)
    requires step.nodes != [] && !step.retries && forall n :: 0 <= n < |step.nodes| ==> !step.nodes[n].captures
    ensures (forall leaves: seq<Leaf>, consumed, uses :: ServesStep(full, step, leaves, consumed, uses) ==>
               Completion(full, step, leaves, consumed).Some?)
      <==> ContractsFirst(step)
  {
    hide ServesStep, Completion;
    StepCompletesExactly(full, step);
    var takes := Takes(full, step);
    forall n | 0 <= n < |step.nodes| ensures Acceptable(takes, n) {
      assert takes(n, Leaf(step.nodes[n].contract, step.nodes[n].success, ""));
    }
    if i, j :| 0 <= i < j < |step.nodes| && step.nodes[i].success == step.nodes[j].success
               && step.nodes[i].contract == "" && step.nodes[j].contract != "" {
      var x := Leaf(step.nodes[j].contract, step.nodes[j].success, "");
      var y := Leaf("", step.nodes[j].success, "");
      assert takes(i, x) && takes(j, x) && takes(i, y) && !takes(j, y);
    }
  }

  // ---------------------------------------------------------------- the whole scenario

  /** The index reached, and the leaves each step before it took. */
  datatype Progress = Progress(next: nat, uses: seq<seq<int>>)

  predicate Terminal(step: Step) {
    step.marksDone && !step.hasTree
  }

  ghost function ProgressFrom(full: FullMatch, steps: seq<Step>, leaves: seq<Leaf>, idx: nat, consumed: set<int>): (p: Progress)
    requires idx <= |steps|
    ensures idx <= p.next <= |steps| && |p.uses| == p.next - idx
    decreases |steps| - idx
  {
    if idx == |steps| || Terminal(steps[idx]) then Progress(idx, [])
    else
      match Completion(full, steps[idx], leaves, consumed)
      case None => Progress(idx, [])
      case Some(uses) =>
        var rest := ProgressFrom(full, steps, leaves, idx + 1, consumed + SetOf(uses));
        Progress(rest.next, [uses] + rest.uses)
  }

  /** What the first a steps consumed. */
  ghost function ConsumedBy(uses: seq<seq<int>>, a: nat, consumed: set<int>): set<int>
    requires a <= |uses|
  {
    if a == 0 then consumed else ConsumedBy(uses, a - 1, consumed) + SetOf(uses[a - 1])
  }

  lemma {:induction false} ConsumedByCons(first: seq<int>, rest: seq<seq<int>>, a: nat, consumed: set<int>)
    requires a <= |rest|
    ensures ConsumedBy([first] + rest, a + 1, consumed) == ConsumedBy(rest, a, consumed + SetOf(first))
  {
    if a != 0 {
      ConsumedByCons(first, rest, a - 1, consumed);
    }
  }

  /** Step idx + a is complete on the leaves that the steps before it left over, and does more than mark the
      end; `uses[a]` are the leaves it takes. */
  ghost predicate DoneAt(full: FullMatch, steps: seq<Step>, leaves: seq<Leaf>, idx: nat, consumed: set<int>,
                         uses: seq<seq<int>>, a: nat)
    requires a < |uses| && idx + |uses| <= |steps|
  {
    && !(steps[idx + a].marksDone && !steps[idx + a].hasTree)
    && Completion(full, steps[idx + a], leaves, ConsumedBy(uses, a, consumed)) == Some(uses[a])
  }

  ghost predicate DoneInTurn(full: FullMatch, steps: seq<Step>, leaves: seq<Leaf>, idx: nat, consumed: set<int>,
                             uses: seq<seq<int>>)
  {
    idx + |uses| <= |steps| && forall a: nat :: a < |uses| ==> DoneAt(full, steps, leaves, idx, consumed, uses, a)
  }

  lemma DoneAtCons(full: FullMatch, steps: seq<Step>, leaves: seq<Leaf>, idx: nat, consumed: set<int>, first: seq<int>,
                   rest: seq<seq<int>>, a: nat)
    requires idx + 1 + |rest| <= |steps| && a < |rest|
    requires DoneAt(full, steps, leaves, idx + 1, consumed + SetOf(first), rest, a)
    ensures DoneAt(full, steps, leaves, idx, consumed, [first] + rest, a + 1)
  {
    hide Completion, ConsumedBy;
    ConsumedByCons(first, rest, a, consumed);
    assert idx + (a + 1) == idx + 1 + a && ([first] + rest)[a + 1] == rest[a];
  }

  lemma DoneCons(full: FullMatch, steps: seq<Step>, leaves: seq<Leaf>, idx: nat, consumed: set<int>, first: seq<int>,
                 rest: seq<seq<int>>)
    requires idx < |steps| && !Terminal(steps[idx]) && Completion(full, steps[idx], leaves, consumed) == Some(first)
    requires DoneInTurn(full, steps, leaves, idx + 1, consumed + SetOf(first), rest)
    ensures DoneInTurn(full, steps, leaves, idx, consumed, [first] + rest)
  {
    hide Completion, ConsumedBy;
    ConsumedByNone([first] + rest, consumed);
    assert DoneAt(full, steps, leaves, idx, consumed, [first] + rest, 0);
    forall a: nat | a < |rest| + 1 ensures DoneAt(full, steps, leaves, idx, consumed, [first] + rest, a) {
      if a > 0 {
        DoneAtCons(full, steps, leaves, idx, consumed, first, rest, a - 1);
      }
    }
  }

  lemma ConsumedByNone(uses: seq<seq<int>>, consumed: set<int>)
    ensures ConsumedBy(uses, 0, consumed) == consumed
  {
  }

  lemma ProgressUnfolds(full: FullMatch, steps: seq<Step>, leaves: seq<Leaf>, idx: nat, consumed: set<int>)
    requires idx <= |steps|
    ensures
      if idx < |steps| && !Terminal(steps[idx]) && Completion(full, steps[idx], leaves, consumed).Some? then
        var uses := Completion(full, steps[idx], leaves, consumed).value;
        var rest := ProgressFrom(full, steps, leaves, idx + 1, consumed + SetOf(uses));
        ProgressFrom(full, steps, leaves, idx, consumed) == Progress(rest.next, [uses] + rest.uses)
      else ProgressFrom(full, steps, leaves, idx, consumed) == Progress(idx, [])
  {
    hide Completion;
  }

  /** There is no step at `next`, or it only marks the end, or it is not complete on the leaves left over. */
  ghost predicate StopsAt(full: FullMatch, steps: seq<Step>, leaves: seq<Leaf>, next: nat, consumed: set<int>) {
    || next >= |steps|
    || (steps[next].marksDone && !steps[next].hasTree)
    || Completion(full, steps[next], leaves, consumed).None?
  }

  /** The index reached is the first whose step only marks the end, or is not complete on the leaves that the
      steps before it left over. */
  lemma {:induction false} NextIsFirstIncomplete(full: FullMatch, steps: seq<Step>, leaves: seq<Leaf>, idx: nat, consumed: set<int>)
    requires idx <= |steps|
    ensures
      var p := ProgressFrom(full, steps, leaves, idx, consumed);
      && p.next == idx + |p.uses| && DoneInTurn(full, steps, leaves, idx, consumed, p.uses)
      && StopsAt(full, steps, leaves, p.next, ConsumedBy(p.uses, |p.uses|, consumed))
    decreases |steps| - idx
  {
    ProgressUnfolds(full, steps, leaves, idx, consumed);
    NothingDone(full, steps, leaves, idx, consumed);
    hide *;
    if idx < |steps| && !Terminal(steps[idx]) && Completion(full, steps[idx], leaves, consumed).Some? {
      var first := Completion(full, steps[idx], leaves, consumed).value;
      var consumed' := consumed + SetOf(first);
      var rest := ProgressFrom(full, steps, leaves, idx + 1, consumed').uses;
      NextIsFirstIncomplete(full, steps, leaves, idx + 1, consumed');
      DoneCons(full, steps, leaves, idx, consumed, first, rest);
      ConsumedByCons(first, rest, |rest|, consumed);
    }
  }

  lemma NothingDone(full: FullMatch, steps: seq<Step>, leaves: seq<Leaf>, idx: nat, consumed: set<int>)
    requires idx <= |steps|
    ensures DoneInTurn(full, steps, leaves, idx, consumed, []) && ConsumedBy([], 0, consumed) == consumed
    ensures !(idx < |steps| && !Terminal(steps[idx]) && Completion(full, steps[idx], leaves, consumed).Some?)
      ==> StopsAt(full, steps, leaves, idx, consumed)
  {
    hide Completion;
  }

  /** Appending leaf results never lowers the step index, and completed steps keep exactly the leaves
      they took. */
  lemma {:induction false} ProgressIsMonotone(full: FullMatch, steps: seq<Step>, leaves: seq<Leaf>, more: seq<Leaf>,
                                              idx: nat, consumed: set<int>)
    requires idx <= |steps|
    ensures var before := ProgressFrom(full, steps, leaves, idx, consumed);
      var after := ProgressFrom(full, steps, leaves + more, idx, consumed);
      before.next <= after.next && before.uses <= after.uses
    decreases |steps| - idx
  {
    hide Completion, ProgressFrom, Terminal;
    ProgressUnfolds(full, steps, leaves, idx, consumed);
    ProgressUnfolds(full, steps, leaves + more, idx, consumed);
    if idx < |steps| && !Terminal(steps[idx]) {
      var completion := Completion(full, steps[idx], leaves, consumed);
      CompletionStays(full, steps[idx], leaves, more, consumed);
      if completion.Some? {
        var consumed' := consumed + SetOf(completion.value);
        ProgressIsMonotone(full, steps, leaves, more, idx + 1, consumed');
        PrefixCons(completion.value, ProgressFrom(full, steps, leaves, idx + 1, consumed').uses,
                   ProgressFrom(full, steps, leaves + more, idx + 1, consumed').uses);
      }
    }
  }

  lemma PrefixCons(first: seq<int>, rest: seq<seq<int>>, rest': seq<seq<int>>)
    requires rest <= rest'
    ensures [first] + rest <= [first] + rest'
  {
  }

  /** Steps take distinct leaves, none of them consumed before and none taken by another step. */
  ghost predicate Separate(uses: seq<seq<int>>, consumed: set<int>) {
    && (forall a :: 0 <= a < |uses| ==> Injective(uses[a]))
    && (forall a, u :: 0 <= a < |uses| && u in uses[a] ==> u !in consumed)
    && (forall a, b, u :: 0 <= a < b < |uses| && u in uses[a] ==> u !in uses[b])
  }

  lemma SeparateCons(first: seq<int>, rest: seq<seq<int>>, consumed: set<int>)
    requires Injective(first) && (forall u :: u in first ==> u !in consumed)
    requires Separate(rest, consumed + SetOf(first))
    ensures Separate([first] + rest, consumed)
  {
    var uses := [first] + rest;
    assert forall a :: 1 <= a < |uses| ==> uses[a] == rest[a - 1];
    assert forall u :: u in first ==> u in consumed + SetOf(first);
  }

  /** No leaf is taken twice, by one step or by two. */
  lemma {:induction false} NoLeafTwice(full: FullMatch, steps: seq<Step>, leaves: seq<Leaf>, idx: nat, consumed: set<int>)
    requires idx <= |steps|
    ensures Separate(ProgressFrom(full, steps, leaves, idx, consumed).uses, consumed)
    decreases |steps| - idx
  {
    if idx < |steps| && !Terminal(steps[idx]) {
      var completion := Completion(full, steps[idx], leaves, consumed);
      if completion.Some? {
        var first := completion.value;
        CompletionFacts(full, steps[idx], leaves, consumed);
        NoLeafTwice(full, steps, leaves, idx + 1, consumed + SetOf(first));
        SeparateCons(first, ProgressFrom(full, steps, leaves, idx + 1, consumed + SetOf(first)).uses, consumed);
      }
    }
  }

  /** What a completed step took serves all of its expectations. */
  lemma {:induction false} CompletedIsServed(full: FullMatch, steps: seq<Step>, leaves: seq<Leaf>, idx: nat,
                                            consumed: set<int>, a: nat)
    requires idx <= |steps| && a < |ProgressFrom(full, steps, leaves, idx, consumed).uses|
    ensures ServesStep(full, steps[idx + a], leaves, consumed, ProgressFrom(full, steps, leaves, idx, consumed).uses[a])
    decreases a
  {
    var uses := Completion(full, steps[idx], leaves, consumed).value;
    if a == 0 {
      CompletionFacts(full, steps[idx], leaves, consumed);
    } else {
      CompletedIsServed(full, steps, leaves, idx + 1, consumed + SetOf(uses), a - 1);
    }
  }

  // ---------------------------------------------------------------- the loops

  /** The first leaf neither consumed nor used by the step that the expectation matches. */
  method FindLeaf(full: FullMatch, step: Step, want: Expectation, leaves: seq<Leaf>, consumed: set<int>, localUsed: set<int>)
    returns (found: Option<nat>)
    ensures found.Some? ==>
      found.value < |leaves| && found.value !in consumed + localUsed && Matches(full, step, want, leaves[found.value])
    ensures forall l :: 0 <= l < (if found.Some? then found.value else |leaves|) ==>
      l in consumed + localUsed || !Matches(full, step, want, leaves[l])
  {
    for idx := 0 to |leaves|
      invariant forall l :: 0 <= l < idx ==> l in consumed + localUsed || !Matches(full, step, want, leaves[l])
    {
      if idx in consumed || idx in localUsed {
        continue;
      }
      if Matches(full, step, want, leaves[idx]) {
        return Some(idx);
      }
    }
    found := None;
  }

  /** Takes a leaf for each expectation in turn, giving up at the first that finds none. */
  method TakeLeaves(full: FullMatch, step: Step, leaves: seq<Leaf>, consumed: set<int>)
    returns (complete: bool, localUsed: set<int>)
    ensures complete <==> Taken(Takes(full, step), leaves, consumed, |step.nodes|).Some?
    ensures complete ==> localUsed == SetOf(Taken(Takes(full, step), leaves, consumed, |step.nodes|).value)
  {
    hide Matches;
    localUsed := {};
    ghost var takes := Takes(full, step);
    ghost var uses: seq<int> := [];
    for k := 0 to |step.nodes|
      invariant Taken(takes, leaves, consumed, k) == Some(uses) && localUsed == SetOf(uses)
    {
      var found := FindLeaf(full, step, step.nodes[k], leaves, consumed, localUsed);
      FirstFreeIsOnly(takes, k, leaves, consumed + localUsed, found);
      if found.None? {
        NoneStays(takes, leaves, consumed, k + 1, |step.nodes|);
        return false, localUsed;
      }
      var matchIdx: int := found.value;
      assert SetOf(uses + [matchIdx]) == SetOf(uses) + {matchIdx};
      localUsed, uses := localUsed + {matchIdx}, uses + [matchIdx];
    }
    complete := true;
  }

  /** Whether the step is complete; if so its leaves count as consumed from now on. */
  method StepIsComplete(full: FullMatch, step: Step, leaves: seq<Leaf>, consumed: set<int>)
    returns (complete: bool, consumed': set<int>)
    ensures complete <==> Completion(full, step, leaves, consumed).Some?
    ensures consumed' == consumed + if complete then SetOf(Completion(full, step, leaves, consumed).value) else {}
  {
    if step.nodes == [] {
      return step.marksDone, consumed;
    }
    var localUsed;
    complete, localUsed := TakeLeaves(full, step, leaves, consumed);
    consumed' := if complete then consumed + localUsed else consumed;
  }

  /** The index of the first step that is not complete, stopping at a step that only marks the end. */
  method NextStepIndex(full: FullMatch, steps: seq<Step>, leaves: seq<Leaf>) returns (next: nat)
    ensures next == ProgressFrom(full, steps, leaves, 0, {}).next
  {
    var consumed: set<int> := {};
    for idx := 0 to |steps|
      invariant ProgressFrom(full, steps, leaves, idx, consumed).next == ProgressFrom(full, steps, leaves, 0, {}).next
    {
      if Terminal(steps[idx]) {
        return idx;
      }
      var complete;
      complete, consumed := StepIsComplete(full, steps[idx], leaves, consumed);
      if !complete {
        return idx;
      }
    }
    next := |steps|;
  }
}
