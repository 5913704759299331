/** Finite sums of reals, injective index sequences and the counting facts about them. */
module Sums {

  function Sum(s: seq<real>): real {
    if s == [] then 0.0 else Sum(s[..|s| - 1]) + s[|s| - 1]
  }

  /** Every entry of `s` is an index below `n`. */
  ghost predicate Below(s: seq<int>, n: int) {
    forall k :: 0 <= k < |s| ==> 0 <= s[k] < n
  }

  ghost predicate Injective(s: seq<int>) {
    forall a, b :: 0 <= a < b < |s| ==> s[a] != s[b]
  }

  function SetOf(s: seq<int>): set<int> {
    set x | x in s
  }

  /** The total weight read at the chosen indices. */
  ghost function SumAt(w: seq<real>, chosen: seq<int>): real
    requires Below(chosen, |w|)
  {
    if chosen == [] then 0.0
    else SumAt(w, chosen[..|chosen| - 1]) + w[chosen[|chosen| - 1]]
  }

  lemma {:induction false} SumUpdate(s: seq<real>, i: int, x: real)
    requires 0 <= i < |s|
    ensures Sum(s[i := x]) == Sum(s) - s[i] + x
  {
    var k := |s| - 1;
    if i == k {
      assert s[i := x][..k] == s[..k];
    } else {
      SumUpdate(s[..k], i, x);
      assert s[i := x][..k] == s[..k][i := x];
    }
  }

  lemma {:induction false} SumZero(s: seq<real>)
    requires forall k :: 0 <= k < |s| ==> s[k] == 0.0
    ensures Sum(s) == 0.0
  {
    if s != [] {
      SumZero(s[..|s| - 1]);
    }
  }

  lemma {:induction false} SumAppend(a: seq<real>, b: seq<real>)
    ensures Sum(a + b) == Sum(a) + Sum(b)
  {
    if b == [] {
      assert a + b == a;
    } else {
      var k := |b| - 1;
      assert (a + b)[..|a + b| - 1] == a + b[..k];
      SumAppend(a, b[..k]);
    }
  }

  lemma SumSplitHead(s: seq<real>)
    requires s != []
    ensures Sum(s) == s[0] + Sum(s[1..])
  {
    var head := [s[0]];
    assert s == head + s[1..];
    SumAppend(head, s[1..]);
    assert head[..0] == [];
  }

  /** Only a middle stretch of `s` carries weight. */
  lemma SumMiddle(s: seq<real>, lo: int, hi: int)
    requires 0 <= lo <= hi <= |s|
    requires forall k :: 0 <= k < |s| && !(lo <= k < hi) ==> s[k] == 0.0
    ensures Sum(s) == Sum(s[lo..hi])
  {
    var front, middle, back := s[..lo], s[lo..hi], s[hi..];
    assert s == front + middle + back;
    SumAppend(front + middle, back);
    SumAppend(front, middle);
    SumZero(front);
    SumZero(back);
  }

  lemma {:induction false} SumAtAgrees(w: seq<real>, w': seq<real>, chosen: seq<int>)
    requires |w| == |w'| && Below(chosen, |w|)
    requires forall k :: 0 <= k < |chosen| ==> w[chosen[k]] == w'[chosen[k]]
    ensures SumAt(w, chosen) == SumAt(w', chosen)
  {
    if chosen != [] {
      SumAtAgrees(w, w', chosen[..|chosen| - 1]);
    }
  }

  /** Distinct columns of a non-positive weight cannot weigh less than all columns together;
      they weigh exactly as much when every other column weighs nothing. */
  lemma {:induction false} InjectiveSum(w: seq<real>, chosen: seq<int>)
    requires Below(chosen, |w|) && Injective(chosen)
    ensures (forall j :: 0 <= j < |w| ==> w[j] <= 0.0) ==> Sum(w) <= SumAt(w, chosen)
    ensures (forall j :: 0 <= j < |w| && j !in chosen ==> w[j] == 0.0) ==> Sum(w) == SumAt(w, chosen)
    decreases |chosen|
  {
    if chosen == [] {
      if forall j :: 0 <= j < |w| ==> w[j] <= 0.0 {
        SumNonPositive(w);
      }
      if forall j :: 0 <= j < |w| && j !in chosen ==> w[j] == 0.0 {
        SumZero(w);
      }
    } else {
      var k := |chosen| - 1;
      var j := chosen[k];
      var w' := w[j := 0.0];
      InjectiveSum(w', chosen[..k]);
      SumUpdate(w, j, 0.0);
      SumAtAgrees(w, w', chosen[..k]);
      assert forall x :: x in chosen <==> x in chosen[..k] || x == j;
    }
  }

  lemma {:induction false} SumNonPositive(w: seq<real>)
    requires forall j :: 0 <= j < |w| ==> w[j] <= 0.0
    ensures Sum(w) <= 0.0
  {
    if w != [] {
      SumNonPositive(w[..|w| - 1]);
    }
  }

  /** Pigeonhole: distinct indices below `n` number at most `n`. */
  lemma {:induction false} Pigeonhole(s: seq<int>, n: nat)
    requires Below(s, n) && Injective(s)
    ensures |s| <= n
  {
    if n == 0 {
    } else if n - 1 in s {
      var k :| 0 <= k < |s| && s[k] == n - 1;
      var t := s[..k] + s[k + 1..];
      forall a | 0 <= a < |t| ensures 0 <= t[a] < n - 1 {
        assert t[a] == s[if a < k then a else a + 1];
      }
      Pigeonhole(t, n - 1);
    } else {
      Pigeonhole(s, n - 1);
    }
  }

  /** `n` distinct indices below `n` are all of them. */
  lemma InjectiveIsOnto(s: seq<int>, j: int)
    requires Below(s, |s|) && Injective(s) && 0 <= j < |s|
    ensures j in s
  {
    if j !in s {
      Pigeonhole(s + [j], |s|);
    }
  }

  /** A permutation reads the whole weight. */
  lemma PermutationSum(w: seq<real>, perm: seq<int>)
    requires |perm| == |w| && Below(perm, |w|) && Injective(perm)
    ensures SumAt(w, perm) == Sum(w)
  {
    forall j | 0 <= j < |w| ensures j in perm {
      InjectiveIsOnto(perm, j);
    }
    InjectiveSum(w, perm);
  }

  lemma {:induction false} InjectiveCardinality(s: seq<int>)
    requires Injective(s)
    ensures |SetOf(s)| == |s|
  {
    if s != [] {
      var k := |s| - 1;
      InjectiveCardinality(s[..k]);
      assert SetOf(s) == SetOf(s[..k]) + {s[k]};
    }
  }
}
