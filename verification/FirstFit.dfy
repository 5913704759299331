/** Serving expectations first come, first served: each takes the first leaf result it accepts that is
    still free. Shows when that finds a one-to-one correspondence whenever there is one. */
module FirstFit {
  import opened Options
  import opened Sums

  /** Whether an expectation, given by its index, accepts a leaf result. */
  type Accepts<!T> = (int, T) -> bool

  /** The first leaf from `from` on that expectation k accepts and that is not taken. */
  ghost function FirstFree<T>(accepts: Accepts<T>, k: int, leaves: seq<T>, taken: set<int>, from: nat): (r: Option<nat>)
    requires from <= |leaves|
    ensures r.Some? ==> from <= r.value < |leaves| && r.value !in taken && accepts(k, leaves[r.value])
    ensures r.Some? ==> forall l :: from <= l < r.value ==> l in taken || !accepts(k, leaves[l])
    ensures r.None? ==> forall l :: from <= l < |leaves| ==> l in taken || !accepts(k, leaves[l])
    decreases |leaves| - from
  {
    if from == |leaves| then None
    else if from !in taken && accepts(k, leaves[from]) then Some(from)
    else FirstFree(accepts, k, leaves, taken, from + 1)
  }

  /** The leaves the first k expectations take in turn, or None as soon as one finds no leaf. */
  ghost function Taken<T>(accepts: Accepts<T>, leaves: seq<T>, consumed: set<int>, k: nat): Option<seq<int>> {
    if k == 0 then Some([])
    else
      match Taken(accepts, leaves, consumed, k - 1)
      case None => None
      case Some(taken) =>
        match FirstFree(accepts, k - 1, leaves, consumed + SetOf(taken), 0)
        case None => None
        case Some(l) => Some(taken + [l])
  }

  /** `g` gives each of n expectations a leaf of its own that it accepts and that was not consumed. */
  ghost predicate Serves<T>(accepts: Accepts<T>, leaves: seq<T>, consumed: set<int>, n: nat, g: seq<int>) {
    && |g| == n && Below(g, |leaves|) && Injective(g)
    && forall k :: 0 <= k < n ==> g[k] !in consumed && accepts(k, leaves[g[k]])
  }

  lemma {:induction false} TakenServes<T>(accepts: Accepts<T>, leaves: seq<T>, consumed: set<int>, k: nat)
    ensures Taken(accepts, leaves, consumed, k).Some? ==>
      Serves(accepts, leaves, consumed, k, Taken(accepts, leaves, consumed, k).value)
  {
    if k != 0 {
      TakenServes(accepts, leaves, consumed, k - 1);
    }
  }

  /** Once an expectation finds no leaf, the whole list is not served. */
  lemma {:induction false} NoneStays<T>(accepts: Accepts<T>, leaves: seq<T>, consumed: set<int>, k: nat, n: nat)
    requires k <= n && Taken(accepts, leaves, consumed, k).None?
    ensures Taken(accepts, leaves, consumed, n).None?
    decreases n - k
  {
    if k < n {
      NoneStays(accepts, leaves, consumed, k + 1, n);
    }
  }

  /** The first free leaf is the only one with nothing acceptable and free before it. */
  lemma FirstFreeIsOnly<T>(accepts: Accepts<T>, k: int, leaves: seq<T>, taken: set<int>, found: Option<nat>)
    requires found.Some? ==> found.value < |leaves| && found.value !in taken && accepts(k, leaves[found.value])
    requires forall l :: 0 <= l < (if found.Some? then found.value else |leaves|) ==> l in taken || !accepts(k, leaves[l])
    ensures found == FirstFree(accepts, k, leaves, taken, 0)
  {
    var first := FirstFree(accepts, k, leaves, taken, 0);
    assert first.Some? ==> first.value in taken || accepts(k, leaves[first.value]);
  }

  /** Leaves appended later do not change what was taken. */
  lemma {:induction false} TakenStays<T>(accepts: Accepts<T>, leaves: seq<T>, more: seq<T>, consumed: set<int>, k: nat)
    ensures Taken(accepts, leaves, consumed, k).Some? ==>
      Taken(accepts, leaves + more, consumed, k) == Taken(accepts, leaves, consumed, k)
  {
    if k != 0 && Taken(accepts, leaves, consumed, k).Some? {
      TakenStays(accepts, leaves, more, consumed, k - 1);
      var taken := consumed + SetOf(Taken(accepts, leaves, consumed, k - 1).value);
      FirstFreeIsOnly(accepts, k - 1, leaves + more, taken, FirstFree(accepts, k - 1, leaves, taken, 0));
    }
  }

  /** `g` gives each expectation in turn the very first leaf it accepts that was neither consumed nor given to
      an earlier one. */
  ghost predicate InTurn<T>(accepts: Accepts<T>, leaves: seq<T>, consumed: set<int>, n: nat, g: seq<int>) {
    && |g| == n
    && forall k :: 0 <= k < n ==>
         && 0 <= g[k] < |leaves| && g[k] !in consumed && g[k] !in g[..k] && accepts(k, leaves[g[k]])
         && forall l :: 0 <= l < g[k] ==> l in consumed || l in g[..k] || !accepts(k, leaves[l])
  }

  lemma InTurnSnoc<T>(accepts: Accepts<T>, leaves: seq<T>, consumed: set<int>, n: nat, g: seq<int>, l: int)
    requires |g| == n
    ensures InTurn(accepts, leaves, consumed, n + 1, g + [l]) <==>
      && InTurn(accepts, leaves, consumed, n, g)
      && 0 <= l < |leaves| && l !in consumed && l !in g && accepts(n, leaves[l])
      && forall i :: 0 <= i < l ==> i in consumed || i in g || !accepts(n, leaves[i])
  {
    var more := g + [l];
    assert forall k :: 0 <= k < n ==> more[..k] == g[..k] && more[k] == g[k];
    assert more[..n] == g && more[n] == l;
  }

  /** What is taken is exactly that, and nothing is taken exactly when no such choice exists. */
  lemma {:induction false} TakenExactly<T>(accepts: Accepts<T>, leaves: seq<T>, consumed: set<int>, n: nat, g: seq<int>)
    ensures Taken(accepts, leaves, consumed, n) == Some(g) <==> InTurn(accepts, leaves, consumed, n, g)
  {
    TakenServes(accepts, leaves, consumed, n);
    if n != 0 && |g| == n {
      hide InTurn;
      var front, last := g[..n - 1], g[n - 1];
      assert g == front + [last];
      TakenExactly(accepts, leaves, consumed, n - 1, front);
      InTurnSnoc(accepts, leaves, consumed, n - 1, front, last);
      LastTaken(accepts, leaves, consumed, n, front, last);
    }
  }

  lemma LastTaken<T>(accepts: Accepts<T>, leaves: seq<T>, consumed: set<int>, n: nat, front: seq<int>, last: int)
    requires n >= 1
    ensures Taken(accepts, leaves, consumed, n) == Some(front + [last]) <==>
      && Taken(accepts, leaves, consumed, n - 1) == Some(front)
      && 0 <= last < |leaves| && last !in consumed && last !in front && accepts(n - 1, leaves[last])
      && forall i :: 0 <= i < last ==> i in consumed || i in front || !accepts(n - 1, leaves[i])
  {
    var before := Taken(accepts, leaves, consumed, n - 1);
    if before.Some? {
      var taken := consumed + SetOf(before.value);
      var first := FirstFree(accepts, n - 1, leaves, taken, 0);
      if first.Some? {
        assert (before.value + [first.value])[..|before.value|] == before.value;
        assert (front + [last])[..|front|] == front;
      }
      if before.value == front && 0 <= last < |leaves| && last !in taken && accepts(n - 1, leaves[last])
         && (forall i :: 0 <= i < last ==> i in consumed || i in front || !accepts(n - 1, leaves[i])) {
        FirstFreeIsOnly(accepts, n - 1, leaves, taken, Some(last));
      }
    }
  }

  // ---------------------------------------------------------------- when nothing is missed

  /** Of two expectations that share a leaf, the later accepts everything the earlier does. */
  ghost predicate Nested<T(!new)>(accepts: Accepts<T>, n: nat) {
    forall i, j, x, y :: 0 <= i < j < n && accepts(i, x) && accepts(j, x) && accepts(i, y) ==> accepts(j, y)
  }

  /** The same, asked only of the leaves at hand. */
  ghost predicate NestedOn<T>(accepts: Accepts<T>, n: nat, leaves: seq<T>) {
    forall i, j, x, y :: (
      && 0 <= i < j < n && 0 <= x < |leaves| && 0 <= y < |leaves|
      && accepts(i, leaves[x]) && accepts(j, leaves[x]) && accepts(i, leaves[y])
    ) ==> accepts(j, leaves[y])
  }

  /** Giving expectation k the free leaf l keeps everyone served: whoever held l takes k's old leaf. */
  lemma Exchange<T>(accepts: Accepts<T>, leaves: seq<T>, consumed: set<int>, n: nat, g: seq<int>, k: nat, l: int)
    returns (g': seq<int>)
    requires NestedOn(accepts, n, leaves) && Serves(accepts, leaves, consumed, n, g) && k < n
    requires 0 <= l < |leaves| && l !in consumed && l !in g[..k] && accepts(k, leaves[l])
    ensures Serves(accepts, leaves, consumed, n, g') && g'[..k + 1] == g[..k] + [l]
  {
    if j :| k <= j < n && g[j] == l {
      g' := g[k := l][j := g[k]];
      assert accepts(j, leaves[g[k]]);
    } else {
      g' := g[k := l];
    }
  }

  /** Any correspondence can be turned into one that agrees with first fit on its first k choices. */
  lemma {:induction false} Follow<T>(accepts: Accepts<T>, leaves: seq<T>, consumed: set<int>, n: nat, g: seq<int>, k: nat)
    returns (g': seq<int>)
    requires NestedOn(accepts, n, leaves) && Serves(accepts, leaves, consumed, n, g) && k <= n
    ensures Serves(accepts, leaves, consumed, n, g') && Taken(accepts, leaves, consumed, k) == Some(g'[..k])
  {
    hide NestedOn;
    if k == 0 {
      g' := g;
    } else {
      var before := Follow(accepts, leaves, consumed, n, g, k - 1);
      var taken := consumed + SetOf(before[..k - 1]);
      assert before[k - 1] !in taken && accepts(k - 1, leaves[before[k - 1]]);
      var free := FirstFree(accepts, k - 1, leaves, taken, 0);
      assert free.Some?;
      g' := Exchange(accepts, leaves, consumed, n, before, k - 1, free.value);
    }
  }

  /** On nested expectations first fit serves everyone exactly when everyone can be served. */
  lemma NestedIsEnough<T>(accepts: Accepts<T>, leaves: seq<T>, consumed: set<int>, n: nat)
    requires NestedOn(accepts, n, leaves)
    ensures Taken(accepts, leaves, consumed, n).Some? <==> exists g :: Serves(accepts, leaves, consumed, n, g)
  {
    hide NestedOn, Serves;
    TakenServes(accepts, leaves, consumed, n);
    if g :| Serves(accepts, leaves, consumed, n, g) {
      var g' := Follow(accepts, leaves, consumed, n, g, n);
    }
  }

  // ---------------------------------------------------------------- when something is missed

  ghost function Image(a: seq<int>, s: set<int>): set<int>
    requires forall k :: k in s ==> 0 <= k < |a|
  {
    set k | k in s :: a[k]
  }

  lemma {:induction false} ImageSize(a: seq<int>, s: set<int>)
    requires forall k :: k in s ==> 0 <= k < |a|
    ensures |Image(a, s)| <= |s|
  {
    if k :| k in s {
      ImageSize(a, s - {k});
      assert Image(a, s) == Image(a, s - {k}) + {a[k]};
    }
  }

  lemma LargerBy(s: set<int>, t: set<int>, x: int)
    requires s <= t && x in t && x !in s
    ensures |s| < |t|
  {
    assert t == s + (t - s);
    assert x in t - s;
  }

  /** Who holds a copy of y from position j on, when all before j keep their own position. */
  lemma HolderOfCopy<T>(accepts: Accepts<T>, leaves: seq<T>, a: seq<int>, j: nat, y: T, p: nat) returns (k: nat)
    requires Serves(accepts, leaves, {}, |leaves|, a)
    requires j <= p < |leaves| && leaves[p] == y && !accepts(j, y)
    requires forall k :: 0 <= k < j ==> a[k] == k
    ensures j < k < |leaves| && accepts(k, y) && a[k] == p
  {
    InjectiveIsOnto(a, p);
    k :| 0 <= k < |a| && a[k] == p;
  }

  /** From position j on, y occurs more often than expectations accept it: not everyone is served. */
  lemma TooManyCopies<T>(accepts: Accepts<T>, leaves: seq<T>, a: seq<int>, j: nat, y: T)
    requires j < |leaves| == |a| && forall k :: 0 <= k < j ==> a[k] == k
    requires leaves[j] == y && !accepts(j, y)
    requires forall k :: j < k < |leaves| && accepts(k, y) ==> leaves[k] == y
    ensures !Serves(accepts, leaves, {}, |leaves|, a)
  {
    hide Serves;
    if Serves(accepts, leaves, {}, |leaves|, a) {
      var takers := set k | j < k < |leaves| && accepts(k, y);
      forall p | p in takers + {j} ensures p in Image(a, takers) {
        var k := HolderOfCopy(accepts, leaves, a, j, y, p);
        assert k in takers;
      }
      ImageSize(a, takers);
      LargerBy(takers, Image(a, takers), j);
    }
  }

  /** As long as expectation k accepts leaf k, first fit hands out the leaves in order. */
  lemma {:induction false} TakenInOrder<T>(accepts: Accepts<T>, leaves: seq<T>, j: nat) returns (a: seq<int>)
    requires j <= |leaves| && forall k :: 0 <= k < j ==> accepts(k, leaves[k])
    ensures Taken(accepts, leaves, {}, j) == Some(a) && |a| == j && forall k :: 0 <= k < j ==> a[k] == k
  {
    a := [];
    if j != 0 {
      var before := TakenInOrder(accepts, leaves, j - 1);
      OwnPositionIsFree(before, j - 1);
      FirstFreeIsOnly(accepts, j - 1, leaves, {} + SetOf(before), Some(j - 1));
      a := before + [j - 1];
    }
  }

  lemma OwnPositionIsFree(a: seq<int>, j: nat)
    requires |a| == j && forall k :: 0 <= k < j ==> a[k] == k
    ensures j !in {} + SetOf(a) && forall l :: 0 <= l < j ==> l in {} + SetOf(a)
  {
    forall l | 0 <= l < j ensures l in SetOf(a) {
      assert a[l] == l;
    }
  }

  lemma {:induction false} TakenGrows<T>(accepts: Accepts<T>, leaves: seq<T>, consumed: set<int>, k: nat, n: nat)
    requires k <= n && Taken(accepts, leaves, consumed, n).Some?
    ensures Taken(accepts, leaves, consumed, k).Some?
    ensures Taken(accepts, leaves, consumed, k).value <= Taken(accepts, leaves, consumed, n).value
  {
    if k < n {
      TakenGrows(accepts, leaves, consumed, k, n - 1);
    }
  }

  /** Expectation k accepts `z[k]`. Expectations i and j both accept x, but only i accepts y: then some
      leaves can serve everyone, and first fit leaves someone out. */
  lemma Missed<T>(accepts: Accepts<T>, z: seq<T>, i: nat, j: nat, x: T, y: T) returns (leaves: seq<T>, g: seq<int>)
    requires i < j < |z| && forall k :: 0 <= k < |z| ==> accepts(k, z[k])
    requires accepts(i, x) && accepts(j, x) && accepts(i, y) && !accepts(j, y)
    ensures |leaves| == |z| && Serves(accepts, leaves, {}, |z|, g)
    ensures Taken(accepts, leaves, {}, |z|).None?
  {
    leaves := seq(|z|, k requires 0 <= k < |z| =>
      if k == i then x else if k == j || (j < k && accepts(k, y)) then y else z[k]);
    g := seq(|z|, k => if k == i then j else if k == j then i else k);
    if Taken(accepts, leaves, {}, |z|).Some? {
      var a := Taken(accepts, leaves, {}, |z|).value;
      var front := TakenInOrder(accepts, leaves, j);
      TakenGrows(accepts, leaves, {}, j, |z|);
      TakenServes(accepts, leaves, {}, |z|);
      TooManyCopies(accepts, leaves, a, j, y);
    }
  }

  ghost predicate Acceptable<T(!new)>(accepts: Accepts<T>, k: int) {
    exists x :: accepts(k, x)
  }

  lemma ServedIsAcceptable<T(!new)>(accepts: Accepts<T>, leaves: seq<T>, consumed: set<int>, n: nat, g: seq<int>, k: int)
    requires Serves(accepts, leaves, consumed, n, g) && 0 <= k < n
    ensures Acceptable(accepts, k)
  {
    assert accepts(k, leaves[g[k]]);
  }

  /** Whatever the leaves and whatever was consumed before: if n expectations can be served, they are. */
  ghost predicate NeverMisses<T(!new)>(accepts: Accepts<T>, n: nat) {
    forall leaves: seq<T>, consumed, g :: Serves(accepts, leaves, consumed, n, g) ==> Taken(accepts, leaves, consumed, n).Some?
  }

  /** The same, asked only of rounds with as many leaves as expectations. */
  ghost predicate NeverMissesRound<T(!new)>(accepts: Accepts<T>, n: nat) {
    forall leaves: seq<T>, g :: |leaves| == n && Serves(accepts, leaves, {}, n, g) ==> Taken(accepts, leaves, {}, n).Some?
  }

  /** First fit misses no correspondence exactly when the expectations are nested, or one of them accepts
      nothing at all; rounds with as many leaves as expectations already tell. */
  lemma NeverMissesExactly<T(!new)>(accepts: Accepts<T>, n: nat)
    ensures NeverMisses(accepts, n) <==> Nested(accepts, n) || exists k :: 0 <= k < n && !Acceptable(accepts, k)
    ensures NeverMissesRound(accepts, n) <==> NeverMisses(accepts, n)
  {
    hide Serves, Acceptable;
    if Nested(accepts, n) {
      forall leaves: seq<T>, consumed, g | Serves(accepts, leaves, consumed, n, g)
        ensures Taken(accepts, leaves, consumed, n).Some?
      {
        NestedIsEnough(accepts, leaves, consumed, n);
      }
    } else if k :| 0 <= k < n && !Acceptable(accepts, k) {
      forall leaves: seq<T>, consumed, g ensures !Serves(accepts, leaves, consumed, n, g) {
        if Serves(accepts, leaves, consumed, n, g) {
          ServedIsAcceptable(accepts, leaves, consumed, n, g, k);
        }
      }
    } else {
      var i, j, x, y :| 0 <= i < j < n && accepts(i, x) && accepts(j, x) && accepts(i, y) && !accepts(j, y);
      var z := Examples(accepts, n);
      var leaves, g := Missed(accepts, z, i, j, x, y);
      assert !NeverMissesRound(accepts, n);
    }
  }

  lemma {:induction false} Examples<T(!new)>(accepts: Accepts<T>, n: nat) returns (z: seq<T>)
    requires forall k :: 0 <= k < n ==> Acceptable(accepts, k)
    ensures |z| == n && forall k :: 0 <= k < n ==> accepts(k, z[k])
  {
    z := [];
    if n != 0 {
      var front := Examples(accepts, n - 1);
      assert Acceptable(accepts, n - 1);
      var x :| accepts(n - 1, x);
      z := front + [x];
    }
  }
}
