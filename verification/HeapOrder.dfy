/** Binary heaps as sequences of keys, the least at the head, and what one swap does to a
heap that is out of order at one place. */
module HeapOrder {
  function Parent(i: nat): nat
    requires i > 0
  {
    (i + 1) / 2 - 1
  }

  function Swapped<T>(s: seq<T>, i: nat, j: nat): (r: seq<T>)
    requires i < |s| && j < |s|
    ensures |r| == |s|
  {
    s[i := s[j]][j := s[i]]
  }

  ghost predicate Ordered(k: seq<int>) {
    forall j :: 0 < j < |k| ==> k[Parent(j)] <= k[j]
  }

  /** In order, but for the place i and its neighbours. */
  ghost predicate OrderedBut(k: seq<int>, i: nat) {
    forall j :: 0 < j < |k| && j != i && Parent(j) != i ==> k[Parent(j)] <= k[j]
  }

  /** The children of i are no less than the parent of i. */
  ghost predicate Bridged(k: seq<int>, i: nat) {
    forall j :: 0 < j < |k| && Parent(j) == i && 0 < i ==> k[Parent(i)] <= k[j]
  }

  /** In order, but i may be less than its parent. */
  ghost predicate OpenAbove(k: seq<int>, i: nat) {
    Bridged(k, i) && forall j :: 0 < j < |k| && j != i ==> k[Parent(j)] <= k[j]
  }

  /** In order, but i may be greater than its children. */
  ghost predicate OpenBelow(k: seq<int>, i: nat) {
    Bridged(k, i) && forall j :: 0 < j < |k| && Parent(j) != i ==> k[Parent(j)] <= k[j]
  }

  lemma SwapDown(k: seq<int>, i: nat, c: nat)
    requires OrderedBut(k, i) && Bridged(k, i) && 0 < c < |k| && Parent(c) == i && k[c] < k[i]
    requires forall s :: 0 < s < |k| && Parent(s) == i ==> k[c] <= k[s]
    ensures OpenBelow(Swapped(k, i, c), c)
  {
    var r := Swapped(k, i, c);
    forall j | 0 < j < |r| && Parent(j) != c ensures r[Parent(j)] <= r[j] {
      if j == i { assert k[Parent(i)] <= k[c]; }
    }
    forall j | 0 < j < |r| && Parent(j) == c ensures r[Parent(c)] <= r[j] {
      assert k[Parent(j)] <= k[j];
    }
  }

  lemma SwapUp(k: seq<int>, i: nat)
    requires 0 < i < |k| && OpenAbove(k, i) && k[i] < k[Parent(i)]
    ensures OpenAbove(Swapped(k, Parent(i), i), Parent(i))
  {
    var p := Parent(i);
    var r := Swapped(k, p, i);
    forall j | 0 < j < |r| && j != p ensures r[Parent(j)] <= r[j] {
      assert Parent(j) == i ==> k[p] <= k[j];
      assert j != i ==> k[Parent(j)] <= k[j];
    }
    forall j | 0 < j < |r| && Parent(j) == p && 0 < p ensures r[Parent(p)] <= r[j] {
      assert k[Parent(p)] <= k[p];
      assert j != i ==> k[p] <= k[j];
    }
  }

  /** Changing what is at one place, and dropping a tail. */
  lemma Replaced(k: seq<int>, r: seq<int>, i: nat)
    requires Ordered(k) && |r| <= |k| && forall j :: 0 <= j < |r| && j != i ==> r[j] == k[j]
    ensures OrderedBut(r, i) && Bridged(r, i)
  {
    forall j | 0 < j < |r| && Parent(j) == i && 0 < i ensures r[Parent(i)] <= r[j] {
      assert k[Parent(j)] <= k[j] && k[Parent(i)] <= k[i];
    }
  }

  /** The head is the least. */
  lemma {:induction false} HeadIsLeast(k: seq<int>, i: nat)
    requires Ordered(k) && i < |k|
    ensures k[0] <= k[i]
  {
    if i > 0 { HeadIsLeast(k, Parent(i)); }
  }
}
