/** The scope of a certificate: which apps and data centers it covers and until
when.  A parameter is a sorted list; a list with the single invalid item stands
for "all". */
module CertScope {

  /** `T(-1)` for a 32-bit item type. */
  const INVALID_ITEM: nat := 0xFFFF_FFFF

  datatype Param = Param(items: seq<nat>) {
    predicate IsEmpty() {
      items == []
    }

    predicate IsAll() {
      |items| == 1 && items[0] == INVALID_ITEM
    }

    /** `HasItem`, which looks x up by binary search in a sorted list. */
    predicate Permits(x: nat) {
      IsAll() || x in items
    }
  }

  const ALL_ITEMS := Param([INVALID_ITEM])

  /** Strictly increasing. */
  ghost predicate Sorted(s: seq<nat>) {
    forall i, j :: 0 <= i < j < |s| ==> s[i] < s[j]
  }

  ghost predicate Ascending(s: seq<nat>) {
    forall i, j :: 0 <= i < j < |s| ==> s[i] <= s[j]
  }

  /** What the representation is meant to be: "all", or a list without the
  invalid item. */
  ghost predicate Clean(p: Param) {
    p.IsAll() || INVALID_ITEM !in p.items
  }

  // ---------------------------------------------------------------- intersection

  /** The items of a that are in b, in the order of a. */
  function Common(a: seq<nat>, b: seq<nat>): seq<nat> {
    if a == [] then []
    else
      var last := a[|a| - 1];
      Common(a[..|a| - 1], b) + (if last in b then [last] else [])
  }

  function Intersect(a: Param, b: Param): Param {
    if a.IsAll() then b
    else if b.IsAll() then a
    else Param(Common(a.items, b.items))
  }

  lemma {:induction false} CommonMembers(a: seq<nat>, b: seq<nat>, x: nat)
    ensures x in Common(a, b) <==> x in a && x in b
  {
    if a != [] {
      CommonMembers(a[..|a| - 1], b, x);
      assert a == a[..|a| - 1] + [a[|a| - 1]];
    }
  }

  lemma {:induction false} CommonSorted(a: seq<nat>, b: seq<nat>)
    requires Sorted(a)
    ensures Sorted(Common(a, b))
  {
    if a != [] {
      var front, last := a[..|a| - 1], a[|a| - 1];
      CommonSorted(front, b);
      var c := Common(front, b);
      forall k | 0 <= k < |c| ensures c[k] < last {
        CommonMembers(front, b, c[k]);
        assert c[k] in front;
      }
    }
  }

  /** Advancing past an item of a that is not in b. */
  lemma CommonSkip(a: seq<nat>, b: seq<nat>, i: nat)
    requires i < |a|
    ensures Common(a[..i + 1], b) == Common(a[..i], b) + (if a[i] in b then [a[i]] else [])
  {
    assert a[..i + 1][..i] == a[..i];
  }

  /** No item of a from index i on is in b. */
  lemma {:induction false} CommonRest(a: seq<nat>, b: seq<nat>, i: nat)
    requires i <= |a| && forall k :: i <= k < |a| ==> a[k] !in b
    ensures Common(a, b) == Common(a[..i], b)
    decreases |a| - i
  {
    if i == |a| {
      assert a[..i] == a;
    } else {
      CommonSkip(a, b, i);
      CommonRest(a, b, i + 1);
    }
  }

  /** Every later item of a is above all of b. */
  lemma AboveAll(a: seq<nat>, b: seq<nat>, i: nat)
    requires Sorted(a) && i < |a| && forall k :: 0 <= k < |b| ==> b[k] < a[i]
    ensures Common(a, b) == Common(a[..i], b)
  {
    CommonRest(a, b, i);
  }

  /** The scan of two sorted lists in parallel. */
  method Merge(a: seq<nat>, b: seq<nat>) returns (r: seq<nat>)
    requires Sorted(a) && Sorted(b) && a != [] && b != []
    ensures r == Common(a, b)
  {
    r := [];
    var i, j := 0, 0;
    while true
      invariant 0 <= i < |a| && 0 <= j < |b|
      invariant r == Common(a[..i], b)
      invariant forall k :: 0 <= k < j ==> b[k] < a[i]
      decreases |a| - i + |b| - j
    {
      var va, vb := a[i], b[j];
      if va < vb {
        CommonSkip(a, b, i);
        i := i + 1;
        if i == |a| { break; }
      } else if vb < va {
        j := j + 1;
        if j == |b| { AboveAll(a, b, i); break; }
      } else {
        CommonSkip(a, b, i);
        r := r + [va];
        i := i + 1;
        if i == |a| { break; }
        j := j + 1;
        if j == |b| { AboveAll(a, b, i); break; }
      }
    }
    assert i == |a| ==> a[..i] == a;
  }

  /** `CertAuthParameter::SetIntersection` */
  method SetIntersection(a: Param, b: Param) returns (r: Param)
    requires Sorted(a.items) && Sorted(b.items) && !a.IsEmpty() && !b.IsEmpty()
    ensures r == Intersect(a, b)
    ensures Sorted(r.items)
  {
    if a.IsAll() { return b; }
    if b.IsAll() { return a; }
    CommonSorted(a.items, b.items);
    var items := Merge(a.items, b.items);
    r := Param(items);
  }

  /** On lists as they are meant to be, the intersection permits exactly what both
  permit. */
  lemma IntersectPermits(a: Param, b: Param, x: nat)
    requires Clean(a) && Clean(b) && x != INVALID_ITEM
    ensures Intersect(a, b).Permits(x) <==> a.Permits(x) && b.Permits(x)
    ensures Clean(Intersect(a, b))
  {
    CommonMembers(a.items, b.items, x);
    CommonMembers(a.items, b.items, INVALID_ITEM);
    var r := Intersect(a, b);
    if r.IsAll() { assert r.items[0] in r.items; }
  }

  /** The lists have an item in common that is a real one. */
  ghost predicate ShareItem(a: Param, b: Param) {
    exists x :: x != INVALID_ITEM && x in a.items && x in b.items
  }

  /** The lists for which the intersection is exact, whatever they hold: it is
  wrong only when neither list is "all", both hold the invalid item, and they share
  no other, because the result then reads as "all". */
  lemma IntersectExactly(a: Param, b: Param)
    requires Sorted(a.items)
    ensures (forall x: nat :: x != INVALID_ITEM ==>
               (Intersect(a, b).Permits(x) <==> a.Permits(x) && b.Permits(x)))
            <==> (a.IsAll() || b.IsAll() || INVALID_ITEM !in a.items || INVALID_ITEM !in b.items || ShareItem(a, b))
  {
    IntersectWrongly(a, b);
    var r := Intersect(a, b);
    if !a.IsAll() && !b.IsAll() {
      forall x: nat ensures x in r.items <==> x in a.items && x in b.items { CommonMembers(a.items, b.items, x); }
      if r.IsAll() {
        assert 0 !in r.items;
        assert r.Permits(0) && !(a.Permits(0) && b.Permits(0));
      }
    }
  }

  /** When the intersection of two lists that are not "all" reads as "all". */
  lemma IntersectWrongly(a: Param, b: Param)
    requires Sorted(a.items)
    ensures !a.IsAll() && !b.IsAll() ==>
              (Intersect(a, b).IsAll() <==> INVALID_ITEM in a.items && INVALID_ITEM in b.items && !ShareItem(a, b))
  {
    if !a.IsAll() && !b.IsAll() {
      var r := Intersect(a, b);
      forall x: nat ensures x in r.items <==> x in a.items && x in b.items { CommonMembers(a.items, b.items, x); }
      CommonSorted(a.items, b.items);
      if r.IsAll() {
        assert r.items[0] in r.items;
        assert forall x :: x in r.items ==> x == INVALID_ITEM;
      } else if INVALID_ITEM in r.items {
        var x := if r.items[0] == INVALID_ITEM then r.items[1] else r.items[0];
        assert x in r.items;
      }
    }
  }

  /** What a short list has in common with another. */
  lemma OneInCommon(x: nat, b: seq<nat>)
    ensures Common([x], b) == if x in b then [x] else []
  {
    assert [x][..0] == [];
  }

  lemma TwoInCommon(x: nat, y: nat, b: seq<nat>)
    ensures Common([x, y], b) == (if x in b then [x] else []) + (if y in b then [y] else [])
  {
    OneInCommon(x, b);
    assert [x, y][..1] == [x];
  }

  lemma ThreeInCommon(x: nat, y: nat, z: nat, b: seq<nat>)
    ensures Common([x, y, z], b) ==
            (if x in b then [x] else []) + (if y in b then [y] else []) + (if z in b then [z] else [])
  {
    TwoInCommon(x, y, b);
    assert [x, y, z][..2] == [x, y];
  }

  /** Two lists that share the invalid item only permit everything together. */
  lemma SharedInvalidExample()
    ensures var a, b := Param([5, INVALID_ITEM]), Param([7, INVALID_ITEM]);
            Intersect(a, b).Permits(6) && !a.Permits(6) && !b.Permits(6)
  {
    hide Common;
    TwoInCommon(5, INVALID_ITEM, [7, INVALID_ITEM]);
  }

  /** Three lists of which any two share a real item, and that permit everything together. */
  lemma PairwiseSharedExample()
    ensures var a, b, c := Param([1, 2, INVALID_ITEM]), Param([2, 3, INVALID_ITEM]), Param([1, 3, INVALID_ITEM]);
            Intersect(a, b) == Param([2, INVALID_ITEM]) && Intersect(Param([2, INVALID_ITEM]), c) == ALL_ITEMS
  {
    hide Common;
    ThreeInCommon(1, 2, INVALID_ITEM, [2, 3, INVALID_ITEM]);
    TwoInCommon(2, INVALID_ITEM, [1, 3, INVALID_ITEM]);
  }

  // ---------------------------------------------------------------- setup

  ghost predicate SameItems(a: seq<nat>, b: seq<nat>) {
    forall x :: x in a <==> x in b
  }

  /** Where `std::sort` puts one more item. */
  function InsertInOrder(x: nat, s: seq<nat>): seq<nat> {
    if s == [] || x <= s[0] then [x] + s else [s[0]] + InsertInOrder(x, s[1..])
  }

  /** `std::sort` */
  function Sort(s: seq<nat>): seq<nat> {
    if s == [] then [] else InsertInOrder(s[0], Sort(s[1..]))
  }

  lemma {:induction false} InsertIsOrdered(x: nat, s: seq<nat>)
    requires Ascending(s)
    ensures var r := InsertInOrder(x, s); Ascending(r) && (forall y :: y in r <==> y == x || y in s)
  {
    if s != [] && x > s[0] {
      var t := InsertInOrder(x, s[1..]);
      InsertIsOrdered(x, s[1..]);
      assert s == [s[0]] + s[1..];
      forall k | 0 <= k < |t| ensures s[0] <= t[k] { assert t[k] in t; }
    }
  }

  lemma {:induction false} SortIsOrdered(s: seq<nat>)
    ensures Ascending(Sort(s)) && SameItems(Sort(s), s)
  {
    if s != [] {
      SortIsOrdered(s[1..]);
      InsertIsOrdered(s[0], Sort(s[1..]));
      assert s == [s[0]] + s[1..];
    }
  }

  /** Removing one of two equal neighbours. */
  lemma EraseDuplicate(s: seq<nat>, i: int)
    requires 0 < i < |s| && s[i - 1] == s[i] && Ascending(s)
    ensures var r := s[..i] + s[i + 1..];
            Ascending(r) && SameItems(r, s) && r[i - 1..] == s[i..]
  {
    var r := s[..i] + s[i + 1..];
    forall x | x in s ensures x in r {
      var k :| 0 <= k < |s| && s[k] == x;
      if k < i { assert r[k] == x; } else if k > i { assert r[k - 1] == x; } else { assert r[i - 1] == x; }
    }
  }

  /** Erases repeats from the end of a sorted list. */
  method EraseDuplicates(items: seq<nat>) returns (s: seq<nat>)
    requires Ascending(items)
    ensures Sorted(s) && SameItems(s, items)
  {
    s := items;
    var i := |s| - 1;
    while i > 0
      invariant -1 <= i < |s| && (i == -1 ==> s == [])
      invariant Ascending(s) && SameItems(s, items)
      invariant i >= 0 ==> Sorted(s[i..])
      decreases i
    {
      if s[i - 1] == s[i] {
        EraseDuplicate(s, i);
        s := s[..i] + s[i + 1..];
      } else {
        assert s[i - 1..] == [s[i - 1]] + s[i..];
      }
      i := i - 1;
    }
    assert i == 0 ==> s[0..] == s;
  }

  /** `CertAuthParameter::Setup`: sort, then erase duplicates. */
  method Setup(items: seq<nat>) returns (p: Param)
    ensures p.items == SortedSet(items)
  {
    SortIsOrdered(items);
    var s := EraseDuplicates(Sort(items));
    SortedSetItems(items);
    SortedUnique(s, SortedSet(items));
    p := Param(s);
  }

  /** The items without repeats, in increasing order. */
  function SortedSet(items: seq<nat>): (r: seq<nat>) {
    if items == [] then [] else AddItem(items[0], SortedSet(items[1..]))
  }

  function AddItem(x: nat, s: seq<nat>): seq<nat> {
    if s == [] || x < s[0] then [x] + s
    else if x == s[0] then s
    else [s[0]] + AddItem(x, s[1..])
  }

  lemma {:induction false} AddItemItems(x: nat, s: seq<nat>)
    requires Sorted(s)
    ensures Sorted(AddItem(x, s))
    ensures forall y :: y in AddItem(x, s) <==> y == x || y in s
  {
    if s != [] && x > s[0] {
      var r := AddItem(x, s[1..]);
      AddItemItems(x, s[1..]);
      assert s == [s[0]] + s[1..];
      forall y | y in r ensures s[0] < y {
        if y != x { assert y in s[1..]; }
      }
      HeadIsLeast(s[0], r);
    }
  }

  lemma HeadIsLeast(x: nat, r: seq<nat>)
    requires Sorted(r) && forall y :: y in r ==> x < y
    ensures Sorted([x] + r)
  {
    var s := [x] + r;
    assert forall i :: 0 < i < |s| ==> s[i] == r[i - 1] && s[i] in r;
  }

  lemma {:induction false} SortedSetItems(items: seq<nat>)
    ensures Sorted(SortedSet(items)) && SameItems(SortedSet(items), items)
  {
    if items != [] {
      SortedSetItems(items[1..]);
      AddItemItems(items[0], SortedSet(items[1..]));
      assert items == [items[0]] + items[1..];
    }
  }

  /** A strictly increasing list is determined by its items. */
  lemma {:induction false} SortedUnique(a: seq<nat>, b: seq<nat>)
    requires Sorted(a) && Sorted(b) && SameItems(a, b)
    ensures a == b
  {
    assert |b| > 0 ==> b[0] in a;
    if a != [] {
      assert a[0] in a;
      assert b[0] in b;
      assert a[0] == b[0];
      assert a == [a[0]] + a[1..] && b == [b[0]] + b[1..];
      forall x | x in a[1..] ensures x in b[1..] { assert x in a && x in b && a[0] < x; }
      forall x | x in b[1..] ensures x in a[1..] { assert x in b && x in a && b[0] < x; }
      SortedUnique(a[1..], b[1..]);
    }
  }

  // ---------------------------------------------------------------- scopes

  datatype Scope = Scope(pops: Param, apps: Param, expiry: int) {
    predicate IsEmpty() {
      expiry == 0 || apps.IsEmpty() || pops.IsEmpty()
    }
  }

  /** `std::numeric_limits<time_t>::max()` */
  const TIME_MAX: int := 0x7FFF_FFFF_FFFF_FFFF

  const FULL_SCOPE := Scope(ALL_ITEMS, ALL_ITEMS, TIME_MAX)
  const EMPTY_SCOPE := Scope(Param([]), Param([]), 0)

  function Min(a: int, b: int): int {
    if a < b then a else b
  }

  function IntersectScopes(a: Scope, b: Scope): Scope {
    Scope(Intersect(a.pops, b.pops), Intersect(a.apps, b.apps), Min(a.expiry, b.expiry))
  }

  /** Lists sorted and not empty: what every stored scope looks like. */
  ghost predicate WellFormed(s: Scope) {
    Sorted(s.pops.items) && Sorted(s.apps.items) && !s.pops.IsEmpty() && !s.apps.IsEmpty()
  }

  method SetScopeIntersection(a: Scope, b: Scope) returns (r: Scope)
    requires WellFormed(a) && WellFormed(b)
    ensures r == IntersectScopes(a, b)
    ensures Sorted(r.pops.items) && Sorted(r.apps.items)
  {
    var pops := SetIntersection(a.pops, b.pops);
    var apps := SetIntersection(a.apps, b.apps);
    r := Scope(pops, apps, Min(a.expiry, b.expiry));
  }

  lemma IntersectSorted(a: Scope, b: Scope)
    requires WellFormed(a) && WellFormed(b)
    ensures var r := IntersectScopes(a, b); Sorted(r.pops.items) && Sorted(r.apps.items)
  {
    CommonSorted(a.pops.items, b.pops.items);
    CommonSorted(a.apps.items, b.apps.items);
  }
}
