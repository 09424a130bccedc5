/**
  The least-recently-used pruning of buildscripts/scons_cache_prune.py.

  The directory listing is an input, and so is the outcome of removing a file:
  `removable(path)` says whether both the rename and the removal succeed.
*/
module CachePrune {

  datatype Item = Item(path: string, time: real, size: nat)

  const GIGABYTES: nat := 1024 * 1024 * 1024

  function Total(items: seq<Item>): nat {
    if items == [] then 0 else Total(items[..|items| - 1]) + items[|items| - 1].size
  }

  // ----- Sorting by time, newest first

  ghost predicate NewestFirst(items: seq<Item>) {
    forall i, j :: 0 <= i < j < |items| ==> items[i].time >= items[j].time
  }

  /** Behind every item that is not older, as a stable reverse sort does. */
  function Insert(items: seq<Item>, x: Item): seq<Item> {
    if items == [] || items[|items| - 1].time >= x.time then items + [x]
    else Insert(items[..|items| - 1], x) + [items[|items| - 1]]
  }

  function Sorted(items: seq<Item>): seq<Item> {
    if items == [] then [] else Insert(Sorted(items[..|items| - 1]), items[|items| - 1])
  }

  lemma {:induction false} InsertAtLeast(items: seq<Item>, x: Item, t: real)
    requires x.time >= t && forall i :: 0 <= i < |items| ==> items[i].time >= t
    ensures forall i :: 0 <= i < |Insert(items, x)| ==> Insert(items, x)[i].time >= t
  {
    if items != [] && items[|items| - 1].time < x.time { InsertAtLeast(items[..|items| - 1], x, t); }
  }

  lemma {:induction false} InsertSorted(items: seq<Item>, x: Item)
    requires NewestFirst(items)
    ensures NewestFirst(Insert(items, x))
  {
    if items != [] && items[|items| - 1].time < x.time {
      var last := |items| - 1;
      InsertSorted(items[..last], x);
      InsertAtLeast(items[..last], x, items[last].time);
    }
  }

  lemma {:induction false} InsertAdds(items: seq<Item>, x: Item)
    ensures multiset(Insert(items, x)) == multiset(items) + multiset{x}
  {
    if items != [] && items[|items| - 1].time < x.time {
      InsertAdds(items[..|items| - 1], x);
      assert items == items[..|items| - 1] + [items[|items| - 1]];
    }
  }

  /** The sort gives a permutation with the newest first. */
  lemma {:induction false} SortedSound(items: seq<Item>)
    ensures NewestFirst(Sorted(items)) && multiset(Sorted(items)) == multiset(items)
  {
    if items != [] {
      var last := |items| - 1;
      SortedSound(items[..last]);
      InsertSorted(Sorted(items[..last]), items[last]);
      InsertAdds(Sorted(items[..last]), items[last]);
      assert items == items[..last] + [items[last]];
    }
  }

  function IfOfTime(x: Item, time: real): seq<Item> {
    if x.time == time then [x] else []
  }

  /** The items of one time, in the order listed. */
  function OfTime(items: seq<Item>, time: real): seq<Item> {
    if items == [] then [] else OfTime(items[..|items| - 1], time) + IfOfTime(items[|items| - 1], time)
  }

  lemma OfTimeLast(items: seq<Item>, x: Item, time: real)
    ensures OfTime(items + [x], time) == OfTime(items, time) + IfOfTime(x, time)
  {
    assert (items + [x])[..|items|] == items;
  }

  lemma OneIsEmpty<T>(a: seq<T>, b: seq<T>, c: seq<T>)
    requires b == [] || c == []
    ensures a + b + c == a + c + b
  {
    assert a + [] == a && a + b + [] == a + b && a + c + [] == a + c;
  }

  lemma {:induction false} InsertStable(items: seq<Item>, x: Item, time: real)
    ensures OfTime(Insert(items, x), time) == OfTime(items, time) + IfOfTime(x, time)
  {
    if items == [] || items[|items| - 1].time >= x.time {
      OfTimeLast(items, x, time);
    } else {
      var front, last := items[..|items| - 1], items[|items| - 1];
      InsertStable(front, x, time);
      OfTimeLast(Insert(front, x), last, time);
      OneIsEmpty(OfTime(front, time), IfOfTime(x, time), IfOfTime(last, time));
    }
  }

  /** Items of the same time keep the order of the listing. */
  lemma {:induction false} SortedStable(items: seq<Item>, time: real)
    ensures OfTime(Sorted(items), time) == OfTime(items, time)
  {
    if items != [] {
      SortedStable(items[..|items| - 1], time);
      InsertStable(Sorted(items[..|items| - 1]), items[|items| - 1], time);
    }
  }

  // ----- What is removed

  /** Sizes of the items whose removal succeeds. */
  function Freed(items: seq<Item>, removable: string -> bool): nat {
    if items == [] then 0
    else Freed(items[..|items| - 1], removable) +
         if removable(items[|items| - 1].path) then items[|items| - 1].size else 0
  }

  lemma {:induction false} FreedSplit(items: seq<Item>, k: nat, removable: string -> bool)
    requires k <= |items|
    ensures Freed(items, removable) == Freed(items[..k], removable) + Freed(items[k..], removable)
    decreases |items|
  {
    if k < |items| {
      var last := |items| - 1;
      FreedSplit(items[..last], k, removable);
      assert items[..last][..k] == items[..k] && items[..last][k..] == items[k..][..last - k];
    } else {
      assert items[..k] == items;
    }
  }

  lemma {:induction false} FreedBound(items: seq<Item>, removable: string -> bool)
    ensures Freed(items, removable) <= Total(items)
    ensures (forall x :: x in items ==> removable(x.path)) ==> Freed(items, removable) == Total(items)
  {
    if items != [] {
      FreedBound(items[..|items| - 1], removable);
      assert items == items[..|items| - 1] + [items[|items| - 1]];
    }
  }

  /** The total that is left of `total` when the items of `sorted` from `k` on have been tried. */
  function Left(total: int, sorted: seq<Item>, k: nat, removable: string -> bool): int
    requires k <= |sorted|
  {
    total - Freed(sorted[k..], removable)
  }

  predicate Over(total: int, target: real) {
    total as real >= target
  }

  function Quota(sizeGb: int): int {
    sizeGb * GIGABYTES
  }

  function Target(sizeGb: int, ratio: real): real {
    Quota(sizeGb) as real * ratio
  }

  /** The bytes meant: 2^30 to the gigabyte, and a ratio of 1 means the whole quota. */
  lemma BytesMeant(sizeGb: int, ratio: real)
    ensures Quota(sizeGb) == sizeGb * 1073741824
    ensures Target(sizeGb, ratio) == Target(sizeGb, 1.0) * ratio && Target(sizeGb, 1.0) == Quota(sizeGb) as real
  {
  }

  /** What one pruning does: whether it succeeded, the items not tried, the final total, and the whole-cache wipe. */
  datatype Outcome = Outcome(ok: bool, untried: seq<Item>, total: int, wiped: bool)

  /**
    The oldest are tried first, the total drops by exactly what was removed, one
    try fewer would have left the total over the target, and the wipe happens
    only when nothing is left to try.
  */
  ghost predicate Trimmed(total: int, sorted: seq<Item>, target: real, removable: string -> bool, r: Outcome) {
    var n := |r.untried|;
    && n <= |sorted| && r.untried == sorted[..n]
    && r.total == Left(total, sorted, n, removable)
    && (forall k :: n < k <= |sorted| ==> Over(Left(total, sorted, k, removable), target))
    && r.wiped == !r.ok
    && (if r.ok then !Over(r.total, target) else n == 0 && Over(r.total, target))
  }

  /** Removing all that can be removed leaves less than the target. */
  predicate Reachable(listing: seq<Item>, target: real, removable: string -> bool) {
    Suffices(Total(listing), listing, target, removable)
  }

  predicate Suffices(total: int, items: seq<Item>, target: real, removable: string -> bool) {
    !Over(total - Freed(items, removable), target)
  }

  lemma SortedSuffices(listing: seq<Item>, total: int, target: real, removable: string -> bool)
    ensures Suffices(total, Sorted(listing), target, removable) <==> Suffices(total, listing, target, removable)
  {
    FreedSame(listing, removable);
  }

  // ----- The code

  method PruneCache(listing: seq<Item>, sizeGb: int, ratio: real, removable: string -> bool) returns (r: Outcome)
    ensures Total(listing) < Quota(sizeGb) ==> r == Outcome(true, listing, Total(listing), false)
    ensures Total(listing) >= Quota(sizeGb) ==>
              Trimmed(Total(listing), Sorted(listing), Target(sizeGb, ratio), removable, r)
    ensures r.ok <==> Total(listing) < Quota(sizeGb) || Reachable(listing, Target(sizeGb, ratio), removable)
    ensures AllRemovable(listing, removable) ==>
              (r.wiped <==> Total(listing) >= Quota(sizeGb) && !SameSign(sizeGb, ratio))
  {
    TargetReachable(listing, sizeGb, ratio, removable);
    r := PruneTo(listing, Quota(sizeGb), Target(sizeGb, ratio), removable);
  }

  method PruneTo(listing: seq<Item>, quota: int, target: real, removable: string -> bool) returns (r: Outcome)
    ensures Total(listing) < quota ==> r == Outcome(true, listing, Total(listing), false)
    ensures Total(listing) >= quota ==> Trimmed(Total(listing), Sorted(listing), target, removable, r)
    ensures r.ok <==> Total(listing) < quota || Reachable(listing, target, removable)
    ensures r.wiped == !r.ok
  {
    var totalSize := SumSizes(listing);
    if totalSize >= quota {
      SortedSuffices(listing, totalSize, target, removable);
      r := Trim(totalSize, Sorted(listing), target, removable);
    } else {
      r := Outcome(true, listing, totalSize, false);
    }
  }

  method Trim(total: int, sorted: seq<Item>, target: real, removable: string -> bool) returns (r: Outcome)
    ensures Trimmed(total, sorted, target, removable, r)
    ensures r.ok <==> Suffices(total, sorted, target, removable)
  {
    var totalSize, contents := total, sorted;
    while Over(totalSize, target)
      invariant |contents| <= |sorted| && contents == sorted[..|contents|]
      invariant totalSize == Left(total, sorted, |contents|, removable)
      invariant forall k :: |contents| < k <= |sorted| ==> Over(Left(total, sorted, k, removable), target)
      decreases |contents|
    {
      if |contents| == 0 {
        assert sorted[0..] == sorted;
        return Outcome(false, contents, totalSize, true);
      }
      var item := contents[|contents| - 1];
      LeftStep(total, sorted, |contents| - 1, removable);
      contents := contents[..|contents| - 1];
      if removable(item.path) {
        totalSize := totalSize - item.size;
      }
    }
    LeftLeast(total, sorted, |contents|, removable);
    r := Outcome(true, contents, totalSize, false);
  }

  method SumSizes(items: seq<Item>) returns (total: nat)
    ensures total == Total(items)
  {
    total := 0;
    for i := 0 to |items|
      invariant total == Total(items[..i])
    {
      assert items[..i + 1][..i] == items[..i];
      total := total + items[i].size;
    }
    assert items[..|items|] == items;
  }

  lemma LeftStep(total: int, sorted: seq<Item>, k: nat, removable: string -> bool)
    requires k < |sorted|
    ensures Left(total, sorted, k, removable) ==
            Left(total, sorted, k + 1, removable) - if removable(sorted[k].path) then sorted[k].size else 0
  {
    FreedSplit(sorted[k..], 1, removable);
    assert sorted[k..][..1] == [sorted[k]] && sorted[k..][1..] == sorted[k + 1..];
    assert [sorted[k]][..0] == [];
  }

  /** Trying more items never leaves more. */
  lemma LeftLeast(total: int, sorted: seq<Item>, k: nat, removable: string -> bool)
    requires k <= |sorted|
    ensures total - Freed(sorted, removable) <= Left(total, sorted, k, removable)
  {
    FreedSplit(sorted, k, removable);
  }

  lemma {:induction false} FreedInsert(items: seq<Item>, x: Item, removable: string -> bool)
    ensures Freed(Insert(items, x), removable) ==
            Freed(items, removable) + if removable(x.path) then x.size else 0
  {
    if items == [] || items[|items| - 1].time >= x.time {
      assert (items + [x])[..|items|] == items;
    } else {
      var last := |items| - 1;
      FreedInsert(items[..last], x, removable);
      var r := Insert(items[..last], x);
      assert (r + [items[last]])[..|r|] == r;
    }
  }

  lemma {:induction false} FreedSame(items: seq<Item>, removable: string -> bool)
    ensures Freed(Sorted(items), removable) == Freed(items, removable)
  {
    if items != [] {
      var last := |items| - 1;
      FreedSame(items[..last], removable);
      FreedInsert(Sorted(items[..last]), items[last], removable);
    }
  }

  // ----- When every removal succeeds

  ghost predicate AllRemovable(listing: seq<Item>, removable: string -> bool) {
    forall x :: x in listing ==> removable(x.path)
  }

  predicate SameSign(sizeGb: int, ratio: real) {
    (sizeGb > 0 && ratio > 0.0) || (sizeGb < 0 && ratio < 0.0)
  }

  lemma SignOfTarget(sizeGb: int, ratio: real)
    ensures Target(sizeGb, ratio) > 0.0 <==> SameSign(sizeGb, ratio)
  {
    SignOfProduct(Quota(sizeGb) as real, ratio);
  }

  lemma SignOfProduct(a: real, b: real)
    ensures a * b > 0.0 <==> (a > 0.0 && b > 0.0) || (a < 0.0 && b < 0.0)
  {
    if a > 0.0 && b <= 0.0 { assert a * b <= 0.0; }
    if a < 0.0 && b >= 0.0 { assert a * b <= 0.0; }
  }

  /** When every removal succeeds, what is left in the end is under the target exactly when the target is positive. */
  lemma TargetReachable(listing: seq<Item>, sizeGb: int, ratio: real, removable: string -> bool)
    ensures AllRemovable(listing, removable) ==>
              (Reachable(listing, Target(sizeGb, ratio), removable) <==> SameSign(sizeGb, ratio))
  {
    FreedBound(listing, removable);
    SignOfTarget(sizeGb, ratio);
  }
}
