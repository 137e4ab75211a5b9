/**
 Removal of occluded elements. An element is dropped when an element painted after it covers
 it, even one that has itself been dropped.
 */
module PaintOrder {
  import opened StableSort

  datatype Rect = Rect(x: real, y: real, width: real, height: real)

  datatype Item = Item(index: int, paintOrder: int, box: Rect)

  predicate FullyContained(a: Rect, b: Rect)
  {
    a.x >= b.x && a.y >= b.y && a.x + a.width <= b.x + b.width && a.y + a.height <= b.y + b.height
  }

  ghost predicate HasPoint(r: Rect, x: real, y: real)
  {
    r.x <= x <= r.x + r.width && r.y <= y <= r.y + r.height
  }

  /** A rectangle of no negative size is contained exactly if all its points are. */
  lemma ContainmentOfPoints(a: Rect, b: Rect)
    requires a.width >= 0.0 && a.height >= 0.0
    ensures FullyContained(a, b) <==> forall x, y :: HasPoint(a, x, y) ==> HasPoint(b, x, y)
  {
    if forall x, y :: HasPoint(a, x, y) ==> HasPoint(b, x, y) {
      assert HasPoint(a, a.x, a.y) && HasPoint(a, a.x + a.width, a.y + a.height);
    }
  }

  lemma ContainmentIsTransitive(a: Rect, b: Rect, c: Rect)
    requires FullyContained(a, b) && FullyContained(b, c)
    ensures FullyContained(a, c)
  {
  }

  // ---------------------------------------------------------------- descending paint order

  function PaintKey(): Item -> int
  {
    (e: Item) => e.paintOrder
  }

  function SortByPaint(es: seq<Item>): seq<Item>
  {
    Sort(PaintKey(), es)
  }

  // ---------------------------------------------------------------- filtering

  ghost predicate DistinctIndices(es: seq<Item>)
  {
    forall i, j :: 0 <= i < j < |es| ==> es[i].index != es[j].index
  }

  ghost predicate Occluded(sorted: seq<Item>, i: nat)
    requires i < |sorted|
  {
    exists j :: 0 <= j < i && FullyContained(sorted[i].box, sorted[j].box)
  }

  method IsOccluded(sorted: seq<Item>, i: nat) returns (r: bool)
    requires i < |sorted|
    ensures r <==> Occluded(sorted, i)
  {
    for j := 0 to i
      invariant forall k :: 0 <= k < j ==> !FullyContained(sorted[i].box, sorted[k].box)
    {
      if FullyContained(sorted[i].box, sorted[j].box) {
        return true;
      }
    }
    return false;
  }

  /** The first `n` sorted elements that are not occluded, and those that are. */
  ghost function KeptOf(sorted: seq<Item>, n: nat): seq<Item>
    requires n <= |sorted|
  {
    if n == 0 then [] else KeptOf(sorted, n - 1) + if Occluded(sorted, n - 1) then [] else [sorted[n - 1]]
  }

  ghost function DroppedOf(sorted: seq<Item>, n: nat): seq<Item>
    requires n <= |sorted|
  {
    if n == 0 then [] else DroppedOf(sorted, n - 1) + if Occluded(sorted, n - 1) then [sorted[n - 1]] else []
  }

  ghost predicate IsSplit(kept: seq<Item>, dropped: seq<Item>, all: seq<Item>)
  {
    multiset(kept) + multiset(dropped) == multiset(all)
  }

  lemma SplitOne(kept: seq<Item>, dropped: seq<Item>, all: seq<Item>, e: Item, hidden: bool)
    requires IsSplit(kept, dropped, all)
    ensures IsSplit(kept + (if hidden then [] else [e]), dropped + (if hidden then [e] else []), all + [e])
  {
    assert kept + [] == kept && dropped + [] == dropped;
  }

  /** Every element is either kept or dropped. */
  lemma {:induction false} Partition(sorted: seq<Item>, n: nat)
    requires n <= |sorted|
    ensures IsSplit(KeptOf(sorted, n), DroppedOf(sorted, n), sorted[..n])
  {
    if n > 0 {
      Partition(sorted, n - 1);
      PartitionNext(sorted, n - 1);
    }
  }

  lemma PartitionNext(sorted: seq<Item>, n: nat)
    requires n < |sorted| && IsSplit(KeptOf(sorted, n), DroppedOf(sorted, n), sorted[..n])
    ensures IsSplit(KeptOf(sorted, n + 1), DroppedOf(sorted, n + 1), sorted[..n + 1])
  {
    assert sorted[..n + 1] == sorted[..n] + [sorted[n]];
    SplitOne(KeptOf(sorted, n), DroppedOf(sorted, n), sorted[..n], sorted[n], Occluded(sorted, n));
  }

  ghost predicate Covers(top: Item, e: Item)
  {
    FullyContained(e.box, top.box) && e.paintOrder <= top.paintOrder
  }

  /** Some kept element, painted no earlier, contains `e`. */
  ghost predicate CoveredBy(e: Item, kept: seq<Item>)
  {
    exists k :: 0 <= k < |kept| && Covers(kept[k], e)
  }

  lemma CoverGrows(e: Item, kept: seq<Item>, more: seq<Item>)
    requires CoveredBy(e, kept)
    ensures CoveredBy(e, kept + more)
  {
    var k :| 0 <= k < |kept| && Covers(kept[k], e);
    assert (kept + more)[k] == kept[k];
  }

  /** Every element, dropped or not, lies inside one that is kept: occlusion chains end at a survivor. */
  lemma {:induction false} SurvivorsCover(sorted: seq<Item>, n: nat)
    requires n <= |sorted| && Descending(PaintKey(), sorted)
    ensures forall i :: 0 <= i < n ==> CoveredBy(sorted[i], KeptOf(sorted, n))
  {
    if n > 0 {
      SurvivorsCover(sorted, n - 1);
      var before, e := KeptOf(sorted, n - 1), sorted[n - 1];
      if Occluded(sorted, n - 1) {
        var j :| 0 <= j < n - 1 && FullyContained(e.box, sorted[j].box);
        assert CoveredBy(sorted[j], before);
        var m :| 0 <= m < |before| && Covers(before[m], sorted[j]);
        ContainmentIsTransitive(e.box, sorted[j].box, before[m].box);
        assert PaintKey()(e) <= PaintKey()(sorted[j]);
        assert Covers(before[m], e);
        assert before + [] == before;
      } else {
        assert (before + [e])[|before|] == e && Covers(e, e);
        forall i | 0 <= i < n - 1
          ensures CoveredBy(sorted[i], before + [e])
        {
          CoverGrows(sorted[i], before, [e]);
        }
      }
    }
  }

  lemma {:induction false} KeptAreScanned(sorted: seq<Item>, n: nat, k: nat) returns (i: nat)
    requires n <= |sorted| && k < |KeptOf(sorted, n)|
    ensures i < n && sorted[i] == KeptOf(sorted, n)[k]
  {
    if k < |KeptOf(sorted, n - 1)| {
      i := KeptAreScanned(sorted, n - 1, k);
    } else {
      i := n - 1;
    }
  }

  /** Nothing that is kept lies inside another kept element painted above it. */
  lemma {:induction false} NothingKeptIsHidden(sorted: seq<Item>, n: nat, i: nat, j: nat)
    requires n <= |sorted| && i < j < |KeptOf(sorted, n)|
    ensures !FullyContained(KeptOf(sorted, n)[j].box, KeptOf(sorted, n)[i].box)
  {
    if j < |KeptOf(sorted, n - 1)| {
      NothingKeptIsHidden(sorted, n - 1, i, j);
    } else {
      var k := KeptAreScanned(sorted, n - 1, i);
      assert !Occluded(sorted, n - 1);
    }
  }

  /** The scan with its set of excluded indices. */
  method FilterSorted(sorted: seq<Item>) returns (kept: seq<Item>, excluded: set<int>)
    requires DistinctIndices(sorted)
    ensures kept == KeptOf(sorted, |sorted|) && |excluded| == |DroppedOf(sorted, |sorted|)|
  {
    kept, excluded := [], {};
    for i := 0 to |sorted|
      invariant kept == KeptOf(sorted, i) && |excluded| == |DroppedOf(sorted, i)|
      invariant forall x :: x in excluded ==> exists k :: 0 <= k < i && sorted[k].index == x
    {
      var current := sorted[i];
      if current.index in excluded {
        assert false;
      }
      var occluded := IsOccluded(sorted, i);
      if !occluded {
        kept := kept + [current];
      } else {
        assert kept + [] == kept;
        excluded := excluded + {current.index};
      }
    }
  }

  lemma {:induction false} PermutationKeepsDistinct(a: seq<Item>, b: seq<Item>)
    requires multiset(a) == multiset(b) && DistinctIndices(a)
    ensures DistinctIndices(b)
  {
    forall i, j | 0 <= i < j < |b|
      ensures b[i].index != b[j].index
    {
      assert b[i] in multiset(b) && b[j] in multiset(b);
      var p :| 0 <= p < |a| && a[p] == b[i];
      var q :| 0 <= q < |a| && a[q] == b[j];
      if b[i] == b[j] {
        TwiceInSeq(b, i, j);
        OnceInSeq(a, p);
      }
    }
  }

  lemma TwiceInSeq(s: seq<Item>, i: nat, j: nat)
    requires i < j < |s| && s[i] == s[j]
    ensures multiset(s)[s[i]] >= 2
  {
    assert s == s[..j] + s[j..];
    assert s[i] in s[..j] && s[j] in s[j..];
  }

  lemma OnceInSeq(s: seq<Item>, p: nat)
    requires DistinctIndices(s) && p < |s|
    ensures multiset(s)[s[p]] == 1
  {
    assert s == s[..p] + [s[p]] + s[p + 1..];
    assert s[p] !in s[..p] && s[p] !in s[p + 1..];
  }

  /**
   For elements with distinct indices: kept and dropped together are the input, the reported
   count is the number dropped, every element lies inside a survivor painted no earlier, and no
   survivor lies inside one listed before it.
   */
  method FilterByPaintOrder(es: seq<Item>) returns (kept: seq<Item>, filteredCount: nat, ghost dropped: seq<Item>)
    requires DistinctIndices(es)
    ensures multiset(kept) + multiset(dropped) == multiset(es)
    ensures filteredCount == |dropped| && |kept| + filteredCount == |es|
    ensures forall e :: e in es ==> CoveredBy(e, kept)
    ensures forall i, j :: 0 <= i < j < |kept| ==> !FullyContained(kept[j].box, kept[i].box)
  {
    var sorted := SortByPaint(es);
    SortIsStable(PaintKey(), es);
    PermutationKeepsDistinct(es, sorted);
    var n := |sorted|;
    Partition(sorted, n);
    SurvivorsCover(sorted, n);
    assert sorted[..n] == sorted;
    var excluded;
    kept, excluded := FilterSorted(sorted);
    dropped := DroppedOf(sorted, n);
    filteredCount := |excluded|;
    assert |multiset(sorted)| == |multiset(es)| && |multiset(kept) + multiset(dropped)| == |kept| + |dropped|;
    forall i, j | 0 <= i < j < |kept|
      ensures !FullyContained(kept[j].box, kept[i].box)
    {
      NothingKeptIsHidden(sorted, n, i, j);
    }
    forall e | e in es
      ensures CoveredBy(e, kept)
    {
      assert e in multiset(sorted);
    }
  }
}
