/** Re-numbering of a publication's media items after a removal: the items
    are stably sorted by their `order` and each receives its position in
    that sorted list. The position of an item in the stable sort is its
    rank: the number of items that sort before it. */
module MediaOrdering {
  import opened MediaItems

  /** Item `j` sorts before item `i`: a smaller order, or an equal order
      and an earlier place in insertion order (the sort is stable). */
  predicate Precedes(items: seq<MediaItem>, j: int, i: int)
    requires 0 <= j < |items| && 0 <= i < |items|
  {
    items[j].order < items[i].order || (items[j].order == items[i].order && j < i)
  }

  function Predecessors(items: seq<MediaItem>, i: int): set<int>
    requires 0 <= i < |items|
  {
    set j | 0 <= j < |items| && Precedes(items, j, i)
  }

  /** Position of item `i` in the stable sort by order. */
  function Rank(items: seq<MediaItem>, i: int): nat
    requires 0 <= i < |items|
  {
    |Predecessors(items, i)|
  }

  /** The positions 0..n-1. */
  function Range(n: int): (s: set<int>)
    ensures forall k :: k in s <==> 0 <= k < n
    decreases n
  {
    if n <= 0 then {} else Range(n - 1) + {n - 1}
  }

  /** The distinct order values present in `items`. */
  function OrderValues(items: seq<MediaItem>): set<real> {
    set i | 0 <= i < |items| :: items[i].order
  }

  /** A position used as an order value. */
  function AsOrder(k: int): real {
    k as real
  }

  /** The dense order values 0..n-1. */
  function DenseOrders(n: nat): set<real> {
    set k: int | 0 <= k < n :: AsOrder(k)
  }

  /** `_reorderMediaItems()`: every item, left in place, receives as its
      new order its position in the stable sort by previous order. */
  function Renumber(items: seq<MediaItem>): (r: seq<MediaItem>)
    ensures |r| == |items|
    ensures forall i :: 0 <= i < |r| ==> r[i] == items[i].(order := r[i].order)
    ensures OrderValues(r) == DenseOrders(|r|)
    ensures forall i, j :: 0 <= i < |r| && 0 <= j < |r| ==>
      (r[i].order < r[j].order <==> Precedes(items, i, j))
  {
    var r := seq(|items|, i requires 0 <= i < |items| => items[i].(order := AsOrder(Rank(items, i))));
    RanksAreDense(items);
    assert OrderValues(r) == DenseOrders(|r|) by {
      forall x | x in DenseOrders(|r|) ensures x in OrderValues(r) {
        var k :| 0 <= k < |r| && x == AsOrder(k);
        assert k in Range(|items|);
        var i :| 0 <= i < |items| && Rank(items, i) == k;
        assert r[i].order == x;
      }
      forall x | x in OrderValues(r) ensures x in DenseOrders(|r|) {
        var i :| 0 <= i < |r| && r[i].order == x;
        RankBelowLength(items, i);
        assert x == AsOrder(Rank(items, i));
      }
    }
    forall i, j | 0 <= i < |r| && 0 <= j < |r|
      ensures r[i].order < r[j].order <==> Precedes(items, i, j)
    {
      RankFollowsSort(items, i, j);
    }
    r
  }

  // ---------------------------------------------------------------------
  // Cardinality facts

  lemma SubsetCard(a: set<int>, b: set<int>)
    requires a <= b
    ensures |a| <= |b|
  {
    assert b == a + (b - a);
    assert a * (b - a) == {};
  }

  lemma StrictSubsetCard(a: set<int>, b: set<int>)
    requires a < b
    ensures |a| < |b|
  {
    assert b == a + (b - a);
    assert a * (b - a) == {};
    assert b - a != {};
  }

  lemma {:induction false} RangeCard(n: nat)
    ensures |Range(n)| == n
  {
    if n > 0 {
      RangeCard(n - 1);
    }
  }

  // ---------------------------------------------------------------------
  // Ranks

  lemma RankBelowLength(items: seq<MediaItem>, i: int)
    requires 0 <= i < |items|
    ensures Rank(items, i) < |items|
  {
    assert Predecessors(items, i) <= Range(|items|) - {i};
    SubsetCard(Predecessors(items, i), Range(|items|) - {i});
    RangeCard(|items|);
  }

  /** The rank order is the stable sort order, in both directions. */
  lemma RankFollowsSort(items: seq<MediaItem>, i: int, j: int)
    requires 0 <= i < |items| && 0 <= j < |items|
    ensures Rank(items, i) < Rank(items, j) <==> Precedes(items, i, j)
  {
    if Precedes(items, i, j) {
      RankMonotone(items, i, j);
    } else if i != j {
      assert Precedes(items, j, i);
      RankMonotone(items, j, i);
    }
  }

  lemma RankMonotone(items: seq<MediaItem>, i: int, j: int)
    requires 0 <= i < |items| && 0 <= j < |items|
    requires Precedes(items, i, j)
    ensures Rank(items, i) < Rank(items, j)
  {
    assert i in Predecessors(items, j) - Predecessors(items, i);
    assert Predecessors(items, i) < Predecessors(items, j);
    StrictSubsetCard(Predecessors(items, i), Predecessors(items, j));
  }

  lemma {:induction false} RankImageCard(items: seq<MediaItem>, n: nat)
    requires n <= |items|
    ensures |set i | 0 <= i < n :: Rank(items, i)| == n
  {
    if n > 0 {
      RankImageCard(items, n - 1);
      var prev := set i | 0 <= i < n - 1 :: Rank(items, i);
      assert (set i | 0 <= i < n :: Rank(items, i)) == prev + {Rank(items, n - 1)};
      if Rank(items, n - 1) in prev {
        var i :| 0 <= i < n - 1 && Rank(items, i) == Rank(items, n - 1);
        RankFollowsSort(items, i, n - 1);
        RankFollowsSort(items, n - 1, i);
      }
    }
  }

  /** The ranks are exactly 0..n-1. */
  lemma RanksAreDense(items: seq<MediaItem>)
    ensures (set i | 0 <= i < |items| :: Rank(items, i)) == Range(|items|)
  {
    var ranks := set i | 0 <= i < |items| :: Rank(items, i);
    forall i | 0 <= i < |items| ensures Rank(items, i) in Range(|items|) {
      RankBelowLength(items, i);
    }
    RankImageCard(items, |items|);
    RangeCard(|items|);
    if ranks != Range(|items|) {
      StrictSubsetCard(ranks, Range(|items|));
    }
  }
}
