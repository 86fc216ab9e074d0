/**
 * The reference definition of the re-indexed item list: every item with a
 * numeric location gets, as its new location, its 0-based rank among the
 * located items that share its parent, ordered by old location and, for equal
 * locations, by position in the list (the order a stable ascending sort of a
 * bucket filled in list order produces). Items without a location are kept.
 */
module Ranking {
  import opened Items

  /** Positions in `s` of the located items whose parent key is `k`. */
  function Bucket(s: seq<Item>, k: Option<string>): set<nat>
  {
    set j: nat | j < |s| && Located(s[j]) && s[j].parentId == k
  }

  /** Item `i` sorts strictly before item `j`: smaller location, or equal location and earlier in the list. */
  predicate Before(s: seq<Item>, i: nat, j: nat)
  {
    i < |s| && j < |s| && Located(s[i]) && Located(s[j]) &&
    (s[i].location.value < s[j].location.value ||
     (s[i].location.value == s[j].location.value && i < j))
  }

  /** The items of `i`'s bucket that sort before `i`. */
  function Predecessors(s: seq<Item>, i: nat): set<nat>
    requires i < |s|
  {
    set j | j in Bucket(s, s[i].parentId) && Before(s, j, i)
  }

  /** The 0-based rank of item `i` within its bucket. */
  function Rank(s: seq<Item>, i: nat): nat
    requires i < |s|
  {
    |Predecessors(s, i)|
  }

  /** The item list after one re-indexing pass. */
  function Reindexed(s: seq<Item>): (r: seq<Item>)
    ensures |r| == |s|
    ensures forall i :: 0 <= i < |s| ==> r[i] == s[i].(location := r[i].location)
    ensures forall i :: 0 <= i < |s| ==> (Located(r[i]) <==> Located(s[i]))
    ensures forall i :: 0 <= i < |s| && !Located(s[i]) ==> r[i] == s[i]
  {
    seq(|s|, i requires 0 <= i < |s| =>
      if Located(s[i]) then s[i].(location := Some(Rank(s, i))) else s[i])
  }

  lemma ProperSubsetCard(a: set<nat>, b: set<nat>)
    requires a < b
    ensures |a| < |b|
  {
    var d := b - a;
    assert b == a + d;
    assert a * d == {};
    var x :| x in d;
  }

  /** The set {0, 1, ..., n-1}. */
  function UpTo(n: nat): (r: set<int>)
    ensures forall x :: x in r <==> 0 <= x < n
    ensures |r| == n
  {
    if n == 0 then {} else UpTo(n - 1) + {n - 1}
  }

  /** An item that sorts before another in the same bucket has a strictly smaller rank. */
  lemma RankStrict(s: seq<Item>, i: nat, j: nat)
    requires i < |s| && j < |s| && s[i].parentId == s[j].parentId
    requires Before(s, i, j)
    ensures Rank(s, i) < Rank(s, j)
  {
    assert i in Predecessors(s, j);
    assert i !in Predecessors(s, i);
    assert Predecessors(s, i) <= Predecessors(s, j);
    ProperSubsetCard(Predecessors(s, i), Predecessors(s, j));
  }

  /** Within one bucket, rank order is exactly the sort order. */
  lemma RankOrder(s: seq<Item>, i: nat, j: nat)
    requires i < |s| && j < |s| && Located(s[i]) && Located(s[j])
    requires s[i].parentId == s[j].parentId
    ensures Rank(s, i) < Rank(s, j) <==> Before(s, i, j)
  {
    if Before(s, i, j) {
      RankStrict(s, i, j);
    } else if i != j {
      RankStrict(s, j, i);
    }
  }

  /** Every rank lies below the size of its bucket. */
  lemma RankBelowBucketSize(s: seq<Item>, i: nat)
    requires i < |s| && Located(s[i])
    ensures Rank(s, i) < |Bucket(s, s[i].parentId)|
  {
    assert i !in Predecessors(s, i);
    ProperSubsetCard(Predecessors(s, i), Bucket(s, s[i].parentId));
  }

  lemma {:induction false} RanksOfSubsetCard(s: seq<Item>, k: Option<string>, a: set<nat>)
    requires a <= Bucket(s, k)
    ensures |set i | i in a :: Rank(s, i)| == |a|
    decreases a
  {
    if a != {} {
      var x :| x in a;
      var a' := a - {x};
      RanksOfSubsetCard(s, k, a');
      var img' := set i | i in a' :: Rank(s, i);
      assert (set i | i in a :: Rank(s, i)) == img' + {Rank(s, x)};
      forall i | i in a'
        ensures Rank(s, i) != Rank(s, x)
      {
        RankOrder(s, i, x);
        RankOrder(s, x, i);
      }
      assert Rank(s, x) !in img';
    }
  }

  /** The ranks of a bucket are exactly 0, 1, ..., n-1 where n is its size. */
  lemma DenseRanks(s: seq<Item>, k: Option<string>)
    ensures (set i | i in Bucket(s, k) :: Rank(s, i)) == UpTo(|Bucket(s, k)|)
  {
    var img := set i | i in Bucket(s, k) :: Rank(s, i);
    var range := UpTo(|Bucket(s, k)|);
    forall i | i in Bucket(s, k)
      ensures Rank(s, i) in range
    {
      RankBelowBucketSize(s, i);
    }
    RanksOfSubsetCard(s, k, Bucket(s, k));
    if img != range {
      ProperSubsetCard(img, range);
    }
  }

  /**
   * After the pass, each bucket holds the same items and their locations are
   * exactly {0, 1, ..., n-1}, each used once.
   */
  lemma DenseLocations(s: seq<Item>, k: Option<string>)
    ensures Bucket(Reindexed(s), k) == Bucket(s, k)
    ensures (set i | i in Bucket(s, k) :: Reindexed(s)[i].location.value)
         == UpTo(|Bucket(s, k)|)
    ensures forall i, j :: i in Bucket(s, k) && j in Bucket(s, k) && i != j ==>
              Reindexed(s)[i].location != Reindexed(s)[j].location
  {
    var r := Reindexed(s);
    assert (set i | i in Bucket(s, k) :: r[i].location.value)
        == (set i | i in Bucket(s, k) :: Rank(s, i));
    DenseRanks(s, k);
    forall i, j | i in Bucket(s, k) && j in Bucket(s, k) && i != j
      ensures r[i].location != r[j].location
    {
      RankOrder(s, i, j);
      RankOrder(s, j, i);
    }
  }

  /**
   * Within a bucket the new locations follow the old order: a smaller old
   * location gives a smaller new one, and equal old locations keep list order.
   */
  lemma OrderPreserved(s: seq<Item>, i: nat, j: nat)
    requires i < |s| && j < |s| && Located(s[i]) && Located(s[j])
    requires s[i].parentId == s[j].parentId
    ensures Reindexed(s)[i].location.value < Reindexed(s)[j].location.value <==> Before(s, i, j)
    ensures s[i].location.value < s[j].location.value ==>
              Reindexed(s)[i].location.value < Reindexed(s)[j].location.value
  {
    RankOrder(s, i, j);
  }

  /** A second pass changes nothing. */
  lemma Idempotent(s: seq<Item>)
    ensures Reindexed(Reindexed(s)) == Reindexed(s)
  {
    var r := Reindexed(s);
    forall i | 0 <= i < |r| && Located(r[i])
      ensures Rank(r, i) == Rank(s, i)
    {
      forall j | j in Bucket(s, s[i].parentId)
        ensures Before(r, j, i) <==> Before(s, j, i)
      {
        RankOrder(s, j, i);
        RankOrder(s, i, j);
      }
      assert Bucket(r, r[i].parentId) == Bucket(s, s[i].parentId);
      assert Predecessors(r, i) == Predecessors(s, i);
    }
    assert Reindexed(r) == r;
  }
}

/** Worked scenarios for the reference definition. */
module RankingScenarios {
  import opened Items
  import opened Ranking

  /**
   * Three items under one magazine with locations 2, absent and 0, and one
   * parentless item at location 5: the located ones under the magazine
   * become 1 and 0, the unlocated one is skipped, and the parentless one,
   * alone in its bucket, becomes 0.
   */
  lemma MagazineScenario()
    ensures var s := [Item("a", "t", Some("mag"), Some("cartridges"), Some(2)),
                      Item("b", "t", Some("mag"), Some("cartridges"), None),
                      Item("c", "t", Some("mag"), Some("cartridges"), Some(0)),
                      Item("d", "t", None, None, Some(5))];
            Reindexed(s) == [s[0].(location := Some(1)), s[1], s[2].(location := Some(0)), s[3].(location := Some(0))]
  {
    var s := [Item("a", "t", Some("mag"), Some("cartridges"), Some(2)),
              Item("b", "t", Some("mag"), Some("cartridges"), None),
              Item("c", "t", Some("mag"), Some("cartridges"), Some(0)),
              Item("d", "t", None, None, Some(5))];
    assert Bucket(s, Some("mag")) == {0, 2};
    assert Bucket(s, None) == {3};
    assert Predecessors(s, 0) == {2};
    assert Predecessors(s, 2) == {};
    assert Predecessors(s, 3) == {};
  }
}
