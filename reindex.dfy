/**
 * The location re-indexing pass over the inventory item list: group the
 * located items by parent, sort each group by location, and write each item's
 * rank in its group back as its location.
 */
module Reindex {
  import opened Items
  import opened Ranking

  /** Strictly increasing positions: the order in which a bucket is filled. */
  predicate Increasing(q: seq<nat>)
  {
    forall a, b :: 0 <= a < b < |q| ==> q[a] < q[b]
  }

  /** `q` lists item positions in strict sort order. */
  predicate Ordered(s: seq<Item>, q: seq<nat>)
  {
    forall a, b :: 0 <= a < b < |q| ==> Before(s, q[a], q[b])
  }

  /** No element occurs twice. */
  predicate Distinct<T(==)>(q: seq<T>)
  {
    forall a, b :: 0 <= a < b < |q| ==> q[a] != q[b]
  }

  /**
   * The grouping loop: every item with a numeric location is appended to the
   * bucket of its parent key (an absent parent is one key of its own); keys
   * are listed in the order they first appear.
   */
  method GroupByParent(items: seq<Item>) returns (keys: seq<Option<string>>, buckets: map<Option<string>, seq<nat>>)
    ensures forall k :: k in buckets <==> k in keys
    ensures Distinct(keys)
    ensures forall k :: k in buckets ==> buckets[k] != [] && Increasing(buckets[k])
    ensures forall k, j :: k in buckets ==> (j in buckets[k] <==> j in Bucket(items, k))
    ensures forall j :: 0 <= j < |items| && Located(items[j]) ==> items[j].parentId in buckets
  {
    keys, buckets := [], map[];
    for n := 0 to |items|
      invariant forall k :: k in buckets <==> k in keys
      invariant Distinct(keys)
      invariant forall k :: k in buckets ==> buckets[k] != [] && Increasing(buckets[k])
      invariant forall k, j :: k in buckets && j in buckets[k] ==> j < n
      invariant forall k, j :: k in buckets ==> (j in buckets[k] <==> j in Bucket(items[..n], k))
      invariant forall j :: 0 <= j < n && Located(items[j]) ==> items[j].parentId in buckets
    {
      var item := items[n];
      if Located(item) {
        var k := item.parentId;
        if k !in buckets {
          keys := keys + [k];
          buckets := buckets[k := []];
        }
        AppendKeepsIncreasing(buckets[k], n);
        buckets := buckets[k := buckets[k] + [n]];
      }
    }
    assert items[..|items|] == items;
  }

  lemma AppendKeepsIncreasing(q: seq<nat>, n: nat)
    requires Increasing(q)
    requires forall j :: j in q ==> j < n
    ensures Increasing(q + [n])
  {
    forall a | 0 <= a < |q|
      ensures q[a] < n
    {
      assert q[a] in q;
    }
  }

  /**
   * Stable ascending sort of one bucket by location, by insertion. This is the
   * order the comparator is meant to give; since the bucket lists its items
   * in list order, ties end up in list order.
   */
  method SortBucket(items: seq<Item>, bucket: seq<nat>) returns (sorted: seq<nat>)
    requires forall j :: j in bucket ==> j < |items| && Located(items[j])
    requires Increasing(bucket)
    ensures multiset(sorted) == multiset(bucket)
    ensures Ordered(items, sorted)
  {
    sorted := [];
    for n := 0 to |bucket|
      invariant multiset(sorted) == multiset(bucket[..n])
      invariant forall u :: 0 <= u < |sorted| ==> sorted[u] in bucket[..n]
      invariant Ordered(items, sorted)
    {
      var x := bucket[n];
      PrefixBelow(items, bucket, n, sorted);
      var p := InsertionPoint(items, sorted, x);
      InsertKeepsOrder(items, sorted, p, x);
      InsertKeepsMembers(bucket, n, sorted, p);
      sorted := sorted[..p] + [x] + sorted[p..];
    }
    assert bucket[..|bucket|] == bucket;
  }

  /** The items already sorted come earlier in the list than the next one to insert. */
  lemma PrefixBelow(items: seq<Item>, bucket: seq<nat>, n: nat, sorted: seq<nat>)
    requires forall j :: j in bucket ==> j < |items| && Located(items[j])
    requires Increasing(bucket) && n < |bucket|
    requires forall u :: 0 <= u < |sorted| ==> sorted[u] in bucket[..n]
    ensures bucket[n] < |items| && Located(items[bucket[n]])
    ensures forall u :: 0 <= u < |sorted| ==> sorted[u] < bucket[n] && Located(items[sorted[u]])
  {
    assert bucket[n] in bucket;
    forall u | 0 <= u < |sorted|
      ensures sorted[u] < bucket[n] && Located(items[sorted[u]])
    {
      var a :| 0 <= a < n && bucket[..n][a] == sorted[u];
      assert bucket[a] in bucket;
    }
  }

  /** Inserting the next item of the bucket keeps the sorted listing a permutation of the bucket's prefix. */
  lemma InsertKeepsMembers(bucket: seq<nat>, n: nat, sorted: seq<nat>, p: nat)
    requires n < |bucket| && p <= |sorted|
    requires multiset(sorted) == multiset(bucket[..n])
    requires forall u :: 0 <= u < |sorted| ==> sorted[u] in bucket[..n]
    ensures multiset(sorted[..p] + [bucket[n]] + sorted[p..]) == multiset(bucket[..n + 1])
    ensures forall u :: 0 <= u < |sorted| + 1 ==> (sorted[..p] + [bucket[n]] + sorted[p..])[u] in bucket[..n + 1]
  {
    var r := sorted[..p] + [bucket[n]] + sorted[p..];
    assert sorted == sorted[..p] + sorted[p..];
    assert bucket[..n + 1] == bucket[..n] + [bucket[n]];
    forall u | 0 <= u < |r|
      ensures r[u] in bucket[..n + 1]
    {
      if u < p {
        assert r[u] == sorted[u];
      } else if p < u {
        assert r[u] == sorted[u - 1];
      }
    }
  }

  /**
   * Scans back from the end of `sorted` past the items with a greater
   * location than `x`. Every item already in `sorted` comes before `x` in the
   * list, so ties stay before it.
   */
  method InsertionPoint(items: seq<Item>, sorted: seq<nat>, x: nat) returns (p: nat)
    requires x < |items| && Located(items[x])
    requires forall u :: 0 <= u < |sorted| ==> sorted[u] < x && Located(items[sorted[u]])
    requires Ordered(items, sorted)
    ensures p <= |sorted|
    ensures p > 0 ==> Before(items, sorted[p - 1], x)
    ensures forall u :: 0 <= u < p ==> Before(items, sorted[u], x)
    ensures forall u :: p <= u < |sorted| ==> Before(items, x, sorted[u])
  {
    p := |sorted|;
    while p > 0 && items[sorted[p - 1]].location.value > items[x].location.value
      invariant 0 <= p <= |sorted|
      invariant forall u :: p <= u < |sorted| ==> Before(items, x, sorted[u])
    {
      p := p - 1;
    }
    forall u | 0 <= u < p
      ensures Before(items, sorted[u], x)
    {
      if u < p - 1 {
        assert Before(items, sorted[u], sorted[p - 1]);
      }
    }
  }

  /** Inserting `x` between the items that sort before it and those that sort after it keeps a listing sorted. */
  lemma InsertKeepsOrder(s: seq<Item>, q: seq<nat>, p: nat, x: nat)
    requires Ordered(s, q) && p <= |q|
    requires p > 0 ==> Before(s, q[p - 1], x)
    requires forall u :: p <= u < |q| ==> Before(s, x, q[u])
    ensures Ordered(s, q[..p] + [x] + q[p..])
  {
    var r := q[..p] + [x] + q[p..];
    forall a, b | 0 <= a < b < |r|
      ensures Before(s, r[a], r[b])
    {
      InsertedPair(s, q, p, x, a, b);
    }
  }

  lemma InsertedPair(s: seq<Item>, q: seq<nat>, p: nat, x: nat, a: nat, b: nat)
    requires Ordered(s, q) && p <= |q|
    requires p > 0 ==> Before(s, q[p - 1], x)
    requires forall u :: p <= u < |q| ==> Before(s, x, q[u])
    requires a < b < |q| + 1
    ensures Before(s, (q[..p] + [x] + q[p..])[a], (q[..p] + [x] + q[p..])[b])
  {
    var r := q[..p] + [x] + q[p..];
    var ra := if a < p then q[a] else if a == p then x else q[a - 1];
    var rb := if b < p then q[b] else if b == p then x else q[b - 1];
    assert r[a] == ra && r[b] == rb;
    if b < p {
      assert Before(s, q[a], q[b]);
    } else if b == p {
      if a < p - 1 {
        assert Before(s, q[a], q[p - 1]);
      }
    } else if a == p {
      assert Before(s, x, q[b - 1]);
    } else if a < p {
      assert Before(s, q[a], q[b - 1]);
    } else {
      assert Before(s, q[a - 1], q[b - 1]);
    }
  }

  /** In a strictly sorted listing of one whole bucket, the item at position `t` has rank `t`. */
  lemma SortedPositionIsRank(s: seq<Item>, q: seq<nat>, k: Option<string>, t: nat)
    requires Ordered(s, q)
    requires forall j :: j in q <==> j in Bucket(s, k)
    requires t < |q|
    ensures q[t] < |s| && Rank(s, q[t]) == t
  {
    assert q[t] in Bucket(s, k);
    var pre := set x: nat | x in q[..t];
    forall j | j in Predecessors(s, q[t])
      ensures j in pre
    {
      assert j in q;
      var u :| 0 <= u < |q| && q[u] == j;
      assert u < t;
    }
    forall j | j in pre
      ensures j in Predecessors(s, q[t])
    {
      var u :| 0 <= u < t && q[u] == j;
      assert Before(s, q[u], q[t]);
      assert q[u] in q;
    }
    assert Predecessors(s, q[t]) == pre;
    DistinctCard(q[..t]);
  }

  lemma {:induction false} DistinctCard(q: seq<nat>)
    requires Distinct(q)
    ensures |set x: nat | x in q| == |q|
  {
    if q != [] {
      var q' := q[..|q| - 1];
      DistinctCard(q');
      assert q == q' + [q[|q| - 1]];
      assert q[|q| - 1] !in q';
      assert (set x: nat | x in q) == (set x: nat | x in q') + {q[|q| - 1]};
    }
  }

  /**
   * The write-back loop for one sorted bucket: the item at position `t` of
   * `q` gets location `t`. Returns the items whose location differed from
   * their new one, in bucket order.
   */
  method AssignRanks(items: array<Item>, q: seq<nat>) returns (changed: seq<nat>)
    requires Distinct(q)
    requires forall t :: 0 <= t < |q| ==> q[t] < items.Length
    modifies items
    ensures forall t :: 0 <= t < |q| ==> items[q[t]] == old(items[q[t]]).(location := Some(t))
    ensures forall j :: 0 <= j < items.Length && j !in q ==> items[j] == old(items[j])
    ensures Distinct(changed)
    ensures forall j :: j in changed ==> j in q
    ensures forall j :: 0 <= j < items.Length ==> (j in changed <==> items[j].location != old(items[j].location))
  {
    changed := [];
    for t := 0 to |q|
      invariant forall u :: 0 <= u < t ==> items[q[u]] == old(items[q[u]]).(location := Some(u))
      invariant forall j :: 0 <= j < items.Length && j !in q[..t] ==> items[j] == old(items[j])
      invariant Distinct(changed)
      invariant forall j :: j in changed ==> j in q[..t]
      invariant forall j :: 0 <= j < items.Length ==> (j in changed <==> items[j].location != old(items[j].location))
    {
      var j := q[t];
      assert j !in q[..t];
      if items[j].location != Some(t) {
        changed := changed + [j];
      }
      items[j] := items[j].(location := Some(t));
      assert q[..t + 1] == q[..t] + [j];
    }
    assert q[..|q|] == q;
  }

  /**
   * The state between buckets: the items of the buckets whose keys are in
   * `done` hold their final value, every other item its original one.
   */
  ghost predicate Progress(s: seq<Item>, done: seq<Option<string>>, cur: seq<Item>)
  {
    |cur| == |s| &&
    forall j :: 0 <= j < |s| ==>
      cur[j] == if Located(s[j]) && s[j].parentId in done then Reindexed(s)[j] else s[j]
  }

  /** Writing each item's position in the sorted listing of bucket `k` finishes that bucket. */
  lemma ProgressStep(s: seq<Item>, done: seq<Option<string>>, k: Option<string>, q: seq<nat>,
                     mid: seq<Item>, after: seq<Item>)
    requires Progress(s, done, mid) && k !in done
    requires forall j :: j in q <==> j in Bucket(s, k)
    requires forall t :: 0 <= t < |q| ==> q[t] < |s| && Rank(s, q[t]) == t
    requires |after| == |mid|
    requires forall t :: 0 <= t < |q| ==> after[q[t]] == mid[q[t]].(location := Some(t))
    requires forall j :: 0 <= j < |mid| && j !in q ==> after[j] == mid[j]
    ensures Progress(s, done + [k], after)
  {
    forall j | 0 <= j < |s|
      ensures after[j] == if Located(s[j]) && s[j].parentId in done + [k] then Reindexed(s)[j] else s[j]
    {
      if j in q {
        var t :| 0 <= t < |q| && q[t] == j;
        assert after[j] == mid[j].(location := Some(t));
      }
    }
  }

  /** Sorting only looked at items that still hold their original value. */
  lemma OrderedOnUnchanged(cur: seq<Item>, s: seq<Item>, q: seq<nat>)
    requires |cur| == |s|
    requires forall t :: 0 <= t < |q| ==> q[t] < |s| && cur[q[t]] == s[q[t]]
    requires Ordered(cur, q)
    ensures Ordered(s, q)
  {
    forall a, b | 0 <= a < b < |q|
      ensures Before(s, q[a], q[b])
    {
      assert Before(cur, q[a], q[b]);
    }
  }

  /**
   * One re-indexing pass over the inventory item list, in place. Returns the
   * positions of the items whose location it changed: the items for which a
   * change is logged.
   */
  method ReindexLocations(items: array<Item>) returns (changed: seq<nat>)
    modifies items
    ensures items[..] == Reindexed(old(items[..]))
    ensures Distinct(changed)
    ensures forall j :: j in changed ==> j < items.Length
    ensures forall j :: 0 <= j < items.Length ==>
              (j in changed <==> items[j].location != old(items[j].location))
    ensures forall j :: 0 <= j < items.Length ==>
              (j in changed <==> Located(old(items[j])) && old(items[j]).location != Some(Rank(old(items[..]), j)))
  {
    ghost var s := items[..];
    var keys, buckets := GroupByParent(items[..]);
    changed := [];
    for m := 0 to |keys|
      invariant Progress(s, keys[..m], items[..])
      invariant Distinct(changed)
      invariant forall j :: j in changed ==> j < items.Length
      invariant forall j :: 0 <= j < items.Length ==> (j in changed <==> items[j].location != s[j].location)
    {
      var k := keys[m];
      assert k !in keys[..m];
      var q := SortBucket(items[..], buckets[k]);
      BucketListing(s, k, buckets[k], q);
      forall t | 0 <= t < |q|
        ensures q[t] < |s| && items[..][q[t]] == s[q[t]]
      {
        assert q[t] in q;
      }
      OrderedOnUnchanged(items[..], s, q);
      OrderedIsDistinct(s, q);
      forall t | 0 <= t < |q|
        ensures q[t] < |s| && Rank(s, q[t]) == t
      {
        SortedPositionIsRank(s, q, k, t);
      }
      ghost var mid := items[..];
      var ch := AssignRanks(items, q);
      ProgressStep(s, keys[..m], k, q, mid, items[..]);
      assert keys[..m + 1] == keys[..m] + [k];
      forall j | j in ch
        ensures j !in changed
      {
        assert j in Bucket(s, k);
      }
      DistinctConcat(changed, ch);
      changed := changed + ch;
    }
    assert keys[..|keys|] == keys;
    assert items[..] == Reindexed(s);
  }

  lemma DistinctConcat<T>(a: seq<T>, b: seq<T>)
    requires Distinct(a) && Distinct(b)
    requires forall x :: x in b ==> x !in a
    ensures Distinct(a + b)
  {
    forall u, v | 0 <= u < v < |a + b|
      ensures (a + b)[u] != (a + b)[v]
    {
      if u < |a| <= v {
        assert (a + b)[v] == b[v - |a|] && b[v - |a|] in b;
      }
    }
  }

  /** A strictly sorted listing names each item once. */
  lemma OrderedIsDistinct(s: seq<Item>, q: seq<nat>)
    requires Ordered(s, q)
    ensures Distinct(q)
  {
    forall a, b | 0 <= a < b < |q|
      ensures q[a] != q[b]
    {
      assert Before(s, q[a], q[b]);
    }
  }

  /** A permutation of a bucket's listing lists exactly that bucket's items. */
  lemma BucketListing(s: seq<Item>, k: Option<string>, bucket: seq<nat>, q: seq<nat>)
    requires forall j :: j in bucket <==> j in Bucket(s, k)
    requires multiset(q) == multiset(bucket)
    ensures forall j :: j in q <==> j in Bucket(s, k)
  {
    forall j
      ensures j in q <==> j in bucket
    {
      assert j in q <==> j in multiset(q);
      assert j in bucket <==> j in multiset(bucket);
    }
  }
}
