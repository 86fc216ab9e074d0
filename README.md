# Inventory location re-indexer of spt-profile-fix

This project models the one piece of logic in the profile fixer's `readerOnLoad`
(main.js:30-58). That code runs over the character's inventory item list
(`characters.pmc.Inventory.items`) and repairs the `location` slot indices of stacked
items, in three steps:

1. **Grouping.** Every item whose `location` is numeric goes into a bucket keyed by its
   `parentId`. The JavaScript uses a plain object, so every item without a `parentId`
   shares one bucket, the `"undefined"` key.
2. **Sorting.** Each bucket is sorted by `location`.
3. **Write-back.** Each item's `location` is overwritten with its 0-based position in the
   sorted bucket, and every item whose location differs from that position is logged.

The model works on the item list as an `array<Item>` of records
(`items.dfy`). A bucket holds **positions** in that array, which stand in for the
object references the JavaScript buckets hold. The files:

- `ranking.dfy` gives the reference definition. `Rank(s, i)` counts the items of
  `i`'s bucket that sort before it (`Before`: smaller location, or the same location
  and earlier in the list). `Reindexed(s)` is the list after the pass. The file also
  proves the pass's properties: dense locations, order preserved, idempotence, and a
  worked scenario.
- `reindex.dfy` is the imperative pass. It follows the source's loops:
  - `GroupByParent` is the grouping loop.
  - `SortBucket` is a stable insertion sort, which calls `InsertionPoint`.
  - `AssignRanks` is the write-back loop.
  - `ReindexLocations` is the whole pass. It is proved to leave the array equal to
    `Reindexed(old(items[..]))`, and to return exactly the positions whose location
    changed.

The comparator at main.js:48 returns a boolean, not a signed number, so the order it
produces depends on the JavaScript engine. The comment at main.js:45 says the intent
is to sort by location. The model therefore uses a **stable ascending sort by
location**, which is the intended order, not the literal comparator. Because the
grouping loop fills each bucket in list order, items with equal locations keep their
list order.

A `location` that fails the numeric test, whether it is missing (`isNaN(undefined)` is
true) or some other non-numeric value, is modelled as `None`. Such an item is skipped
and comes out unchanged: `Located(item)` is `item.location.Some?`.

main.js groups **every** located item by parent, whatever its slot, skips unlocated
items, and logs each changed item. This model follows it. Restricting the pass to the
`"cartridges"` slot or treating a missing location as 0 is not part of this code.

## Model

| member | source | states |
|---|---|---|
| `Ranking.Reindexed` | main.js:34-57 | The pass keeps the list's length and order. It changes no field but `location`. An item without a numeric location comes out unchanged, and a located item stays located. |
| `Ranking.RankOrder` | main.js:45-48 | Within one bucket, one item's rank is below another's exactly when it sorts before it: smaller location, or equal location and earlier in the list. |
| `Ranking.DenseRanks` | main.js:50-57 | The ranks of the n items in a bucket are exactly the set {0, ..., n-1}. |
| `Ranking.DenseLocations` | main.js:50-57 | After the pass each bucket holds the same items, their locations are exactly {0, ..., n-1}, and no two items in a bucket share a location. |
| `Ranking.OrderPreserved` | main.js:45-56 | New locations follow the old order: new i < new j exactly when i sorts before j. In particular, a smaller old location gives a smaller new one. |
| `Ranking.Idempotent` | main.js:34-57 | A second pass over the result changes nothing. |
| `RankingScenarios.MagazineScenario` | main.js:36-57 | Worked input. Located items at 2 and 0 under one parent become 1 and 0. The item without a location under that parent is untouched. A parentless item alone in the `None` bucket becomes 0. |
| `Reindex.GroupByParent` | main.js:33-43 | The buckets partition the located items. Each located item lands in the bucket of its own `parentId` (with `None` as one key) and in no other. Every bucket is non-empty and lists its items in list order. The keys are distinct, one per bucket. |
| `Reindex.SortBucket` | main.js:45-48 | The result is a permutation of the bucket, strictly ordered by (location, list position). That is a stable ascending sort by location of a bucket filled in list order. |
| `Reindex.InsertionPoint` | main.js:48 | Given an already sorted listing, the scan stops at a point where every earlier item sorts before the one being inserted and every later item sorts after it. |
| `Reindex.SortedPositionIsRank` | main.js:50-56 | Take a strictly sorted listing of a whole bucket. The item at position t has rank t, so writing positions writes ranks. |
| `Reindex.AssignRanks` | main.js:50-57 | The item at position t of the sorted bucket gets location t, with its other fields kept. No other item changes. It returns, once each, exactly the items whose location differed from their new one. |
| `Reindex.ReindexLocations` | main.js:30-58 | The item array afterwards equals `Reindexed` of the array before. The returned positions are distinct. They are exactly the items whose location changed, which are exactly the located items whose old location differs from their rank: the log condition. |

## Left out

- JSON parsing and serialisation (main.js:31, main.js:62) are foreign library calls. The model starts from the already-parsed item list. A profile without `characters.pmc.Inventory.items`, which would throw in the source, is not modelled.
- DOM and file handling (`main`, `handleFileSelect`, `disableDownload`, `enableDownload`, `downloadProfile`, main.js:1-26, main.js:60-101) is browser I/O and UI wiring.
- `console.log` (main.js:54) is modelled only as the returned list of positions of the changed items. The message text is not modelled.
- ReindexLocations: the returned positions are specified as a set, not in the source's log order. Its loop visits keys in first-appearance order, while `Object.entries` puts integer-like keys first. That order affects only the order of log lines, not the final item list, because buckets are disjoint.
- The literal boolean comparator at main.js:48 is not modelled. Its order is engine-defined; the intended stable ascending sort by location is modelled instead.
- JavaScript coercions are not modelled: `isNaN(null)` is false (a `null` location would be selected and would compare as 0), string or fractional `location` values, the loose `!=` between a number and the string index, and `parseInt(index)`. `location` is an `Option<int>` and the index an integer.
- Inputs on which the source throws are not modelled. `ReindexLocations` finishes normally on every input.
  - A `parentId` naming an `Object.prototype` member, such as `"constructor"`, `"__proto__"`, `"toString"` or `"hasOwnProperty"`, finds an inherited truthy value at main.js:38. No array is created, `.push` at main.js:42 throws a TypeError, and the pass stops before main.js:62-63. The model gives such a parent its own bucket like any other key.
  - A `null` entry in the item list throws at `item.location` on main.js:36. The model's list holds only items.
- Object-key coercion of `parentId` is not modelled. A `null` parent becomes the key `"null"`, and a literal `parentId` of `"undefined"` would share the bucket of parentless items. The key is modelled as `Option<string>`.
- Item identity is the position in the list. The model does not cover one object appearing twice in the list, which would be pushed into its bucket twice.
- The per-bucket in-place `Array.prototype.sort` is modelled as a sort that returns a new sequence. The bucket arrays are local to the pass, so no other reference observes the in-place order.
