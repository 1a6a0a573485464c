# adm87/utilities — a verified Dafny model of the spatial grids and containers

This project models the core of the Go module `adm87/utilities`:

- **`hashgrid`**: a spatial hash grid. Entries expose a bounding box (`Min()`, `Max()`). An entry is stored in the bucket of every cell its box covers. The cell coordinates are the box corners divided by the cell size and truncated toward zero, and a cell key is `uint64(uint32(x)) << 32 | uint64(uint32(y))`. `Insert` adds an entry at most once per bucket. `Remove` cuts the first occurrence and deletes a bucket that becomes empty. `Query` scans the cells of the query box column by column and keeps each entry that passes the inclusive box-overlap test. A `seen` set makes sure each entry is returned only once.
- **`hash.Grid`**: a spatial hash grid with a reverse index.
  - `cells` maps a biased int32 cell key to a bucket.
  - `itemCells` maps each item to the keys it was inserted under.
  - `items` holds a per-item generation stamp that `Query` uses instead of a set.
  - `Insert` refuses an item that is already present. `Remove` compacts the buckets in place. `Query` returns a reused buffer.
- **`hash.Set`** and **`hashset.Set`**: sets over Go maps.
- **`linq`**: `Batch` (chunking) and `Distinct` (order-preserving de-duplication).
- **`pool`**: a LIFO free list with a factory.

Modules mirror the Go packages:

| file | module | Go package |
|---|---|---|
| `common.dfy` | `Common` | shared definitions: `Option`, duplicate-freedom, `Dedup`, first-occurrence order, the bucket scan `Scan`, truncation toward zero |
| `hashgrid.dfy` | `HashGrid` | `hashgrid` |
| `hash.dfy` | `Hash` | `hash` |
| `hashset.dfy` | `HashSet` | `hashset` |
| `linq.dfy` | `Linq` | `linq` |
| `pool.dfy` | `Pool` | `pool` |

Objects the Go code mutates through a pointer, or through a map value's shared storage, are Dafny classes whose fields are the tables (`map`, `seq`, `set`). Every loop of the source is a method with a loop. Each such method is proved against a specification function: `AddCells`, `RemoveCells`, `QueryResult`, `InsertCells`, `Dedup`, and so on. The properties the source promises are lemmas about those functions:

- the class invariants the operations keep
- remove undoes insert
- a query finds every stored entry it should
- a query result contains no duplicates and is in first-encounter order

How the two grids compute and key their cells:

- **Cell range.** Both grids divide each box coordinate by the cell size and truncate toward zero (`int(v / cellSize)` in `hashgrid`, `int32(v / cellSize)` in `hash`). They walk the resulting ranges inclusively. Neither adds padding, and neither filters cells with a predicate.
- **Key encoding.** `hashgrid.NewGridKey` keeps x and y modulo 2^32, with no bias. `hash.cellKey` adds `1 << 31` to each coordinate before packing them.

## Model

| member | source | states |
|---|---|---|
| HashGrid.NewGridKey | hashgrid/grid.go:14-16 | the high word of the key is x mod 2^32 and the low word is y mod 2^32 (two's-complement truncation of a Go int) |
| HashGrid.NewGridKeyDecode | hashgrid/grid.go:14-16 | for coordinates in the int32 range, reading each word back as a signed 32-bit value gives the coordinates back |
| HashGrid.NewGridKeyInjective | hashgrid/grid.go:14-16 | distinct int32 cells have distinct keys |
| HashGrid.NewGridKeyWraps | hashgrid/grid.go:14-16 | cells 2^32 apart in x or in y share a key (the aliasing of the truncating conversion) |
| HashGrid.KeyWindowInjective | hashgrid/grid.go:14-16 | within any window of 2^32 by 2^32 cells, equal keys mean equal cells |
| HashGrid.ColsAt | hashgrid/grid.go:120-124 | position p of GetKeys's list holds the key of column lo + p / height and row startY + p % height (x outer, y inner) |
| HashGrid.SpanKeysShape | hashgrid/grid.go:110-126 | GetKeys returns columns × rows keys, at the positions ColsAt gives |
| HashGrid.SpanKeysMember | hashgrid/grid.go:110-126 | the key of every cell of the span is in GetKeys's list |
| HashGrid.SpanKeysWitness | hashgrid/grid.go:110-126 | every key in GetKeys's list is the key of a cell of the span |
| HashGrid.SpanKeysDistinct | hashgrid/grid.go:110-126 | GetKeys lists no key twice when the span is at most 2^32 cells wide and high |
| HashGrid.DistinctPositions | hashgrid/grid.go:120-124 | two positions of GetKeys's list hold different keys within such a span |
| HashGrid.ListKeys | hashgrid/grid.go:119-125 | GetKeys's nested loops produce exactly SpanKeys of the span |
| HashGrid.ListColumn | hashgrid/grid.go:121-123 | the inner loop appends the keys of column x in increasing y |
| HashGrid.Grid.GetKeys | hashgrid/grid.go:110-126 | the keys are those of the span of the entry's box, with corners divided by the cell size and truncated toward zero |
| HashGrid.AddCellsAt | hashgrid/grid.go:38-55 | Insert creates exactly the buckets of the entry's keys; the bucket of such a key gains the entry once unless it already holds it; every other bucket is unchanged |
| HashGrid.AddCellsMember | hashgrid/grid.go:38-55 | after Insert an entry lies in a bucket exactly when it did before, or it is the inserted entry and the key is one of its keys |
| HashGrid.AddCellsIdempotent | hashgrid/grid.go:46-52 | inserting the same entry twice leaves the same store as inserting it once (the goto nextKey duplicate check) |
| HashGrid.AddOnceDistinct | hashgrid/grid.go:46-52 | the per-bucket duplicate check keeps a bucket repeat-free and leaves the entry in it |
| HashGrid.Holds | hashgrid/grid.go:46-50 | the duplicate scan finds the entry exactly when the bucket holds it |
| HashGrid.InsertAll | hashgrid/grid.go:40-54 | Insert's loop over the keys produces AddCells of the old store |
| HashGrid.RemoveFirstSub | hashgrid/grid.go:62-67 | cutting the first occurrence of e keeps every other element and adds none |
| HashGrid.RemoveFirstDrops | hashgrid/grid.go:62-67 | in a repeat-free bucket, the cut leaves e absent and the bucket still repeat-free |
| HashGrid.RemoveFirstAbsent | hashgrid/grid.go:62-67 | the cut leaves a bucket without e unchanged |
| HashGrid.RemoveFirstAt | hashgrid/grid.go:62-65 | the cut is `append(b[:j], b[j+1:]...)` at the first index j holding e |
| HashGrid.RemoveFirstLast | hashgrid/grid.go:52 | cutting an entry that Insert appended restores the bucket |
| HashGrid.CutFirst | hashgrid/grid.go:62-67 | Remove's scan-and-splice computes RemoveFirst of the bucket |
| HashGrid.RemoveAll | hashgrid/grid.go:60-71 | Remove's loop over the keys produces RemoveCells of the old store, deleting buckets left empty |
| HashGrid.RemoveCellsDistinct | hashgrid/grid.go:58-72 | Remove keeps every bucket non-empty and repeat-free |
| HashGrid.RemoveCellsAt | hashgrid/grid.go:58-72 | after Remove, the bucket of each of e's keys has lost e's first occurrence; other buckets are unchanged; a key is present exactly when its bucket is non-empty |
| HashGrid.RemoveCellsMember | hashgrid/grid.go:58-72 | under the grid invariant, after Remove an entry lies in a bucket exactly when it did before and is not the removed entry |
| HashGrid.InsertKeepsInv | hashgrid/grid.go:38-55 | Insert keeps the invariant: buckets non-empty and repeat-free; every stored entry lies in exactly the buckets of its own keys |
| HashGrid.InsertPlaces | hashgrid/grid.go:38-55 | after Insert every stored entry, the new one included, lies in exactly the buckets of its keys |
| HashGrid.RemoveKeepsInv | hashgrid/grid.go:58-72 | Remove keeps the same invariant |
| HashGrid.RemoveUndoesInsert | hashgrid/grid.go:38-72 | inserting an entry that is in no bucket and then removing it gives back the original store |
| HashGrid.FilterMember | hashgrid/grid.go:92-94 | an entry passes the filter exactly when it was scanned and its box overlaps the query box, edges inclusive |
| HashGrid.QueryMember | hashgrid/grid.go:75-102 | Query returns an entry exactly when it overlaps the query box and lies in the bucket of a cell of the query's span |
| HashGrid.QueryResultOrder | hashgrid/grid.go:81-97 | Query returns no entry twice, in the order the scan first meets the entries that pass the test |
| HashGrid.QueryFindsOverlapping | hashgrid/grid.go:75-102 | under the invariant, every stored entry whose well-formed box overlaps a well-formed query box is returned |
| HashGrid.TruncOrder | hashgrid/grid.go:76-79 | the truncated cell index is monotone in the coordinate |
| HashGrid.QueryBucket | hashgrid/grid.go:87-98 | the loop over one bucket skips seen entries, marks and appends those that pass the test, and keeps seen equal to the set of results |
| HashGrid.QueryCell | hashgrid/grid.go:86-98 | visiting one cell extends the result by its bucket's new, overlapping entries |
| HashGrid.QueryColumn | hashgrid/grid.go:85-99 | the inner loop over a column extends the result by the column's cells in increasing y |
| HashGrid.QuerySpan | hashgrid/grid.go:81-101 | Query's nested loops give Dedup(Filter(Scan(cells, SpanKeys))) |
| HashGrid.Grid.Query | hashgrid/grid.go:75-102 | the result is QueryResult of the current store for the query box |
| HashGrid.Grid.Insert | hashgrid/grid.go:38-55 | keeps the invariant; the store becomes AddCells of the old store over the entry's keys |
| HashGrid.Grid.Remove | hashgrid/grid.go:58-72 | keeps the invariant; the store becomes RemoveCells of the old store over the entry's keys |
| HashGrid.Grid.Clear | hashgrid/grid.go:105-107 | no buckets remain, and the invariant holds |
| HashGrid.QueryAfterClear | hashgrid/grid.go:105-107 | a query on a cleared grid returns nothing |
| HashGrid.Grid.constructor | hashgrid/grid.go:31-34 | an empty store with the given cell size and boxes |
| HashGrid.New | hashgrid/grid.go:27-35 | a non-positive cell size is rejected (Go panics); otherwise a fresh empty grid |
| Hash.CellKey | hash/grid.go:24-29 | the key is (x + 2^31) · 2^32 + (y + 2^31), and decoding either word gives x and y back |
| Hash.KeyDecodeEncode | hash/grid.go:24-29 | every 64-bit key is the key of the cell it decodes to |
| Hash.CellKeyInjective | hash/grid.go:24-29 | distinct int32 cells have distinct keys |
| Hash.CellKeyOrder | hash/grid.go:24-29 | key order is the lexicographic order of (x, y) |
| Hash.CellRangeOfCovers | hash/grid.go:31-37 | the computed range contains the cell of every point of the box |
| Hash.CellRangeOf | hash/grid.go:31-37 | a range exists only for a non-zero cell size; with a positive cell size, an ordered box gives an ordered range on each axis (the truncated quotients keep their order) |
| Hash.QuotientOrder | hash/grid.go:31-37 | with a positive cell size, truncating a / cellSize and b / cellSize keeps a <= b in order |
| Hash.RowKeysMember | hash/grid.go:52-56 | one row of the inner loop lists exactly the keys of cells (lo..hi-1, y) |
| Hash.RowsMember | hash/grid.go:51-57 | the nested loops list exactly the keys of the cells of rows lo..hi-1 within the x range |
| Hash.RowsOrdered | hash/grid.go:51-57 | the keys are visited row by row, each row in increasing x |
| Hash.RowsLength | hash/grid.go:51-57 | the loops visit width × height cells |
| Hash.RangeKeysFacts | hash/grid.go:49-57 | the key list Insert records holds exactly the range's cells, each once, in row-major order, as many as the range has cells |
| Hash.WithoutFacts | hash/grid.go:77-84 | the in-place compaction deletes every copy of the item and keeps the count of every other element |
| Hash.Compact | hash/grid.go:78-84 | the write-index compaction loop computes Without(bucket, item) |
| Hash.InsertIntoBuckets | hash/grid.go:49-57 | Insert's loops record RangeKeys(r) as the item's key list and append the item to each of those buckets, creating missing ones |
| Hash.InsertRow | hash/grid.go:52-56 | one row of Insert's loops extends the key list and the buckets by that row |
| Hash.InsertCell | hash/grid.go:53-55 | one cell of Insert's loops appends the item to the bucket of (cx, cy), creating it if missing, and appends that key to the item's key list, so the key list grows by exactly the next row-major key |
| Hash.InsertCellsStep | hash/grid.go:53-55 | appending the item to one new key's bucket is InsertCells over the extended key list; other buckets are unchanged |
| Hash.RemoveFromBuckets | hash/grid.go:74-91 | Remove's loop produces RemoveCells over the item's key list, deleting buckets left empty |
| Hash.RemoveCellsStep | hash/grid.go:74-91 | one step of Remove's loop is RemoveCells over the extended key list |
| Hash.InsertKeepsInv | hash/grid.go:44-63 | inserting a new item with a repeat-free key list keeps the table invariant (the tables agree, no empty bucket, each item exactly once in each bucket it lists) |
| Hash.RemoveKeepsInv | hash/grid.go:65-92 | removing a known item keeps the invariant and leaves it in no bucket |
| Hash.StampKeepsInv | hash/grid.go:94-117 | stamping reported items with the next generation keeps the invariant |
| Hash.StampRecords | hash/grid.go:107-111 | under a fresh generation an item's stamp is the generation exactly when it was reported, and reporting it stamps only that item |
| Hash.ScanBucket | hash/grid.go:107-112 | the loop over one bucket appends the items whose stamp differs from the generation and stamps them |
| Hash.ScanRow | hash/grid.go:100-113 | one row of Query's loops extends the result by that row's buckets, deduplicated |
| Hash.ScanCell | hash/grid.go:101-112 | one cell of Query's loops scans the bucket of (cx, cy), or nothing when it is missing, after the cells visited before it in row-major order: the result is the deduplicated scan of those cells plus this one, and exactly its items are stamped with the generation |
| Hash.ScanRange | hash/grid.go:98-114 | Query's loops give QueryResult(cells, r) and stamp exactly the reported items |
| Hash.QueryMember | hash/grid.go:94-117 | an item is reported exactly when it lies in the bucket of a cell of the range; there is no box recheck |
| Hash.QueryResultFacts | hash/grid.go:94-117 | the result has no item twice and is in first-encounter order of the scan |
| Hash.QueryFindsInserted | hash/grid.go:44-117 | an item inserted with cell range ins is reported by a query over q exactly when the two ranges share a cell |
| Hash.Int32SweepWraps | hash/grid.go:51 | n increments of an int32 counter add n modulo 2^32 |
| Hash.Int32LoopNeverEnds | hash/grid.go:51 | with maxCellY = MaxInt32 the guard `cy <= maxCellY` holds after every number of increments, and the counter repeats with period 2^32 |
| Hash.Grid.NewGrid | hash/grid.go:15-22 | empty tables, generation 0, invariant established |
| Hash.Grid.Contains | hash/grid.go:39-42 | present exactly when the item has a reverse-index entry; an absent item lies in no bucket |
| Hash.Grid.Insert | hash/grid.go:44-63 | a present item is refused with no change; otherwise cells, stamps and reverse index are updated as InsertCells over RangeKeys(r); the invariant is kept |
| Hash.Grid.Remove | hash/grid.go:65-92 | no-op when absent; otherwise cells become RemoveCells over the item's key list, it leaves both indexes and every bucket, and the invariant is kept |
| Hash.Grid.Query | hash/grid.go:94-117 | the generation goes up by one; the result and qBuf are QueryResult(cells, r); only the reported items' stamps change |
| Hash.Set.NewSet | hash/set.go:5-12 | an empty set whatever the size hint |
| Hash.Set.Add | hash/set.go:14-20 | reports whether the item was new; afterwards it is a member, and the set grew by one exactly when it was new |
| Hash.Set.Remove | hash/set.go:22-24 | the item is gone and every other member stays |
| Hash.Set.Contains | hash/set.go:26-29 | true exactly for members |
| Hash.Set.Size | hash/set.go:31-33 | the number of members |
| Hash.Set.ToSlice | hash/set.go:35-41 | every member exactly once, as many elements as members |
| HashSet.Set.New | hashset/hashset.go:7-9 | an empty set |
| HashSet.Set.Add | hashset/hashset.go:11-16 | the item becomes a member; adding a member changes nothing |
| HashSet.Set.Remove | hashset/hashset.go:18-20 | the item is gone and every other member stays |
| HashSet.Set.Contains | hashset/hashset.go:22-25 | true exactly for members |
| Linq.Batch | linq/linq.go:5-17 | no batches for a non-positive size; otherwise the batches concatenate to items, there are ceil(n / size) of them, each is non-empty and at most size long, and all but the last are full |
| Linq.FlattenSnoc | linq/linq.go:11-14 | appending a batch appends its items to the concatenation |
| Linq.CeilDiv | linq/linq.go:11-14 | the loop's batch count is ceil(n / size) |
| Linq.Distinct | linq/linq.go:21-33 | the result is Dedup(items): repeat-free, the same members, in first-occurrence order, no longer than items, and items itself when items has no repeats |
| Common.DedupMembers | linq/linq.go:25-31 | de-duplication keeps exactly the members |
| Common.DedupNoDups | linq/linq.go:25-31 | de-duplication leaves no repeats |
| Common.DedupOrder | linq/linq.go:25-31 | de-duplication keeps first-occurrence order |
| Common.DedupOfDistinct | linq/linq.go:25-31 | de-duplicating a repeat-free list changes nothing |
| Common.DedupUnique | linq/linq.go:25-31 | any repeat-free list with the same members in first-occurrence order is Dedup: the result is determined by those three properties |
| Common.DedupSnoc | linq/linq.go:26-30 | one more item is appended exactly when it has not been seen |
| Common.ScanMembers | hashgrid/grid.go:84-87 | the scanned entries are exactly the members of the buckets of the visited keys |
| Common.Trunc | hashgrid/grid.go:76-79 | the float-to-integer conversion truncates toward zero |
| Common.TruncMonotone | hash/grid.go:31-37 | truncation is monotone |
| Common.TruncMergesAroundZero | hash/grid.go:31-37 | everything strictly between -1 and 1 truncates to 0: cell 0 is twice as wide as the others |
| Pool.Pool.constructor | pool/pool.go:5-10 | no stored items, with the given factory |
| Pool.Pool.Get | pool/pool.go:12-20 | an empty pool calls New and stays empty; otherwise the last item is popped and returned |
| Pool.Pool.Put | pool/pool.go:22-28 | the item is pushed on top and Len grows by one |
| Pool.Pool.Len | pool/pool.go:26-28 | the count is a nat, so never negative, and it is zero exactly when no items are stored, which is when Get calls New |
| Pool.PutPutGetGet | pool/pool.go:12-24 | two Puts followed by two Gets return the items in reverse order and restore the stack |

## Left out

- Floating point: coordinates, boxes and the cell size are exact reals. The float32 rounding of `v / cellSize` and of the overlap comparisons is not modelled.
- Common.Trunc: models Go's float-to-integer conversion only where the quotient is in range. Go leaves an out-of-range conversion implementation-defined.
- Hash.CellRangeOf: returns None for a zero cell size or a quotient outside int32, the cases Go leaves implementation-defined.
- Hash.Grid.Insert: takes the cell range that `cellRange` computes instead of four float32 coordinates. Hash.Grid.Query does the same.
- Hash.Grid.Query: the returned slice is the reused `qBuf`, which the next Query overwrites. The model returns a value, so aliasing between successive results is not captured.
- Hash.Grid.Remove: the compaction writes into the bucket's backing array in place. The model computes the compacted bucket as a new value, so aliasing of that array is not captured.
- Linq.Batch: the batches are sub-slices sharing the input's backing array. The model returns copies.
- Hash.Grid: `gen` is a uint64 in Go and an unbounded nat here. Wrap-around after 2^64 queries is not modelled.
- Hash.InsertIntoBuckets: the loop counters are unbounded integers, not Go's int32. What the int32 counters do is stated separately by Hash.Int32LoopNeverEnds (see Findings).
- HashGrid: `int` loop counters are unbounded, not 64-bit.
- HashGrid.SpanKeysDistinct: requires a span of at most 2^32 cells per side. Wider spans alias keys, as HashGrid.NewGridKeyWraps states. Insert and Query still add and return each entry once there, through the per-bucket check and `seen`.
- HashGrid.Grid: an entry's box is the fixed function `bounds`. An entry whose `Min()`/`Max()` change while it is stored, leaving its old buckets stale, is not modelled.
- HashGrid.Grid.Insert and HashGrid.Grid.Remove: they call GetKeys as the Go code does. The empty bucket Insert creates before appending is folded into the append, because it is never observable afterwards.
- HashGrid.New: Go panics on a non-positive cell size. The model returns None instead.
- Pool.Pool.Get: the factory `New` is a pure function value. A factory with side effects, or a nil `New` (a Go panic), is not modelled.
- Hash.Set.NewSet: the size hint only presizes the Go map. Capacity is not modelled.
- Hash.Set.ToSlice: the order of the slice is Go's random map iteration order and is left unspecified.
- Nil versus empty slices: `Batch` with a non-positive size, and GetKeys/Query with nothing to return, give nil in Go. The model gives the empty sequence.
- Concurrency: none of the types is safe for concurrent use, and none is modelled as such.

## Findings

| source | as written | input that shows it | evidently intended | confidence | as-written member | corrected member |
|---|---|---|---|---|---|---|
| hash/grid.go:51-52 (also 99-100) | `for cy := minCellY; cy <= maxCellY; cy++` runs on int32 counters, so when maxCellY (or maxCellX) is MaxInt32 the guard never fails and the counter wraps to MinInt32 | an Insert or Query whose maxY / cellSize is at least 2^31 on a platform where the out-of-range float32-to-int32 conversion saturates (arm64 does), so maxCellY = MaxInt32: the loop appends forever | visit each cell of the inclusive range exactly once and stop | not executed; the input depends on Go's implementation-defined conversion | Hash.Int32LoopNeverEnds | Hash.InsertIntoBuckets |
