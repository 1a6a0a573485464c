/**
 * Package hash: a minimalist spatial hash grid (Grid) and a set wrapper over
 * a Go map (Set).
 *
 * Grid keeps three tables: cells maps a packed cell key to the bucket of
 * items in that cell, itemCells maps every item to the keys of the cells it
 * was inserted into (the reverse index), and items maps every item to the
 * generation of the last query that reported it, so that Query can skip an
 * item it has already emitted without allocating a set.
 *
 * Insert and Query take the cell range that cellRange computes (CellRange);
 * CellRangeOf models that computation on exact reals, truncating toward
 * zero. Go's int32 loop counters are modelled as unbounded integers; see
 * Int32Sweep for what the int32 counters do at the top of the range.
 */
module Hash {
  import opened Common

  /** The offset 1 << 31 that biases a signed coordinate to an unsigned one. */
  const Bias: int := 0x8000_0000
  type Int32 = x: int | -0x8000_0000 <= x < 0x8000_0000

  // ---------------------------------------------------------------------------
  // Key codec
  // ---------------------------------------------------------------------------

  /**
   * cellKey: uint32(int64(x) + 2^31) in the high word, uint32(int64(y) + 2^31)
   * in the low word. The shift by 32 is taken modulo 2^64 and the bitwise or
   * of two disjoint bit ranges is their sum.
   */
  function CellKey(x: Int32, y: Int32): (k: Uint64)
    ensures k == (x + Bias) * Word + (y + Bias)
    ensures KeyX(k) == x && KeyY(k) == y
  {
    var upper := (x + Bias) % Word;
    var lower := (y + Bias) % Word;
    (upper * Word) % (Word * Word) + lower
  }

  /** The column encoded in the high word of a key. */
  function KeyX(k: Uint64): Int32 {
    k / Word - Bias
  }

  /** The row encoded in the low word of a key. */
  function KeyY(k: Uint64): Int32 {
    k % Word - Bias
  }

  /** Every 64-bit key is the key of exactly one cell. */
  lemma KeyDecodeEncode(k: Uint64)
    ensures CellKey(KeyX(k), KeyY(k)) == k
  {
    assert k == (k / Word) * Word + k % Word;
  }

  /** Distinct cells have distinct keys. */
  lemma CellKeyInjective(x1: Int32, y1: Int32, x2: Int32, y2: Int32)
    requires CellKey(x1, y1) == CellKey(x2, y2)
    ensures x1 == x2 && y1 == y2
  {
    assert KeyX(CellKey(x1, y1)) == x1 && KeyY(CellKey(x1, y1)) == y1;
  }

  /** Key order is the lexicographic order of (x, y). */
  lemma CellKeyOrder(x1: Int32, y1: Int32, x2: Int32, y2: Int32)
    ensures CellKey(x1, y1) < CellKey(x2, y2) <==> x1 < x2 || (x1 == x2 && y1 < y2)
  {
  }

  // ---------------------------------------------------------------------------
  // Cell ranges and the keys they cover
  // ---------------------------------------------------------------------------

  /** The inclusive cell range [minX..maxX] x [minY..maxY] that cellRange computes. */
  datatype CellRange = CellRange(minX: Int32, minY: Int32, maxX: Int32, maxY: Int32)

  predicate InRange(r: CellRange, x: int, y: int) {
    r.minX <= x <= r.maxX && r.minY <= y <= r.maxY
  }

  /**
   * cellRange with real division: each bound is the quotient truncated toward
   * zero. None stands for the cases Go leaves implementation-defined: a zero
   * cell size, or a quotient outside the int32 range.
   */
  function CellRangeOf(minX: real, minY: real, maxX: real, maxY: real, cellSize: real): (r: Option<CellRange>)
    ensures r.Some? ==> cellSize != 0.0
    ensures r.Some? && cellSize > 0.0 && minX <= maxX ==> r.value.minX <= r.value.maxX
    ensures r.Some? && cellSize > 0.0 && minY <= maxY ==> r.value.minY <= r.value.maxY
  {
    if cellSize == 0.0 then None
    else
      var x0, y0 := Trunc(minX / cellSize), Trunc(minY / cellSize);
      var x1, y1 := Trunc(maxX / cellSize), Trunc(maxY / cellSize);
      QuotientOrder(minX, maxX, cellSize);
      QuotientOrder(minY, maxY, cellSize);
      if -Bias <= x0 < Bias && -Bias <= y0 < Bias && -Bias <= x1 < Bias && -Bias <= y1 < Bias
      then Some(CellRange(x0, y0, x1, y1))
      else None
  }

  /** With a positive cell size, ordered coordinates give ordered cell indices. */
  lemma QuotientOrder(a: real, b: real, cellSize: real)
    ensures cellSize > 0.0 && a <= b ==> Trunc(a / cellSize) <= Trunc(b / cellSize)
  {
    if cellSize > 0.0 && a <= b {
      DivMonotone(a, b, cellSize);
      TruncMonotone(a / cellSize, b / cellSize);
    }
  }

  /** With a positive cell size the computed range covers the cell of every
      point of the box. */
  lemma CellRangeOfCovers(minX: real, minY: real, maxX: real, maxY: real, cellSize: real, px: real, py: real)
    requires cellSize > 0.0
    requires minX <= px <= maxX && minY <= py <= maxY
    requires CellRangeOf(minX, minY, maxX, maxY, cellSize).Some?
    ensures InRange(CellRangeOf(minX, minY, maxX, maxY, cellSize).value,
                    Trunc(px / cellSize), Trunc(py / cellSize))
  {
    DivMonotone(minX, px, cellSize);
    DivMonotone(px, maxX, cellSize);
    DivMonotone(minY, py, cellSize);
    DivMonotone(py, maxY, cellSize);
    TruncMonotone(minX / cellSize, px / cellSize);
    TruncMonotone(px / cellSize, maxX / cellSize);
    TruncMonotone(minY / cellSize, py / cellSize);
    TruncMonotone(py / cellSize, maxY / cellSize);
  }

  /** The keys of cells (lo..hi-1, y), in increasing x. */
  function RowKeys(y: Int32, lo: int, hi: int): seq<Uint64>
    requires -0x8000_0000 <= lo && hi <= 0x8000_0000
    decreases hi - lo
  {
    if hi <= lo then [] else RowKeys(y, lo, hi - 1) + [CellKey(hi - 1, y)]
  }

  /** The keys of rows lo..hi-1 of r, row after row. */
  function Rows(r: CellRange, lo: int, hi: int): seq<Uint64>
    requires -0x8000_0000 <= lo && hi <= 0x8000_0000
    decreases hi - lo
  {
    if hi <= lo then [] else Rows(r, lo, hi - 1) + RowKeys(hi - 1, r.minX, r.maxX + 1)
  }

  /** The keys Insert and Query visit for r: cy in the outer loop, cx in the inner one. */
  function RangeKeys(r: CellRange): seq<Uint64> {
    Rows(r, r.minY, r.maxY + 1)
  }

  /** a comes before b when cells are listed row by row (y first, then x). */
  predicate RowMajorBefore(a: Uint64, b: Uint64) {
    KeyY(a) < KeyY(b) || (KeyY(a) == KeyY(b) && KeyX(a) < KeyX(b))
  }

  predicate RowMajor(ks: seq<Uint64>) {
    forall i, j :: 0 <= i < j < |ks| ==> RowMajorBefore(ks[i], ks[j])
  }

  lemma RowMajorConcat(a: seq<Uint64>, b: seq<Uint64>)
    requires RowMajor(a) && RowMajor(b)
    requires forall ka, kb :: ka in a && kb in b ==> RowMajorBefore(ka, kb)
    ensures RowMajor(a + b)
  {
    forall i, j | 0 <= i < j < |a + b| ensures RowMajorBefore((a + b)[i], (a + b)[j]) {
      if j < |a| {
      } else if i >= |a| {
        assert (a + b)[i] == b[i - |a|] && (a + b)[j] == b[j - |a|];
      } else {
        assert (a + b)[i] in a && (a + b)[j] in b;
      }
    }
  }

  lemma RowMajorNoDups(ks: seq<Uint64>)
    requires RowMajor(ks)
    ensures NoDups(ks)
  {
  }

  /** The keys of row y from lo to hi are the keys of the cells (x, y) with lo <= x < hi. */
  lemma {:induction false} RowKeysMember(y: Int32, lo: int, hi: int, k: Uint64)
    requires -0x8000_0000 <= lo && hi <= 0x8000_0000
    ensures k in RowKeys(y, lo, hi) <==> KeyY(k) == y && lo <= KeyX(k) < hi
    decreases hi - lo
  {
    if lo < hi {
      RowKeysMember(y, lo, hi - 1, k);
      KeyDecodeEncode(k);
    }
  }

  /** A row lists its keys in increasing x. */
  lemma {:induction false} RowKeysOrdered(y: Int32, lo: int, hi: int)
    requires -0x8000_0000 <= lo && hi <= 0x8000_0000
    ensures RowMajor(RowKeys(y, lo, hi))
    decreases hi - lo
  {
    if lo < hi {
      var p := RowKeys(y, lo, hi - 1);
      RowKeysOrdered(y, lo, hi - 1);
      forall ka, kb | ka in p && kb in [CellKey(hi - 1, y)] ensures RowMajorBefore(ka, kb) {
        RowKeysMember(y, lo, hi - 1, ka);
      }
      RowMajorConcat(p, [CellKey(hi - 1, y)]);
    }
  }

  lemma {:induction false} RowKeysLength(y: Int32, lo: int, hi: int)
    requires -0x8000_0000 <= lo && hi <= 0x8000_0000
    ensures |RowKeys(y, lo, hi)| == if lo < hi then hi - lo else 0
    decreases hi - lo
  {
    if lo < hi {
      RowKeysLength(y, lo, hi - 1);
    }
  }

  /** The keys of rows lo..hi-1 are the keys of the cells of those rows within [r.minX, r.maxX]. */
  lemma {:induction false} RowsMember(r: CellRange, lo: int, hi: int, k: Uint64)
    requires -0x8000_0000 <= lo && hi <= 0x8000_0000
    ensures k in Rows(r, lo, hi) <==> lo <= KeyY(k) < hi && r.minX <= KeyX(k) <= r.maxX
    decreases hi - lo
  {
    if lo < hi {
      RowsMember(r, lo, hi - 1, k);
      RowKeysMember(hi - 1, r.minX, r.maxX + 1, k);
    }
  }

  /** Rows are listed bottom to top, each row in increasing x. */
  lemma {:induction false} RowsOrdered(r: CellRange, lo: int, hi: int)
    requires -0x8000_0000 <= lo && hi <= 0x8000_0000
    ensures RowMajor(Rows(r, lo, hi))
    decreases hi - lo
  {
    if lo < hi {
      var p := Rows(r, lo, hi - 1);
      var row := RowKeys(hi - 1, r.minX, r.maxX + 1);
      RowsOrdered(r, lo, hi - 1);
      RowKeysOrdered(hi - 1, r.minX, r.maxX + 1);
      forall ka, kb | ka in p && kb in row ensures RowMajorBefore(ka, kb) {
        EarlierRowBefore(r, lo, hi, ka, kb);
      }
      RowMajorConcat(p, row);
    }
  }

  /** A key of an earlier row comes before every key of row hi - 1. */
  lemma EarlierRowBefore(r: CellRange, lo: int, hi: int, ka: Uint64, kb: Uint64)
    requires -0x8000_0000 <= lo < hi <= 0x8000_0000
    requires ka in Rows(r, lo, hi - 1) && kb in RowKeys(hi - 1, r.minX, r.maxX + 1)
    ensures RowMajorBefore(ka, kb)
  {
    RowsMember(r, lo, hi - 1, ka);
    RowKeysMember(hi - 1, r.minX, r.maxX + 1, kb);
  }

  /** The number of cells in one row of r. */
  function Width(r: CellRange): nat {
    if r.minX <= r.maxX then r.maxX - r.minX + 1 else 0
  }

  lemma {:induction false} RowsLength(r: CellRange, lo: int, hi: int)
    requires -0x8000_0000 <= lo && hi <= 0x8000_0000
    ensures |Rows(r, lo, hi)| == Width(r) * (if lo < hi then hi - lo else 0)
    decreases hi - lo
  {
    if lo < hi {
      RowsLength(r, lo, hi - 1);
      RowKeysLength(hi - 1, r.minX, r.maxX + 1);
      MulSucc(hi - 1 - lo, Width(r));
    }
  }

  /** Visiting cell (cx, cy) extends the keys visited so far by its key. */
  lemma VisitNext(r: CellRange, cy: int, cx: int)
    requires r.minY <= cy <= r.maxY && r.minX <= cx <= r.maxX
    ensures Rows(r, r.minY, cy) + RowKeys(cy, r.minX, cx + 1)
         == (Rows(r, r.minY, cy) + RowKeys(cy, r.minX, cx)) + [CellKey(cx, cy)]
  {
  }

  /** A finished row completes the rows visited so far. */
  lemma VisitRowDone(r: CellRange, cy: int, cx: int)
    requires r.minY <= cy <= r.maxY
    requires r.minX <= cx && r.maxX < cx && (cx <= r.maxX + 1 || cx == r.minX)
    ensures Rows(r, r.minY, cy) + RowKeys(cy, r.minX, cx) == Rows(r, r.minY, cy + 1)
  {
  }

  /** The key of cell (cx, cy) has not been visited before it in row-major order. */
  lemma NextKeyIsNew(r: CellRange, cy: int, cx: int)
    requires r.minY <= cy <= r.maxY && r.minX <= cx <= r.maxX
    ensures CellKey(cx, cy) !in Rows(r, r.minY, cy) + RowKeys(cy, r.minX, cx)
  {
    RowsMember(r, r.minY, cy, CellKey(cx, cy));
    RowKeysMember(cy, r.minX, cx, CellKey(cx, cy));
  }

  /** A key lies in the keys of a cell range exactly when its cell is in the range. */
  lemma RangeKeysMember(r: CellRange, k: Uint64)
    ensures k in RangeKeys(r) <==> InRange(r, KeyX(k), KeyY(k))
  {
    RowsMember(r, r.minY, r.maxY + 1, k);
  }

  /** The keys of a cell range are listed row by row, hence each once. */
  lemma RangeKeysOrdered(r: CellRange)
    ensures RowMajor(RangeKeys(r)) && NoDups(RangeKeys(r))
  {
    RowsOrdered(r, r.minY, r.maxY + 1);
    RowMajorNoDups(RangeKeys(r));
  }

  /**
   * The keys of a cell range: exactly the keys of its cells, each once, row
   * by row, as many as the range has cells.
   */
  lemma RangeKeysFacts(r: CellRange)
    ensures forall k :: k in RangeKeys(r) <==> InRange(r, KeyX(k), KeyY(k))
    ensures RowMajor(RangeKeys(r)) && NoDups(RangeKeys(r))
    ensures |RangeKeys(r)| ==
      if r.minX <= r.maxX && r.minY <= r.maxY then (r.maxX - r.minX + 1) * (r.maxY - r.minY + 1) else 0
  {
    forall k ensures k in RangeKeys(r) <==> InRange(r, KeyX(k), KeyY(k)) {
      RangeKeysMember(r, k);
    }
    RangeKeysOrdered(r);
    RowsLength(r, r.minY, r.maxY + 1);
  }

  // ---------------------------------------------------------------------------
  // The three tables and what Insert, Remove and Query make of them
  // ---------------------------------------------------------------------------

  /**
   * The invariant between the tables, kept by every operation:
   * items and itemCells know the same items; every stamp is at most gen;
   * no bucket is empty; an item's key list has no repeats; an item in a
   * bucket is known and lists that bucket's key; and an item occurs exactly
   * once in the bucket of each key it lists.
   */
  ghost predicate Inv<T>(cells: map<Uint64, seq<T>>, items: map<T, nat>, itemCells: map<T, seq<Uint64>>, gen: nat)
  {
    && items.Keys == itemCells.Keys
    && (forall t :: t in items ==> items[t] <= gen)
    && (forall k :: k in cells ==> cells[k] != [])
    && (forall t :: t in itemCells ==> NoDups(itemCells[t]))
    && BucketsIndexed(cells, itemCells)
    && IndexCounted(cells, itemCells)
  }

  /** An item in a bucket is known and lists that bucket's key. */
  ghost predicate BucketsIndexed<T>(cells: map<Uint64, seq<T>>, itemCells: map<T, seq<Uint64>>) {
    forall k, t :: k in cells && t in cells[k] ==> t in itemCells && k in itemCells[t]
  }

  /** An item occurs exactly once in the bucket of each key it lists. */
  ghost predicate IndexCounted<T>(cells: map<Uint64, seq<T>>, itemCells: map<T, seq<Uint64>>) {
    forall t, k :: t in itemCells && k in itemCells[t] ==> k in cells && multiset(cells[k])[t] == 1
  }

  /** The bucket store after t is appended to the bucket of every key in keys. */
  function InsertCells<T>(cells: map<Uint64, seq<T>>, keys: seq<Uint64>, t: T): map<Uint64, seq<T>>
  {
    map k | k in cells.Keys + (set k | k in keys) :: if k in keys then Bucket(cells, k) + [t] else cells[k]
  }

  /** s with every occurrence of t removed, the rest in order: Remove's compaction. */
  function Without<T(==)>(s: seq<T>, t: T): seq<T>
  {
    if s == [] then [] else Without(s[..|s| - 1], t) + if s[|s| - 1] == t then [] else [s[|s| - 1]]
  }

  /** Without deletes t and only t: every other element keeps its count. */
  lemma WithoutFacts<T>(s: seq<T>, t: T, x: T)
    ensures x in Without(s, t) <==> x in s && x != t
    ensures multiset(Without(s, t))[x] == if x == t then 0 else multiset(s)[x]
  {
    WithoutCount(s, t, x);
  }

  lemma {:induction false} WithoutCount<T>(s: seq<T>, t: T, x: T)
    ensures multiset(Without(s, t))[x] == if x == t then 0 else multiset(s)[x]
  {
    if s != [] {
      var p := s[..|s| - 1];
      WithoutCount(p, t, x);
      SplitLast(s);
    }
  }

  /** The bucket store after t is removed from the buckets of keys, dropping
      the buckets that become empty. */
  function RemoveCells<T(==)>(cells: map<Uint64, seq<T>>, keys: seq<Uint64>, t: T): map<Uint64, seq<T>>
  {
    map k | k in cells && (k in keys ==> Without(cells[k], t) != []) ::
      if k in keys then Without(cells[k], t) else cells[k]
  }

  /** What Query reports: the items of the buckets of r, each once, in
      first-encounter order. */
  function QueryResult<T(==)>(cells: map<Uint64, seq<T>>, r: CellRange): seq<T> {
    Dedup(Scan(cells, RangeKeys(r)))
  }

  /** The stamp table after a query at generation g reported result. */
  function Stamp<T(==)>(items: map<T, nat>, result: seq<T>, g: nat): map<T, nat> {
    map t | t in items :: if t in result then g else items[t]
  }

  /** Before anything is reported the stamps are unchanged. */
  lemma StampNothing<T>(items: map<T, nat>, g: nat)
    ensures Stamp(items, [], g) == items
  {
  }

  /** Under a fresh generation g, an item's stamp is g exactly when it has
      been reported, and reporting one more item stamps just that item. */
  lemma StampRecords<T>(items: map<T, nat>, buf: seq<T>, g: nat, t: T)
    requires t in items && items[t] < g
    ensures t in Stamp(items, buf, g) && (Stamp(items, buf, g)[t] == g <==> t in buf)
    ensures Stamp(items, buf + [t], g) == Stamp(items, buf, g)[t := g]
  {
    var a, b := Stamp(items, buf + [t], g), Stamp(items, buf, g)[t := g];
    assert a.Keys == b.Keys;
    forall u | u in a ensures a[u] == b[u] {
    }
  }

  lemma InsertCellsStep<T>(cells: map<Uint64, seq<T>>, keys: seq<Uint64>, t: T, key: Uint64)
    requires key !in keys
    ensures Bucket(InsertCells(cells, keys, t), key) == Bucket(cells, key)
    ensures InsertCells(cells, keys + [key], t)
         == InsertCells(cells, keys, t)[key := Bucket(cells, key) + [t]]
  {
    var a := InsertCells(cells, keys + [key], t);
    var b := InsertCells(cells, keys, t)[key := Bucket(cells, key) + [t]];
    assert a.Keys == b.Keys;
    forall k | k in a ensures a[k] == b[k] {
    }
  }

  lemma RemoveCellsStep<T>(cells: map<Uint64, seq<T>>, keys: seq<Uint64>, t: T, key: Uint64)
    requires key !in keys
    ensures Bucket(RemoveCells(cells, keys, t), key) == Bucket(cells, key)
    ensures RemoveCells(cells, keys + [key], t)
         == var m := RemoveCells(cells, keys, t);
            var w := Without(Bucket(cells, key), t);
            if w == [] then m - {key} else m[key := w]
  {
    var m := RemoveCells(cells, keys, t);
    var w := Without(Bucket(cells, key), t);
    var a := RemoveCells(cells, keys + [key], t);
    var b := if w == [] then m - {key} else m[key := w];
    assert a.Keys == b.Keys;
    forall k | k in a ensures a[k] == b[k] {
    }
  }

  /** Inserting a new item with a repeat-free key list keeps the invariant. */
  lemma InsertKeepsInv<T>(cells: map<Uint64, seq<T>>, items: map<T, nat>, itemCells: map<T, seq<Uint64>>,
                          gen: nat, t: T, keys: seq<Uint64>)
    requires Inv(cells, items, itemCells, gen)
    requires t !in itemCells && NoDups(keys)
    ensures Inv(InsertCells(cells, keys, t), items[t := 0], itemCells[t := keys], gen)
  {
    InsertKeepsIndex(cells, itemCells, t, keys);
  }

  lemma InsertKeepsIndex<T>(cells: map<Uint64, seq<T>>, itemCells: map<T, seq<Uint64>>, t: T, keys: seq<Uint64>)
    requires IndexCounted(cells, itemCells) && BucketsIndexed(cells, itemCells) && t !in itemCells
    ensures BucketsIndexed(InsertCells(cells, keys, t), itemCells[t := keys])
    ensures IndexCounted(InsertCells(cells, keys, t), itemCells[t := keys])
  {
    var c := InsertCells(cells, keys, t);
    var ic := itemCells[t := keys];
    forall k, u | k in c && u in c[k] ensures u in ic && k in ic[u] {
      InsertedBucketMember(cells, itemCells, t, keys, k, u);
    }
    forall u, k | u in ic && k in ic[u] ensures k in c && multiset(c[k])[u] == 1 {
      InsertedCount(cells, itemCells, t, keys, k, u);
    }
  }

  lemma InsertedBucketMember<T>(cells: map<Uint64, seq<T>>, itemCells: map<T, seq<Uint64>>,
                                t: T, keys: seq<Uint64>, k: Uint64, u: T)
    requires BucketsIndexed(cells, itemCells) && t !in itemCells
    requires k in InsertCells(cells, keys, t) && u in InsertCells(cells, keys, t)[k]
    ensures u in itemCells[t := keys] && k in itemCells[t := keys][u]
  {
    if u != t {
      assert u in Bucket(cells, k);
    }
  }

  lemma InsertedCount<T>(cells: map<Uint64, seq<T>>, itemCells: map<T, seq<Uint64>>,
                         t: T, keys: seq<Uint64>, k: Uint64, u: T)
    requires IndexCounted(cells, itemCells) && BucketsIndexed(cells, itemCells) && t !in itemCells
    requires u in itemCells[t := keys] && k in itemCells[t := keys][u]
    ensures k in InsertCells(cells, keys, t) && multiset(InsertCells(cells, keys, t)[k])[u] == 1
  {
    if u == t {
      assert t !in Bucket(cells, k);
    } else {
      assert multiset(cells[k])[u] == 1;
    }
  }

  /** Removing a known item keeps the invariant and leaves it in no bucket. */
  lemma RemoveKeepsInv<T>(cells: map<Uint64, seq<T>>, items: map<T, nat>, itemCells: map<T, seq<Uint64>>,
                          gen: nat, t: T)
    requires Inv(cells, items, itemCells, gen)
    requires t in itemCells
    ensures Inv(RemoveCells(cells, itemCells[t], t), items - {t}, itemCells - {t}, gen)
    ensures forall k :: k in RemoveCells(cells, itemCells[t], t) ==> t !in RemoveCells(cells, itemCells[t], t)[k]
  {
    var c := RemoveCells(cells, itemCells[t], t);
    var ic := itemCells - {t};
    RemoveKeepsMembership(cells, itemCells, t, c, ic);
    RemoveKeepsCounts(cells, itemCells, t, c, ic);
    assert (items - {t}).Keys == ic.Keys;
  }

  lemma RemoveKeepsMembership<T>(cells: map<Uint64, seq<T>>, itemCells: map<T, seq<Uint64>>,
                                 t: T, c: map<Uint64, seq<T>>, ic: map<T, seq<Uint64>>)
    requires BucketsIndexed(cells, itemCells)
    requires t in itemCells && c == RemoveCells(cells, itemCells[t], t) && ic == itemCells - {t}
    ensures BucketsIndexed(c, ic)
    ensures forall k :: k in c ==> t !in c[k]
  {
    forall k, u | k in c && u in c[k] ensures u in itemCells && u != t && k in itemCells[u] {
      RemovedBucketMember(cells, itemCells, t, k, u);
    }
  }

  lemma RemovedBucketMember<T>(cells: map<Uint64, seq<T>>, itemCells: map<T, seq<Uint64>>, t: T, k: Uint64, u: T)
    requires BucketsIndexed(cells, itemCells)
    requires t in itemCells
    requires k in RemoveCells(cells, itemCells[t], t) && u in RemoveCells(cells, itemCells[t], t)[k]
    ensures u in itemCells && u != t && k in itemCells[u]
  {
    if k in itemCells[t] {
      WithoutFacts(cells[k], t, u);
    }
    assert u in cells[k];
  }

  lemma RemoveKeepsCounts<T>(cells: map<Uint64, seq<T>>, itemCells: map<T, seq<Uint64>>,
                             t: T, c: map<Uint64, seq<T>>, ic: map<T, seq<Uint64>>)
    requires IndexCounted(cells, itemCells)
    requires t in itemCells && c == RemoveCells(cells, itemCells[t], t) && ic == itemCells - {t}
    ensures IndexCounted(c, ic)
  {
    var keys := itemCells[t];
    forall u, k | u in ic && k in ic[u] ensures k in c && multiset(c[k])[u] == 1 {
      assert u in itemCells && u != t && k in itemCells[u];
      assert multiset(cells[k])[u] == 1;
      if k in keys {
        WithoutFacts(cells[k], t, u);
        assert u in Without(cells[k], t);
      }
    }
  }

  /** Stamping the reported items with the next generation keeps the invariant. */
  lemma StampKeepsInv<T>(cells: map<Uint64, seq<T>>, items: map<T, nat>, itemCells: map<T, seq<Uint64>>,
                         gen: nat, result: seq<T>)
    requires Inv(cells, items, itemCells, gen)
    ensures Inv(cells, Stamp(items, result, gen + 1), itemCells, gen + 1)
  {
  }

  /** An item is reported exactly when it lies in the bucket of some cell of
      the range (there is no bounding-box recheck). */
  lemma QueryMember<T>(cells: map<Uint64, seq<T>>, r: CellRange, t: T)
    ensures t in QueryResult(cells, r) <==> exists k :: k in cells && InRange(r, KeyX(k), KeyY(k)) && t in cells[k]
  {
    var s := Scan(cells, RangeKeys(r));
    DedupMembers(s, t);
    ScanMembers(cells, RangeKeys(r), t);
    if t in s {
      var k :| k in RangeKeys(r) && t in Bucket(cells, k);
      RangeKeysMember(r, k);
      assert k in cells && InRange(r, KeyX(k), KeyY(k)) && t in cells[k];
    }
    if exists k :: k in cells && InRange(r, KeyX(k), KeyY(k)) && t in cells[k] {
      var k :| k in cells && InRange(r, KeyX(k), KeyY(k)) && t in cells[k];
      RangeKeysMember(r, k);
      assert k in RangeKeys(r) && t in Bucket(cells, k);
    }
  }

  /**
   * Query's result: no item twice, items in first-encounter order of the
   * scan, and an item is reported exactly when it lies in the bucket of some
   * cell of the range.
   */
  lemma QueryResultFacts<T>(cells: map<Uint64, seq<T>>, r: CellRange)
    ensures NoDups(QueryResult(cells, r))
    ensures InFirstOccurrenceOrder(QueryResult(cells, r), Scan(cells, RangeKeys(r)))
    ensures forall t :: t in QueryResult(cells, r) <==>
              exists k :: k in cells && InRange(r, KeyX(k), KeyY(k)) && t in cells[k]
  {
    var s := Scan(cells, RangeKeys(r));
    DedupNoDups(s);
    DedupOrder(s);
    forall t ensures t in QueryResult(cells, r) <==>
                     exists k :: k in cells && InRange(r, KeyX(k), KeyY(k)) && t in cells[k]
    {
      QueryMember(cells, r, t);
    }
  }

  /**
   * For an item inserted with cell range ins (so itemCells lists exactly the
   * keys of ins), a query over q reports it exactly when the two cell ranges
   * share a cell.
   */
  lemma QueryFindsInserted<T>(cells: map<Uint64, seq<T>>, items: map<T, nat>, itemCells: map<T, seq<Uint64>>,
                              gen: nat, t: T, ins: CellRange, q: CellRange)
    requires Inv(cells, items, itemCells, gen)
    requires t in itemCells && itemCells[t] == RangeKeys(ins)
    ensures t in QueryResult(cells, q) <==> Overlap(ins, q)
  {
    QueryMember(cells, q, t);
    if t in QueryResult(cells, q) {
      FoundImpliesOverlap(cells, itemCells, t, ins, q);
    }
    if Overlap(ins, q) {
      OverlapImpliesFound(cells, itemCells, t, ins, q);
    }
  }

  /** Two non-empty cell ranges that share a cell. */
  predicate Overlap(a: CellRange, b: CellRange) {
    && a.minX <= a.maxX && b.minX <= b.maxX && a.minY <= a.maxY && b.minY <= b.maxY
    && a.minX <= b.maxX && b.minX <= a.maxX && a.minY <= b.maxY && b.minY <= a.maxY
  }

  lemma FoundImpliesOverlap<T>(cells: map<Uint64, seq<T>>, itemCells: map<T, seq<Uint64>>,
                               t: T, ins: CellRange, q: CellRange)
    requires BucketsIndexed(cells, itemCells)
    requires t in itemCells && itemCells[t] == RangeKeys(ins)
    requires exists k :: k in cells && InRange(q, KeyX(k), KeyY(k)) && t in cells[k]
    ensures Overlap(ins, q)
  {
    var k :| k in cells && InRange(q, KeyX(k), KeyY(k)) && t in cells[k];
    assert k in RangeKeys(ins);
    RangeKeysMember(ins, k);
  }

  lemma OverlapImpliesFound<T>(cells: map<Uint64, seq<T>>, itemCells: map<T, seq<Uint64>>,
                               t: T, ins: CellRange, q: CellRange)
    requires IndexCounted(cells, itemCells)
    requires t in itemCells && itemCells[t] == RangeKeys(ins)
    requires Overlap(ins, q)
    ensures exists k :: k in cells && InRange(q, KeyX(k), KeyY(k)) && t in cells[k]
  {
    var x: Int32 := if ins.minX < q.minX then q.minX else ins.minX;
    var y: Int32 := if ins.minY < q.minY then q.minY else ins.minY;
    var k := CellKey(x, y);
    RangeKeysMember(ins, k);
    assert multiset(cells[k])[t] == 1;
    assert k in cells && InRange(q, KeyX(k), KeyY(k)) && t in cells[k];
  }

  // ---------------------------------------------------------------------------
  // Go's int32 loop counters
  // ---------------------------------------------------------------------------

  /** cy++ on an int32: MaxInt32 wraps to MinInt32. */
  function Inc32(c: Int32): Int32 {
    if c == 0x7fff_ffff then -0x8000_0000 else c + 1
  }

  /** The counter after n increments from start. */
  function Int32Sweep(start: Int32, n: nat): Int32 {
    if n == 0 then start else Inc32(Int32Sweep(start, n - 1))
  }

  /** n increments add n modulo 2^32 (two's complement). */
  lemma {:induction false} Int32SweepWraps(start: Int32, n: nat)
    ensures Int32Sweep(start, n) == (start + n + Bias) % Word - Bias
  {
    if n > 0 {
      Int32SweepWraps(start, n - 1);
    }
  }

  /**
   * As written, `for cy := minCellY; cy <= maxCellY; cy++` with maxCellY ==
   * MaxInt32 never ends: the guard holds after every number of increments and
   * the counter comes back to its start after 2^32 of them.
   */
  lemma Int32LoopNeverEnds(start: Int32, n: nat)
    ensures Int32Sweep(start, n) <= 0x7fff_ffff
    ensures Int32Sweep(start, n + 0x1_0000_0000) == Int32Sweep(start, n)
  {
    Int32SweepWraps(start, n);
    Int32SweepWraps(start, n + 0x1_0000_0000);
  }

  /**
   * Insert's loops: the cells of r in row-major order (y outer, x inner),
   * the item appended to the bucket of each, a missing bucket created.
   */
  method InsertIntoBuckets<T>(cells: map<Uint64, seq<T>>, r: CellRange, item: T)
    returns (newCells: map<Uint64, seq<T>>, cellKeys: seq<Uint64>)
    ensures cellKeys == RangeKeys(r)
    ensures newCells == InsertCells(cells, cellKeys, item)
  {
    newCells, cellKeys := cells, [];
    var cy: int := r.minY;
    while cy <= r.maxY
      invariant r.minY <= cy && (cy <= r.maxY + 1 || cy == r.minY)
      invariant cellKeys == Rows(r, r.minY, cy)
      invariant newCells == InsertCells(cells, cellKeys, item)
    {
      newCells, cellKeys := InsertRow(cells, r, cy, item, newCells, cellKeys);
      cy := cy + 1;
    }
  }

  /** One row of Insert's loops: the cells (r.minX..r.maxX, cy) in increasing x. */
  method InsertRow<T>(cells: map<Uint64, seq<T>>, r: CellRange, cy: Int32, item: T,
                      newCells0: map<Uint64, seq<T>>, cellKeys0: seq<Uint64>)
    returns (newCells: map<Uint64, seq<T>>, cellKeys: seq<Uint64>)
    requires r.minY <= cy <= r.maxY
    requires cellKeys0 == Rows(r, r.minY, cy) && newCells0 == InsertCells(cells, cellKeys0, item)
    ensures cellKeys == Rows(r, r.minY, cy + 1) && newCells == InsertCells(cells, cellKeys, item)
  {
    newCells, cellKeys := newCells0, cellKeys0;
    RowStart(r, cy);
    var cx: int := r.minX;
    while cx <= r.maxX
      invariant r.minX <= cx && (cx <= r.maxX + 1 || cx == r.minX)
      invariant cellKeys == Rows(r, r.minY, cy) + RowKeys(cy, r.minX, cx)
      invariant newCells == InsertCells(cells, cellKeys, item)
    {
      newCells, cellKeys := InsertCell(cells, r, cy, cx, item, newCells, cellKeys);
      cx := cx + 1;
    }
    VisitRowDone(r, cy, cx);
  }

  /** One cell of Insert's loops: the item appended to the bucket of (cx, cy). */
  method InsertCell<T>(cells: map<Uint64, seq<T>>, r: CellRange, cy: Int32, cx: Int32, item: T,
                       newCells0: map<Uint64, seq<T>>, cellKeys0: seq<Uint64>)
    returns (newCells: map<Uint64, seq<T>>, cellKeys: seq<Uint64>)
    requires r.minY <= cy <= r.maxY && r.minX <= cx <= r.maxX
    requires cellKeys0 == Rows(r, r.minY, cy) + RowKeys(cy, r.minX, cx)
    requires newCells0 == InsertCells(cells, cellKeys0, item)
    ensures cellKeys == Rows(r, r.minY, cy) + RowKeys(cy, r.minX, cx + 1)
    ensures newCells == InsertCells(cells, cellKeys, item)
  {
    var key := CellKey(cx, cy);
    NextKeyIsNew(r, cy, cx);
    InsertCellsStep(cells, cellKeys0, item, key);
    newCells := newCells0[key := Bucket(newCells0, key) + [item]];
    VisitNext(r, cy, cx);
    cellKeys := cellKeys0 + [key];
  }

  /** Before the first cell of a row nothing of it has been visited. */
  lemma RowStart(r: CellRange, cy: Int32)
    requires r.minY <= cy
    ensures Rows(r, r.minY, cy) + RowKeys(cy, r.minX, r.minX) == Rows(r, r.minY, cy)
  {
    AppendNil(Rows(r, r.minY, cy));
  }

  /** Remove's in-place compaction of one bucket with a write index: the
      elements other than t, in order. */
  method Compact<T(==)>(bucket: seq<T>, t: T) returns (kept: seq<T>)
    ensures kept == Without(bucket, t)
    ensures forall x :: x in kept <==> x in bucket && x != t
  {
    kept := [];
    for j := 0 to |bucket|
      invariant kept == Without(bucket[..j], t)
    {
      assert bucket[..j + 1][..j] == bucket[..j];
      if bucket[j] != t {
        kept := kept + [bucket[j]];
      }
    }
    WholePrefix(bucket);
    forall x ensures x in kept <==> x in bucket && x != t {
      WithoutFacts(bucket, t, x);
    }
  }

  /**
   * Remove's loop over the item's key list: each listed bucket is compacted
   * in place, keeping every element other than t in order, and a bucket left
   * empty is deleted.
   */
  method RemoveFromBuckets<T(==)>(cells: map<Uint64, seq<T>>, cellKeys: seq<Uint64>, item: T)
    returns (newCells: map<Uint64, seq<T>>)
    requires NoDups(cellKeys)
    ensures newCells == RemoveCells(cells, cellKeys, item)
  {
    newCells := cells;
    for i := 0 to |cellKeys|
      invariant newCells == RemoveCells(cells, cellKeys[..i], item)
    {
      var key := cellKeys[i];
      var bucket := Bucket(newCells, key);
      var kept := Compact(bucket, item);
      NoDupsPrefix(cellKeys, i);
      RemoveCellsStep(cells, cellKeys[..i], item, key);
      PrefixSnoc(cellKeys, i);
      if |kept| == 0 {
        newCells := newCells - {key};
      } else {
        newCells := newCells[key := kept];
      }
    }
    WholePrefix(cellKeys);
  }

  /** One bucket of Query's scan: the items not yet stamped with g are
      appended in bucket order and stamped. */
  method ScanBucket<T(==)>(bucket: seq<T>, items: map<T, nat>, g: nat, ghost seen: seq<T>,
                           buf0: seq<T>, stamps0: map<T, nat>)
    returns (buf: seq<T>, stamps: map<T, nat>)
    requires forall t :: t in bucket ==> t in items
    requires forall t :: t in items ==> items[t] < g
    requires buf0 == Dedup(seen) && stamps0 == Stamp(items, buf0, g)
    ensures buf == Dedup(seen + bucket) && stamps == Stamp(items, buf, g)
  {
    buf, stamps := buf0, stamps0;
    assert seen + bucket[..0] == seen;
    for j := 0 to |bucket|
      invariant buf == Dedup(seen + bucket[..j])
      invariant stamps == Stamp(items, buf, g)
    {
      var it := bucket[j];
      PrefixSnoc(bucket, j);
      AppendAssoc(seen, bucket[..j], [it]);
      DedupSnoc(seen + bucket[..j], it);
      var stamp := if it in stamps then stamps[it] else 0;
      StampRecords(items, buf, g, it);
      if stamp != g {
        buf := buf + [it];
        stamps := stamps[it := g];
      }
    }
    WholePrefix(bucket);
  }

  /**
   * Query's scan: the cells of r in row-major order, each bucket in order;
   * an item is appended to the result unless its stamp already equals the
   * generation g, and is then stamped with g.
   */
  method ScanRange<T(==)>(cells: map<Uint64, seq<T>>, items: map<T, nat>, r: CellRange, g: nat)
    returns (buf: seq<T>, stamps: map<T, nat>)
    requires forall k, t :: k in cells && t in cells[k] ==> t in items
    requires forall t :: t in items ==> items[t] < g
    ensures buf == QueryResult(cells, r)
    ensures stamps == Stamp(items, buf, g)
  {
    buf, stamps := [], items;
    StampNothing(items, g);
    var cy: int := r.minY;
    while cy <= r.maxY
      invariant r.minY <= cy && (cy <= r.maxY + 1 || cy == r.minY)
      invariant Scanned(cells, items, g, Rows(r, r.minY, cy), buf, stamps)
    {
      buf, stamps := ScanRow(cells, items, r, cy, g, buf, stamps);
      cy := cy + 1;
    }
    RowsDone(r, cy);
  }

  lemma BucketKnown<T>(cells: map<Uint64, seq<T>>, items: map<T, nat>, key: Uint64)
    requires forall k, t :: k in cells && t in cells[k] ==> t in items
    ensures forall t :: t in Bucket(cells, key) ==> t in items
  {
  }

  /** Query's state after scanning the cells listed in visited: the items of
      their buckets in order, once each, and exactly those stamped with g. */
  ghost predicate Scanned<T>(cells: map<Uint64, seq<T>>, items: map<T, nat>, g: nat,
                             visited: seq<Uint64>, buf: seq<T>, stamps: map<T, nat>)
  {
    buf == Dedup(Scan(cells, visited)) && stamps == Stamp(items, buf, g)
  }

  /** The cells visited before (cx, cy): the rows above it and the cells to its left. */
  ghost predicate RowVisited(r: CellRange, cy: Int32, cx: int, visited: seq<Uint64>)
    requires cx <= 0x8000_0000
  {
    visited == Rows(r, r.minY, cy) + RowKeys(cy, r.minX, cx)
  }

  /** One row of Query's scan: the cells (r.minX..r.maxX, cy) in increasing x. */
  method ScanRow<T(==)>(cells: map<Uint64, seq<T>>, items: map<T, nat>, r: CellRange, cy: Int32, g: nat,
                        buf0: seq<T>, stamps0: map<T, nat>)
    returns (buf: seq<T>, stamps: map<T, nat>)
    requires forall k, t :: k in cells && t in cells[k] ==> t in items
    requires forall t :: t in items ==> items[t] < g
    requires r.minY <= cy <= r.maxY
    requires Scanned(cells, items, g, Rows(r, r.minY, cy), buf0, stamps0)
    ensures Scanned(cells, items, g, Rows(r, r.minY, cy + 1), buf, stamps)
  {
    buf, stamps := buf0, stamps0;
    RowStart(r, cy);
    ghost var visited := Rows(r, r.minY, cy);
    var cx: int := r.minX;
    while cx <= r.maxX
      invariant r.minX <= cx && (cx <= r.maxX + 1 || cx == r.minX)
      invariant RowVisited(r, cy, cx, visited)
      invariant Scanned(cells, items, g, visited, buf, stamps)
    {
      buf, stamps, visited := ScanCell(cells, items, r, cy, cx, g, visited, buf, stamps);
      cx := cx + 1;
    }
    VisitRowDone(r, cy, cx);
  }

  /** One cell of Query's scan: the bucket of (cx, cy) is scanned after the
      cells visited before it in row-major order. */
  method ScanCell<T(==)>(cells: map<Uint64, seq<T>>, items: map<T, nat>, r: CellRange, cy: Int32, cx: Int32,
                         g: nat, ghost visited0: seq<Uint64>, buf0: seq<T>, stamps0: map<T, nat>)
    returns (buf: seq<T>, stamps: map<T, nat>, ghost visited: seq<Uint64>)
    requires forall k, t :: k in cells && t in cells[k] ==> t in items
    requires forall t :: t in items ==> items[t] < g
    requires r.minY <= cy <= r.maxY && r.minX <= cx <= r.maxX
    requires RowVisited(r, cy, cx, visited0)
    requires Scanned(cells, items, g, visited0, buf0, stamps0)
    ensures RowVisited(r, cy, cx + 1, visited)
    ensures Scanned(cells, items, g, visited, buf, stamps)
  {
    var key := CellKey(cx, cy);
    BucketKnown(cells, items, key);
    ScanSnoc(cells, visited0, key);
    buf, stamps := ScanBucket(Bucket(cells, key), items, g, Scan(cells, visited0), buf0, stamps0);
    VisitNext(r, cy, cx);
    visited := visited0 + [key];
  }

  /** After the last row the visited rows are all of r. */
  lemma RowsDone(r: CellRange, cy: int)
    requires r.minY <= cy && r.maxY < cy && (cy <= r.maxY + 1 || cy == r.minY)
    ensures Rows(r, r.minY, cy) == RangeKeys(r)
  {
  }

  // ---------------------------------------------------------------------------
  // Grid
  // ---------------------------------------------------------------------------

  class Grid<T(==)> {
    var gen: nat
    const cellSize: real
    var cells: map<Uint64, seq<T>>
    var items: map<T, nat>
    var itemCells: map<T, seq<Uint64>>
    var qBuf: seq<T>

    ghost predicate Valid()
      reads this
    {
      Inv(cells, items, itemCells, gen)
    }

    /** NewGrid: empty tables, generation 0; the cell size is not checked. */
    constructor NewGrid(cellSize: real)
      ensures Valid() && this.cellSize == cellSize
      ensures cells == map[] && items == map[] && itemCells == map[]
      ensures gen == 0 && qBuf == []
    {
      this.cellSize := cellSize;
      cells := map[];
      items := map[];
      itemCells := map[];
      gen := 0;
      qBuf := [];
    }

    /** Contains: the item has a stamp, i.e. a reverse-index entry; an item
        that is not contained lies in no bucket. */
    method Contains(item: T) returns (present: bool)
      requires Valid()
      ensures present <==> item in itemCells
      ensures !present ==> forall k :: k in cells ==> item !in cells[k]
    {
      present := item in items;
    }

    /**
     * Insert: an item already present is refused and nothing changes;
     * otherwise it is appended once to the bucket of every cell of r, its key
     * list is the keys of r in visiting order, and its stamp is 0.
     */
    method Insert(item: T, r: CellRange) returns (added: bool)
      requires Valid()
      modifies this
      ensures Valid()
      ensures added == (item !in old(itemCells))
      ensures !added ==> cells == old(cells) && items == old(items) && itemCells == old(itemCells)
      ensures added ==> cells == InsertCells(old(cells), RangeKeys(r), item)
      ensures added ==> items == old(items)[item := 0]
      ensures added ==> itemCells == old(itemCells)[item := RangeKeys(r)]
      ensures gen == old(gen) && qBuf == old(qBuf)
    {
      var present := Contains(item);
      if present {
        return false;
      }
      var newCells, cellKeys := InsertIntoBuckets(cells, r, item);
      RangeKeysOrdered(r);
      InsertKeepsInv(cells, items, itemCells, gen, item, cellKeys);
      cells := newCells;
      items := items[item := 0];
      itemCells := itemCells[item := cellKeys];
      return true;
    }

    /**
     * Remove: a no-op for an item that is not contained; otherwise the item
     * leaves the tables, every occurrence of it is deleted from each bucket on
     * its key list, buckets left empty are deleted, and no other bucket changes.
     */
    method Remove(item: T)
      requires Valid()
      modifies this
      ensures Valid()
      ensures item !in old(itemCells) ==> cells == old(cells)
      ensures item in old(itemCells) ==> cells == RemoveCells(old(cells), old(itemCells)[item], item)
      ensures items == old(items) - {item} && itemCells == old(itemCells) - {item}
      ensures forall k :: k in cells ==> item !in cells[k]
      ensures gen == old(gen) && qBuf == old(qBuf)
    {
      var present := Contains(item);
      if !present {
        return;
      }
      var cellKeys := itemCells[item];
      assert NoDups(cellKeys);
      var newCells := RemoveFromBuckets(cells, cellKeys, item);
      RemoveKeepsInv(cells, items, itemCells, gen, item);
      cells := newCells;
      items := items - {item};
      itemCells := itemCells - {item};
    }

    /**
     * Query: advances the generation by one and returns the items of the
     * buckets of the cells of r, each once, in first-encounter order; only the
     * stamps of the returned items change (to the new generation). The result
     * is the reused buffer qBuf.
     */
    method Query(r: CellRange) returns (result: seq<T>)
      requires Valid()
      modifies this
      ensures Valid()
      ensures result == QueryResult(cells, r) && qBuf == result
      ensures gen == old(gen) + 1
      ensures cells == old(cells) && itemCells == old(itemCells)
      ensures items == Stamp(old(items), result, gen)
    {
      var g := gen + 1;
      var buf, stamps := ScanRange(cells, items, r, g);
      StampKeepsInv(cells, items, itemCells, gen, buf);
      gen := g;
      items := stamps;
      qBuf := buf;
      result := buf;
    }
  }

  // ---------------------------------------------------------------------------
  // Set
  // ---------------------------------------------------------------------------

  /** Set[T]: a Go map with struct{} values, mutated through a pointer
      receiver; elems is its key set. */
  class Set<T(==)> {
    var elems: set<T>

    /** NewSet: an empty set; the optional size hint only presizes the map. */
    constructor NewSet(size: seq<int>)
      ensures elems == {}
    {
      elems := {};
    }

    method Contains(item: T) returns (present: bool)
      ensures present <==> item in elems
    {
      present := item in elems;
    }

    /** The number of members. */
    method Size() returns (n: int)
      ensures n == |elems|
    {
      n := |elems|;
    }

    /** Add reports whether item was new; afterwards it is a member, and the
        set grew by one exactly when it was new. */
    method Add(item: T) returns (added: bool)
      modifies this
      ensures added <==> item !in old(elems)
      ensures item in elems
      ensures elems == old(elems) + {item}
      ensures |elems| == |old(elems)| + if added then 1 else 0
    {
      var present := Contains(item);
      if present {
        return false;
      }
      elems := elems + {item};
      return true;
    }

    /** Remove deletes item (a no-op when absent) and keeps every other member. */
    method Remove(item: T)
      modifies this
      ensures item !in elems
      ensures elems == old(elems) - {item}
    {
      elems := elems - {item};
    }

    /** ToSlice lists every member exactly once, in an unspecified order. */
    method ToSlice() returns (slice: seq<T>)
      ensures NoDups(slice)
      ensures forall x :: x in slice <==> x in elems
      ensures |slice| == |elems|
    {
      slice := [];
      var rest := elems;
      while rest != {}
        invariant rest <= elems
        invariant forall x :: x in slice <==> x in elems && x !in rest
        invariant NoDups(slice)
        invariant |slice| + |rest| == |elems|
        decreases |rest|
      {
        var x :| x in rest;
        slice := slice + [x];
        rest := rest - {x};
      }
    }
  }
}
