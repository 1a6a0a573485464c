/**
 * Package hashgrid: a spatial hash grid without a reverse index. An entry's
 * cells are recomputed from its own bounding box whenever they are needed
 * (GetKeys), a bucket never holds the same entry twice, and Query rechecks
 * every candidate against the query box with an inclusive overlap test.
 *
 * Coordinates and the cell size are modelled as exact reals (float32
 * rounding is not modelled) and the conversion to a cell index truncates
 * toward zero, as Go's float-to-int conversion does. Go's 64-bit int loop
 * counters are modelled as unbounded integers.
 */
module HashGrid {
  import opened Common

  /** GridKey: uint64(uint32(x)) << 32 | uint64(uint32(y)). */
  type GridKey = Uint64

  // ---------------------------------------------------------------------------
  // Key codec
  // ---------------------------------------------------------------------------

  /**
   * NewGridKey: the conversion to uint32 keeps x and y modulo 2^32 (two's
   * complement), the shift by 32 is taken modulo 2^64 and the bitwise or of
   * two disjoint bit ranges is their sum. So the high word holds x mod 2^32
   * and the low word y mod 2^32; there is no bias.
   */
  function NewGridKey(x: int, y: int): (k: GridKey)
    ensures k / Word == x % Word && k % Word == y % Word
  {
    var hi := x % Word;
    var lo := y % Word;
    (hi * Word) % (Word * Word) + lo
  }

  /** The number in [base, base + 2^32) that is congruent to r modulo 2^32. */
  function Unwrap(base: int, r: int): int {
    base + (r - base) % Word
  }

  lemma UnwrapRange(base: int, r: int)
    ensures base <= Unwrap(base, r) < base + Word
    ensures Unwrap(base, r) % Word == r % Word
  {
    var d := (r - base) / Word;
    assert r - base == d * Word + (r - base) % Word;
    ModShift(r, -d);
  }

  /** Adding a multiple of 2^32 does not change the residue. */
  lemma ModShift(a: int, q: int)
    ensures (a + q * Word) % Word == a % Word
  {
    var m := a % Word;
    var d := a / Word;
    assert a + q * Word == (d + q) * Word + m;
  }

  /** Within a window of 2^32 consecutive numbers a residue determines the number. */
  lemma UnwrapMod(base: int, y: int)
    requires base <= y < base + Word
    ensures Unwrap(base, y % Word) == y
  {
    UnwrapRange(base, y % Word);
    var u := Unwrap(base, y % Word);
    assert u % Word == y % Word;
    ModShift(y, -(y / Word));
    ModShift(u, -(u / Word));
    assert (u - y) % Word == 0 by {
      var qu, qy := u / Word, y / Word;
      assert u == qu * Word + u % Word && y == qy * Word + y % Word;
      assert u - y == (qu - qy) * Word;
    }
  }

  /** Two's-complement reading of a 32-bit word. */
  function Signed32(w: int): int {
    if w % Word < 0x8000_0000 then w % Word else w % Word - Word
  }

  /** For int32 coordinates the key decodes back to the cell. */
  lemma NewGridKeyDecode(x: int, y: int)
    requires -0x8000_0000 <= x < 0x8000_0000 && -0x8000_0000 <= y < 0x8000_0000
    ensures Signed32(NewGridKey(x, y) / Word) == x && Signed32(NewGridKey(x, y) % Word) == y
  {
  }

  /** Distinct int32 cells have distinct keys. */
  lemma NewGridKeyInjective(x1: int, y1: int, x2: int, y2: int)
    requires -0x8000_0000 <= x1 < 0x8000_0000 && -0x8000_0000 <= y1 < 0x8000_0000
    requires -0x8000_0000 <= x2 < 0x8000_0000 && -0x8000_0000 <= y2 < 0x8000_0000
    requires NewGridKey(x1, y1) == NewGridKey(x2, y2)
    ensures x1 == x2 && y1 == y2
  {
    NewGridKeyDecode(x1, y1);
    NewGridKeyDecode(x2, y2);
  }

  /** Outside the int32 range keys alias: cells 2^32 apart share a key. */
  lemma NewGridKeyWraps(x: int, y: int)
    ensures NewGridKey(x + Word, y) == NewGridKey(x, y)
    ensures NewGridKey(x, y + Word) == NewGridKey(x, y)
  {
    ModShift(x, 1);
    ModShift(y, 1);
    KeyFromWords(NewGridKey(x + Word, y), NewGridKey(x, y));
    KeyFromWords(NewGridKey(x, y + Word), NewGridKey(x, y));
  }

  /** A key is determined by its two words. */
  lemma KeyFromWords(a: GridKey, b: GridKey)
    requires a / Word == b / Word && a % Word == b % Word
    ensures a == b
  {
    assert a == (a / Word) * Word + a % Word;
    assert b == (b / Word) * Word + b % Word;
  }

  /** Keys in one 2^32-wide window of x and of y decode uniquely. */
  lemma KeyWindowInjective(ox: int, oy: int, x1: int, y1: int, x2: int, y2: int)
    requires ox <= x1 < ox + Word && ox <= x2 < ox + Word
    requires oy <= y1 < oy + Word && oy <= y2 < oy + Word
    requires NewGridKey(x1, y1) == NewGridKey(x2, y2)
    ensures x1 == x2 && y1 == y2
  {
    UnwrapMod(ox, x1);
    UnwrapMod(ox, x2);
    UnwrapMod(oy, y1);
    UnwrapMod(oy, y2);
  }

  // ---------------------------------------------------------------------------
  // Boxes, spans and GetKeys
  // ---------------------------------------------------------------------------

  /** An entry's Min() and Max() corners, or the region passed to Query. */
  datatype Box = Box(minX: real, minY: real, maxX: real, maxY: real)

  predicate WellFormed(b: Box) {
    b.minX <= b.maxX && b.minY <= b.maxY
  }

  /** Query's inclusive test of an entry's box e against the query box q. */
  predicate Overlaps(e: Box, q: Box) {
    e.maxX >= q.minX && e.minX <= q.maxX && e.maxY >= q.minY && e.minY <= q.maxY
  }

  /** New rejects non-positive cell sizes, so every grid has one of these. */
  type CellSize = r: real | r > 0.0 witness 1.0

  /** The inclusive range of cells [startX..endX] x [startY..endY]. */
  datatype Span = Span(startX: int, startY: int, endX: int, endY: int)

  predicate InSpan(s: Span, x: int, y: int) {
    s.startX <= x <= s.endX && s.startY <= y <= s.endY
  }

  /** Each bound divided by the cell size and truncated toward zero. */
  function SpanOf(b: Box, cellSize: CellSize): Span {
    Span(Trunc(b.minX / cellSize), Trunc(b.minY / cellSize), Trunc(b.maxX / cellSize), Trunc(b.maxY / cellSize))
  }

  function Columns(s: Span): nat {
    if s.startX <= s.endX then s.endX - s.startX + 1 else 0
  }

  function Height(s: Span): nat {
    if s.startY <= s.endY then s.endY - s.startY + 1 else 0
  }

  /** The keys of cells (x, lo..hi-1), in increasing y: GetKeys' inner loop. */
  function ColKeys(x: int, lo: int, hi: int): seq<GridKey>
    decreases hi - lo
  {
    if hi <= lo then [] else ColKeys(x, lo, hi - 1) + [NewGridKey(x, hi - 1)]
  }

  /** The columns lo..hi-1 of s, one after the other: GetKeys' outer loop. */
  function Cols(s: Span, lo: int, hi: int): seq<GridKey>
    decreases hi - lo
  {
    if hi <= lo then [] else Cols(s, lo, hi - 1) + ColKeys(hi - 1, s.startY, s.endY + 1)
  }

  /** What GetKeys returns for an entry whose box has span s. */
  function SpanKeys(s: Span): seq<GridKey> {
    Cols(s, s.startX, s.endX + 1)
  }

  lemma {:induction false} ColKeysAt(x: int, lo: int, hi: int, j: int)
    requires lo <= hi
    ensures |ColKeys(x, lo, hi)| == hi - lo
    ensures 0 <= j < hi - lo ==> ColKeys(x, lo, hi)[j] == NewGridKey(x, lo + j)
    decreases hi - lo
  {
    if lo < hi {
      ColKeysAt(x, lo, hi - 1, j);
    }
  }

  lemma {:induction false} ColKeysWitness(x: int, lo: int, hi: int, k: GridKey) returns (y: int)
    requires k in ColKeys(x, lo, hi)
    ensures lo <= y < hi && k == NewGridKey(x, y)
    decreases hi - lo
  {
    if k == NewGridKey(x, hi - 1) {
      y := hi - 1;
    } else {
      y := ColKeysWitness(x, lo, hi - 1, k);
    }
  }

  lemma {:induction false} ColKeysMember(x: int, lo: int, hi: int, y: int)
    requires lo <= y < hi
    ensures NewGridKey(x, y) in ColKeys(x, lo, hi)
    decreases hi - lo
  {
    if y < hi - 1 {
      ColKeysMember(x, lo, hi - 1, y);
    }
  }

  lemma {:induction false} ColsLength(s: Span, lo: int, hi: int)
    requires lo <= hi
    ensures |Cols(s, lo, hi)| == (hi - lo) * Height(s)
    decreases hi - lo
  {
    if lo < hi {
      ColsLength(s, lo, hi - 1);
      ColKeysAt(hi - 1, s.startY, if s.startY <= s.endY + 1 then s.endY + 1 else s.startY, 0);
      MulSucc(hi - 1 - lo, Height(s));
    }
  }

  /** Position p of the columns lo..hi-1 holds cell (lo + p / h, startY + p % h). */
  lemma {:induction false} ColsAt(s: Span, lo: int, hi: int, p: int)
    requires lo <= hi && 0 <= p < |Cols(s, lo, hi)|
    ensures Height(s) > 0
    ensures Cols(s, lo, hi)[p] == NewGridKey(lo + p / Height(s), s.startY + p % Height(s))
    decreases hi - lo
  {
    var h, n := Height(s), hi - 1 - lo;
    ColsLength(s, lo, hi);
    ColsLength(s, lo, hi - 1);
    MulSucc(n, h);
    if p < n * h {
      ColsAt(s, lo, hi - 1, p);
    } else {
      var j := p - n * h;
      DivModUnique(p, h, n, j);
      ColKeysAt(hi - 1, s.startY, s.endY + 1, j);
    }
  }

  lemma {:induction false} ColsMember(s: Span, lo: int, hi: int, x: int, y: int)
    requires lo <= x < hi && s.startY <= y <= s.endY
    ensures NewGridKey(x, y) in Cols(s, lo, hi)
    decreases hi - lo
  {
    if x < hi - 1 {
      ColsMember(s, lo, hi - 1, x, y);
    } else {
      ColKeysMember(x, s.startY, s.endY + 1, y);
    }
  }

  lemma {:induction false} ColsWitness(s: Span, lo: int, hi: int, k: GridKey) returns (x: int, y: int)
    requires k in Cols(s, lo, hi)
    ensures lo <= x < hi && s.startY <= y <= s.endY && k == NewGridKey(x, y)
    decreases hi - lo
  {
    if k in Cols(s, lo, hi - 1) {
      x, y := ColsWitness(s, lo, hi - 1, k);
    } else {
      x := hi - 1;
      y := ColKeysWitness(x, s.startY, s.endY + 1, k);
    }
  }

  /** GetKeys lists (endX - startX + 1) * (endY - startY + 1) keys, none for an
      empty span, with x in the outer and y in the inner loop. */
  lemma SpanKeysShape(s: Span, p: int)
    ensures |SpanKeys(s)| == Columns(s) * Height(s)
    ensures 0 <= p < |SpanKeys(s)| ==>
      SpanKeys(s)[p] == NewGridKey(s.startX + p / Height(s), s.startY + p % Height(s))
  {
    if s.startX <= s.endX {
      ColsLength(s, s.startX, s.endX + 1);
      if 0 <= p < |SpanKeys(s)| {
        ColsAt(s, s.startX, s.endX + 1, p);
      }
    }
  }

  /** A key is listed exactly when it is the key of a cell of the span. */
  lemma SpanKeysMember(s: Span, x: int, y: int)
    requires InSpan(s, x, y)
    ensures NewGridKey(x, y) in SpanKeys(s)
  {
    ColsMember(s, s.startX, s.endX + 1, x, y);
  }

  lemma SpanKeysWitness(s: Span, k: GridKey) returns (x: int, y: int)
    requires k in SpanKeys(s)
    ensures InSpan(s, x, y) && k == NewGridKey(x, y)
  {
    x, y := ColsWitness(s, s.startX, s.endX + 1, k);
  }

  /** When neither side of the span is wider than 2^32 cells the keys are distinct. */
  lemma SpanKeysDistinct(s: Span)
    requires Columns(s) <= Word && Height(s) <= Word
    ensures NoDups(SpanKeys(s))
  {
    forall p, q | 0 <= p < q < |SpanKeys(s)| ensures SpanKeys(s)[p] != SpanKeys(s)[q] {
      DistinctPositions(s, p, q);
    }
  }

  /** Two positions of the span's keys hold different keys. */
  lemma DistinctPositions(s: Span, p: int, q: int)
    requires Columns(s) <= Word && Height(s) <= Word
    requires 0 <= p < q < |SpanKeys(s)|
    ensures SpanKeys(s)[p] != SpanKeys(s)[q]
  {
    SpanKeysShape(s, p);
    SpanKeysShape(s, q);
    SpanWindow(s, p);
    SpanWindow(s, q);
    var h := Height(s);
    PositionsDiffer(p, q, h);
    WindowKeysDiffer(s.startX, s.startY, s.startX + p / h, s.startY + p % h, s.startX + q / h, s.startY + q % h);
  }

  /** Distinct positions in a column-major layout of height h are distinct cells. */
  lemma PositionsDiffer(p: int, q: int, h: int)
    requires h > 0 && 0 <= p < q
    ensures p / h != q / h || p % h != q % h
  {
    assert p == (p / h) * h + p % h;
    assert q == (q / h) * h + q % h;
  }

  /** Distinct cells of one window of 2^32 by 2^32 cells have distinct keys. */
  lemma WindowKeysDiffer(ox: int, oy: int, x1: int, y1: int, x2: int, y2: int)
    requires ox <= x1 < ox + Word && ox <= x2 < ox + Word
    requires oy <= y1 < oy + Word && oy <= y2 < oy + Word
    requires x1 != x2 || y1 != y2
    ensures NewGridKey(x1, y1) != NewGridKey(x2, y2)
  {
    if NewGridKey(x1, y1) == NewGridKey(x2, y2) {
      KeyWindowInjective(ox, oy, x1, y1, x2, y2);
      assert false;
    }
  }

  /** The cell at position p of the span's keys lies within the span. */
  lemma SpanWindow(s: Span, p: int)
    requires 0 <= p < |SpanKeys(s)|
    ensures Height(s) > 0 && 0 <= p / Height(s) < Columns(s) && 0 <= p % Height(s) < Height(s)
  {
    SpanKeysShape(s, p);
    ColsAt(s, s.startX, s.endX + 1, p);
    DivBound(p, Height(s), Columns(s));
  }

  lemma DivBound(p: int, h: int, c: int)
    requires h > 0 && 0 <= p < c * h
    ensures 0 <= p / h < c
  {
    var q := p / h;
    assert p == q * h + p % h;
    if q >= c {
      MulLe(c, q, h);
    }
  }

  lemma MulLe(a: int, b: int, h: int)
    requires a <= b && h >= 0
    ensures a * h <= b * h
  {
    assert b * h - a * h == (b - a) * h;
  }

  /** After the last column the visited columns are the whole span. */
  lemma ColsDone(s: Span, x: int)
    requires s.startX <= x && s.endX < x && (x <= s.endX + 1 || x == s.startX)
    ensures Cols(s, s.startX, x) == SpanKeys(s)
  {
  }

  /** A finished column completes the columns visited so far. */
  lemma ColumnDone(s: Span, x: int, y: int)
    requires s.startX <= x
    requires s.startY <= y && s.endY < y && (y <= s.endY + 1 || y == s.startY)
    ensures Cols(s, s.startX, x) + ColKeys(x, s.startY, y) == Cols(s, s.startX, x + 1)
  {
  }

  // ---------------------------------------------------------------------------
  // The bucket store and what Insert, Remove and Query make of it
  // ---------------------------------------------------------------------------

  /** The keys GetKeys computes for entry e from its current box. */
  function EntryKeys<T>(cellSize: CellSize, bounds: T -> Box, e: T): seq<GridKey> {
    SpanKeys(SpanOf(bounds(e), cellSize))
  }

  /** Insert's step for one bucket: e is appended unless the bucket already holds it. */
  function AddOnce<T(==)>(b: seq<T>, e: T): seq<T> {
    if e in b then b else b + [e]
  }

  /** The bucket store after Insert has visited keys in order. */
  function AddCells<T(==)>(cells: map<GridKey, seq<T>>, keys: seq<GridKey>, e: T): map<GridKey, seq<T>> {
    if keys == [] then cells
    else
      var c := AddCells(cells, keys[..|keys| - 1], e);
      var k := keys[|keys| - 1];
      c[k := AddOnce(Bucket(c, k), e)]
  }

  /** Remove's step for one bucket: the first occurrence of e is cut out. */
  function RemoveFirst<T(==)>(b: seq<T>, e: T): seq<T> {
    if b == [] then []
    else if b[0] == e then b[1..]
    else [b[0]] + RemoveFirst(b[1..], e)
  }

  /** The bucket store after Remove has visited keys in order; a bucket left
      empty is deleted. */
  function RemoveCells<T(==)>(cells: map<GridKey, seq<T>>, keys: seq<GridKey>, e: T): map<GridKey, seq<T>> {
    if keys == [] then cells
    else
      var c := RemoveCells(cells, keys[..|keys| - 1], e);
      var k := keys[|keys| - 1];
      var kept := RemoveFirst(Bucket(c, k), e);
      if kept == [] then c - {k} else c[k := kept]
  }

  /** No bucket is empty and no bucket holds an entry twice. */
  ghost predicate BucketsDistinct<T>(cells: map<GridKey, seq<T>>) {
    forall k :: k in cells ==> cells[k] != [] && NoDups(cells[k])
  }

  /** e lies in the buckets of exactly the given keys. */
  ghost predicate Placed<T>(cells: map<GridKey, seq<T>>, e: T, keys: seq<GridKey>) {
    forall k :: k in cells && e in cells[k] <==> k in keys
  }

  /** Every stored entry lies in exactly the buckets of its own keys. */
  ghost predicate EntriesPlaced<T>(cells: map<GridKey, seq<T>>, cellSize: CellSize, bounds: T -> Box) {
    forall k, e :: k in cells && e in cells[k] ==> Placed(cells, e, EntryKeys(cellSize, bounds, e))
  }

  /** The invariant kept by Insert, Remove and Clear (boxes are fixed). */
  ghost predicate Inv<T>(cells: map<GridKey, seq<T>>, cellSize: CellSize, bounds: T -> Box) {
    BucketsDistinct(cells) && EntriesPlaced(cells, cellSize, bounds)
  }

  lemma AddCellsSnoc<T>(cells: map<GridKey, seq<T>>, keys: seq<GridKey>, e: T, key: GridKey)
    ensures AddCells(cells, keys + [key], e)
         == AddCells(cells, keys, e)[key := AddOnce(Bucket(AddCells(cells, keys, e), key), e)]
  {
    assert (keys + [key])[..|keys|] == keys;
  }

  lemma RemoveCellsSnoc<T>(cells: map<GridKey, seq<T>>, keys: seq<GridKey>, e: T, key: GridKey)
    ensures var c := RemoveCells(cells, keys, e);
            var kept := RemoveFirst(Bucket(c, key), e);
            RemoveCells(cells, keys + [key], e) == if kept == [] then c - {key} else c[key := kept]
  {
    assert (keys + [key])[..|keys|] == keys;
  }

  /** Insert touches only the buckets of keys, and there e is added once. */
  lemma {:induction false} AddCellsAt<T>(cells: map<GridKey, seq<T>>, keys: seq<GridKey>, e: T, k: GridKey)
    ensures k in AddCells(cells, keys, e) <==> k in cells || k in keys
    ensures Bucket(AddCells(cells, keys, e), k)
         == if k in keys then AddOnce(Bucket(cells, k), e) else Bucket(cells, k)
  {
    if keys != [] {
      var p, last := keys[..|keys| - 1], keys[|keys| - 1];
      AddCellsAt(cells, p, e, k);
      SplitLast(keys);
    }
  }

  /** After Insert an entry is in a bucket exactly when it was before, or it
      is e and the bucket is one of e's keys. */
  lemma AddCellsMember<T>(cells: map<GridKey, seq<T>>, keys: seq<GridKey>, e: T, k: GridKey, x: T)
    ensures (k in AddCells(cells, keys, e) && x in AddCells(cells, keys, e)[k])
        <==> (k in cells && x in cells[k]) || (x == e && k in keys)
  {
    AddCellsAt(cells, keys, e, k);
  }

  /** Inserting the same entry twice is the same as inserting it once. */
  lemma AddCellsIdempotent<T>(cells: map<GridKey, seq<T>>, keys: seq<GridKey>, e: T)
    ensures AddCells(AddCells(cells, keys, e), keys, e) == AddCells(cells, keys, e)
  {
    var a := AddCells(cells, keys, e);
    var b := AddCells(a, keys, e);
    forall k ensures (k in b <==> k in a) && (k in a ==> b[k] == a[k]) {
      AddCellsAt(cells, keys, e, k);
      AddCellsAt(a, keys, e, k);
    }
  }

  lemma AddOnceDistinct<T>(b: seq<T>, e: T)
    requires NoDups(b)
    ensures NoDups(AddOnce(b, e)) && e in AddOnce(b, e)
  {
  }

  lemma {:induction false} RemoveFirstSub<T>(b: seq<T>, e: T, x: T)
    ensures x in RemoveFirst(b, e) ==> x in b
    ensures x in b && x != e ==> x in RemoveFirst(b, e)
  {
    if b != [] && b[0] != e {
      RemoveFirstSub(b[1..], e, x);
      SplitFirst(b);
    } else if b != [] {
      SplitFirst(b);
    }
  }

  /** In a duplicate-free bucket the first occurrence is the only one. */
  lemma {:induction false} RemoveFirstDrops<T>(b: seq<T>, e: T)
    requires NoDups(b)
    ensures e !in RemoveFirst(b, e) && NoDups(RemoveFirst(b, e))
  {
    if b != [] {
      assert NoDups(b[1..]);
      if b[0] != e {
        RemoveFirstDrops(b[1..], e);
        RemoveFirstSub(b[1..], e, b[0]);
        assert b[0] !in b[1..];
      } else {
        assert b[0] !in b[1..];
      }
    }
  }

  lemma {:induction false} RemoveFirstAbsent<T>(b: seq<T>, e: T)
    requires e !in b
    ensures RemoveFirst(b, e) == b
  {
    if b != [] {
      RemoveFirstAbsent(b[1..], e);
      SplitFirst(b);
    }
  }

  /** RemoveFirst splices out position j when j holds the first e. */
  lemma {:induction false} RemoveFirstAt<T>(b: seq<T>, e: T, j: nat)
    requires j < |b| && b[j] == e && e !in b[..j]
    ensures RemoveFirst(b, e) == b[..j] + b[j + 1..]
  {
    if j > 0 {
      assert b[0] in b[..j];
      assert b[1..][..j - 1] == b[1..j];
      RemoveFirstAt(b[1..], e, j - 1);
      assert b[..j] == [b[0]] + b[1..j];
      assert b[j + 1..] == b[1..][j..];
    }
  }

  /** Removing an entry that was appended last restores the bucket. */
  lemma RemoveFirstLast<T>(b: seq<T>, e: T)
    requires e !in b
    ensures RemoveFirst(b + [e], e) == b
  {
    RemoveFirstAt(b + [e], e, |b|);
    assert (b + [e])[..|b|] == b;
  }

  lemma {:induction false} RemoveCellsDistinct<T>(cells: map<GridKey, seq<T>>, keys: seq<GridKey>, e: T)
    requires BucketsDistinct(cells)
    ensures BucketsDistinct(RemoveCells(cells, keys, e))
  {
    if keys != [] {
      var p, last := keys[..|keys| - 1], keys[|keys| - 1];
      RemoveCellsDistinct(cells, p, e);
      var c := RemoveCells(cells, p, e);
      assert NoDups(Bucket(c, last));
      RemoveFirstDrops(Bucket(c, last), e);
    }
  }

  /** Remove cuts the first e out of the buckets of keys, deletes those left
      empty, and touches no other bucket. */
  lemma {:induction false} RemoveCellsAt<T>(cells: map<GridKey, seq<T>>, keys: seq<GridKey>, e: T, k: GridKey)
    requires BucketsDistinct(cells)
    ensures Bucket(RemoveCells(cells, keys, e), k)
         == if k in keys then RemoveFirst(Bucket(cells, k), e) else Bucket(cells, k)
    ensures k in RemoveCells(cells, keys, e) <==> Bucket(RemoveCells(cells, keys, e), k) != []
  {
    RemoveCellsDistinct(cells, keys, e);
    if keys != [] {
      var p, last := keys[..|keys| - 1], keys[|keys| - 1];
      SplitLast(keys);
      RemoveCellsAt(cells, p, e, k);
      if k == last && k in p {
        var b := Bucket(cells, k);
        assert NoDups(b);
        RemoveFirstDrops(b, e);
        RemoveFirstAbsent(RemoveFirst(b, e), e);
      }
    }
  }

  /** Remove takes e out of every bucket and keeps every other entry where it was. */
  lemma RemoveCellsMember<T>(cells: map<GridKey, seq<T>>, cellSize: CellSize, bounds: T -> Box, e: T, k: GridKey, x: T)
    requires Inv(cells, cellSize, bounds)
    ensures var r := RemoveCells(cells, EntryKeys(cellSize, bounds, e), e);
            (k in r && x in r[k]) <==> (k in cells && x in cells[k] && x != e)
  {
    var keys := EntryKeys(cellSize, bounds, e);
    RemoveCellsAt(cells, keys, e, k);
    var b := Bucket(cells, k);
    RemoveFirstSub(b, e, x);
    if k in keys {
      assert NoDups(b);
      RemoveFirstDrops(b, e);
    } else if k in cells && e in cells[k] {
      assert Placed(cells, e, keys);
    }
  }

  lemma InsertKeepsInv<T>(cells: map<GridKey, seq<T>>, cellSize: CellSize, bounds: T -> Box, e: T)
    requires Inv(cells, cellSize, bounds)
    ensures Inv(AddCells(cells, EntryKeys(cellSize, bounds, e), e), cellSize, bounds)
  {
    var keys := EntryKeys(cellSize, bounds, e);
    var a := AddCells(cells, keys, e);
    forall k | k in a ensures a[k] != [] && NoDups(a[k]) {
      AddCellsAt(cells, keys, e, k);
      AddOnceDistinct(Bucket(cells, k), e);
    }
    forall k, x | k in a && x in a[k] ensures Placed(a, x, EntryKeys(cellSize, bounds, x)) {
      InsertPlaces(cells, cellSize, bounds, e, k, x);
    }
  }

  lemma InsertPlaces<T>(cells: map<GridKey, seq<T>>, cellSize: CellSize, bounds: T -> Box, e: T, k: GridKey, x: T)
    requires EntriesPlaced(cells, cellSize, bounds)
    requires var a := AddCells(cells, EntryKeys(cellSize, bounds, e), e); k in a && x in a[k]
    ensures Placed(AddCells(cells, EntryKeys(cellSize, bounds, e), e), x, EntryKeys(cellSize, bounds, x))
  {
    var keys := EntryKeys(cellSize, bounds, e);
    var a := AddCells(cells, keys, e);
    AddCellsMember(cells, keys, e, k, x);
    forall k' ensures k' in a && x in a[k'] <==> k' in EntryKeys(cellSize, bounds, x) {
      AddCellsMember(cells, keys, e, k', x);
      if x != e || (k' in cells && x in cells[k']) {
        assert k in cells && x in cells[k];
        assert Placed(cells, x, EntryKeys(cellSize, bounds, x));
      }
    }
  }

  lemma RemoveKeepsInv<T>(cells: map<GridKey, seq<T>>, cellSize: CellSize, bounds: T -> Box, e: T)
    requires Inv(cells, cellSize, bounds)
    ensures Inv(RemoveCells(cells, EntryKeys(cellSize, bounds, e), e), cellSize, bounds)
  {
    var keys := EntryKeys(cellSize, bounds, e);
    var r := RemoveCells(cells, keys, e);
    RemoveCellsDistinct(cells, keys, e);
    forall k, x | k in r && x in r[k] ensures Placed(r, x, EntryKeys(cellSize, bounds, x)) {
      RemoveCellsMember(cells, cellSize, bounds, e, k, x);
      assert Placed(cells, x, EntryKeys(cellSize, bounds, x));
      forall k' ensures k' in r && x in r[k'] <==> k' in cells && x in cells[k'] {
        RemoveCellsMember(cells, cellSize, bounds, e, k', x);
      }
    }
  }

  /** Removing an entry that was not stored before its Insert restores the grid. */
  lemma RemoveUndoesInsert<T>(cells: map<GridKey, seq<T>>, cellSize: CellSize, bounds: T -> Box, e: T)
    requires Inv(cells, cellSize, bounds)
    requires forall k :: k in cells ==> e !in cells[k]
    ensures var keys := EntryKeys(cellSize, bounds, e);
            RemoveCells(AddCells(cells, keys, e), keys, e) == cells
  {
    var keys := EntryKeys(cellSize, bounds, e);
    var a := AddCells(cells, keys, e);
    InsertKeepsInv(cells, cellSize, bounds, e);
    var r := RemoveCells(a, keys, e);
    forall k ensures (k in r <==> k in cells) && (k in cells ==> r[k] == cells[k]) {
      AddCellsAt(cells, keys, e, k);
      RemoveCellsAt(a, keys, e, k);
      if k in keys {
        RemoveFirstLast(Bucket(cells, k), e);
      }
    }
  }

  /** The entries of xs whose boxes pass Query's overlap test, in order. */
  function Filter<T>(xs: seq<T>, bounds: T -> Box, q: Box): seq<T> {
    if xs == [] then []
    else
      var f := Filter(xs[..|xs| - 1], bounds, q);
      if Overlaps(bounds(xs[|xs| - 1]), q) then f + [xs[|xs| - 1]] else f
  }

  lemma FilterSnoc<T>(xs: seq<T>, bounds: T -> Box, q: Box, x: T)
    ensures Filter(xs + [x], bounds, q)
         == if Overlaps(bounds(x), q) then Filter(xs, bounds, q) + [x] else Filter(xs, bounds, q)
  {
    assert (xs + [x])[..|xs|] == xs;
  }

  lemma {:induction false} FilterMember<T>(xs: seq<T>, bounds: T -> Box, q: Box, x: T)
    ensures x in Filter(xs, bounds, q) <==> x in xs && Overlaps(bounds(x), q)
  {
    if xs != [] {
      var p := xs[..|xs| - 1];
      FilterMember(p, bounds, q, x);
      SplitLast(xs);
    }
  }

  /** What Query returns: the entries of the buckets of the query's span, in
      scan order, that pass the overlap test, each once. An entry that fails
      the test is not recorded as seen, so it is simply tested again. */
  function QueryResult<T(==)>(cells: map<GridKey, seq<T>>, cellSize: CellSize, bounds: T -> Box, q: Box): seq<T> {
    Dedup(Filter(Scan(cells, SpanKeys(SpanOf(q, cellSize))), bounds, q))
  }

  /** An entry is returned exactly when it passes the overlap test and lies in
      the bucket of a cell of the query's span. */
  lemma QueryMember<T>(cells: map<GridKey, seq<T>>, cellSize: CellSize, bounds: T -> Box, q: Box, e: T)
    ensures e in QueryResult(cells, cellSize, bounds, q)
        <==> Overlaps(bounds(e), q) && exists k :: k in SpanKeys(SpanOf(q, cellSize)) && e in Bucket(cells, k)
  {
    var scan := Scan(cells, SpanKeys(SpanOf(q, cellSize)));
    DedupMembers(Filter(scan, bounds, q), e);
    FilterMember(scan, bounds, q, e);
    ScanMembers(cells, SpanKeys(SpanOf(q, cellSize)), e);
  }

  /** No entry is returned twice, and the entries come in the order in which
      the scan first meets them among those passing the test. */
  lemma QueryResultOrder<T>(cells: map<GridKey, seq<T>>, cellSize: CellSize, bounds: T -> Box, q: Box)
    ensures NoDups(QueryResult(cells, cellSize, bounds, q))
    ensures InFirstOccurrenceOrder(QueryResult(cells, cellSize, bounds, q),
                                   Filter(Scan(cells, SpanKeys(SpanOf(q, cellSize))), bounds, q))
  {
    var f := Filter(Scan(cells, SpanKeys(SpanOf(q, cellSize))), bounds, q);
    DedupNoDups(f);
    DedupOrder(f);
  }

  /** A stored entry whose box overlaps a well-formed query box is found: the
      two spans share a cell, and the entry lies in that cell's bucket. */
  lemma QueryFindsOverlapping<T>(cells: map<GridKey, seq<T>>, cellSize: CellSize, bounds: T -> Box,
                                 q: Box, e: T, k0: GridKey)
    requires Inv(cells, cellSize, bounds)
    requires k0 in cells && e in cells[k0]
    requires WellFormed(bounds(e)) && WellFormed(q) && Overlaps(bounds(e), q)
    ensures e in QueryResult(cells, cellSize, bounds, q)
  {
    var b := bounds(e);
    var se, sq := SpanOf(b, cellSize), SpanOf(q, cellSize);
    TruncOrder(b.minX, b.maxX, cellSize);
    TruncOrder(q.minX, q.maxX, cellSize);
    TruncOrder(b.minX, q.maxX, cellSize);
    TruncOrder(q.minX, b.maxX, cellSize);
    TruncOrder(b.minY, b.maxY, cellSize);
    TruncOrder(q.minY, q.maxY, cellSize);
    TruncOrder(b.minY, q.maxY, cellSize);
    TruncOrder(q.minY, b.maxY, cellSize);
    var x := if se.startX < sq.startX then sq.startX else se.startX;
    var y := if se.startY < sq.startY then sq.startY else se.startY;
    var key := NewGridKey(x, y);
    SpanKeysMember(se, x, y);
    SpanKeysMember(sq, x, y);
    assert Placed(cells, e, EntryKeys(cellSize, bounds, e));
    QueryMember(cells, cellSize, bounds, q, e);
  }

  /** Scaling by the cell size and truncating keeps the order of coordinates. */
  lemma TruncOrder(a: real, b: real, cellSize: CellSize)
    requires a <= b
    ensures Trunc(a / cellSize) <= Trunc(b / cellSize)
  {
    DivMonotone(a, b, cellSize);
    TruncMonotone(a / cellSize, b / cellSize);
  }

  /** After Clear every query returns nothing. */
  lemma QueryAfterClear<T>(cellSize: CellSize, bounds: T -> Box, q: Box)
    ensures QueryResult(map[], cellSize, bounds, q) == []
  {
    ScanNothing<T>(map[], SpanKeys(SpanOf(q, cellSize)));
  }

  /** Scanning a store without buckets yields nothing. */
  lemma {:induction false} ScanNothing<T>(cells: map<GridKey, seq<T>>, keys: seq<GridKey>)
    requires cells == map[]
    ensures Scan(cells, keys) == []
  {
    if keys != [] {
      ScanNothing(cells, keys[..|keys| - 1]);
    }
  }

  // ---------------------------------------------------------------------------
  // The loops of Insert, Remove and Query
  // ---------------------------------------------------------------------------

  /** Insert's scan of a bucket for the entry (the goto past the append). */
  method Holds<T(==)>(bucket: seq<T>, e: T) returns (found: bool)
    ensures found <==> e in bucket
  {
    for j := 0 to |bucket|
      invariant e !in bucket[..j]
    {
      if bucket[j] == e {
        return true;
      }
      PrefixSnoc(bucket, j);
    }
    WholePrefix(bucket);
    return false;
  }

  /** Writing back a bucket's own contents changes nothing. */
  lemma RewriteSame<T>(cells: map<GridKey, seq<T>>, key: GridKey)
    requires Bucket(cells, key) != []
    ensures cells[key := Bucket(cells, key)] == cells
  {
  }

  /** Insert's loop over the entry's keys. */
  method InsertAll<T(==)>(cells: map<GridKey, seq<T>>, keys: seq<GridKey>, e: T)
    returns (newCells: map<GridKey, seq<T>>)
    ensures newCells == AddCells(cells, keys, e)
  {
    newCells := cells;
    for i := 0 to |keys|
      invariant newCells == AddCells(cells, keys[..i], e)
    {
      var key := keys[i];
      AddCellsSnoc(cells, keys[..i], e, key);
      PrefixSnoc(keys, i);
      var bucket := Bucket(newCells, key);
      var found := Holds(bucket, e);
      if !found {
        newCells := newCells[key := bucket + [e]];
      } else {
        RewriteSame(newCells, key);
      }
    }
    WholePrefix(keys);
  }

  /** Remove's scan of one bucket: the first e is spliced out. */
  method CutFirst<T(==)>(bucket: seq<T>, e: T) returns (kept: seq<T>)
    ensures kept == RemoveFirst(bucket, e)
  {
    for j := 0 to |bucket|
      invariant e !in bucket[..j]
    {
      if bucket[j] == e {
        RemoveFirstAt(bucket, e, j);
        return bucket[..j] + bucket[j + 1..];
      }
      PrefixSnoc(bucket, j);
    }
    WholePrefix(bucket);
    RemoveFirstAbsent(bucket, e);
    return bucket;
  }

  /** Remove's loop over the entry's keys. */
  method RemoveAll<T(==)>(cells: map<GridKey, seq<T>>, keys: seq<GridKey>, e: T)
    returns (newCells: map<GridKey, seq<T>>)
    ensures newCells == RemoveCells(cells, keys, e)
  {
    newCells := cells;
    for i := 0 to |keys|
      invariant newCells == RemoveCells(cells, keys[..i], e)
    {
      var key := keys[i];
      RemoveCellsSnoc(cells, keys[..i], e, key);
      PrefixSnoc(keys, i);
      var kept := CutFirst(Bucket(newCells, key), e);
      if |kept| == 0 {
        newCells := newCells - {key};
      } else {
        newCells := newCells[key := kept];
      }
    }
    WholePrefix(keys);
  }

  /** Query's seen set holds exactly the entries returned so far. */
  ghost predicate Tracks<T>(seen: set<T>, results: seq<T>) {
    (forall e :: e in seen ==> e in results) && (forall e :: e in results ==> e in seen)
  }

  /** Query's loop over one bucket: an entry already seen is skipped; one that
      passes the overlap test is marked seen and appended. */
  method QueryBucket<T(==)>(bucket: seq<T>, bounds: T -> Box, q: Box, ghost scanned: seq<T>,
                            seen0: set<T>, results0: seq<T>)
    returns (seen: set<T>, results: seq<T>)
    requires results0 == Dedup(Filter(scanned, bounds, q))
    requires Tracks(seen0, results0)
    ensures results == Dedup(Filter(scanned + bucket, bounds, q))
    ensures Tracks(seen, results)
  {
    seen, results := seen0, results0;
    AppendNil(scanned);
    for j := 0 to |bucket|
      invariant results == Dedup(Filter(scanned + bucket[..j], bounds, q))
      invariant Tracks(seen, results)
    {
      var it := bucket[j];
      PrefixSnoc(bucket, j);
      AppendAssoc(scanned, bucket[..j], [it]);
      FilterSnoc(scanned + bucket[..j], bounds, q, it);
      DedupSnoc(Filter(scanned + bucket[..j], bounds, q), it);
      if it in seen {
        continue;
      }
      var b := bounds(it);
      if b.maxX >= q.minX && b.minX <= q.maxX && b.maxY >= q.minY && b.minY <= q.maxY {
        seen := seen + {it};
        results := results + [it];
      }
    }
    WholePrefix(bucket);
  }

  /** Query's state after visiting the cells listed in visited: the entries
      that pass the overlap test, once each, and seen holds exactly them. */
  ghost predicate Visited<T>(cells: map<GridKey, seq<T>>, bounds: T -> Box, q: Box,
                             visited: seq<GridKey>, seen: set<T>, results: seq<T>)
  {
    results == Dedup(Filter(Scan(cells, visited), bounds, q)) && Tracks(seen, results)
  }

  /** Query's inner loop: the cells (x, startY..endY) in increasing y. */
  method QueryColumn<T(==)>(cells: map<GridKey, seq<T>>, bounds: T -> Box, q: Box, s: Span, x: int,
                            seen0: set<T>, results0: seq<T>)
    returns (seen: set<T>, results: seq<T>)
    requires s.startX <= x <= s.endX
    requires Visited(cells, bounds, q, Cols(s, s.startX, x), seen0, results0)
    ensures Visited(cells, bounds, q, Cols(s, s.startX, x + 1), seen, results)
  {
    seen, results := seen0, results0;
    ghost var prefix := Cols(s, s.startX, x);
    ghost var visited := prefix;
    ColumnStart(s, x);
    var y := s.startY;
    while y <= s.endY
      invariant s.startY <= y && (y <= s.endY + 1 || y == s.startY)
      invariant visited == prefix + ColKeys(x, s.startY, y)
      invariant Visited(cells, bounds, q, visited, seen, results)
    {
      seen, results := QueryCell(cells, bounds, q, NewGridKey(x, y), visited, seen, results);
      ColumnKeysNext(prefix, s, x, y);
      visited := visited + [NewGridKey(x, y)];
      y := y + 1;
    }
    ColumnDone(s, x, y);
  }

  lemma ColumnStart(s: Span, x: int)
    ensures Cols(s, s.startX, x) + ColKeys(x, s.startY, s.startY) == Cols(s, s.startX, x)
  {
    AppendNil(Cols(s, s.startX, x));
  }

  /** Visiting cell (x, y) extends the keys visited so far by its key. */
  lemma ColumnKeysNext(prefix: seq<GridKey>, s: Span, x: int, y: int)
    requires s.startY <= y
    ensures prefix + ColKeys(x, s.startY, y + 1) == (prefix + ColKeys(x, s.startY, y)) + [NewGridKey(x, y)]
  {
    AppendAssoc(prefix, ColKeys(x, s.startY, y), [NewGridKey(x, y)]);
  }

  /** Query's visit of one cell: its bucket is scanned after the cells visited so far. */
  method QueryCell<T(==)>(cells: map<GridKey, seq<T>>, bounds: T -> Box, q: Box, key: GridKey,
                          ghost visited: seq<GridKey>, seen0: set<T>, results0: seq<T>)
    returns (seen: set<T>, results: seq<T>)
    requires Visited(cells, bounds, q, visited, seen0, results0)
    ensures Visited(cells, bounds, q, visited + [key], seen, results)
  {
    ScanSnoc(cells, visited, key);
    seen, results := QueryBucket(Bucket(cells, key), bounds, q, Scan(cells, visited), seen0, results0);
  }

  /** GetKeys's loops over a span: x outer, y inner. */
  method ListKeys(s: Span) returns (keys: seq<GridKey>)
    ensures keys == SpanKeys(s)
  {
    keys := [];
    var x := s.startX;
    while x <= s.endX
      invariant s.startX <= x && (x <= s.endX + 1 || x == s.startX)
      invariant keys == Cols(s, s.startX, x)
    {
      keys := ListColumn(s, x, keys);
      x := x + 1;
    }
    ColsDone(s, x);
  }

  /** GetKeys's inner loop: the keys of column x, in increasing y. */
  method ListColumn(s: Span, x: int, keys0: seq<GridKey>) returns (keys: seq<GridKey>)
    requires s.startX <= x <= s.endX
    requires keys0 == Cols(s, s.startX, x)
    ensures keys == Cols(s, s.startX, x + 1)
  {
    keys := keys0;
    ColumnStart(s, x);
    var y := s.startY;
    while y <= s.endY
      invariant s.startY <= y && (y <= s.endY + 1 || y == s.startY)
      invariant keys == Cols(s, s.startX, x) + ColKeys(x, s.startY, y)
    {
      ColumnKeysNext(Cols(s, s.startX, x), s, x, y);
      keys := keys + [NewGridKey(x, y)];
      y := y + 1;
    }
    ColumnDone(s, x, y);
  }

  /** Query's loops over a span: x outer, y inner, results deduplicated by seen. */
  method QuerySpan<T(==)>(cells: map<GridKey, seq<T>>, bounds: T -> Box, q: Box, s: Span)
    returns (results: seq<T>)
    ensures results == Dedup(Filter(Scan(cells, SpanKeys(s)), bounds, q))
  {
    var seen: set<T> := {};
    results := [];
    var x := s.startX;
    while x <= s.endX
      invariant s.startX <= x && (x <= s.endX + 1 || x == s.startX)
      invariant Visited(cells, bounds, q, Cols(s, s.startX, x), seen, results)
    {
      seen, results := QueryColumn(cells, bounds, q, s, x, seen, results);
      x := x + 1;
    }
    ColsDone(s, x);
  }

  // ---------------------------------------------------------------------------
  // Grid
  // ---------------------------------------------------------------------------

  /** The entry type's Min() and Max() are the fixed function bounds. */
  class Grid<T(==)> {
    const cellSize: CellSize
    const bounds: T -> Box
    var cells: map<GridKey, seq<T>>

    ghost predicate Valid()
      reads this
    {
      Inv(cells, cellSize, bounds)
    }

    constructor (cellSize: CellSize, bounds: T -> Box)
      ensures Valid() && cells == map[]
      ensures this.cellSize == cellSize && this.bounds == bounds
    {
      this.cellSize := cellSize;
      this.bounds := bounds;
      cells := map[];
    }

    /** GetKeys: the keys of the cells of e's span, x in the outer loop. */
    method GetKeys(e: T) returns (keys: seq<GridKey>)
      ensures keys == EntryKeys(cellSize, bounds, e)
    {
      keys := ListKeys(SpanOf(bounds(e), cellSize));
    }

    /** Insert: e is added once to the bucket of each of its keys. */
    method Insert(e: T)
      requires Valid()
      modifies this
      ensures Valid()
      ensures cells == AddCells(old(cells), EntryKeys(cellSize, bounds, e), e)
    {
      var keys := GetKeys(e);
      var newCells := InsertAll(cells, keys, e);
      InsertKeepsInv(cells, cellSize, bounds, e);
      cells := newCells;
    }

    /** Remove: the first e is cut from the bucket of each of e's keys, and
        emptied buckets are deleted. */
    method Remove(e: T)
      requires Valid()
      modifies this
      ensures Valid()
      ensures cells == RemoveCells(old(cells), EntryKeys(cellSize, bounds, e), e)
    {
      var keys := GetKeys(e);
      var newCells := RemoveAll(cells, keys, e);
      RemoveKeepsInv(cells, cellSize, bounds, e);
      cells := newCells;
    }

    /** Query: the cells of the query box's span, x outer and y inner. */
    method Query(minX: real, minY: real, maxX: real, maxY: real) returns (results: seq<T>)
      ensures results == QueryResult(cells, cellSize, bounds, Box(minX, minY, maxX, maxY))
    {
      var q := Box(minX, minY, maxX, maxY);
      results := QuerySpan(cells, bounds, q, SpanOf(q, cellSize));
    }

    /** Clear: no buckets remain. */
    method Clear()
      modifies this
      ensures Valid() && cells == map[]
    {
      cells := map[];
    }
  }

  /** New: a non-positive cell size is rejected (Go panics); otherwise an empty grid. */
  method New<T(==)>(cellSize: real, bounds: T -> Box) returns (g: Option<Grid<T>>)
    ensures g.None? <==> cellSize <= 0.0
    ensures g.Some? ==> fresh(g.value) && g.value.Valid() && g.value.cells == map[]
    ensures g.Some? ==> g.value.cellSize == cellSize && g.value.bounds == bounds
  {
    if cellSize <= 0.0 {
      return None;
    }
    var grid := new Grid(cellSize, bounds);
    return Some(grid);
  }
}
