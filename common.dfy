/**
 * Definitions shared by the grids and the list helpers: an Option type for
 * operations that can fail, duplicate-freedom, order-preserving
 * deduplication (the behaviour of linq.Distinct and of both grid queries),
 * and Go's float-to-integer conversion, which truncates toward zero.
 */
module Common {

  datatype Option<T> = None | Some(value: T)

  /** No element occurs twice in s. */
  predicate NoDups<T(==)>(s: seq<T>) {
    forall i, j :: 0 <= i < j < |s| ==> s[i] != s[j]
  }

  lemma WholePrefix<T>(s: seq<T>)
    ensures s[..|s|] == s
  {
  }

  lemma AppendAssoc<T>(a: seq<T>, b: seq<T>, c: seq<T>)
    ensures a + (b + c) == (a + b) + c
  {
  }

  lemma SplitLast<T>(s: seq<T>)
    requires s != []
    ensures s == s[..|s| - 1] + [s[|s| - 1]]
  {
  }

  lemma SplitFirst<T>(s: seq<T>)
    requires s != []
    ensures s == [s[0]] + s[1..]
  {
  }

  lemma PrefixSplit<T>(s: seq<T>, i: nat, j: nat)
    requires i <= j <= |s|
    ensures s[..j] == s[..i] + s[i..j]
  {
  }

  lemma AppendNil<T>(a: seq<T>)
    ensures a + [] == a
  {
  }

  /** A prefix one longer is the prefix with the next element appended. */
  lemma PrefixSnoc<T>(s: seq<T>, j: nat)
    requires j < |s|
    ensures s[..j + 1] == s[..j] + [s[j]]
  {
  }

  /** In a duplicate-free sequence an element does not occur before its own position. */
  lemma NoDupsPrefix<T>(s: seq<T>, i: nat)
    requires NoDups(s) && i < |s|
    ensures s[i] !in s[..i]
  {
  }

  /** The elements of s, each once, in the order of their first occurrence. */
  function Dedup<T(==)>(s: seq<T>): seq<T> {
    if s == [] then []
    else
      var d := Dedup(s[..|s| - 1]);
      if s[|s| - 1] in d then d else d + [s[|s| - 1]]
  }

  /** One step of Dedup: x is kept exactly when it has not been seen yet. */
  lemma DedupSnoc<T>(s: seq<T>, x: T)
    ensures Dedup(s + [x]) == if x in Dedup(s) then Dedup(s) else Dedup(s) + [x]
  {
    assert (s + [x])[..|s|] == s;
  }

  /** The position of the first occurrence of x in s. */
  function FirstIndex<T(==)>(s: seq<T>, x: T): (i: nat)
    requires x in s
    ensures i < |s| && s[i] == x && x !in s[..i]
  {
    if s[0] == x then 0
    else
      var j := FirstIndex(s[1..], x);
      assert s[1..][..j] == s[1..j + 1];
      assert s[..j + 1] == [s[0]] + s[1..j + 1];
      j + 1
  }

  /** r lists elements of s in the order in which they first occur in s. */
  ghost predicate InFirstOccurrenceOrder<T>(r: seq<T>, s: seq<T>) {
    && (forall x :: x in r ==> x in s)
    && (forall i, j :: 0 <= i < j < |r| ==>
          r[i] in s && r[j] in s && FirstIndex(s, r[i]) < FirstIndex(s, r[j]))
  }

  /** Appending to a sequence does not move the first occurrence of an element already present. */
  lemma FirstIndexAppend<T>(s: seq<T>, y: T, x: T)
    requires x in s
    ensures x in s + [y] && FirstIndex(s + [y], x) == FirstIndex(s, x)
  {
    var i := FirstIndex(s, x);
    assert (s + [y])[i] == x;
    assert (s + [y])[..i] == s[..i];
  }

  lemma {:induction false} DedupMembers<T>(s: seq<T>, x: T)
    ensures x in Dedup(s) <==> x in s
  {
    if s != [] {
      var p := s[..|s| - 1];
      DedupMembers(p, x);
      SplitLast(s);
    }
  }

  lemma {:induction false} DedupNoDups<T>(s: seq<T>)
    ensures NoDups(Dedup(s))
  {
    if s != [] {
      var p := s[..|s| - 1];
      DedupNoDups(p);
    }
  }

  lemma {:induction false} DedupLength<T>(s: seq<T>)
    ensures |Dedup(s)| <= |s|
  {
    if s != [] {
      DedupLength(s[..|s| - 1]);
    }
  }

  lemma {:induction false} DedupOrder<T>(s: seq<T>)
    ensures InFirstOccurrenceOrder(Dedup(s), s)
  {
    if s != [] {
      var p, y := s[..|s| - 1], s[|s| - 1];
      SplitLast(s);
      DedupOrder(p);
      OrderExtend(Dedup(p), p, y);
      if y !in Dedup(p) {
        DedupMembers(p, y);
        OrderAppendNew(Dedup(p), p, y);
      }
    }
  }

  /** Appending to s keeps r in first-occurrence order. */
  lemma OrderExtend<T>(r: seq<T>, p: seq<T>, y: T)
    requires InFirstOccurrenceOrder(r, p)
    ensures InFirstOccurrenceOrder(r, p + [y])
  {
    forall x | x in r ensures x in p + [y] && FirstIndex(p + [y], x) == FirstIndex(p, x) {
      FirstIndexAppend(p, y, x);
    }
    forall i, j | 0 <= i < j < |r|
      ensures r[i] in p + [y] && r[j] in p + [y] && FirstIndex(p + [y], r[i]) < FirstIndex(p + [y], r[j])
    {
      assert r[i] in r && r[j] in r;
    }
  }

  /** An element new to s goes after everything already listed. */
  lemma OrderAppendNew<T>(r: seq<T>, p: seq<T>, y: T)
    requires InFirstOccurrenceOrder(r, p) && y !in p
    ensures InFirstOccurrenceOrder(r + [y], p + [y])
  {
    var s, r' := p + [y], r + [y];
    OrderExtend(r, p, y);
    assert FirstIndex(s, y) == |p| by {
      assert s[..|p|] == p;
    }
    forall i, j | 0 <= i < j < |r'|
      ensures r'[i] in s && r'[j] in s && FirstIndex(s, r'[i]) < FirstIndex(s, r'[j])
    {
      assert r'[i] == r[i] && r[i] in r;
      if j < |r| {
        assert r'[j] == r[j] && r[j] in r;
      } else {
        FirstIndexAppend(p, y, r[i]);
      }
    }
  }

  /** On duplicate-free input deduplication is the identity. */
  lemma {:induction false} DedupOfDistinct<T>(s: seq<T>)
    requires NoDups(s)
    ensures Dedup(s) == s
  {
    if s != [] {
      var p := s[..|s| - 1];
      assert NoDups(p);
      DedupOfDistinct(p);
      assert s[|s| - 1] !in p;
      SplitLast(s);
    }
  }

  lemma NoMembers<T>(r: seq<T>)
    requires forall x :: x !in r
    ensures r == []
  {
    forall x ensures multiset(r)[x] == 0 {
      assert x !in r;
    }
    assert multiset(r) == multiset{};
  }

  /** r is duplicate-free, has the members of s, and lists them in the
      order of their first occurrence in s. */
  ghost predicate DedupOf<T>(r: seq<T>, s: seq<T>) {
    && NoDups(r)
    && (forall x :: x in r ==> x in s)
    && (forall x :: x in s ==> x in r)
    && InFirstOccurrenceOrder(r, s)
  }

  /** Dedup is pinned down by its three properties: any duplicate-free r with
      the members of s, listed in first-occurrence order, is Dedup(s). */
  lemma {:induction false} DedupUnique<T>(r: seq<T>, s: seq<T>)
    requires NoDups(r)
    requires forall x :: x in r <==> x in s
    requires InFirstOccurrenceOrder(r, s)
    ensures r == Dedup(s)
    decreases |s|
  {
    if s == [] {
      NoMembers(r);
    } else {
      var p, y := s[..|s| - 1], s[|s| - 1];
      SplitLast(s);
      if y in p {
        DedupOfRepeat(r, p, y);
        DedupUnique(r, p);
      } else {
        var q := DedupOfNew(r, p, y);
        DedupUnique(q, p);
        DedupMembers(p, y);
      }
    }
  }

  /** When the last element of s repeats an earlier one, r describes the rest of s too. */
  lemma DedupOfRepeat<T>(r: seq<T>, p: seq<T>, y: T)
    requires DedupOf(r, p + [y]) && y in p
    ensures DedupOf(r, p)
  {
    var s := p + [y];
    forall x | x in r ensures x in p {
      assert x in s;
    }
    forall i, j | 0 <= i < j < |r|
      ensures r[i] in p && r[j] in p && FirstIndex(p, r[i]) < FirstIndex(p, r[j])
    {
      assert r[i] in r && r[j] in r;
      FirstIndexAppend(p, y, r[i]);
      FirstIndexAppend(p, y, r[j]);
    }
    forall x | x in p ensures x in r {
      assert x in s;
    }
  }

  /** When the last element y of s is new, r is q + [y] with q describing the rest of s. */
  lemma DedupOfNew<T>(r: seq<T>, p: seq<T>, y: T) returns (q: seq<T>)
    requires DedupOf(r, p + [y]) && y !in p
    ensures r == q + [y] && DedupOf(q, p)
  {
    NewIsLast(r, p, y);
    q := r[..|r| - 1];
    assert r == q + [y];
    DedupOfPrefix(r, p, y, q);
  }

  /** An element occurring only at the end of s comes last in r. */
  lemma NewIsLast<T>(r: seq<T>, p: seq<T>, y: T)
    requires DedupOf(r, p + [y]) && y !in p
    ensures |r| > 0 && r[|r| - 1] == y
  {
    var s := p + [y];
    assert y in s;
    var k :| 0 <= k < |r| && r[k] == y;
    assert FirstIndex(s, y) == |p| by {
      assert s[..|p|] == p;
    }
    var last := r[|r| - 1];
    assert last in s && FirstIndex(s, last) <= FirstIndex(s, r[k]);
    assert k == |r| - 1;
  }

  lemma DedupOfPrefix<T>(r: seq<T>, p: seq<T>, y: T, q: seq<T>)
    requires DedupOf(r, p + [y]) && y !in p && r == q + [y]
    ensures DedupOf(q, p)
  {
    assert NoDups(q) by {
      forall i, j | 0 <= i < j < |q| ensures q[i] != q[j] {
        assert q[i] == r[i] && q[j] == r[j];
      }
    }
    forall x | x in q ensures x in p {
      var i :| 0 <= i < |q| && q[i] == x;
      assert r[i] == x && r[|r| - 1] == y;
      assert x in p + [y];
    }
    forall x | x in p ensures x in q {
      assert x in p + [y];
      assert x in r;
    }
    forall i, j | 0 <= i < j < |q|
      ensures q[i] in p && q[j] in p && FirstIndex(p, q[i]) < FirstIndex(p, q[j])
    {
      assert q[i] == r[i] && q[j] == r[j];
      assert q[i] in q && q[j] in q;
      FirstIndexAppend(p, y, q[i]);
      FirstIndexAppend(p, y, q[j]);
    }
  }

  /** 1 << 32: one 32-bit word. */
  const Word: int := 0x1_0000_0000

  /** A uint64 value. */
  type Uint64 = k: int | 0 <= k < 0x1_0000_0000_0000_0000

  lemma MulSucc(n: int, s: int)
    ensures (n + 1) * s == n * s + s
    ensures s * (n + 1) == s * n + s
  {
  }

  lemma MulAtLeast(d: int, s: int)
    requires d >= 1 && s > 0
    ensures d * s >= s
  {
  }

  /** Euclidean division is unique: q and r are the quotient and remainder of q * d + r. */
  lemma DivModUnique(p: int, d: int, q: int, r: int)
    requires d > 0 && 0 <= r < d && p == q * d + r
    ensures p / d == q && p % d == r
  {
    var q', r' := p / d, p % d;
    assert (q - q') * d == r' - r;
    if q > q' {
      MulAtLeast(q - q', d);
    } else if q < q' {
      MulAtLeast(q' - q, d);
    }
  }

  // Buckets of a spatial hash: a map from cell key to the items of that cell.

  /** Reading cells[k] in Go: the bucket, or an empty (nil) slice. */
  function Bucket<K, T>(cells: map<K, seq<T>>, k: K): seq<T> {
    if k in cells then cells[k] else []
  }

  /** The concatenated buckets of keys, in key order. */
  function Scan<K, T>(cells: map<K, seq<T>>, keys: seq<K>): seq<T> {
    if keys == [] then [] else Scan(cells, keys[..|keys| - 1]) + Bucket(cells, keys[|keys| - 1])
  }

  lemma ScanSnoc<K, T>(cells: map<K, seq<T>>, keys: seq<K>, key: K)
    ensures Scan(cells, keys + [key]) == Scan(cells, keys) + Bucket(cells, key)
  {
    assert (keys + [key])[..|keys|] == keys;
  }

  /** An item is in the scanned buckets exactly when one of the keys has it. */
  lemma {:induction false} ScanMembers<K, T>(cells: map<K, seq<T>>, keys: seq<K>, t: T)
    ensures t in Scan(cells, keys) <==> exists k :: k in keys && t in Bucket(cells, k)
  {
    if keys != [] {
      var p, last := keys[..|keys| - 1], keys[|keys| - 1];
      ScanMembers(cells, p, t);
      SplitLast(keys);
      if t in Scan(cells, keys) && t !in Scan(cells, p) {
        assert last in keys && t in Bucket(cells, last);
      }
      if exists k :: k in keys && t in Bucket(cells, k) {
        var k :| k in keys && t in Bucket(cells, k);
        if k != last {
          assert k in p;
        }
      }
    }
  }

  lemma DivMonotone(a: real, b: real, c: real)
    requires a <= b && c > 0.0
    ensures a / c <= b / c
  {
    assert b / c - a / c == (b - a) / c;
  }

  /** Go's conversion of a floating-point value to an integer type: the
      fraction is discarded, i.e. the value is truncated toward zero. */
  function Trunc(v: real): (n: int)
    ensures 0.0 <= v ==> n as real <= v < n as real + 1.0
    ensures v < 0.0 ==> n as real - 1.0 < v <= n as real
  {
    if v >= 0.0 then v.Floor else -((-v).Floor)
  }

  lemma TruncMonotone(a: real, b: real)
    requires a <= b
    ensures Trunc(a) <= Trunc(b)
  {
  }

  /** Truncation (rather than flooring) makes the integer 0 the image of the
      whole open interval (-1, 1): the cell with index 0 is twice as wide as
      every other cell. */
  lemma TruncMergesAroundZero(v: real)
    requires -1.0 < v < 1.0
    ensures Trunc(v) == 0
  {
  }
}
