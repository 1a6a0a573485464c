/**
 * The list helpers of package linq: Batch splits a slice into consecutive
 * chunks of a given size, Distinct drops repeated elements keeping the first
 * occurrence of each. Go slices are modelled as values; that Batch's chunks
 * share the input's backing array is not modelled.
 */
module Linq {
  import opened Common

  /** The concatenation of a sequence of chunks. */
  function Flatten<T>(chunks: seq<seq<T>>): seq<T> {
    if chunks == [] then [] else Flatten(chunks[..|chunks| - 1]) + chunks[|chunks| - 1]
  }

  lemma FlattenSnoc<T>(chunks: seq<seq<T>>, c: seq<T>)
    ensures Flatten(chunks + [c]) == Flatten(chunks) + c
  {
    assert (chunks + [c])[..|chunks|] == chunks;
  }

  /** ceil(m / s) is the only n with (n - 1) * s < m <= n * s (and 0 for m = 0). */
  lemma CeilDiv(m: nat, s: int, n: nat)
    requires s > 0
    requires m <= n * s
    requires n == 0 || (n - 1) * s < m
    ensures n == (m + s - 1) / s
  {
    var a := m + s - 1;
    var rem := a - n * s;
    assert 0 <= rem < s;
    var q, r := a / s, a % s;
    assert a == q * s + r && 0 <= r < s;
    assert (n - q) * s == r - rem;
    if n > q {
      MulAtLeast(n - q, s);
    } else if n < q {
      MulAtLeast(q - n, s);
    }
  }

  /** Every chunk is non-empty and at most size long, and all but the last are full. */
  predicate ChunkSizes<T>(chunks: seq<seq<T>>, size: int) {
    && (forall j :: 0 <= j < |chunks| ==> 0 < |chunks[j]| <= size)
    && (forall j :: 0 <= j < |chunks| - 1 ==> |chunks[j]| == size)
  }

  /** Every chunk is exactly size long. */
  predicate AllFull<T>(chunks: seq<seq<T>>, size: int) {
    forall j :: 0 <= j < |chunks| ==> |chunks[j]| == size
  }

  /** Appending a non-empty chunk of at most size after full chunks keeps ChunkSizes;
      appending a full one keeps AllFull. */
  lemma ChunkSizesSnoc<T>(chunks: seq<seq<T>>, c: seq<T>, size: int)
    requires AllFull(chunks, size) && 0 < |c| <= size
    ensures ChunkSizes(chunks + [c], size)
    ensures |c| == size ==> AllFull(chunks + [c], size)
  {
  }

  /**
   * Batch: a non-positive size yields no batches; otherwise the batches are
   * non-empty, at most size long, all but the last exactly size long, there
   * are ceil(|items| / size) of them, and together they spell items.
   */
  method Batch<T>(items: seq<T>, size: int) returns (batches: seq<seq<T>>)
    ensures size <= 0 ==> batches == []
    ensures size > 0 ==> Flatten(batches) == items
    ensures size > 0 ==> |batches| == (|items| + size - 1) / size
    ensures forall j :: 0 <= j < |batches| ==> 0 < |batches[j]| <= size
    ensures forall j :: 0 <= j < |batches| - 1 ==> |batches[j]| == size
  {
    if size <= 0 {
      return [];
    }
    batches := [];
    var i := 0;
    while i < |items|
      invariant 0 <= i
      invariant i == |batches| * size
      invariant Flatten(batches) == items[..if i < |items| then i else |items|]
      invariant |batches| > 0 ==> (|batches| - 1) * size < |items|
      invariant ChunkSizes(batches, size)
      invariant i < |items| ==> AllFull(batches, size)
    {
      var end := if i + size < |items| then i + size else |items|;
      FlattenSnoc(batches, items[i..end]);
      PrefixSplit(items, i, end);
      ChunkSizesSnoc(batches, items[i..end], size);
      MulSucc(|batches|, size);
      batches := batches + [items[i..end]];
      i := i + size;
    }
    WholePrefix(items);
    CeilDiv(|items|, size, |batches|);
  }

  /**
   * Distinct: the result is Dedup(items): duplicate-free, with exactly the
   * members of items, in first-occurrence order, no longer than items, and
   * equal to items when items has no duplicates.
   */
  method Distinct<T(==)>(items: seq<T>) returns (result: seq<T>)
    ensures result == Dedup(items)
    ensures NoDups(result)
    ensures forall x :: x in result <==> x in items
    ensures InFirstOccurrenceOrder(result, items)
    ensures |result| <= |items|
    ensures NoDups(items) ==> result == items
  {
    var seen: set<T> := {};
    result := [];
    for i := 0 to |items|
      invariant result == Dedup(items[..i])
      invariant forall x :: x in seen <==> x in result
    {
      assert items[..i + 1][..i] == items[..i];
      DedupMembers(items[..i], items[i]);
      if items[i] !in seen {
        seen := seen + {items[i]};
        result := result + [items[i]];
      }
    }
    assert items[..|items|] == items;
    DedupNoDups(items);
    DedupOrder(items);
    DedupLength(items);
    forall x ensures x in result <==> x in items {
      DedupMembers(items, x);
    }
    if NoDups(items) {
      DedupOfDistinct(items);
    }
  }
}
