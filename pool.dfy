/**
 * Package pool: a last-in-first-out free list of reusable items. The slice
 * of stored items is the sequence field items, whose last element is the
 * top; New is the caller-supplied factory used when the pool is empty,
 * modelled as a pure function.
 */
module Pool {

  class Pool<T> {
    var items: seq<T>
    const New: () -> T

    /** The composite literal Pool[T]{New: newItem}: no stored items. */
    constructor (newItem: () -> T)
      ensures items == [] && New == newItem
    {
      items := [];
      New := newItem;
    }

    /** The number of stored items; a nat, so never negative, and zero
        exactly when Get would have to call New. */
    function Len(): (n: nat)
      reads this
      ensures n == 0 <==> items == []
    {
      |items|
    }

    /** Get pops the most recently Put item, or calls New on an empty pool. */
    method Get() returns (item: T)
      modifies this
      ensures old(items) == [] ==> item == New() && items == []
      ensures old(items) != [] ==> item == old(items)[|old(items)| - 1]
      ensures old(items) != [] ==> items == old(items)[..|old(items)| - 1]
      ensures Len() == if old(Len()) == 0 then 0 else old(Len()) - 1
    {
      var n := |items|;
      if n == 0 {
        return New();
      }
      item := items[n - 1];
      items := items[..n - 1];
    }

    /** Put pushes item on top. */
    method Put(item: T)
      modifies this
      ensures items == old(items) + [item]
      ensures Len() == old(Len()) + 1
    {
      items := items + [item];
    }
  }

  /** LIFO order: two Puts followed by two Gets return the items in reverse
      order and leave the stored stack as it was. */
  method PutPutGetGet<T>(p: Pool<T>, a: T, b: T) returns (first: T, second: T)
    modifies p
    ensures first == b && second == a
    ensures p.items == old(p.items)
  {
    p.Put(a);
    p.Put(b);
    first := p.Get();
    second := p.Get();
    assert old(p.items) + [a] + [b] == old(p.items) + [a, b];
  }
}
