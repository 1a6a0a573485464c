/**
 * Package hashset: a set wrapper over a Go map with value receivers. A Go
 * map value refers to shared storage, so Set is a class whose field elems is
 * the key set of that map.
 */
module HashSet {

  class Set<T(==)> {
    var elems: set<T>

    /** New returns an empty set. */
    constructor New()
      ensures elems == {}
    {
      elems := {};
    }

    /** Contains reports exactly whether item is a member. */
    method Contains(item: T) returns (present: bool)
      ensures present <==> item in elems
    {
      present := item in elems;
    }

    /** Add makes item a member; adding a member changes nothing. */
    method Add(item: T)
      modifies this
      ensures item in elems
      ensures elems == old(elems) + {item}
      ensures old(item in elems) ==> elems == old(elems)
    {
      var present := Contains(item);
      if present {
        return;
      }
      elems := elems + {item};
    }

    /** Remove deletes item and leaves every other member in place. */
    method Remove(item: T)
      modifies this
      ensures item !in elems
      ensures elems == old(elems) - {item}
    {
      elems := elems - {item};
    }
  }
}
