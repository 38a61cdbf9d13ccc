/** The contract of every internal iterator (include/leveldb/iterator.h): a cursor over
    a sorted sequence of entries that is either at one of them or not valid.
 */
module Cursors {
  import opened Comparator
  import opened Dbformat

  /** The position of the first entry at or past `target`. */
  function LowerBound(es: seq<Entry>, target: InternalKey): (p: nat)
    ensures p <= |es|
    ensures forall i :: 0 <= i < p ==> Before(es[i].key, target)
    ensures p < |es| ==> !Before(es[p].key, target)
  {
    if es == [] || !Before(es[0].key, target) then 0 else 1 + LowerBound(es[1..], target)
  }

  class Cursor {
    const entries: seq<Entry>
    var pos: nat

    constructor (entries: seq<Entry>)
      ensures this.entries == entries
      ensures pos == |entries|
    {
      this.entries := entries;
      pos := |entries|;
    }

    predicate Valid()
      reads this
    {
      pos < |entries|
    }

    function Current(): Entry
      requires Valid()
      reads this
    {
      entries[pos]
    }

    method SeekToFirst()
      modifies this
      ensures pos == 0
    {
      pos := 0;
    }

    method SeekToLast()
      modifies this
      ensures pos == if entries == [] then 0 else |entries| - 1
    {
      pos := if entries == [] then 0 else |entries| - 1;
    }

    method Seek(target: InternalKey)
      modifies this
      ensures pos == LowerBound(entries, target)
    {
      pos := LowerBound(entries, target);
    }

    method Next()
      requires Valid()
      modifies this
      ensures pos == old(pos) + 1
    {
      pos := pos + 1;
    }

    method Prev()
      requires Valid()
      modifies this
      ensures pos == if old(pos) == 0 then |entries| else old(pos) - 1
    {
      pos := if pos == 0 then |entries| else pos - 1;
    }
  }
}
