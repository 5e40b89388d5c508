/**
 The iterator contract (include/leveldb/iterator.h) over one sorted run: what a memtable, block or table iterator
 offers, and what the merging and user iterators are built from.
 */
module Cursors {
  import opened Keys

  /** An iterator over a sorted run; position |entries| means not valid. */
  class Cursor {
    const entries: seq<Entry>
    var pos: nat

    ghost predicate Ok()
      reads this
    {
      Sorted(entries) && pos <= |entries|
    }

    constructor (es: seq<Entry>)
      requires Sorted(es)
      ensures Ok() && entries == es && !Valid()
    {
      entries, pos := es, |es|;
    }

    predicate Valid()
      reads this
    {
      pos < |entries|
    }

    method Seek(target: InternalKey)
      requires Ok()
      modifies this
      ensures Ok() && pos == LowerBound(entries, target)
    {
      pos := LowerBound(entries, target);
    }

    method SeekToFirst()
      requires Ok()
      modifies this
      ensures Ok() && pos == 0
    {
      pos := 0;
    }

    method SeekToLast()
      requires Ok()
      modifies this
      ensures Ok() && pos == if entries == [] then 0 else |entries| - 1
    {
      pos := if entries == [] then 0 else |entries| - 1;
    }

    method Next()
      requires Ok() && Valid()
      modifies this
      ensures Ok() && pos == old(pos) + 1
    {
      pos := pos + 1;
    }

    method Prev()
      requires Ok() && Valid()
      modifies this
      ensures Ok() && pos == if old(pos) == 0 then |entries| else old(pos) - 1
    {
      pos := if pos == 0 then |entries| else pos - 1;
    }
  }
}
