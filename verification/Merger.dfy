/**
 MergingIterator (table/merger.cc): a cursor over the sorted merge of its children, in both directions.
 */
module Merger {
  import opened Keys
  import opened Cursors

  /** No two children share a key. */
  ghost predicate DistinctKeys(lists: seq<seq<Entry>>) {
    forall i, j, x, y :: 0 <= i < |lists| && 0 <= j < |lists| && i != j && x in lists[i] && y in lists[j] ==>
      x.key != y.key
  }

  /** `merged` is the sorted list of all children's entries. */
  ghost predicate IsMerge(lists: seq<seq<Entry>>, merged: seq<Entry>) {
    && Sorted(merged)
    && (forall i, e :: 0 <= i < |lists| && e in lists[i] ==> e in merged)
    && (forall e :: e in merged ==> exists i :: 0 <= i < |lists| && e in lists[i])
  }

  /** The entry precedes the q-th merged one; everything precedes the end. */
  predicate Precedes(e: Entry, merged: seq<Entry>, q: nat) {
    q >= |merged| || Less(e.key, merged[q].key)
  }

  /** The first `pos` entries of `es` are exactly its entries that precede the q-th merged one. */
  ghost predicate Splits(es: seq<Entry>, pos: nat, merged: seq<Entry>, q: nat) {
    && pos <= |es| && q <= |merged|
    && forall j :: 0 <= j < |es| ==> (j < pos <==> Precedes(es[j], merged, q))
  }

  /** One past a cursor position, read backward: an invalid cursor stands before the first entry. */
  function After(es: seq<Entry>, pos: nat): nat {
    if pos < |es| then pos + 1 else 0
  }

  /** Between two neighbours of the merged list there is nothing. */
  lemma PrecedesNext(merged: seq<Entry>, q: nat, e: Entry)
    requires Sorted(merged) && q < |merged| && e in merged
    ensures Precedes(e, merged, q + 1) <==> Precedes(e, merged, q) || e == merged[q]
  {
    var i :| 0 <= i < |merged| && merged[i] == e;
    SortedAt(merged, i, q);
    if q + 1 < |merged| { SortedAt(merged, i, q + 1); }
  }

  /** Seeking a child to a key splits it where that key splits the merged list. */
  lemma SeekSplits(es: seq<Entry>, merged: seq<Entry>, target: InternalKey)
    requires Sorted(es) && Sorted(merged) && forall e :: e in es ==> e in merged
    ensures Splits(es, LowerBound(es, target), merged, LowerBound(merged, target))
  {
    var lb, q := LowerBound(es, target), LowerBound(merged, target);
    forall j | 0 <= j < |es|
      ensures j < lb <==> Precedes(es[j], merged, q)
    {
      assert es[j] in es;
      var i :| 0 <= i < |merged| && merged[i] == es[j];
      if lb < |es| { SortedAt(es, lb, j); }
      if q < |merged| { SortedAt(merged, q, i); }
    }
  }

  lemma LowerBoundOfMember(merged: seq<Entry>, q: nat)
    requires Sorted(merged) && q < |merged|
    ensures LowerBound(merged, merged[q].key) == q
  {
    var lb := LowerBound(merged, merged[q].key);
    if lb < |merged| { SortedAt(merged, lb, q); }
  }

  /** A child that does not hold the q-th merged entry is split alike at q and at q + 1. */
  lemma SplitsPast(es: seq<Entry>, pos: nat, merged: seq<Entry>, q: nat)
    requires Sorted(merged) && q < |merged| && merged[q] !in es && forall e :: e in es ==> e in merged
    ensures Splits(es, pos, merged, q) <==> Splits(es, pos, merged, q + 1)
  {
    forall j | 0 <= j < |es|
      ensures Precedes(es[j], merged, q) <==> Precedes(es[j], merged, q + 1)
    {
      assert es[j] in es;
      PrecedesNext(merged, q, es[j]);
    }
  }

  /** The child that holds the q-th merged entry at `pos` moves past it. */
  lemma SplitsOver(es: seq<Entry>, pos: nat, merged: seq<Entry>, q: nat)
    requires Sorted(es) && Sorted(merged) && q < |merged| && forall e :: e in es ==> e in merged
    requires pos < |es| && es[pos] == merged[q]
    ensures Splits(es, pos, merged, q) && Splits(es, pos + 1, merged, q + 1)
  {
    forall j | 0 <= j < |es|
      ensures j < pos <==> Precedes(es[j], merged, q)
      ensures j < pos + 1 <==> Precedes(es[j], merged, q + 1)
    {
      assert es[j] in es;
      SortedAt(es, j, pos);
      PrecedesNext(merged, q, es[j]);
    }
  }

  /** Forward: the child that holds the q-th merged entry has it at its head; every other head is larger. */
  lemma HeadIsNext(es: seq<Entry>, pos: nat, merged: seq<Entry>, q: nat)
    requires Sorted(es) && Sorted(merged) && forall e :: e in es ==> e in merged
    requires Splits(es, pos, merged, q)
    ensures q < |merged| && merged[q] in es ==> pos < |es| && es[pos] == merged[q]
    ensures pos < |es| ==> q < |merged| && (es[pos] == merged[q] || Less(merged[q].key, es[pos].key))
  {
    if pos < |es| {
      assert es[pos] in es;
      var i :| 0 <= i < |merged| && merged[i] == es[pos];
      if q < |merged| { SortedAt(merged, i, q); SortedAt(merged, q, i); }
    }
    if q < |merged| && merged[q] in es {
      var j :| 0 <= j < |es| && es[j] == merged[q];
      SortedAt(es, pos, j);
    }
  }

  /** Backward: the child that holds the merged entry before the split stands on it; every other one on less. */
  lemma TailIsPrevious(es: seq<Entry>, pos: nat, merged: seq<Entry>, q: nat)
    requires Sorted(es) && Sorted(merged) && forall e :: e in es ==> e in merged
    requires Splits(es, After(es, pos), merged, q)
    ensures q > 0 && merged[q - 1] in es ==> pos < |es| && es[pos] == merged[q - 1]
    ensures pos < |es| ==> q > 0 && (es[pos] == merged[q - 1] || Less(es[pos].key, merged[q - 1].key))
  {
    if pos < |es| {
      assert es[pos] in es;
      var i :| 0 <= i < |merged| && merged[i] == es[pos];
      if q < |merged| { SortedAt(merged, i, q); }
      if q > 0 { SortedAt(merged, i, q - 1); }
    }
    if q > 0 && merged[q - 1] in es {
      var j :| 0 <= j < |es| && es[j] == merged[q - 1];
      if q < |merged| { SortedAt(merged, q - 1, q); }
      assert Precedes(es[j], merged, q);
      SortedAt(es, j, pos);
    }
  }

  datatype Direction = Forward | Reverse

  class MergingIterator {
    const children: seq<Cursor>
    var current: Option<nat>
    var direction: Direction
    /** The sorted merge of the children, and the position in it. */
    ghost const merged: seq<Entry>
    ghost var pos: nat

    ghost function Lists(): seq<seq<Entry>> {
      seq(|children|, i requires 0 <= i < |children| => children[i].entries)
    }

    /** The children are separate cursors over lists without common keys, and `merged` is their merge. */
    ghost predicate WellFormed()
      reads children
    {
      && (forall i, j :: 0 <= i < j < |children| ==> children[i] != children[j])
      && (forall i :: 0 <= i < |children| ==> children[i].Ok())
      && DistinctKeys(Lists()) && IsMerge(Lists(), merged)
    }

    /** Every child is split at the q-th merged entry, read forward. */
    ghost predicate AllAt(q: nat)
      reads children
    {
      forall i :: 0 <= i < |children| ==> Splits(children[i].entries, children[i].pos, merged, q)
    }

    /** Every child is split at the q-th merged entry, read backward. */
    ghost predicate AllBefore(q: nat)
      reads children
    {
      forall i :: 0 <= i < |children| ==> Splits(children[i].entries, After(children[i].entries, children[i].pos),
                                                 merged, q)
    }

    ghost predicate Ok()
      reads this, children
    {
      && WellFormed() && pos <= |merged| && (current.Some? <==> pos < |merged|)
      && (current.Some? ==>
            && current.value < |children|
            && var c := children[current.value]; c.pos < |c.entries| && c.entries[c.pos] == merged[pos])
      && (current.Some? && direction.Forward? ==> AllAt(pos))
      && (current.Some? && direction.Reverse? ==> AllBefore(pos + 1))
    }

    constructor (children: seq<Cursor>, ghost merged: seq<Entry>)
      requires forall i, j :: 0 <= i < j < |children| ==> children[i] != children[j]
      requires forall i :: 0 <= i < |children| ==> children[i].Ok()
      requires DistinctKeys(seq(|children|, i requires 0 <= i < |children| => children[i].entries))
      requires IsMerge(seq(|children|, i requires 0 <= i < |children| => children[i].entries), merged)
      ensures Ok() && current.None? && this.children == children && this.merged == merged
    {
      this.children, this.merged := children, merged;
      current, direction, pos := None, Forward, |merged|;
    }

    /** The child that holds a merged entry. */
    lemma HolderOf(q: nat) returns (i: nat)
      requires WellFormed() && q < |merged|
      ensures i < |children| && merged[q] in children[i].entries
      ensures forall j :: 0 <= j < |children| && j != i ==> merged[q] !in children[j].entries
    {
      assert merged[q] in merged;
      i :| 0 <= i < |Lists()| && merged[q] in Lists()[i];
      forall j | 0 <= j < |children| && j != i
        ensures merged[q] !in children[j].entries
      {
        assert Lists()[j] == children[j].entries;
      }
    }

    lemma ChildFacts(i: nat)
      requires WellFormed() && i < |children|
      ensures Sorted(children[i].entries) && Sorted(merged)
      ensures forall e :: e in children[i].entries ==> e in merged
    {
      assert Lists()[i] == children[i].entries;
    }

    /** The key under the i-th child's cursor. */
    function HeadKey(i: nat): InternalKey
      requires i < |children| && children[i].Valid()
      reads children
    {
      children[i].entries[children[i].pos].key
    }

    /** FindSmallest: the child with the smallest head. */
    method FindSmallest(ghost q: nat)
      requires WellFormed() && AllAt(q) && q <= |merged|
      modifies this`current, this`pos
      ensures WellFormed() && AllAt(q) && pos == q && (current.Some? <==> q < |merged|)
      ensures current.Some? ==>
                current.value < |children|
                && children[current.value].pos < |children[current.value].entries|
      ensures current.Some? ==> children[current.value].entries[children[current.value].pos] == merged[q]
    {
      var smallest: Option<nat> := None;
      for i := 0 to |children|
        invariant smallest.Some? ==> smallest.value < i && children[smallest.value].Valid()
        invariant forall j :: 0 <= j < i && children[j].Valid() ==>
                    smallest.Some? && !Less(HeadKey(j), HeadKey(smallest.value))
      {
        var child := children[i];
        if child.Valid() {
          if smallest.None? {
            smallest := Some(i);
          } else {
            var s := children[smallest.value];
            if Less(child.entries[child.pos].key, s.entries[s.pos].key) {
              smallest := Some(i);
            }
          }
        }
      }
      SmallestIsNext(q, smallest);
      current, pos := smallest, q;
    }

    lemma SmallestIsNext(q: nat, smallest: Option<nat>)
      requires WellFormed() && AllAt(q) && q <= |merged|
      requires smallest.Some? ==> smallest.value < |children| && children[smallest.value].Valid()
      requires forall j :: 0 <= j < |children| && children[j].Valid() ==>
        smallest.Some? && !Less(HeadKey(j), HeadKey(smallest.value))
      ensures smallest.Some? <==> q < |merged|
      ensures smallest.Some? ==> children[smallest.value].entries[children[smallest.value].pos] == merged[q]
    {
      if smallest.Some? {
        ChildFacts(smallest.value);
        HeadIsNext(children[smallest.value].entries, children[smallest.value].pos, merged, q);
      }
      if q < |merged| {
        var h := HolderOf(q);
        ChildFacts(h);
        HeadIsNext(children[h].entries, children[h].pos, merged, q);
      }
    }

    /** FindLargest: the child that stands on the largest entry. */
    method FindLargest(ghost q: nat)
      requires WellFormed() && AllBefore(q) && q <= |merged|
      modifies this`current, this`pos
      ensures WellFormed() && AllBefore(q) && pos == (if q == 0 then |merged| else q - 1) && (current.Some? <==> q > 0)
      ensures current.Some? ==>
                current.value < |children|
                && children[current.value].pos < |children[current.value].entries|
      ensures current.Some? ==> children[current.value].entries[children[current.value].pos] == merged[q - 1]
    {
      var largest: Option<nat> := None;
      var i := |children|;
      while i > 0
        invariant 0 <= i <= |children|
        invariant largest.Some? ==> i <= largest.value < |children| && children[largest.value].Valid()
        invariant forall j :: i <= j < |children| && children[j].Valid() ==>
          largest.Some? && !Less(HeadKey(largest.value), HeadKey(j))
      {
        i := i - 1;
        var child := children[i];
        if child.Valid() {
          if largest.None? {
            largest := Some(i);
          } else {
            var s := children[largest.value];
            if Less(s.entries[s.pos].key, child.entries[child.pos].key) {
              largest := Some(i);
            }
          }
        }
      }
      LargestIsPrevious(q, largest);
      current, pos := largest, if q == 0 then |merged| else q - 1;
    }

    lemma LargestIsPrevious(q: nat, largest: Option<nat>)
      requires WellFormed() && AllBefore(q) && q <= |merged|
      requires largest.Some? ==> largest.value < |children| && children[largest.value].Valid()
      requires forall j :: 0 <= j < |children| && children[j].Valid() ==>
        largest.Some? && !Less(HeadKey(largest.value), HeadKey(j))
      ensures largest.Some? <==> q > 0
      ensures largest.Some? ==> children[largest.value].entries[children[largest.value].pos] == merged[q - 1]
    {
      if largest.Some? {
        ChildFacts(largest.value);
        TailIsPrevious(children[largest.value].entries, children[largest.value].pos, merged, q);
      }
      if q > 0 {
        var h := HolderOf(q - 1);
        ChildFacts(h);
        TailIsPrevious(children[h].entries, children[h].pos, merged, q);
      }
    }

    /** The entry under the iterator is the merged one at its position. */
    method Current() returns (e: Entry)
      requires Ok() && current.Some?
      ensures pos < |merged| && e == merged[pos]
    {
      var c := children[current.value];
      e := c.entries[c.pos];
    }

    method SeekToFirst()
      requires Ok()
      modifies this, children
      ensures Ok() && pos == 0
    {
      for i := 0 to |children|
        invariant WellFormed()
        invariant forall j :: 0 <= j < i ==> children[j].pos == 0
      {
        children[i].SeekToFirst();
      }
      forall i | 0 <= i < |children|
        ensures Splits(children[i].entries, 0, merged, 0)
      {
        ChildFacts(i);
        StartSplits(children[i].entries, merged);
      }
      FindSmallest(0);
      direction := Forward;
    }

    method SeekToLast()
      requires Ok()
      modifies this, children
      ensures Ok() && pos == if |merged| == 0 then 0 else |merged| - 1
    {
      for i := 0 to |children|
        invariant WellFormed()
        invariant forall j :: 0 <= j < i ==> After(children[j].entries, children[j].pos) == |children[j].entries|
      {
        children[i].SeekToLast();
      }
      FindLargest(|merged|);
      direction := Reverse;
    }

    method Seek(target: InternalKey)
      requires Ok()
      modifies this, children
      ensures Ok() && pos == LowerBound(merged, target)
    {
      for i := 0 to |children|
        invariant WellFormed()
        invariant forall j :: 0 <= j < i ==> children[j].pos == LowerBound(children[j].entries, target)
      {
        children[i].Seek(target);
      }
      forall i | 0 <= i < |children|
        ensures Splits(children[i].entries, children[i].pos, merged, LowerBound(merged, target))
      {
        ChildFacts(i);
        SeekSplits(children[i].entries, merged, target);
      }
      FindSmallest(LowerBound(merged, target));
      direction := Forward;
    }

    /** Put every child but the current one after the current key. */
    method OthersAfter()
      requires Ok() && current.Some?
      modifies children
      ensures WellFormed() && AllAt(pos)
      ensures children[current.value].pos == old(children[current.value].pos)
    {
      var c := children[current.value];
      var key := c.entries[c.pos].key;
      for i := 0 to |children|
        invariant WellFormed() && c.pos == old(c.pos)
        invariant forall j :: 0 <= j < i && j != current.value ==>
                    children[j].pos == LowerBound(children[j].entries, key)
      {
        if i != current.value {
          var child := children[i];
          child.Seek(key);
          if child.Valid() && child.entries[child.pos].key == key {
            // the source steps over an equal key here; distinct keys leave nothing to step over
            NotHere(i);
            assert false;
          }
        }
      }
      forall i | 0 <= i < |children|
        ensures Splits(children[i].entries, children[i].pos, merged, pos)
      {
        ChildFacts(i);
        if i == current.value {
          SplitsOver(c.entries, c.pos, merged, pos);
        } else {
          SeekSplits(children[i].entries, merged, key);
          LowerBoundOfMember(merged, pos);
        }
      }
    }

    /** Put every child but the current one before the current key. */
    method OthersBefore()
      requires Ok() && current.Some? && direction.Forward?
      modifies children
      ensures WellFormed() && AllBefore(pos + 1)
      ensures children[current.value].pos == old(children[current.value].pos)
    {
      hide Splits, DistinctKeys, IsMerge, Sorted;
      var c := children[current.value];
      var key := c.entries[c.pos].key;
      for i := 0 to |children|
        invariant WellFormed() && c.pos == old(c.pos)
        invariant forall j :: 0 <= j < i && j != current.value ==>
          After(children[j].entries, children[j].pos) == LowerBound(children[j].entries, key)
      {
        if i != current.value {
          var child := children[i];
          child.Seek(key);
          if child.Valid() {
            child.Prev();
          } else {
            child.SeekToLast();
          }
        }
      }
      forall i | 0 <= i < |children|
        ensures Splits(children[i].entries, After(children[i].entries, children[i].pos), merged, pos + 1)
      {
        ChildFacts(i);
        if i == current.value {
          SplitsOver(c.entries, c.pos, merged, pos);
        } else {
          SeekSplits(children[i].entries, merged, key);
          LowerBoundOfMember(merged, pos);
          NotHere(i);
          SplitsPast(children[i].entries, LowerBound(children[i].entries, key), merged, pos);
        }
      }
    }

    /** The current key occurs in no other child. */
    lemma NotHere(i: nat)
      requires WellFormed() && current.Some? && current.value < |children| && i < |children| && i != current.value
      requires pos < |merged| && merged[pos] in children[current.value].entries
      ensures forall e :: e in children[i].entries ==> e.key != merged[pos].key
    {
      assert Lists()[i] == children[i].entries && Lists()[current.value] == children[current.value].entries;
    }

    /** Stepping past the current entry leaves the other children where they are. */
    lemma OthersPast()
      requires WellFormed() && current.Some? && current.value < |children| && pos < |merged| && AllAt(pos)
      requires merged[pos] in children[current.value].entries
      ensures forall i :: 0 <= i < |children| && i != current.value ==>
        Splits(children[i].entries, children[i].pos, merged, pos + 1)
    {
      forall i | 0 <= i < |children| && i != current.value
        ensures Splits(children[i].entries, children[i].pos, merged, pos + 1)
      {
        ChildFacts(i);
        NotHere(i);
        SplitsPast(children[i].entries, children[i].pos, merged, pos);
      }
    }

    lemma OthersBack()
      requires WellFormed() && current.Some? && current.value < |children| && pos < |merged| && AllBefore(pos + 1)
      requires merged[pos] in children[current.value].entries
      ensures forall i :: 0 <= i < |children| && i != current.value ==>
        Splits(children[i].entries, After(children[i].entries, children[i].pos), merged, pos)
    {
      forall i | 0 <= i < |children| && i != current.value
        ensures Splits(children[i].entries, After(children[i].entries, children[i].pos), merged, pos)
      {
        ChildFacts(i);
        NotHere(i);
        SplitsPast(children[i].entries, After(children[i].entries, children[i].pos), merged, pos);
      }
    }

    method Next()
      requires Ok() && current.Some?
      modifies this, children
      ensures Ok() && pos == old(pos) + 1
    {
      hide Splits, DistinctKeys, IsMerge, Sorted;
      if direction.Reverse? {
        OthersAfter();
        direction := Forward;
      }
      OthersPast();
      var c := children[current.value];
      ChildFacts(current.value);
      SplitsOver(c.entries, c.pos, merged, pos);
      StepForward(c);
      FindSmallest(pos + 1);
    }

    method StepForward(c: Cursor)
      requires WellFormed() && current.Some? && current.value < |children| && c == children[current.value] && c.Valid()
      requires Splits(c.entries, c.pos + 1, merged, pos + 1)
      requires forall i :: 0 <= i < |children| && i != current.value ==>
        Splits(children[i].entries, children[i].pos, merged, pos + 1)
      modifies c
      ensures WellFormed() && AllAt(pos + 1)
    {
      c.Next();
    }

    method StepBackward(c: Cursor)
      requires WellFormed() && current.Some? && current.value < |children| && c == children[current.value] && c.Valid()
      requires Splits(c.entries, c.pos, merged, pos)
      requires forall i :: 0 <= i < |children| && i != current.value ==>
        Splits(children[i].entries, After(children[i].entries, children[i].pos), merged, pos)
      modifies c
      ensures WellFormed() && AllBefore(pos)
    {
      c.Prev();
    }

    method Prev()
      requires Ok() && current.Some?
      modifies this, children
      ensures Ok() && pos == if old(pos) == 0 then |merged| else old(pos) - 1
    {
      hide Splits, DistinctKeys, IsMerge, Sorted;
      if direction.Forward? {
        OthersBefore();
        direction := Reverse;
      }
      OthersBack();
      var c := children[current.value];
      ChildFacts(current.value);
      SplitsOver(c.entries, c.pos, merged, pos);
      StepBackward(c);
      FindLargest(pos);
    }
  }

  lemma StartSplits(es: seq<Entry>, merged: seq<Entry>)
    requires Sorted(es) && Sorted(merged) && forall e :: e in es ==> e in merged
    ensures Splits(es, 0, merged, 0)
  {
    forall j | 0 <= j < |es|
      ensures !Precedes(es[j], merged, 0)
    {
      assert es[j] in es;
      var i :| 0 <= i < |merged| && merged[i] == es[j];
      SortedAt(merged, i, 0);
    }
  }
}
