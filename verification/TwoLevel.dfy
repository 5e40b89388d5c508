/**
 TwoLevelIterator (table/two_level_iterator.cc): a cursor over the concatenation of the blocks that an index lists,
 empty blocks included.  Tables use it over data blocks, and levels 1 and up over their files.
 */
module TwoLevel {
  import opened Keys
  import opened Cursors

  /** A block function: what a handle in the index reads as.  A block that cannot be read is an empty one. */
  type BlockFunction = Bytes -> seq<Entry>

  /** The entries of the first `n` blocks, in index order. */
  function Flat(index: seq<Entry>, block: BlockFunction, n: nat): seq<Entry>
    requires n <= |index|
  {
    if n == 0 then [] else Flat(index, block, n - 1) + block(index[n - 1].value)
  }

  /** The i-th block is sorted and its keys lie after the previous index key and at or before the i-th one. */
  ghost predicate BlockFits(index: seq<Entry>, block: BlockFunction, i: nat)
    requires i < |index|
  {
    && Sorted(block(index[i].value))
    && (forall e :: e in block(index[i].value) ==> !Less(index[i].key, e.key))
    && (i > 0 ==> forall e :: e in block(index[i].value) ==> Less(index[i - 1].key, e.key))
  }

  /** Index keys separate the blocks. */
  ghost predicate Separated(index: seq<Entry>, block: BlockFunction) {
    Sorted(index) && forall i :: 0 <= i < |index| ==> BlockFits(index, block, i)
  }

  lemma {:induction false} FlatGrows(index: seq<Entry>, block: BlockFunction, i: nat, n: nat)
    requires i <= n <= |index|
    ensures |Flat(index, block, i)| <= |Flat(index, block, n)|
    ensures Flat(index, block, i) == Flat(index, block, n)[..|Flat(index, block, i)|]
  {
    if i < n { FlatGrows(index, block, i, n - 1); }
  }

  /** Everything in the first n blocks lies at or before the n-th index key, and in ascending order. */
  lemma {:induction false} FlatSorted(index: seq<Entry>, block: BlockFunction, n: nat)
    requires Separated(index, block) && n <= |index|
    ensures Sorted(Flat(index, block, n))
    ensures n > 0 ==> forall e :: e in Flat(index, block, n) ==> !Less(index[n - 1].key, e.key)
  {
    if n > 0 {
      FlatSorted(index, block, n - 1);
      assert BlockFits(index, block, n - 1);
      if n > 1 { SortedAt(index, n - 2, n - 1); }
      var front, last := Flat(index, block, n - 1), block(index[n - 1].value);
      var all: seq<Entry> := front + last;
      forall i, j | 0 <= i < j < |all|
        ensures Less(all[i].key, all[j].key)
      {
        if i < |front| <= j {
          assert front[i] in front && last[j - |front|] in last;
        }
      }
    }
  }

  /** Seeking in the block where the index search for `target` lands seeks in the whole. */
  lemma SeekInBlock(index: seq<Entry>, block: BlockFunction, target: InternalKey)
    requires Separated(index, block)
    ensures var i := LowerBound(index, target);
            LowerBound(Flat(index, block, |index|), target)
            == |Flat(index, block, i)| + (if i < |index| then LowerBound(block(index[i].value), target) else 0)
  {
    hide Separated, Sorted, LowerBound, Less;
    var i, all := LowerBound(index, target), Flat(index, block, |index|);
    FlatSorted(index, block, |index|);
    FlatGrows(index, block, i, |index|);
    var base := |Flat(index, block, i)|;
    forall p | 0 <= p < base
      ensures Less(all[p].key, target)
    {
      BeforeBlock(index, block, target, p);
    }
    if i < |index| {
      FlatGrows(index, block, i + 1, |index|);
      var k := LowerBound(block(index[i].value), target);
      forall p | base <= p < base + k
        ensures Less(all[p].key, target)
      {
        InBlock(index, block, i, p);
      }
      if k < |block(index[i].value)| {
        InBlock(index, block, i, base + k);
      } else if base + k < |all| {
        AfterBlock(index, block, i, |index|, base + k);
        LessTransitive(index[i].key, all[base + k].key, target);
      }
      LowerBoundIs(all, target, base + k);
    } else {
      LowerBoundIs(all, target, base);
    }
  }

  /** What precedes the block where the index search for `target` lands lies before `target`. */
  lemma BeforeBlock(index: seq<Entry>, block: BlockFunction, target: InternalKey, p: nat)
    requires Separated(index, block) && p < |Flat(index, block, LowerBound(index, target))|
    ensures p < |Flat(index, block, |index|)| && Less(Flat(index, block, |index|)[p].key, target)
  {
    var i := LowerBound(index, target);
    FlatSorted(index, block, i);
    FlatGrows(index, block, i, |index|);
    assert Flat(index, block, i)[p] in Flat(index, block, i);
    assert Less(index[i - 1].key, target);
  }

  lemma InBlock(index: seq<Entry>, block: BlockFunction, i: nat, p: nat)
    requires i < |index| && |Flat(index, block, i)| <= p < |Flat(index, block, i + 1)|
    ensures p < |Flat(index, block, |index|)|
    ensures Flat(index, block, |index|)[p] == block(index[i].value)[p - |Flat(index, block, i)|]
  {
    FlatGrows(index, block, i + 1, |index|);
    assert Flat(index, block, i + 1)[p] == Flat(index, block, |index|)[p];
  }

  /** What follows the i-th block lies after its index key. */
  lemma {:induction false} AfterBlock(index: seq<Entry>, block: BlockFunction, i: nat, n: nat, p: nat)
    requires Separated(index, block) && i < n <= |index|
    requires |Flat(index, block, i + 1)| <= p < |Flat(index, block, n)|
    ensures Less(index[i].key, Flat(index, block, n)[p].key)
  {
    if p < |Flat(index, block, n - 1)| {
      AfterBlock(index, block, i, n - 1, p);
    } else {
      assert n > i + 1;
      assert BlockFits(index, block, n - 1);
      assert Flat(index, block, n)[p] in block(index[n - 1].value);
      if i < n - 2 { SortedAt(index, i, n - 2); }
    }
  }

  lemma LessTransitive(a: InternalKey, b: InternalKey, target: InternalKey)
    requires Less(a, b) && !Less(a, target)
    ensures !Less(b, target)
  {
  }

  lemma LowerBoundIs(es: seq<Entry>, target: InternalKey, p: nat)
    requires Sorted(es) && p <= |es|
    requires forall j :: 0 <= j < p ==> Less(es[j].key, target)
    requires p < |es| ==> !Less(es[p].key, target)
    ensures LowerBound(es, target) == p
  {
  }

  class TwoLevelIterator {
    const index: Cursor
    const block: BlockFunction
    var data: Cursor?
    var handle: Bytes

    /** The objects this iterator moves. */
    ghost function Footprint(): set<object>
      reads this
    {
      {this, index} + if data == null then {} else {data}
    }

    /** The index separates the blocks, and the data iterator reads the block its handle names. */
    ghost predicate WellFormed()
      reads this, Footprint()
    {
      && index.Ok() && Separated(index.entries, block)
      && (data != null ==> data != index && data.Ok() && data.entries == block(handle))
    }

    /** The data iterator is in the block the index stands on; there is none past the index's end. */
    ghost predicate InStep()
      reads this, Footprint()
    {
      if data == null then !index.Valid() else index.Valid() && handle == index.entries[index.pos].value
    }

    ghost predicate Ok()
      reads this, Footprint()
    {
      WellFormed() && InStep() && (data == null || data.Valid())
    }

    ghost function List(): seq<Entry>
    {
      Flat(index.entries, block, |index.entries|)
    }

    /** Entries in the blocks before the one the index stands on. */
    ghost function Base(): nat
      requires index.Ok()
      reads this, index
    {
      |Flat(index.entries, block, index.pos)|
    }

    /** Position in the list; its length when not valid. */
    ghost function Position(): nat
      requires Ok()
      reads this, Footprint()
    {
      Base() + if data == null then 0 else data.pos
    }

    constructor (index: Cursor, block: BlockFunction)
      requires index.Ok() && !index.Valid() && Separated(index.entries, block)
      ensures Ok() && data == null && Position() == |List()|
      ensures this.index == index && this.block == block
    {
      this.index, this.block, data, handle := index, block, null, [];
    }

    predicate Valid()
      reads this, Footprint()
    {
      data != null && data.Valid()
    }

    /** Valid exactly inside the list, where it stands on the entry at its position. */
    lemma AtPosition()
      requires Ok()
      ensures Valid() <==> Position() < |List()|
      ensures Valid() ==> data.entries[data.pos] == List()[Position()]
    {
      if Valid() {
        FlatGrows(index.entries, block, index.pos + 1, |index.entries|);
      }
    }

    /** InitDataBlock: read the block the index stands on, unless it is the one already open. */
    method InitDataBlock()
      requires WellFormed()
      modifies this`data, this`handle
      ensures WellFormed() && InStep()
      ensures data == old(data) || data == null || fresh(data)
    {
      if !index.Valid() {
        data := null;
      } else {
        var h := index.entries[index.pos].value;
        if data != null && h == handle {
          // the open iterator already reads this block
        } else {
          assert BlockFits(index.entries, block, index.pos);
          data := new Cursor(block(h));
          handle := h;
        }
      }
    }

    /** SkipEmptyDataBlocksForward: move to the next entry at or after the current gap. */
    method SkipEmptyDataBlocksForward()
      requires WellFormed() && InStep()
      modifies Footprint()
      ensures Ok() && fresh(Footprint() - old(Footprint()))
      ensures Position() == old(Base() + if data == null then 0 else data.pos)
    {
      while data == null || !data.Valid()
        invariant WellFormed() && InStep() && fresh(Footprint() - old(Footprint()))
        invariant Base() + (if data == null then 0 else data.pos) == old(Base() + if data == null then 0 else data.pos)
        decreases |index.entries| - index.pos
      {
        if !index.Valid() {
          data := null;
          return;
        }
        index.Next();
        InitDataBlock();
        if data != null {
          data.SeekToFirst();
        }
      }
    }

    /** SkipEmptyDataBlocksBackward: move to the last entry before the current block, if not on one already. */
    method SkipEmptyDataBlocksBackward()
      requires WellFormed() && InStep()
      modifies Footprint()
      ensures Ok() && fresh(Footprint() - old(Footprint()))
      ensures old(Valid()) ==> Position() == old(Base() + data.pos)
      ensures !old(Valid()) && old(index.Valid()) ==>
        Position() == if old(Base()) == 0 then |List()| else old(Base()) - 1
      ensures !old(Valid()) && !old(index.Valid()) ==> Position() == |List()|
    {
      while data == null || !data.Valid()
        invariant WellFormed() && InStep() && fresh(Footprint() - old(Footprint()))
        invariant old(Valid()) ==> Valid() && Base() + data.pos == old(Base() + data.pos)
        invariant !old(Valid()) && !old(index.Valid()) ==> data == null
        invariant !old(Valid()) && old(index.Valid()) ==>
          if data == null then old(Base()) == 0
          else if data.Valid() then Base() + data.pos + 1 == old(Base())
          else Base() == old(Base())
        decreases data != null, index.pos
      {
        if !index.Valid() {
          data := null;
          return;
        }
        index.Prev();
        InitDataBlock();
        if data != null {
          data.SeekToLast();
        }
      }
    }

    method Seek(target: InternalKey)
      requires Ok()
      modifies Footprint()
      ensures Ok() && fresh(Footprint() - old(Footprint()))
      ensures Position() == LowerBound(List(), target)
    {
      SeekInBlock(index.entries, block, target);
      index.Seek(target);
      InitDataBlock();
      if data != null {
        data.Seek(target);
      }
      SkipEmptyDataBlocksForward();
    }

    method SeekToFirst()
      requires Ok()
      modifies Footprint()
      ensures Ok() && fresh(Footprint() - old(Footprint()))
      ensures Position() == 0
    {
      index.SeekToFirst();
      InitDataBlock();
      if data != null {
        data.SeekToFirst();
      }
      SkipEmptyDataBlocksForward();
    }

    method SeekToLast()
      requires Ok()
      modifies Footprint()
      ensures Ok() && fresh(Footprint() - old(Footprint()))
      ensures Position() == if List() == [] then 0 else |List()| - 1
    {
      index.SeekToLast();
      InitDataBlock();
      if data != null {
        data.SeekToLast();
      }
      SkipEmptyDataBlocksBackward();
    }

    method Next()
      requires Ok() && Valid()
      modifies Footprint()
      ensures Ok() && fresh(Footprint() - old(Footprint()))
      ensures Position() == old(Position()) + 1
    {
      data.Next();
      SkipEmptyDataBlocksForward();
    }

    method Prev()
      requires Ok() && Valid()
      modifies Footprint()
      ensures Ok() && fresh(Footprint() - old(Footprint()))
      ensures Position() == if old(Position()) == 0 then |List()| else old(Position()) - 1
    {
      data.Prev();
      SkipEmptyDataBlocksBackward();
    }
  }
}
