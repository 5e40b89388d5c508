/**
 Building a table (table/table_builder.cc): data blocks as they fill up, an index with a short key between neighbouring
 blocks, filters, and the footer that leads to all of it.
 */
module TableBuilders {
  import opened Keys
  import opened Coding
  import opened Comparators
  import opened Checksums
  import opened Blocks
  import opened Bloom
  import opened FilterBlocks
  import opened TableFormat

  /** A block and where the file has it. */
  datatype Stored = Stored(layout: Layout, handle: BlockHandle)

  ghost predicate InFile(file: Bytes, s: Stored, crc: Crc) {
    && s.handle.offset + s.handle.size <= |file|
    && var contents := file[s.handle.offset..s.handle.offset + s.handle.size];
       IsBlock(contents, s.layout) && StoredAt(file, s.handle, contents, crc)
  }

  /** Every data block is in the file, and has entries in order. */
  ghost predicate Written(file: Bytes, blocks: seq<Stored>, crc: Crc) {
    forall i :: 0 <= i < |blocks| ==>
      blocks[i].layout.entries != [] && Ascending(blocks[i].layout.entries, InternalPlace)
        && InFile(file, blocks[i], crc)
  }

  /** The entries of the first blocks, in order. */
  ghost function Entries(blocks: seq<Stored>): (es: seq<Pair>)
    ensures blocks == [] ==> es == []
  {
    if blocks == [] then [] else Entries(blocks[..|blocks| - 1]) + blocks[|blocks| - 1].layout.entries
  }

  ghost function FirstKey(s: Stored): Bytes
    requires s.layout.entries != []
  {
    s.layout.entries[0].key
  }

  ghost function LastKey(s: Stored): Bytes
    requires s.layout.entries != []
  {
    s.layout.entries[|s.layout.entries| - 1].key
  }

  /** The first key after block `i`: in the next block, or in what is not yet a block. */
  ghost function NextKey(blocks: seq<Stored>, rest: seq<Pair>, i: nat): Bytes {
    if i + 1 < |blocks| && blocks[i + 1].layout.entries != [] then FirstKey(blocks[i + 1]) else if rest != []
      then rest[0].key else []
  }

  ghost predicate AllInternal(es: seq<Pair>) {
    forall e :: e in es ==> IsInternal(e.key)
  }

  /** Index key `i` separates block `i` from what follows it. */
  ghost predicate SeparatedAt(blocks: seq<Stored>, seps: seq<Bytes>, rest: seq<Pair>, i: nat)
    requires i < |seps| <= |blocks|
  {
    blocks[i].layout.entries != [] && Separates(seps[i], LastKey(blocks[i]), NextKey(blocks, rest, i))
  }

  ghost predicate Separated(blocks: seq<Stored>, seps: seq<Bytes>, rest: seq<Pair>) {
    |seps| <= |blocks| && forall i :: 0 <= i < |seps| ==> SeparatedAt(blocks, seps, rest, i)
  }

  /** Blocks written and entries collected since; the newest block has its index key once an entry follows it. */
  ghost predicate Sound(blocks: seq<Stored>, seps: seq<Bytes>, rest: seq<Pair>) {
    && (if |seps| < |blocks| then |seps| == |blocks| - 1 && rest == []
        else |seps| == |blocks| && (blocks != [] ==> rest != []))
    && Separated(blocks, seps, rest)
    && Ascending(Entries(blocks) + rest, InternalPlace) && AllInternal(Entries(blocks) + rest)
  }

  ghost function IndexEntries(blocks: seq<Stored>, seps: seq<Bytes>): (r: seq<Pair>)
    requires |seps| <= |blocks|
    ensures |r| == |seps|
  {
    seq(|seps|, i requires 0 <= i < |seps| => Pair(seps[i], EncodeHandle(blocks[i].handle)))
  }

  /** A key of a block at `offset` is among the keys of the filter for that offset. */
  ghost predicate Filed(groups: seq<seq<Bytes>>, pending: seq<Bytes>, offset: nat, key: Bytes) {
    var g := offset / FILTER_BASE;
    if g < |groups| then key in groups[g] else g == |groups| && key in pending
  }

  ghost predicate AllFiled(groups: seq<seq<Bytes>>, pending: seq<Bytes>, offset: nat, es: seq<Pair>) {
    forall e :: e in es ==> Filed(groups, pending, offset, e.key)
  }

  ghost predicate BlocksFiled(groups: seq<seq<Bytes>>, pending: seq<Bytes>, blocks: seq<Stored>) {
    forall i :: 0 <= i < |blocks| ==> AllFiled(groups, pending, blocks[i].handle.offset, blocks[i].layout.entries)
  }

  /** The same of every block, and of the entries collected for the next one; the filters before its range are done. */
  ghost predicate UpToDate(groups: seq<seq<Bytes>>, pending: seq<Bytes>, blocks: seq<Stored>, offset: nat,
                           rest: seq<Pair>) {
    |groups| == offset / FILTER_BASE && BlocksFiled(groups, pending, blocks) && AllFiled(groups, pending, offset, rest)
  }

  // ---------- what the steps of the builder do ----------

  lemma EntriesSnoc(blocks: seq<Stored>, s: Stored)
    ensures Entries(blocks + [s]) == Entries(blocks) + s.layout.entries
  {
    assert (blocks + [s])[..|blocks|] == blocks;
  }

  /** The last entry of the last block is the last of all. */
  lemma LastEntry(blocks: seq<Stored>)
    requires blocks != [] && blocks[|blocks| - 1].layout.entries != []
    ensures Entries(blocks) != [] && Entries(blocks)[|Entries(blocks)| - 1].key == LastKey(blocks[|blocks| - 1])
  {
  }

  /** With the first entry after a block comes the block's index key. */
  lemma SeparatorAdded(blocks: seq<Stored>, seps: seq<Bytes>, sep: Bytes, e: Pair)
    requires Sound(blocks, seps, []) && |seps| < |blocks| && blocks[|blocks| - 1].layout.entries != []
    requires Separates(sep, LastKey(blocks[|blocks| - 1]), e.key) && IsInternal(e.key)
    requires Before(InternalPlace(LastKey(blocks[|blocks| - 1])), InternalPlace(e.key))
    ensures Sound(blocks, seps + [sep], [e])
    ensures IndexEntries(blocks, seps + [sep]) == IndexEntries(blocks, seps)
            + [Pair(sep, EncodeHandle(blocks[|blocks| - 1].handle))]
  {
    hide InternalPlace, Separates, Before, IsInternal, EncodeHandle;
    LastEntry(blocks);
    assert Entries(blocks) + [] == Entries(blocks);
    AscendingSnoc(Entries(blocks), e, InternalPlace);
    forall i | 0 <= i < |seps|
      ensures SeparatedAt(blocks, seps + [sep], [e], i)
    {
      assert SeparatedAt(blocks, seps, [], i);
      if i + 1 < |seps| { assert SeparatedAt(blocks, seps, [], i + 1); }
    }
    assert SeparatedAt(blocks, seps + [sep], [e], |seps|);
  }

  /** A later entry of an ascending sequence is not before an earlier one. */
  lemma LaterIsNotBefore(es: seq<Pair>, i: nat, j: nat, key: Bytes)
    requires Ascending(es, InternalPlace) && i <= j < |es| && Before(InternalPlace(key), InternalPlace(es[i].key))
    ensures Before(InternalPlace(key), InternalPlace(es[j].key))
  {
    hide InternalPlace;
  }

  /** The new index key comes after those before it. */
  lemma SeparatorsAscend(blocks: seq<Stored>, seps: seq<Bytes>, sep: Bytes)
    requires Sound(blocks, seps, []) && |seps| < |blocks| && seps != [] && blocks[|blocks| - 1].layout.entries != []
    requires sep == LastKey(blocks[|blocks| - 1])
             || Before(InternalPlace(LastKey(blocks[|blocks| - 1])), InternalPlace(sep))
    ensures Before(InternalPlace(seps[|seps| - 1]), InternalPlace(sep))
  {
    hide InternalPlace, IsInternal;
    var n := |blocks| - 1;
    var es, before, prev := blocks[n].layout.entries, Entries(blocks[..n]), seps[|seps| - 1];
    assert SeparatedAt(blocks, seps, [], n - 1);
    assert Before(InternalPlace(prev), InternalPlace(es[0].key));
    assert Entries(blocks) + [] == before + es;
    hide Separates, Entries;
    assert (before + es)[|before|] == es[0] && (before + es)[|before| + |es| - 1] == es[|es| - 1];
    LaterIsNotBefore(before + es, |before|, |before| + |es| - 1, prev);
  }

  /** One more entry for the block being collected. */
  lemma EntryAdded(blocks: seq<Stored>, seps: seq<Bytes>, rest: seq<Pair>, e: Pair)
    requires Sound(blocks, seps, rest) && (rest == [] ==> blocks == []) && IsInternal(e.key)
    requires rest != [] ==> Before(InternalPlace(rest[|rest| - 1].key), InternalPlace(e.key))
    ensures Sound(blocks, seps, rest + [e])
  {
    hide InternalPlace, Separates, Before, IsInternal, Entries;
    var all: seq<Pair> := Entries(blocks) + rest;
    assert Entries(blocks) + (rest + [e]) == all + [e];
    if rest != [] { assert all[|all| - 1] == rest[|rest| - 1]; }
    AscendingSnoc(all, e, InternalPlace);
    forall i | 0 <= i < |seps|
      ensures SeparatedAt(blocks, seps, rest + [e], i)
    {
      assert SeparatedAt(blocks, seps, rest, i);
    }
  }

  /** What was collected becomes a block. */
  lemma BlockAdded(blocks: seq<Stored>, seps: seq<Bytes>, s: Stored)
    requires Sound(blocks, seps, s.layout.entries) && s.layout.entries != []
    ensures Sound(blocks + [s], seps, [])
  {
    hide InternalPlace, Separates, Before, IsInternal, EncodeHandle, Ascending, AllInternal, Entries;
    EntriesSnoc(blocks, s);
    assert Entries(blocks) + s.layout.entries + [] == Entries(blocks) + s.layout.entries;
    forall i | 0 <= i < |seps|
      ensures SeparatedAt(blocks + [s], seps, [], i)
    {
      assert SeparatedAt(blocks, seps, s.layout.entries, i);
      if i + 1 < |blocks| { assert SeparatedAt(blocks, seps, s.layout.entries, i + 1); }
    }
  }

  lemma StillWritten(file: Bytes, longer: Bytes, blocks: seq<Stored>, crc: Crc)
    requires Written(file, blocks, crc) && file <= longer
    ensures Written(longer, blocks, crc)
  {
    forall i | 0 <= i < |blocks|
      ensures InFile(longer, blocks[i], crc)
    {
      StillInFile(file, longer, blocks[i], crc);
    }
  }

  lemma StillInFile(file: Bytes, longer: Bytes, s: Stored, crc: Crc)
    requires InFile(file, s, crc) && file <= longer
    ensures InFile(longer, s, crc)
  {
    var a, b := s.handle.offset, s.handle.offset + s.handle.size;
    assert longer[..|file|] == file;
    assert longer[a..b] == file[a..b];
    StillStored(file, longer, s.handle, file[a..b], crc);
  }

  /** The keys of a new block are filed where they were while it was being collected. */
  lemma BlockFiled(groups: seq<seq<Bytes>>, pending: seq<Bytes>, blocks: seq<Stored>, s: Stored)
    requires UpToDate(groups, pending, blocks, s.handle.offset, s.layout.entries)
    ensures BlocksFiled(groups, pending, blocks + [s])
  {
    hide Filed;
  }

  /** StartBlock keeps every key filed. */
  lemma StillFiled(groups: seq<seq<Bytes>>, pending: seq<Bytes>, index: nat, blocks: seq<Stored>)
    requires BlocksFiled(groups, pending, blocks) && index > |groups|
    ensures BlocksFiled(Started(groups, pending, index), [], blocks)
  {
    forall i, e | 0 <= i < |blocks| && e in blocks[i].layout.entries
      ensures Filed(Started(groups, pending, index), [], blocks[i].handle.offset, e.key)
    {
      assert AllFiled(groups, pending, blocks[i].handle.offset, blocks[i].layout.entries);
      assert Filed(groups, pending, blocks[i].handle.offset, e.key);
    }
    forall i | 0 <= i < |blocks|
      ensures AllFiled(Started(groups, pending, index), [], blocks[i].handle.offset, blocks[i].layout.entries)
    {
    }
  }

  // ---------- a finished table ----------

  datatype Filter = Filter(handle: BlockHandle, groups: seq<seq<Bytes>>, data: Bytes, offsets: seq<nat>)

  datatype TableContents = TableContents(blocks: seq<Stored>, seps: seq<Bytes>, index: Stored, meta: Stored,
                                         filter: Option<Filter>)

  /** A filter policy and the name tables know it by. */
  datatype NamedPolicy = NamedPolicy(policy: Policy, name: Bytes) {
    ghost predicate Valid() {
      policy.Valid() && |name| < 0x1_0000
    }

    /** The key of the filter in the metaindex block: "filter." and the policy's name. */
    function MetaKey(): Bytes {
      [0x66, 0x69, 0x6c, 0x74, 0x65, 0x72, 0x2e] + name
    }
  }

  /** A key at or after `last`: the same, or a short one with the largest tag. */
  ghost predicate Succeeds(sep: Bytes, last: Bytes) {
    IsInternal(sep) && (sep == last || (Before(InternalPlace(last), InternalPlace(sep)) && Tag(sep) == MAX_TAG))
  }

  /** The index key of every block, and of the last one, which nothing follows. */
  ghost predicate Indexed(blocks: seq<Stored>, seps: seq<Bytes>) {
    && |seps| == |blocks| && (forall i :: 0 <= i < |blocks| ==> blocks[i].layout.entries != [])
    && Ascending(Entries(blocks), InternalPlace) && AllInternal(Entries(blocks))
    && (forall i :: 0 <= i < |seps| - 1 ==> SeparatedAt(blocks, seps, [], i))
    && (seps != [] ==> Succeeds(seps[|seps| - 1], LastKey(blocks[|blocks| - 1])))
  }

  /** The filter block is in the file, and files every key of the blocks. */
  ghost predicate FilterStored(file: Bytes, f: Filter, policy: Policy, crc: Crc, blocks: seq<Stored>) {
    && f.handle.offset + f.handle.size <= |file|
    && var block := file[f.handle.offset..f.handle.offset + f.handle.size];
       && StoredAt(file, f.handle, block, crc) && IsFilterBlock(policy, block, f.groups, f.data, f.offsets)
       && BlocksFiled(f.groups, [], blocks)
  }

  /** What the metaindex block lists: where the filter is, if there is one. */
  ghost function MetaEntries(policy: Option<NamedPolicy>, handle: BlockHandle): seq<Pair> {
    if policy.Some? then [Pair(policy.value.MetaKey(), EncodeHandle(handle))] else []
  }

  ghost predicate FilterIn(file: Bytes, t: TableContents, policy: Option<NamedPolicy>, crc: Crc) {
    match t.filter
    case None => policy.None? && t.meta.layout.entries == []
    case Some(f) =>
      && policy.Some? && f.handle.Fits() && t.meta.layout.entries == MetaEntries(policy, f.handle)
      && FilterStored(file, f, policy.value.policy, crc, t.blocks)
  }

  /** The file is a table with these contents. */
  ghost predicate IsTable(file: Bytes, t: TableContents, policy: Option<NamedPolicy>, crc: Crc) {
    && FOOTER_LENGTH <= |file| < TWO64 - 1
    && Written(file, t.blocks, crc) && Indexed(t.blocks, t.seps)
    && InFile(file, t.index, crc) && t.index.layout.entries == IndexEntries(t.blocks, t.seps)
    && Ascending(t.index.layout.entries, InternalPlace)
    && InFile(file, t.meta, crc) && FilterIn(file, t, policy, crc)
    && t.meta.handle.Fits() && t.index.handle.Fits()
    && DecodeFooter(file[|file| - FOOTER_LENGTH..]) == Footer(t.meta.handle, t.index.handle)
  }

  // ---------- the builder ----------

  /** How far a builder has come: the values of its fields, and the blocks and index keys they stand for. */
  datatype Progress = Progress(file: Bytes, blocks: seq<Stored>, seps: seq<Bytes>, rest: seq<Pair>, index: seq<Pair>,
                               pending: bool, handle: BlockHandle, count: nat, lastKey: Bytes) {
    ghost function Added(): seq<Pair> {
      Entries(blocks) + rest
    }

    /** What is in the file and in the index block is what has been added. */
    ghost predicate Ok(crc: Crc) {
      && Written(file, blocks, crc) && Sound(blocks, seps, rest) && index == IndexEntries(blocks, seps)
      && pending == (|seps| < |blocks|) && (pending ==> handle == blocks[|blocks| - 1].handle)
      && count == |Added()| && (Added() != [] ==> lastKey == Added()[|Added()| - 1].key)
    }

    /** After Flush. */
    ghost function Flushed(longer: Bytes, s: Stored): Progress {
      Progress(longer, blocks + [s], seps, [], index, true, s.handle, count, lastKey)
    }

    lemma FlushedIsOk(longer: Bytes, s: Stored, crc: Crc)
      requires Ok(crc) && s.layout.entries == rest != [] && file <= longer
      requires InFile(longer, s, crc) && Ascending(rest, InternalPlace)
      ensures Flushed(longer, s).Ok(crc) && Flushed(longer, s).Added() == Added()
    {
      hide InternalPlace, InFile, Ascending;
      BlockAdded(blocks, seps, s);
      EntriesSnoc(blocks, s);
      StillWritten(file, longer, blocks, crc);
      assert Entries(blocks + [s]) + [] == Entries(blocks) + s.layout.entries;
      assert IndexEntries(blocks + [s], seps) == IndexEntries(blocks, seps);
    }

    /** After Add has given the newest block its index key, if it was waiting for one, and collected `e`. */
    ghost function Grown(e: Pair, sep: Bytes): Progress {
      if pending then Progress(file, blocks, seps + [sep], [e], index + [Pair(sep, EncodeHandle(handle))], false,
                               handle, count + 1, e.key)
      else Progress(file, blocks, seps, rest + [e], index, false, handle, count + 1, e.key)
    }

    /** The key comes after what is collected, and the index key before it after the other index keys. */
    lemma KeysAscend(key: Bytes, crc: Crc)
      requires Ok(crc) && After(Added(), key)
      ensures (Added() != [] ==> Before(InternalPlace(lastKey), InternalPlace(key))) && After(rest, key)
      ensures pending ==> Added() != [] && rest == [] && IsInternal(lastKey)
    {
      hide InternalPlace, Before, IsInternal, Entries;
      if rest != [] { assert Added()[|Added()| - 1] == rest[|rest| - 1]; }
      if pending { LastEntry(blocks); }
      if Added() != [] { assert Added()[|Added()| - 1] in Added(); }
    }

    lemma PendingFacts(crc: Crc)
      requires Ok(crc) && pending
      ensures rest == [] && blocks != [] && blocks[|blocks| - 1].layout.entries != []
              && Added() == Entries(blocks) != []
      ensures lastKey == LastKey(blocks[|blocks| - 1]) && handle == blocks[|blocks| - 1].handle
              && |seps| == |blocks| - 1
    {
      hide InternalPlace, Before, IsInternal, Entries, EncodeHandle, Separated, InFile;
      LastEntry(blocks);
      assert Entries(blocks) + [] == Entries(blocks);
    }

    lemma LastIsInternal(crc: Crc)
      requires Ok(crc) && pending
      ensures IsInternal(lastKey)
    {
      hide InternalPlace, Before, IsInternal, Entries;
      PendingFacts(crc);
      assert Added()[|Added()| - 1] in Added();
    }

    lemma IndexAscends(sep: Bytes, crc: Crc)
      requires Ok(crc) && pending && (sep == lastKey || Before(InternalPlace(lastKey), InternalPlace(sep)))
      ensures After(index, sep)
    {
      hide InternalPlace, Before, IsInternal, Entries, EncodeHandle, Sound, Written;
      PendingFacts(crc);
      if seps != [] { SeparatorsAscend(blocks, seps, sep); }
    }

    lemma GrownIsOk(e: Pair, sep: Bytes, crc: Crc)
      requires Ok(crc) && IsInternal(e.key) && (Added() != [] ==> Before(InternalPlace(lastKey), InternalPlace(e.key)))
      requires pending ==> Separates(sep, lastKey, e.key)
      ensures Grown(e, sep).Ok(crc) && Grown(e, sep).Added() == Added() + [e]
    {
      hide InternalPlace, InFile, Ascending, Before, Separates, IsInternal, EncodeHandle, Entries;
      if pending {
        LastEntry(blocks);
        assert Entries(blocks) + [] == Entries(blocks);
        SeparatorAdded(blocks, seps, sep, e);
      } else {
        if rest != [] { assert Added()[|Added()| - 1] == rest[|rest| - 1]; }
        EntryAdded(blocks, seps, rest, e);
        assert Entries(blocks) + (rest + [e]) == Added() + [e];
      }
    }
  }

  /** The last entry: a new key must come after it. */
  ghost predicate After(es: seq<Pair>, key: Bytes) {
    es != [] ==> Before(InternalPlace(es[|es| - 1].key), InternalPlace(key))
  }

  lemma NothingYet(crc: Crc)
    ensures Progress([], [], [], [], [], false, BlockHandle(0, 0), 0, []).Ok(crc)
    ensures UpToDate([], [], [], 0, []) && Entries([]) + [] == []
  {
  }

  class TableBuilder {
    const blockSize: nat
    const restartInterval: nat
    const policy: Option<NamedPolicy>
    const crc: Crc
    /** The file so far. */
    var file: Bytes
    var offset: nat
    const dataBlock: BlockBuilder
    const indexBlock: BlockBuilder
    var lastKey: Bytes
    var numEntries: nat
    var closed: bool
    const filterBlock: FilterBlockBuilder?
    /** The index key of the newest block waits for the first key after it. */
    var pendingIndexEntry: bool
    var pendingHandle: BlockHandle
    ghost var blocks: seq<Stored>
    ghost var seps: seq<Bytes>

    /** The parts are in order, and the sizes fit. */
    ghost predicate Parts()
      reads this, dataBlock, indexBlock
    {
      && restartInterval > 0 && (policy.Some? ==> policy.value.Valid()) && !closed && dataBlock != indexBlock
      && dataBlock.Valid() && dataBlock.rank == InternalPlace && indexBlock.Valid() && indexBlock.rank == InternalPlace
      && dataBlock.CurrentSizeEstimate() < TWO32 && offset == |file|
    }

    ghost function State(): Progress
      reads this, dataBlock, indexBlock
    {
      Progress(file, blocks, seps, dataBlock.layout.entries, indexBlock.layout.entries, pendingIndexEntry,
               pendingHandle, numEntries, lastKey)
    }

    /** Every key added is among those of the filter for its block. */
    ghost predicate FilterUpToDate()
      reads this, dataBlock, filterBlock
    {
      && (filterBlock != null <==> policy.Some?)
      && (filterBlock != null ==>
            && filterBlock.policy == policy.value.policy && filterBlock.Valid()
            && UpToDate(filterBlock.groups, filterBlock.pending, blocks, offset, dataBlock.layout.entries))
    }

    ghost predicate Valid()
      reads this, dataBlock, indexBlock, filterBlock
    {
      Parts() && State().Ok(crc) && FilterUpToDate()
    }

    /** All entries so far. */
    ghost function Added(): seq<Pair>
      reads this, dataBlock, indexBlock
    {
      State().Added()
    }

    constructor (blockSize: nat, restartInterval: nat, policy: Option<NamedPolicy>, crc: Crc)
      requires restartInterval > 0 && (policy.Some? ==> policy.value.Valid())
      ensures Valid() && Added() == [] && this.policy == policy && this.crc == crc && this.blockSize == blockSize
      ensures dataBlock.CurrentSizeEstimate() == 8
      ensures fresh(dataBlock) && fresh(indexBlock) && (filterBlock != null ==> fresh(filterBlock))
    {
      hide Progress.Ok, Progress.Added, InternalPlace, BlockBuilder.Valid, FilterBlockBuilder.Valid, BlocksFiled,
           AllFiled;
      this.blockSize, this.restartInterval, this.policy, this.crc := blockSize, restartInterval, policy, crc;
      file, offset, lastKey, numEntries, closed := [], 0, [], 0, false;
      pendingIndexEntry, pendingHandle, blocks, seps := false, BlockHandle(0, 0), [], [];
      dataBlock := new BlockBuilder(restartInterval, InternalPlace);
      indexBlock := new BlockBuilder(1, InternalPlace);
      NothingYet(crc);
      if policy.Some? {
        var f := new FilterBlockBuilder(policy.value.policy);
        f.StartBlock(0);
        filterBlock := f;
      } else {
        filterBlock := null;
      }
    }

    /** WriteRawBlock: the contents, the type byte and the checksum. */
    method WriteRawBlock(contents: Bytes) returns (handle: BlockHandle)
      requires offset == |file|
      modifies this`file, this`offset
      ensures file == old(file) + contents + Trailer(crc, contents) && offset == |file|
      ensures handle == BlockHandle(|old(file)|, |contents|) && StoredAt(file, handle, contents, crc)
    {
      handle := BlockHandle(offset, |contents|);
      file := file + contents;
      var trailer := [0 as byte] + EncodeFixed32(Mask(crc(contents + [0])));
      file := file + trailer;
      offset := offset + |contents| + TRAILER;
      hide EncodeFixed32, Mask;
      assert file[handle.offset..handle.offset + handle.size + TRAILER] == contents + Trailer(crc, contents);
    }

    /** WriteBlock: finish a block, write it and start over. */
    method WriteBlock(block: BlockBuilder) returns (handle: BlockHandle)
      requires offset == |file| && block.Valid()
      modifies this`file, this`offset, block
      ensures block.Valid() && block.layout == Layout([], []) && block.CurrentSizeEstimate() == 8
      ensures offset == |file| && old(file) <= file && handle.offset == old(offset)
      ensures handle.size == old(block.CurrentSizeEstimate())
      ensures handle.size < TWO32 ==> InFile(file, Stored(old(block.layout), handle), crc)
    {
      var raw := block.Finish();
      handle := WriteRawBlock(raw);
      assert file[handle.offset..handle.offset + handle.size] == raw;
      block.Reset();
    }

    /** Flush: what has been collected becomes a block. */
    method Flush()
      requires Valid()
      modifies this, dataBlock, filterBlock
      ensures Valid() && Added() == old(Added()) && dataBlock.layout.entries == []
              && dataBlock.CurrentSizeEstimate() == 8
      ensures old(file) <= file
    {
      dataBlock.EmptyIff();
      if dataBlock.Empty() { return; }
      hide Progress.Ok, Progress.Added, BlockBuilder.Valid, FilterBlockBuilder.Valid, BlocksFiled, AllFiled;
      WriteData();
      if filterBlock != null {
        StartFilter();
      }
    }

    /** Flush's first half: the file, and the handle whose index key is pending. */
    method WriteData()
      requires Valid() && dataBlock.layout.entries != []
      modifies this`file, this`offset, this`pendingHandle, this`pendingIndexEntry, this`blocks, dataBlock
      ensures Parts() && State().Ok(crc) && Added() == old(Added()) && dataBlock.layout.entries == []
              && old(file) <= file
      ensures dataBlock.CurrentSizeEstimate() == 8
      ensures filterBlock != null ==> BlocksFiled(filterBlock.groups, filterBlock.pending, blocks)
    {
      hide Progress.Ok, Progress.Added, InternalPlace, InFile, BlockBuilder.Valid, FilterBlockBuilder.Valid, Ascending,
           BlocksFiled, AllFiled;
      ghost var layout, before := dataBlock.layout, State();
      BuildsAscending(dataBlock);
      pendingHandle := WriteBlock(dataBlock);
      ghost var s := Stored(layout, pendingHandle);
      pendingIndexEntry := true;
      before.FlushedIsOk(file, s, crc);
      if filterBlock != null { BlockFiled(filterBlock.groups, filterBlock.pending, blocks, s); }
      blocks := blocks + [s];
      assert State() == before.Flushed(file, s);
    }

    /** Its second half: later keys belong to the filter for the new offset. */
    method StartFilter()
      requires Parts() && State().Ok(crc) && dataBlock.layout.entries == [] && filterBlock != null && policy.Some?
      requires filterBlock.policy == policy.value.policy && filterBlock.Valid()
               && |filterBlock.groups| <= offset / FILTER_BASE
      requires BlocksFiled(filterBlock.groups, filterBlock.pending, blocks)
      modifies filterBlock
      ensures Valid() && State() == old(State())
    {
      hide Progress.Ok, InternalPlace, BlockBuilder.Valid, FilterBlockBuilder.Valid, BlocksFiled;
      ghost var groups, pending := filterBlock.groups, filterBlock.pending;
      filterBlock.StartBlock(offset);
      if |filterBlock.groups| > |groups| { StillFiled(groups, pending, |filterBlock.groups|, blocks); }
    }

    /** Add. */
    method Add(key: Bytes, value: Bytes)
      requires Valid() && IsInternal(key) && After(Added(), key)
      requires dataBlock.CurrentSizeEstimate() + |key| + |value| + ENTRY_OVERHEAD < TWO32
      modifies this, dataBlock, indexBlock, filterBlock
      ensures Valid() && Added() == old(Added()) + [Pair(key, value)]
      ensures dataBlock.CurrentSizeEstimate() == 8 || dataBlock.CurrentSizeEstimate() < blockSize
    {
      hide Progress.Ok, Progress.Added, InternalPlace, BlockBuilder.Valid, FilterBlockBuilder.Valid, BlocksFiled,
           AllFiled, After;
      ghost var before, sep := State(), [];
      before.KeysAscend(key, crc);
      if pendingIndexEntry {
        sep := AddIndexKey(key);
        seps := seps + [sep];
      }
      if filterBlock != null {
        AddFilterKey(key, value);
      }
      before.GrownIsOk(Pair(key, value), sep, crc);
      Collect(key, value);
      assert before.pending ==> before.rest + [Pair(key, value)] == [Pair(key, value)];
      assert State() == before.Grown(Pair(key, value), sep);
      if dataBlock.CurrentSizeEstimate() >= blockSize {
        Flush();
      }
    }

    /** The newest block gets its index key: a short one between its last key and `key`. */
    method AddIndexKey(key: Bytes) returns (ghost sep: Bytes)
      requires Parts() && State().Ok(crc) && pendingIndexEntry && IsInternal(key) && IsInternal(lastKey)
      requires Before(InternalPlace(lastKey), InternalPlace(key))
      modifies this`lastKey, this`pendingIndexEntry, indexBlock
      ensures Parts() && !pendingIndexEntry && Separates(sep, old(lastKey), key)
      ensures indexBlock.layout.entries == old(indexBlock.layout.entries) + [Pair(sep, EncodeHandle(pendingHandle))]
    {
      hide Progress.Ok, Progress.Added, InternalPlace, BlockBuilder.Valid, EncodeHandle;
      ghost var before := State();
      lastKey := InternalSeparator(lastKey, key);
      sep := lastKey;
      before.IndexAscends(sep, crc);
      var handleEncoding := EncodeHandle(pendingHandle);
      indexBlock.Add(lastKey, handleEncoding);
      pendingIndexEntry := false;
    }

    /** The key goes to the filter for the block being collected. */
    method AddFilterKey(key: Bytes, ghost value: Bytes)
      requires filterBlock != null && filterBlock.Valid() && IsInternal(key)
      requires UpToDate(filterBlock.groups, filterBlock.pending, blocks, offset, dataBlock.layout.entries)
      modifies filterBlock
      ensures filterBlock.Valid()
      ensures UpToDate(filterBlock.groups, filterBlock.pending, blocks, offset,
                       dataBlock.layout.entries + [Pair(key, value)])
    {
      ghost var groups, pending := filterBlock.groups, filterBlock.pending;
      KeyFiled(groups, pending, blocks, offset, dataBlock.layout.entries, key, value);
      hide UpToDate, FilterBlockBuilder.Valid;
      filterBlock.AddKey(key);
    }

    /** The entry goes to the block being collected. */
    method Collect(key: Bytes, value: Bytes)
      requires Parts() && After(dataBlock.layout.entries, key)
      requires dataBlock.CurrentSizeEstimate() + |key| + |value| + ENTRY_OVERHEAD < TWO32
      modifies this`lastKey, this`numEntries, dataBlock
      ensures Parts() && dataBlock.layout.entries == old(dataBlock.layout.entries) + [Pair(key, value)]
      ensures lastKey == key && numEntries == old(numEntries) + 1
    {
      hide BlockBuilder.Valid, InternalPlace, Before;
      lastKey := key;
      numEntries := numEntries + 1;
      dataBlock.Add(key, value);
    }

    /**
     Finish: the filter block, the metaindex block, the index block and the footer.  As long as the file, the filters
     and the index block keep to their sizes, the file is a table with the entries added.
     */
    method Finish() returns (ghost t: TableContents)
      requires Valid()
      modifies this, dataBlock, indexBlock, filterBlock
      ensures closed
      ensures |file| < TWO64 - 1 && t.index.handle.size < TWO32
              && (t.filter.Some? ==> |t.filter.value.data| < TWO32) ==>
                IsTable(file, t, policy, crc) && Entries(t.blocks) == old(Added())
    {
      hide Progress.Ok, Progress.Added, InternalPlace, BlockBuilder.Valid, FilterBlockBuilder.Valid, BlocksFiled,
           AllFiled, IsTable;
      hide FilterStored, InFile, Trailer, EncodeFooter, EncodeHandle, MetaEntries, Ascending, Before, Succeeds;
      Flush();
      ghost var p, last, filter := State(), [], None;
      closed := true;
      var filterHandle := BlockHandle(0, 0);
      // filters
      if filterBlock != null {
        ghost var f;
        filterHandle, f := WriteFilter();
        filter := Some(f);
      }
      // where the filters are
      ghost var file1 := file;
      var metaHandle, metaLayout := WriteMeta(filterHandle);
      // where the data blocks are
      ghost var file2 := file;
      if pendingIndexEntry {
        last := AddLastIndexKey(p);
      }
      BuildsAscending(indexBlock);
      ghost var indexLayout := indexBlock.layout;
      var indexHandle := WriteBlock(indexBlock);
      // where the last two are
      ghost var file3 := file;
      var footer := EncodeFooter(metaHandle, indexHandle);
      file := file + footer;
      offset := offset + |footer|;
      t := TableContents(p.blocks, if p.pending then p.seps + [last]
                         else p.seps, Stored(indexLayout, indexHandle), Stored(metaLayout, metaHandle), filter);
      if |file| < TWO64 - 1 && indexHandle.size < TWO32 && (filter.Some? ==> |filter.value.data| < TWO32) {
        Assembled(p, last, t, policy, crc, file1, file2, file3);
      }
    }

    /** Finish's first step. */
    method WriteFilter() returns (handle: BlockHandle, ghost f: Filter)
      requires filterBlock != null && policy.Some? && filterBlock.Valid() && filterBlock.policy == policy.value.policy
      requires BlocksFiled(filterBlock.groups, filterBlock.pending, blocks) && offset == |file|
      modifies this`file, this`offset, filterBlock
      ensures offset == |file| && old(file) <= file && f.handle == handle && handle.offset + handle.size < |file|
      ensures |f.data| < TWO32 ==> FilterStored(file, f, policy.value.policy, crc, blocks)
    {
      hide FilterBlockBuilder.Valid, IsFilterBlock;
      AllFiledAtEnd(filterBlock.groups, filterBlock.pending, blocks);
      hide BlocksFiled;
      var block, data := filterBlock.Finish();
      handle := WriteRawBlock(block);
      f := Filter(handle, filterBlock.groups, data, filterBlock.offsets);
      assert file[handle.offset..handle.offset + handle.size] == block;
    }

    /** Finish's second step: where the filter is, under the name of its policy. */
    method WriteMeta(filterHandle: BlockHandle) returns (handle: BlockHandle, ghost layout: Layout)
      requires restartInterval > 0 && (policy.Some? ==> policy.value.Valid()) && offset == |file|
      modifies this`file, this`offset
      ensures offset == |file| && old(file) <= file && layout.entries == MetaEntries(policy, filterHandle)
      ensures filterHandle.Fits() ==> InFile(file, Stored(layout, handle), crc)
    {
      hide BlockBuilder.Valid, EncodeHandle, InFile;
      var meta := new BlockBuilder(restartInterval, InternalPlace);
      if policy.Some? {
        var handleEncoding := EncodeHandle(filterHandle);
        if filterHandle.Fits() { HandleShort(filterHandle); }
        meta.Add(policy.value.MetaKey(), handleEncoding);
      }
      layout := meta.layout;
      handle := WriteBlock(meta);
    }

    /** Finish's third step: the last block's index key only has to come after the block. */
    method AddLastIndexKey(ghost p: Progress) returns (ghost sep: Bytes)
      requires p.Ok(crc) && p.pending && p.lastKey == lastKey && p.index == indexBlock.layout.entries
      requires indexBlock.Valid() && indexBlock.rank == InternalPlace
      modifies this`lastKey, this`pendingIndexEntry, indexBlock
      ensures indexBlock.Valid() && Succeeds(sep, old(lastKey))
      ensures indexBlock.layout.entries == old(indexBlock.layout.entries) + [Pair(sep, EncodeHandle(pendingHandle))]
    {
      hide Progress.Ok, Progress.Added, InternalPlace, BlockBuilder.Valid, EncodeHandle;
      p.LastIsInternal(crc);
      lastKey := InternalSuccessor(lastKey);
      sep := lastKey;
      p.IndexAscends(sep, crc);
      var handleEncoding := EncodeHandle(pendingHandle);
      indexBlock.Add(lastKey, handleEncoding);
      pendingIndexEntry := false;
    }
  }

  /** The filter block's last group takes the keys still pending. */
  lemma AllFiledAtEnd(groups: seq<seq<Bytes>>, pending: seq<Bytes>, blocks: seq<Stored>)
    requires BlocksFiled(groups, pending, blocks)
    ensures BlocksFiled(if pending == [] then groups else groups + [pending], [], blocks)
  {
    var all := if pending == [] then groups else groups + [pending];
    forall i, e | 0 <= i < |blocks| && e in blocks[i].layout.entries
      ensures Filed(all, [], blocks[i].handle.offset, e.key)
    {
      assert AllFiled(groups, pending, blocks[i].handle.offset, blocks[i].layout.entries);
      assert Filed(groups, pending, blocks[i].handle.offset, e.key);
    }
    forall i | 0 <= i < |blocks|
      ensures AllFiled(all, [], blocks[i].handle.offset, blocks[i].layout.entries)
    {
    }
  }

  /** The index once every block has its key. */
  lemma IndexComplete(p: Progress, last: Bytes, crc: Crc)
    requires p.Ok(crc) && p.rest == []
    requires p.pending ==> Succeeds(last, p.lastKey)
    ensures var seps := if p.pending then p.seps + [last] else p.seps;
            && Indexed(p.blocks, seps) && p.Added() == Entries(p.blocks)
            && (if p.pending then p.index + [Pair(last, EncodeHandle(p.handle))] else p.index)
               == IndexEntries(p.blocks, seps)
  {
    hide InternalPlace, IsInternal, Entries, EncodeHandle, Separates, InFile, Succeeds;
    assert Entries(p.blocks) + [] == Entries(p.blocks);
    if p.pending {
      p.PendingFacts(crc);
      var seps := p.seps + [last];
      forall i | 0 <= i < |seps| - 1
        ensures SeparatedAt(p.blocks, seps, [], i)
      {
        assert SeparatedAt(p.blocks, p.seps, [], i);
      }
    }
  }

  lemma NotBeforeItself(a: Bytes, b: Bytes)
    requires a == b || Before(InternalPlace(a), InternalPlace(b))
    ensures !Before(InternalPlace(b), InternalPlace(a))
  {
    hide InternalPlace;
  }

  /** All the pieces of the file make a table. */
  lemma Assembled(p: Progress, last: Bytes, t: TableContents, policy: Option<NamedPolicy>, crc: Crc, file1: Bytes,
                  file2: Bytes, file3: Bytes)
    requires p.Ok(crc) && p.rest == [] && p.file <= file1 <= file2 <= file3
    requires p.pending ==> Succeeds(last, p.lastKey)
    requires t.blocks == p.blocks && t.seps == if p.pending then p.seps + [last] else p.seps
    requires t.index.layout.entries == (if p.pending then p.index + [Pair(last, EncodeHandle(p.handle))] else p.index)
    requires Ascending(t.index.layout.entries, InternalPlace)
    requires match t.filter
             case None => policy.None?
             case Some(f) =>
               && policy.Some? && f.handle.offset + f.handle.size < |file1|
               && FilterStored(file1, f, policy.value.policy, crc, t.blocks)
    requires t.meta.layout.entries == MetaEntries(policy, if t.filter.Some? then t.filter.value.handle
                                                  else BlockHandle(0, 0))
    requires (t.filter.Some? ==> t.filter.value.handle.Fits()) ==> InFile(file2, t.meta, crc)
    requires InFile(file3, t.index, crc)
    requires |file3| + FOOTER_LENGTH < TWO64 - 1
    ensures IsTable(file3 + EncodeFooter(t.meta.handle, t.index.handle), t, policy, crc)
            && p.Added() == Entries(t.blocks)
  {
    var file := file3 + EncodeFooter(t.meta.handle, t.index.handle);
    IndexComplete(p, last, crc);
    StillWritten(p.file, file, p.blocks, crc);
    InFileFits(file2, t.meta, crc);
    InFileFits(file3, t.index, crc);
    StillInFile(file2, file, t.meta, crc);
    StillInFile(file3, file, t.index, crc);
    FooterRoundTrip(t.meta.handle, t.index.handle);
    assert file[|file| - FOOTER_LENGTH..] == EncodeFooter(t.meta.handle, t.index.handle);
    match t.filter
    case None =>
    case Some(f) => StillFilterStored(file1, file, f, policy.value.policy, crc, t.blocks);
  }

  lemma InFileFits(file: Bytes, s: Stored, crc: Crc)
    requires InFile(file, s, crc) && |file| < TWO64 - 1
    ensures s.handle.Fits()
  {
  }

  lemma StillFilterStored(file: Bytes, longer: Bytes, f: Filter, policy: Policy, crc: Crc, blocks: seq<Stored>)
    requires FilterStored(file, f, policy, crc, blocks) && file <= longer
    ensures FilterStored(longer, f, policy, crc, blocks)
  {
    hide IsFilterBlock, BlocksFiled, Trailer;
    var a, b := f.handle.offset, f.handle.offset + f.handle.size;
    assert longer[..|file|] == file;
    assert longer[a..b] == file[a..b];
    StillStored(file, longer, f.handle, file[a..b], crc);
  }

  lemma KeyFiled(groups: seq<seq<Bytes>>, pending: seq<Bytes>, blocks: seq<Stored>, offset: nat, rest: seq<Pair>,
                 key: Bytes, value: Bytes)
    requires UpToDate(groups, pending, blocks, offset, rest)
    ensures UpToDate(groups, pending + [key], blocks, offset, rest + [Pair(key, value)])
  {
    forall i, e | 0 <= i < |blocks| && e in blocks[i].layout.entries
      ensures Filed(groups, pending + [key], blocks[i].handle.offset, e.key)
    {
      assert AllFiled(groups, pending, blocks[i].handle.offset, blocks[i].layout.entries);
      assert Filed(groups, pending, blocks[i].handle.offset, e.key);
    }
    forall i | 0 <= i < |blocks|
      ensures AllFiled(groups, pending + [key], blocks[i].handle.offset, blocks[i].layout.entries)
    {
    }
    forall e | e in rest + [Pair(key, value)]
      ensures Filed(groups, pending + [key], offset, e.key)
    {
      assert e in rest ==> Filed(groups, pending, offset, e.key);
    }
  }

  lemma BuildsAscending(b: BlockBuilder)
    requires b.Valid()
    ensures Ascending(b.layout.entries, b.rank)
  {
  }
}
