/**
 Reading a table (table/table.cc): the footer leads to the index, the index to the one block that can hold a key, and
 the filter may rule that block out.
 */
module Tables {
  import opened Keys
  import opened Coding
  import opened Comparators
  import opened Checksums
  import opened Blocks
  import opened BlockIterators
  import opened Bloom
  import opened FilterBlocks
  import opened TableFormat
  import opened TableBuilders

  // ---------- what a lookup looks for ----------

  /** A linear scan: how many entries are before `key`. */
  ghost function First(es: seq<Pair>, key: Bytes): (n: nat)
    ensures n <= |es|
  {
    if es == [] || !Before(InternalPlace(es[0].key), InternalPlace(key)) then 0 else 1 + First(es[1..], key)
  }

  lemma {:induction false} FirstIs(es: seq<Pair>, key: Bytes, n: nat)
    requires n <= |es| && AllBefore(es, n, InternalPlace, key)
    requires n < |es| ==> !Before(InternalPlace(es[n].key), InternalPlace(key))
    ensures First(es, key) == n
  {
    hide InternalPlace, Before;
    if n > 0 {
      assert Before(InternalPlace(es[0].key), InternalPlace(key));
      assert forall j :: 0 <= j < n - 1 ==> es[1..][j] == es[j + 1];
      FirstIs(es[1..], key, n - 1);
    }
  }

  predicate SameUser(a: Bytes, b: Bytes) {
    IsInternal(a) && IsInternal(b) && UserPart(a) == UserPart(b)
  }

  /**
   What a lookup of `key` among these entries may report: the first entry at or after it, and it must if that has the
   same user key.
   */
  ghost predicate Reports(es: seq<Pair>, key: Bytes, r: Option<Pair>) {
    var n := First(es, key);
    && (r.Some? ==> n < |es| && r.value == es[n])
    && (n < |es| && SameUser(es[n].key, key) ==> r.Some?)
  }

  // ---------- where the index leads ----------

  lemma {:induction false} EntriesPrefix(blocks: seq<Stored>, i: nat)
    requires i <= |blocks|
    ensures Entries(blocks[..i]) <= Entries(blocks)
    decreases |blocks|
  {
    if i < |blocks| {
      var front := blocks[..|blocks| - 1];
      EntriesPrefix(front, i);
      assert front[..i] == blocks[..i];
    } else {
      assert blocks[..i] == blocks;
    }
  }

  /** Block `i` among all entries. */
  lemma BlockSpan(blocks: seq<Stored>, i: nat)
    requires i < |blocks|
    ensures Entries(blocks[..i + 1]) == Entries(blocks[..i]) + blocks[i].layout.entries
    ensures Entries(blocks[..i]) <= Entries(blocks) && Entries(blocks[..i + 1]) <= Entries(blocks)
  {
    assert blocks[..i + 1][..i] == blocks[..i];
    EntriesPrefix(blocks, i);
    EntriesPrefix(blocks, i + 1);
  }

  /** What an index search for `key` that stops at `i` says about the index keys. */
  ghost predicate IndexSays(seps: seq<Bytes>, i: nat, key: Bytes) {
    && i <= |seps| && (forall j :: 0 <= j < i ==> Before(InternalPlace(seps[j]), InternalPlace(key)))
    && (i < |seps| ==> !Before(InternalPlace(seps[i]), InternalPlace(key)))
  }

  lemma PlacesChain(a: Bytes, b: Bytes, c: Bytes)
    requires !Before(InternalPlace(b), InternalPlace(a)) && Before(InternalPlace(b), InternalPlace(c))
    ensures Before(InternalPlace(a), InternalPlace(c))
  {
    hide InternalPlace;
  }

  /** The last key of a block is not after the block's index key. */
  lemma LastKeyBound(blocks: seq<Stored>, seps: seq<Bytes>, i: nat)
    requires Indexed(blocks, seps) && i < |blocks|
    ensures !Before(InternalPlace(seps[i]), InternalPlace(LastKey(blocks[i])))
  {
    hide InternalPlace, Entries, AllInternal;
    if i < |seps| - 1 {
      assert SeparatedAt(blocks, seps, [], i);
    }
    NotBeforeItself(LastKey(blocks[i]), seps[i]);
  }

  /** Blocks whose index key is before `key` hold only entries before it. */
  lemma BlocksBefore(blocks: seq<Stored>, seps: seq<Bytes>, i: nat, key: Bytes)
    requires Indexed(blocks, seps) && IndexSays(seps, i, key)
    ensures Entries(blocks[..i]) <= Entries(blocks)
            && AllBefore(Entries(blocks), |Entries(blocks[..i])|, InternalPlace, key)
  {
    hide InternalPlace, Before, Separates, AllInternal;
    EntriesPrefix(blocks, i);
    if i > 0 {
      BlockSpan(blocks, i - 1);
      LastKeyBound(blocks, seps, i - 1);
      PlacesChain(LastKey(blocks[i - 1]), seps[i - 1], key);
      var es, n := Entries(blocks), |Entries(blocks[..i])|;
      assert es[n - 1].key == LastKey(blocks[i - 1]);
      EarlierBefore(es, n - 1, InternalPlace, key);
      OneMoreBefore(es, n - 1, InternalPlace, key);
    }
  }

  /** An entry found in the block the index leads to is the first of all at or after `key`. */
  lemma FoundInBlock(blocks: seq<Stored>, seps: seq<Bytes>, i: nat, p: nat, key: Bytes)
    requires Indexed(blocks, seps) && IndexSays(seps, i, key) && i < |blocks| && p < |blocks[i].layout.entries|
    requires AllBefore(blocks[i].layout.entries, p, InternalPlace, key)
    requires !Before(InternalPlace(blocks[i].layout.entries[p].key), InternalPlace(key))
    ensures var n := First(Entries(blocks), key);
            n < |Entries(blocks)| && Entries(blocks)[n] == blocks[i].layout.entries[p]
  {
    hide InternalPlace, Before, Separates, AllInternal, Entries, Ascending;
    BlocksBefore(blocks, seps, i, key);
    BlockSpan(blocks, i);
    var es, base, bs := Entries(blocks), |Entries(blocks[..i])|, blocks[i].layout.entries;
    forall j | 0 <= j < base + p
      ensures Before(InternalPlace(es[j].key), InternalPlace(key))
    {
      if j >= base { assert es[j] == bs[j - base]; }
    }
    assert es[base + p] == bs[p];
    FirstIs(es, key, base + p);
  }

  /**
   If that block has no such entry, no entry has the user key: what follows lies past a separator of a smaller user
   key.
   */
  lemma NotInBlock(blocks: seq<Stored>, seps: seq<Bytes>, i: nat, key: Bytes)
    requires Indexed(blocks, seps) && IndexSays(seps, i, key) && i < |blocks| && IsInternal(key)
    requires AllBefore(blocks[i].layout.entries, |blocks[i].layout.entries|, InternalPlace, key)
    ensures Reports(Entries(blocks), key, None)
  {
    hide InternalPlace, Before, Separates, Entries, Ascending;
    BlocksBefore(blocks, seps, i, key);
    BlockSpan(blocks, i);
    var es, base, bs := Entries(blocks), |Entries(blocks[..i])|, blocks[i].layout.entries;
    var n := base + |bs|;
    forall j | 0 <= j < n
      ensures Before(InternalPlace(es[j].key), InternalPlace(key))
    {
      if j >= base { assert es[j] == bs[j - base]; }
    }
    if i + 1 < |blocks| {
      BlockSpan(blocks, i + 1);
      assert es[n].key == FirstKey(blocks[i + 1]);
      assert SeparatedAt(blocks, seps, [], i);
      assert AllBefore(bs, |bs|, InternalPlace, key);
      BetweenBlocks(seps[i], LastKey(blocks[i]), FirstKey(blocks[i + 1]), key);
    } else {
      assert blocks[..i + 1] == blocks;
    }
    FirstIs(es, key, n);
  }

  /** A key past the last of a block and not past its index key: what follows has another user key. */
  lemma BetweenBlocks(sep: Bytes, last: Bytes, next: Bytes, key: Bytes)
    requires Separates(sep, last, next) && IsInternal(key)
    requires Before(InternalPlace(last), InternalPlace(key)) && !Before(InternalPlace(sep), InternalPlace(key))
    ensures !Before(InternalPlace(next), InternalPlace(key)) && !SameUser(next, key)
  {
    hide Rank, Tag;
  }

  /** Past the last index key there is nothing. */
  lemma PastTheEnd(blocks: seq<Stored>, seps: seq<Bytes>, key: Bytes)
    requires Indexed(blocks, seps) && IndexSays(seps, |seps|, key)
    ensures Reports(Entries(blocks), key, None)
  {
    hide InternalPlace, Before, Separates, Entries, Ascending;
    BlocksBefore(blocks, seps, |seps|, key);
    assert blocks[..|seps|] == blocks;
    FirstIs(Entries(blocks), key, |Entries(blocks)|);
  }

  lemma {:induction false} FirstMeans(es: seq<Pair>, key: Bytes)
    ensures AllBefore(es, First(es, key), InternalPlace, key)
    ensures First(es, key) < |es| ==> !Before(InternalPlace(es[First(es, key)].key), InternalPlace(key))
  {
    hide InternalPlace, Before;
    if es != [] && Before(InternalPlace(es[0].key), InternalPlace(key)) {
      FirstMeans(es[1..], key);
      var n := First(es[1..], key);
      forall j | 0 <= j < n + 1
        ensures Before(InternalPlace(es[j].key), InternalPlace(key))
      {
        if j > 0 { assert es[1..][j - 1] == es[j]; }
      }
    }
  }

  /** When the filter for the block says no, no entry has the user key. */
  lemma RuledOut(blocks: seq<Stored>, seps: seq<Bytes>, i: nat, key: Bytes, groups: seq<seq<Bytes>>)
    requires Indexed(blocks, seps) && IndexSays(seps, i, key) && i < |blocks| && IsInternal(key)
             && BlocksFiled(groups, [], blocks)
    requires var g := blocks[i].handle.offset / FILTER_BASE; g < |groups| ==> forall k :: k in groups[g] ==>
               !SameUser(k, key)
    ensures Reports(Entries(blocks), key, None)
  {
    hide InternalPlace, Before, Indexed, Entries;
    var bs := blocks[i].layout.entries;
    var p := First(bs, key);
    FirstMeans(bs, key);
    if p < |bs| {
      FoundInBlock(blocks, seps, i, p, key);
      assert AllFiled(groups, [], blocks[i].handle.offset, bs);
      assert bs[p] in bs;
      assert Filed(groups, [], blocks[i].handle.offset, bs[p].key);
    } else {
      NotInBlock(blocks, seps, i, key);
    }
  }

  // ---------- the table ----------

  datatype OpenResult = TooShort | BadFooter | BadIndex | Opened(table: Table)

  class Table {
    const file: Bytes
    const crc: Crc
    const indexData: Bytes
    var filter: FilterBlockReader?
    ghost const builder: Option<NamedPolicy>
    ghost const t: TableContents

    ghost predicate Valid()
      reads this, filter
    {
      && IsTable(file, t, builder, crc) && IsBlock(indexData, t.index.layout)
      && (filter != null ==> filter.Valid() && t.filter.Some? && filter.groups == t.filter.value.groups)
    }

    constructor (file: Bytes, crc: Crc, indexData: Bytes, ghost builder: Option<NamedPolicy>, ghost t: TableContents)
      requires IsTable(file, t, builder, crc) && IsBlock(indexData, t.index.layout)
      ensures Valid() && filter == null && this.file == file && this.crc == crc && this.t == t
              && this.builder == builder
    {
      this.file, this.crc, this.indexData, this.builder, this.t := file, crc, indexData, builder, t;
      filter := null;
    }

    /** BlockReader: an iterator over the block an index entry leads to. */
    method BlockReader(verifyChecksums: bool, indexValue: Bytes, ghost i: nat) returns (it: Iter)
      requires Valid() && i < |t.blocks| && indexValue == EncodeHandle(t.blocks[i].handle)
      ensures fresh(it) && it.Setup() && it.Ok() && it.layout == t.blocks[i].layout && it.rank == InternalPlace
    {
      ghost var s := t.blocks[i];
      StoredBlock(file, s, crc);
      hide IsTable, EncodeHandle, DecodeHandle, InFile, IsBlock, StoredAt;
      HandleComesBack(s.handle);
      var decoded := DecodeHandle(indexValue);
      if decoded.None? {
        // an index entry of a table as built holds a handle
        assert false;
      }
      var handle := decoded.value.0;
      var contents := ReadBlock(file, verifyChecksums, handle, crc,
                                file[s.handle.offset..s.handle.offset + s.handle.size]);
      if !contents.Contents? {
        // and the block it leads to is whole
        assert false;
      }
      it := NewIterator(contents.data, InternalPlace, s.layout);
    }

    /**
     InternalGet: the entry handed to the caller, if any.  It is the first entry of the table at or after `k`, and it is
     handed over whenever that entry has the user key of `k`.
     */
    method InternalGet(verifyChecksums: bool, k: Bytes) returns (r: Option<Pair>)
      requires Valid() && IsInternal(k)
      ensures Reports(Entries(t.blocks), k, r)
      ensures var es, n := Entries(t.blocks), First(Entries(t.blocks), k);
              r.Some? && SameUser(r.value.key, k) <==> n < |es| && SameUser(es[n].key, k)
    {
      hide IsTable, IsBlock, InternalPlace, Before, Indexed, Ascending, Entries, EncodeHandle, Iter.Setup, Iter.Ok,
           Iter.Valid, FilterBlockReader.Valid, AllBefore, IsInternal;
      r := None;
      var valid, handleValue, i := SeekIndex(k);
      if valid {
        var ruledOut := false;
        if filter != null {
          ruledOut := FilterSaysNo(handleValue, k, i);
        }
        if ruledOut {
          // the filter rules the block out
        } else {
          var blockIter := BlockReader(verifyChecksums, handleValue, i);
          blockIter.Seek(k);
          blockIter.ValidIff();
          var found := blockIter.Valid();
          if found {
            FoundInBlock(t.blocks, t.seps, i, blockIter.pos, k);
            var foundKey := blockIter.Key();
            var foundValue := blockIter.Value();
            r := Some(Pair(foundKey, foundValue));
          } else {
            NotInBlock(t.blocks, t.seps, i, k);
          }
        }
      } else {
        PastTheEnd(t.blocks, t.seps, k);
      }
    }

    /** InternalGet's first step: the handle of the block that can hold `k`. */
    method SeekIndex(k: Bytes) returns (valid: bool, handleValue: Bytes, ghost i: nat)
      requires Valid()
      ensures Indexed(t.blocks, t.seps) && |t.seps| == |t.blocks| && IndexSays(t.seps, i, k)
              && valid == (i < |t.blocks|)
      ensures valid ==> handleValue == EncodeHandle(t.blocks[i].handle)
    {
      hide IsTable, IsBlock, InternalPlace, Before, Indexed, Ascending, EncodeHandle, Iter.Setup, Iter.Ok, Iter.Valid,
           FilterBlockReader.Valid, AllBefore;
      TableFacts(file, t, builder, crc);
      var iiter := NewIterator(indexData, InternalPlace, t.index.layout);
      iiter.Seek(k);
      iiter.ValidIff();
      i := iiter.pos;
      IndexStops(t, i, k);
      valid := iiter.Valid();
      handleValue := [];
      if valid { handleValue := iiter.Value(); }
    }

    /** The filter's part of InternalGet. */
    method FilterSaysNo(handleValue: Bytes, k: Bytes, ghost i: nat) returns (no: bool)
      requires Valid() && IsInternal(k) && filter != null && i < |t.blocks| && IndexSays(t.seps, i, k)
      requires handleValue == EncodeHandle(t.blocks[i].handle)
      ensures no ==> Reports(Entries(t.blocks), k, None)
    {
      hide IsTable, InternalPlace, Before, Indexed, Ascending, Entries, EncodeHandle, DecodeHandle, InFile, IsBlock,
           BlocksFiled;
      TableFacts(file, t, builder, crc);
      HandleComesBack(t.blocks[i].handle);
      var decoded := DecodeHandle(handleValue);
      if decoded.None? { return false; }
      var handle := decoded.value.0;
      var may := filter.KeyMayMatch(handle.offset, k);
      no := !may;
      if no {
        ghost var g := handle.offset / FILTER_BASE;
        NothingHidden(filter.policy, filter.filters, filter.offsets, filter.groups, g, k);
        RuledOut(t.blocks, t.seps, i, k, filter.groups);
      }
    }

    /** ReadMeta: the filter, if the table has one made under the name of this policy. */
    method ReadMeta(metaHandle: BlockHandle, paranoidChecks: bool, policy: Option<NamedPolicy>)
      requires Valid() && filter == null && metaHandle == t.meta.handle
      requires policy.Some? && builder.Some? && policy.value.name == builder.value.name ==> policy == builder
      requires policy.Some? ==> policy.value.Valid()
      modifies this`filter
      ensures Valid() && (filter != null ==> fresh(filter))
      ensures filter != null <==> policy.Some? && builder.Some? && policy.value.name == builder.value.name
    {
      hide IsTable, IsBlock, Ascending, EncodeHandle, DecodeHandle, InFile, StoredAt, IsFilterBlock, BlocksFiled,
           Iter.Setup, Iter.Ok, Iter.Valid;
      if policy.None? { return; }
      MetaFacts(file, t, builder, crc);
      StoredBlock(file, t.meta, crc);
      var contents := ReadBlock(file, paranoidChecks, metaHandle, crc,
                                file[metaHandle.offset..metaHandle.offset + metaHandle.size]);
      if !contents.Contents? {
        // errors are not passed on, since the filter is not needed; a table as built has none
        assert false;
      }
      var iter := NewIterator(contents.data, BytewisePlace, t.meta.layout);
      var key := policy.value.MetaKey();
      if builder.Some? { NamesDecide(policy.value, builder.value); }
      iter.Seek(key);
      iter.ValidIff();
      MetaSeek(t, builder, key, iter.pos);
      var valid := iter.Valid();
      if valid {
        var found := iter.Key();
        if found == key {
          assert policy == builder;
          var value := iter.Value();
          ReadFilter(value, paranoidChecks, policy.value.policy);
        }
      }
    }

    /** ReadFilter. */
    method ReadFilter(filterHandleValue: Bytes, paranoidChecks: bool, policy: Policy)
      requires Valid() && filter == null && builder.Some? && builder.value.policy == policy && policy.Valid()
      requires t.filter.Some? && filterHandleValue == EncodeHandle(t.filter.value.handle)
      modifies this`filter
      ensures Valid() && filter != null && fresh(filter)
    {
      hide IsTable, IsBlock, EncodeHandle, DecodeHandle, StoredAt, IsFilterBlock, BlocksFiled;
      MetaFacts(file, t, builder, crc);
      ghost var f := t.filter.value;
      HandleComesBack(f.handle);
      var decoded := DecodeHandle(filterHandleValue);
      if decoded.None? { assert false; }
      var filterHandle := decoded.value.0;
      var block := ReadBlock(file, paranoidChecks, filterHandle, crc,
                             file[f.handle.offset..f.handle.offset + f.handle.size]);
      if !block.Contents? { assert false; }
      filter := new FilterBlockReader(policy, block.data, f.groups, f.data, f.offsets);
    }
  }

  /** Table::Open: the footer leads to the index block and the metaindex block. */
  method Open(file: Bytes, paranoidChecks: bool, policy: Option<NamedPolicy>, crc: Crc,
              ghost builder: Option<NamedPolicy>, ghost t: TableContents)
      returns (r: OpenResult)
    requires |file| >= FOOTER_LENGTH && !DecodeFooter(file[|file| - FOOTER_LENGTH..]).BadMagic? ==>
               IsTable(file, t, builder, crc)
    requires policy.Some? && builder.Some? && policy.value.name == builder.value.name ==> policy == builder
    requires policy.Some? ==> policy.value.Valid()
    ensures r.TooShort? <==> |file| < FOOTER_LENGTH
    ensures r.BadFooter? <==> |file| >= FOOTER_LENGTH && DecodeFooter(file[|file| - FOOTER_LENGTH..]).BadMagic?
    ensures IsTable(file, t, builder, crc) ==> r.Opened? && r.table.Valid() && fresh(r.table) && r.table.t == t
    ensures r.Opened? ==> (r.table.filter != null <==>
                           policy.Some? && builder.Some? && policy.value.name == builder.value.name)
  {
    hide IsTable, IsBlock, StoredAt, DecodeFooter;
    FooterFacts(file, t, builder, crc);
    if |file| < FOOTER_LENGTH { return TooShort; }
    var footer := DecodeFooter(file[|file| - FOOTER_LENGTH..]);
    if !footer.Footer? {
      if footer.BadHandle? {
        // the handles of a table as built can be decoded
        assert false;
      }
      return BadFooter;
    }
    StoredBlock(file, t.index, crc);
    ghost var h := t.index.handle;
    var contents := ReadBlock(file, paranoidChecks, footer.index, crc, file[h.offset..h.offset + h.size]);
    if !contents.Contents? {
      assert false;
    }
    var table := new Table(file, crc, contents.data, builder, t);
    table.ReadMeta(footer.meta, paranoidChecks, policy);
    r := Opened(table);
  }

  /** The seek in the metaindex block stops at the filter made under this name, if there is one. */
  lemma MetaSeek(t: TableContents, builder: Option<NamedPolicy>, key: Bytes, pos: nat)
    requires builder.Some? ==> t.filter.Some?
    requires t.meta.layout.entries == (if builder.Some?
                                       then [Pair(builder.value.MetaKey(), EncodeHandle(t.filter.value.handle))]
                                         else [])
    requires pos <= |t.meta.layout.entries| && AllBefore(t.meta.layout.entries, pos, BytewisePlace, key)
    ensures builder.Some? && builder.value.MetaKey() == key ==> pos == 0
    ensures pos < |t.meta.layout.entries| ==> builder.Some? && t.meta.layout.entries[pos].key == builder.value.MetaKey()
  {
    hide Rank, EncodeHandle;
    if pos > 0 { assert Before(BytewisePlace(t.meta.layout.entries[0].key), BytewisePlace(key)); }
  }

  lemma NamesDecide(a: NamedPolicy, b: NamedPolicy)
    ensures a.MetaKey() == b.MetaKey() <==> a.name == b.name
  {
    assert a.MetaKey()[7..] == a.name && b.MetaKey()[7..] == b.name;
  }

  lemma FooterFacts(file: Bytes, t: TableContents, builder: Option<NamedPolicy>, crc: Crc)
    ensures IsTable(file, t, builder, crc) ==>
              |file| >= FOOTER_LENGTH && DecodeFooter(file[|file| - FOOTER_LENGTH..])
                == Footer(t.meta.handle, t.index.handle) && InFile(file, t.index, crc)
  {
    hide InternalPlace, Indexed, Ascending, InFile, Written, FilterIn, DecodeFooter;
  }

  lemma MetaFacts(file: Bytes, t: TableContents, builder: Option<NamedPolicy>, crc: Crc)
    requires IsTable(file, t, builder, crc)
    ensures InFile(file, t.meta, crc) && |t.meta.layout.entries| <= 1 && Ascending(t.meta.layout.entries, BytewisePlace)
    ensures builder.Some? <==> t.filter.Some?
    ensures builder.Some? ==>
              t.meta.layout.entries == [Pair(builder.value.MetaKey(), EncodeHandle(t.filter.value.handle))]
                && t.filter.value.handle.Fits() &&
              FilterStored(file, t.filter.value, builder.value.policy, crc, t.blocks)
    ensures builder.None? ==> t.meta.layout.entries == []
  {
    hide InternalPlace, Indexed, InFile, Written, FilterStored, DecodeFooter, EncodeHandle;
  }

  /** What a table's description gives a reader. */
  lemma TableFacts(file: Bytes, t: TableContents, builder: Option<NamedPolicy>, crc: Crc)
    requires IsTable(file, t, builder, crc)
    ensures Indexed(t.blocks, t.seps) && |t.seps| == |t.blocks| && Ascending(t.index.layout.entries, InternalPlace)
    ensures t.index.layout.entries == IndexEntries(t.blocks, t.seps)
    ensures t.filter.Some? ==> BlocksFiled(t.filter.value.groups, [], t.blocks)
    ensures forall i :: 0 <= i < |t.blocks| ==> t.blocks[i].handle.Fits()
  {
    hide InternalPlace, Ascending, InFile, Entries, AllInternal, SeparatedAt, IsFilterBlock, StoredAt, BlocksFiled,
         DecodeFooter;
    forall i | 0 <= i < |t.blocks|
      ensures t.blocks[i].handle.Fits()
    {
      InFileFits(file, t.blocks[i], crc);
    }
  }

  lemma StoredBlock(file: Bytes, s: Stored, crc: Crc)
    requires InFile(file, s, crc)
    ensures s.handle.offset + s.handle.size <= |file|
    ensures StoredAt(file, s.handle, file[s.handle.offset..s.handle.offset + s.handle.size], crc)
    ensures IsBlock(file[s.handle.offset..s.handle.offset + s.handle.size], s.layout)
  {
  }

  lemma HandleComesBack(h: BlockHandle)
    requires h.Fits()
    ensures DecodeHandle(EncodeHandle(h)) == Some((h, []))
  {
    HandleRoundTrip(h, []);
    assert EncodeHandle(h) + [] == EncodeHandle(h);
  }

  /** The index iterator's position, in terms of the index keys. */
  lemma IndexStops(t: TableContents, i: nat, key: Bytes)
    requires |t.seps| <= |t.blocks| && t.index.layout.entries == IndexEntries(t.blocks, t.seps)
             && i <= |t.index.layout.entries|
    requires AllBefore(t.index.layout.entries, i, InternalPlace, key)
    requires i < |t.index.layout.entries| ==> !Before(InternalPlace(t.index.layout.entries[i].key), InternalPlace(key))
    ensures IndexSays(t.seps, i, key)
  {
    hide InternalPlace, Before, EncodeHandle;
    forall j | 0 <= j < i
      ensures Before(InternalPlace(t.seps[j]), InternalPlace(key))
    {
      assert t.index.layout.entries[j].key == t.seps[j];
    }
  }

  lemma NothingHidden(policy: Policy, data: Bytes, offsets: seq<nat>, groups: seq<seq<Bytes>>, g: nat, key: Bytes)
    requires policy.Valid() && Filters(policy, data, offsets, groups) && IsInternal(key)
    requires g < |groups| ==> !(FilterAt(policy, data, offsets, groups[g], g)
                                && policy.Says(data[offsets[g]..End(offsets, |data|, g)], UserPart(key)))
    ensures g < |groups| ==> forall k :: k in groups[g] ==> !SameUser(k, key)
  {
    if g < |groups| {
      NeverHides(policy, data, offsets, groups, g, UserPart(key));
    }
  }
}
