/**
 Tables as sorted runs: what db/builder.cc writes for a run of entries, and what a point lookup through the table cache
 and SaveValue (db/version_set.cc:263-276) makes of it.
 */
module TableReads {
  import opened Keys
  import opened Coding
  import opened Comparators
  import opened Checksums
  import opened Blocks
  import opened FilterBlocks
  import opened TableFormat
  import opened TableBuilders
  import opened Tables
  import opened Lookup
  import TwoLevel

  /** A key and value as a table stores them, and the entry they stand for. */
  ghost predicate Encodes(p: Pair, e: Entry) {
    && IsInternal(p.key) && e.key.user == Rank(UserPart(p.key)) && Tag(p.key) == PackSequenceAndType(e.key)
    && p.value == e.value
  }

  ghost predicate EncodesAll(ps: seq<Pair>, es: seq<Entry>) {
    |ps| == |es| && forall i :: 0 <= i < |es| ==> Encodes(ps[i], es[i])
  }

  lemma OrderKept(p: Bytes, q: Bytes, a: InternalKey, b: InternalKey)
    requires IsInternal(p) && a.user == Rank(UserPart(p)) && Tag(p) == PackSequenceAndType(a)
    requires IsInternal(q) && b.user == Rank(UserPart(q)) && Tag(q) == PackSequenceAndType(b)
    ensures Comparators.Before(InternalPlace(p), InternalPlace(q)) <==> Less(a, b)
  {
    hide Rank, Tag;
    LessIsPackedOrder(a, b);
  }

  lemma SortedIsAscending(ps: seq<Pair>, es: seq<Entry>)
    requires EncodesAll(ps, es) && Sorted(es)
    ensures Ascending(ps, InternalPlace) && AllInternal(ps)
  {
    hide InternalPlace, Less;
    forall i, j | 0 <= i < j < |ps|
      ensures Comparators.Before(InternalPlace(ps[i].key), InternalPlace(ps[j].key))
    {
      assert Encodes(ps[i], es[i]) && Encodes(ps[j], es[j]);
      OrderKept(ps[i].key, ps[j].key, es[i].key, es[j].key);
    }
    forall e | e in ps
      ensures IsInternal(e.key)
    {
      var i :| 0 <= i < |ps| && ps[i] == e;
      assert Encodes(ps[i], es[i]);
    }
  }

  /** LookupKey: the internal key a lookup seeks. */
  function LookupKey(user: Bytes, s: SequenceNumber): (k: Bytes)
    ensures IsInternal(k) && UserPart(k) == user && Tag(k) == PackSequenceAndType(SeekKey(Rank(user), s))
  {
    JoinedParts(user, PackSequenceAndType(SeekKey(Rank(user), s)));
    user + EncodeFixed64(PackSequenceAndType(SeekKey(Rank(user), s)))
  }

  /** The first stored key at or after the lookup key is where the search among entries stops. */
  lemma FirstIsLowerBound(ps: seq<Pair>, es: seq<Entry>, user: Bytes, s: SequenceNumber)
    requires EncodesAll(ps, es)
    ensures First(ps, LookupKey(user, s)) == LowerBound(es, SeekKey(Rank(user), s))
  {
    hide InternalPlace, Less, LookupKey, PackSequenceAndType, Rank;
    var k, target := LookupKey(user, s), SeekKey(Rank(user), s);
    var n := LowerBound(es, target);
    forall j | 0 <= j < |ps|
      ensures Comparators.Before(InternalPlace(ps[j].key), InternalPlace(k)) <==> Less(es[j].key, target)
    {
      assert Encodes(ps[j], es[j]);
      OrderKept(ps[j].key, k, es[j].key, target);
    }
    hide LowerBound;
    FirstIs(ps, k, n);
  }

  // ---------- SaveValue ----------

  datatype Saver = NotFound | Found(value: Bytes) | Deleted | Corrupt

  datatype ParsedInternalKey = ParsedInternalKey(user: Bytes, sequence: nat, kind: ValueType)

  /** ParseInternalKey. */
  function ParseInternalKey(key: Bytes): Option<ParsedInternalKey> {
    if |key| < 8 then None
    else
      var num := Tag(key);
      if num % 256 > 1 then None
      else Some(ParsedInternalKey(UserPart(key), num / 256, if num % 256 == 1 then Value else Deletion))
  }

  lemma ParsedKey(p: Pair, e: Entry)
    requires Encodes(p, e)
    ensures ParseInternalKey(p.key) == Some(ParsedInternalKey(UserPart(p.key), e.key.sequence, e.key.kind))
  {
    hide Tag, Rank;
  }

  /** SaveValue: an entry of another user key is passed over. */
  function SaveValue(saver: Saver, user: Bytes, p: Pair): Saver {
    match ParseInternalKey(p.key)
    case None => Corrupt
    case Some(parsed) =>
      if parsed.user != user then saver else if parsed.kind.Value? then Found(p.value) else Deleted
  }

  /** What a lookup's state says of the entry a sorted run reports. */
  ghost predicate Tells(saver: Saver, e: Option<Entry>) {
    match e
    case None => saver == NotFound
    case Some(entry) => saver == if entry.key.kind.Value? then Found(entry.value) else Deleted
  }

  /**
   TableCache::Get with SaveValue: a lookup in a table file tells exactly what the sorted run of its entries reports.
   The whole way is over the bytes: index, filter, block and key comparison.
   */
  method TableGet(table: Table, verifyChecksums: bool, user: Bytes, s: SequenceNumber, ghost es: seq<Entry>)
    returns (saver: Saver)
    requires table.Valid() && EncodesAll(Entries(table.t.blocks), es)
    ensures Tells(saver, RunGet(es, Rank(user), s))
  {
    hide Table.Valid, InternalPlace, Tag, Rank, Entries, First, LowerBound, PackSequenceAndType, LookupKey;
    ghost var ps := Entries(table.t.blocks);
    FirstIsLowerBound(ps, es, user, s);
    saver := NotFound;
    var k := LookupKey(user, s);
    var r := table.InternalGet(verifyChecksums, k);
    ghost var n := First(ps, k);
    if n < |ps| {
      assert Encodes(ps[n], es[n]);
      ParsedKey(ps[n], es[n]);
      RankIsOrder(UserPart(ps[n].key), user);
    }
    if r.Some? {
      saver := SaveValue(saver, user, r.value);
    }
  }

  datatype BuildResult = NoTable | Built(file: Bytes, smallest: Bytes, largest: Bytes)

  /** BuildTable: the file for a run of entries, and the smallest and largest key it records; none for an empty run. */
  method BuildTable(run: seq<Pair>, blockSize: nat, restartInterval: nat, policy: Option<NamedPolicy>, crc: Crc,
                    ghost es: seq<Entry>)
      returns (r: BuildResult, ghost t: TableContents)
    requires restartInterval > 0 && (policy.Some? ==> policy.value.Valid())
    requires EncodesAll(run, es) && Sorted(es)
    requires forall p :: p in run ==> blockSize + 8 + |p.key| + |p.value| + ENTRY_OVERHEAD < TWO32
    ensures r.NoTable? <==> run == []
    ensures r.Built? ==> r.smallest == run[0].key && r.largest == run[|run| - 1].key
    ensures r.Built? && |r.file| < TWO64 - 1 && t.index.handle.size < TWO32
            && (t.filter.Some? ==> |t.filter.value.data| < TWO32) ==>
              IsTable(r.file, t, policy, crc) && Entries(t.blocks) == run
  {
    hide IsTable, InternalPlace, Entries, TableBuilder.Valid, EncodesAll, Sorted, Ascending;
    if run == [] {
      t := TableContents([], [], Stored(Layout([], []), BlockHandle(0, 0)), Stored(Layout([], []), BlockHandle(0, 0)),
                         None);
      return NoTable, t;
    }
    SortedIsAscending(run, es);
    var builder := new TableBuilder(blockSize, restartInterval, policy, crc);
    var smallest, largest := run[0].key, [];
    var i := 0;
    while i < |run|
      invariant i <= |run| && builder.Valid() && builder.Added() == run[..i] && (i > 0 ==> largest == run[i - 1].key)
      invariant builder.dataBlock.CurrentSizeEstimate() == 8 || builder.dataBlock.CurrentSizeEstimate() < blockSize
      invariant fresh(builder) && fresh(builder.dataBlock) && fresh(builder.indexBlock)
      invariant builder.filterBlock != null ==> fresh(builder.filterBlock)
      invariant builder.policy == policy && builder.crc == crc && builder.blockSize == blockSize
    {
      var p := run[i];
      NextAfter(run, i);
      largest := p.key;
      builder.Add(p.key, p.value);
      assert run[..i + 1] == run[..i] + [p];
      i := i + 1;
    }
    assert run[..i] == run;
    t := builder.Finish();
    r := Built(builder.file, smallest, largest);
  }

  lemma NextAfter(run: seq<Pair>, i: nat)
    requires Ascending(run, InternalPlace) && AllInternal(run) && i < |run|
    ensures After(run[..i], run[i].key) && IsInternal(run[i].key)
  {
    hide InternalPlace;
    assert run[i] in run;
  }

  // ---------- scans ----------

  /** The internal key that a stored key or an index key stands for. */
  function Parsed(key: Bytes): InternalKey {
    if IsInternal(key) && Tag(key) <= MAX_TAG then
      InternalKey(Rank(UserPart(key)), Tag(key) / 256, if Tag(key) % 256 == 1 then Value else Deletion)
    else
      InternalKey(0.0, 0, Deletion)
  }

  lemma ParsedIs(p: Pair, e: Entry)
    requires Encodes(p, e)
    ensures Tag(p.key) <= MAX_TAG && Parsed(p.key) == e.key
  {
    hide Tag, Rank;
  }

  /** A stored key, or an index key: one with the largest tag. */
  ghost predicate Proper(key: Bytes) {
    IsInternal(key) && Tag(key) <= MAX_TAG && Tag(key) == PackSequenceAndType(Parsed(key))
  }

  lemma ProperKey(p: Pair, e: Entry)
    requires Encodes(p, e)
    ensures Proper(p.key) && Parsed(p.key) == e.key
  {
    hide Tag, Rank;
  }

  lemma ProperSeparator(key: Bytes)
    requires IsInternal(key) && Tag(key) == MAX_TAG
    ensures Proper(key)
  {
    hide Tag, Rank;
  }

  lemma ProperOrder(p: Bytes, q: Bytes)
    requires Proper(p) && Proper(q)
    ensures Comparators.Before(InternalPlace(p), InternalPlace(q)) <==> Less(Parsed(p), Parsed(q))
  {
    hide Rank, Tag;
    OrderKept(p, q, Parsed(p), Parsed(q));
  }

  /** Where block `i` ends among all entries. */
  ghost function BlockEnd(blocks: seq<Stored>, i: nat): nat
    requires i <= |blocks|
  {
    |Entries(blocks[..i])|
  }

  /** A table and the entries it stands for. */
  ghost predicate StandsFor(t: TableContents, es: seq<Entry>) {
    Indexed(t.blocks, t.seps) && EncodesAll(Entries(t.blocks), es) && Sorted(es)
  }

  lemma BlockBounds(t: TableContents, es: seq<Entry>, i: nat)
    requires StandsFor(t, es) && i < |t.blocks|
    ensures |t.seps| == |t.blocks| && t.blocks[i].layout.entries != []
    ensures BlockEnd(t.blocks, i) < BlockEnd(t.blocks, i + 1) <= |es| == |Entries(t.blocks)|
    ensures Entries(t.blocks)[BlockEnd(t.blocks, i + 1) - 1].key == LastKey(t.blocks[i])
    ensures Entries(t.blocks)[BlockEnd(t.blocks, i)].key == FirstKey(t.blocks[i])
  {
    hide Entries, Ascending, AllInternal, SeparatedAt, InternalPlace, Encodes, Sorted;
    BlockSpan(t.blocks, i);
  }

  lemma EntryIsProper(t: TableContents, es: seq<Entry>, g: nat)
    requires StandsFor(t, es) && g < |es|
    ensures |es| == |Entries(t.blocks)| && Proper(Entries(t.blocks)[g].key)
            && Parsed(Entries(t.blocks)[g].key) == es[g].key
  {
    hide Entries, Indexed, Sorted, Parsed, Proper, Rank, Tag;
    assert Encodes(Entries(t.blocks)[g], es[g]);
    ProperKey(Entries(t.blocks)[g], es[g]);
  }

  lemma SepIsProper(t: TableContents, es: seq<Entry>, i: nat)
    requires StandsFor(t, es) && i < |t.blocks|
    ensures i < |t.seps| && Proper(t.seps[i])
  {
    hide InternalPlace, Entries, Ascending, AllInternal, EncodesAll, Sorted, Tag, Rank, Parsed, Proper;
    BlockBounds(t, es, i);
    EntryIsProper(t, es, BlockEnd(t.blocks, i + 1) - 1);
    if i < |t.seps| - 1 { assert SeparatedAt(t.blocks, t.seps, [], i); }
    if t.seps[i] != LastKey(t.blocks[i]) { ProperSeparator(t.seps[i]); }
  }

  /** Entries later in a run are not before earlier ones. */
  lemma LaterEntry(es: seq<Entry>, f: nat, g: nat, key: InternalKey)
    requires Sorted(es) && f <= g < |es|
    ensures Less(key, es[f].key) ==> Less(key, es[g].key)
    ensures !Less(key, es[g].key) ==> !Less(key, es[f].key)
  {
    if f < g { assert Less(es[f].key, es[g].key); }
  }

  /** An entry not past block `i` is not past its index key. */
  lemma NotPastSeparator(t: TableContents, es: seq<Entry>, i: nat, g: nat)
    requires StandsFor(t, es) && i < |t.blocks| && g < BlockEnd(t.blocks, i + 1)
    ensures g < |es| && i < |t.seps| && Proper(t.seps[i]) && !Less(Parsed(t.seps[i]), es[g].key)
  {
    hide InternalPlace, Entries, EncodesAll, Indexed, Sorted, Tag, Rank, Parsed, Proper, Less, Comparators.Before,
         BlockEnd;
    SepIsProper(t, es, i);
    BlockBounds(t, es, i);
    LastKeyBound(t.blocks, t.seps, i);
    var last := BlockEnd(t.blocks, i + 1) - 1;
    EntryIsProper(t, es, last);
    ProperOrder(t.seps[i], LastKey(t.blocks[i]));
    LaterEntry(es, g, last, Parsed(t.seps[i]));
  }

  /** An entry past block `i` is past its index key. */
  lemma PastSeparator(t: TableContents, es: seq<Entry>, i: nat, g: nat)
    requires StandsFor(t, es) && i < |t.blocks| && BlockEnd(t.blocks, i + 1) <= g < |es|
    ensures i + 1 < |t.blocks| && i < |t.seps| && Proper(t.seps[i]) && Less(Parsed(t.seps[i]), es[g].key)
  {
    hide InternalPlace, Entries, EncodesAll, Sorted, Tag, Rank, Parsed, Proper, Less, Comparators.Before, Ascending,
         AllInternal;
    SepIsProper(t, es, i);
    BlockBounds(t, es, i);
    assert t.blocks[..|t.blocks|] == t.blocks;
    BlockBounds(t, es, i + 1);
    var first := BlockEnd(t.blocks, i + 1);
    assert SeparatedAt(t.blocks, t.seps, [], i);
    EntryIsProper(t, es, first);
    ProperOrder(t.seps[i], FirstKey(t.blocks[i + 1]));
    LaterEntry(es, first, g, Parsed(t.seps[i]));
  }

  /** The index as the run of entries a two-level iterator walks. */
  ghost function IndexRun(t: TableContents, es: seq<Entry>): (r: seq<Entry>)
    requires StandsFor(t, es)
    ensures |r| == |t.blocks|
  {
    seq(|t.blocks|, i requires 0 <= i < |t.blocks| => SepIsProper(t, es, i); Entry(Parsed(t.seps[i]),
          EncodeHandle(t.blocks[i].handle)))
  }

  /** BlockReader, as a function from index values to entries. */
  ghost predicate ReadsBlocks(t: TableContents, es: seq<Entry>, block: TwoLevel.BlockFunction)
    requires StandsFor(t, es)
  {
    forall i :: 0 <= i < |t.blocks| ==> block(EncodeHandle(t.blocks[i].handle)) == BlockOf(t, es, i)
  }

  /** The entries of block `i`. */
  ghost function BlockOf(t: TableContents, es: seq<Entry>, i: nat): seq<Entry>
    requires StandsFor(t, es) && i < |t.blocks|
  {
    BlockBounds(t, es, i);
    es[BlockEnd(t.blocks, i)..BlockEnd(t.blocks, i + 1)]
  }

  /** Table::NewIterator: its index separates its blocks, and the blocks together are the entries. */
  lemma ScanIsTwoLevel(t: TableContents, es: seq<Entry>, block: TwoLevel.BlockFunction)
    requires StandsFor(t, es) && ReadsBlocks(t, es, block)
    ensures TwoLevel.Separated(IndexRun(t, es), block)
    ensures TwoLevel.Flat(IndexRun(t, es), block, |t.blocks|) == es
  {
    var index := IndexRun(t, es);
    forall i, j | 0 <= i < j < |index|
      ensures Less(index[i].key, index[j].key)
    {
      SeparatorsInOrder(t, es, i, j);
    }
    forall i | 0 <= i < |index|
      ensures TwoLevel.BlockFits(index, block, i)
    {
      BlockFitsIndex(t, es, block, i);
    }
    assert Sorted(index);
    FlatIs(t, es, block, |t.blocks|);
    assert t.blocks[..|t.blocks|] == t.blocks;
  }

  lemma LessChain(a: InternalKey, b: InternalKey, c: InternalKey)
    requires Less(a, b) && !Less(c, b)
    ensures Less(a, c)
  {
  }

  lemma SeparatorsInOrder(t: TableContents, es: seq<Entry>, i: nat, j: nat)
    requires StandsFor(t, es) && i < j < |t.blocks|
    ensures Less(IndexRun(t, es)[i].key, IndexRun(t, es)[j].key)
  {
    hide StandsFor, Parsed, Proper, EncodeHandle, Less, Entries, BlockEnd;
    BlockEndsGrow(t, es, i + 1, j);
    BlockBounds(t, es, j);
    var g := BlockEnd(t.blocks, j + 1) - 1;
    PastSeparator(t, es, i, g);
    NotPastSeparator(t, es, j, g);
    LessChain(Parsed(t.seps[i]), es[g].key, Parsed(t.seps[j]));
  }

  lemma {:induction false} BlockEndsGrow(t: TableContents, es: seq<Entry>, i: nat, j: nat)
    requires StandsFor(t, es) && i <= j <= |t.blocks|
    ensures BlockEnd(t.blocks, i) <= BlockEnd(t.blocks, j)
  {
    if i < j {
      BlockEndsGrow(t, es, i, j - 1);
      BlockBounds(t, es, j - 1);
    }
  }

  lemma BlockFitsIndex(t: TableContents, es: seq<Entry>, block: TwoLevel.BlockFunction, i: nat)
    requires StandsFor(t, es) && ReadsBlocks(t, es, block) && i < |t.blocks|
    ensures TwoLevel.BlockFits(IndexRun(t, es), block, i)
  {
    hide Parsed, Proper, EncodeHandle, Entries, Indexed, EncodesAll, BlockEnd;
    BlockBounds(t, es, i);
    var index, a, b := IndexRun(t, es), BlockEnd(t.blocks, i), BlockEnd(t.blocks, i + 1);
    var mine := block(index[i].value);
    assert mine == es[a..b];
    assert Sorted(mine);
    forall e | e in mine
      ensures !Less(index[i].key, e.key) && (i > 0 ==> Less(index[i - 1].key, e.key))
    {
      var k :| 0 <= k < |mine| && mine[k] == e;
      NotPastSeparator(t, es, i, a + k);
      if i > 0 { PastSeparator(t, es, i - 1, a + k); }
    }
  }

  lemma {:induction false} FlatIs(t: TableContents, es: seq<Entry>, block: TwoLevel.BlockFunction, n: nat)
    requires StandsFor(t, es) && ReadsBlocks(t, es, block) && n <= |t.blocks|
    ensures BlockEnd(t.blocks, n) <= |es| && TwoLevel.Flat(IndexRun(t, es), block, n) == es[..BlockEnd(t.blocks, n)]
  {
    hide Parsed, Proper, EncodeHandle, StandsFor;
    if n > 0 {
      hide Entries;
      FlatIs(t, es, block, n - 1);
      BlockBounds(t, es, n - 1);
      assert IndexRun(t, es)[n - 1].value == EncodeHandle(t.blocks[n - 1].handle);
      assert es[..BlockEnd(t.blocks, n)] == es[..BlockEnd(t.blocks, n - 1)]
             + es[BlockEnd(t.blocks, n - 1)..BlockEnd(t.blocks, n)];
    } else {
      assert t.blocks[..0] == [];
    }
  }
}
