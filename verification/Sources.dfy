/**
 What a scan of the whole database runs over (db/db_impl.cc:1060-1091, db/version_set.cc:165-248): the memtables, the
 level-0 tables one by one, and every lower level as one concatenation.
 */
module Sources {
  import opened Keys
  import opened Coding
  import opened Lookup
  import opened Runs
  import opened Cursors
  import opened Versions
  import opened CompactionOrder
  import opened Edits
  import opened DatabaseState
  import opened Merger
  import opened TwoLevel
  import opened UserIterator

  /** LevelFileNumIterator's value for a file. */
  function FileHandle(f: FileMeta): Bytes
    requires f.number < TWO64 && f.size < TWO64
  {
    EncodeFixed64(f.number) + EncodeFixed64(f.size)
  }

  ghost predicate FitsHandles(files: seq<FileMeta>) {
    forall f :: f in files ==> f.number < TWO64 && f.size < TWO64
  }

  /** LevelFileNumIterator: one entry a file, under its largest key. */
  function LevelIndex(files: seq<FileMeta>): seq<Entry>
    requires FitsHandles(files)
  {
    seq(|files|, i requires 0 <= i < |files| => Entry(files[i].largest, FileHandle(files[i])))
  }

  /** The table cache: the table with a given number, among the live files. */
  function TableEntries(files: seq<FileMeta>, number: nat): seq<Entry> {
    if files == [] then []
    else if files[0].number == number then files[0].entries
    else TableEntries(files[1..], number)
  }

  /** GetFileIterator: a handle of the wrong size reads as an error, which shows no entries. */
  function GetFileIterator(files: seq<FileMeta>, handle: Bytes): seq<Entry> {
    if |handle| != 16 then [] else TableEntries(files, DecodeFixed64(handle[..8]))
  }

  function Opener(files: seq<FileMeta>): BlockFunction {
    handle => GetFileIterator(files, handle)
  }

  ghost predicate DistinctNumbers(files: seq<FileMeta>) {
    forall i, j :: 0 <= i < j < |files| ==> files[i].number != files[j].number
  }

  lemma {:induction false} TableFound(files: seq<FileMeta>, i: nat)
    requires DistinctNumbers(files) && i < |files|
    ensures TableEntries(files, files[i].number) == files[i].entries
  {
    if i > 0 { TableFound(files[1..], i - 1); }
  }

  /** A handle opens the file it was made for. */
  lemma HandleOpens(files: seq<FileMeta>, i: nat)
    requires DistinctNumbers(files) && FitsHandles(files) && i < |files|
    ensures files[i] in files && GetFileIterator(files, FileHandle(files[i])) == files[i].entries
  {
    assert files[i] in files;
    var h := FileHandle(files[i]);
    assert h[..8] == EncodeFixed64(files[i].number);
    Fixed64RoundTrip(files[i].number);
    TableFound(files, i);
  }

  /** A sorted, disjoint level is separated by its index. */
  lemma LevelIsSeparated(files: seq<FileMeta>)
    requires DisjointSorted(files) && ValidFiles(FileSet(files)) && DistinctNumbers(files) && FitsHandles(files)
    ensures Separated(LevelIndex(files), Opener(files))
  {
    var index, block := LevelIndex(files), Opener(files);
    forall i, j | 0 <= i < j < |index|
      ensures Less(index[i].key, index[j].key)
    {
      assert Before(files[i], files[j]);
    }
    forall i | 0 <= i < |index|
      ensures BlockFits(index, block, i)
    {
      HandleOpens(files, i);
      assert files[i] in FileSet(files);
      forall e | e in files[i].entries
        ensures !Less(files[i].largest, e.key) && !Less(e.key, files[i].smallest)
      {
        EntryInRange(files[i], e);
      }
      if i > 0 { assert Before(files[i - 1], files[i]); }
    }
  }

  /** The concatenation of a level holds exactly the level's entries. */
  lemma {:induction false} FlatIsContents(files: seq<FileMeta>, n: nat)
    requires DistinctNumbers(files) && FitsHandles(files) && n <= |files|
    ensures EntrySet(Flat(LevelIndex(files), Opener(files), n)) == Contents(FileSet(files[..n]))
  {
    hide DistinctNumbers, FitsHandles, GetFileIterator, FileHandle;
    if n > 0 {
      FlatIsContents(files, n - 1);
      HandleOpens(files, n - 1);
      assert files[..n] == files[..n - 1] + [files[n - 1]];
      var front, last := Flat(LevelIndex(files), Opener(files), n - 1), files[n - 1].entries;
      assert Flat(LevelIndex(files), Opener(files), n) == front + last;
      assert EntrySet(front + last) == EntrySet(front) + EntrySet(last);
      assert FileSet(files[..n]) == FileSet(files[..n - 1]) + {files[n - 1]};
    } else {
      assert FileSet(files[..0]) == {};
    }
  }

  // ---------- the runs of a state ----------

  ghost predicate FitsState(s: State) {
    forall i :: 0 <= i < |s.version.files| ==> FitsHandles(s.version.files[i])
  }

  function TableRuns(files: seq<FileMeta>): seq<seq<Entry>> {
    seq(|files|, i requires 0 <= i < |files| => files[i].entries)
  }

  function LevelRun(v: Version, level: nat): seq<Entry>
    requires level < |v.files| && FitsHandles(v.files[level])
  {
    var files := v.files[level];
    Flat(LevelIndex(files), Opener(files), |files|)
  }

  /** AddIterators for levels 1 to `n` - 1: one run for each level that holds files. */
  function LowerRuns(v: Version, n: nat): seq<seq<Entry>>
    requires n <= |v.files| && forall i :: 0 <= i < |v.files| ==> FitsHandles(v.files[i])
  {
    if n <= 1 then []
    else LowerRuns(v, n - 1) + if v.files[n - 1] == [] then [] else [LevelRun(v, n - 1)]
  }

  /** The children of NewInternalIterator's merging iterator. */
  function RunsOf(s: State): seq<seq<Entry>>
    requires |s.version.files| == NUM_LEVELS && FitsState(s)
  {
    [s.mem] + (if s.imm.Some? then [s.imm.value] else []) + TableRuns(s.version.files[0])
      + LowerRuns(s.version, NUM_LEVELS)
  }

  lemma TableRunsAged(v: Version)
    requires ValidVersion(v) && Listed(v)
    ensures AgedRuns(TableRuns(v.files[0]), LevelEntries(v, 0))
  {
    hide LevelOrder, UniqueStamps;
    var files := v.files[0];
    var runs := TableRuns(files);
    forall i | 0 <= i < |files|
      ensures files[i] in FileSet(files) && ValidFile(files[i])
    {
    }
    forall i, j | 0 <= i < j < |runs|
      ensures NewerThan(EntrySet(runs[i]), EntrySet(runs[j])) || NewerThan(EntrySet(runs[j]), EntrySet(runs[i]))
    {
      ListedDistinct(v, 0, i, j);
    }
    forall e | e in LevelEntries(v, 0)
      ensures exists i :: 0 <= i < |runs| && e in runs[i]
    {
      var f :| f in FileSet(files) && e in f.entries;
      var i :| 0 <= i < |files| && files[i] == f;
      assert e in runs[i];
    }
  }

  lemma ListedDistinct(v: Version, level: nat, i: nat, j: nat)
    requires ValidVersion(v) && Listed(v) && level < NUM_LEVELS && i < j < |v.files[level]|
    ensures v.files[level][i].number != v.files[level][j].number
  {
    var f, g := v.files[level][i], v.files[level][j];
    assert BySmallestKey(f, g);
    assert FileAt(v, level, f) && FileAt(v, level, g);
  }

  /** The entries of levels 1 to `n` - 1. */
  ghost function LowerEntries(v: Version, n: nat): set<Entry>
    requires n <= |v.files|
  {
    if n <= 1 then {} else LowerEntries(v, n - 1) + LevelEntries(v, n - 1)
  }

  lemma {:induction false} LowerEntriesAt(v: Version, n: nat, e: Entry)
    requires n <= |v.files|
    ensures e in LowerEntries(v, n) <==> exists i :: 1 <= i < n && e in LevelEntries(v, i)
  {
    if n > 1 {
      LowerEntriesAt(v, n - 1, e);
      assert e in LevelEntries(v, n - 1) ==> 1 <= n - 1 < n;
    }
  }

  lemma LevelRunFacts(v: Version, level: nat)
    requires ValidVersion(v) && Listed(v) && 1 <= level < NUM_LEVELS && FitsHandles(v.files[level])
    ensures Sorted(LevelRun(v, level)) && EntrySet(LevelRun(v, level)) == LevelEntries(v, level)
    ensures v.files[level] == [] ==> LevelEntries(v, level) == {}
  {
    var files := v.files[level];
    forall i, j | 0 <= i < j < |files|
      ensures files[i].number != files[j].number
    {
      ListedDistinct(v, level, i, j);
    }
    LevelIsSeparated(files);
    FlatSorted(LevelIndex(files), Opener(files), |files|);
    FlatIsContents(files, |files|);
    assert files[..|files|] == files;
  }

  lemma {:induction false} LowerRunsAged(v: Version, n: nat)
    requires |v.files| == NUM_LEVELS && ValidVersion(v) && Listed(v) && n <= NUM_LEVELS
    requires forall i :: 0 <= i < NUM_LEVELS ==> FitsHandles(v.files[i])
    ensures AgedRuns(LowerRuns(v, n), LowerEntries(v, n))
  {
    hide AgedRuns, Sorted, ValidVersion, Listed, LevelRun, LevelEntries, FitsHandles, NewerThan;
    if n > 1 {
      LowerRunsAged(v, n - 1);
      LevelRunFacts(v, n - 1);
      if v.files[n - 1] == [] {
        assert LowerEntries(v, n) == LowerEntries(v, n - 1);
        assert LowerRuns(v, n) == LowerRuns(v, n - 1);
      } else {
        OneRun(LevelRun(v, n - 1));
        LowerIsNewer(v, n - 1);
        AgedRunsConcat(LowerRuns(v, n - 1), LowerEntries(v, n - 1), [LevelRun(v, n - 1)], LevelEntries(v, n - 1));
      }
    } else {
      NoRuns();
    }
  }

  lemma LowerIsNewer(v: Version, n: nat)
    requires ValidVersion(v) && 1 <= n < NUM_LEVELS
    ensures NewerThan(LowerEntries(v, n), LevelEntries(v, n))
    ensures NewerThan(LevelEntries(v, 0), LowerEntries(v, NUM_LEVELS))
  {
    forall x, y | x in LowerEntries(v, n) && y in LevelEntries(v, n) && x.key.user == y.key.user
      ensures x.key.sequence > y.key.sequence
    {
      LowerEntriesAt(v, n, x);
    }
    forall x, y | x in LevelEntries(v, 0) && y in LowerEntries(v, NUM_LEVELS) && x.key.user == y.key.user
      ensures x.key.sequence > y.key.sequence
    {
      LowerEntriesAt(v, NUM_LEVELS, y);
    }
  }

  lemma VersionRuns(v: Version)
    requires ValidVersion(v) && Listed(v) && forall i :: 0 <= i < NUM_LEVELS ==> FitsHandles(v.files[i])
    ensures AgedRuns(TableRuns(v.files[0]) + LowerRuns(v, NUM_LEVELS), AllEntries(v))
  {
    hide AgedRuns;
    TableRunsAged(v);
    LowerRunsAged(v, NUM_LEVELS);
    LowerIsNewer(v, 1);
    AgedRunsConcat(TableRuns(v.files[0]), LevelEntries(v, 0), LowerRuns(v, NUM_LEVELS), LowerEntries(v, NUM_LEVELS));
    forall e
      ensures e in AllEntries(v) <==> e in LevelEntries(v, 0) + LowerEntries(v, NUM_LEVELS)
    {
      LowerEntriesAt(v, NUM_LEVELS, e);
      assert e in AllEntries(v) <==> exists i :: 0 <= i < NUM_LEVELS && e in LevelEntries(v, i);
    }
    assert AllEntries(v) == LevelEntries(v, 0) + LowerEntries(v, NUM_LEVELS);
  }

  /** The memtables on top of the version's runs. */
  lemma MemRuns(s: State, tables: seq<seq<Entry>>)
    requires Sorted(s.mem) && (s.imm.Some? ==> Sorted(s.imm.value)) && Aged(s)
    requires AgedRuns(tables, AllEntries(s.version))
    ensures AgedRuns([s.mem] + (if s.imm.Some? then [s.imm.value] else []) + tables, Stored(s))
  {
    hide AgedRuns, Sorted, AllEntries;
    var imm := if s.imm.Some? then [s.imm.value] else [];
    OneRun(s.mem);
    if s.imm.Some? {
      OneRun(s.imm.value);
      AgedRunsConcat(imm, ImmEntries(s), tables, AllEntries(s.version));
    } else {
      assert imm + tables == tables && ImmEntries(s) + AllEntries(s.version) == AllEntries(s.version);
    }
    AgedRunsConcat([s.mem], EntrySet(s.mem), imm + tables, ImmEntries(s) + AllEntries(s.version));
    assert [s.mem] + imm + tables == [s.mem] + (imm + tables);
    assert Stored(s) == EntrySet(s.mem) + (ImmEntries(s) + AllEntries(s.version));
  }

  /** The children of the scan are sorted runs that together hold exactly what is stored. */
  lemma RunsCoverStored(s: State)
    requires |s.version.files| == NUM_LEVELS && FitsState(s) && Shape(s)
    ensures AgedRuns(RunsOf(s), Stored(s))
  {
    hide AgedRuns, ValidVersion, Sorted, Listed, LowerRuns, TableRuns, Aged, UniqueStamps, NumbersBelow, Stored,
         FitsHandles;
    VersionRuns(s.version);
    var tables := TableRuns(s.version.files[0]) + LowerRuns(s.version, NUM_LEVELS);
    MemRuns(s, tables);
    var upper := [s.mem] + (if s.imm.Some? then [s.imm.value] else []);
    assert upper + TableRuns(s.version.files[0]) + LowerRuns(s.version, NUM_LEVELS) == upper + tables;
  }

  /**
   A scan at a live snapshot or at the latest sequence shows exactly what reads of the same sequence answer: the merge
   of the children, filtered to visible entries, lists (k, v) just when a read of `k` returns `v`.
   */
  lemma ScanShowsReads(s: State, written: set<Entry>, merged: seq<Entry>, q: SequenceNumber, k: UserKey, v: Bytes)
    requires |s.version.files| == NUM_LEVELS && FitsState(s) && Sound(s, written, false) && Readable(s, q)
    requires IsMerge(RunsOf(s), merged)
    ensures (k, v) in Visible(merged, q) <==> Answer(written, k, q) == Some(v)
  {
    hide AgedRuns, ValidVersion, Listed, Visible, Answer;
    SoundFacts(s, written, false);
    FloorIsReadable(s, q);
    RunsCoverStored(s);
    MergeHoldsAll(RunsOf(s), Stored(s), merged);
    VisibleIsReads(merged, q, k, v);
  }
}
