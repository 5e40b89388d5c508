/**
 A run of the database in which a compaction brings a deleted key back.

 Key 2 is written, then deleted under a live snapshot, so that a compaction keeps both entries; it cuts its output
 between them.  Once the snapshot is gone, the next compaction pulls in only the file with the tombstone
 (db/version_set.cc:1410 does not close the inputs of the lower level) and drops the tombstone, because no deeper level
 holds key 2 (db/db_impl.cc:949-960).  The file with the old value stays.
 */
module UncoveredKey {
  import opened Keys
  import opened Lookup
  import opened Versions
  import opened Inputs
  import opened CompactionInputs
  import opened CompactionSetup
  import opened Compactions
  import opened CompactionReads
  import opened CompactionOrder
  import opened VersionBuilder
  import opened Edits
  import opened EditLogs
  import opened Outputs
  import opened DatabaseState
  import opened Database
  import opened Batches

  const K1: UserKey := 1.0
  const K2: UserKey := 2.0

  const OLD2: Entry := Entry(InternalKey(K2, 1, Value), [1])
  const GONE2: Entry := Entry(InternalKey(K2, 2, Deletion), [])
  const OLD1: Entry := Entry(InternalKey(K1, 3, Value), [3])
  const NEW1: Entry := Entry(InternalKey(K1, 4, Value), [4])

  /** The first flush, its rewriting in two files, the second flush, and the output of the last compaction. */
  const WHOLE: FileMeta := FileMeta(2, 1, OLD1.key, OLD2.key, [OLD1, GONE2, OLD2])
  const LOWER: FileMeta := FileMeta(3, 0, OLD1.key, GONE2.key, [OLD1, GONE2])
  const LEFT: FileMeta := FileMeta(4, 0, OLD2.key, OLD2.key, [OLD2])
  const UPPER: FileMeta := FileMeta(5, 1, NEW1.key, NEW1.key, [NEW1])
  const OUTPUT: FileMeta := FileMeta(6, 0, NEW1.key, NEW1.key, [NEW1])

  const NO_FILES: Version := Version([[], [], [], [], [], [], []])
  const FLUSHED: Version := Version([[], [], [WHOLE], [], [], [], []])
  const SPLIT: Version := Version([[], [], [], [LOWER, LEFT], [], [], []])
  const BEFORE: Version := Version([[], [], [UPPER], [LOWER, LEFT], [], [], []])
  const AFTER: Version := Version([[], [], [], [OUTPUT, LEFT], [], [], []])

  /** The merged inputs of the two compactions. */
  const ALL: seq<Entry> := [OLD1, GONE2, OLD2]
  const MERGED: seq<Entry> := [NEW1, OLD1, GONE2]

  // ---------- lists that are known by their elements ----------

  lemma {:induction false} SortedEntriesUnique(a: seq<Entry>, b: seq<Entry>)
    requires Sorted(a) && Sorted(b) && EntrySet(a) == EntrySet(b)
    ensures a == b
  {
    assert a != [] ==> a[0] in EntrySet(a);
    assert b != [] ==> b[0] in EntrySet(b);
    if a != [] && b != [] {
      HeadsAgree(a, b);
      TailEntries(a);
      TailEntries(b);
      SortedEntriesUnique(a[1..], b[1..]);
      assert a == [a[0]] + a[1..] && b == [b[0]] + b[1..];
    }
  }

  lemma HeadsAgree(a: seq<Entry>, b: seq<Entry>)
    requires Sorted(a) && Sorted(b) && EntrySet(a) == EntrySet(b) && a != [] && b != []
    ensures a[0] == b[0]
  {
    assert a[0] in EntrySet(b) && b[0] in EntrySet(a);
    var i :| 0 <= i < |b| && b[i] == a[0];
    var j :| 0 <= j < |a| && a[j] == b[0];
  }

  lemma TailEntries(a: seq<Entry>)
    requires Sorted(a) && a != []
    ensures Sorted(a[1..]) && EntrySet(a[1..]) == EntrySet(a) - {a[0]}
  {
    assert a == [a[0]] + a[1..];
    forall e | e in a[1..]
      ensures e != a[0]
    {
      var i :| 0 <= i < |a[1..]| && a[1..][i] == e;
      assert a[i + 1] == e && Less(a[0].key, a[i + 1].key);
    }
  }

  lemma VersionUnique(v: Version, w: Version)
    requires Listed(v) && Listed(w) && forall i :: 0 <= i < NUM_LEVELS ==> FileSet(v.files[i]) == FileSet(w.files[i])
    ensures v == w
  {
    forall i | 0 <= i < NUM_LEVELS
      ensures v.files[i] == w.files[i]
    {
      SortedListUnique(v.files[i], w.files[i]);
    }
    assert v.files == w.files;
  }

  lemma OneFile(f: FileMeta)
    ensures FileSet([f]) == {f} && FileSet([]) == {}
  {
    assert f in [f];
  }

  lemma TwoFiles(f: FileMeta, g: FileMeta)
    ensures FileSet([f, g]) == {f, g}
  {
    assert f in [f, g] && g in [f, g];
  }

  // ---------- the writes ----------

  lemma OneWrite(op: Op, first: nat)
    requires first <= MAX_SEQUENCE
    ensures BatchEntries([op], 1, first) == {OpEntry(op, first)}
  {
    assert BatchEntries([op], 0, first) == {};
  }

  lemma TwoWrites(op: Op, op2: Op, first: nat)
    requires first + 1 <= MAX_SEQUENCE
    ensures BatchEntries([op, op2], 2, first) == {OpEntry(op, first), OpEntry(op2, first + 1)}
  {
    assert BatchEntries([op, op2], 0, first) == {};
    assert BatchEntries([op, op2], 1, first) == {OpEntry(op, first)};
  }

  lemma MemIs(db: Db, es: seq<Entry>)
    requires db.Valid() && Sorted(es) && EntrySet(db.mem) == EntrySet(es)
    ensures db.mem == es
  {
    SoundFacts(db.Abs(), db.written, db.uncovered);
    SortedEntriesUnique(db.mem, es);
  }

  lemma ThreeEntries()
    ensures Sorted(ALL) && EntrySet(ALL) == {OLD1, GONE2, OLD2}
    ensures Sorted(MERGED) && EntrySet(MERGED) == {NEW1, OLD1, GONE2}
    ensures Sorted([NEW1]) && EntrySet([NEW1]) == {NEW1} && EntrySet([]) == {}
  {
    assert ALL[0] in ALL && ALL[1] in ALL && ALL[2] in ALL;
    assert MERGED[0] in MERGED && MERGED[1] in MERGED && MERGED[2] in MERGED;
    assert NEW1 in [NEW1];
  }

  /** Put key 2, take a snapshot, delete key 2 and put key 1. */
  method WriteBoth(db: Db)
    requires db.Valid() && db.Abs() == EMPTY && db.written == {} && !db.uncovered
    modifies db
    ensures db.Valid() && db.version == NO_FILES && db.mem == ALL && db.imm.None? && db.nextFile == 2
    ensures db.lastSequence == 3 && db.snapshots == [1] && db.written == {OLD2, GONE2, OLD1} && !db.uncovered
  {
    hide Sound, Logged, Sorted, EntrySet, BatchEntries;
    ThreeEntries();
    OneWrite(Put(K2, [1]), 1);
    db.Write([Put(K2, [1])]);
    var s := db.GetSnapshot();
    TwoWrites(Delete(K2), Put(K1, [3]), 2);
    db.Write([Delete(K2), Put(K1, [3])]);
    MemIs(db, ALL);
  }

  // ---------- flushes to level 2 ----------

  /** Nothing is in the way of the table: it goes as deep as a flush may go. */
  lemma FlushedToTwo(v: Version, f: FileMeta, max: nat, v': Version, w: Version)
    requires |v.files| == NUM_LEVELS && v.files[0] == [] && v.files[1] == [] && v.files[2] == []
    requires FlushedTo(v, f, max, v') && Listed(v') && Listed(w)
    requires forall g :: g in v.files[3] ==> g.size == 0
    requires |w.files| == NUM_LEVELS && w.files[2] == [f] && forall i :: 0 <= i < NUM_LEVELS && i != 2 ==>
               w.files[i] == v.files[i]
    ensures v' == w
  {
    hide Installs, Listed;
    var level: nat :| PlacedAt(v, f, level, max) && Installs(v, FlushEdit(level, f), v');
    if level < MAX_MEM_COMPACT_LEVEL {
      SizeOfEmpties(Overlapping(v.files[level + 2], Some(f.smallest.user), Some(f.largest.user)));
      assert false;
    }
    FlushFiles(v, level, f, v');
    OneFile(f);
    VersionUnique(v', w);
  }

  lemma {:induction false} SizeOfEmpties(files: seq<FileMeta>)
    requires forall g :: g in files ==> g.size == 0
    ensures TotalFileSize(files) == 0
  {
    if files != [] {
      SizeOfEmpties(files[..|files| - 1]);
    }
  }

  lemma ListedConstants()
    ensures Listed(NO_FILES) && Listed(FLUSHED) && Listed(SPLIT) && Listed(BEFORE) && Listed(AFTER)
  {
    assert BySmallestKey(LOWER, LEFT) && BySmallestKey(OUTPUT, LEFT);
  }

  lemma VersionIsListed(db: Db)
    requires db.Valid()
    ensures Listed(db.version)
  {
    SoundFacts(db.Abs(), db.written, db.uncovered);
  }

  method Flush(db: Db, limits: Limits, ghost f: FileMeta, ghost w: Version)
    requires db.Valid() && db.imm.None? && db.mem != [] && f == TableOf(db.nextFile, 1, db.mem) && Listed(w)
    requires var v := db.version;
             && |v.files| == |w.files| == NUM_LEVELS && v.files[0] == [] && v.files[1] == [] && v.files[2] == []
             && (forall g :: g in v.files[3] ==> g.size == 0)
             && w.files[2] == [f] && forall i :: 0 <= i < NUM_LEVELS && i != 2 ==> w.files[i] == v.files[i]
    modifies db`mem, db`imm, db`version, db`nextFile, db`edits, db`versions
    ensures db.Valid() && db.version == w && db.mem == [] && db.imm.None? && db.nextFile == old(db.nextFile) + 1
  {
    hide Sound, Logged, FlushedTo, Listed;
    ghost var v := db.version;
    db.SwitchMemTable();
    db.CompactMemTable(1, limits);
    VersionIsListed(db);
    FlushedToTwo(v, f, limits.maxGrandparentBytes, db.version, w);
  }

  // ---------- compactions of the lone file of level 2 ----------

  lemma LoneInput(v: Version, f: FileMeta, in0: seq<FileMeta>, in1: seq<FileMeta>)
    requires LegalInputs(v, 2, in0, in1) && v.files[2] == [f]
    ensures in0 == [f] && in1 == Overlapping(v.files[3], Some(f.smallest.user), Some(f.largest.user))
  {
    hide NewerThan, Contents;
    var i, j :| 0 <= i < j <= |v.files[2]| && in0 == v.files[2][i..j];
    assert v.files[2][0..1] == [f];
    var lo, hi :| RangeOf(in0, lo, hi) && in1 == Overlapping(v.files[3], Some(lo), Some(hi));
  }

  /** What a manual compaction of level 2 does when that level holds one file and the merge is `merged`. */
  lemma Rewritten(v: Version, f: FileMeta, in1: seq<FileMeta>, merged: seq<Entry>, next: nat, snapshot: SequenceNumber,
                  job: Job, full: seq<bool>, v': Version, w: Version)
    requires |v.files| == NUM_LEVELS && v.files[2] == [f]
    requires in1 == Overlapping(v.files[3], Some(f.smallest.user), Some(f.largest.user))
    requires Sorted(merged) && EntrySet(merged) == InputEntries([f], in1)
    requires job.Rewrote? && job.level == 2 && Compacts(v, 2, snapshot, job.in0, job.in1, job.outs, v')
    requires OutputsOf(v, next, snapshot, job, [], full, []) && Listed(v') && Listed(w)
    requires Replaces(v, 2, [f], in1, CutFiles(v, next, snapshot, 2, merged, [], full, []), w)
    ensures v' == w && |job.outs| == |CutFiles(v, next, snapshot, 2, merged, [], full, [])|
  {
    hide LegalInputs, CutFiles, Listed, Sorted, EntrySet, Overlapping, InputEntries;
    LoneInput(v, f, job.in0, job.in1);
    var m :| MergeOf(job.in0, job.in1, m) && job.outs == CutFiles(v, next, snapshot, job.level, m, [], full, []);
    SortedEntriesUnique(m, merged);
    VersionUnique(v', w);
  }

  method CompactLevel2(db: Db, limits: Limits, full: seq<bool>, ghost f: FileMeta, ghost in1: seq<FileMeta>,
                       ghost merged: seq<Entry>, ghost w: Version)
    requires db.Valid() && |db.version.files| == NUM_LEVELS && db.version.files[2] == [f] && Listed(w)
    requires in1 == Overlapping(db.version.files[3], Some(f.smallest.user), Some(f.largest.user))
    requires Sorted(merged) && EntrySet(merged) == InputEntries([f], in1)
    requires Replaces(db.version, 2, [f], in1,
                      CutFiles(db.version, db.nextFile, Floor(db.Abs()), 2, merged, [], full, []), w)
    modifies db`version, db`nextFile, db`uncovered, db`edits, db`versions
    ensures db.Valid() && db.version == w
    ensures db.nextFile == old(db.nextFile)
                           + |CutFiles(old(db.version), old(db.nextFile), Floor(old(db.Abs())), 2, merged, [], full,
                                       [])|
  {
    hide Sound, Logged, Compacts, OutputsOf, Listed, HoldsFirst, CutFiles, Replaces, Sorted, EntrySet, Overlapping,
         InputEntries;
    ghost var v, next, snapshot := db.version, db.nextFile, Floor(db.Abs());
    assert f in v.files[2] && Overlaps(f, None, None);
    var job := db.BackgroundCompaction(Manual(2, None, None), limits, [], full, []);
    VersionIsListed(db);
    assert Compacts(v, 2, snapshot, job.in0, job.in1, job.outs, db.version);
    Rewritten(v, f, in1, merged, next, snapshot, job, full, db.version, w);
  }

  // ---------- the first compaction ----------

  /** The snapshot at 1 keeps both entries of key 2. */
  lemma AllKept()
    ensures !DropAt(FLUSHED, 2, 1, ALL, 0) && !DropAt(FLUSHED, 2, 1, ALL, 1) && !DropAt(FLUSHED, 2, 1, ALL, 2)
  {
  }

  /** One more merged entry, in an output that is not stopped before it. */
  lemma CutStep(v: Version, snapshot: SequenceNumber, merged: seq<Entry>, full: seq<bool>, n: nat,
                closed: seq<seq<Entry>>, open: seq<Entry>)
    requires n < |merged|
    requires Cut(v, 2, snapshot, merged, Padded([], |merged|, false), Padded(full, |merged|, false), n)
             == (closed, open)
    ensures Cut(v, 2, snapshot, merged, Padded([], |merged|, false), Padded(full, |merged|, false), n + 1)
            == if DropAt(v, 2, snapshot, merged, n) then (closed, open)
               else if n < |full| && full[n] then (closed + [open + [merged[n]]], [])
               else (closed, open + [merged[n]])
  {
  }

  /** The output is cut after the tombstone. */
  lemma FirstCut()
    ensures CutFiles(FLUSHED, 3, 1, 2, ALL, [], [false, true], []) == [LOWER, LEFT]
  {
    hide DropAt;
    AllKept();
    CutStep(FLUSHED, 1, ALL, [false, true], 0, [], []);
    assert [] + [OLD1] == [OLD1] && [OLD1] + [GONE2] == [OLD1, GONE2] && [] + [OLD2] == [OLD2];
    CutStep(FLUSHED, 1, ALL, [false, true], 1, [], [OLD1]);
    assert [] + [[OLD1, GONE2]] == [[OLD1, GONE2]];
    CutStep(FLUSHED, 1, ALL, [false, true], 2, [[OLD1, GONE2]], []);
  }

  lemma FirstInputs()
    ensures Overlapping(FLUSHED.files[3], Some(K1), Some(K2)) == []
    ensures InputEntries([WHOLE], []) == EntrySet(ALL)
  {
    OneFile(WHOLE);
    ContentsUnion({WHOLE}, {});
  }

  lemma FirstReplaces()
    ensures Replaces(FLUSHED, 2, [WHOLE], [], [LOWER, LEFT], SPLIT)
  {
    OneFile(WHOLE);
    TwoFiles(LOWER, LEFT);
  }

  // ---------- the second compaction ----------

  /** Without the snapshot the old entry of key 1 is shadowed and the tombstone is obsolete. */
  lemma OneKept()
    ensures !DropAt(BEFORE, 2, 4, MERGED, 0) && DropAt(BEFORE, 2, 4, MERGED, 1) && DropAt(BEFORE, 2, 4, MERGED, 2)
  {
    assert BaseLevelForKey(BEFORE, 2, K2);
  }

  lemma SecondCut()
    ensures CutFiles(BEFORE, 6, 4, 2, MERGED, [], [], []) == [OUTPUT]
  {
    hide DropAt;
    OneKept();
    CutStep(BEFORE, 4, MERGED, [], 0, [], []);
    assert [] + [NEW1] == [NEW1];
    CutStep(BEFORE, 4, MERGED, [], 1, [], [NEW1]);
    CutStep(BEFORE, 4, MERGED, [], 2, [], [NEW1]);
  }

  /** Only the file that holds key 1 joins the inputs. */
  lemma SecondInputs()
    ensures Overlapping(BEFORE.files[3], Some(K1), Some(K1)) == [LOWER]
    ensures InputEntries([UPPER], [LOWER]) == EntrySet(MERGED)
  {
    hide InputEntries, Contents, EntrySet;
    assert [LOWER, LEFT][..1] == [LOWER] && [LOWER][..0] == [];
    assert Overlapping([], Some(K1), Some(K1)) == [];
    assert Overlapping([LOWER], Some(K1), Some(K1)) == [LOWER];
    SecondEntries();
  }

  lemma SecondEntries()
    ensures InputEntries([UPPER], [LOWER]) == EntrySet(MERGED)
  {
    hide Contents, EntrySet;
    TwoContents(UPPER, UPPER);
    TwoContents(LOWER, LOWER);
    EntriesOfFiles();
    ThreeEntries();
    assert {NEW1} + {OLD1, GONE2} == {NEW1, OLD1, GONE2};
  }

  lemma EntriesOfFiles()
    ensures EntrySet(UPPER.entries) == {NEW1} && EntrySet(LOWER.entries) == {OLD1, GONE2}
    ensures EntrySet(LEFT.entries) == {OLD2} && EntrySet(OUTPUT.entries) == {NEW1}
  {
    assert NEW1 in [NEW1] && OLD1 in [OLD1, GONE2] && GONE2 in [OLD1, GONE2] && OLD2 in [OLD2];
  }

  lemma SecondReplaces()
    ensures Replaces(BEFORE, 2, [UPPER], [LOWER], [OUTPUT], AFTER)
  {
    OneFile(UPPER);
    OneFile(LOWER);
    OneFile(OUTPUT);
    TwoFiles(LOWER, LEFT);
    TwoFiles(OUTPUT, LEFT);
  }

  // ---------- what reads see ----------

  lemma LevelsTwoAndThree(v: Version)
    requires |v.files| == NUM_LEVELS && forall i :: 0 <= i < NUM_LEVELS && i != 2 && i != 3 ==> v.files[i] == []
    ensures AllEntries(v) == LevelEntries(v, 2) + LevelEntries(v, 3)
  {
    forall i | 0 <= i < NUM_LEVELS && i != 2 && i != 3
      ensures LevelEntries(v, i) == {}
    {
      ContentsUnion({}, {});
      assert FileSet(v.files[i]) == {};
    }
    forall e | e in AllEntries(v)
      ensures e in LevelEntries(v, 2) + LevelEntries(v, 3)
    {
      var i :| 0 <= i < |v.files| && e in LevelEntries(v, i);
    }
  }

  lemma TwoContents(f: FileMeta, g: FileMeta)
    ensures Contents(FileSet([f])) == EntrySet(f.entries)
    ensures Contents(FileSet([f, g])) == EntrySet(f.entries) + EntrySet(g.entries)
  {
    OneFile(f);
    TwoFiles(f, g);
    ContentsUnion({}, {f});
    ContentsUnion({}, {g});
    ContentsUnion({f}, {g});
  }

  lemma EntriesAround()
    ensures AllEntries(BEFORE) == {NEW1, OLD1, GONE2, OLD2} && AllEntries(AFTER) == {NEW1, OLD2}
  {
    hide Contents, EntrySet, AllEntries;
    LevelsTwoAndThree(BEFORE);
    LevelsTwoAndThree(AFTER);
    TwoContents(UPPER, UPPER);
    TwoContents(LOWER, LEFT);
    TwoContents(OUTPUT, LEFT);
    EntriesOfFiles();
    NothingIn();
    assert {NEW1} + ({OLD1, GONE2} + {OLD2}) == {NEW1, OLD1, GONE2, OLD2};
    assert {} + ({NEW1} + {OLD2}) == {NEW1, OLD2};
  }

  lemma NothingIn()
    ensures Contents(FileSet([])) == {}
  {
  }

  /** Before the second compaction the tombstone is the newest entry of key 2, afterwards the old value is. */
  lemma TombstoneThenValue()
    ensures Answer(AllEntries(BEFORE), K2, 4) == None && Answer(AllEntries(AFTER), K2, 4) == Some([1])
  {
    hide AllEntries;
    EntriesAround();
    AnswerIs(AllEntries(BEFORE), K2, 4, GONE2);
    AnswerIs(AllEntries(AFTER), K2, 4, OLD2);
  }

  lemma OnlyTables(s: State)
    requires s.mem == [] && s.imm.None?
    ensures Stored(s) == AllEntries(s.version)
  {
  }

  lemma DeletedInHistory()
    ensures Answer({OLD2, GONE2, OLD1, NEW1}, K2, 4) == None
  {
    AnswerIs({OLD2, GONE2, OLD1, NEW1}, K2, 4, GONE2);
  }

  /** Put key 1 again. */
  method PutAgain(db: Db)
    requires db.Valid() && db.mem == [] && db.lastSequence == 3
    modifies db`mem, db`lastSequence, db`written
    ensures db.Valid() && db.mem == [NEW1] && db.lastSequence == 4 && db.written == old(db.written) + {NEW1}
  {
    hide Sound, Logged, Sorted, EntrySet, BatchEntries;
    ThreeEntries();
    OneWrite(Put(K1, [4]), 4);
    db.Write([Put(K1, [4])]);
    MemIs(db, [NEW1]);
  }

  /** The second compaction meets the exact condition under which reads change. */
  lemma KeyIsUncovered()
    ensures Uncovers({}, BEFORE, 2, 4, [UPPER], [LOWER], K2)
  {
    hide AllEntries, Contents, EntrySet, InputEntries;
    EntriesAround();
    SecondEntries();
    ThreeEntries();
    TwoFiles(LOWER, LEFT);
    OneFile(LOWER);
    TwoContents(LEFT, LEFT);
    OneFile(LEFT);
    EntriesOfFiles();
    assert Rest(BEFORE, 3, [LOWER]) == {LEFT};
    assert {} + AllEntries(BEFORE) == AllEntries(BEFORE);
    assert BaseLevelForKey(BEFORE, 2, K2);
    assert Newest({OLD2}, K2, 4, OLD2) && Newest(AllEntries(BEFORE), K2, 4, GONE2);
  }

  /**
   A run that leaves the tombstone and the value it hides in two files of one level, cut apart by the first compaction.
   */
  method SplitOneKey(limits: Limits) returns (db: Db)
    ensures fresh(db) && db.Valid() && db.version == BEFORE && db.mem == [] && db.imm.None? && db.nextFile == 6
    ensures db.written == {OLD2, GONE2, OLD1, NEW1} && db.lastSequence == 4 && db.snapshots == []
  {
    hide Sound, Logged, Sorted, EntrySet, Overlapping, CutFiles, InputEntries, Replaces, Listed;
    db := new Db();
    WriteBoth(db);
    ListedConstants();
    Flush(db, limits, WHOLE, FLUSHED);
    FirstInputs();
    FirstCut();
    FirstReplaces();
    ThreeEntries();
    CompactLevel2(db, limits, [false, true], WHOLE, [], ALL, SPLIT);
    db.ReleaseSnapshot(0);
    PutAgain(db);
    Flush(db, limits, UPPER, BEFORE);
  }

  /** Key 2 is deleted in the history, and the second compaction makes its old value readable again. */
  method DeletedKeyReturns(limits: Limits) returns (db: Db, before: Option<Bytes>, after: Option<Bytes>)
    ensures fresh(db) && db.Valid() && db.version == AFTER
    ensures db.written == {OLD2, GONE2, OLD1, NEW1} && db.lastSequence == 4 && db.snapshots == []
    ensures Answer(db.written, K2, 4) == None
    ensures before == None && after == Some([1]) && db.uncovered
  {
    hide Sound, Logged, Sorted, EntrySet, Overlapping, CutFiles, InputEntries, Replaces, Listed, Answer, AllEntries,
         Stored;
    db := SplitOneKey(limits);
    ListedConstants();
    TombstoneThenValue();
    OnlyTables(db.Abs());
    before := db.Get(K2, 4);
    SecondInputs();
    SecondCut();
    SecondReplaces();
    ThreeEntries();
    CompactLevel2(db, limits, [], UPPER, [LOWER], MERGED, AFTER);
    OnlyTables(db.Abs());
    after := db.Get(K2, 4);
    DeletedInHistory();
  }
}
