/**
 Table files, versions and point lookups (db/version_set.cc).

 A `FileMeta` carries, beside the metadata the source keeps, the entries of its immutable table.
 */
module Versions {
  import opened Keys
  import opened Lookup

  const NUM_LEVELS: nat := 7

  datatype FileMeta = FileMeta(number: nat, size: nat, smallest: InternalKey, largest: InternalKey, entries: seq<Entry>)

  /** The metadata describes a nonempty sorted table, as BuildTable and DoCompactionWork record it. */
  ghost predicate ValidFile(f: FileMeta) {
    && f.entries != [] && Sorted(f.entries)
    && f.smallest == f.entries[0].key && f.largest == f.entries[|f.entries| - 1].key
  }

  datatype Version = Version(files: seq<seq<FileMeta>>)

  ghost function FileSet(fs: seq<FileMeta>): set<FileMeta> {
    set f | f in fs
  }

  /** All entries held by a set of files. */
  ghost function Contents(fs: set<FileMeta>): set<Entry> {
    set f, e | f in fs && e in f.entries :: e
  }

  ghost function LevelEntries(v: Version, i: nat): set<Entry>
    requires i < |v.files|
  {
    Contents(FileSet(v.files[i]))
  }

  ghost function AllEntries(v: Version): set<Entry> {
    set i, e | 0 <= i < |v.files| && e in LevelEntries(v, i) :: e
  }

  ghost predicate ValidFiles(fs: set<FileMeta>) {
    forall f :: f in fs ==> ValidFile(f)
  }

  /** Wholly before: the last key of `f` precedes the first key of `g`. */
  predicate Before(f: FileMeta, g: FileMeta) {
    Less(f.largest, g.smallest)
  }

  /** A level list in ascending order without overlap: the shape of every level above 0. */
  ghost predicate DisjointSorted(fs: seq<FileMeta>) {
    && (forall i :: 0 <= i < |fs| ==> !Less(fs[i].largest, fs[i].smallest))
    && (forall i, j {:trigger Before(fs[i], fs[j])} :: 0 <= i < j < |fs| ==> Before(fs[i], fs[j]))
  }

  /** Level-0 files may overlap; a larger file number means newer contents. */
  ghost predicate NumbersFollowAge(fs: set<FileMeta>) {
    forall f, g :: f in fs && g in fs && f.number < g.number ==> NewerThan(EntrySet(g.entries), EntrySet(f.entries))
  }

  ghost predicate FileAt(v: Version, i: int, f: FileMeta) {
    0 <= i < |v.files| && f in v.files[i]
  }

  ghost predicate UniqueNumbers(v: Version) {
    forall i, j, f, g {:trigger FileAt(v, i, f), FileAt(v, j, g)} ::
      FileAt(v, i, f) && FileAt(v, j, g) && f.number == g.number ==> i == j && f == g
  }

  /** For each user key, every entry at a lower-numbered level is newer than every entry at a higher one. */
  ghost predicate LevelOrder(v: Version) {
    forall i, j :: 0 <= i < j < |v.files| ==> NewerThan(LevelEntries(v, i), LevelEntries(v, j))
  }

  ghost predicate ValidVersion(v: Version) {
    && |v.files| == NUM_LEVELS
    && (forall i :: 0 <= i < NUM_LEVELS ==> ValidFiles(FileSet(v.files[i])))
    && (forall i :: 1 <= i < NUM_LEVELS ==> DisjointSorted(v.files[i]))
    && NumbersFollowAge(FileSet(v.files[0]))
    && UniqueNumbers(v)
    && LevelOrder(v)
    && UniqueStamps(AllEntries(v))
  }

  /** Every entry of a file lies between its smallest and largest keys. */
  lemma EntryInRange(f: FileMeta, e: Entry)
    requires ValidFile(f) && e in f.entries
    ensures !Less(e.key, f.smallest) && !Less(f.largest, e.key)
    ensures f.smallest.user <= e.key.user <= f.largest.user
  {
  }

  /** FindFile: the first file whose largest key is at or after `key`, by binary search. */
  method FindFile(files: seq<FileMeta>, key: InternalKey) returns (index: nat)
    requires DisjointSorted(files)
    ensures index <= |files|
    ensures forall i :: 0 <= i < index ==> Less(files[i].largest, key)
    ensures forall i :: index <= i < |files| ==> !Less(files[i].largest, key)
  {
    var left, right := 0, |files|;
    while left < right
      invariant 0 <= left <= right <= |files|
      invariant forall i :: 0 <= i < left ==> Less(files[i].largest, key)
      invariant forall i :: right <= i < |files| ==> !Less(files[i].largest, key)
    {
      var mid := (left + right) / 2;
      if Less(files[mid].largest, key) {
        forall i | 0 <= i <= mid
          ensures Less(files[i].largest, key)
        {
          if i < mid { assert Before(files[i], files[mid]); }
        }
        left := mid + 1;
      } else {
        forall i | mid <= i < |files|
          ensures !Less(files[i].largest, key)
        {
          if mid < i { assert Before(files[mid], files[i]); }
        }
        right := mid;
      }
    }
    index := right;
  }

  predicate Covers(f: FileMeta, k: UserKey) {
    f.smallest.user <= k <= f.largest.user
  }

  ghost predicate NewestFirst(fs: seq<FileMeta>) {
    forall i, j :: 0 <= i < j < |fs| ==> fs[i].number >= fs[j].number
  }

  /** Place `f` in a list kept in descending file-number order (std::sort with NewestFirst). */
  function InsertNewestFirst(fs: seq<FileMeta>, f: FileMeta): seq<FileMeta> {
    if fs == [] || fs[0].number < f.number then [f] + fs else [fs[0]] + InsertNewestFirst(fs[1..], f)
  }

  lemma FileSetCons(f: FileMeta, fs: seq<FileMeta>)
    ensures FileSet([f] + fs) == {f} + FileSet(fs)
  {
  }

  lemma {:induction false} InsertNewestFirstFiles(fs: seq<FileMeta>, f: FileMeta)
    ensures FileSet(InsertNewestFirst(fs, f)) == FileSet(fs) + {f}
  {
    if fs == [] || fs[0].number < f.number {
      FileSetCons(f, fs);
    } else {
      InsertNewestFirstFiles(fs[1..], f);
      assert fs == [fs[0]] + fs[1..];
      FileSetCons(fs[0], fs[1..]);
      FileSetCons(fs[0], InsertNewestFirst(fs[1..], f));
    }
  }

  lemma {:induction false} InsertNewestFirstKeepsOrder(fs: seq<FileMeta>, f: FileMeta)
    requires NewestFirst(fs)
    ensures NewestFirst(InsertNewestFirst(fs, f))
  {
    if fs != [] && fs[0].number >= f.number {
      InsertNewestFirstKeepsOrder(fs[1..], f);
      InsertNewestFirstFiles(fs[1..], f);
      var rest := InsertNewestFirst(fs[1..], f);
      forall i | 0 <= i < |rest|
        ensures rest[i].number <= fs[0].number
      {
        assert rest[i] in FileSet(fs[1..]) + {f};
      }
    }
  }

  /** The files a lookup of `k` must consult at level 0, newest first. */
  method CoveringNewestFirst(files: seq<FileMeta>, k: UserKey) returns (tmp: seq<FileMeta>)
    ensures NewestFirst(tmp)
    ensures FileSet(tmp) == set f | f in files && Covers(f, k)
  {
    tmp := [];
    for i := 0 to |files|
      invariant NewestFirst(tmp)
      invariant FileSet(tmp) == set f | f in files[..i] && Covers(f, k)
    {
      var f := files[i];
      assert files[..i + 1] == files[..i] + [f];
      if Covers(f, k) {
        InsertNewestFirstKeepsOrder(tmp, f);
        InsertNewestFirstFiles(tmp, f);
        tmp := InsertNewestFirst(tmp, f);
      }
    }
    assert files[..|files|] == files;
  }

  /** A matching level-0 entry lives in one of the consulted files. */
  lemma ConsultedHolds(files: seq<FileMeta>, tmp: seq<FileMeta>, k: UserKey, s: SequenceNumber, x: Entry)
    returns (j: nat)
    requires ValidFiles(FileSet(files))
    requires FileSet(tmp) == set f | f in files && Covers(f, k)
    requires x in Contents(FileSet(files)) && Matches(x, k, s)
    ensures j < |tmp| && tmp[j] in files && x in EntrySet(tmp[j].entries)
  {
    var g :| g in FileSet(files) && x in g.entries;
    EntryInRange(g, x);
    assert g in FileSet(tmp);
    j :| 0 <= j < |tmp| && tmp[j] == g;
  }

  /** A hit in the i-th consulted file is newest when the files before it know nothing. */
  lemma NewestHitWins(files: seq<FileMeta>, tmp: seq<FileMeta>, k: UserKey, s: SequenceNumber, i: nat, e: Entry)
    requires ValidFiles(FileSet(files)) && NumbersFollowAge(FileSet(files))
    requires forall f, g :: f in files && g in files && f.number == g.number ==> f == g
    requires NewestFirst(tmp)
    requires FileSet(tmp) == set f | f in files && Covers(f, k)
    requires i < |tmp| && Newest(EntrySet(tmp[i].entries), k, s, e)
    requires forall j :: 0 <= j < i ==> Absent(EntrySet(tmp[j].entries), k, s)
    ensures Newest(Contents(FileSet(files)), k, s, e)
  {
    assert tmp[i] in FileSet(tmp);
    assert e in Contents(FileSet(files));
    forall x | x in Contents(FileSet(files)) && Matches(x, k, s)
      ensures x.key.sequence <= e.key.sequence
    {
      var j := ConsultedHolds(files, tmp, k, s, x);
      if tmp[j] != tmp[i] {
        assert j > i && tmp[j].number < tmp[i].number;
        assert tmp[j] in FileSet(files) && tmp[i] in FileSet(files);
        assert NewerThan(EntrySet(tmp[i].entries), EntrySet(tmp[j].entries));
      }
    }
  }

  /** Search the level-0 files that cover `k`, newest first. */
  method SearchLevel0(files: seq<FileMeta>, k: UserKey, s: SequenceNumber) returns (r: Option<Entry>)
    requires ValidFiles(FileSet(files)) && NumbersFollowAge(FileSet(files))
    requires forall f, g :: f in files && g in files && f.number == g.number ==> f == g
    ensures r.None? ==> Absent(Contents(FileSet(files)), k, s)
    ensures r.Some? ==> Newest(Contents(FileSet(files)), k, s, r.value)
  {
    var tmp := CoveringNewestFirst(files, k);
    for i := 0 to |tmp|
      invariant forall j :: 0 <= j < i ==> Absent(EntrySet(tmp[j].entries), k, s)
    {
      assert tmp[i] in FileSet(tmp) && tmp[i] in FileSet(files);
      RunGetIsNewest(tmp[i].entries, k, s);
      r := RunGet(tmp[i].entries, k, s);
      if r.Some? {
        NewestHitWins(files, tmp, k, s, i, r.value);
        return;
      }
    }
    r := None;
    forall x | x in Contents(FileSet(files)) && Matches(x, k, s)
      ensures false
    {
      var j := ConsultedHolds(files, tmp, k, s, x);
    }
  }

  /** Search a sorted level: one binary search, at most one table read. */
  method SearchSortedLevel(files: seq<FileMeta>, k: UserKey, s: SequenceNumber) returns (r: Option<Entry>)
    requires DisjointSorted(files) && ValidFiles(FileSet(files))
    ensures r.None? ==> Absent(Contents(FileSet(files)), k, s)
    ensures r.Some? ==> Newest(Contents(FileSet(files)), k, s, r.value)
  {
    var index := FindFile(files, SeekKey(k, s));
    assert index < |files| ==> files[index] in FileSet(files) && ValidFile(files[index]);
    forall x | x in Contents(FileSet(files)) && Matches(x, k, s)
      ensures index < |files| && files[index].smallest.user <= k
      ensures x in files[index].entries
              || exists y :: y in files[index].entries && Matches(y, k, s) && y.key.sequence >= x.key.sequence
    {
      var g :| g in FileSet(files) && x in g.entries;
      EntryInRange(g, x);
      var j :| 0 <= j < |files| && files[j] == g;
      assert j >= index;
      if j > index {
        assert Before(files[index], files[j]);
        var y := files[index].entries[|files[index].entries| - 1];
        assert y in files[index].entries && Matches(y, k, s);
        EntryInRange(files[index], y);
      }
    }
    if index >= |files| || k < files[index].smallest.user {
      r := None;
    } else {
      RunGetIsNewest(files[index].entries, k, s);
      r := RunGet(files[index].entries, k, s);
      assert files[index] in FileSet(files);
      forall x | x in Contents(FileSet(files)) && Matches(x, k, s)
        ensures r.Some? && x.key.sequence <= r.value.key.sequence
      {
        if x !in files[index].entries {
          var y :| y in files[index].entries && Matches(y, k, s) && y.key.sequence >= x.key.sequence;
          assert y in EntrySet(files[index].entries);
        } else {
          assert x in EntrySet(files[index].entries);
        }
      }
    }
  }

  /** A hit at one level is newest overall when the levels before it know nothing. */
  lemma FirstLevelWins(v: Version, k: UserKey, s: SequenceNumber, level: nat, e: Entry)
    requires level < |v.files| && LevelOrder(v)
    requires Newest(LevelEntries(v, level), k, s, e)
    requires forall i :: 0 <= i < level ==> Absent(LevelEntries(v, i), k, s)
    ensures Newest(AllEntries(v), k, s, e)
  {
    forall x | x in AllEntries(v) && Matches(x, k, s)
      ensures x.key.sequence <= e.key.sequence
    {
      var i :| 0 <= i < |v.files| && x in LevelEntries(v, i);
      if i > level {
        assert NewerThan(LevelEntries(v, level), LevelEntries(v, i));
      }
    }
  }

  lemma NumbersUniqueInLevel(v: Version, i: nat)
    requires i < |v.files| && UniqueNumbers(v)
    ensures forall f, g :: f in v.files[i] && g in v.files[i] && f.number == g.number ==> f == g
  {
    forall f, g | f in v.files[i] && g in v.files[i] && f.number == g.number
      ensures f == g
    {
      assert FileAt(v, i, f) && FileAt(v, i, g);
    }
  }

  /** Version::Get: level by level, stopping at the first level that knows the key. */
  method Get(v: Version, k: UserKey, s: SequenceNumber) returns (r: Option<Entry>)
    requires ValidVersion(v)
    ensures r.None? ==> Absent(AllEntries(v), k, s)
    ensures r.Some? ==> Newest(AllEntries(v), k, s, r.value)
  {
    for level := 0 to NUM_LEVELS
      invariant forall i :: 0 <= i < level ==> Absent(LevelEntries(v, i), k, s)
    {
      if level == 0 {
        NumbersUniqueInLevel(v, 0);
        r := SearchLevel0(v.files[0], k, s);
      } else {
        r := SearchSortedLevel(v.files[level], k, s);
      }
      if r.Some? {
        FirstLevelWins(v, k, s, level, r.value);
        return;
      }
    }
    r := None;
  }
}
