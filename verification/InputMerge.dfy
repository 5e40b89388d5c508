/**
 MakeInputIterator (db/version_set.cc:1237-1268): the inputs of a compaction as one merged run.  Level-0 files are
 children of their own; the files of a lower level form one child, their concatenation.
 */
module InputMerge {
  import opened Keys
  import opened Lookup
  import opened Versions
  import opened Inputs
  import opened CompactionInputs
  import opened CompactionSetup
  import opened CompactionReads
  import opened Runs
  import opened Merger

  /** What a two-level iterator over the files shows. */
  function Concat(files: seq<FileMeta>): seq<Entry> {
    if files == [] then [] else Concat(files[..|files| - 1]) + files[|files| - 1].entries
  }

  function EachTable(files: seq<FileMeta>): seq<seq<Entry>> {
    seq(|files|, i requires 0 <= i < |files| => files[i].entries)
  }

  function OneChild(files: seq<FileMeta>): seq<seq<Entry>> {
    if files == [] then [] else [Concat(files)]
  }

  /** The children of the input iterator. */
  function InputRuns(level: nat, in0: seq<FileMeta>, in1: seq<FileMeta>): seq<seq<Entry>> {
    (if level == 0 then EachTable(in0) else OneChild(in0)) + OneChild(in1)
  }

  lemma {:induction false} ConcatContents(files: seq<FileMeta>)
    ensures EntrySet(Concat(files)) == Contents(FileSet(files))
  {
    if files != [] {
      var init, last := files[..|files| - 1], files[|files| - 1];
      ConcatContents(init);
      assert files == init + [last];
      assert FileSet(files) == FileSet(init) + {last};
      assert EntrySet(Concat(init) + last.entries) == EntrySet(Concat(init)) + EntrySet(last.entries);
    }
  }

  lemma {:induction false} ConcatSorted(files: seq<FileMeta>)
    requires DisjointSorted(files) && ValidFiles(FileSet(files))
    ensures Sorted(Concat(files))
  {
    if files != [] {
      var init, last := files[..|files| - 1], files[|files| - 1];
      assert FileSet(init) <= FileSet(files) && last in FileSet(files);
      ConcatSorted(init);
      forall a, b | a in Concat(init) && b in last.entries
        ensures Less(a.key, b.key)
      {
        ConcatContents(init);
        assert a in EntrySet(Concat(init));
        var f :| f in FileSet(init) && a in f.entries;
        var i :| 0 <= i < |init| && init[i] == f;
        assert files[i] == f && Before(files[i], last);
        EntryInRange(f, a);
        EntryInRange(last, b);
      }
    }
  }

  lemma OneChildAged(files: seq<FileMeta>)
    requires DisjointSorted(files) && ValidFiles(FileSet(files))
    ensures AgedRuns(OneChild(files), Contents(FileSet(files)))
  {
    ConcatContents(files);
    if files == [] {
      NoRuns();
      assert Concat(files) == [];
    } else {
      ConcatSorted(files);
      OneRun(Concat(files));
    }
  }

  /** Level-0 tables are ordered by age, because their numbers are. */
  lemma EachTableAged(v: Version, files: seq<FileMeta>)
    requires |v.files| == NUM_LEVELS && ValidFiles(FileSet(v.files[0])) && NumbersFollowAge(FileSet(v.files[0]))
             && UniqueNumbers(v)
    requires FileSet(files) <= FileSet(v.files[0]) && Distinct(files)
    ensures AgedRuns(EachTable(files), Contents(FileSet(files)))
  {
    var runs := EachTable(files);
    forall i | 0 <= i < |files|
      ensures files[i] in FileSet(files) && ValidFile(files[i]) && FileAt(v, 0, files[i])
    {
      assert files[i] in FileSet(files) && files[i] in FileSet(v.files[0]);
    }
    forall i, j | 0 <= i < j < |runs|
      ensures NewerThan(EntrySet(runs[i]), EntrySet(runs[j])) || NewerThan(EntrySet(runs[j]), EntrySet(runs[i]))
    {
      assert files[i].number != files[j].number;
    }
    forall e | e in Contents(FileSet(files))
      ensures exists i :: 0 <= i < |runs| && e in runs[i]
    {
      var f :| f in FileSet(files) && e in f.entries;
      var i :| 0 <= i < |files| && files[i] == f;
      assert e in runs[i];
    }
  }

  lemma PartOfLevel(v: Version, level: nat, part: seq<FileMeta>, i: nat, j: nat)
    requires ValidVersion(v) && 1 <= level < NUM_LEVELS && i <= j <= |v.files[level]| && part == v.files[level][i..j]
    ensures DisjointSorted(part) && ValidFiles(FileSet(part))
  {
    LevelFacts(v, level);
    var files := v.files[level];
    assert FileSet(part) <= FileSet(files);
    forall m, n | 0 <= m < n < |part|
      ensures Before(part[m], part[n])
    {
      assert Before(files[i + m], files[i + n]);
    }
  }

  lemma UpperAged(v: Version, level: nat, in0: seq<FileMeta>, in1: seq<FileMeta>)
    requires ValidVersion(v) && LegalInputs(v, level, in0, in1)
    ensures AgedRuns(if level == 0 then EachTable(in0) else OneChild(in0), Contents(FileSet(in0)))
  {
    hide AgedRuns, LevelOrder, UniqueStamps, NewerThan, LowerInputs;
    if level == 0 {
      EachTableAged(v, in0);
    } else {
      var i, j :| 0 <= i < j <= |v.files[level]| && in0 == v.files[level][i..j];
      PartOfLevel(v, level, in0, i, j);
      OneChildAged(in0);
    }
  }

  lemma LowerAged(v: Version, level: nat, in0: seq<FileMeta>, in1: seq<FileMeta>)
    requires ValidVersion(v) && LegalInputs(v, level, in0, in1)
    ensures AgedRuns(OneChild(in1), Contents(FileSet(in1)))
  {
    hide AgedRuns, LevelOrder, UniqueStamps, NewerThan, LegalInputs, ValidFiles;
    var lo, hi := LowerRange(v, level, in0, in1);
    var files := v.files[level + 1];
    assert files[..|files|] == files;
    var i, j := OverlappingIsRun(files, |files|, Some(lo), Some(hi));
    PartOfLevel(v, level + 1, in1, i, j);
    OneChildAged(in1);
  }

  /** The children are sorted runs that hold exactly the input entries and share no key. */
  lemma InputRunsAged(v: Version, level: nat, in0: seq<FileMeta>, in1: seq<FileMeta>)
    requires ValidVersion(v) && LegalInputs(v, level, in0, in1)
    ensures AgedRuns(InputRuns(level, in0, in1), InputEntries(in0, in1))
  {
    hide AgedRuns, UniqueStamps, DisjointSorted, ValidFiles;
    UpperAged(v, level, in0, in1);
    LowerAged(v, level, in0, in1);
    InputsByLevel(v, level, in0, in1);
    AgedRunsConcat(if level == 0 then EachTable(in0) else OneChild(in0), Contents(FileSet(in0)),
                   OneChild(in1), Contents(FileSet(in1)));
  }

  lemma InputsByLevel(v: Version, level: nat, in0: seq<FileMeta>, in1: seq<FileMeta>)
    requires ValidVersion(v) && LegalInputs(v, level, in0, in1)
    ensures NewerThan(Contents(FileSet(in0)), Contents(FileSet(in1)))
  {
    forall x, y | x in Contents(FileSet(in0)) && y in Contents(FileSet(in1)) && x.key.user == y.key.user
      ensures x.key.sequence > y.key.sequence
    {
      assert x in InputEntries(in0, in1) && y in InputEntries(in0, in1);
      InputLevel(v, level, in0, in1, x);
      InputLevel(v, level, in0, in1, y);
      assert NewerThan(LevelEntries(v, level), LevelEntries(v, level + 1));
    }
  }

  /** The merged inputs, read to the end. */
  method MergeInputs(ghost v: Version, level: nat, in0: seq<FileMeta>, in1: seq<FileMeta>) returns (merged: seq<Entry>)
    requires ValidVersion(v) && LegalInputs(v, level, in0, in1) && UniqueStamps(InputEntries(in0, in1))
    ensures Sorted(merged) && EntrySet(merged) == InputEntries(in0, in1)
    ensures IsMerge(InputRuns(level, in0, in1), merged)
  {
    hide ValidVersion, LegalInputs, AgedRuns, UniqueStamps, Sorted, EntrySet, IsMerge, InputEntries;
    InputRunsAged(v, level, in0, in1);
    merged := MergeRuns(InputRuns(level, in0, in1), InputEntries(in0, in1));
  }
}
