/**
 The version edits of flushes, trivial moves and compactions (db/db_impl.cc:515-526, 718-725, 860-876) and the
 versions they install.
 */
module Edits {
  import opened Keys
  import opened Lookup
  import opened Versions
  import opened Inputs
  import opened CompactionInputs
  import opened CompactionSetup
  import opened Compactions
  import opened CompactionReads
  import opened CompactionOrder
  import opened VersionBuilder

  /** Every level is listed in Builder order; a version Builder saved always is. */
  ghost predicate Listed(v: Version) {
    |v.files| == NUM_LEVELS && forall i :: 0 <= i < NUM_LEVELS ==> SortedBySmallest(v.files[i])
  }

  ghost predicate NumbersBelow(v: Version, n: nat) {
    forall i, f :: FileAt(v, i, f) ==> f.number < n
  }

  // ---------- flush ----------

  ghost function FlushEdit(level: nat, f: FileMeta): Edit {
    Edit({}, [(level, f)])
  }

  lemma FlushFiles(v: Version, level: nat, f: FileMeta, v': Version)
    requires Installs(v, FlushEdit(level, f), v') && level < NUM_LEVELS
    ensures forall i :: 0 <= i < NUM_LEVELS ==>
      FileSet(v'.files[i]) == FileSet(v.files[i]) + (if i == level then {f} else {})
  {
    var e := FlushEdit(level, f);
    forall i | 0 <= i < NUM_LEVELS
      ensures FileSet(v'.files[i]) == FileSet(v.files[i]) + (if i == level then {f} else {})
    {
      assert DeletedAt(e, i) == {};
      assert AddedAt(e.added, i) == if i == level then {f} else {} by {
        assert e.added[0] in e.added;
      }
    }
  }

  lemma FlushEntries(v: Version, level: nat, f: FileMeta, v': Version)
    requires Installs(v, FlushEdit(level, f), v') && level < NUM_LEVELS
    ensures forall i :: 0 <= i < NUM_LEVELS ==>
      LevelEntries(v', i) == LevelEntries(v, i) + (if i == level then EntrySet(f.entries) else {})
    ensures AllEntries(v') == AllEntries(v) + EntrySet(f.entries)
  {
    FlushFiles(v, level, f, v');
    forall i | 0 <= i < NUM_LEVELS
      ensures LevelEntries(v', i) == LevelEntries(v, i) + (if i == level then EntrySet(f.entries) else {})
    {
      ContentsUnion(FileSet(v.files[i]), if i == level then {f} else {});
    }
    assert forall e :: e in EntrySet(f.entries) ==> e in LevelEntries(v', level);
    assert forall i, e :: 0 <= i < NUM_LEVELS && e in LevelEntries(v, i) ==> e in LevelEntries(v', i);
  }

  lemma ContentsUnion(a: set<FileMeta>, b: set<FileMeta>)
    ensures Contents(a + b) == Contents(a) + Contents(b)
    ensures forall f :: b == {f} ==> Contents(b) == EntrySet(f.entries)
    ensures b == {} ==> Contents(b) == {}
  {
  }

  /** Above level 0, the new file meets no file of its own or any earlier level. */
  ghost predicate ClearDownTo(v: Version, level: nat, f: FileMeta) {
    level > 0 ==> forall i, g :: 0 <= i <= level && FileAt(v, i, g) ==>
      !Overlaps(g, Some(f.smallest.user), Some(f.largest.user))
  }

  /** Files that miss the key range of `f` share no user key with it. */
  lemma MissedFilesShareNoKey(files: seq<FileMeta>, f: FileMeta, x: Entry, y: Entry)
    requires ValidFiles(FileSet(files)) && ValidFile(f)
    requires forall g :: g in files ==> !Overlaps(g, Some(f.smallest.user), Some(f.largest.user))
    requires x in Contents(FileSet(files)) && y in f.entries
    ensures x.key.user != y.key.user
  {
    var g :| g in FileSet(files) && x in g.entries;
    EntryInRange(g, x);
    EntryInRange(f, y);
    assert !Overlaps(g, Some(f.smallest.user), Some(f.largest.user));
  }

  lemma FlushPair(v: Version, level: nat, f: FileMeta, i: nat, j: nat, x: Entry, y: Entry)
    requires LevelOrder(v) && |v.files| == NUM_LEVELS && ValidFile(f) && i < j < NUM_LEVELS
    requires ValidFiles(FileSet(v.files[i]))
    requires NewerThan(EntrySet(f.entries), AllEntries(v)) && ClearDownTo(v, level, f)
    requires x in LevelEntries(v, i) || (i == level && x in f.entries)
    requires y in LevelEntries(v, j) || (j == level && y in f.entries)
    requires x.key.user == y.key.user
    ensures x.key.sequence > y.key.sequence
  {
    if x in LevelEntries(v, i) {
      if y in LevelEntries(v, j) {
        assert NewerThan(LevelEntries(v, i), LevelEntries(v, j));
      } else {
        assert forall g :: g in v.files[i] ==> FileAt(v, i, g);
        MissedFilesShareNoKey(v.files[i], f, x, y);
      }
    } else {
      assert x in EntrySet(f.entries) && y in LevelEntries(v, j) && y in AllEntries(v);
    }
  }

  lemma FlushOrder(v: Version, level: nat, f: FileMeta, v': Version)
    requires LevelOrder(v) && |v.files| == |v'.files| == NUM_LEVELS && ValidFile(f) && level < NUM_LEVELS
    requires forall i :: 0 <= i < NUM_LEVELS ==> ValidFiles(FileSet(v.files[i]))
    requires NewerThan(EntrySet(f.entries), AllEntries(v)) && ClearDownTo(v, level, f)
    requires forall i :: 0 <= i < NUM_LEVELS ==>
      LevelEntries(v', i) == LevelEntries(v, i) + (if i == level then EntrySet(f.entries) else {})
    ensures LevelOrder(v')
  {
    forall i, j, x, y | 0 <= i < j < NUM_LEVELS && x in LevelEntries(v', i) && y in LevelEntries(v', j)
                        && x.key.user == y.key.user
      ensures x.key.sequence > y.key.sequence
    {
      FlushPair(v, level, f, i, j, x, y);
    }
  }

  lemma FlushDisjoint(files: seq<FileMeta>, files': seq<FileMeta>, f: FileMeta)
    requires DisjointSorted(files) && ValidFiles(FileSet(files)) && ValidFile(f)
    requires forall g :: g in files ==> !Overlaps(g, Some(f.smallest.user), Some(f.largest.user))
    requires SortedBySmallest(files') && FileSet(files') == FileSet(files) + {f}
    ensures DisjointSorted(files')
  {
    SortedLevelIsDisjoint(files);
    forall g | g in FileSet(files)
      ensures Before(f, g) || Before(g, f)
    {
      assert !Overlaps(g, Some(f.smallest.user), Some(f.largest.user));
    }
    SortedAndDisjoint(files');
  }

  lemma FlushNumbers(v: Version, level: nat, f: FileMeta, v': Version)
    requires UniqueNumbers(v) && NumbersBelow(v, f.number) && |v.files| == |v'.files| == NUM_LEVELS
             && level < NUM_LEVELS
    requires forall i :: 0 <= i < NUM_LEVELS ==>
      FileSet(v'.files[i]) == FileSet(v.files[i]) + (if i == level then {f} else {})
    ensures UniqueNumbers(v') && NumbersBelow(v', f.number + 1)
  {
    forall i, g | FileAt(v', i, g)
      ensures FileAt(v, i, g) || (i == level && g == f)
      ensures FileAt(v, i, g) ==> g.number < f.number
    {
      assert g in FileSet(v'.files[i]);
    }
  }

  lemma FlushAges(v: Version, f: FileMeta)
    requires |v.files| == NUM_LEVELS && NumbersFollowAge(FileSet(v.files[0])) && NumbersBelow(v, f.number)
    requires NewerThan(EntrySet(f.entries), AllEntries(v))
    ensures NumbersFollowAge(FileSet(v.files[0]) + {f})
  {
    forall g | g in FileSet(v.files[0])
      ensures g.number < f.number && NewerThan(EntrySet(f.entries), EntrySet(g.entries))
    {
      assert FileAt(v, 0, g);
      assert EntrySet(g.entries) <= LevelEntries(v, 0);
      assert LevelEntries(v, 0) <= AllEntries(v);
    }
  }

  /** A memtable newer than everything on disk, placed where PickLevelForMemTableOutput says, keeps a version valid. */
  lemma FlushKeepsVersionValid(v: Version, level: nat, f: FileMeta, v': Version)
    requires ValidVersion(v) && NumbersBelow(v, f.number) && ValidFile(f) && level < NUM_LEVELS
    requires NewerThan(EntrySet(f.entries), AllEntries(v)) && UniqueStamps(EntrySet(f.entries) + AllEntries(v))
    requires ClearDownTo(v, level, f)
    requires Installs(v, FlushEdit(level, f), v')
    ensures ValidVersion(v') && NumbersBelow(v', f.number + 1)
  {
    FlushLevels(v, level, f, v');
    FlushOrdering(v, level, f, v');
    FlushNumbering(v, level, f, v');
  }

  lemma FlushOrdering(v: Version, level: nat, f: FileMeta, v': Version)
    requires LevelOrder(v) && ValidFile(f) && level < NUM_LEVELS && ClearDownTo(v, level, f)
    requires |v.files| == NUM_LEVELS && forall i :: 0 <= i < NUM_LEVELS ==> ValidFiles(FileSet(v.files[i]))
    requires NewerThan(EntrySet(f.entries), AllEntries(v)) && Installs(v, FlushEdit(level, f), v')
    ensures LevelOrder(v') && AllEntries(v') == AllEntries(v) + EntrySet(f.entries)
  {
    FlushEntries(v, level, f, v');
    FlushOrder(v, level, f, v');
  }

  lemma FlushNumbering(v: Version, level: nat, f: FileMeta, v': Version)
    requires UniqueNumbers(v) && NumbersBelow(v, f.number) && level < NUM_LEVELS
    requires |v.files| == NUM_LEVELS && NumbersFollowAge(FileSet(v.files[0]))
    requires NewerThan(EntrySet(f.entries), AllEntries(v)) && Installs(v, FlushEdit(level, f), v')
    ensures UniqueNumbers(v') && NumbersBelow(v', f.number + 1) && NumbersFollowAge(FileSet(v'.files[0]))
  {
    FlushFiles(v, level, f, v');
    FlushNumbers(v, level, f, v');
    FlushAges(v, f);
  }

  lemma FlushLevels(v: Version, level: nat, f: FileMeta, v': Version)
    requires ValidVersion(v) && ValidFile(f) && level < NUM_LEVELS && ClearDownTo(v, level, f)
    requires Installs(v, FlushEdit(level, f), v')
    ensures forall i :: 0 <= i < NUM_LEVELS ==> ValidFiles(FileSet(v'.files[i]))
    ensures forall i :: 1 <= i < NUM_LEVELS ==> DisjointSorted(v'.files[i])
  {
    FlushFiles(v, level, f, v');
    forall i | 0 <= i < NUM_LEVELS
      ensures ValidFiles(FileSet(v'.files[i])) && (i >= 1 ==> DisjointSorted(v'.files[i]))
    {
      FlushLevel(v, level, f, v', i);
    }
  }

  lemma FlushLevel(v: Version, level: nat, f: FileMeta, v': Version, i: nat)
    requires ValidVersion(v) && ValidFile(f) && level < NUM_LEVELS && i < NUM_LEVELS && Listed(v')
    requires ClearDownTo(v, level, f)
    requires FileSet(v'.files[i]) == FileSet(v.files[i]) + (if i == level then {f} else {})
    ensures ValidFiles(FileSet(v'.files[i])) && (i >= 1 ==> DisjointSorted(v'.files[i]))
  {
    LevelFacts(v, i);
    if i >= 1 {
      if i == level {
        assert forall g :: g in v.files[i] ==> FileAt(v, i, g);
        FlushDisjoint(v.files[i], v'.files[i], f);
      } else {
        SortedLevelIsDisjoint(v.files[i]);
        SortedAndDisjoint(v'.files[i]);
      }
    }
  }

  // ---------- compaction and trivial move ----------

  ghost predicate IsCompactionEdit(level: nat, in0: seq<FileMeta>, in1: seq<FileMeta>, outs: seq<FileMeta>, e: Edit) {
    && (forall p :: p in e.deleted <==>
          ((p.0 == level && p.1 in Numbers(FileSet(in0))) || (p.0 == level + 1 && p.1 in Numbers(FileSet(in1)))))
    && (forall p :: p in e.added <==> p.0 == level + 1 && p.1 in outs)
  }

  /** The outputs are new files, or the single input file moved down. */
  ghost predicate FreshOutputs(v: Version, level: nat, in0: seq<FileMeta>, outs: seq<FileMeta>) {
    && Coherent(FileSet(outs))
    && forall o, i, f :: o in outs && 0 <= i < |v.files| && f in v.files[i] && o.number == f.number ==>
         i == level && f == o && f in in0
  }

  lemma DeletedNumbers(v: Version, i: nat, part: seq<FileMeta>)
    requires i < |v.files| && UniqueNumbers(v) && FileSet(part) <= FileSet(v.files[i])
    ensures (set f | f in FileSet(v.files[i]) && f.number !in Numbers(FileSet(part))) == Rest(v, i, part)
  {
    forall f | f in FileSet(v.files[i])
      ensures f.number in Numbers(FileSet(part)) <==> f in FileSet(part)
    {
      if f.number in Numbers(FileSet(part)) {
        var g :| g in FileSet(part) && g.number == f.number;
        assert g in FileSet(v.files[i]);
        assert FileAt(v, i, g) && FileAt(v, i, f);
      }
    }
  }

  lemma EditAt(level: nat, in0: seq<FileMeta>, in1: seq<FileMeta>, outs: seq<FileMeta>, e: Edit, i: nat)
    requires IsCompactionEdit(level, in0, in1, outs, e)
    ensures DeletedAt(e, i) == if i == level then Numbers(FileSet(in0))
                               else if i == level + 1 then Numbers(FileSet(in1)) else {}
    ensures AddedAt(e.added, i) == if i == level + 1 then FileSet(outs) else {}
  {
    forall n | n in (if i == level then Numbers(FileSet(in0)) else if i == level + 1 then Numbers(FileSet(in1)) else {})
      ensures n in DeletedAt(e, i)
    {
      assert (i, n) in e.deleted && (i, n).1 == n;
    }
    if i == level + 1 {
      forall f | f in outs
        ensures f in AddedAt(e.added, i)
      {
        assert (i, f) in e.added && (i, f).1 == f;
      }
    }
  }

  /** Installing a compaction edit replaces exactly the inputs by the outputs. */
  lemma CompactionEditReplaces(v: Version, level: nat, in0: seq<FileMeta>, in1: seq<FileMeta>, outs: seq<FileMeta>,
                               e: Edit, v': Version)
    requires UniqueNumbers(v) && LegalInputs(v, level, in0, in1) && FreshOutputs(v, level, in0, outs)
    requires IsCompactionEdit(level, in0, in1, outs, e) && Installs(v, e, v')
    ensures Replaces(v, level, in0, in1, outs, v')
  {
    hide LegalInputs;
    var lo, hi := LowerRange(v, level, in0, in1);
    forall i | 0 <= i < NUM_LEVELS
      ensures FileSet(v'.files[i]) ==
        if i == level then Rest(v, level, in0)
        else if i == level + 1 then Rest(v, level + 1, in1) + FileSet(outs) else FileSet(v.files[i])
    {
      EditAt(level, in0, in1, outs, e, i);
      if i == level {
        DeletedNumbers(v, level, in0);
      } else if i == level + 1 {
        DeletedNumbers(v, level + 1, in1);
        assert forall f :: f in FileSet(v.files[level + 1]) ==> f.number !in Numbers(FileSet(outs));
        assert forall f :: f in FileSet(outs) ==> f.number in Numbers(FileSet(outs));
      }
    }
  }

  lemma CompactionNumbers(v: Version, level: nat, in0: seq<FileMeta>, in1: seq<FileMeta>, outs: seq<FileMeta>,
                          v': Version)
    requires UniqueNumbers(v) && FreshOutputs(v, level, in0, outs) && Replaces(v, level, in0, in1, outs, v')
    ensures UniqueNumbers(v')
  {
    forall i, f | FileAt(v', i, f)
      ensures FileAt(v, i, f) || (i == level + 1 && f in outs)
      ensures i == level ==> f !in in0
    {
      assert f in FileSet(v'.files[i]);
    }
  }

  /** The file lists of an edit that LogAndApply accepts. */
  lemma CompactionEditAddsFresh(v: Version, level: nat, in0: seq<FileMeta>, in1: seq<FileMeta>, outs: seq<FileMeta>,
                                e: Edit)
    requires |v.files| == NUM_LEVELS && level + 1 < NUM_LEVELS
    requires FreshOutputs(v, level, in0, outs) && IsCompactionEdit(level, in0, in1, outs, e)
    ensures AddsFresh(v, e)
  {
    forall i | 0 <= i < NUM_LEVELS
      ensures Coherent(AddedAt(e.added, i)) && Numbers(AddedAt(e.added, i)) !! Numbers(FileSet(v.files[i]))
    {
      EditAt(level, in0, in1, outs, e, i);
    }
  }
}
