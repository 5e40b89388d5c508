/**
 What a compaction does to the shape of a version: levels stay sorted and disjoint, and for each user key every
 entry at a lower-numbered level stays newer than every entry at a higher-numbered one.
 */
module CompactionOrder {
  import opened Keys
  import opened Lookup
  import opened Versions
  import opened Inputs
  import opened CompactionInputs
  import opened CompactionSetup
  import opened Compactions
  import opened CompactionReads

  /** Builder's order of the files of a level: by smallest key, then by file number. */
  predicate BySmallestKey(f: FileMeta, g: FileMeta) {
    Less(f.smallest, g.smallest) || (f.smallest == g.smallest && f.number < g.number)
  }

  ghost predicate SortedBySmallest(fs: seq<FileMeta>) {
    forall i, j :: 0 <= i < j < |fs| ==> BySmallestKey(fs[i], fs[j])
  }

  ghost predicate PairwiseDisjoint(fs: set<FileMeta>) {
    forall f, g :: f in fs && g in fs && f != g ==> Before(f, g) || Before(g, f)
  }

  lemma SortedAndDisjoint(fs: seq<FileMeta>)
    requires SortedBySmallest(fs) && PairwiseDisjoint(FileSet(fs)) && ValidFiles(FileSet(fs))
    ensures DisjointSorted(fs)
  {
    forall i | 0 <= i < |fs|
      ensures !Less(fs[i].largest, fs[i].smallest)
    {
      assert fs[i] in FileSet(fs);
    }
    forall i, j | 0 <= i < j < |fs|
      ensures Before(fs[i], fs[j])
    {
      assert BySmallestKey(fs[i], fs[j]);
      assert fs[i] in FileSet(fs) && fs[j] in FileSet(fs) && fs[i] != fs[j];
    }
  }

  lemma SortedLevelIsDisjoint(fs: seq<FileMeta>)
    requires DisjointSorted(fs)
    ensures PairwiseDisjoint(FileSet(fs))
  {
    forall f, g | f in FileSet(fs) && g in FileSet(fs) && f != g
      ensures Before(f, g) || Before(g, f)
    {
      var i :| 0 <= i < |fs| && fs[i] == f;
      var j :| 0 <= j < |fs| && fs[j] == g;
      assert Before(fs[i], fs[j]) || Before(fs[j], fs[i]);
    }
  }

  /** The user-key range that fixed the inputs of the output level, and what it says of an input entry's position. */
  lemma RestAvoidsInput(v: Version, level: nat, in0: seq<FileMeta>, in1: seq<FileMeta>,
                        lo: UserKey, hi: UserKey, g: FileMeta, f: FileMeta, e: Entry)
    requires |v.files| == NUM_LEVELS && level + 1 < NUM_LEVELS && DisjointSorted(v.files[level + 1])
    requires SpannedBy(in0, lo, hi) && in1 == Overlapping(v.files[level + 1], Some(lo), Some(hi))
    requires g in v.files[level + 1] && g !in in1 && !Less(g.largest, g.smallest)
    requires (f in in0 || f in in1) && ValidFile(f) && e in f.entries
    ensures g.largest.user < lo || hi < g.smallest.user
    ensures g.largest.user < lo ==> Less(g.largest, e.key)
    ensures hi < g.smallest.user ==> Less(e.key, g.smallest)
  {
    assert !Overlaps(g, Some(lo), Some(hi));
    EntryInRange(f, e);
    if f in in1 {
      SortedLevelIsDisjoint(v.files[level + 1]);
      assert f in FileSet(v.files[level + 1]) && g in FileSet(v.files[level + 1]);
      assert Before(f, g) || Before(g, f);
    }
  }

  lemma InputFile(v: Version, level: nat, in0: seq<FileMeta>, in1: seq<FileMeta>, e: Entry) returns (f: FileMeta)
    requires ValidVersion(v) && LegalInputs(v, level, in0, in1) && e in InputEntries(in0, in1)
    ensures (f in in0 || f in in1) && ValidFile(f) && e in f.entries
  {
    LevelFacts(v, level);
    LevelFacts(v, level + 1);
    if x :| x in in0 && e in x.entries {
      f := x;
      assert f in FileSet(in0) && f in FileSet(v.files[level]);
    } else {
      var y :| y in FileSet(in1) && e in y.entries;
      f := y;
      assert f in in1 && f in FileSet(v.files[level + 1]);
    }
  }

  /** An untouched file of the output level lies wholly before or wholly after all input entries. */
  lemma RestAvoidsInputs(v: Version, level: nat, in0: seq<FileMeta>, in1: seq<FileMeta>, g: FileMeta)
    requires ValidVersion(v) && LegalInputs(v, level, in0, in1) && g in Rest(v, level + 1, in1)
    ensures (forall e :: e in InputEntries(in0, in1) ==> Less(g.largest, e.key))
            || (forall e :: e in InputEntries(in0, in1) ==> Less(e.key, g.smallest))
  {
    var lo, hi :| SpannedBy(in0, lo, hi) && in1 == Overlapping(v.files[level + 1], Some(lo), Some(hi));
    LevelFacts(v, level + 1);
    forall e | e in InputEntries(in0, in1)
      ensures g.largest.user < lo || hi < g.smallest.user
      ensures g.largest.user < lo ==> Less(g.largest, e.key)
      ensures hi < g.smallest.user ==> Less(e.key, g.smallest)
    {
      var f := InputFile(v, level, in0, in1, e);
      RestAvoidsInput(v, level, in0, in1, lo, hi, g, f, e);
    }
  }

  lemma OutputsDisjointFromRest(v: Version, level: nat, in0: seq<FileMeta>, in1: seq<FileMeta>, outs: seq<FileMeta>)
    requires ValidVersion(v) && LegalInputs(v, level, in0, in1)
    requires ValidFiles(FileSet(outs)) && PairwiseDisjoint(FileSet(outs))
    requires Contents(FileSet(outs)) <= InputEntries(in0, in1)
    ensures PairwiseDisjoint(Rest(v, level + 1, in1) + FileSet(outs))
  {
    forall f, g | f in FileSet(outs) && g in Rest(v, level + 1, in1)
      ensures Before(f, g) || Before(g, f)
    {
      RestAvoidsInputs(v, level, in0, in1, g);
      assert ValidFile(f);
      assert f.entries[0] in f.entries && f.entries[|f.entries| - 1] in f.entries;
      assert f.entries[0] in Contents(FileSet(outs)) && f.entries[|f.entries| - 1] in Contents(FileSet(outs));
    }
    SortedLevelIsDisjoint(v.files[level + 1]);
  }

  /** The level order survives, because no remaining file of `level` is older on a shared user key. */
  lemma LevelOrderKept(v: Version, level: nat, in0: seq<FileMeta>, in1: seq<FileMeta>, outs: seq<FileMeta>, v': Version)
    requires LevelOrder(v) && LegalInputs(v, level, in0, in1) && Replaces(v, level, in0, in1, outs, v')
    requires Contents(FileSet(outs)) <= InputEntries(in0, in1)
    ensures LevelOrder(v')
  {
    forall i, j, x, y | 0 <= i < j < |v'.files| && x in LevelEntries(v', i) && y in LevelEntries(v', j)
                        && x.key.user == y.key.user
      ensures x.key.sequence > y.key.sequence
    {
      OrderedPair(v, level, in0, in1, outs, v', i, j, x, y);
    }
  }

  lemma OldLevel(v: Version, level: nat, in0: seq<FileMeta>, in1: seq<FileMeta>, outs: seq<FileMeta>, v': Version,
                 i: nat, x: Entry)
    requires LegalInputs(v, level, in0, in1) && Replaces(v, level, in0, in1, outs, v')
    requires Contents(FileSet(outs)) <= InputEntries(in0, in1)
    requires i < |v'.files| && x in LevelEntries(v', i)
    ensures x in LevelEntries(v, i) || (i == level + 1 && x in InputEntries(in0, in1))
    ensures i == level ==> x in Contents(Rest(v, level, in0))
  {
    var f :| f in FileSet(v'.files[i]) && x in f.entries;
    if i == level + 1 && f in FileSet(outs) {
      assert x in Contents(FileSet(outs));
    } else {
      assert f in FileSet(v.files[i]);
    }
  }

  lemma OrderedPair(v: Version, level: nat, in0: seq<FileMeta>, in1: seq<FileMeta>, outs: seq<FileMeta>, v': Version,
                    i: nat, j: nat, x: Entry, y: Entry)
    requires LevelOrder(v) && LegalInputs(v, level, in0, in1) && Replaces(v, level, in0, in1, outs, v')
    requires Contents(FileSet(outs)) <= InputEntries(in0, in1)
    requires i < j < |v'.files| && x in LevelEntries(v', i) && y in LevelEntries(v', j) && x.key.user == y.key.user
    ensures x.key.sequence > y.key.sequence
  {
    OldLevel(v, level, in0, in1, outs, v', i, x);
    OldLevel(v, level, in0, in1, outs, v', j, y);
    if y !in LevelEntries(v, j) {
      AboveOutputsIsNewer(v, level, in0, in1, y, i, x);
    } else if x !in LevelEntries(v, i) {
      InputLevel(v, level, in0, in1, x);
      assert NewerThan(LevelEntries(v, level), LevelEntries(v, j));
      assert NewerThan(LevelEntries(v, level + 1), LevelEntries(v, j));
    } else {
      assert NewerThan(LevelEntries(v, i), LevelEntries(v, j));
    }
  }

  /** Moving any part of legal inputs one level down keeps a version valid. */
  lemma CompactionKeepsVersionValid(v: Version, level: nat, in0: seq<FileMeta>, in1: seq<FileMeta>,
                                    outs: seq<FileMeta>, v': Version)
    requires ValidVersion(v) && LegalInputs(v, level, in0, in1) && Replaces(v, level, in0, in1, outs, v')
    requires ValidFiles(FileSet(outs)) && PairwiseDisjoint(FileSet(outs))
    requires Contents(FileSet(outs)) <= InputEntries(in0, in1)
    requires forall i :: 1 <= i < NUM_LEVELS ==> SortedBySmallest(v'.files[i])
    requires UniqueNumbers(v')
    ensures ValidVersion(v')
    ensures AllEntries(v') <= AllEntries(v)
  {
    LevelOrderKept(v, level, in0, in1, outs, v');
    OutputsDisjointFromRest(v, level, in0, in1, outs);
    forall i | 0 <= i < NUM_LEVELS
      ensures ValidFiles(FileSet(v'.files[i])) && (i >= 1 ==> DisjointSorted(v'.files[i]))
    {
      LevelFacts(v, i);
      assert FileSet(v'.files[i]) <= FileSet(v.files[i]) + (if i == level + 1 then FileSet(outs) else {});
      if i >= 1 {
        SortedLevelIsDisjoint(v.files[i]);
        SortedAndDisjoint(v'.files[i]);
      }
    }
    forall x | x in AllEntries(v')
      ensures x in AllEntries(v)
    {
      var i :| 0 <= i < |v'.files| && x in LevelEntries(v', i);
      OldLevel(v, level, in0, in1, outs, v', i, x);
      if x in InputEntries(in0, in1) { InputLevel(v, level, in0, in1, x); }
    }
    assert FileSet(v'.files[0]) <= FileSet(v.files[0]);
  }

  /** The untouched files of the output level share no user key with the inputs of `level`. */
  lemma RestMissesUpperInputs(v: Version, level: nat, in0: seq<FileMeta>, in1: seq<FileMeta>, e: Entry, p: Entry)
    requires ValidVersion(v) && LegalInputs(v, level, in0, in1)
    requires e in Contents(FileSet(in0)) && p in Contents(Rest(v, level + 1, in1))
    ensures e.key.user != p.key.user
  {
    hide LegalInputs, ValidVersion, UniqueStamps, DisjointSorted;
    var lo, hi := LowerRange(v, level, in0, in1);
    LevelFacts(v, level);
    LevelFacts(v, level + 1);
    var f :| f in FileSet(in0) && e in f.entries;
    var g :| g in Rest(v, level + 1, in1) && p in g.entries;
    assert f in in0 && f in FileSet(v.files[level]) && g in FileSet(v.files[level + 1]);
    EntryInRange(f, e);
    EntryInRange(g, p);
    assert !Overlaps(g, Some(lo), Some(hi));
  }

  /** With boundary-complete inputs, the untouched files of the output level are newer on every input user key. */
  lemma BoundaryCompleteRestIsNewer(v: Version, level: nat, in0: seq<FileMeta>, in1: seq<FileMeta>)
    requires ValidVersion(v) && LegalInputs(v, level, in0, in1)
    requires in1 != [] ==> NoBoundary(v.files[level + 1], in1[|in1| - 1].largest)
    ensures NewerThan(Contents(Rest(v, level + 1, in1)), InputEntries(in0, in1))
  {
    forall e, p | e in Contents(FileSet(in0)) && p in Contents(Rest(v, level + 1, in1))
      ensures e.key.user != p.key.user
    {
      RestMissesUpperInputs(v, level, in0, in1, e, p);
    }
    if in1 != [] {
      LowerRunIsOldest(v, level, in0, in1);
    }
  }

  lemma LowerRunIsOldest(v: Version, level: nat, in0: seq<FileMeta>, in1: seq<FileMeta>)
    requires ValidVersion(v) && LegalInputs(v, level, in0, in1)
    requires in1 != [] && NoBoundary(v.files[level + 1], in1[|in1| - 1].largest)
    ensures NewerThan(Contents(Rest(v, level + 1, in1)), Contents(FileSet(in1)))
  {
    var lo, hi :| SpannedBy(in0, lo, hi) && in1 == Overlapping(v.files[level + 1], Some(lo), Some(hi));
    LevelFacts(v, level + 1);
    QueryIsSeed(v, level + 1, Some(lo), Some(hi), in1);
    RunIsOldest(v.files[level + 1], in1);
  }

  /** If the inputs of `level + 1` were boundary-complete too, no compaction could uncover a key. */
  lemma BoundaryCompleteIsSafe(upper: set<Entry>, v: Version, level: nat, snapshot: SequenceNumber,
                               in0: seq<FileMeta>, in1: seq<FileMeta>, k: UserKey)
    requires ValidVersion(v) && UniqueStamps(upper + AllEntries(v)) && LegalInputs(v, level, in0, in1)
    requires in1 != [] ==> NoBoundary(v.files[level + 1], in1[|in1| - 1].largest)
    ensures !Uncovers(upper, v, level, snapshot, in0, in1, k)
  {
    BoundaryCompleteRestIsNewer(v, level, in0, in1);
    var rest := Contents(Rest(v, level + 1, in1));
    forall p | p in rest && Matches(p, k, snapshot)
      ensures p in upper + AllEntries(v) && Matches(p, k, snapshot)
    {
      assert p in LevelEntries(v, level + 1);
    }
  }
}
