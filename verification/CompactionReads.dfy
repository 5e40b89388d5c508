/**
 What a compaction does to reads: exactly when every read at or above the smallest snapshot is preserved.

 SetupOtherInputs completes only the inputs of `level` with boundary files (db/version_set.cc:1407-1411), so a file
 of `level + 1` outside the inputs may hold older entries of the last user key of the inputs.  A tombstone dropped
 under the base-level rule (db/db_impl.cc:949-960) then uncovers them.
 */
module CompactionReads {
  import opened Keys
  import opened Lookup
  import opened Versions
  import opened Inputs
  import opened CompactionInputs
  import opened CompactionSetup
  import opened Compactions

  ghost function InputEntries(in0: seq<FileMeta>, in1: seq<FileMeta>): set<Entry> {
    Contents(FileSet(in0)) + Contents(FileSet(in1))
  }

  /** The files of `level + 1` that the compaction does not touch. */
  ghost function Rest(v: Version, level: nat, part: seq<FileMeta>): set<FileMeta>
    requires level < |v.files|
  {
    FileSet(v.files[level]) - FileSet(part)
  }

  /** The drop rule as a property of the set of input entries. */
  ghost predicate Dropped(v: Version, level: nat, snapshot: SequenceNumber, ins: set<Entry>, e: Entry) {
    || (exists x :: x in ins && x.key.user == e.key.user && e.key.sequence < x.key.sequence <= snapshot)
    || ObsoleteTombstone(v, level, snapshot, e)
  }

  /** The loop's local decision (look at the previous entry) is the global rule (look at all inputs). */
  lemma DropAtIsDropped(v: Version, level: nat, snapshot: SequenceNumber, merged: seq<Entry>, i: nat)
    requires Sorted(merged) && UniqueStamps(EntrySet(merged)) && i < |merged|
    ensures DropAt(v, level, snapshot, merged, i) <==> Dropped(v, level, snapshot, EntrySet(merged), merged[i])
  {
    var e := merged[i];
    if i > 0 && merged[i - 1].key.user == e.key.user && merged[i - 1].key.sequence <= snapshot {
      assert Less(merged[i - 1].key, e.key);
      assert merged[i - 1] in EntrySet(merged) && e in EntrySet(merged);
    }
    forall x | x in EntrySet(merged) && x.key.user == e.key.user && e.key.sequence < x.key.sequence <= snapshot
      ensures DropAt(v, level, snapshot, merged, i)
    {
      assert forall n :: i < n < |merged| ==> Less(merged[i].key, merged[n].key);
      var j :| 0 <= j < |merged| && merged[j] == x;
      assert j < i;
      if j < i - 1 {
        assert Less(merged[j].key, merged[i - 1].key) && Less(merged[i - 1].key, merged[i].key);
      }
    }
  }

  /** The survivors of the loop, as a set, and in order. */
  lemma {:induction false} KeptIsSurvivors(v: Version, level: nat, snapshot: SequenceNumber, merged: seq<Entry>, n: nat)
    requires Sorted(merged) && UniqueStamps(EntrySet(merged)) && n <= |merged|
    ensures forall e :: e in Kept(v, level, snapshot, merged, n) <==>
              e in merged[..n] && !Dropped(v, level, snapshot, EntrySet(merged), e)
    ensures Sorted(Kept(v, level, snapshot, merged, n))
  {
    if n > 0 {
      KeptIsSurvivors(v, level, snapshot, merged, n - 1);
      DropAtIsDropped(v, level, snapshot, merged, n - 1);
      assert merged[..n] == merged[..n - 1] + [merged[n - 1]];
      assert forall e :: e in merged[..n - 1] ==> Less(e.key, merged[n - 1].key);
    }
  }

  /** `v'` is `v` with the inputs replaced by `outs` one level down, as a set of files per level. */
  ghost predicate Replaces(v: Version, level: nat, in0: seq<FileMeta>, in1: seq<FileMeta>, outs: seq<FileMeta>,
                           v': Version) {
    && |v.files| == |v'.files| == NUM_LEVELS && level + 1 < NUM_LEVELS
    && (forall i :: 0 <= i < NUM_LEVELS && i != level && i != level + 1 ==> FileSet(v'.files[i]) == FileSet(v.files[i]))
    && FileSet(v'.files[level]) == Rest(v, level, in0)
    && FileSet(v'.files[level + 1]) == Rest(v, level + 1, in1) + FileSet(outs)
  }

  /** A compaction of legal inputs whose outputs are exactly the surviving entries. */
  ghost predicate Compacts(v: Version, level: nat, snapshot: SequenceNumber,
                           in0: seq<FileMeta>, in1: seq<FileMeta>, outs: seq<FileMeta>, v': Version)
  {
    && LegalInputs(v, level, in0, in1)
    && Replaces(v, level, in0, in1, outs, v')
    && forall e :: e in Contents(FileSet(outs)) <==>
                   e in InputEntries(in0, in1) && !Dropped(v, level, snapshot, InputEntries(in0, in1), e)
  }

  /**
   The outputs hold nothing that no read needs: of the entries of a key no newer than the smallest snapshot only the
   newest input is written, and a tombstone that old only where a deeper file may hold the key.
   */
  lemma OutputsAreLean(v: Version, level: nat, snapshot: SequenceNumber, in0: seq<FileMeta>, in1: seq<FileMeta>,
                       outs: seq<FileMeta>, v': Version, x: Entry)
    requires Compacts(v, level, snapshot, in0, in1, outs, v') && x in Contents(FileSet(outs))
    requires x.key.sequence <= snapshot
    ensures forall y :: y in InputEntries(in0, in1) && y.key.user == x.key.user && y.key.sequence <= snapshot ==>
              y.key.sequence <= x.key.sequence
    ensures x.key.kind.Deletion? ==>
              exists i, f :: level + 2 <= i < |v.files| && f in v.files[i] && Covers(f, x.key.user)
  {
    hide LegalInputs, Replaces, InputEntries;
    assert !Dropped(v, level, snapshot, InputEntries(in0, in1), x);
  }

  lemma InputLevel(v: Version, level: nat, in0: seq<FileMeta>, in1: seq<FileMeta>, e: Entry)
    requires LegalInputs(v, level, in0, in1) && e in InputEntries(in0, in1)
    ensures e in LevelEntries(v, level) || e in LevelEntries(v, level + 1)
    ensures e in AllEntries(v)
    ensures e in Contents(FileSet(in0)) ==> e in LevelEntries(v, level)
    ensures e in Contents(FileSet(in1)) ==> e in LevelEntries(v, level + 1)
  {
    assert FileSet(in1) <= FileSet(v.files[level + 1]);
  }

  /** Where an entry of the new version comes from. */
  datatype Origin = FromOutputs | FromRest | FromOther(level: nat)

  lemma OriginOf(v: Version, level: nat, in0: seq<FileMeta>, in1: seq<FileMeta>, outs: seq<FileMeta>, v': Version,
                 x: Entry)
    returns (o: Origin)
    requires Replaces(v, level, in0, in1, outs, v') && x in AllEntries(v')
    ensures o.FromOutputs? ==> x in Contents(FileSet(outs))
    ensures o.FromRest? ==> x in Contents(Rest(v, level + 1, in1))
    ensures o.FromOther? ==> o.level < NUM_LEVELS && o.level != level + 1 && x in LevelEntries(v, o.level)
    ensures o.FromOther? && o.level == level ==> x in Contents(Rest(v, level, in0))
  {
    var i :| 0 <= i < |v'.files| && x in LevelEntries(v', i);
    var f :| f in FileSet(v'.files[i]) && x in f.entries;
    if i == level + 1 {
      o := if f in FileSet(outs) then FromOutputs else FromRest;
    } else {
      o := FromOther(i);
    }
  }

  /** Above the output level only strictly newer entries of an input entry's user key survive. */
  lemma AboveOutputsIsNewer(v: Version, level: nat, in0: seq<FileMeta>, in1: seq<FileMeta>, e: Entry, i: nat, x: Entry)
    requires LevelOrder(v) && LegalInputs(v, level, in0, in1) && e in InputEntries(in0, in1)
    requires i < NUM_LEVELS && x in LevelEntries(v, i) && x.key.user == e.key.user
    requires i == level ==> x in Contents(Rest(v, level, in0))
    requires i <= level
    ensures x.key.sequence > e.key.sequence
  {
    InputLevel(v, level, in0, in1, e);
    assert i < level ==> NewerThan(LevelEntries(v, i), LevelEntries(v, level));
    assert NewerThan(LevelEntries(v, i), LevelEntries(v, level + 1));
  }

  /** A deeper entry of the user key contradicts the base-level test. */
  lemma BaseHasNothingDeeper(v: Version, level: nat, k: UserKey, i: nat, x: Entry)
    requires ValidVersion(v) && BaseLevelForKey(v, level, k)
    requires level + 2 <= i < NUM_LEVELS && x in LevelEntries(v, i)
    ensures x.key.user != k
  {
    var f :| f in FileSet(v.files[i]) && x in f.entries;
    EntryInRange(f, x);
    assert !Covers(f, k);
  }

  /** Nothing as old as a dropped tombstone is written to the outputs. */
  lemma OutputsAreNewer(v: Version, level: nat, snapshot: SequenceNumber,
                        in0: seq<FileMeta>, in1: seq<FileMeta>, outs: seq<FileMeta>, v': Version, e: Entry, x: Entry)
    requires UniqueStamps(AllEntries(v)) && Compacts(v, level, snapshot, in0, in1, outs, v')
    requires e in InputEntries(in0, in1) && ObsoleteTombstone(v, level, snapshot, e)
    requires x in Contents(FileSet(outs)) && x.key.user == e.key.user
    ensures x.key.sequence > e.key.sequence
  {
    InputLevel(v, level, in0, in1, e);
    InputLevel(v, level, in0, in1, x);
  }

  /** Where an entry as old as a dropped tombstone can still live: only in the untouched files one level down. */
  lemma OlderSurvivorIsBelow(upper: set<Entry>, v: Version, level: nat, snapshot: SequenceNumber,
                             in0: seq<FileMeta>, in1: seq<FileMeta>, outs: seq<FileMeta>, v': Version, e: Entry,
                             x: Entry)
    requires ValidVersion(v) && NewerThan(upper, AllEntries(v)) && Compacts(v, level, snapshot, in0, in1, outs, v')
    requires e in InputEntries(in0, in1) && ObsoleteTombstone(v, level, snapshot, e)
    requires x in upper + AllEntries(v') && x.key.user == e.key.user && x.key.sequence <= e.key.sequence
    ensures x in Contents(Rest(v, level + 1, in1))
  {
    InputLevel(v, level, in0, in1, e);
    assert x in AllEntries(v');
    var o := OriginOf(v, level, in0, in1, outs, v', x);
    if o.FromOutputs? {
      OutputsAreNewer(v, level, snapshot, in0, in1, outs, v', e, x);
    } else if o.FromOther? {
      if o.level <= level {
        AboveOutputsIsNewer(v, level, in0, in1, e, o.level, x);
      } else {
        BaseHasNothingDeeper(v, level, e.key.user, o.level, x);
      }
    }
  }

  /** Nothing appears from nowhere. */
  lemma NothingNew(v: Version, level: nat, snapshot: SequenceNumber,
                   in0: seq<FileMeta>, in1: seq<FileMeta>, outs: seq<FileMeta>, v': Version, x: Entry)
    requires Compacts(v, level, snapshot, in0, in1, outs, v') && x in AllEntries(v')
    ensures x in AllEntries(v)
  {
    var o := OriginOf(v, level, in0, in1, outs, v', x);
    if o.FromOutputs? {
      InputLevel(v, level, in0, in1, x);
    } else if o.FromRest? {
      assert x in LevelEntries(v, level + 1);
    }
  }

  /** Only dropped input entries disappear. */
  lemma OnlyDroppedVanish(v: Version, level: nat, snapshot: SequenceNumber,
                          in0: seq<FileMeta>, in1: seq<FileMeta>, outs: seq<FileMeta>, v': Version, x: Entry)
    requires Compacts(v, level, snapshot, in0, in1, outs, v') && x in AllEntries(v)
    ensures x in AllEntries(v')
            || (x in InputEntries(in0, in1) && Dropped(v, level, snapshot, InputEntries(in0, in1), x))
  {
    var i :| 0 <= i < |v.files| && x in LevelEntries(v, i);
    var f :| f in FileSet(v.files[i]) && x in f.entries;
    if f in FileSet(v'.files[i]) {
      assert x in LevelEntries(v', i);
    } else {
      assert x in InputEntries(in0, in1);
      if !Dropped(v, level, snapshot, InputEntries(in0, in1), x) {
        assert x in Contents(FileSet(outs));
        assert x in LevelEntries(v', level + 1);
      }
    }
  }

  ghost predicate ReadsPreserved(upper: set<Entry>, v: Version, v': Version, snapshot: SequenceNumber) {
    forall k: UserKey, s: SequenceNumber :: s >= snapshot ==>
      Answer(upper + AllEntries(v'), k, s) == Answer(upper + AllEntries(v), k, s)
  }

  /**
   The compaction would uncover `k`: what a read at the smallest snapshot sees is a tombstone among the inputs that no
   deeper level backs, and the newest entry of `k` in the untouched files of `level + 1` is a value.
   */
  ghost predicate Uncovers(upper: set<Entry>, v: Version, level: nat, snapshot: SequenceNumber,
                           in0: seq<FileMeta>, in1: seq<FileMeta>, k: UserKey)
    requires level + 1 < |v.files|
  {
    exists e, p ::
      && Newest(upper + AllEntries(v), k, snapshot, e)
      && e in InputEntries(in0, in1) && ObsoleteTombstone(v, level, snapshot, e)
      && Newest(Contents(Rest(v, level + 1, in1)), k, snapshot, p) && p.key.kind.Value?
  }

  /** One read, compaction not uncovering its key. */
  lemma ReadPreserved(upper: set<Entry>, v: Version, level: nat, snapshot: SequenceNumber,
                      in0: seq<FileMeta>, in1: seq<FileMeta>, outs: seq<FileMeta>, v': Version,
                      k: UserKey, s: SequenceNumber)
    requires ValidVersion(v) && UniqueStamps(upper + AllEntries(v)) && NewerThan(upper, AllEntries(v))
    requires Compacts(v, level, snapshot, in0, in1, outs, v') && s >= snapshot
    requires !Uncovers(upper, v, level, snapshot, in0, in1, k)
    ensures Answer(upper + AllEntries(v'), k, s) == Answer(upper + AllEntries(v), k, s)
  {
    var before, after := upper + AllEntries(v), upper + AllEntries(v');
    forall x | x in after
      ensures x in before
    {
      if x !in upper { NothingNew(v, level, snapshot, in0, in1, outs, v', x); }
    }
    var e := NewestExists(before, k, s);
    if e.None? {
      AnswerAbsent(before, k, s);
      AnswerAbsent(after, k, s);
    } else if e.value in after {
      AnswerIs(before, k, s, e.value);
      AnswerIs(after, k, s, e.value);
    } else {
      OnlyDroppedVanish(v, level, snapshot, in0, in1, outs, v', e.value);
      NewestDroppedIsObsolete(upper, v, level, snapshot, in0, in1, k, s, e.value);
      AnswerIs(before, k, s, e.value);
      TombstoneStaysHidden(upper, v, level, snapshot, in0, in1, outs, v', k, s, e.value);
    }
  }

  /** The newest entry overall can only have been dropped as an obsolete tombstone. */
  lemma NewestDroppedIsObsolete(upper: set<Entry>, v: Version, level: nat, snapshot: SequenceNumber,
                                in0: seq<FileMeta>, in1: seq<FileMeta>, k: UserKey, s: SequenceNumber, e: Entry)
    requires LegalInputs(v, level, in0, in1) && s >= snapshot
    requires Newest(upper + AllEntries(v), k, s, e)
    requires e in InputEntries(in0, in1) && Dropped(v, level, snapshot, InputEntries(in0, in1), e)
    ensures ObsoleteTombstone(v, level, snapshot, e)
  {
    forall x | x in InputEntries(in0, in1) && x.key.user == k && x.key.sequence <= snapshot
      ensures x.key.sequence <= e.key.sequence
    {
      InputLevel(v, level, in0, in1, x);
      assert x in upper + AllEntries(v) && Matches(x, k, s);
    }
  }

  lemma TombstoneStaysHidden(upper: set<Entry>, v: Version, level: nat, snapshot: SequenceNumber,
                             in0: seq<FileMeta>, in1: seq<FileMeta>, outs: seq<FileMeta>, v': Version,
                             k: UserKey, s: SequenceNumber, e: Entry)
    requires ValidVersion(v) && UniqueStamps(upper + AllEntries(v)) && NewerThan(upper, AllEntries(v))
    requires Compacts(v, level, snapshot, in0, in1, outs, v') && s >= snapshot
    requires !Uncovers(upper, v, level, snapshot, in0, in1, k)
    requires upper + AllEntries(v') <= upper + AllEntries(v)
    requires Newest(upper + AllEntries(v), k, s, e)
    requires e in InputEntries(in0, in1) && ObsoleteTombstone(v, level, snapshot, e)
    ensures Answer(upper + AllEntries(v'), k, s) == None
  {
    var before, after := upper + AllEntries(v), upper + AllEntries(v');
    assert Newest(before, k, snapshot, e);
    var q := NewestExists(after, k, s);
    if q.None? {
      AnswerAbsent(after, k, s);
    } else {
      var p := q.value;
      assert UniqueStamps(after);
      AnswerIs(after, k, s, p);
      assert p in before && Matches(p, k, s);
      OlderSurvivorIsBelow(upper, v, level, snapshot, in0, in1, outs, v', e, p);
      NewestInRest(upper, v, level, in0, in1, outs, v', k, s, snapshot, p);
    }
  }

  /** The newest survivor, if it lies in the untouched files, is the newest there too. */
  lemma NewestInRest(upper: set<Entry>, v: Version, level: nat, in0: seq<FileMeta>, in1: seq<FileMeta>,
                     outs: seq<FileMeta>,
                     v': Version, k: UserKey, s: SequenceNumber, snapshot: SequenceNumber, p: Entry)
    requires Replaces(v, level, in0, in1, outs, v') && snapshot <= s
    requires Newest(upper + AllEntries(v'), k, s, p) && p.key.sequence <= snapshot
    requires p in Contents(Rest(v, level + 1, in1))
    ensures Newest(Contents(Rest(v, level + 1, in1)), k, snapshot, p)
  {
    forall x | x in Contents(Rest(v, level + 1, in1)) && Matches(x, k, snapshot)
      ensures x.key.sequence <= p.key.sequence
    {
      RestStays(v, level, in0, in1, outs, v', x);
      assert x in upper + AllEntries(v') && Matches(x, k, s);
    }
  }

  lemma RestStays(v: Version, level: nat, in0: seq<FileMeta>, in1: seq<FileMeta>, outs: seq<FileMeta>, v': Version,
                  x: Entry)
    requires Replaces(v, level, in0, in1, outs, v') && x in Contents(Rest(v, level + 1, in1))
    ensures x in AllEntries(v')
  {
    assert x in LevelEntries(v', level + 1);
  }

  /** One read whose key the compaction uncovers changes its answer at the smallest snapshot. */
  lemma ReadUncovered(upper: set<Entry>, v: Version, level: nat, snapshot: SequenceNumber,
                      in0: seq<FileMeta>, in1: seq<FileMeta>, outs: seq<FileMeta>, v': Version, k: UserKey)
    requires ValidVersion(v) && UniqueStamps(upper + AllEntries(v)) && NewerThan(upper, AllEntries(v))
    requires Compacts(v, level, snapshot, in0, in1, outs, v')
    requires Uncovers(upper, v, level, snapshot, in0, in1, k)
    ensures Answer(upper + AllEntries(v), k, snapshot) == None
    ensures Answer(upper + AllEntries(v'), k, snapshot).Some?
  {
    var before, after := upper + AllEntries(v), upper + AllEntries(v');
    var rest := Contents(Rest(v, level + 1, in1));
    var e, p :| Newest(before, k, snapshot, e) && e in InputEntries(in0, in1)
                && ObsoleteTombstone(v, level, snapshot, e) && Newest(rest, k, snapshot, p) && p.key.kind.Value?;
    AnswerIs(before, k, snapshot, e);
    RestStays(v, level, in0, in1, outs, v', p);
    assert after <= before by {
      forall x | x in after
        ensures x in before
      {
        if x !in upper { NothingNew(v, level, snapshot, in0, in1, outs, v', x); }
      }
    }
    forall x | x in after && Matches(x, k, snapshot)
      ensures x.key.sequence <= p.key.sequence
    {
      assert x in before && x.key.sequence <= e.key.sequence;
      OlderSurvivorIsBelow(upper, v, level, snapshot, in0, in1, outs, v', e, x);
    }
    assert p in after && Matches(p, k, snapshot);
    assert UniqueStamps(after);
    AnswerIs(after, k, snapshot, p);
  }

  /** A compaction preserves every read at or above the smallest snapshot exactly when it uncovers no key. */
  lemma CompactionPreservesReadsIff(upper: set<Entry>, v: Version, level: nat, snapshot: SequenceNumber,
                                    in0: seq<FileMeta>, in1: seq<FileMeta>, outs: seq<FileMeta>, v': Version)
    requires ValidVersion(v) && UniqueStamps(upper + AllEntries(v)) && NewerThan(upper, AllEntries(v))
    requires Compacts(v, level, snapshot, in0, in1, outs, v')
    ensures ReadsPreserved(upper, v, v', snapshot) <==> forall k :: !Uncovers(upper, v, level, snapshot, in0, in1, k)
  {
    forall k | Uncovers(upper, v, level, snapshot, in0, in1, k)
      ensures Answer(upper + AllEntries(v'), k, snapshot) != Answer(upper + AllEntries(v), k, snapshot)
    {
      ReadUncovered(upper, v, level, snapshot, in0, in1, outs, v', k);
    }
    if forall k :: !Uncovers(upper, v, level, snapshot, in0, in1, k) {
      forall k: UserKey, s: SequenceNumber | s >= snapshot
        ensures Answer(upper + AllEntries(v'), k, s) == Answer(upper + AllEntries(v), k, s)
      {
        ReadPreserved(upper, v, level, snapshot, in0, in1, outs, v', k, s);
      }
    }
  }
}
