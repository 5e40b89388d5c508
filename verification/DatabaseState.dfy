/**
 The state of a database between background steps and what every step keeps (db/db_impl.cc).

 `written` is the set of all entries ever written.  The invariant is that stored entries keep their shape
 and age order; the safety property is that reads at or above the oldest live snapshot give the answers `written`
 gives.
 */
module DatabaseState {
  import opened Keys
  import opened Lookup
  import opened Runs
  import opened Versions
  import opened Inputs
  import opened CompactionInputs
  import opened CompactionSetup
  import opened Compactions
  import opened CompactionReads
  import opened CompactionOrder
  import opened VersionBuilder
  import opened Edits

  datatype State = State(mem: seq<Entry>, imm: Option<seq<Entry>>, version: Version,
                         lastSequence: SequenceNumber, nextFile: nat, snapshots: seq<SequenceNumber>)

  ghost function ImmEntries(s: State): set<Entry> {
    if s.imm.Some? then EntrySet(s.imm.value) else {}
  }

  /** Everything above the version. */
  ghost function Upper(s: State): set<Entry> {
    EntrySet(s.mem) + ImmEntries(s)
  }

  ghost function Stored(s: State): set<Entry> {
    Upper(s) + AllEntries(s.version)
  }

  /** The smallest snapshot a compaction would use: the oldest live one, else the last sequence. */
  function Floor(s: State): SequenceNumber {
    if s.snapshots == [] then s.lastSequence else s.snapshots[0]
  }

  /** The sequences a read may use: the latest, that of a live snapshot, or any in between or after. */
  ghost predicate Readable(s: State, q: SequenceNumber) {
    q >= s.lastSequence || exists i :: 0 <= i < |s.snapshots| && q >= s.snapshots[i]
  }

  /** The floor protects what may be read and nothing more. */
  lemma FloorIsReadable(s: State, q: SequenceNumber)
    requires SnapshotsOrdered(s)
    ensures Readable(s, q) <==> q >= Floor(s)
  {
    if s.snapshots != [] && q >= Floor(s) { assert q >= s.snapshots[0]; }
  }

  ghost predicate StampedUpTo(es: set<Entry>, n: nat) {
    forall e :: e in es ==> e.key.sequence <= n
  }

  ghost predicate Aged(s: State) {
    && NewerThan(EntrySet(s.mem), ImmEntries(s))
    && NewerThan(EntrySet(s.mem), AllEntries(s.version))
    && NewerThan(ImmEntries(s), AllEntries(s.version))
  }

  ghost predicate SnapshotsOrdered(s: State) {
    && (forall i, j :: 0 <= i < j < |s.snapshots| ==> s.snapshots[i] <= s.snapshots[j])
    && (forall i :: 0 <= i < |s.snapshots| ==> s.snapshots[i] <= s.lastSequence)
  }

  /** The invariant of every reachable state. */
  ghost predicate Shape(s: State) {
    && Sorted(s.mem) && (s.imm.Some? ==> Sorted(s.imm.value))
    && ValidVersion(s.version) && Listed(s.version) && NumbersBelow(s.version, s.nextFile)
    && Aged(s)
    && UniqueStamps(Stored(s)) && StampedUpTo(Stored(s), s.lastSequence)
    && SnapshotsOrdered(s)
    && s.lastSequence < MAX_SEQUENCE
  }

  /** The safety property: every read a live snapshot or the latest state may make is answered as written. */
  ghost predicate Agrees(s: State, written: set<Entry>) {
    forall k: UserKey, q: SequenceNumber :: q >= Floor(s) ==> Answer(Stored(s), k, q) == Answer(written, k, q)
  }

  ghost predicate Recorded(s: State, written: set<Entry>) {
    UniqueStamps(written) && StampedUpTo(written, s.lastSequence) && Stored(s) <= written
  }

  const EMPTY: State := State([], None, Version([[], [], [], [], [], [], []]), 0, 2, [])

  lemma NoFilesNoEntries(v: Version)
    requires forall i :: 0 <= i < |v.files| ==> v.files[i] == []
    ensures AllEntries(v) == {}
  {
    forall i | 0 <= i < |v.files|
      ensures LevelEntries(v, i) == {}
    {
      assert FileSet(v.files[i]) == {};
    }
  }

  lemma EmptyState()
    ensures Shape(EMPTY) && Stored(EMPTY) == {} && Recorded(EMPTY, {}) && Agrees(EMPTY, {})
  {
    NoFilesNoEntries(EMPTY.version);
    assert forall i, f :: !FileAt(EMPTY.version, i, f);
  }

  /** The invariant, the history, and the safety property unless a compaction has uncovered a key. */
  ghost predicate Sound(s: State, written: set<Entry>, uncovered: bool) {
    Shape(s) && Recorded(s, written) && (!uncovered ==> Agrees(s, written))
  }

  lemma SoundFacts(s: State, written: set<Entry>, uncovered: bool)
    requires Sound(s, written, uncovered)
    ensures Sorted(s.mem) && (s.imm.Some? ==> Sorted(s.imm.value)) && Aged(s)
    ensures ValidVersion(s.version) && Listed(s.version) && NumbersBelow(s.version, s.nextFile)
            && |s.version.files| == NUM_LEVELS
    ensures !uncovered ==> Agrees(s, written)
    ensures s.lastSequence < MAX_SEQUENCE && Floor(s) < MAX_SEQUENCE && UniqueStamps(Stored(s)) && SnapshotsOrdered(s)
  {
  }

  /** A step that stores the same entries and does not lower the floor keeps a sound state sound. */
  lemma SameEntriesSound(s: State, written: set<Entry>, uncovered: bool, s': State)
    requires Sound(s, written, uncovered) && Shape(s') && Stored(s') == Stored(s)
    requires s'.lastSequence == s.lastSequence && Floor(s') >= Floor(s)
    ensures Sound(s', written, uncovered)
  {
  }

  // ---------- writes ----------

  /** Adding an entry newer than all others to two agreeing sets keeps them agreeing. */
  lemma NewestEntryAgrees(a: set<Entry>, b: set<Entry>, e: Entry, k: UserKey, q: SequenceNumber)
    requires UniqueStamps(a + {e}) && UniqueStamps(b + {e})
    requires forall x :: x in a + b ==> x.key.sequence < e.key.sequence
    requires Answer(a, k, q) == Answer(b, k, q)
    ensures Answer(a + {e}, k, q) == Answer(b + {e}, k, q)
  {
    if Matches(e, k, q) {
      assert Newest(a + {e}, k, q, e) && Newest(b + {e}, k, q, e);
      AnswerIs(a + {e}, k, q, e);
      AnswerIs(b + {e}, k, q, e);
    } else {
      NonMatchingEntry(a, e, k, q);
      NonMatchingEntry(b, e, k, q);
    }
  }

  lemma NonMatchingEntry(a: set<Entry>, e: Entry, k: UserKey, q: SequenceNumber)
    requires UniqueStamps(a + {e}) && !Matches(e, k, q)
    ensures Answer(a + {e}, k, q) == Answer(a, k, q)
  {
    var n := NewestExists(a, k, q);
    if n.Some? {
      assert Newest(a + {e}, k, q, n.value);
      AnswerIs(a, k, q, n.value);
      AnswerIs(a + {e}, k, q, n.value);
    } else {
      AnswerAbsent(a, k, q);
      AnswerAbsent(a + {e}, k, q);
    }
  }

  /** `s'` is `s` with one more entry in the memtable, stamped with the next sequence number. */
  ghost predicate Writes(s: State, e: Entry, s': State) {
    && e.key.sequence == s.lastSequence + 1 < MAX_SEQUENCE
    && s' == s.(mem := s'.mem, lastSequence := e.key.sequence)
    && Sorted(s'.mem) && EntrySet(s'.mem) == EntrySet(s.mem) + {e}
  }

  lemma InsertWrites(s: State, e: Entry)
    requires Shape(s) && e.key.sequence == s.lastSequence + 1 < MAX_SEQUENCE
    ensures Writes(s, e, s.(mem := InsertEntry(s.mem, e), lastSequence := e.key.sequence))
  {
    forall x | x in s.mem
      ensures x.key != e.key
    {
      assert x in Stored(s);
    }
    InsertEntrySorted(s.mem, e);
  }

  lemma WriteShape(s: State, e: Entry, s': State)
    requires Shape(s) && Writes(s, e, s')
    ensures Shape(s') && Stored(s') == Stored(s) + {e}
  {
    hide ValidVersion, Sorted, Listed, NumbersBelow;
    assert Stored(s') == Stored(s) + {e};
    assert forall x :: x in ImmEntries(s) + AllEntries(s.version) ==> x in Stored(s);
  }

  lemma WriteAgrees(s: State, written: set<Entry>, e: Entry, s': State)
    requires Shape(s) && Recorded(s, written) && Writes(s, e, s') && Stored(s') == Stored(s) + {e}
    requires Agrees(s, written)
    ensures Agrees(s', written + {e})
  {
    forall k: UserKey, q: SequenceNumber | q >= Floor(s')
      ensures Answer(Stored(s'), k, q) == Answer(written + {e}, k, q)
    {
      NewestEntryAgrees(Stored(s), written, e, k, q);
    }
  }

  /** One write: the invariant and the safety property carry over to the extended history. */
  lemma WriteKeeps(s: State, written: set<Entry>, uncovered: bool, e: Entry, s': State)
    requires Sound(s, written, uncovered) && Writes(s, e, s')
    ensures Sound(s', written + {e}, uncovered)
  {
    WriteShape(s, e, s');
    if !uncovered {
      WriteAgrees(s, written, e, s');
    }
  }

  /** MakeRoomForWrite's switch to a new memtable changes no read. */
  lemma SwitchKeeps(s: State, written: set<Entry>, uncovered: bool)
    requires Sound(s, written, uncovered) && s.imm.None?
    ensures Sound(s.(imm := Some(s.mem), mem := []), written, uncovered)
    ensures Stored(s.(imm := Some(s.mem), mem := [])) == Stored(s)
  {
    var s' := s.(imm := Some(s.mem), mem := []);
    assert Stored(s') == Stored(s);
    SameEntriesSound(s, written, uncovered, s');
  }

  /** Dropping an empty immutable memtable changes no read. */
  lemma DropEmptyKeeps(s: State, written: set<Entry>, uncovered: bool)
    requires Sound(s, written, uncovered) && s.imm == Some([])
    ensures Sound(s.(imm := None, nextFile := s.nextFile + 1), written, uncovered)
    ensures Stored(s.(imm := None, nextFile := s.nextFile + 1)) == Stored(s)
  {
    var s' := s.(imm := None, nextFile := s.nextFile + 1);
    assert Stored(s') == Stored(s);
    SameEntriesSound(s, written, uncovered, s');
  }

  // ---------- background work ----------

  lemma FlushShape(s: State, level: nat, f: FileMeta, v': Version)
    requires Shape(s) && s.imm.Some? && level < NUM_LEVELS
    requires ValidFile(f) && f.entries == s.imm.value && f.number == s.nextFile && ClearDownTo(s.version, level, f)
    requires Installs(s.version, FlushEdit(level, f), v')
    ensures var s' := s.(imm := None, version := v', nextFile := s.nextFile + 1);
            Shape(s') && Stored(s') == Stored(s)
  {
    var s' := s.(imm := None, version := v', nextFile := s.nextFile + 1);
    assert EntrySet(f.entries) + AllEntries(s.version) <= Stored(s);
    FlushKeepsVersionValid(s.version, level, f, v');
    FlushOrdering(s.version, level, f, v');
    assert Stored(s') == Stored(s);
  }

  /** A flush stores the same entries. */
  lemma FlushKeeps(s: State, written: set<Entry>, uncovered: bool, level: nat, f: FileMeta, v': Version)
    requires Sound(s, written, uncovered) && s.imm.Some? && level < NUM_LEVELS
    requires ValidFile(f) && f.entries == s.imm.value && f.number == s.nextFile && ClearDownTo(s.version, level, f)
    requires Installs(s.version, FlushEdit(level, f), v')
    ensures Sound(s.(imm := None, version := v', nextFile := s.nextFile + 1), written, uncovered)
    ensures Stored(s.(imm := None, version := v', nextFile := s.nextFile + 1)) == Stored(s)
  {
    FlushShape(s, level, f, v');
    SameEntriesSound(s, written, uncovered, s.(imm := None, version := v', nextFile := s.nextFile + 1));
  }

  /** Replacing the version by one with fewer entries keeps the shape. */
  lemma ShrinkKeepsShape(s: State, v': Version, nextFile: nat)
    requires Shape(s) && ValidVersion(v') && Listed(v') && NumbersBelow(v', nextFile)
    requires AllEntries(v') <= AllEntries(s.version)
    ensures Shape(s.(version := v', nextFile := nextFile))
  {
    assert Stored(s.(version := v', nextFile := nextFile)) <= Stored(s);
  }

  lemma NumbersStayBelow(v: Version, level: nat, in0: seq<FileMeta>, in1: seq<FileMeta>, outs: seq<FileMeta>,
                         v': Version,
                         n: nat, n': nat)
    requires NumbersBelow(v, n) && n <= n' && Replaces(v, level, in0, in1, outs, v')
    requires forall f :: f in outs ==> f.number < n'
    ensures NumbersBelow(v', n')
  {
    forall i, f | FileAt(v', i, f)
      ensures FileAt(v, i, f) || f in outs
    {
      assert f in FileSet(v'.files[i]);
    }
  }

  /** A compaction keeps the shape, and keeps the reads exactly when it uncovers no key. */
  lemma CompactionShape(s: State, written: set<Entry>, level: nat, in0: seq<FileMeta>, in1: seq<FileMeta>,
                        outs: seq<FileMeta>, v': Version, nextFile: nat)
    requires Shape(s) && Compacts(s.version, level, Floor(s), in0, in1, outs, v')
    requires ValidFiles(FileSet(outs)) && PairwiseDisjoint(FileSet(outs)) && UniqueNumbers(v') && Listed(v')
    requires s.nextFile <= nextFile && forall f :: f in outs ==> f.number < nextFile
    ensures Shape(s.(version := v', nextFile := nextFile))
    ensures Stored(s.(version := v', nextFile := nextFile)) <= Stored(s)
    ensures Agrees(s, written) ==>
              (Agrees(s.(version := v', nextFile := nextFile), written)
               <==> forall k :: !Uncovers(Upper(s), s.version, level, Floor(s), in0, in1, k))
  {
    hide ValidVersion, Sorted, LegalInputs, Uncovers, Dropped;
    var s' := s.(version := v', nextFile := nextFile);
    CompactionKeepsVersionValid(s.version, level, in0, in1, outs, v');
    NumbersStayBelow(s.version, level, in0, in1, outs, v', s.nextFile, nextFile);
    ShrinkKeepsShape(s, v', nextFile);
    UpperIsNewer(s);
    CompactionPreservesReadsIff(Upper(s), s.version, level, Floor(s), in0, in1, outs, v');
    assert Upper(s') == Upper(s) && Floor(s') == Floor(s);
    assert Agrees(s, written) ==> (Agrees(s', written) <==> ReadsPreserved(Upper(s), s.version, v', Floor(s)));
  }

  ghost predicate UncoversSome(s: State, level: nat, in0: seq<FileMeta>, in1: seq<FileMeta>) {
    level + 1 < |s.version.files| && exists k :: Uncovers(Upper(s), s.version, level, Floor(s), in0, in1, k)
  }

  lemma CompactionKeeps(s: State, written: set<Entry>, uncovered: bool, level: nat, in0: seq<FileMeta>,
                        in1: seq<FileMeta>,
                        outs: seq<FileMeta>, v': Version, nextFile: nat)
    requires Sound(s, written, uncovered) && Compacts(s.version, level, Floor(s), in0, in1, outs, v')
    requires ValidFiles(FileSet(outs)) && PairwiseDisjoint(FileSet(outs)) && UniqueNumbers(v') && Listed(v')
    requires s.nextFile <= nextFile && forall f :: f in outs ==> f.number < nextFile
    ensures Sound(s.(version := v', nextFile := nextFile), written, uncovered || UncoversSome(s, level, in0, in1))
    ensures Stored(s.(version := v', nextFile := nextFile)) <= Stored(s)
  {
    CompactionShape(s, written, level, in0, in1, outs, v', nextFile);
  }

  lemma UpperIsNewer(s: State)
    requires Aged(s)
    ensures NewerThan(Upper(s), AllEntries(s.version))
  {
  }

  /** A trivial move stores the same entries. */
  lemma MoveShape(s: State, level: nat, f: FileMeta, v': Version)
    requires Shape(s) && LegalInputs(s.version, level, [f], []) && UniqueNumbers(v') && Listed(v')
    requires Replaces(s.version, level, [f], [], [f], v')
    ensures Shape(s.(version := v')) && Stored(s.(version := v')) == Stored(s)
  {
    assert FileSet([f]) == {f} && f in FileSet(s.version.files[level]);
    assert Contents({f}) <= InputEntries([f], []);
    assert FileAt(s.version, level, f);
    CompactionKeepsVersionValid(s.version, level, [f], [], [f], v');
    NumbersStayBelow(s.version, level, [f], [], [f], v', s.nextFile, s.nextFile);
    ShrinkKeepsShape(s, v', s.nextFile);
    MoveKeepsEntries(s.version, level, f, v');
    assert Stored(s.(version := v')) == Stored(s);
  }

  lemma MoveKeeps(s: State, written: set<Entry>, uncovered: bool, level: nat, f: FileMeta, v': Version)
    requires Sound(s, written, uncovered) && LegalInputs(s.version, level, [f], []) && UniqueNumbers(v') && Listed(v')
    requires Replaces(s.version, level, [f], [], [f], v')
    ensures Sound(s.(version := v'), written, uncovered) && Stored(s.(version := v')) == Stored(s)
  {
    MoveShape(s, level, f, v');
    SameEntriesSound(s, written, uncovered, s.(version := v'));
  }

  lemma MoveKeepsEntries(v: Version, level: nat, f: FileMeta, v': Version)
    requires Replaces(v, level, [f], [], [f], v')
    ensures AllEntries(v) <= AllEntries(v')
  {
    forall x | x in AllEntries(v)
      ensures x in AllEntries(v')
    {
      var i :| 0 <= i < |v.files| && x in LevelEntries(v, i);
      var g :| g in FileSet(v.files[i]) && x in g.entries;
      var j := if i == level && g == f then level + 1 else i;
      assert f in FileSet([f]) && FileSet([]) == {};
      assert g in FileSet(v'.files[j]);
      assert x in LevelEntries(v', j);
    }
  }

  // ---------- snapshots ----------

  lemma TakeKeeps(s: State, written: set<Entry>, uncovered: bool)
    requires Sound(s, written, uncovered)
    ensures Sound(s.(snapshots := s.snapshots + [s.lastSequence]), written, uncovered)
  {
    var s' := s.(snapshots := s.snapshots + [s.lastSequence]);
    assert Stored(s') == Stored(s);
    SameEntriesSound(s, written, uncovered, s');
  }

  lemma ReleaseKeeps(s: State, written: set<Entry>, uncovered: bool, i: nat)
    requires Sound(s, written, uncovered) && i < |s.snapshots|
    ensures Sound(s.(snapshots := s.snapshots[..i] + s.snapshots[i + 1..]), written, uncovered)
  {
    var s' := s.(snapshots := s.snapshots[..i] + s.snapshots[i + 1..]);
    assert Stored(s') == Stored(s);
    assert forall j :: 0 <= j < |s'.snapshots| ==> s'.snapshots[j] == s.snapshots[if j < i then j else j + 1];
    SameEntriesSound(s, written, uncovered, s');
  }

  // ---------- reads ----------

  /** A read that consults mem, imm and the version in this order finds the newest stored entry. */
  lemma MemThenImmThenVersion(s: State, k: UserKey, q: SequenceNumber, e: Entry)
    requires Aged(s)
    ensures Newest(EntrySet(s.mem), k, q, e) ==> Newest(Stored(s), k, q, e)
    ensures Absent(EntrySet(s.mem), k, q) && Newest(ImmEntries(s), k, q, e) ==> Newest(Stored(s), k, q, e)
    ensures Absent(EntrySet(s.mem), k, q) && Absent(ImmEntries(s), k, q) && Newest(AllEntries(s.version), k, q, e) ==>
              Newest(Stored(s), k, q, e)
  {
    var rest := ImmEntries(s) + AllEntries(s.version);
    assert Stored(s) == EntrySet(s.mem) + rest;
    NewestInUnion(ImmEntries(s), AllEntries(s.version), k, q, e);
    NewestInUnion(EntrySet(s.mem), rest, k, q, e);
  }
}
