/**
 The database object (db/db_impl.cc): writes, memtable switches, flushes, compactions, snapshots and reads.
 Every background job is one atomic version change.
 */
module Database {
  import opened Keys
  import opened Lookup
  import opened Versions
  import opened Inputs
  import opened CompactionInputs
  import opened CompactionSetup
  import opened Compactions
  import opened CompactionReads
  import opened CompactionOrder
  import opened VersionBuilder
  import opened Edits
  import opened EditLogs
  import opened Runs
  import opened InputMerge
  import opened Outputs
  import opened DatabaseState
  import opened Batches

  /** How a background compaction was asked for. */
  datatype Request =
    | Automatic(trigger: Trigger)
    | Manual(level: nat, begin: Option<UserKey>, end: Option<UserKey>)

  /** Sizes that steer heuristics only. */
  datatype Limits = Limits(maxGrandparentBytes: nat, expandedByteLimit: nat, fileSizeLimit: nat)

  /** What a background job did. */
  datatype Job =
    | Nothing
    | Moved(level: nat, file: FileMeta)
    | Rewrote(level: nat, in0: seq<FileMeta>, in1: seq<FileMeta>, outs: seq<FileMeta>)

  class Db {
    var mem: seq<Entry>
    var imm: Option<seq<Entry>>
    var version: Version
    var lastSequence: SequenceNumber
    var nextFile: nat
    var snapshots: seq<SequenceNumber>
    /** All entries ever written. */
    ghost var written: set<Entry>
    /** Some compaction so far has uncovered a key. */
    ghost var uncovered: bool
    /** The version edits installed so far and the versions they led through. */
    ghost var edits: seq<Edit>
    ghost var versions: seq<Version>

    function Abs(): State
      reads this
    {
      State(mem, imm, version, lastSequence, nextFile, snapshots)
    }

    ghost predicate Valid()
      reads this
    {
      Sound(Abs(), written, uncovered) && Logged(edits, versions, version, nextFile)
    }

    constructor ()
      ensures Valid() && Abs() == EMPTY && written == {} && !uncovered && edits == []
    {
      mem, imm, version := [], None, Version([[], [], [], [], [], [], []]);
      lastSequence, nextFile, snapshots := 0, 2, [];
      written, uncovered := {}, false;
      edits, versions := [], [Version([[], [], [], [], [], [], []])];
      new;
      EmptyState();
      NothingLogged(version);
    }

    /** MemTable::Add for one operation of a batch. */
    method WriteOne(op: Op)
      requires Valid() && lastSequence + 1 < MAX_SEQUENCE
      modifies this`mem, this`lastSequence, this`written
      ensures Valid() && lastSequence == old(lastSequence) + 1
      ensures written == old(written) + {OpEntry(op, lastSequence)}
      ensures EntrySet(mem) == EntrySet(old(mem)) + {OpEntry(op, lastSequence)}
    {
      var e := OpEntry(op, lastSequence + 1);
      ghost var before, history := Abs(), written;
      InsertWrites(before, e);
      mem, lastSequence := InsertEntry(mem, e), lastSequence + 1;
      WriteKeeps(before, history, uncovered, e, Abs());
      written := written + {e};
    }

    /**
     Apply a batch: its operations get consecutive sequence numbers after the last one.  Reads then see, for every key
     of the batch, the last operation on it, in the history and in what is stored; other reads are as before.
     */
    method Write(batch: seq<Op>)
      requires Valid() && lastSequence + |batch| < MAX_SEQUENCE
      modifies this`mem, this`lastSequence, this`written
      ensures Valid() && lastSequence == old(lastSequence) + |batch|
      ensures written == old(written) + BatchEntries(batch, |batch|, old(lastSequence) + 1)
      ensures EntrySet(mem) == EntrySet(old(mem)) + BatchEntries(batch, |batch|, old(lastSequence) + 1)
      ensures forall i :: 0 <= i < |batch| && (forall j :: i < j < |batch| ==> batch[j].key != batch[i].key) ==>
                Answer(written, batch[i].key, lastSequence) == (if batch[i].Put? then Some(batch[i].value) else None)
                && Answer(Stored(Abs()), batch[i].key, lastSequence)
                   == (if batch[i].Put? then Some(batch[i].value) else None)
      ensures forall k: UserKey, q: SequenceNumber ::
                q <= old(lastSequence) || (forall i :: 0 <= i < |batch| ==> batch[i].key != k) ==>
                  && Answer(written, k, q) == Answer(old(written), k, q)
                  && Answer(Stored(Abs()), k, q) == Answer(Stored(old(Abs())), k, q)
    {
      hide Sound, Logged;
      ghost var before := Abs();
      for i := 0 to |batch|
        invariant Valid() && lastSequence == old(lastSequence) + i
        invariant written == old(written) + BatchEntries(batch, i, old(lastSequence) + 1)
        invariant EntrySet(mem) == EntrySet(old(mem)) + BatchEntries(batch, i, old(lastSequence) + 1)
      {
        WriteOne(batch[i]);
      }
      BatchIsRead(before, old(written), uncovered, batch, Abs(), written);
    }

    /** MakeRoomForWrite, when the memtable is full and no immutable one is pending. */
    method SwitchMemTable()
      requires Valid() && imm.None?
      modifies this`mem, this`imm
      ensures Valid() && mem == [] && imm == Some(old(mem))
    {
      hide Sound;
      SwitchKeeps(Abs(), written, uncovered);
      imm, mem := Some(mem), [];
    }

    /** CompactMemTable: write the immutable memtable to a table and place it. */
    method CompactMemTable(size: nat, limits: Limits)
      requires Valid() && imm.Some?
      modifies this`imm, this`version, this`nextFile, this`edits, this`versions
      ensures Valid() && imm.None? && nextFile == old(nextFile) + 1 && OneMore(old(edits), edits)
      ensures old(imm).value == [] ==> version == old(version)
      ensures old(imm).value != [] ==>
                FlushedTo(old(version), TableOf(old(nextFile), size, old(imm).value), limits.maxGrandparentBytes,
                          version)
    {
      hide Sound, ValidVersion, PlacedAt, Installs, ClearDownTo, ValidFile, Logged, Brings;
      SoundFacts(Abs(), written, uncovered);
      if imm.value == [] {
        DropEmptyKeeps(Abs(), written, uncovered);
        NothingBrings(version, nextFile);
        NothingInstalls(version);
        InstallVersion(Edit({}, []), 0, {}, version, nextFile + 1);
        imm := None;
        return;
      }
      var level, f, v' := FlushTable(version, nextFile, size, imm.value, limits.maxGrandparentBytes);
      FlushKeeps(Abs(), written, uncovered, level, f, v');
      NumbersUnique(Abs().(imm := None, version := v', nextFile := nextFile + 1), written, uncovered);
      FlushBrings(version, level, f, nextFile);
      InstallVersion(FlushEdit(level, f), level, {f}, v', nextFile + 1);
      imm := None;
    }

    /** LogAndApply's change of the current version, once the new version is built. */
    method InstallVersion(ghost e: Edit, ghost level: nat, ghost files: set<FileMeta>, v': Version, next: nat)
      requires Logged(edits, versions, version, nextFile) && nextFile <= next
      requires Brings(version, e, level, files, nextFile, next) && Installs(version, e, v') && UniqueNumbers(v')
      modifies this`version, this`nextFile, this`edits, this`versions
      ensures version == v' && nextFile == next && edits == old(edits) + [e]
      ensures Logged(edits, versions, version, nextFile)
    {
      LogGrows(edits, versions, version, e, level, files, nextFile, next, v');
      edits, versions := edits + [e], versions + [v'];
      version, nextFile := v', next;
    }

    /** The inputs BackgroundCompaction would use; nothing when a manual range is empty. */
    method PickInputs(request: Request, limits: Limits)
      returns (found: bool, level: nat, in0: seq<FileMeta>, in1: seq<FileMeta>, grandparents: seq<FileMeta>)
      requires Valid() && CanPick(version, request)
      ensures found ==> LegalInputs(version, level, in0, in1) && Requested(version, request, limits, level, in0)
      ensures !found ==> request.Manual? && forall f :: f in version.files[request.level] ==>
                !Overlaps(f, request.begin, request.end)
    {
      hide Sound, ValidVersion, LegalInputs, Picked, GrandparentsOf;
      SoundFacts(Abs(), written, uncovered);
      match request
      case Automatic(trigger) =>
        level, found := trigger.level, true;
        var pointer;
        in0, in1, grandparents, pointer := PickCompaction(version, trigger, limits.expandedByteLimit);
        assert Requested(version, request, limits, level, in0);
      case Manual(l, begin, end) =>
        level := l;
        found, in0, in1, grandparents := CompactRange(version, l, begin, end, limits.fileSizeLimit,
                                                      limits.expandedByteLimit);
        assert found ==> Requested(version, request, limits, level, in0);
    }

    /** BackgroundCompaction: move a lone file down, or rewrite the inputs one level down. */
    method BackgroundCompaction(request: Request, limits: Limits, stopBefore: seq<bool>, full: seq<bool>,
                                sizes: seq<nat>)
      returns (ghost job: Job)
      requires Valid() && CanPick(version, request)
      modifies this`version, this`nextFile, this`uncovered, this`edits, this`versions
      ensures Valid() && (old(uncovered) ==> uncovered)
      ensures if job.Nothing? then edits == old(edits) else OneMore(old(edits), edits)
      ensures job.Nothing? ==> version == old(version) && request.Manual? &&
                               forall f :: f in version.files[request.level] ==>
                                 !Overlaps(f, request.begin, request.end)
      ensures job.Moved? ==> request.Automatic? && Requested(old(version), request, limits, job.level, [job.file])
                             && Replaces(old(version), job.level, [job.file], [], [job.file], version)
      ensures job.Rewrote? ==>
                && Requested(old(version), request, limits, job.level, job.in0)
                && Compacts(old(version), job.level, old(Floor(Abs())), job.in0, job.in1, job.outs, version)
                && OutputsOf(old(version), old(nextFile), old(Floor(Abs())), job, stopBefore, full, sizes)
                && nextFile == old(nextFile) + |job.outs|
    {
      hide Sound, ValidVersion, LegalInputs, Compacts, OutputsOf, Replaces, Requested;
      var found, level, in0, in1, grandparents := PickInputs(request, limits);
      if !found {
        return Nothing;
      }
      if request.Automatic? && |in0| == 1 && in1 == [] && TotalFileSize(grandparents) <= limits.maxGrandparentBytes {
        assert in0 == [in0[0]];
        TrivialMove(level, in0[0]);
        job := Moved(level, in0[0]);
      } else {
        job := Compact(level, in0, in1, stopBefore, full, sizes);
      }
    }

    method TrivialMove(level: nat, f: FileMeta)
      requires Valid() && LegalInputs(version, level, [f], [])
      modifies this`version, this`nextFile, this`edits, this`versions
      ensures Valid() && Replaces(old(version), level, [f], [], [f], version)
      ensures nextFile == old(nextFile) && OneMore(old(edits), edits)
    {
      hide Sound, ValidVersion, Logged, Brings;
      SoundFacts(Abs(), written, uncovered);
      var e := Edit({(level, f.number)}, [(level + 1, f)]);
      MoveIsEdit(version, level, f);
      CompactionEditAddsFresh(version, level, [f], [], [f], e);
      var v' := LogAndApply(version, e);
      CompactionEditReplaces(version, level, [f], [], [f], e, v');
      CompactionNumbers(version, level, [f], [], [f], v');
      MoveKeeps(Abs(), written, uncovered, level, f, v');
      LegalFile(version, level, f, nextFile);
      MoveBrings(version, level, f, nextFile);
      InstallVersion(e, level + 1, {f}, v', nextFile);
    }

    /** DoCompactionWork and InstallCompactionResults.  The cut decisions and sizes are arbitrary. */
    method Compact(level: nat, in0: seq<FileMeta>, in1: seq<FileMeta>, stopBefore: seq<bool>, full: seq<bool>,
                   sizes: seq<nat>)
      returns (ghost job: Job)
      requires Valid() && LegalInputs(version, level, in0, in1)
      modifies this`version, this`nextFile, this`uncovered, this`edits, this`versions
      ensures Valid() && OneMore(old(edits), edits) && job.Rewrote? && job.level == level && job.in0 == in0
              && job.in1 == in1
      ensures Compacts(old(version), level, old(Floor(Abs())), in0, in1, job.outs, version)
      ensures OutputsOf(old(version), old(nextFile), old(Floor(Abs())), job, stopBefore, full, sizes)
      ensures nextFile == old(nextFile) + |job.outs|
      ensures uncovered == (old(uncovered) || UncoversSome(old(Abs()), level, in0, in1))
    {
      hide Sound, ValidVersion, Compacts, LegalInputs, OutputsOf, Logged, Brings, Installs;
      SoundFacts(Abs(), written, uncovered);
      var snapshot := if snapshots == [] then lastSequence else snapshots[0];
      var outs, v', e := RewriteInputs(version, nextFile, snapshot, level, in0, in1, stopBefore, full, sizes);
      job := Rewrote(level, in0, in1, outs);
      CompactionKeeps(Abs(), written, uncovered, level, in0, in1, outs, v', nextFile + |outs|);
      uncovered := uncovered || UncoversSome(Abs(), level, in0, in1);
      InstallVersion(e, level + 1, FileSet(outs), v', nextFile + |outs|);
    }

    /** GetSnapshot. */
    method GetSnapshot() returns (s: SequenceNumber)
      requires Valid()
      modifies this`snapshots
      ensures Valid() && s == lastSequence && snapshots == old(snapshots) + [s]
    {
      hide Sound;
      TakeKeeps(Abs(), written, uncovered);
      s := lastSequence;
      snapshots := snapshots + [s];
    }

    /** ReleaseSnapshot of the i-th live snapshot. */
    method ReleaseSnapshot(i: nat)
      requires Valid() && i < |snapshots|
      modifies this`snapshots
      ensures Valid() && snapshots == old(snapshots)[..i] + old(snapshots)[i + 1..]
    {
      hide Sound;
      ReleaseKeeps(Abs(), written, uncovered, i);
      snapshots := snapshots[..i] + snapshots[i + 1..];
    }

    /** Get, at the latest sequence or a live snapshot: memtable, immutable memtable, then the current version. */
    method Get(k: UserKey, q: SequenceNumber) returns (r: Option<Bytes>)
      requires Valid() && Readable(Abs(), q)
      ensures r == Answer(Stored(Abs()), k, q)
      ensures !uncovered ==> r == Answer(written, k, q)
    {
      hide Sound, ValidVersion, Readable, SnapshotsOrdered;
      SoundFacts(Abs(), written, uncovered);
      FloorIsReadable(Abs(), q);
      RunGetIsNewest(mem, k, q);
      var e := RunGet(mem, k, q);
      if e.None? && imm.Some? {
        RunGetIsNewest(imm.value, k, q);
        e := RunGet(imm.value, k, q);
      }
      if e.None? {
        e := Versions.Get(version, k, q);
      }
      if e.Some? {
        MemThenImmThenVersion(Abs(), k, q, e.value);
        AnswerIs(Stored(Abs()), k, q, e.value);
        r := Reading(e.value);
      } else {
        AnswerAbsent(Stored(Abs()), k, q);
        r := None;
      }
    }
  }

  /** Read your writes, in the history and in the state. */
  lemma BatchIsRead(s: State, w: set<Entry>, uncovered: bool, batch: seq<Op>, s': State, w': set<Entry>)
    requires Sound(s, w, uncovered) && s.lastSequence + |batch| < MAX_SEQUENCE
    requires s' == s.(mem := s'.mem, lastSequence := s.lastSequence + |batch|)
    requires w' == w + BatchEntries(batch, |batch|, s.lastSequence + 1)
    requires EntrySet(s'.mem) == EntrySet(s.mem) + BatchEntries(batch, |batch|, s.lastSequence + 1)
    ensures forall i :: 0 <= i < |batch| && (forall j :: i < j < |batch| ==> batch[j].key != batch[i].key) ==>
              Answer(w', batch[i].key, s'.lastSequence) == (if batch[i].Put? then Some(batch[i].value) else None)
              && Answer(Stored(s'), batch[i].key, s'.lastSequence)
                 == (if batch[i].Put? then Some(batch[i].value) else None)
    ensures forall k: UserKey, q: SequenceNumber ::
              q <= s.lastSequence || (forall i :: 0 <= i < |batch| ==> batch[i].key != k) ==>
                Answer(w', k, q) == Answer(w, k, q) && Answer(Stored(s'), k, q) == Answer(Stored(s), k, q)
  {
    hide Answer, BatchEntries, Shape, Agrees, Recorded;
    StampsBelow(s, w, uncovered);
    var first := s.lastSequence + 1;
    assert Stored(s') == Stored(s) + BatchEntries(batch, |batch|, first);
    forall i | 0 <= i < |batch| && forall j :: i < j < |batch| ==> batch[j].key != batch[i].key
      ensures Answer(w', batch[i].key, s'.lastSequence) == (if batch[i].Put? then Some(batch[i].value) else None)
      ensures Answer(Stored(s'), batch[i].key, s'.lastSequence)
              == (if batch[i].Put? then Some(batch[i].value) else None)
    {
      assert LastOnKey(batch, |batch|, i);
      BatchAnswers(w, batch, |batch|, first, i, s'.lastSequence);
      BatchAnswers(Stored(s), batch, |batch|, first, i, s'.lastSequence);
    }
    forall k: UserKey, q: SequenceNumber | q <= s.lastSequence || (forall i :: 0 <= i < |batch| ==> batch[i].key != k)
      ensures Answer(w', k, q) == Answer(w, k, q) && Answer(Stored(s'), k, q) == Answer(Stored(s), k, q)
    {
      BatchSpares(w, batch, |batch|, first, k, q);
      BatchSpares(Stored(s), batch, |batch|, first, k, q);
    }
  }

  lemma StampsBelow(s: State, w: set<Entry>, uncovered: bool)
    requires Sound(s, w, uncovered)
    ensures UniqueStamps(w) && StampedBelow(w, s.lastSequence + 1)
    ensures UniqueStamps(Stored(s)) && StampedBelow(Stored(s), s.lastSequence + 1)
  {
  }

  /** One more edit has been installed. */
  ghost predicate OneMore(before: seq<Edit>, after: seq<Edit>) {
    |after| == |before| + 1 && before <= after
  }

  lemma InputsLieBelow(v: Version, level: nat, in0: seq<FileMeta>, in1: seq<FileMeta>)
    requires LegalInputs(v, level, in0, in1)
    ensures FileSet(in1) <= FileSet(v.files[level + 1])
  {
    var lo, hi := LowerRange(v, level, in0, in1);
  }

  lemma LegalFile(v: Version, level: nat, f: FileMeta, n: nat)
    requires LegalInputs(v, level, [f], []) && NumbersBelow(v, n)
    ensures FileAt(v, level, f) && f.number < n && level + 1 < NUM_LEVELS
  {
    hide LowerInputs, NewerThan, Contents;
    assert f in FileSet([f]) && f in FileSet(v.files[level]);
    assert FileAt(v, level, f);
  }

  lemma NumbersUnique(s: State, written: set<Entry>, uncovered: bool)
    requires Sound(s, written, uncovered)
    ensures UniqueNumbers(s.version)
  {
  }

  /** The level PickLevelForMemTableOutput gives a new table. */
  ghost predicate PlacedAt(v: Version, f: FileMeta, level: nat, maxGrandparentBytes: nat)
    requires |v.files| == NUM_LEVELS
  {
    var lo, hi := f.smallest.user, f.largest.user;
    && level <= MAX_MEM_COMPACT_LEVEL
    && (level > 0 ==> forall i :: 0 <= i <= level ==> !Taken(v.files[i], lo, hi))
    && (level == MAX_MEM_COMPACT_LEVEL || Taken(v.files[0], lo, hi) || Taken(v.files[level + 1], lo, hi)
        || TooManyGrandparents(v, level, lo, hi, maxGrandparentBytes))
    && forall i :: 0 <= i < level ==> !TooManyGrandparents(v, i, lo, hi, maxGrandparentBytes)
  }

  /** `v'` is `v` with the new table at its level. */
  ghost predicate FlushedTo(v: Version, f: FileMeta, maxGrandparentBytes: nat, v': Version)
    requires |v.files| == NUM_LEVELS
  {
    exists level :: PlacedAt(v, f, level, maxGrandparentBytes) && Installs(v, FlushEdit(level, f), v')
  }

  /** WriteLevel0Table: build a table from a nonempty memtable, pick its level and install it. */
  method FlushTable(v: Version, number: nat, size: nat, entries: seq<Entry>, maxGrandparentBytes: nat)
    returns (level: nat, f: FileMeta, v': Version)
    requires ValidVersion(v) && Listed(v) && NumbersBelow(v, number)
    requires entries != [] && Sorted(entries)
    ensures level < NUM_LEVELS && ValidFile(f) && f.entries == entries && f.number == number
    ensures ClearDownTo(v, level, f) && Installs(v, FlushEdit(level, f), v')
    ensures f == TableOf(number, size, entries) && PlacedAt(v, f, level, maxGrandparentBytes)
  {
    f := TableOf(number, size, entries);
    level := PickLevelForMemTableOutput(v, f.smallest.user, f.largest.user, maxGrandparentBytes);
    FlushAddsFresh(v, level, f);
    v' := LogAndApply(v, Edit({}, [(level, f)]));
  }

  /** The survivors of the inputs, cut into files. */
  method WriteOutputs(v: Version, nextFile: nat, snapshot: SequenceNumber, level: nat,
                      in0: seq<FileMeta>, in1: seq<FileMeta>, stopBefore: seq<bool>, full: seq<bool>, sizes: seq<nat>)
    returns (outs: seq<FileMeta>)
    requires ValidVersion(v) && LegalInputs(v, level, in0, in1) && snapshot < MAX_SEQUENCE
    ensures ValidFiles(FileSet(outs)) && PairwiseDisjoint(FileSet(outs)) && Coherent(FileSet(outs))
    ensures forall f :: f in outs ==> nextFile <= f.number < nextFile + |outs|
    ensures forall e :: e in Contents(FileSet(outs)) <==>
              e in InputEntries(in0, in1) && !Dropped(v, level, snapshot, InputEntries(in0, in1), e)
    ensures OutputsOf(v, nextFile, snapshot, Rewrote(level, in0, in1, outs), stopBefore, full, sizes)
  {
    hide ValidVersion, LegalInputs, OutputFiles, Cut, Close, Kept, NonEmptyParts;
    InputFacts(v, level, in0, in1);
    var merged := MergeInputs(v, level, in0, in1);
    var c := new Compaction(v, level);
    var parts := DoCompactionWork(c, merged, snapshot, Padded(stopBefore, |merged|, false),
                                  Padded(full, |merged|, false));
    outs := OutputFiles(parts, nextFile, Padded(sizes, |parts|, 0));
    SurvivorsInFiles(v, nextFile, snapshot, level, merged, parts, Padded(sizes, |parts|, 0));
    assert MergeOf(in0, in1, merged) && outs == CutFiles(v, nextFile, snapshot, level, merged, stopBefore, full, sizes);
  }

  /** The files of a cut merge are valid, in order, and hold exactly the survivors. */
  lemma SurvivorsInFiles(v: Version, nextFile: nat, snapshot: SequenceNumber, level: nat, merged: seq<Entry>,
                         parts: seq<seq<Entry>>,
                         sizes: seq<nat>)
    requires Sorted(merged) && UniqueStamps(EntrySet(merged)) && NonEmptyParts(parts) && |sizes| >= |parts|
    requires Flatten(parts) == Kept(v, level, snapshot, merged, |merged|)
    ensures var outs := OutputFiles(parts, nextFile, sizes);
            && ValidFiles(FileSet(outs)) && PairwiseDisjoint(FileSet(outs)) && Coherent(FileSet(outs))
            && (forall f :: f in outs ==> nextFile <= f.number < nextFile + |outs|)
            && forall e :: e in Contents(FileSet(outs)) <==>
                 e in EntrySet(merged) && !Dropped(v, level, snapshot, EntrySet(merged), e)
  {
    KeptIsSurvivors(v, level, snapshot, merged, |merged|);
    assert merged[..|merged|] == merged;
    OutputFilesValid(parts, nextFile, sizes, OutputFiles(parts, nextFile, sizes));
  }

  /** DoCompactionWork and InstallCompactionResults on one version. */
  method RewriteInputs(v: Version, nextFile: nat, snapshot: SequenceNumber, level: nat,
                       in0: seq<FileMeta>, in1: seq<FileMeta>, stopBefore: seq<bool>, full: seq<bool>, sizes: seq<nat>)
    returns (outs: seq<FileMeta>, v': Version, e: Edit)
    requires ValidVersion(v) && Listed(v) && NumbersBelow(v, nextFile) && LegalInputs(v, level, in0, in1)
    requires snapshot < MAX_SEQUENCE
    ensures Compacts(v, level, snapshot, in0, in1, outs, v')
    ensures ValidFiles(FileSet(outs)) && PairwiseDisjoint(FileSet(outs)) && UniqueNumbers(v') && Listed(v')
    ensures forall f :: f in outs ==> f.number < nextFile + |outs|
    ensures OutputsOf(v, nextFile, snapshot, Rewrote(level, in0, in1, outs), stopBefore, full, sizes)
    ensures Installs(v, e, v') && Brings(v, e, level + 1, FileSet(outs), nextFile, nextFile + |outs|)
  {
    hide OutputsOf;
    outs := WriteOutputs(v, nextFile, snapshot, level, in0, in1, stopBefore, full, sizes);
    OutputsAreFresh(v, nextFile, level, in0, outs);
    e := CompactionEdit(level, in0, in1, outs);
    InputsLieBelow(v, level, in0, in1);
    CompactionBrings(v, level, in0, in1, outs, e, nextFile);
    CompactionEditAddsFresh(v, level, in0, in1, outs, e);
    v' := LogAndApply(v, e);
    CompactionEditReplaces(v, level, in0, in1, outs, e, v');
    CompactionNumbers(v, level, in0, in1, outs, v');
  }

  /** The level inputs answer the request: they hold the file that asked for it, or the first files of the range. */
  ghost predicate Requested(v: Version, request: Request, limits: Limits, level: nat, in0: seq<FileMeta>) {
    && level < |v.files|
    && match request
       case Automatic(t) =>
         level == t.level && exists i: nat :: Picked(v.files[level], t, i) && v.files[level][i] in in0
       case Manual(l, begin, end) =>
         && level == l
         && (l == 0 ==> forall f :: f in v.files[0] && Overlaps(f, begin, end) ==> f in in0)
         && (l > 0 ==> HoldsFirst(Overlapping(v.files[level], begin, end), limits.fileSizeLimit, in0))
  }

  /** `merged` is the sorted list of all input entries. */
  ghost predicate MergeOf(in0: seq<FileMeta>, in1: seq<FileMeta>, merged: seq<Entry>) {
    Sorted(merged) && EntrySet(merged) == InputEntries(in0, in1)
  }

  /** The output files of a merged list of inputs, given the decisions to close an output. */
  ghost function CutFiles(v: Version, nextFile: nat, snapshot: SequenceNumber, level: nat, merged: seq<Entry>,
                          stopBefore: seq<bool>, full: seq<bool>, sizes: seq<nat>): seq<FileMeta>
  {
    var n := |merged|;
    CutIsKept(v, level, snapshot, merged, Padded(stopBefore, n, false), Padded(full, n, false), n);
    var (closed, open) := Cut(v, level, snapshot, merged, Padded(stopBefore, n, false), Padded(full, n, false), n);
    CloseFlattens(closed, open);
    OutputFiles(Close(closed, open), nextFile, Padded(sizes, |Close(closed, open)|, 0))
  }

  ghost predicate OutputsOf(v: Version, nextFile: nat, snapshot: SequenceNumber, job: Job,
                            stopBefore: seq<bool>, full: seq<bool>, sizes: seq<nat>)
    requires job.Rewrote?
  {
    exists merged :: MergeOf(job.in0, job.in1, merged) &&
                     job.outs == CutFiles(v, nextFile, snapshot, job.level, merged, stopBefore, full, sizes)
  }

  ghost predicate CanPick(v: Version, request: Request) {
    match request
    case Automatic(t) =>
      && t.level + 1 < NUM_LEVELS == |v.files| && v.files[t.level] != []
      && (t.SeekTrigger? ==> t.index < |v.files[t.level]|)
    case Manual(l, _, _) => l + 1 < NUM_LEVELS
  }

  function Padded<T>(xs: seq<T>, n: nat, x: T): (r: seq<T>)
    ensures |r| == n
  {
    seq(n, i => if 0 <= i < |xs| then xs[i] else x)
  }

  lemma FlushAddsFresh(v: Version, level: nat, f: FileMeta)
    requires ValidVersion(v) && NumbersBelow(v, f.number) && level < NUM_LEVELS
    ensures AddsFresh(v, FlushEdit(level, f))
  {
    var e := FlushEdit(level, f);
    forall i | 0 <= i < NUM_LEVELS
      ensures Coherent(AddedAt(e.added, i)) && Numbers(AddedAt(e.added, i)) !! Numbers(FileSet(v.files[i]))
    {
      assert AddedAt(e.added, i) <= {f};
      forall g | g in FileSet(v.files[i])
        ensures g.number < f.number
      {
        assert FileAt(v, i, g);
      }
    }
  }

  lemma MoveIsEdit(v: Version, level: nat, f: FileMeta)
    requires ValidVersion(v) && LegalInputs(v, level, [f], [])
    ensures IsCompactionEdit(level, [f], [], [f], Edit({(level, f.number)}, [(level + 1, f)]))
    ensures FreshOutputs(v, level, [f], [f])
  {
    hide LegalInputs, ValidFiles, UniqueStamps, LevelOrder, DisjointSorted;
    var lo, hi := LowerRange(v, level, [f], []);
    assert f in FileSet([f]);
    assert f.number in Numbers(FileSet([f]));
    assert f in FileSet(v.files[level]);
    forall i, g | FileAt(v, i, g) && f.number == g.number
      ensures i == level && g == f
    {
      assert FileAt(v, level, f);
    }
    assert forall i, g :: 0 <= i < |v.files| && g in v.files[i] ==> FileAt(v, i, g);
  }

  lemma OutputsAreFresh(v: Version, nextFile: nat, level: nat, in0: seq<FileMeta>, outs: seq<FileMeta>)
    requires NumbersBelow(v, nextFile) && Coherent(FileSet(outs)) && forall f :: f in outs ==> f.number >= nextFile
    ensures FreshOutputs(v, level, in0, outs)
  {
    assert forall i, g :: 0 <= i < |v.files| && g in v.files[i] ==> FileAt(v, i, g);
  }

  /** InstallCompactionResults: delete the inputs, add the outputs one level down. */
  function CompactionEdit(level: nat, in0: seq<FileMeta>, in1: seq<FileMeta>, outs: seq<FileMeta>): (e: Edit)
    ensures IsCompactionEdit(level, in0, in1, outs, e)
  {
    var e := Edit((set f | f in in0 :: (level, f.number)) + (set f | f in in1 :: (level + 1, f.number)),
                  seq(|outs|, i requires 0 <= i < |outs| => (level + 1, outs[i])));
    assert forall p :: p in e.added ==> p.0 == level + 1 && p.1 in outs;
    assert forall p: (nat, FileMeta) :: p.0 == level + 1 && p.1 in outs ==> p in e.added by {
      forall p: (nat, FileMeta) | p.0 == level + 1 && p.1 in outs
        ensures p in e.added
      {
        var i :| 0 <= i < |outs| && outs[i] == p.1;
        assert e.added[i] == p;
      }
    }
    e
  }

  lemma InputFacts(v: Version, level: nat, in0: seq<FileMeta>, in1: seq<FileMeta>)
    requires ValidVersion(v) && LegalInputs(v, level, in0, in1)
    ensures UniqueStamps(InputEntries(in0, in1)) && InputEntries(in0, in1) <= AllEntries(v)
    ensures ValidFiles(FileSet(in0) + FileSet(in1))
    ensures forall i :: level + 2 <= i < NUM_LEVELS ==> DisjointSorted(v.files[i])
    ensures |v.files| == NUM_LEVELS && level + 1 < NUM_LEVELS
  {
    forall e | e in InputEntries(in0, in1)
      ensures e in AllEntries(v)
    {
      InputLevel(v, level, in0, in1, e);
    }
    LevelFacts(v, level);
    LevelFacts(v, level + 1);
    assert FileSet(in1) <= FileSet(v.files[level + 1]);
  }
}
