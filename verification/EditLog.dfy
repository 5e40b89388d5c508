/**
 The version edits of a run (db/version_set.cc:801-900): what every step that installs an edit keeps of the whole
 list of edits, so that replaying it gives back the current version.

 A file number enters a level at most once: new tables take fresh numbers, and a table that is moved goes down.
 */
module EditLogs {
  import opened Keys
  import opened Versions
  import opened CompactionSetup
  import opened CompactionOrder
  import opened VersionBuilder
  import opened Edits

  /** A live file that a level once received lies at that level or deeper. */
  ghost predicate OnlyDown(es: seq<Edit>, v: Version) {
    forall i, g, j, f {:trigger g in AllAddedAt(es, i), FileAt(v, j, f)} ::
      0 <= i < NUM_LEVELS && g in AllAddedAt(es, i) && FileAt(v, j, f) && g.number == f.number ==> g == f && i <= j
  }

  ghost predicate AddedBelow(es: seq<Edit>, n: nat) {
    forall i, g :: 0 <= i < NUM_LEVELS && g in AllAddedAt(es, i) ==> g.number < n
  }

  /** The edits may be replayed through one builder. */
  ghost predicate Replayable(es: seq<Edit>) {
    forall i :: 0 <= i < NUM_LEVELS ==> EntersOnce({}, es, i) && Coherent(AllAddedAt(es, i))
  }

  /** `es` are the edits installed so far, `vs` the versions they led through, `v` the last of these. */
  ghost predicate Logged(es: seq<Edit>, vs: seq<Version>, v: Version, nextFile: nat) {
    History(vs, es) && vs[|es|] == v && Replayable(es) && AddedBelow(es, nextFile) && OnlyDown(es, v)
  }

  lemma LoggedFacts(es: seq<Edit>, vs: seq<Version>, v: Version, nextFile: nat)
    requires Logged(es, vs, v, nextFile)
    ensures History(vs, es) && vs[|es|] == v && Replayable(es)
  {
  }

  lemma NothingLogged(v: Version)
    requires |v.files| == NUM_LEVELS && forall i :: 0 <= i < NUM_LEVELS ==> v.files[i] == []
    ensures Logged([], [v], v, 2)
  {
  }

  /** The edit adds `files` to one level, each a new number or a file that lay higher up. */
  ghost predicate Brings(v: Version, e: Edit, level: nat, files: set<FileMeta>, nextFile: nat, nextFile': nat) {
    && level < NUM_LEVELS && Coherent(files) && Numbers(files) !! DeletedAt(e, level)
    && (forall i :: 0 <= i < NUM_LEVELS ==> AddedAt(e.added, i) == if i == level then files else {})
    && forall f :: f in files ==> f.number < nextFile' && (f.number >= nextFile || LayAbove(v, level, f))
  }

  ghost predicate LayAbove(v: Version, level: nat, f: FileMeta) {
    exists i :: i < level && FileAt(v, i, f)
  }

  /** What a level received before under the number of a file it is to receive now: nothing. */
  lemma NumberIsNew(es: seq<Edit>, v: Version, e: Edit, level: nat, files: set<FileMeta>, n: nat, n': nat,
                    i: nat, g: FileMeta, f: FileMeta)
    requires AddedBelow(es, n) && OnlyDown(es, v) && Brings(v, e, level, files, n, n')
    requires i < NUM_LEVELS && g in AllAddedAt(es, i) && f in files && g.number == f.number
    ensures g == f && i < level
  {
    var j :| j < level && FileAt(v, j, f);
  }

  lemma {:induction false} ReplayedAdded(es: seq<Edit>, level: nat)
    ensures ApplyAllAt(FRESH, es, level).added == AllAddedAt(es, level)
  {
    if es != [] {
      var n := |es| - 1;
      ReplayedAdded(es[..n], level);
      AllAddedSnoc(es, n, level);
      assert es[..n + 1] == es;
    }
  }

  lemma AddedSnoc(es: seq<Edit>, e: Edit, level: nat)
    ensures AllAddedAt(es + [e], level) == AllAddedAt(es, level) + AddedAt(e.added, level)
  {
    AllAddedSnoc(es + [e], |es|, level);
    assert (es + [e])[..|es|] == es && (es + [e])[..|es| + 1] == es + [e];
  }

  lemma ReplayGrows(es: seq<Edit>, v: Version, e: Edit, level: nat, files: set<FileMeta>, n: nat, n': nat)
    requires Replayable(es) && AddedBelow(es, n) && OnlyDown(es, v) && Brings(v, e, level, files, n, n')
    ensures Replayable(es + [e])
  {
    var es' := es + [e];
    assert es'[..|es'| - 1] == es;
    forall i | 0 <= i < NUM_LEVELS
      ensures EntersOnce({}, es', i) && Coherent(AllAddedAt(es', i))
    {
      hide OnlyDown, AddedBelow, AllAddedAt, DeletedAt;
      ReplayedAdded(es, i);
      AddedSnoc(es, e, i);
      var old', new' := AllAddedAt(es, i), AddedAt(e.added, i);
      forall g, f | g in old' && f in new'
        ensures g.number != f.number
      {
        if g.number == f.number { NumberIsNew(es, v, e, level, files, n, n', i, g, f); }
      }
      assert {} + ApplyAllAt(FRESH, es, i).added == old';
      assert Numbers(new') !! Numbers(old');
    }
  }

  lemma HistoryGrows(es: seq<Edit>, vs: seq<Version>, e: Edit, v': Version)
    requires History(vs, es) && Installs(vs[|es|], e, v')
    ensures History(vs + [v'], es + [e]) && |vs| == |es| + 1
  {
    hide Installs;
    var vs', es' := vs + [v'], es + [e];
    forall n | 0 <= n < |es'|
      ensures Installs(vs'[n], es'[n], vs'[n + 1])
    {
      if n < |es| {
        assert Installs(vs[n], es[n], vs[n + 1]);
      }
    }
  }

  lemma InstalledFrom(v: Version, e: Edit, level: nat, files: set<FileMeta>, v': Version, j: int, f: FileMeta)
    requires level < NUM_LEVELS && Installs(v, e, v') && FileAt(v', j, f)
    requires forall i :: 0 <= i < NUM_LEVELS ==> AddedAt(e.added, i) == if i == level then files else {}
    ensures FileAt(v, j, f) || (j == level && f in files)
  {
    assert f in FileSet(v'.files[j]);
  }

  lemma AddedAreInstalled(v: Version, e: Edit, level: nat, v': Version, f: FileMeta)
    requires level < NUM_LEVELS && Installs(v, e, v') && f in AddedAt(e.added, level)
    ensures FileAt(v', level, f)
  {
    assert f.number in Numbers(AddedAt(e.added, level));
    assert f in FileSet(v'.files[level]);
  }

  lemma DownGrows(es: seq<Edit>, v: Version, e: Edit, level: nat, files: set<FileMeta>, n: nat, n': nat, v': Version)
    requires AddedBelow(es, n) && OnlyDown(es, v) && Brings(v, e, level, files, n, n')
    requires Installs(v, e, v') && UniqueNumbers(v')
    ensures OnlyDown(es + [e], v')
  {
    hide Installs, AllAddedAt, Brings, AddedBelow, UniqueNumbers;
    forall i, g, j, f | 0 <= i < NUM_LEVELS && g in AllAddedAt(es + [e], i) && FileAt(v', j, f) && g.number == f.number
      ensures g == f && i <= j
    {
      AddedSnoc(es, e, i);
      DownAt(es, v, e, level, files, n, n', v', i, g, j, f);
    }
  }

  lemma DownAt(es: seq<Edit>, v: Version, e: Edit, level: nat, files: set<FileMeta>, n: nat, n': nat, v': Version,
               i: nat, g: FileMeta, j: int, f: FileMeta)
    requires AddedBelow(es, n) && OnlyDown(es, v) && Brings(v, e, level, files, n, n')
    requires Installs(v, e, v') && UniqueNumbers(v')
    requires i < NUM_LEVELS && (g in AllAddedAt(es, i) || g in AddedAt(e.added, i))
    requires FileAt(v', j, f) && g.number == f.number
    ensures g == f && i <= j
  {
    hide Installs, AllAddedAt;
    InstalledFrom(v, e, level, files, v', j, f);
    if g in AddedAt(e.added, i) {
      AddedAreInstalled(v, e, level, v', g);
    } else if !FileAt(v, j, f) {
      NumberIsNew(es, v, e, level, files, n, n', i, g, f);
    }
  }

  /** Installing one more edit. */
  lemma LogGrows(es: seq<Edit>, vs: seq<Version>, v: Version, e: Edit, level: nat, files: set<FileMeta>, n: nat,
                 n': nat,
                 v': Version)
    requires Logged(es, vs, v, n) && n <= n' && Brings(v, e, level, files, n, n')
    requires Installs(v, e, v') && UniqueNumbers(v')
    ensures Logged(es + [e], vs + [v'], v', n')
  {
    hide Installs, UniqueNumbers, OnlyDown, Replayable, History;
    HistoryGrows(es, vs, e, v');
    ReplayGrows(es, v, e, level, files, n, n');
    DownGrows(es, v, e, level, files, n, n', v');
    forall i, g | 0 <= i < NUM_LEVELS && g in AllAddedAt(es + [e], i)
      ensures g.number < n'
    {
      AddedSnoc(es, e, i);
    }
  }

  // ---------- the three kinds of edit ----------

  lemma FlushBrings(v: Version, level: nat, f: FileMeta, n: nat)
    requires level < NUM_LEVELS && f.number == n
    ensures Brings(v, FlushEdit(level, f), level, {f}, n, n + 1)
  {
    var e := FlushEdit(level, f);
    assert e.added[0] in e.added;
  }

  /** The edit of a memtable without entries. */
  lemma NothingBrings(v: Version, n: nat)
    ensures Brings(v, Edit({}, []), 0, {}, n, n + 1)
  {
  }

  lemma NothingInstalls(v: Version)
    requires Listed(v)
    ensures Installs(v, Edit({}, []), v)
  {
  }

  lemma MoveBrings(v: Version, level: nat, f: FileMeta, n: nat)
    requires level + 1 < NUM_LEVELS && FileAt(v, level, f) && f.number < n
    ensures Brings(v, Edit({(level, f.number)}, [(level + 1, f)]), level + 1, {f}, n, n)
  {
    var e := Edit({(level, f.number)}, [(level + 1, f)]);
    assert e.added[0] in e.added;
    assert LayAbove(v, level + 1, f);
  }

  lemma CompactionBrings(v: Version, level: nat, in0: seq<FileMeta>, in1: seq<FileMeta>, outs: seq<FileMeta>, e: Edit,
                         n: nat)
    requires |v.files| == NUM_LEVELS && level + 1 < NUM_LEVELS && NumbersBelow(v, n)
    requires FileSet(in1) <= FileSet(v.files[level + 1])
    requires IsCompactionEdit(level, in0, in1, outs, e) && Coherent(FileSet(outs))
    requires forall f :: f in outs ==> n <= f.number < n + |outs|
    ensures Brings(v, e, level + 1, FileSet(outs), n, n + |outs|)
  {
    forall i | 0 <= i < NUM_LEVELS
      ensures AddedAt(e.added, i) == if i == level + 1 then FileSet(outs) else {}
    {
      EditAt(level, in0, in1, outs, e, i);
    }
    EditAt(level, in0, in1, outs, e, level + 1);
    forall f | f in FileSet(in1)
      ensures f.number < n
    {
      assert f in FileSet(v.files[level + 1]) && FileAt(v, level + 1, f);
    }
  }
}
