/**
 Applying version edits (db/version_set.cc:590-755, 801-822, 924-992): the Builder that folds a list of edits into
 one new version, used with one edit by LogAndApply and with a whole manifest by Recover.
 */
module VersionBuilder {
  import opened Keys
  import opened Versions
  import opened CompactionOrder

  /** A version edit: the files removed from and added to each level. */
  datatype Edit = Edit(deleted: set<(nat, nat)>, added: seq<(nat, FileMeta)>)

  ghost function DeletedAt(e: Edit, level: nat): set<nat> {
    set p | p in e.deleted && p.0 == level :: p.1
  }

  ghost function AddedAt(added: seq<(nat, FileMeta)>, level: nat): set<FileMeta> {
    set p | p in added && p.0 == level :: p.1
  }

  ghost function Numbers(fs: set<FileMeta>): set<nat> {
    set f | f in fs :: f.number
  }

  ghost predicate LevelsInRange(e: Edit) {
    (forall p :: p in e.deleted ==> p.0 < NUM_LEVELS) && (forall p :: p in e.added ==> p.0 < NUM_LEVELS)
  }

  /** Insert into a std::set ordered by smallest key and number: an equivalent element keeps its place. */
  function InsertFile(fs: seq<FileMeta>, f: FileMeta): (r: seq<FileMeta>) {
    if fs == [] || BySmallestKey(f, fs[0]) then [f] + fs
    else if BySmallestKey(fs[0], f) then [fs[0]] + InsertFile(fs[1..], f)
    else fs
  }

  lemma SortedCons(f: FileMeta, fs: seq<FileMeta>)
    requires SortedBySmallest(fs) && forall g :: g in fs ==> BySmallestKey(f, g)
    ensures SortedBySmallest([f] + fs)
  {
  }

  lemma {:induction false} InsertFileSorted(fs: seq<FileMeta>, f: FileMeta)
    requires SortedBySmallest(fs) && forall g :: g in fs && g.number == f.number ==> g == f
    ensures SortedBySmallest(InsertFile(fs, f))
    ensures FileSet(InsertFile(fs, f)) == FileSet(fs) + {f}
  {
    if fs == [] {
    } else if BySmallestKey(f, fs[0]) {
      FileSetCons(f, fs);
      SortedCons(f, fs);
    } else if BySmallestKey(fs[0], f) {
      InsertFileSorted(fs[1..], f);
      assert fs == [fs[0]] + fs[1..];
      FileSetCons(fs[0], fs[1..]);
      FileSetCons(fs[0], InsertFile(fs[1..], f));
      assert forall g :: g in InsertFile(fs[1..], f) ==> g in FileSet(fs[1..]) + {f};
      SortedCons(fs[0], InsertFile(fs[1..], f));
    } else {
      assert fs[0].smallest == f.smallest && fs[0].number == f.number;
    }
  }

  /** What a builder knows of one level. */
  datatype LevelState = LevelState(deleted: set<nat>, added: set<FileMeta>)

  /** One edit applied to one level: new deletions first, then every added file cancels its number's deletion. */
  ghost function ApplyAt(st: LevelState, e: Edit, level: nat): LevelState {
    LevelState((st.deleted + DeletedAt(e, level)) - Numbers(AddedAt(e.added, level)),
               st.added + AddedAt(e.added, level))
  }

  ghost function ApplyAllAt(st: LevelState, es: seq<Edit>, level: nat): LevelState {
    if es == [] then st else ApplyAt(ApplyAllAt(st, es[..|es| - 1], level), es[|es| - 1], level)
  }

  /** The files SaveTo lists for one level. */
  ghost function SavedAt(base: set<FileMeta>, st: LevelState): set<FileMeta> {
    set f | f in base + st.added && f.number !in st.deleted
  }

  const FRESH := LevelState({}, {})

  /** The level after installing each edit in turn, a new version after every one. */
  ghost function InstalledAt(base: set<FileMeta>, es: seq<Edit>, level: nat): set<FileMeta> {
    if es == [] then base
    else SavedAt(InstalledAt(base, es[..|es| - 1], level), ApplyAt(FRESH, es[|es| - 1], level))
  }

  /** No file number enters this level twice: not when it is already there and not after it left. */
  ghost predicate EntersOnce(base: set<FileMeta>, es: seq<Edit>, level: nat) {
    if es == [] then true
    else
      var init, last := es[..|es| - 1], es[|es| - 1];
      && EntersOnce(base, init, level)
      && Numbers(AddedAt(last.added, level)) !! Numbers(base + ApplyAllAt(FRESH, init, level).added)
      && Numbers(AddedAt(last.added, level)) !! DeletedAt(last, level)
  }

  /** Replaying a manifest through one builder gives the files that installing every edit in turn gives. */
  lemma {:induction false} ReplayIsInstallation(base: set<FileMeta>, es: seq<Edit>, level: nat)
    requires EntersOnce(base, es, level)
    ensures SavedAt(base, ApplyAllAt(FRESH, es, level)) == InstalledAt(base, es, level)
  {
    if es != [] {
      var init, last := es[..|es| - 1], es[|es| - 1];
      ReplayIsInstallation(base, init, level);
      var st := ApplyAllAt(FRESH, init, level);
      var added := AddedAt(last.added, level);
      assert forall f :: f in base + st.added ==> f.number in Numbers(base + st.added);
      assert forall f :: f in added ==> f.number in Numbers(added);
      var now := SavedAt(base, ApplyAt(st, last, level));
      var stepwise := SavedAt(SavedAt(base, st), ApplyAt(FRESH, last, level));
      forall f
        ensures f in now <==> f in stepwise
      {
        if f in base + st.added { assert f.number !in Numbers(added); }
      }
    }
  }

  /** One number, one file: tables are immutable and numbers are never reused. */
  ghost predicate Coherent(fs: set<FileMeta>) {
    forall f, g :: f in fs && g in fs && f.number == g.number ==> f == g
  }

  lemma AddedAtSnoc(added: seq<(nat, FileMeta)>, n: nat, level: nat)
    requires n < |added|
    ensures AddedAt(added[..n + 1], level) == AddedAt(added[..n], level)
            + (if added[n].0 == level then {added[n].1} else {})
  {
    assert added[..n + 1] == added[..n] + [added[n]];
  }

  /** The first `n` files of an edit applied to one level. */
  ghost function AddPrefix(st: LevelState, added: seq<(nat, FileMeta)>, n: nat, level: nat): LevelState
    requires n <= |added|
  {
    LevelState(st.deleted - Numbers(AddedAt(added[..n], level)), st.added + AddedAt(added[..n], level))
  }

  lemma AddPrefixStep(st: LevelState, added: seq<(nat, FileMeta)>, n: nat, level: nat)
    requires n < |added|
    ensures var p, q := AddPrefix(st, added, n, level), AddPrefix(st, added, n + 1, level);
            q == if added[n].0 == level then LevelState(p.deleted - {added[n].1.number}, p.added + {added[n].1}) else p
  {
    AddedAtSnoc(added, n, level);
    var a := AddedAt(added[..n], level);
    assert Numbers(a + {added[n].1}) == Numbers(a) + {added[n].1.number} by {
      assert added[n].1 in a + {added[n].1};
    }
  }

  /** The merge so far: the first `b` base and `a` added files, in order, all ahead of what is left. */
  ghost predicate Merged(baseFiles: seq<FileMeta>, b: nat, added: seq<FileMeta>, a: nat, deleted: set<nat>,
                         files: seq<FileMeta>)
    requires b <= |baseFiles| && a <= |added|
  {
    && SortedBySmallest(files)
    && (forall f :: f in files <==> (f in baseFiles[..b] || f in added[..a]) && f.number !in deleted)
    && (forall f, j :: f in files && b <= j < |baseFiles| ==> BySmallestKey(f, baseFiles[j]))
    && (forall f, j :: f in files && a <= j < |added| ==> BySmallestKey(f, added[j]))
  }

  lemma MergeBase(baseFiles: seq<FileMeta>, b: nat, added: seq<FileMeta>, a: nat, deleted: set<nat>,
                  files: seq<FileMeta>)
    requires b < |baseFiles| && a <= |added| && SortedBySmallest(baseFiles) && SortedBySmallest(added)
    requires Merged(baseFiles, b, added, a, deleted, files)
    requires a < |added| ==> BySmallestKey(baseFiles[b], added[a])
    ensures Merged(baseFiles, b + 1, added, a, deleted, if baseFiles[b].number in deleted then files
                   else files + [baseFiles[b]])
  {
    assert baseFiles[..b + 1] == baseFiles[..b] + [baseFiles[b]];
    assert forall j :: a < j < |added| ==> BySmallestKey(added[a], added[j]);
  }

  lemma MergeAdded(baseFiles: seq<FileMeta>, b: nat, added: seq<FileMeta>, a: nat, deleted: set<nat>,
                   files: seq<FileMeta>)
    requires b <= |baseFiles| && a < |added| && SortedBySmallest(baseFiles) && SortedBySmallest(added)
    requires Merged(baseFiles, b, added, a, deleted, files)
    requires b < |baseFiles| ==> BySmallestKey(added[a], baseFiles[b])
    ensures Merged(baseFiles, b, added, a + 1, deleted, if added[a].number in deleted then files
                   else files + [added[a]])
  {
    assert added[..a + 1] == added[..a] + [added[a]];
    assert forall j :: b < j < |baseFiles| ==> BySmallestKey(baseFiles[b], baseFiles[j]);
  }

  class Builder {
    const base: Version
    var deletedFiles: seq<set<nat>>
    var addedFiles: seq<seq<FileMeta>>

    ghost predicate Valid()
      reads this
    {
      && |base.files| == |deletedFiles| == |addedFiles| == NUM_LEVELS
      && forall i :: 0 <= i < NUM_LEVELS ==> SortedBySmallest(addedFiles[i])
    }

    ghost function StateAt(level: nat): LevelState
      requires Valid() && level < NUM_LEVELS
      reads this
    {
      LevelState(deletedFiles[level], FileSet(addedFiles[level]))
    }

    constructor (base: Version)
      requires |base.files| == NUM_LEVELS
      ensures Valid() && this.base == base
      ensures forall i :: 0 <= i < NUM_LEVELS ==> StateAt(i) == FRESH
    {
      this.base := base;
      deletedFiles := seq(NUM_LEVELS, _ => {});
      addedFiles := seq(NUM_LEVELS, _ => []);
    }

    /** Record the deletions of an edit. */
    method ApplyDeletions(deleted: set<(nat, nat)>)
      requires Valid() && forall p :: p in deleted ==> p.0 < NUM_LEVELS
      modifies this`deletedFiles
      ensures Valid()
      ensures forall i, n :: 0 <= i < NUM_LEVELS ==>
                (n in deletedFiles[i] <==> n in old(deletedFiles)[i] || (i, n) in deleted)
    {
      var todo := deleted;
      while todo != {}
        invariant Valid() && todo <= deleted
        invariant forall i, n :: 0 <= i < NUM_LEVELS ==>
          (n in deletedFiles[i] <==> n in old(deletedFiles)[i] || (i, n) in deleted - todo)
        decreases todo
      {
        var p :| p in todo;
        todo := todo - {p};
        deletedFiles := deletedFiles[p.0 := deletedFiles[p.0] + {p.1}];
      }
    }

    /** Add one file to a level. */
    method AddFile(level: nat, f: FileMeta)
      requires Valid() && level < NUM_LEVELS && Coherent(StateAt(level).added + {f})
      modifies this
      ensures Valid()
      ensures forall i :: 0 <= i < NUM_LEVELS ==>
        StateAt(i) == if i == level then LevelState(old(StateAt(i)).deleted - {f.number}, old(StateAt(i)).added + {f})
                      else old(StateAt(i))
    {
      assert forall g :: g in addedFiles[level] ==> g in StateAt(level).added;
      InsertFileSorted(addedFiles[level], f);
      deletedFiles := deletedFiles[level := deletedFiles[level] - {f.number}];
      addedFiles := addedFiles[level := InsertFile(addedFiles[level], f)];
    }

    /** Apply: afterwards every level has absorbed the edit. */
    method Apply(e: Edit)
      requires Valid() && LevelsInRange(e)
      requires forall i :: 0 <= i < NUM_LEVELS ==> Coherent(StateAt(i).added + AddedAt(e.added, i))
      modifies this
      ensures Valid()
      ensures forall i :: 0 <= i < NUM_LEVELS ==> StateAt(i) == ApplyAt(old(StateAt(i)), e, i)
    {
      ApplyDeletions(e.deleted);
      forall i | 0 <= i < NUM_LEVELS
        ensures StateAt(i) == AddPrefix(WithDeletions(old(StateAt(i)), e, i), e.added, 0, i)
      {
        DeletedPairs(e, i);
      }
      for n := 0 to |e.added|
        invariant Valid()
        invariant forall i :: 0 <= i < NUM_LEVELS ==>
          StateAt(i) == AddPrefix(WithDeletions(old(StateAt(i)), e, i), e.added, n, i)
      {
        var level, f := e.added[n].0, e.added[n].1;
        assert level < NUM_LEVELS;
        AddedWithin(e, n, level);
        assert f in AddedAt(e.added, level);
        forall i | 0 <= i < NUM_LEVELS
          ensures var st := WithDeletions(old(StateAt(i)), e, i);
                  AddPrefix(st, e.added, n + 1, i)
                  == if i == level
                     then LevelState(AddPrefix(st, e.added, n, i).deleted - {f.number},
                                     AddPrefix(st, e.added, n, i).added + {f})
                     else AddPrefix(st, e.added, n, i)
        {
          AddPrefixStep(WithDeletions(old(StateAt(i)), e, i), e.added, n, i);
        }
        AddFile(level, f);
      }
      assert e.added[..|e.added|] == e.added;
    }

    /** SaveTo for one level: merge the base files with the added ones in order, leaving out the deleted numbers. */
    method SaveLevel(level: nat) returns (files: seq<FileMeta>)
      requires Valid() && level < NUM_LEVELS && SortedBySmallest(base.files[level])
      requires forall f, g :: f in base.files[level] && g in addedFiles[level] ==> f.number != g.number
      ensures SortedBySmallest(files)
      ensures FileSet(files) == SavedAt(FileSet(base.files[level]), StateAt(level))
    {
      var baseFiles, added, deleted := base.files[level], addedFiles[level], deletedFiles[level];
      files := [];
      var b := 0;
      for a := 0 to |added|
        invariant 0 <= b <= |baseFiles|
        invariant Merged(baseFiles, b, added, a, deleted, files)
      {
        while b < |baseFiles| && !BySmallestKey(added[a], baseFiles[b])
          invariant 0 <= b <= |baseFiles|
          invariant Merged(baseFiles, b, added, a, deleted, files)
        {
          assert baseFiles[b].number != added[a].number;
          MergeBase(baseFiles, b, added, a, deleted, files);
          if baseFiles[b].number !in deleted {
            files := files + [baseFiles[b]];
          }
          b := b + 1;
        }
        MergeAdded(baseFiles, b, added, a, deleted, files);
        if added[a].number !in deleted {
          files := files + [added[a]];
        }
      }
      while b < |baseFiles|
        invariant 0 <= b <= |baseFiles|
        invariant Merged(baseFiles, b, added, |added|, deleted, files)
      {
        MergeBase(baseFiles, b, added, |added|, deleted, files);
        if baseFiles[b].number !in deleted {
          files := files + [baseFiles[b]];
        }
        b := b + 1;
      }
      assert baseFiles[..b] == baseFiles && added[..|added|] == added;
    }

    /** SaveTo: all levels. */
    method SaveTo() returns (v: Version)
      requires Valid()
      requires forall i :: 0 <= i < NUM_LEVELS ==>
        SortedBySmallest(base.files[i]) && forall f, g :: f in base.files[i] && g in addedFiles[i] ==>
          f.number != g.number
      ensures |v.files| == NUM_LEVELS
      ensures forall i :: 0 <= i < NUM_LEVELS ==>
        SortedBySmallest(v.files[i]) && FileSet(v.files[i]) == SavedAt(FileSet(base.files[i]), StateAt(i))
    {
      var levels: seq<seq<FileMeta>> := [];
      for i := 0 to NUM_LEVELS
        invariant |levels| == i
        invariant forall j :: 0 <= j < i ==>
          SortedBySmallest(levels[j]) && FileSet(levels[j]) == SavedAt(FileSet(base.files[j]), StateAt(j))
      {
        var files := SaveLevel(i);
        levels := levels + [files];
      }
      v := Version(levels);
    }
  }

  /** `v'` is the version LogAndApply installs for one edit on `v`. */
  ghost predicate Installs(v: Version, e: Edit, v': Version) {
    && |v.files| == |v'.files| == NUM_LEVELS
    && forall i :: 0 <= i < NUM_LEVELS ==>
         SortedBySmallest(v'.files[i]) && FileSet(v'.files[i]) == SavedAt(FileSet(v.files[i]), ApplyAt(FRESH, e, i))
  }

  /** The edit adds files that are new to their levels and consistent among themselves. */
  ghost predicate AddsFresh(v: Version, e: Edit)
    requires |v.files| == NUM_LEVELS
  {
    && LevelsInRange(e)
    && forall i :: 0 <= i < NUM_LEVELS ==>
         Coherent(AddedAt(e.added, i)) && Numbers(AddedAt(e.added, i)) !! Numbers(FileSet(v.files[i]))
  }

  /** What the level lists: the old files that were not deleted and the added ones, by smallest key, then by number. */
  lemma InstalledFiles(v: Version, e: Edit, v': Version, i: nat)
    requires |v.files| == NUM_LEVELS && AddsFresh(v, e) && Installs(v, e, v') && i < NUM_LEVELS
    ensures forall f :: f in v'.files[i] <==> (i, f) in e.added || (f in v.files[i] && (i, f.number) !in e.deleted)
    ensures forall a, b :: 0 <= a < b < |v'.files[i]| ==>
              var f, g := v'.files[i][a], v'.files[i][b];
              Less(f.smallest, g.smallest) || (f.smallest == g.smallest && f.number < g.number)
  {
    assert SortedBySmallest(v'.files[i]);
    forall f
      ensures f in v'.files[i] <==> (i, f) in e.added || (f in v.files[i] && (i, f.number) !in e.deleted)
    {
      assert f in v'.files[i] <==> f in FileSet(v'.files[i]);
      assert f in AddedAt(e.added, i) <==> (i, f) in e.added;
      assert f.number in DeletedAt(e, i) <==> (i, f.number) in e.deleted;
      if f in AddedAt(e.added, i) { assert f.number in Numbers(AddedAt(e.added, i)); }
      if f in v.files[i] { assert f.number in Numbers(FileSet(v.files[i])); }
    }
  }

  /** LogAndApply, as far as the file lists go: one builder, one edit, one new version. */
  method LogAndApply(v: Version, e: Edit) returns (v': Version)
    requires |v.files| == NUM_LEVELS && AddsFresh(v, e)
    requires forall i :: 0 <= i < NUM_LEVELS ==> SortedBySmallest(v.files[i])
    ensures Installs(v, e, v')
  {
    var builder := new Builder(v);
    builder.Apply(e);
    forall i, f, g | 0 <= i < NUM_LEVELS && f in v.files[i] && g in builder.addedFiles[i]
      ensures f.number != g.number
    {
      assert g in builder.StateAt(i).added;
      assert f in FileSet(v.files[i]) && f.number in Numbers(FileSet(v.files[i]));
      assert g.number in Numbers(AddedAt(e.added, i));
    }
    v' := builder.SaveTo();
  }

  lemma FirstIsLeast(a: seq<FileMeta>, f: FileMeta)
    requires SortedBySmallest(a) && f in a
    ensures f == a[0] || BySmallestKey(a[0], f)
  {
    var i :| 0 <= i < |a| && a[i] == f;
  }

  /** Two lists in Builder order with the same files are the same list. */
  lemma {:induction false} SortedListUnique(a: seq<FileMeta>, b: seq<FileMeta>)
    requires SortedBySmallest(a) && SortedBySmallest(b) && FileSet(a) == FileSet(b)
    ensures a == b
  {
    assert forall i :: 0 <= i < |a| ==> a[i] in FileSet(a);
    assert forall i :: 0 <= i < |b| ==> b[i] in FileSet(b);
    if a != [] && b != [] {
      assert a[0] in b && b[0] in a;
      FirstIsLeast(a, b[0]);
      FirstIsLeast(b, a[0]);
      TailSet(a);
      TailSet(b);
      SortedListUnique(a[1..], b[1..]);
      assert a == [a[0]] + a[1..] && b == [b[0]] + b[1..];
    }
  }

  lemma TailSet(a: seq<FileMeta>)
    requires SortedBySmallest(a) && a != []
    ensures FileSet(a[1..]) == FileSet(a) - {a[0]}
    ensures SortedBySmallest(a[1..])
  {
    assert a == [a[0]] + a[1..];
    FileSetCons(a[0], a[1..]);
    assert forall i :: 0 < i < |a| ==> BySmallestKey(a[0], a[i]);
    assert forall i :: 0 <= i < |a| - 1 ==> a[1..][i] == a[i + 1];
  }

  /** A run of versions, each installed by the next edit. */
  ghost predicate History(versions: seq<Version>, edits: seq<Edit>) {
    && |versions| == |edits| + 1
    && |versions[0].files| == NUM_LEVELS && (forall i :: 0 <= i < NUM_LEVELS ==> versions[0].files[i] == [])
    && forall n :: 0 <= n < |edits| ==> Installs(versions[n], edits[n], versions[n + 1])
  }

  lemma {:induction false} HistoryIsInstalled(versions: seq<Version>, edits: seq<Edit>, level: nat)
    requires History(versions, edits) && level < NUM_LEVELS
    ensures |versions[|edits|].files| == NUM_LEVELS
    ensures FileSet(versions[|edits|].files[level]) == InstalledAt({}, edits, level)
    ensures SortedBySmallest(versions[|edits|].files[level])
  {
    var n := |edits|;
    if n > 0 {
      assert History(versions[..n], edits[..n - 1]);
      HistoryIsInstalled(versions[..n], edits[..n - 1], level);
      assert Installs(versions[n - 1], edits[n - 1], versions[n]);
    } else {
      assert FileSet([]) == {};
    }
  }

  ghost function AllAddedAt(edits: seq<Edit>, level: nat): set<FileMeta> {
    set e, f | e in edits && f in AddedAt(e.added, level) :: f
  }

  lemma AllAddedSnoc(edits: seq<Edit>, n: nat, level: nat)
    requires n < |edits|
    ensures AllAddedAt(edits[..n + 1], level) == AllAddedAt(edits[..n], level) + AddedAt(edits[n].added, level)
    ensures AllAddedAt(edits[..n + 1], level) <= AllAddedAt(edits, level)
  {
    assert edits[..n + 1] == edits[..n] + [edits[n]];
  }

  /**
   Recover: apply every edit of the manifest to one builder over the empty version and save once.  The result is
   the version that was current when the last edit had been installed.
   */
  method Recover(edits: seq<Edit>, ghost versions: seq<Version>) returns (v: Version)
    requires History(versions, edits)
    requires forall e :: e in edits ==> LevelsInRange(e)
    requires forall i :: 0 <= i < NUM_LEVELS ==> EntersOnce({}, edits, i) && Coherent(AllAddedAt(edits, i))
    ensures v == versions[|edits|]
  {
    var empty: Version := Version(seq(NUM_LEVELS, _ => []));
    var builder := new Builder(empty);
    for n := 0 to |edits|
      invariant builder.Valid() && fresh(builder)
      invariant forall i :: 0 <= i < NUM_LEVELS ==>
        builder.StateAt(i) == ApplyAllAt(FRESH, edits[..n], i) && builder.StateAt(i).added == AllAddedAt(edits[..n], i)
    {
      forall i | 0 <= i < NUM_LEVELS
        ensures Coherent(builder.StateAt(i).added + AddedAt(edits[n].added, i))
        ensures ApplyAllAt(FRESH, edits[..n + 1], i) == ApplyAt(builder.StateAt(i), edits[n], i)
        ensures AllAddedAt(edits[..n + 1], i) == AllAddedAt(edits[..n], i) + AddedAt(edits[n].added, i)
      {
        AllAddedSnoc(edits, n, i);
        assert edits[..n + 1][..n] == edits[..n];
      }
      builder.Apply(edits[n]);
    }
    assert edits[..|edits|] == edits;
    v := builder.SaveTo();
    assert |versions[|edits|].files| == NUM_LEVELS by { HistoryIsInstalled(versions, edits, 0); }
    forall i | 0 <= i < NUM_LEVELS
      ensures v.files[i] == versions[|edits|].files[i]
    {
      assert FileSet(empty.files[i]) == {};
      ReplayIsInstallation({}, edits, i);
      HistoryIsInstalled(versions, edits, i);
      SortedListUnique(v.files[i], versions[|edits|].files[i]);
    }
    assert v.files == versions[|edits|].files;
  }

  ghost function WithDeletions(st: LevelState, e: Edit, level: nat): LevelState {
    LevelState(st.deleted + DeletedAt(e, level), st.added)
  }

  lemma DeletedPairs(e: Edit, level: nat)
    ensures forall n :: n in DeletedAt(e, level) <==> (level, n) in e.deleted
    ensures AddedAt(e.added[..0], level) == {}
  {
    forall n | (level, n) in e.deleted
      ensures n in DeletedAt(e, level)
    {
      var p := (level, n);
      assert p in e.deleted && p.0 == level && p.1 == n;
    }
  }

  lemma AddedWithin(e: Edit, n: nat, level: nat)
    requires n <= |e.added|
    ensures AddedAt(e.added[..n], level) <= AddedAt(e.added, level)
  {
    forall f | f in AddedAt(e.added[..n], level)
      ensures f in AddedAt(e.added, level)
    {
      var p :| p in e.added[..n] && p.0 == level && p.1 == f;
      assert p in e.added;
    }
  }
}
