/**
 From the entry runs the compaction loop wrote to numbered table files (db/db_impl.cc:786-876).
 */
module Outputs {
  import opened Keys
  import opened Lookup
  import opened Versions
  import opened Compactions
  import opened CompactionOrder
  import opened VersionBuilder

  /** A finished table: its metadata is read off its first and last entries. */
  function TableOf(number: nat, size: nat, entries: seq<Entry>): FileMeta
    requires entries != []
  {
    FileMeta(number, size, entries[0].key, entries[|entries| - 1].key, entries)
  }

  /** The output files, numbered from `first` on. */
  function OutputFiles(parts: seq<seq<Entry>>, first: nat, sizes: seq<nat>): (r: seq<FileMeta>)
    requires |sizes| >= |parts| && NonEmptyParts(parts)
    ensures |r| == |parts|
    ensures forall i :: 0 <= i < |r| ==> r[i] == TableOf(first + i, sizes[i], parts[i])
  {
    seq(|parts|, i requires 0 <= i < |parts| => TableOf(first + i, sizes[i], parts[i]))
  }

  /** Where the i-th part sits in the concatenation. */
  function PartStart(parts: seq<seq<Entry>>, i: nat): nat
    requires i <= |parts|
  {
    if i == 0 then 0 else PartStart(parts, i - 1) + |parts[i - 1]|
  }

  lemma {:induction false} FlattenAt(parts: seq<seq<Entry>>, i: nat, j: nat)
    requires i < |parts| && j < |parts[i]|
    ensures PartStart(parts, i) + j < |Flatten(parts)|
    ensures Flatten(parts)[PartStart(parts, i) + j] == parts[i][j]
    ensures PartStart(parts, i + 1) <= |Flatten(parts)|
    decreases |parts|
  {
    var init := parts[..|parts| - 1];
    if i < |parts| - 1 {
      FlattenAt(init, i, j);
      StartOfPrefix(parts, |parts| - 1, i);
      StartOfPrefix(parts, |parts| - 1, i + 1);
    } else {
      StartOfPrefix(parts, |parts| - 1, i);
      StartIsLength(init);
    }
  }

  lemma {:induction false} StartOfPrefix(parts: seq<seq<Entry>>, n: nat, i: nat)
    requires i <= n <= |parts|
    ensures PartStart(parts[..n], i) == PartStart(parts, i)
  {
    if i > 0 { StartOfPrefix(parts, n, i - 1); }
  }

  lemma {:induction false} StartIsLength(parts: seq<seq<Entry>>)
    ensures PartStart(parts, |parts|) == |Flatten(parts)|
  {
    if parts != [] {
      var n := |parts| - 1;
      StartIsLength(parts[..n]);
      StartOfPrefix(parts, n, n);
    }
  }

  lemma {:induction false} StartsAscend(parts: seq<seq<Entry>>, i: nat, j: nat)
    requires i < j <= |parts|
    ensures PartStart(parts, i) + |parts[i]| <= PartStart(parts, j)
  {
    if i + 1 < j { StartsAscend(parts, i, j - 1); }
  }

  lemma {:induction false} FlattenFrom(parts: seq<seq<Entry>>, e: Entry) returns (i: nat)
    requires e in Flatten(parts)
    ensures i < |parts| && e in parts[i]
  {
    var n := |parts| - 1;
    if e in parts[n] {
      i := n;
    } else {
      i := FlattenFrom(parts[..n], e);
    }
  }

  lemma OutputContents(parts: seq<seq<Entry>>, files: seq<FileMeta>)
    requires |files| == |parts| && forall i :: 0 <= i < |parts| ==> files[i].entries == parts[i]
    ensures Contents(FileSet(files)) == EntrySet(Flatten(parts))
  {
    forall e | e in Contents(FileSet(files))
      ensures e in Flatten(parts)
    {
      var f :| f in FileSet(files) && e in f.entries;
      var i :| 0 <= i < |files| && files[i] == f;
      var j :| 0 <= j < |parts[i]| && parts[i][j] == e;
      FlattenAt(parts, i, j);
    }
    forall e | e in Flatten(parts)
      ensures e in Contents(FileSet(files))
    {
      var i := FlattenFrom(parts, e);
      assert files[i] in FileSet(files) && e in files[i].entries;
    }
  }

  lemma OutputShapes(parts: seq<seq<Entry>>, first: nat, sizes: seq<nat>)
    requires |sizes| >= |parts| && NonEmptyParts(parts) && Sorted(Flatten(parts))
    ensures forall i :: 0 <= i < |parts| ==> ValidFile(OutputFiles(parts, first, sizes)[i])
    ensures forall i, j :: 0 <= i < j < |parts| ==>
      Before(OutputFiles(parts, first, sizes)[i], OutputFiles(parts, first, sizes)[j])
  {
    var files := OutputFiles(parts, first, sizes);
    forall i | 0 <= i < |parts|
      ensures ValidFile(files[i])
    {
      PieceSorted(parts, i);
    }
    forall i, j | 0 <= i < j < |parts|
      ensures Before(files[i], files[j])
    {
      PiecesOrdered(parts, i, j);
    }
  }

  /** A list of files each wholly before the next ones is pairwise disjoint as a set. */
  lemma ListDisjoint(files: seq<FileMeta>)
    requires forall i, j :: 0 <= i < j < |files| ==> Before(files[i], files[j])
    ensures PairwiseDisjoint(FileSet(files))
  {
    forall f, g | f in FileSet(files) && g in FileSet(files) && f != g
      ensures Before(f, g) || Before(g, f)
    {
      var i :| 0 <= i < |files| && files[i] == f;
      var j :| 0 <= j < |files| && files[j] == g;
    }
  }

  lemma ListCoherent(files: seq<FileMeta>, first: nat)
    requires forall i :: 0 <= i < |files| ==> files[i].number == first + i
    ensures Coherent(FileSet(files))
    ensures forall f :: f in files ==> first <= f.number < first + |files|
  {
    forall f, g | f in FileSet(files) && g in FileSet(files) && f.number == g.number
      ensures f == g
    {
      var i :| 0 <= i < |files| && files[i] == f;
      var j :| 0 <= j < |files| && files[j] == g;
    }
  }

  /** Cutting a sorted run into nonempty pieces gives valid, pairwise disjoint files with the same entries. */
  lemma OutputFilesValid(parts: seq<seq<Entry>>, first: nat, sizes: seq<nat>, files: seq<FileMeta>)
    requires |sizes| >= |parts| && NonEmptyParts(parts) && Sorted(Flatten(parts))
    requires files == OutputFiles(parts, first, sizes)
    ensures ValidFiles(FileSet(files)) && PairwiseDisjoint(FileSet(files)) && Coherent(FileSet(files))
    ensures Contents(FileSet(files)) == EntrySet(Flatten(parts))
    ensures forall f :: f in files ==> first <= f.number < first + |files|
  {
    OutputShapes(parts, first, sizes);
    OutputContents(parts, files);
    ListDisjoint(files);
    ListCoherent(files, first);
  }

  lemma PieceSorted(parts: seq<seq<Entry>>, i: nat)
    requires i < |parts| && Sorted(Flatten(parts))
    ensures Sorted(parts[i])
  {
    forall a, b | 0 <= a < b < |parts[i]|
      ensures Less(parts[i][a].key, parts[i][b].key)
    {
      FlattenAt(parts, i, a);
      FlattenAt(parts, i, b);
    }
  }

  lemma PiecesOrdered(parts: seq<seq<Entry>>, i: nat, j: nat)
    requires i < j < |parts| && parts[i] != [] && parts[j] != [] && Sorted(Flatten(parts))
    ensures Less(parts[i][|parts[i]| - 1].key, parts[j][0].key)
  {
    FlattenAt(parts, i, |parts[i]| - 1);
    FlattenAt(parts, j, 0);
    StartsAscend(parts, i, j);
  }
}
