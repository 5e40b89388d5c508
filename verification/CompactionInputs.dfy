/**
 Picking the inputs of a compaction (db/version_set.cc): boundary files, SetupOtherInputs, PickCompaction,
 CompactRange, and the level a flushed memtable goes to.
 */
module CompactionInputs {
  import opened Keys
  import opened Lookup
  import opened Versions
  import opened Inputs

  const MAX_MEM_COMPACT_LEVEL: nat := 2

  /** Some file of the level shares the key range. */
  ghost predicate Taken(files: seq<FileMeta>, lo: UserKey, hi: UserKey) {
    exists f :: f in files && Overlaps(f, Some(lo), Some(hi))
  }

  /** Too much of the level below the next one would overlap. */
  ghost predicate TooManyGrandparents(v: Version, level: nat, lo: UserKey, hi: UserKey, maxGrandparentBytes: nat)
    requires level + 2 < |v.files|
  {
    TotalFileSize(Overlapping(v.files[level + 2], Some(lo), Some(hi))) > maxGrandparentBytes
  }

  /**
   PickLevelForMemTableOutput: how deep a new table may go without passing files that share its key range; it stops
   early only where the next level is taken or the overlap below that is too large.
   */
  method PickLevelForMemTableOutput(v: Version, lo: UserKey, hi: UserKey, maxGrandparentBytes: nat) returns (level: nat)
    requires |v.files| == NUM_LEVELS && forall i :: 1 <= i < NUM_LEVELS ==> DisjointSorted(v.files[i])
    ensures level <= MAX_MEM_COMPACT_LEVEL
    ensures level > 0 ==> forall i, f :: 0 <= i <= level && f in v.files[i] ==> !Overlaps(f, Some(lo), Some(hi))
    ensures level == MAX_MEM_COMPACT_LEVEL || Taken(v.files[0], lo, hi) || Taken(v.files[level + 1], lo, hi)
            || TooManyGrandparents(v, level, lo, hi, maxGrandparentBytes)
    ensures forall i :: 0 <= i < level ==> !TooManyGrandparents(v, i, lo, hi, maxGrandparentBytes)
  {
    level := 0;
    var overlap := SomeFileOverlapsRange(false, v.files[0], Some(lo), Some(hi));
    if !overlap {
      while level < MAX_MEM_COMPACT_LEVEL
        invariant level <= MAX_MEM_COMPACT_LEVEL
        invariant forall i, f :: 0 <= i <= level && f in v.files[i] ==> !Overlaps(f, Some(lo), Some(hi))
        invariant forall i :: 0 <= i < level ==> !TooManyGrandparents(v, i, lo, hi, maxGrandparentBytes)
      {
        overlap := SomeFileOverlapsRange(true, v.files[level + 1], Some(lo), Some(hi));
        if overlap {
          break;
        }
        if level + 2 < NUM_LEVELS {
          var overlaps := GetOverlappingInputs(level + 2, v.files[level + 2], Some(lo), Some(hi));
          if TotalFileSize(overlaps) > maxGrandparentBytes {
            break;
          }
        }
        level := level + 1;
      }
    }
  }

  /** A nonempty stretch of consecutive files of a level. */
  ghost predicate IsRun(files: seq<FileMeta>, part: seq<FileMeta>) {
    exists i, j :: 0 <= i < j <= |files| && part == files[i..j]
  }

  /** The overlap test is convex along a sorted level. */
  lemma OverlapBetween(files: seq<FileMeta>, lo: Option<UserKey>, hi: Option<UserKey>, a: nat, b: nat, c: nat)
    requires DisjointSorted(files) && a < b < c < |files|
    requires Overlaps(files[a], lo, hi) && Overlaps(files[c], lo, hi)
    ensures Overlaps(files[b], lo, hi)
  {
    assert Before(files[a], files[b]) && Before(files[b], files[c]);
  }

  lemma SliceSnoc(files: seq<FileMeta>, i: nat, j: nat)
    requires i <= j < |files|
    ensures files[i..j] + [files[j]] == files[i..j + 1]
    ensures i == j ==> files[i..j] == []
  {
  }

  /** Among the first `n` files exactly those in [i, j) overlap the range. */
  ghost predicate OverlapBounds(files: seq<FileMeta>, n: nat, lo: Option<UserKey>, hi: Option<UserKey>, i: nat,
                                j: nat) {
    && i <= j <= n <= |files|
    && (forall m :: i <= m < j ==> Overlaps(files[m], lo, hi))
    && (forall m :: 0 <= m < n && Overlaps(files[m], lo, hi) ==> i <= m < j)
  }

  /** Extending a run of overlapping files past the next file of the level. */
  lemma OverlappingRunStep(files: seq<FileMeta>, n: nat, lo: Option<UserKey>, hi: Option<UserKey>, i: nat, j: nat)
    returns (i': nat, j': nat)
    requires DisjointSorted(files) && n < |files| && OverlapBounds(files, n, lo, hi, i, j)
    ensures OverlapBounds(files, n + 1, lo, hi, i', j')
    ensures files[i'..j'] == files[i..j] + (if Overlaps(files[n], lo, hi) then [files[n]] else [])
  {
    i', j' := i, j;
    if Overlaps(files[n], lo, hi) {
      if i == j {
        i' := n;
      } else if j < n {
        OverlapBetween(files, lo, hi, j - 1, j, n);
      }
      j' := n + 1;
      SliceSnoc(files, i', n);
      if i == j { SliceSnoc(files, i, i); }
    }
  }

  /** In a sorted level the files that overlap a range are consecutive. */
  lemma {:induction false} OverlappingIsRun(files: seq<FileMeta>, n: nat, lo: Option<UserKey>, hi: Option<UserKey>)
    returns (i: nat, j: nat)
    requires DisjointSorted(files) && n <= |files|
    ensures OverlapBounds(files, n, lo, hi, i, j)
    ensures Overlapping(files[..n], lo, hi) == files[i..j]
  {
    if n == 0 {
      i, j := 0, 0;
    } else {
      var i0, j0 := OverlappingIsRun(files, n - 1, lo, hi);
      OverlappingStep(files, n - 1, lo, hi);
      i, j := OverlappingRunStep(files, n - 1, lo, hi, i0, j0);
    }
  }

  /** A boundary file continues, with older entries, the user key that ends at `key`. */
  predicate IsBoundary(f: FileMeta, key: InternalKey) {
    Less(key, f.smallest) && f.smallest.user == key.user
  }

  ghost predicate NoBoundary(files: seq<FileMeta>, key: InternalKey) {
    forall f :: f in files ==> !IsBoundary(f, key)
  }

  /** FindSmallestBoundaryFile. */
  method FindSmallestBoundaryFile(files: seq<FileMeta>, key: InternalKey) returns (r: Option<FileMeta>)
    ensures r.None? ==> NoBoundary(files, key)
    ensures r.Some? ==> r.value in files && IsBoundary(r.value, key)
    ensures r.Some? ==> forall f :: f in files && IsBoundary(f, key) ==> !Less(f.smallest, r.value.smallest)
  {
    r := None;
    for i := 0 to |files|
      invariant r.Some? ==> r.value in files && IsBoundary(r.value, key)
      invariant forall j :: 0 <= j < i && IsBoundary(files[j], key) ==>
                  r.Some? && !Less(files[j].smallest, r.value.smallest)
    {
      var f := files[i];
      if IsBoundary(f, key) {
        if r.None? || Less(f.smallest, r.value.smallest) {
          r := Some(f);
        }
      }
    }
  }

  /** FindLargestKey over a nonempty list. */
  method FindLargestKey(files: seq<FileMeta>) returns (largest: InternalKey)
    requires files != []
    ensures exists i :: 0 <= i < |files| && largest == files[i].largest
    ensures forall i :: 0 <= i < |files| ==> !Less(largest, files[i].largest)
  {
    largest := files[0].largest;
    for i := 1 to |files|
      invariant exists j :: 0 <= j < i && largest == files[j].largest
      invariant forall j :: 0 <= j < i ==> !Less(largest, files[j].largest)
    {
      if Less(largest, files[i].largest) {
        largest := files[i].largest;
      }
    }
  }

  /** `chosen` holds every file that overlaps the span between any two of its own files. */
  ghost predicate ClosedUnderOverlap(files: seq<FileMeta>, chosen: seq<FileMeta>) {
    && (forall f :: f in chosen ==> f in files)
    && forall f, g, h ::
         f in chosen && g in chosen && h in files && Overlaps(h, Some(f.smallest.user), Some(g.largest.user))
         ==> h in chosen
  }

  /** The next boundary file of a run is the file right after it. */
  lemma NextBoundary(files: seq<FileMeta>, j: nat, b: FileMeta)
    requires DisjointSorted(files) && 0 < j <= |files|
    requires b in files && IsBoundary(b, files[j - 1].largest)
    requires forall f :: f in files && IsBoundary(f, files[j - 1].largest) ==> !Less(f.smallest, b.smallest)
    ensures j < |files| && b == files[j]
  {
    var m :| 0 <= m < |files| && files[m] == b;
    assert forall i :: 0 <= i < j - 1 ==> Before(files[i], files[j - 1]);
    assert forall i :: j <= i < |files| ==> Before(files[j - 1], files[i]);
    assert forall i :: j < i < |files| ==> Before(files[j], files[i]);
    assert j <= m;
    assert files[j] in files;
  }

  /** Along a sorted level with unique stamps, one user key's entries get older. */
  lemma EarlierIsNewer(files: seq<FileMeta>, m: nat, n: nat, x: Entry, y: Entry)
    requires DisjointSorted(files) && m < n < |files|
    requires ValidFile(files[m]) && ValidFile(files[n]) && UniqueStamps(Contents(FileSet(files)))
    requires x in files[m].entries && y in files[n].entries && x.key.user == y.key.user
    ensures x.key.sequence > y.key.sequence
  {
    assert Before(files[m], files[n]);
    EntryInRange(files[m], x);
    EntryInRange(files[n], y);
    assert files[m] in FileSet(files) && files[n] in FileSet(files);
    assert x in Contents(FileSet(files)) && y in Contents(FileSet(files));
  }

  /** Past a run without a boundary file, every user key is larger than the run's. */
  lemma KeysPastRun(files: seq<FileMeta>, n: nat, j: nat, m: nat, x: Entry, y: Entry)
    requires DisjointSorted(files) && n < j <= m < |files|
    requires ValidFile(files[m]) && ValidFile(files[n])
    requires !IsBoundary(files[j], files[j - 1].largest)
    requires x in files[m].entries && y in files[n].entries
    ensures y.key.user < x.key.user
  {
    EntryInRange(files[m], x);
    EntryInRange(files[n], y);
    assert Before(files[j - 1], files[j]);
    if n < j - 1 { assert Before(files[n], files[j - 1]); }
    if j < m { assert Before(files[j], files[m]); }
  }

  lemma IndexOutside(files: seq<FileMeta>, i: nat, j: nat, f: FileMeta) returns (m: nat)
    requires i <= j <= |files| && f in files && f !in files[i..j]
    ensures m < |files| && files[m] == f && !(i <= m < j)
  {
    m :| 0 <= m < |files| && files[m] == f;
    assert forall n :: i <= n < j ==> files[n] == files[i..j][n - i];
  }

  /** Outside a run without a boundary file, a sorted level holds nothing older of the run's user keys. */
  lemma RunIsOldestOfItsKeys(files: seq<FileMeta>, i: nat, j: nat)
    requires DisjointSorted(files) && i < j <= |files|
    requires ValidFiles(FileSet(files)) && UniqueStamps(Contents(FileSet(files)))
    requires j < |files| ==> !IsBoundary(files[j], files[j - 1].largest)
    ensures NewerThan(Contents(FileSet(files) - FileSet(files[i..j])), Contents(FileSet(files[i..j])))
  {
    hide DisjointSorted, ValidFile, UniqueStamps, IsBoundary;
    var part := FileSet(files[i..j]);
    forall x, y | x in Contents(FileSet(files) - part) && y in Contents(part) && x.key.user == y.key.user
      ensures x.key.sequence > y.key.sequence
    {
      var f :| f in FileSet(files) - part && x in f.entries;
      var g :| g in part && y in g.entries;
      var m := IndexOutside(files, i, j, f);
      var n :| 0 <= n < j - i && files[i..j][n] == g;
      assert files[i + n] == g && g in FileSet(files);
      if m < i {
        EarlierIsNewer(files, m, i + n, x, y);
      } else {
        KeysPastRun(files, i + n, j, m, x, y);
      }
    }
  }

  /** The files that start after `key`: what each boundary step shrinks. */
  ghost function FilesPast(files: seq<FileMeta>, key: InternalKey): set<FileMeta> {
    set f | f in files && Less(key, f.smallest)
  }

  lemma PastShrinks(files: seq<FileMeta>, key: InternalKey, f: FileMeta)
    requires f in files && Less(key, f.smallest) && !Less(f.largest, f.smallest)
    ensures FilesPast(files, f.largest) < FilesPast(files, key)
  {
    assert f in FilesPast(files, key) && f !in FilesPast(files, f.largest);
  }

  /** What the boundary search keeps: a run grows as a run, a closed set never grows. */
  ghost predicate Grown(files: seq<FileMeta>, chosen: seq<FileMeta>, r: seq<FileMeta>, largest: InternalKey) {
    && FileSet(chosen) <= FileSet(r) <= FileSet(files)
    && (DisjointSorted(files) && IsRun(files, chosen) ==> IsRun(files, r) && largest == r[|r| - 1].largest)
    && (ClosedUnderOverlap(files, chosen) ==> r == chosen && NoBoundary(files, largest))
  }

  lemma Grow(files: seq<FileMeta>, chosen: seq<FileMeta>, r: seq<FileMeta>, largest: InternalKey, b: FileMeta)
    requires Grown(files, chosen, r, largest)
    requires b in files && IsBoundary(b, largest)
    requires forall f :: f in files && IsBoundary(f, largest) ==> !Less(f.smallest, b.smallest)
    ensures Grown(files, chosen, r + [b], b.largest)
  {
    assert FileSet(r + [b]) == FileSet(r) + {b};
    if DisjointSorted(files) && IsRun(files, chosen) {
      ExtendRun(files, r, b);
    }
  }

  /**
   AddBoundaryInputs: extend the chosen files while a boundary file exists.  A run of a sorted level stays a run and
   ends where no file continues its last user key; a set closed under overlap is left alone.
   */
  method AddBoundaryInputs(files: seq<FileMeta>, chosen: seq<FileMeta>) returns (r: seq<FileMeta>)
    requires FileSet(chosen) <= FileSet(files)
    requires forall f :: f in files ==> !Less(f.largest, f.smallest)
    ensures FileSet(chosen) <= FileSet(r) <= FileSet(files)
    ensures DisjointSorted(files) && IsRun(files, chosen) ==> IsRun(files, r) && NoBoundary(files, r[|r| - 1].largest)
    ensures ClosedUnderOverlap(files, chosen) ==> r == chosen
  {
    r := chosen;
    if chosen == [] {
      return;
    }
    var largest := FindLargestKey(chosen);
    if DisjointSorted(files) && IsRun(files, chosen) { LastIsLargest(files, chosen, largest); }
    if ClosedUnderOverlap(files, chosen) { NoBoundaryOfClosed(files, chosen, largest); }
    var searching := true;
    while searching
      invariant Grown(files, chosen, r, largest)
      invariant !searching ==> NoBoundary(files, largest)
      decreases searching, FilesPast(files, largest)
    {
      var b := FindSmallestBoundaryFile(files, largest);
      if b.Some? {
        Grow(files, chosen, r, largest, b.value);
        PastShrinks(files, largest, b.value);
        r, largest := r + [b.value], b.value.largest;
      } else {
        searching := false;
      }
    }
  }

  lemma NoBoundaryOfClosed(files: seq<FileMeta>, chosen: seq<FileMeta>, largest: InternalKey)
    requires forall f :: f in files ==> !Less(f.largest, f.smallest)
    requires ClosedUnderOverlap(files, chosen)
    requires exists i :: 0 <= i < |chosen| && largest == chosen[i].largest
    requires forall i :: 0 <= i < |chosen| ==> !Less(largest, chosen[i].largest)
    ensures NoBoundary(files, largest)
  {
    var i :| 0 <= i < |chosen| && largest == chosen[i].largest;
    forall f | f in files && IsBoundary(f, largest)
      ensures false
    {
      assert chosen[i] in chosen;
      assert Overlaps(f, Some(chosen[i].smallest.user), Some(chosen[i].largest.user));
    }
  }

  lemma LastIsLargest(files: seq<FileMeta>, part: seq<FileMeta>, largest: InternalKey)
    requires DisjointSorted(files) && IsRun(files, part)
    requires exists i :: 0 <= i < |part| && largest == part[i].largest
    requires forall i :: 0 <= i < |part| ==> !Less(largest, part[i].largest)
    ensures largest == part[|part| - 1].largest
  {
    hide DisjointSorted, Less;
    var i, j :| 0 <= i < j <= |files| && part == files[i..j];
    var n :| 0 <= n < |part| && largest == part[n].largest;
    assert part[n] == files[i + n] && part[|part| - 1] == files[j - 1];
    LargestAscends(files, i + n, j - 1);
  }

  lemma LargestAscends(files: seq<FileMeta>, m: nat, n: nat)
    requires DisjointSorted(files) && m <= n < |files|
    ensures m == n || Less(files[m].largest, files[n].largest)
  {
    assert m < n ==> Before(files[m], files[n]);
  }

  lemma ExtendRun(files: seq<FileMeta>, part: seq<FileMeta>, b: FileMeta)
    requires DisjointSorted(files) && IsRun(files, part)
    requires b in files && IsBoundary(b, part[|part| - 1].largest)
    requires forall f :: f in files && IsBoundary(f, part[|part| - 1].largest) ==> !Less(f.smallest, b.smallest)
    ensures IsRun(files, part + [b])
  {
    var i, j :| 0 <= i < j <= |files| && part == files[i..j];
    NextBoundary(files, j, b);
    assert part + [b] == files[i..j + 1];
  }
}
