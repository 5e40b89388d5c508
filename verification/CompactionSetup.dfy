/**
 Completing the inputs of a compaction (db/version_set.cc:1205-1495): SetupOtherInputs with its expansion step,
 and the two callers PickCompaction and CompactRange.
 */
module CompactionSetup {
  import opened Keys
  import opened Lookup
  import opened Versions
  import opened Inputs
  import opened CompactionInputs

  /** What the callers of SetupOtherInputs hand over: a closed set at level 0, a run of files above it. */
  ghost predicate SeedInputs(v: Version, level: nat, seed: seq<FileMeta>)
    requires level < |v.files|
  {
    && seed != []
    && (if level == 0 then ClosedUnderOverlap(v.files[0], seed) && Distinct(seed) else IsRun(v.files[level], seed))
  }

  lemma SeedDistinct(v: Version, level: nat, seed: seq<FileMeta>)
    requires level < |v.files| && SeedInputs(v, level, seed) && (level > 0 ==> DisjointSorted(v.files[level]))
    ensures Distinct(seed)
  {
    if level > 0 {
      var i, j :| 0 <= i < j <= |v.files[level]| && seed == v.files[level][i..j];
      SortedDistinct(v.files[level], i, j);
    }
  }

  /** Every user key of `part` lies in [lo, hi]. */
  ghost predicate SpannedBy(part: seq<FileMeta>, lo: UserKey, hi: UserKey) {
    forall f :: f in part ==> lo <= f.smallest.user && f.largest.user <= hi
  }

  /** [lo, hi] is the range of the user keys of `part`. */
  ghost predicate RangeOf(part: seq<FileMeta>, lo: UserKey, hi: UserKey) {
    SpannedBy(part, lo, hi) && (exists f :: f in part && f.smallest.user == lo)
      && (exists f :: f in part && f.largest.user == hi)
  }

  /**
   The inputs a compaction may use.  No remaining file of `level` is older on a shared user key, and the files of
   `level + 1` are exactly those that overlap the user-key range of the `level` inputs.
   */
  ghost predicate LegalInputs(v: Version, level: nat, in0: seq<FileMeta>, in1: seq<FileMeta>) {
    && |v.files| == NUM_LEVELS && level + 1 < NUM_LEVELS
    && in0 != [] && Distinct(in0) && FileSet(in0) <= FileSet(v.files[level])
    && NewerThan(Contents(FileSet(v.files[level]) - FileSet(in0)), Contents(FileSet(in0)))
    && (level > 0 ==> IsRun(v.files[level], in0))
    && LowerInputs(v, level, in0, in1)
  }

  ghost predicate LowerInputs(v: Version, level: nat, in0: seq<FileMeta>, in1: seq<FileMeta>)
    requires level + 1 < |v.files|
  {
    exists lo, hi :: RangeOf(in0, lo, hi) && in1 == Overlapping(v.files[level + 1], Some(lo), Some(hi))
  }

  lemma LowerRange(v: Version, level: nat, in0: seq<FileMeta>, in1: seq<FileMeta>) returns (lo: UserKey, hi: UserKey)
    requires LegalInputs(v, level, in0, in1)
    ensures level + 1 < |v.files| == NUM_LEVELS && SpannedBy(in0, lo, hi)
    ensures in1 == Overlapping(v.files[level + 1], Some(lo), Some(hi)) && FileSet(in1) <= FileSet(v.files[level + 1])
    ensures forall g :: g in v.files[level + 1] && Overlaps(g, Some(lo), Some(hi)) ==> g in in1
    ensures FileSet(in0) <= FileSet(v.files[level])
  {
    lo, hi :| RangeOf(in0, lo, hi) && in1 == Overlapping(v.files[level + 1], Some(lo), Some(hi));
  }

  /** GetRange: the least and greatest internal keys of a nonempty list of files. */
  method GetRange(inputs: seq<FileMeta>) returns (smallest: InternalKey, largest: InternalKey)
    requires inputs != []
    ensures forall f :: f in inputs ==> !Less(f.smallest, smallest) && !Less(largest, f.largest)
    ensures exists f :: f in inputs && smallest == f.smallest
    ensures exists f :: f in inputs && largest == f.largest
  {
    smallest, largest := inputs[0].smallest, inputs[0].largest;
    for i := 1 to |inputs|
      invariant forall j :: 0 <= j < i ==> !Less(inputs[j].smallest, smallest) && !Less(largest, inputs[j].largest)
      invariant exists j :: 0 <= j < i && smallest == inputs[j].smallest
      invariant exists j :: 0 <= j < i && largest == inputs[j].largest
    {
      if Less(inputs[i].smallest, smallest) {
        smallest := inputs[i].smallest;
      }
      if Less(largest, inputs[i].largest) {
        largest := inputs[i].largest;
      }
    }
  }

  /** A closed set shares no user key with the files it leaves behind. */
  lemma ClosedIsOldest(files: seq<FileMeta>, part: seq<FileMeta>)
    requires ValidFiles(FileSet(files)) && ClosedUnderOverlap(files, part)
    ensures NewerThan(Contents(FileSet(files) - FileSet(part)), Contents(FileSet(part)))
  {
    forall x, y | x in Contents(FileSet(files) - FileSet(part)) && y in Contents(FileSet(part))
      ensures x.key.user != y.key.user
    {
      var f :| f in FileSet(files) - FileSet(part) && x in f.entries;
      var g :| g in FileSet(part) && y in g.entries;
      EntryInRange(f, x);
      EntryInRange(g, y);
    }
  }

  lemma RunIsOldest(files: seq<FileMeta>, part: seq<FileMeta>)
    requires DisjointSorted(files) && ValidFiles(FileSet(files)) && UniqueStamps(Contents(FileSet(files)))
    requires IsRun(files, part) && NoBoundary(files, part[|part| - 1].largest)
    ensures NewerThan(Contents(FileSet(files) - FileSet(part)), Contents(FileSet(part)))
  {
    var i, j :| 0 <= i < j <= |files| && part == files[i..j];
    assert j < |files| ==> files[j] in files;
    RunIsOldestOfItsKeys(files, i, j);
  }

  lemma LevelFacts(v: Version, level: nat)
    requires ValidVersion(v) && level < NUM_LEVELS
    ensures ValidFiles(FileSet(v.files[level])) && UniqueStamps(Contents(FileSet(v.files[level])))
    ensures level > 0 ==> DisjointSorted(v.files[level])
    ensures forall f :: f in v.files[level] ==> !Less(f.largest, f.smallest)
  {
    assert LevelEntries(v, level) <= AllEntries(v);
    forall f | f in v.files[level]
      ensures !Less(f.largest, f.smallest)
    {
      assert f in FileSet(v.files[level]);
    }
  }

  /** Boundary-complete seeds are the oldest holders of their user keys at their level. */
  method CompleteSeed(v: Version, level: nat, seed: seq<FileMeta>) returns (r: seq<FileMeta>)
    requires ValidVersion(v) && level < NUM_LEVELS && SeedInputs(v, level, seed)
    ensures SeedInputs(v, level, r) && FileSet(seed) <= FileSet(r) <= FileSet(v.files[level])
    ensures NewerThan(Contents(FileSet(v.files[level]) - FileSet(r)), Contents(FileSet(r))) && Distinct(r)
  {
    LevelFacts(v, level);
    assert FileSet(seed) <= FileSet(v.files[level]);
    r := AddBoundaryInputs(v.files[level], seed);
    if level == 0 {
      ClosedIsOldest(v.files[0], r);
    } else {
      RunIsOldest(v.files[level], r);
    }
    SeedDistinct(v, level, r);
  }

  /** A bounded range query is a seed when it finds anything. */
  lemma QueryIsSeed(v: Version, level: nat, begin: Option<UserKey>, end: Option<UserKey>, found: seq<FileMeta>)
    requires ValidVersion(v) && level < NUM_LEVELS && found != []
    requires level > 0 ==> found == Overlapping(v.files[level], begin, end)
    requires level == 0 ==> Closed(v.files[0], FileSet(found), begin, end) && Distinct(found)
    ensures SeedInputs(v, level, found)
  {
    if level > 0 {
      assert v.files[level][..|v.files[level]|] == v.files[level];
      var i, j := OverlappingIsRun(v.files[level], |v.files[level]|, begin, end);
    } else {
      forall f, g, h | f in found && g in found && h in v.files[0]
        && Overlaps(h, Some(f.smallest.user), Some(g.largest.user))
        ensures h in found
      {
        var lo := if begin.None? then None else Some(f.smallest.user);
        var hi := if end.None? then None else Some(g.largest.user);
        assert f in FileSet(found) && g in FileSet(found);
        assert LowBound(FileSet(found), begin, lo) && HighBound(FileSet(found), end, hi) && Overlaps(h, lo, hi);
        assert h in FileSet(found);
      }
      assert forall f :: f in found ==> f in FileSet(found);
    }
  }

  /** A query finds every file that overlaps its range. */
  lemma QueryFinds(files: seq<FileMeta>, level: nat, begin: Option<UserKey>, end: Option<UserKey>,
                   found: seq<FileMeta>, f: FileMeta)
    requires level > 0 ==> found == Overlapping(files, begin, end)
    requires level == 0 ==> Closed(files, FileSet(found), begin, end)
    requires f in files && Overlaps(f, begin, end)
    ensures f in found
  {
    if level == 0 {
      assert LowBound(FileSet(found), begin, begin) && HighBound(FileSet(found), end, end);
      assert f in FileSet(found);
    }
  }

  /** The range GetRange finds is that of the user keys. */
  lemma RangeIs(part: seq<FileMeta>, smallest: InternalKey, largest: InternalKey)
    requires forall f :: f in part ==> !Less(f.smallest, smallest) && !Less(largest, f.largest)
    requires (exists f :: f in part && smallest == f.smallest) && (exists f :: f in part && largest == f.largest)
    ensures RangeOf(part, smallest.user, largest.user)
  {
    var f :| f in part && smallest == f.smallest;
    var g :| g in part && largest == g.largest;
    assert f.smallest.user == smallest.user && g.largest.user == largest.user;
  }

  /** The grandparents of a compaction: what overlaps the range of all its inputs two levels down. */
  ghost predicate GrandparentsOf(v: Version, level: nat, inputs: seq<FileMeta>, grandparents: seq<FileMeta>)
    requires |v.files| == NUM_LEVELS
  {
    if level + 2 < NUM_LEVELS then
      exists lo, hi :: RangeOf(inputs, lo, hi) && grandparents == Overlapping(v.files[level + 2], Some(lo), Some(hi))
    else grandparents == []
  }

  /**
   SetupOtherInputs: the result holds the seed and satisfies `LegalInputs`, whether or not the inputs are expanded.
   */
  method SetupOtherInputs(v: Version, level: nat, seed: seq<FileMeta>, expandedByteLimit: nat)
    returns (in0: seq<FileMeta>, in1: seq<FileMeta>, grandparents: seq<FileMeta>, pointer: InternalKey)
    requires ValidVersion(v) && Distinct(v.files[0]) && level + 1 < NUM_LEVELS && SeedInputs(v, level, seed)
    ensures LegalInputs(v, level, in0, in1) && FileSet(seed) <= FileSet(in0)
    ensures GrandparentsOf(v, level, in0 + in1, grandparents)
    ensures (forall f :: f in in0 ==> !Less(pointer, f.largest)) && exists f :: f in in0 && f.largest == pointer
  {
    in0 := CompleteSeed(v, level, seed);
    var smallest, largest := GetRange(in0);
    RangeIs(in0, smallest, largest);
    in1 := GetOverlappingInputs(level + 1, v.files[level + 1], Some(smallest.user), Some(largest.user));
    var allStart, allLimit := GetRange(in0 + in1);
    if in1 != [] {
      var expanded, expanded0, expanded1, newLargest :=
        Expand(v, level, in0, in1, allStart, allLimit, expandedByteLimit);
      if expanded {
        largest := newLargest;
        in0, in1 := expanded0, expanded1;
        allStart, allLimit := GetRange(in0 + in1);
      }
    }
    grandparents := [];
    if level + 2 < NUM_LEVELS {
      RangeIs(in0 + in1, allStart, allLimit);
      grandparents := GetOverlappingInputs(level + 2, v.files[level + 2], Some(allStart.user), Some(allLimit.user));
    }
    pointer := largest;
  }

  /** The expansion step: more inputs at `level`, if that brings in no more files of `level + 1`. */
  method Expand(v: Version, level: nat, in0: seq<FileMeta>, in1: seq<FileMeta>, allStart: InternalKey,
                allLimit: InternalKey,
                expandedByteLimit: nat)
    returns (expanded: bool, expanded0: seq<FileMeta>, expanded1: seq<FileMeta>, newLargest: InternalKey)
    requires ValidVersion(v) && Distinct(v.files[0]) && level + 1 < NUM_LEVELS
             && FileSet(in0) <= FileSet(v.files[level])
    requires forall f :: f in in0 ==> !Less(f.smallest, allStart) && !Less(allLimit, f.largest)
    ensures expanded ==> LegalInputs(v, level, expanded0, expanded1) && FileSet(in0) <= FileSet(expanded0)
    ensures expanded ==> |expanded0| > |in0| && |expanded1| == |in1|
    ensures expanded ==> forall f :: f in expanded0 ==> !Less(newLargest, f.largest)
    ensures expanded ==> exists f :: f in expanded0 && f.largest == newLargest
  {
    expanded, expanded1, newLargest := false, [], allLimit;
    expanded0 := GetOverlappingInputs(level, v.files[level], Some(allStart.user), Some(allLimit.user));
    forall f | f in FileSet(in0)
      ensures f in FileSet(expanded0)
    {
      LevelFacts(v, level);
      assert f in FileSet(v.files[level]);
      QueryFinds(v.files[level], level, Some(allStart.user), Some(allLimit.user), expanded0, f);
    }
    if expanded0 != [] {
      QueryIsSeed(v, level, Some(allStart.user), Some(allLimit.user), expanded0);
      expanded0 := CompleteSeed(v, level, expanded0);
    }
    if |expanded0| > |in0| && TotalFileSize(in1) + TotalFileSize(expanded0) < expandedByteLimit {
      var newStart, newLimit := GetRange(expanded0);
      RangeIs(expanded0, newStart, newLimit);
      expanded1 := GetOverlappingInputs(level + 1, v.files[level + 1], Some(newStart.user), Some(newLimit.user));
      if |expanded1| == |in1| {
        expanded, newLargest := true, newLimit;
      }
    }
  }

  /** Why PickCompaction runs: too much data in a level (with its saved compact pointer) or a file read too often. */
  datatype Trigger = SizeTrigger(level: nat, pointer: Option<InternalKey>) | SeekTrigger(level: nat, index: nat)

  /**
   The file PickCompaction starts from: the first one past the compact pointer, round robin, or the one read too often.
   */
  ghost predicate Picked(files: seq<FileMeta>, trigger: Trigger, i: nat) {
    && i < |files|
    && match trigger
       case SeekTrigger(_, index) => i == index
       case SizeTrigger(_, None) => i == 0
       case SizeTrigger(_, Some(p)) =>
         || (Less(p, files[i].largest) && forall j :: 0 <= j < i ==> !Less(p, files[j].largest))
         || (i == 0 && forall j :: 0 <= j < |files| ==> !Less(p, files[j].largest))
  }

  /** PickCompaction. */
  method PickCompaction(v: Version, trigger: Trigger, expandedByteLimit: nat)
    returns (in0: seq<FileMeta>, in1: seq<FileMeta>, grandparents: seq<FileMeta>, pointer: InternalKey)
    requires ValidVersion(v) && Distinct(v.files[0]) && trigger.level + 1 < NUM_LEVELS && v.files[trigger.level] != []
    requires trigger.SeekTrigger? ==> trigger.index < |v.files[trigger.level]|
    ensures LegalInputs(v, trigger.level, in0, in1) && GrandparentsOf(v, trigger.level, in0 + in1, grandparents)
    ensures exists i: nat :: Picked(v.files[trigger.level], trigger, i) && v.files[trigger.level][i] in in0
  {
    var level := trigger.level;
    var files := v.files[level];
    var pick := 0;
    if trigger.SizeTrigger? {
      while pick < |files| && trigger.pointer.Some? && !Less(trigger.pointer.value, files[pick].largest)
        invariant 0 <= pick <= |files|
        invariant trigger.pointer.Some? ==> forall j :: 0 <= j < pick ==> !Less(trigger.pointer.value, files[j].largest)
        invariant trigger.pointer.None? ==> pick == 0
      {
        pick := pick + 1;
      }
      if pick == |files| {
        pick := 0;
      }
    } else {
      pick := trigger.index;
    }
    assert Picked(files, trigger, pick);
    var seed := [files[pick]];
    if level == 0 {
      var smallest, largest := GetRange(seed);
      seed := GetOverlappingInputs(0, files, Some(smallest.user), Some(largest.user));
      LevelFacts(v, 0);
      QueryFinds(files, 0, Some(smallest.user), Some(largest.user), seed, files[pick]);
      QueryIsSeed(v, 0, Some(smallest.user), Some(largest.user), seed);
    } else {
      assert seed == files[pick..pick + 1];
    }
    assert files[pick] in FileSet(seed);
    in0, in1, grandparents, pointer := SetupOtherInputs(v, level, seed, expandedByteLimit);
    assert files[pick] in FileSet(in0);
  }

  /** How many files a manual compaction starts with: up to the one that brings their size to the limit. */
  ghost function LimitedCount(files: seq<FileMeta>, total: nat, limit: nat): (n: nat)
    ensures n <= |files| && (files != [] ==> n > 0)
  {
    if files == [] then 0
    else if total + files[0].size >= limit then 1
    else 1 + LimitedCount(files[1..], total + files[0].size, limit)
  }

  /** The first files of a query, up to the size limit, are among the inputs. */
  ghost predicate HoldsFirst(query: seq<FileMeta>, limit: nat, in0: seq<FileMeta>) {
    forall i :: 0 <= i < LimitedCount(query, 0, limit) ==> query[i] in in0
  }

  /** CompactRange: a manual compaction of [begin, end]; above level 0 the inputs stop at `fileSizeLimit` bytes. */
  method CompactRange(v: Version, level: nat, begin: Option<UserKey>, end: Option<UserKey>,
                      fileSizeLimit: nat, expandedByteLimit: nat)
    returns (found: bool, in0: seq<FileMeta>, in1: seq<FileMeta>, grandparents: seq<FileMeta>)
    requires ValidVersion(v) && Distinct(v.files[0]) && level + 1 < NUM_LEVELS
    ensures found <==> exists f :: f in v.files[level] && Overlaps(f, begin, end)
    ensures found ==> LegalInputs(v, level, in0, in1) && GrandparentsOf(v, level, in0 + in1, grandparents)
    ensures found && level == 0 ==> forall f :: f in v.files[0] && Overlaps(f, begin, end) ==> f in in0
    ensures found && level > 0 ==> HoldsFirst(Overlapping(v.files[level], begin, end), fileSizeLimit, in0)
  {
    in0, in1, grandparents := [], [], [];
    var inputs := GetOverlappingInputs(level, v.files[level], begin, end);
    ghost var query := inputs;
    if inputs == [] {
      forall f | f in v.files[level]
        ensures !Overlaps(f, begin, end)
      {
        if Overlaps(f, begin, end) { QueryFinds(v.files[level], level, begin, end, inputs, f); }
      }
      return false, [], [], [];
    }
    if level == 0 { FoundMeansOverlap(v.files[0], begin, end, inputs); }
    QueryIsSeed(v, level, begin, end, inputs);
    if level > 0 {
      inputs := LimitInputs(v.files[level], inputs, fileSizeLimit);
    }
    var pointer;
    in0, in1, grandparents, pointer := SetupOtherInputs(v, level, inputs, expandedByteLimit);
    found := true;
    RequestedAreInputs(v, level, begin, end, query, inputs, in0);
  }

  /** CompactRange's loop: stop at the file that brings the size to the limit. */
  method LimitInputs(files: seq<FileMeta>, inputs: seq<FileMeta>, fileSizeLimit: nat) returns (r: seq<FileMeta>)
    requires IsRun(files, inputs)
    ensures IsRun(files, r) && r == inputs[..LimitedCount(inputs, 0, fileSizeLimit)]
  {
    r := inputs;
    var total: nat, i: nat := 0, 0;
    assert inputs[0..] == inputs;
    while i < |inputs|
      invariant i <= |inputs| && r == inputs
      invariant LimitedCount(inputs, 0, fileSizeLimit) == i + LimitedCount(inputs[i..], total, fileSizeLimit)
    {
      assert inputs[i..][1..] == inputs[i + 1..];
      total := total + inputs[i].size;
      if total >= fileSizeLimit {
        RunPrefix(files, inputs, i + 1);
        return inputs[..i + 1];
      }
      i := i + 1;
    }
    assert inputs[..|inputs|] == inputs;
  }

  /** A level-0 query that finds anything found a file that overlaps the range itself. */
  lemma FoundMeansOverlap(files: seq<FileMeta>, begin: Option<UserKey>, end: Option<UserKey>, found: seq<FileMeta>)
    requires found != [] && forall s: set<FileMeta> :: Closed(files, s, begin, end) ==> FileSet(found) <= s
    ensures exists f :: f in files && Overlaps(f, begin, end)
  {
    assert found[0] in FileSet(found);
    assert (forall f :: f in files ==> !Overlaps(f, begin, end)) ==> Closed(files, {}, begin, end);
  }

  lemma RequestedAreInputs(v: Version, level: nat, begin: Option<UserKey>, end: Option<UserKey>, query: seq<FileMeta>,
                           inputs: seq<FileMeta>, in0: seq<FileMeta>)
    requires level < |v.files| && query != [] && inputs <= query && FileSet(inputs) <= FileSet(in0)
    requires level > 0 ==> query == Overlapping(v.files[level], begin, end)
    requires level == 0 ==> Closed(v.files[0], FileSet(query), begin, end) && inputs == query
    ensures level == 0 ==> forall f :: f in v.files[0] && Overlaps(f, begin, end) ==> f in in0
    ensures forall i :: 0 <= i < |inputs| ==> query[i] in in0
    ensures level > 0 ==> exists f :: f in v.files[level] && Overlaps(f, begin, end)
  {
    forall i | 0 <= i < |inputs|
      ensures query[i] in in0
    {
      assert query[i] == inputs[i] && inputs[i] in FileSet(inputs);
    }
    if level == 0 {
      forall f | f in v.files[0] && Overlaps(f, begin, end)
        ensures f in in0
      {
        QueryFinds(v.files[0], 0, begin, end, query, f);
        assert f in FileSet(inputs);
      }
    } else {
      assert query[0] in query;
    }
  }

  lemma RunPrefix(files: seq<FileMeta>, part: seq<FileMeta>, n: nat)
    requires IsRun(files, part) && 0 < n <= |part|
    ensures IsRun(files, part[..n])
  {
    var i, j :| 0 <= i < j <= |files| && part == files[i..j];
    assert part[..n] == files[i..i + n];
  }
}
