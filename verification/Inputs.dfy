/**
 Overlap tests and overlapping inputs (db/version_set.cc:122-157, 519-559).
 */
module Inputs {
  import opened Keys
  import opened Versions

  /** The user-key range of `f` meets [lo, hi]; an absent bound is infinite. */
  predicate Overlaps(f: FileMeta, lo: Option<UserKey>, hi: Option<UserKey>) {
    (lo.Some? ==> lo.value <= f.largest.user) && (hi.Some? ==> f.smallest.user <= hi.value)
  }

  /** A file overlaps a range when some key lies in both. */
  lemma OverlapsIff(f: FileMeta, lo: Option<UserKey>, hi: Option<UserKey>)
    requires f.smallest.user <= f.largest.user && (lo.Some? && hi.Some? ==> lo.value <= hi.value)
    ensures Overlaps(f, lo, hi) <==> exists k: UserKey :: Covers(f, k) && (lo.Some? ==> lo.value <= k)
                                                          && (hi.Some? ==> k <= hi.value)
  {
    var k := if lo.Some? && lo.value > f.smallest.user then lo.value else f.smallest.user;
    if Overlaps(f, lo, hi) { assert Covers(f, k); }
  }

  /** SomeFileOverlapsRange: linear at level 0, one binary search above. */
  method SomeFileOverlapsRange(disjointSorted: bool, files: seq<FileMeta>, lo: Option<UserKey>, hi: Option<UserKey>)
    returns (r: bool)
    requires disjointSorted ==> DisjointSorted(files)
    ensures r <==> exists f :: f in files && Overlaps(f, lo, hi)
  {
    if !disjointSorted {
      for i := 0 to |files|
        invariant forall j :: 0 <= j < i ==> !Overlaps(files[j], lo, hi)
      {
        if Overlaps(files[i], lo, hi) {
          return true;
        }
      }
      return false;
    }
    var index := 0;
    if lo.Some? {
      index := FindFile(files, SeekKey(lo.value, MAX_SEQUENCE));
    }
    if index >= |files| {
      return false;
    }
    forall j | 0 <= j < |files| && Overlaps(files[j], lo, hi)
      ensures Overlaps(files[index], lo, hi)
    {
      if index < j { assert Before(files[index], files[j]); }
    }
    assert Overlaps(files[index], lo, hi) ==> files[index] in files;
    return hi.None? || files[index].smallest.user <= hi.value;
  }

  function TotalFileSize(files: seq<FileMeta>): nat {
    if files == [] then 0 else TotalFileSize(files[..|files| - 1]) + files[|files| - 1].size
  }

  /** The files of a list that overlap a range, in list order. */
  ghost function Overlapping(files: seq<FileMeta>, lo: Option<UserKey>, hi: Option<UserKey>): (r: seq<FileMeta>)
    ensures forall f :: f in r <==> f in files && Overlaps(f, lo, hi)
  {
    if files == [] then []
    else
      var init, last := files[..|files| - 1], files[|files| - 1];
      assert files == init + [last];
      if Overlaps(last, lo, hi) then Overlapping(init, lo, hi) + [last] else Overlapping(init, lo, hi)
  }

  lemma OverlappingStep(files: seq<FileMeta>, i: nat, lo: Option<UserKey>, hi: Option<UserKey>)
    requires i < |files|
    ensures Overlapping(files[..i + 1], lo, hi)
            == Overlapping(files[..i], lo, hi) + (if Overlaps(files[i], lo, hi) then [files[i]] else [])
  {
    assert files[..i + 1][..i] == files[..i];
  }

  /** No file is listed twice. */
  ghost predicate Distinct(files: seq<FileMeta>) {
    forall i, j :: 0 <= i < j < |files| ==> files[i] != files[j]
  }

  lemma {:induction false} OverlappingDistinct(files: seq<FileMeta>, lo: Option<UserKey>, hi: Option<UserKey>)
    ensures Distinct(files) ==> Distinct(Overlapping(files, lo, hi))
  {
    if files != [] && Distinct(files) {
      var init, last := files[..|files| - 1], files[|files| - 1];
      OverlappingDistinct(init, lo, hi);
      assert forall f :: f in Overlapping(init, lo, hi) ==> f in init && f != last;
    }
  }

  lemma SortedDistinct(files: seq<FileMeta>, i: nat, j: nat)
    requires DisjointSorted(files) && i <= j <= |files|
    ensures Distinct(files[i..j])
  {
    forall m, n | 0 <= m < n < j - i
      ensures files[i..j][m] != files[i..j][n]
    {
      assert Before(files[i + m], files[i + n]);
    }
  }

  /** `bound` is the requested lower bound or, if that is finite, the start of a chosen file. */
  ghost predicate LowBound(chosen: set<FileMeta>, begin: Option<UserKey>, bound: Option<UserKey>) {
    bound == begin || (begin.Some? && exists f :: f in chosen && bound == Some(f.smallest.user))
  }

  ghost predicate HighBound(chosen: set<FileMeta>, end: Option<UserKey>, bound: Option<UserKey>) {
    bound == end || (end.Some? && exists f :: f in chosen && bound == Some(f.largest.user))
  }

  /** `chosen` holds every file that overlaps the range, or the range widened by chosen files on a bounded side. */
  ghost predicate Closed(files: seq<FileMeta>, chosen: set<FileMeta>, begin: Option<UserKey>, end: Option<UserKey>) {
    && chosen <= FileSet(files)
    && forall lo, hi, g ::
         g in files && LowBound(chosen, begin, lo) && HighBound(chosen, end, hi) && Overlaps(g, lo, hi)
         ==> g in chosen
  }

  /** The file starts (limits) that lie outside the current range: what each level-0 restart shrinks. */
  ghost function StartsBelow(files: seq<FileMeta>, lo: Option<UserKey>): set<int> {
    set i | 0 <= i < |files| && lo.Some? && files[i].smallest.user < lo.value
  }

  ghost function LimitsAbove(files: seq<FileMeta>, hi: Option<UserKey>): set<int> {
    set i | 0 <= i < |files| && hi.Some? && files[i].largest.user > hi.value
  }

  /** The scan's current range: at least as wide as requested and forced by every closed set. */
  ghost predicate LeastRange(files: seq<FileMeta>, begin: Option<UserKey>, end: Option<UserKey>,
                             lo: Option<UserKey>, hi: Option<UserKey>)
  {
    && lo.Some? == begin.Some? && (lo.Some? ==> lo.value <= begin.value)
    && hi.Some? == end.Some? && (hi.Some? ==> end.value <= hi.value)
    && forall s: set<FileMeta> :: Closed(files, s, begin, end) ==> LowBound(s, begin, lo) && HighBound(s, end, hi)
  }

  lemma Widen(files: seq<FileMeta>, begin: Option<UserKey>, end: Option<UserKey>,
              lo: Option<UserKey>, hi: Option<UserKey>, f: FileMeta)
    requires LeastRange(files, begin, end, lo, hi)
    requires f in files && Overlaps(f, lo, hi)
    ensures lo.Some? && f.smallest.user < lo.value ==> LeastRange(files, begin, end, Some(f.smallest.user), hi)
    ensures hi.Some? && f.largest.user > hi.value ==> LeastRange(files, begin, end, lo, Some(f.largest.user))
  {
    forall s: set<FileMeta> | Closed(files, s, begin, end)
      ensures lo.Some? ==> LowBound(s, begin, Some(f.smallest.user))
      ensures hi.Some? ==> HighBound(s, end, Some(f.largest.user))
    {
      assert f in s;
    }
  }

  ghost predicate LiesIn(f: FileMeta, lo: Option<UserKey>, hi: Option<UserKey>) {
    (lo.Some? ==> lo.value <= f.smallest.user) && (hi.Some? ==> f.largest.user <= hi.value)
  }

  ghost predicate Within(fs: seq<FileMeta>, lo: Option<UserKey>, hi: Option<UserKey>) {
    forall f :: f in fs ==> LiesIn(f, lo, hi)
  }

  lemma NothingMet(files: seq<FileMeta>, begin: Option<UserKey>, end: Option<UserKey>)
    ensures LeastRange(files, begin, end, begin, end) && Within([], begin, end)
  {
  }

  lemma WithinMore(fs: seq<FileMeta>, f: FileMeta, lo: Option<UserKey>, hi: Option<UserKey>)
    ensures Within([], lo, hi)
    ensures Within(fs, lo, hi) && LiesIn(f, lo, hi) ==> Within(fs + [f], lo, hi)
  {
  }

  /** A least range whose overlapping files stay within it yields the least closed set. */
  lemma LeastRangeIsClosed(files: seq<FileMeta>, begin: Option<UserKey>, end: Option<UserKey>,
                           lo: Option<UserKey>, hi: Option<UserKey>)
    requires LeastRange(files, begin, end, lo, hi)
    requires Within(Overlapping(files, lo, hi), lo, hi)
    ensures Closed(files, FileSet(Overlapping(files, lo, hi)), begin, end)
    ensures forall s: set<FileMeta> :: Closed(files, s, begin, end) ==> FileSet(Overlapping(files, lo, hi)) <= s
  {
    var inputs := FileSet(Overlapping(files, lo, hi));
    forall a, b, g | g in files && LowBound(inputs, begin, a) && HighBound(inputs, end, b) && Overlaps(g, a, b)
      ensures g in inputs
    {
      assert Overlaps(g, lo, hi);
    }
  }

  /**
   GetOverlappingInputs.  Above level 0 the result is the files that overlap the range.  At level 0 the scan
   restarts whenever a found file widens the range; the result is the least closed set of files.
   */
  method GetOverlappingInputs(level: nat, files: seq<FileMeta>, begin: Option<UserKey>, end: Option<UserKey>)
    returns (inputs: seq<FileMeta>)
    ensures level > 0 ==> inputs == Overlapping(files, begin, end)
    ensures level == 0 ==> exists lo, hi :: inputs == Overlapping(files, lo, hi)
    ensures level == 0 ==> Closed(files, FileSet(inputs), begin, end) && (Distinct(files) ==> Distinct(inputs))
    ensures level == 0 ==> forall s: set<FileMeta> :: Closed(files, s, begin, end) ==> FileSet(inputs) <= s
  {
    hide Distinct, Closed, FileSet, LeastRange, Within;
    inputs := [];
    var userBegin, userEnd := begin, end;
    var i := 0;
    NothingMet(files, begin, end);
    while i < |files|
      invariant 0 <= i <= |files|
      invariant inputs == Overlapping(files[..i], userBegin, userEnd)
      invariant level > 0 ==> userBegin == begin && userEnd == end
      invariant LeastRange(files, begin, end, userBegin, userEnd)
      invariant level == 0 ==> Within(inputs, userBegin, userEnd)
      decreases StartsBelow(files, userBegin), LimitsAbove(files, userEnd), |files| - i
    {
      var f := files[i];
      OverlappingStep(files, i, userBegin, userEnd);
      i := i + 1;
      if userBegin.Some? && f.largest.user < userBegin.value {
        // completely before the range
      } else if userEnd.Some? && f.smallest.user > userEnd.value {
        // completely after the range
      } else {
        Widen(files, begin, end, userBegin, userEnd, f);
        WithinMore(inputs, f, userBegin, userEnd);
        inputs := inputs + [f];
        if level == 0 {
          if userBegin.Some? && f.smallest.user < userBegin.value {
            assert i - 1 in StartsBelow(files, userBegin);
            assert i - 1 !in StartsBelow(files, Some(f.smallest.user));
            userBegin, inputs, i := Some(f.smallest.user), [], 0;
            WithinMore(inputs, f, userBegin, userEnd);
          } else if userEnd.Some? && f.largest.user > userEnd.value {
            assert i - 1 in LimitsAbove(files, userEnd);
            assert i - 1 !in LimitsAbove(files, Some(f.largest.user));
            userEnd, inputs, i := Some(f.largest.user), [], 0;
            WithinMore(inputs, f, userBegin, userEnd);
          }
        }
      }
    }
    assert files[..|files|] == files;
    if level == 0 {
      LeastRangeIsClosed(files, begin, end, userBegin, userEnd);
      OverlappingDistinct(files, userBegin, userEnd);
    }
  }
}
