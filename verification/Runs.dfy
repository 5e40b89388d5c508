/**
 Sorted runs of entries ordered by age, and their merge.  Memtables, level-0 tables and lower levels are such runs; a
 scan and a compaction read them through one merging iterator (table/merger.cc).
 */
module Runs {
  import opened Keys
  import opened Lookup
  import opened Cursors
  import opened Merger

  /** Memtable insertion: the skip list keeps entries in internal-key order. */
  function InsertEntry(es: seq<Entry>, e: Entry): seq<Entry> {
    var i := LowerBound(es, e.key);
    es[..i] + [e] + es[i..]
  }

  lemma InsertionPoint(es: seq<Entry>, e: Entry)
    requires Sorted(es) && forall x :: x in es ==> x.key != e.key
    ensures forall j :: LowerBound(es, e.key) <= j < |es| ==> Less(e.key, es[j].key)
  {
    var i := LowerBound(es, e.key);
    forall j | i <= j < |es|
      ensures Less(e.key, es[j].key)
    {
      assert es[i] in es && es[j] in es;
      LessIsPackedOrder(e.key, es[i].key);
    }
  }

  lemma InsertAt(es: seq<Entry>, i: nat, e: Entry)
    requires Sorted(es) && i <= |es|
    requires forall j :: 0 <= j < i ==> Less(es[j].key, e.key)
    requires forall j :: i <= j < |es| ==> Less(e.key, es[j].key)
    ensures Sorted(es[..i] + [e] + es[i..])
  {
    var r := es[..i] + [e] + es[i..];
    assert forall j :: 0 <= j < |r| ==> r[j] == if j < i then es[j] else if j == i then e else es[j - 1];
  }

  lemma InsertEntrySorted(es: seq<Entry>, e: Entry)
    requires Sorted(es) && forall x :: x in es ==> x.key != e.key
    ensures Sorted(InsertEntry(es, e))
    ensures EntrySet(InsertEntry(es, e)) == EntrySet(es) + {e}
  {
    var i := LowerBound(es, e.key);
    InsertionPoint(es, e);
    InsertAt(es, i, e);
    InsertAtSet(es[..i], e, es[i..]);
    assert es == es[..i] + es[i..];
  }

  lemma InsertAtSet(a: seq<Entry>, e: Entry, b: seq<Entry>)
    ensures EntrySet(a + [e] + b) == EntrySet(a + b) + {e}
  {
    forall x
      ensures x in a + [e] + b <==> x in a || x == e || x in b
      ensures x in a + b <==> x in a || x in b
    {
    }
  }

  /** Sorted runs, any two of them ordered by age, together holding `all`. */
  ghost predicate AgedRuns(runs: seq<seq<Entry>>, all: set<Entry>) {
    && (forall i :: 0 <= i < |runs| ==> Sorted(runs[i]))
    && (forall i, j :: 0 <= i < j < |runs| ==>
          NewerThan(EntrySet(runs[i]), EntrySet(runs[j])) || NewerThan(EntrySet(runs[j]), EntrySet(runs[i])))
    && (forall i, e :: 0 <= i < |runs| && e in runs[i] ==> e in all)
    && (forall e :: e in all ==> exists i :: 0 <= i < |runs| && e in runs[i])
  }

  lemma AgedRunsConcat(a: seq<seq<Entry>>, x: set<Entry>, b: seq<seq<Entry>>, y: set<Entry>)
    requires AgedRuns(a, x) && AgedRuns(b, y) && NewerThan(x, y)
    ensures AgedRuns(a + b, x + y)
  {
    forall i, j | 0 <= i < j < |a + b|
      ensures NewerThan(EntrySet((a + b)[i]), EntrySet((a + b)[j]))
              || NewerThan(EntrySet((a + b)[j]), EntrySet((a + b)[i]))
    {
      if i < |a| <= j {
        assert EntrySet(a[i]) <= x && EntrySet(b[j - |a|]) <= y;
      }
    }
    forall e | e in x + y
      ensures exists i :: 0 <= i < |a + b| && e in (a + b)[i]
    {
      if e in x {
        var i :| 0 <= i < |a| && e in a[i];
        assert e in (a + b)[i];
      } else {
        var i :| 0 <= i < |b| && e in b[i];
        assert e in (a + b)[|a| + i];
      }
    }
  }

  lemma OneRun(run: seq<Entry>)
    requires Sorted(run)
    ensures AgedRuns([run], EntrySet(run))
  {
    assert [run][0] == run;
  }

  lemma NoRuns()
    ensures AgedRuns([], {})
  {
  }

  /** Runs ordered by age share no key, so a merging iterator over them is defined. */
  lemma AgedRunsDistinct(runs: seq<seq<Entry>>, all: set<Entry>)
    requires AgedRuns(runs, all)
    ensures DistinctKeys(runs)
  {
    forall i, j, x, y | 0 <= i < |runs| && 0 <= j < |runs| && i != j && x in runs[i] && y in runs[j]
      ensures x.key != y.key
    {
      assert x in EntrySet(runs[i]) && y in EntrySet(runs[j]);
      if i > j { assert NewerThan(EntrySet(runs[j]), EntrySet(runs[i]))
                || NewerThan(EntrySet(runs[i]), EntrySet(runs[j])); }
    }
  }

  lemma MergeHoldsAll(runs: seq<seq<Entry>>, all: set<Entry>, merged: seq<Entry>)
    requires AgedRuns(runs, all) && IsMerge(runs, merged)
    ensures EntrySet(merged) == all
  {
    forall e
      ensures e in merged <==> e in all
    {
    }
  }

  // ---------- running the merge ----------

  lemma {:induction false} SortedListExists(es: set<Entry>) returns (r: seq<Entry>)
    requires UniqueStamps(es)
    ensures Sorted(r) && EntrySet(r) == es
  {
    if es == {} {
      r := [];
    } else {
      var e :| e in es;
      var rest := SortedListExists(es - {e});
      assert forall x :: x in rest ==> x in EntrySet(rest);
      InsertEntrySorted(rest, e);
      r := InsertEntry(rest, e);
      assert es - {e} + {e} == es;
    }
  }

  /** Read a merging iterator from the first entry to the last. */
  method Drain(it: MergingIterator) returns (es: seq<Entry>)
    requires it.Ok()
    modifies it, it.children
    ensures es == it.merged
  {
    hide MergingIterator.WellFormed, MergingIterator.AllAt, MergingIterator.AllBefore;
    it.SeekToFirst();
    es := [];
    while it.current.Some?
      invariant it.Ok() && es == it.merged[..it.pos]
      decreases |it.merged| - it.pos
    {
      var e := it.Current();
      es := es + [e];
      it.Next();
    }
  }

  /** One cursor for each run. */
  method OpenCursors(runs: seq<seq<Entry>>) returns (children: seq<Cursor>)
    requires forall i :: 0 <= i < |runs| ==> Sorted(runs[i])
    ensures |children| == |runs| && forall i :: 0 <= i < |runs| ==>
              fresh(children[i]) && children[i].Ok() && children[i].entries == runs[i]
    ensures forall i, j :: 0 <= i < j < |runs| ==> children[i] != children[j]
  {
    children := [];
    for n := 0 to |runs|
      invariant |children| == n
      invariant forall i :: 0 <= i < n ==> fresh(children[i]) && children[i].Ok() && children[i].entries == runs[i]
      invariant forall i, j :: 0 <= i < j < n ==> children[i] != children[j]
    {
      var c := new Cursor(runs[n]);
      children := children + [c];
    }
  }

  /** The sorted list of everything in the runs, as a merging iterator over them yields it. */
  method MergeRuns(runs: seq<seq<Entry>>, ghost all: set<Entry>) returns (merged: seq<Entry>)
    requires AgedRuns(runs, all) && UniqueStamps(all)
    ensures Sorted(merged) && EntrySet(merged) == all && IsMerge(runs, merged)
  {
    var children := OpenCursors(runs);
    ghost var whole := SortedListExists(all);
    AgedRunsDistinct(runs, all);
    SortedIsMerge(runs, all, whole);
    assert seq(|children|, i requires 0 <= i < |children| => children[i].entries) == runs;
    var it := new MergingIterator(children, whole);
    merged := Drain(it);
  }

  lemma SortedIsMerge(runs: seq<seq<Entry>>, all: set<Entry>, merged: seq<Entry>)
    requires AgedRuns(runs, all) && Sorted(merged) && EntrySet(merged) == all
    ensures IsMerge(runs, merged)
  {
    assert forall e :: e in merged <==> e in EntrySet(merged);
  }
}
