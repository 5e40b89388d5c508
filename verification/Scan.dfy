/**
 DBImpl::NewIterator (db/db_impl.cc:1062-1157): a user iterator over the merge of all memtables and tables, and what a
 whole scan of it shows.
 */
module Scans {
  import opened Keys
  import opened Lookup
  import opened Cursors
  import opened Runs
  import opened Versions
  import opened Edits
  import opened EditLogs
  import opened DatabaseState
  import opened Sources
  import opened UserIterator
  import opened Database

  /** The list holds (k, v) exactly when a read of `k` at `q` answers `v`. */
  ghost predicate ListsReads(list: seq<(UserKey, Bytes)>, es: set<Entry>, q: SequenceNumber) {
    forall k, v :: (k, v) in list <==> Answer(es, k, q) == Some(v)
  }

  /** NewInternalIterator: the memtables and the current version's tables, merged. */
  method NewInternalIterator(db: Db) returns (iter: Cursor)
    requires db.Valid() && FitsState(db.Abs())
    ensures fresh(iter) && iter.Ok() && EntrySet(iter.entries) == Stored(db.Abs()) && UniqueStamps(Stored(db.Abs()))
  {
    hide AgedRuns, RunsOf, Stored, Sorted, EntrySet, ValidVersion, Listed, Aged, UniqueStamps, Agrees, Logged,
         FitsState;
    SoundFacts(db.Abs(), db.written, db.uncovered);
    RunsCoverStored(db.Abs());
    var merged := MergeRuns(RunsOf(db.Abs()), Stored(db.Abs()));
    iter := new Cursor(merged);
  }

  /** NewIterator at a live snapshot or at the latest sequence. */
  method NewIterator(db: Db, q: SequenceNumber) returns (it: DbIter)
    requires db.Valid() && FitsState(db.Abs()) && Readable(db.Abs(), q)
    ensures fresh(it) && fresh(it.iter) && it.Ok() && !it.valid
    ensures ListsReads(it.List(), Stored(db.Abs()), q)
    ensures !db.uncovered ==> ListsReads(it.List(), db.written, q)
    ensures forall i, j :: 0 <= i < j < |it.List()| ==> it.List()[i].0 < it.List()[j].0
  {
    hide Stored, EntrySet, Answer, UniqueStamps, FitsState, Visible, VisibleTo, ListsReads, Sound, Logged,
         Readable, SnapshotsOrdered;
    var iter := NewInternalIterator(db);
    it := new DbIter(iter, q);
    ListIsReads(iter.entries, q);
    ListAscends(iter.entries, q);
    if !db.uncovered {
      SoundFacts(db.Abs(), db.written, db.uncovered);
      FloorIsReadable(db.Abs(), q);
      AgreeingLists(it.List(), Stored(db.Abs()), db.written, q);
    }
  }

  lemma ListIsReads(es: seq<Entry>, q: SequenceNumber)
    requires Sorted(es) && UniqueStamps(EntrySet(es))
    ensures ListsReads(Visible(es, q), EntrySet(es), q)
  {
    hide Answer, Visible, Sorted, UniqueStamps;
    forall k, v
      ensures (k, v) in Visible(es, q) <==> Answer(EntrySet(es), k, q) == Some(v)
    {
      VisibleIsReads(es, q, k, v);
    }
  }

  lemma ListAscends(es: seq<Entry>, q: SequenceNumber)
    requires Sorted(es)
    ensures forall i, j :: 0 <= i < j < |Visible(es, q)| ==> Visible(es, q)[i].0 < Visible(es, q)[j].0
  {
    hide VisibleTo, Sorted;
    forall i, j | 0 <= i < j < |Visible(es, q)|
      ensures Visible(es, q)[i].0 < Visible(es, q)[j].0
    {
      VisibleAscends(es, q, |es|, i, j);
    }
  }

  lemma AgreeingLists(list: seq<(UserKey, Bytes)>, a: set<Entry>, b: set<Entry>, q: SequenceNumber)
    requires ListsReads(list, a, q) && forall k :: Answer(a, k, q) == Answer(b, k, q)
    ensures ListsReads(list, b, q)
  {
    hide Answer;
  }

  /** A whole scan: all keys present at `q`, in ascending order, each once, with the values reads answer. */
  method ScanAll(db: Db, q: SequenceNumber) returns (found: seq<(UserKey, Bytes)>)
    requires db.Valid() && FitsState(db.Abs()) && Readable(db.Abs(), q)
    ensures ListsReads(found, Stored(db.Abs()), q) && (!db.uncovered ==> ListsReads(found, db.written, q))
    ensures forall i, j :: 0 <= i < j < |found| ==> found[i].0 < found[j].0
  {
    hide Stored, ListsReads, FitsState, Sound, Logged, Readable, Visible, VisibleTo, DbIter.Ok, DbIter.Position,
         DbIter.List;
    var it := NewIterator(db, q);
    it.SeekToFirst();
    found := [];
    ghost var list := it.List();
    while it.valid
      invariant fresh(it) && fresh(it.iter) && it.Ok() && it.List() == list && (it.valid <==> it.Position() < |list|)
      invariant it.Position() <= |list| && found == list[..it.Position()]
      decreases |list| - it.Position()
    {
      var k := it.Key();
      var v := it.Value();
      found := found + [(k, v)];
      it.Next();
    }
    assert found == list;
  }
}
