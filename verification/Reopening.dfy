/**
 Closing and reopening (db/version_set.cc:801-1000): the manifest of any run of the database, cut at any byte, leads
 recovery back to a version that was current during the run, and the whole manifest to the last one.
 */
module Reopening {
  import opened Keys
  import opened Checksums
  import opened LogFormat
  import opened LogReader
  import opened EditRecords
  import opened Versions
  import opened VersionBuilder
  import opened EditLogs
  import opened Manifest
  import opened Database

  /** The record names the files the edit deletes, and those it adds, level by level. */
  ghost predicate Says(r: EditRecord, e: Edit, open: RawFile -> FileMeta) {
    && r.deletedFiles == e.deleted && |r.newFiles| == |e.added|
    && forall i :: 0 <= i < |e.added| ==> r.newFiles[i].0 == e.added[i].0 && open(r.newFiles[i].1) == e.added[i].1
  }

  /** `records` encode the edits of the run, with whatever counters LogAndApply put beside the files. */
  ghost predicate ManifestOf(records: seq<Bytes>, rs: seq<EditRecord>, edits: seq<Edit>,
                             open: RawFile -> FileMeta) {
    && |records| == |rs| == |edits|
    && (forall n :: 0 <= n < |rs| ==> Says(rs[n], edits[n], open))
    && (forall n :: 0 <= n < |rs| ==> Encodes(records[n], rs[n]))
  }

  lemma SaidIs(r: EditRecord, e: Edit, open: RawFile -> FileMeta)
    requires Says(r, e, open)
    ensures ToEdit(r, open) == e
  {
    var added := ToEdit(r, open).added;
    assert forall i :: 0 <= i < |added| ==> added[i] == e.added[i];
    assert added == e.added;
  }

  /** Every run writes a manifest that recovery can replay. */
  lemma RunIsWritten(edits: seq<Edit>, versions: seq<Version>, v: Version, nextFile: nat,
                     records: seq<Bytes>, rs: seq<EditRecord>, open: RawFile -> FileMeta)
    requires Logged(edits, versions, v, nextFile) && ManifestOf(records, rs, edits, open)
    ensures WrittenBy(records, rs, versions, open) && |versions| == |edits| + 1 && versions[|edits|] == v
  {
    hide History, Encodes, EntersOnce, Coherent, AllAddedAt, ToEdit, Says;
    forall n | 0 <= n < |rs|
      ensures ToEdits(rs, open)[n] == edits[n]
    {
      SaidIs(rs[n], edits[n], open);
    }
    assert ToEdits(rs, open) == edits;
    LoggedFacts(edits, versions, v, nextFile);
    HistoryLength(versions, edits);
  }

  /** Recover a run of the database from what is left of its manifest. */
  method Reopen(crc: Crc, file: Bytes, name: Bytes, open: RawFile -> FileMeta,
                ghost db: Db, ghost records: seq<Bytes>, ghost rs: seq<EditRecord>)
    returns (r: Option<Recovered>)
    requires db.Valid() && ManifestOf(records, rs, db.edits, open) && file <= LogFrom(crc, 0, records)
    ensures var m := WholeRecords(crc, 0, records, |file|);
            && m <= |rs| && m < |db.versions| && (r.Some? ==> r.value.version == db.versions[m])
            && (r.Some? <==>
                  && Named(rs[..m], name) && IsSet(rs[..m], FILE_COUNTER) && IsSet(rs[..m], LOG_COUNTER)
                  && IsSet(rs[..m], SEQUENCE_COUNTER))
            && (r.Some? ==>
                  && SetLast(rs[..m], SEQUENCE_COUNTER, r.value.lastSequence)
                  && SetLast(rs[..m], LOG_COUNTER, r.value.logNumber)
                  && SetLast(rs[..m], FILE_COUNTER, r.value.manifestNumber)
                  && r.value.nextFile == r.value.manifestNumber + 1
                  && (if IsSet(rs[..m], PREV_LOG_COUNTER) then SetLast(rs[..m], PREV_LOG_COUNTER, r.value.prevLogNumber)
                      else r.value.prevLogNumber == 0))
    ensures file == LogFrom(crc, 0, records) ==>
              WholeRecords(crc, 0, records, |file|) == |rs| && (r.Some? ==> r.value.version == db.version)
  {
    hide LogFrom, WrittenBy, Logged, SetLast, IsSet, Named, WholeRecords;
    RunIsWritten(db.edits, db.versions, db.version, db.nextFile, records, rs, open);
    r := RecoverManifest(crc, file, name, open, records, rs, db.versions);
    if file == LogFrom(crc, 0, records) {
      PastTheEnd(crc, 0, records, |file|);
      assert rs[..|rs|] == rs;
    }
  }
}
