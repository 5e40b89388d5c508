/**
 Opening a database from its manifest (db/version_set.cc:924-1000): read the log, decode each record into a version
 edit, fold the edits through one builder, and keep the last value of each counter.
 */
module Manifest {
  import opened Keys
  import opened Coding
  import opened Checksums
  import opened LogFormat
  import opened LogReader
  import opened EditRecords
  import opened Versions
  import opened VersionBuilder

  /** The file list change an edit record stands for; `open` reads a table by what the manifest says of it. */
  function ToEdit(r: EditRecord, open: RawFile -> FileMeta): Edit {
    Edit(r.deletedFiles, seq(|r.newFiles|, i requires 0 <= i < |r.newFiles| => (r.newFiles[i].0,
          open(r.newFiles[i].1))))
  }

  ghost function ToEdits(rs: seq<EditRecord>, open: RawFile -> FileMeta): seq<Edit> {
    seq(|rs|, i requires 0 <= i < |rs| => ToEdit(rs[i], open))
  }

  /** `bytes` is what EncodeTo writes for an edit whose fields are in range. */
  ghost predicate Encodes(bytes: Bytes, r: EditRecord) {
    Fits(r) && exists order :: InOrder(order, r.deletedFiles) && bytes == EncodeItems(Items(r, order))
  }

  /** The value of a counter after some edits: the last one that was set. */
  function Latest(values: seq<Option<nat>>): Option<nat> {
    if values == [] then None
    else if values[|values| - 1].Some? then values[|values| - 1]
    else Latest(values[..|values| - 1])
  }

  const FILE_COUNTER: EditRecord -> Option<nat> := (e: EditRecord) => e.nextFileNumber
  const LOG_COUNTER: EditRecord -> Option<nat> := (e: EditRecord) => e.logNumber
  const PREV_LOG_COUNTER: EditRecord -> Option<nat> := (e: EditRecord) => e.prevLogNumber
  const SEQUENCE_COUNTER: EditRecord -> Option<nat> := (e: EditRecord) => e.lastSequence

  /** Some record sets the counter. */
  ghost predicate IsSet(rs: seq<EditRecord>, counter: EditRecord -> Option<nat>) {
    exists i :: 0 <= i < |rs| && counter(rs[i]).Some?
  }

  /** Some record sets the counter to `n`, and no later one sets it. */
  ghost predicate SetLast(rs: seq<EditRecord>, counter: EditRecord -> Option<nat>, n: nat) {
    exists i :: 0 <= i < |rs| && counter(rs[i]) == Some(n) && forall j :: i < j < |rs| ==> counter(rs[j]).None?
  }

  /** The latest value is the last one set. */
  lemma {:induction false} LatestIsLast(rs: seq<EditRecord>, counter: EditRecord -> Option<nat>,
                                         values: seq<Option<nat>>)
    requires |values| == |rs| && forall i :: 0 <= i < |rs| ==> values[i] == counter(rs[i])
    ensures Latest(values).Some? <==> IsSet(rs, counter)
    ensures Latest(values).Some? ==> SetLast(rs, counter, Latest(values).value)
  {
    if rs != [] {
      var n := |rs| - 1;
      if values[n].Some? {
        assert counter(rs[n]) == Some(values[n].value);
      } else {
        LatestIsLast(rs[..n], counter, values[..n]);
        if Latest(values[..n]).Some? {
          var i :| 0 <= i < n && counter(rs[..n][i]) == Latest(values[..n])
                   && forall j :: i < j < n ==> counter(rs[..n][j]).None?;
          assert forall j :: i < j < |rs| ==> j == n || counter(rs[j]) == counter(rs[..n][j]);
          assert counter(rs[i]) == Latest(values);
        } else {
          assert forall i :: 0 <= i < n ==> counter(rs[i]) == counter(rs[..n][i]);
        }
      }
    }
  }

  lemma LatestSnoc(values: seq<Option<nat>>, v: Option<nat>)
    ensures Latest(values + [v]) == if v.Some? then v else Latest(values)
  {
    assert (values + [v])[..|values|] == values;
  }

  ghost function NextFiles(rs: seq<EditRecord>): seq<Option<nat>> {
    seq(|rs|, i requires 0 <= i < |rs| => rs[i].nextFileNumber)
  }

  ghost function LogNumbers(rs: seq<EditRecord>): seq<Option<nat>> {
    seq(|rs|, i requires 0 <= i < |rs| => rs[i].logNumber)
  }

  ghost function PrevLogNumbers(rs: seq<EditRecord>): seq<Option<nat>> {
    seq(|rs|, i requires 0 <= i < |rs| => rs[i].prevLogNumber)
  }

  ghost function LastSequences(rs: seq<EditRecord>): seq<Option<nat>> {
    seq(|rs|, i requires 0 <= i < |rs| => rs[i].lastSequence)
  }

  /** The version set after recovery. */
  datatype Recovered =
    Recovered(version: Version, manifestNumber: nat, nextFile: nat, lastSequence: nat, logNumber: nat,
              prevLogNumber: nat)

  datatype Counters =
    Counters(nextFile: Option<nat>, logNumber: Option<nat>, prevLogNumber: Option<nat>, lastSequence: Option<nat>)

  ghost function CountersAfter(rs: seq<EditRecord>): Counters {
    Counters(Latest(NextFiles(rs)), Latest(LogNumbers(rs)), Latest(PrevLogNumbers(rs)), Latest(LastSequences(rs)))
  }

  function Or(v: Option<nat>, otherwise: Option<nat>): Option<nat> {
    if v.Some? then v else otherwise
  }

  lemma CountersBefore(rs: seq<EditRecord>)
    requires rs == []
    ensures CountersAfter(rs) == Counters(None, None, None, None)
  {
  }

  lemma CountersSnoc(rs: seq<EditRecord>, r: EditRecord)
    ensures var c := CountersAfter(rs);
            CountersAfter(rs + [r]) == Counters(Or(r.nextFileNumber, c.nextFile), Or(r.logNumber, c.logNumber),
                                                Or(r.prevLogNumber, c.prevLogNumber), Or(r.lastSequence,
                                                      c.lastSequence))
  {
    LatestSnoc(NextFiles(rs), r.nextFileNumber);
    LatestSnoc(LogNumbers(rs), r.logNumber);
    LatestSnoc(PrevLogNumbers(rs), r.prevLogNumber);
    LatestSnoc(LastSequences(rs), r.lastSequence);
    assert NextFiles(rs + [r]) == NextFiles(rs) + [r.nextFileNumber];
    assert LogNumbers(rs + [r]) == LogNumbers(rs) + [r.logNumber];
    assert PrevLogNumbers(rs + [r]) == PrevLogNumbers(rs) + [r.prevLogNumber];
    assert LastSequences(rs + [r]) == LastSequences(rs) + [r.lastSequence];
  }

  /** A manifest as LogAndApply wrote it: record n encodes edit n, which took version n to version n + 1. */
  ghost predicate WrittenBy(records: seq<Bytes>, edits: seq<EditRecord>, versions: seq<Version>,
                            open: RawFile -> FileMeta)
  {
    && |records| == |edits|
    && (forall n :: 0 <= n < |edits| ==> Encodes(records[n], edits[n]))
    && History(versions, ToEdits(edits, open))
    && forall i :: 0 <= i < NUM_LEVELS ==>
         EntersOnce({}, ToEdits(edits, open), i) && Coherent(AllAddedAt(ToEdits(edits, open), i))
  }

  lemma FitsLevels(r: EditRecord, open: RawFile -> FileMeta)
    requires Fits(r)
    ensures LevelsInRange(ToEdit(r, open))
  {
    forall p | p in ToEdit(r, open).added
      ensures p.0 < NUM_LEVELS
    {
      var i :| 0 <= i < |r.newFiles| && p == (r.newFiles[i].0, open(r.newFiles[i].1));
      assert r.newFiles[i] in r.newFiles;
    }
  }

  lemma {:induction false} EntersOncePrefix(es: seq<Edit>, m: nat, level: nat)
    requires m <= |es| && EntersOnce({}, es, level)
    ensures EntersOnce({}, es[..m], level)
  {
    if m < |es| {
      EntersOncePrefix(es[..|es| - 1], m, level);
      assert es[..|es| - 1][..m] == es[..m];
    } else {
      assert es[..m] == es;
    }
  }

  /** What was written up to any edit is itself a manifest. */
  lemma PrefixWritten(records: seq<Bytes>, edits: seq<EditRecord>, versions: seq<Version>,
                      open: RawFile -> FileMeta, m: nat)
    requires WrittenBy(records, edits, versions, open) && m <= |edits|
    ensures m < |versions| && WrittenBy(records[..m], edits[..m], versions[..m + 1], open)
  {
    var es := ToEdits(edits, open);
    assert ToEdits(edits[..m], open) == es[..m];
    assert forall n :: 0 <= n < m ==> Installs(versions[n], es[n], versions[n + 1]);
    forall i | 0 <= i < NUM_LEVELS
      ensures EntersOnce({}, es[..m], i) && Coherent(AllAddedAt(es[..m], i))
    {
      EntersOncePrefix(es, m, i);
      assert AllAddedAt(es[..m], i) <= AllAddedAt(es, i);
    }
  }

  /** Decode one record into a fresh edit. */
  method DecodeRecord(record: Bytes, ghost r: EditRecord) returns (edit: VersionEdit, ok: bool)
    ensures fresh(edit) && (Encodes(record, r) ==> ok && edit.Abs() == r)
  {
    edit := new VersionEdit();
    ok := edit.DecodeFrom(record);
    if Encodes(record, r) {
      var order :| InOrder(order, r.deletedFiles) && record == EncodeItems(Items(r, order));
      ItemsFit(r, order);
      ItemsRoundTrip(Items(r, order));
      ItemsRebuild(r, order, BLANK);
      assert [] + r.compactPointers == r.compactPointers;
    }
  }

  /** Wherever the comparator is named, it has this name. */
  ghost predicate Named(rs: seq<EditRecord>, name: Bytes) {
    forall n :: 0 <= n < |rs| && rs[n].comparator.Some? ==> rs[n].comparator.value == name
  }

  /**
   The loop of Recover over the records of a manifest; it fails when a record names another comparator.  Reading and
   folding are kept apart here; the source takes each record as it is read.
   */
  method DecodeAll(records: seq<Bytes>, name: Bytes, open: RawFile -> FileMeta, ghost rs: seq<EditRecord>)
    returns (edits: seq<Edit>, c: Counters, ok: bool)
    requires |rs| == |records| && forall n :: 0 <= n < |rs| ==> Encodes(records[n], rs[n])
    ensures ok <==> Named(rs, name)
    ensures ok ==> edits == ToEdits(rs, open) && c == CountersAfter(rs)
  {
    hide ToEdit, CountersAfter, Encodes;
    edits, c, ok := [], Counters(None, None, None, None), true;
    CountersBefore(rs[..0]);
    for n := 0 to |records|
      invariant ok && Named(rs[..n], name) && edits == ToEdits(rs[..n], open) && c == CountersAfter(rs[..n])
    {
      var edit;
      edit, ok := DecodeRecord(records[n], rs[n]);
      var r := edit.Abs();
      if ok && edit.comparator.Some? && edit.comparator.value != name {
        return edits, c, false;
      }
      assert rs[..n + 1] == rs[..n] + [r];
      CountersSnoc(rs[..n], r);
      ToEditsSnoc(rs[..n], r, open);
      edits := edits + [ToEdit(r, open)];
      c := Counters(Or(r.nextFileNumber, c.nextFile), Or(r.logNumber, c.logNumber),
                    Or(r.prevLogNumber, c.prevLogNumber), Or(r.lastSequence, c.lastSequence));
    }
    assert rs[..|records|] == rs;
  }

  lemma ToEditsSnoc(rs: seq<EditRecord>, r: EditRecord, open: RawFile -> FileMeta)
    ensures ToEdits(rs + [r], open) == ToEdits(rs, open) + [ToEdit(r, open)]
  {
  }

  /**
   Recovery from any prefix of a manifest file, cut at any byte: the version that was current when the last edit lying
   wholly in the file had been installed, and of every counter the last value those edits set; nothing if a mandatory
   counter was never set or the comparator has another name.
   */
  method RecoverManifest(crc: Crc, file: Bytes, name: Bytes, open: RawFile -> FileMeta,
                         ghost records: seq<Bytes>, ghost rs: seq<EditRecord>, ghost versions: seq<Version>)
    returns (r: Option<Recovered>)
    requires WrittenBy(records, rs, versions, open) && file <= LogFrom(crc, 0, records)
    ensures var m := WholeRecords(crc, 0, records, |file|);
            && m < |versions| && m <= |rs| && (r.Some? ==> r.value.version == versions[m])
            && (r.Some? <==>
                  && Named(rs[..m], name) && IsSet(rs[..m], FILE_COUNTER) && IsSet(rs[..m], LOG_COUNTER)
                  && IsSet(rs[..m], SEQUENCE_COUNTER))
            && (r.Some? ==>
                  && SetLast(rs[..m], SEQUENCE_COUNTER, r.value.lastSequence)
                  && SetLast(rs[..m], LOG_COUNTER, r.value.logNumber)
                  && SetLast(rs[..m], FILE_COUNTER, r.value.manifestNumber)
                  && r.value.nextFile == r.value.manifestNumber + 1
                  && (if IsSet(rs[..m], PREV_LOG_COUNTER) then SetLast(rs[..m], PREV_LOG_COUNTER, r.value.prevLogNumber)
                      else r.value.prevLogNumber == 0))
  {
    hide LogFrom, History, Encodes, EntersOnce, Installs, Coherent;
    ghost var m := WholeRecords(crc, 0, records, |file|);
    var found, reports := ReadLog(crc, file, records);
    PrefixWritten(records, rs, versions, open, m);
    var edits, c, ok := DecodeAll(found, name, open, rs[..m]);
    if !ok {
      return None;
    }
    forall e | e in edits
      ensures LevelsInRange(e)
    {
      var n :| 0 <= n < m && e == ToEdit(rs[n], open);
      EncodesFits(found[n], rs[n]);
      FitsLevels(rs[n], open);
    }
    HistoryLength(versions[..m + 1], edits);
    var v := Recover(edits, versions[..m + 1]);
    r := Finish(v, c, rs[..m]);
  }

  /** The end of Recover: without a mandatory counter it fails; the next file number becomes the new manifest's. */
  method Finish(v: Version, c: Counters, ghost rs: seq<EditRecord>) returns (r: Option<Recovered>)
    requires c == CountersAfter(rs)
    ensures r.Some? <==> IsSet(rs, FILE_COUNTER) && IsSet(rs, LOG_COUNTER) && IsSet(rs, SEQUENCE_COUNTER)
    ensures r.Some? ==> r.value.version == v && SetLast(rs, SEQUENCE_COUNTER, r.value.lastSequence)
    ensures r.Some? ==> SetLast(rs, LOG_COUNTER, r.value.logNumber)
    ensures r.Some? ==> SetLast(rs, FILE_COUNTER, r.value.manifestNumber)
    ensures r.Some? ==> r.value.nextFile == r.value.manifestNumber + 1
    ensures r.Some? ==> if IsSet(rs, PREV_LOG_COUNTER) then SetLast(rs, PREV_LOG_COUNTER, r.value.prevLogNumber)
                        else r.value.prevLogNumber == 0
  {
    hide Latest, IsSet, SetLast;
    LatestIsLast(rs, FILE_COUNTER, NextFiles(rs));
    LatestIsLast(rs, LOG_COUNTER, LogNumbers(rs));
    LatestIsLast(rs, PREV_LOG_COUNTER, PrevLogNumbers(rs));
    LatestIsLast(rs, SEQUENCE_COUNTER, LastSequences(rs));
    if c.nextFile.None? || c.logNumber.None? || c.lastSequence.None? {
      return None;
    }
    var prevLogNumber := if c.prevLogNumber.None? then 0 else c.prevLogNumber.value;
    r := Some(Recovered(v, c.nextFile.value, c.nextFile.value + 1, c.lastSequence.value, c.logNumber.value,
                        prevLogNumber));
  }

  lemma EncodesFits(bytes: Bytes, r: EditRecord)
    requires Encodes(bytes, r)
    ensures Fits(r)
  {
  }

  lemma HistoryLength(versions: seq<Version>, edits: seq<Edit>)
    requires History(versions, edits)
    ensures |versions| == |edits| + 1
  {
  }
}
