/**
 log::Reader (db/log_reader.cc) with initial offset 0 and checksums on.  On any prefix of a log the writer produced it
 returns exactly the records that lie wholly inside the prefix and reports no corruption.
 */
module LogReader {
  import opened Keys
  import opened Coding
  import opened Checksums
  import opened LogFormat

  /** What ReadPhysicalRecord returns: end of file, a bad record, or a fragment with its type. */
  datatype Physical = Eof | BadRecord | Fragmentary(t: nat, payload: Bytes)

  /** What the bytes of a buffer, starting at a header, amount to. */
  datatype Parsed = Good(t: nat, payload: Bytes) | TooLong | Preallocated | BadChecksum

  function Parse(crc: Crc, buffer: Bytes): Parsed
    requires |buffer| >= HEADER
  {
    var t, length := buffer[6] as int, buffer[4] as int + 256 * buffer[5] as int;
    if HEADER + length > |buffer| then TooLong
    else if t == 0 && length == 0 then Preallocated
    else if crc(buffer[6..HEADER + length]) != Unmask(DecodeFixed32(buffer[..4])) then BadChecksum
    else Good(t, buffer[HEADER..HEADER + length])
  }

  /** A header the writer emitted parses back to its type and payload. */
  lemma ParseHeader(crc: Crc, t: nat, payload: Bytes, buffer: Bytes)
    requires 1 <= t <= 4 && |payload| < 0x1_0000 && |buffer| >= HEADER
    requires buffer[..HEADER] == Header(crc, t, payload)
    ensures HEADER + |payload| > |buffer| ==> Parse(crc, buffer) == TooLong
    ensures HEADER + |payload| <= |buffer| && buffer[HEADER..HEADER + |payload|] == payload ==>
              Parse(crc, buffer) == Good(t, payload)
  {
    var h := Header(crc, t, payload);
    assert forall i :: 0 <= i < HEADER ==> buffer[i] == h[i];
    assert h[4] as int + 256 * h[5] as int == |payload| && h[6] as int == t;
    if HEADER + |payload| <= |buffer| && buffer[HEADER..HEADER + |payload|] == payload {
      assert buffer[6..HEADER + |payload|] == [t as byte] + payload;
      assert buffer[..4] == h[..4] == EncodeFixed32(Mask(crc([t as byte] + payload)));
      Fixed32RoundTrip(Mask(crc([t as byte] + payload)));
      UnmaskMask(crc([t as byte] + payload));
    }
  }

  /** A fragment of the file: where its header is, its type, and its payload. */
  datatype Part = Part(at: nat, t: nat, payload: Bytes)

  /** The file holds this fragment, with its length and a checksum that matches. */
  ghost predicate SoundAt(crc: Crc, file: Bytes, p: Part) {
    && p.at + HEADER + |p.payload| <= |file| && p.t < 256
    && file[p.at + 4] as int + 256 * file[p.at + 5] as int == |p.payload| && file[p.at + 6] as int == p.t
    && file[p.at + HEADER..p.at + HEADER + |p.payload|] == p.payload
    && crc([p.t as byte] + p.payload) == Unmask(DecodeFixed32(file[p.at..p.at + 4]))
  }

  /** Sound fragments one behind the other, a first one and any number of middle ones. */
  ghost predicate Begun(crc: Crc, file: Bytes, parts: seq<Part>, end: nat) {
    && (forall i :: 0 <= i < |parts| ==> SoundAt(crc, file, parts[i]) && PartEnd(parts[i]) <= end)
    && (forall i, j :: 0 <= i < j < |parts| ==> PartEnd(parts[i]) <= parts[j].at)
    && (forall i :: 0 <= i < |parts| ==> parts[i].t == if i == 0 then FIRST else MIDDLE)
  }

  function PartEnd(p: Part): nat {
    p.at + HEADER + |p.payload|
  }

  function Joined(parts: seq<Part>): Bytes {
    if parts == [] then [] else Joined(parts[..|parts| - 1]) + parts[|parts| - 1].payload
  }

  /** The record is one full fragment of the file, or a first one, middle ones and a last one, all of them sound. */
  ghost predicate IsRecord(crc: Crc, file: Bytes, parts: seq<Part>, record: Bytes) {
    && parts != [] && record == Joined(parts)
    && var init, last := parts[..|parts| - 1], parts[|parts| - 1];
       && SoundAt(crc, file, last)
       && (if init == [] then last.t == FULL else last.t == LAST && Begun(crc, file, init, last.at))
  }

  ghost predicate FromFile(crc: Crc, file: Bytes, record: Bytes) {
    exists parts :: IsRecord(crc, file, parts, record)
  }

  lemma GoodIsSound(crc: Crc, file: Bytes, at: nat, buffer: Bytes, t: nat, payload: Bytes)
    requires at + |buffer| <= |file| && buffer == file[at..at + |buffer|] && |buffer| >= HEADER
    requires Parse(crc, buffer) == Good(t, payload)
    ensures SoundAt(crc, file, Part(at, t, payload))
  {
    var n := |payload|;
    assert HEADER + n <= |buffer| && payload == buffer[HEADER..HEADER + n];
    assert forall i :: 0 <= i < |buffer| ==> file[at + i] == buffer[i];
    assert file[at..at + 4] == buffer[..4];
    assert file[at + HEADER..at + HEADER + n] == payload;
    assert buffer[6..HEADER + n] == [t as byte] + payload;
  }

  /** The reader's scratch buffer holds the payloads of a record that has begun. */
  ghost predicate Assembling(crc: Crc, file: Bytes, begun: bool, parts: seq<Part>, end: nat, scratch: Bytes) {
    begun ==> parts != [] && Begun(crc, file, parts, end) && scratch == Joined(parts)
  }

  /** What one more sound fragment makes of it. */
  lemma Assemble(crc: Crc, file: Bytes, begun: bool, parts: seq<Part>, end: nat, scratch: Bytes, p: Part, end': nat)
    requires Assembling(crc, file, begun, parts, end, scratch) && SoundAt(crc, file, p) && end <= p.at
    requires PartEnd(p) <= end'
    ensures p.t == FULL ==> IsRecord(crc, file, [p], p.payload)
    ensures p.t == FIRST ==> Assembling(crc, file, true, [p], end', p.payload)
    ensures p.t == MIDDLE ==> Assembling(crc, file, begun, parts + [p], end', scratch + p.payload)
    ensures p.t == LAST && begun ==> IsRecord(crc, file, parts + [p], scratch + p.payload)
  {
    hide SoundAt, Joined, Begun, IsRecord;
    if p.t == FULL { FullRecord(crc, file, p); }
    if p.t == FIRST { FirstBegun(crc, file, p, end'); }
    if p.t == MIDDLE && begun { MiddleBegun(crc, file, parts, end, p, end'); }
    if p.t == LAST && begun { LastRecord(crc, file, parts, end, p); }
  }

  lemma NothingAssembled(crc: Crc, file: Bytes, end: nat)
    ensures forall parts, scratch :: Assembling(crc, file, false, parts, end, scratch)
  {
  }

  lemma JoinedSnoc(parts: seq<Part>, p: Part)
    ensures Joined(parts + [p]) == Joined(parts) + p.payload
    ensures (parts + [p])[..|parts|] == parts
  {
    assert (parts + [p])[..|parts|] == parts;
  }

  lemma FullRecord(crc: Crc, file: Bytes, p: Part)
    requires SoundAt(crc, file, p) && p.t == FULL
    ensures IsRecord(crc, file, [p], p.payload)
  {
    assert Joined([p]) == Joined([]) + p.payload;
  }

  lemma LastRecord(crc: Crc, file: Bytes, parts: seq<Part>, end: nat, p: Part)
    requires Begun(crc, file, parts, end) && parts != [] && SoundAt(crc, file, p) && p.t == LAST && end <= p.at
    ensures IsRecord(crc, file, parts + [p], Joined(parts) + p.payload)
  {
    hide SoundAt, Joined;
    JoinedSnoc(parts, p);
  }

  lemma FirstBegun(crc: Crc, file: Bytes, p: Part, end: nat)
    requires SoundAt(crc, file, p) && p.t == FIRST && PartEnd(p) <= end
    ensures Begun(crc, file, [p], end) && Joined([p]) == p.payload
  {
    assert Joined([p]) == Joined([]) + p.payload;
  }

  lemma MiddleBegun(crc: Crc, file: Bytes, parts: seq<Part>, end: nat, p: Part, end': nat)
    requires Begun(crc, file, parts, end) && parts != [] && SoundAt(crc, file, p) && p.t == MIDDLE
    requires end <= p.at && PartEnd(p) <= end'
    ensures Begun(crc, file, parts + [p], end') && Joined(parts + [p]) == Joined(parts) + p.payload
  {
    hide SoundAt, Joined;
    JoinedSnoc(parts, p);
  }

  class Reader {
    const crc: Crc
    const file: Bytes
    /** How much of the file has been read into the buffer so far. */
    var filePos: nat
    var buffer: Bytes
    var eof: bool
    /** The number of corruption reports. */
    var reports: nat

    /** Offset of the first unconsumed byte. */
    function Pos(): int
      reads this
    {
      filePos - |buffer|
    }

    ghost predicate Ok()
      reads this
    {
      && |buffer| <= filePos <= |file| && |buffer| <= BLOCK && buffer == file[Pos()..filePos]
      && (if eof then filePos == |file| && |file| < Pos() - Pos() % BLOCK + BLOCK
          else filePos % BLOCK == 0 && |buffer| < BLOCK)
    }

    constructor (crc: Crc, file: Bytes)
      ensures Ok() && this.crc == crc && this.file == file && Pos() == 0 && reports == 0
    {
      this.crc, this.file, filePos, buffer, eof, reports := crc, file, 0, [], false, 0;
      new;
      assert file[0..0] == [];
    }

    /** SequentialFile::Read of one block: a short read happens only at the end of the file. */
    method ReadBlock()
      requires Ok() && !eof && |buffer| < HEADER
      modifies this`filePos, this`buffer, this`eof
      ensures |buffer| <= filePos <= |file| && |buffer| <= BLOCK && buffer == file[Pos()..filePos]
              && Pos() == old(filePos)
      ensures filePos == if |file| - old(filePos) < BLOCK then |file| else old(filePos) + BLOCK
      ensures eof == (|buffer| < BLOCK)
    {
      var n := if |file| - filePos < BLOCK then |file| - filePos else BLOCK;
      buffer := file[filePos..filePos + n];
      filePos := filePos + n;
      eof := n < BLOCK;
    }

    /** The refill part of ReadPhysicalRecord: have a header's worth of bytes, or report the end of the file. */
    method FillHeader() returns (ok: bool)
      requires Ok()
      modifies this`filePos, this`buffer, this`eof
      ensures |buffer| <= filePos <= |file| && buffer == file[Pos()..filePos]
      ensures ok ==> |buffer| >= HEADER && Pos() == old(Pos()) + Pad(old(Pos()))
      ensures ok ==> eof == (filePos == |file| && |buffer| < Leftover(Pos())) && (!eof ==> |buffer| == Leftover(Pos()))
      ensures !ok ==> Ok() && eof && buffer == [] && old(Pos()) + Pad(old(Pos())) + HEADER > |file|
    {
      BufferIsBlockTail(Pos(), filePos, |buffer|, eof, |file|);
      while |buffer| < HEADER && !eof
        invariant |buffer| <= filePos <= |file| && |buffer| <= BLOCK && buffer == file[Pos()..filePos]
        invariant (Pos() == old(Pos()) && eof == old(eof) && filePos == old(filePos) && buffer == old(buffer))
                  || (Pos() == old(filePos) && !old(eof) && |old(buffer)| < HEADER
                      && filePos == (if |file| - Pos() < BLOCK then |file| else Pos() + BLOCK)
                         && eof == (|buffer| < BLOCK))
        decreases !eof, HEADER - |buffer|
      {
        ReadBlock();
      }
      if |buffer| < HEADER {
        buffer := [];
        assert file[filePos..filePos] == [];
        return false;
      }
      return true;
    }

    /** The part of ReadPhysicalRecord after the refill: judge the bytes at the header and consume them. */
    method ConsumeFragment() returns (r: Physical)
      requires HEADER <= |buffer| <= filePos <= |file| && buffer == file[Pos()..filePos]
      requires if eof then filePos == |file| && |buffer| < Leftover(Pos())
               else |buffer| == Leftover(Pos()) && filePos % BLOCK == 0
      modifies this`buffer, this`reports
      ensures Ok() && Pos() >= old(Pos()) && (!r.Eof? ==> Pos() > old(Pos())) && reports >= old(reports)
      ensures match Parse(crc, old(buffer))
              case Good(t, payload) =>
                r == Fragmentary(t, payload) && reports == old(reports) && Pos() == old(Pos()) + HEADER + |payload|
              case TooLong => if eof then r == Eof && reports == old(reports)
                else r == BadRecord && reports == old(reports) + 1
              case Preallocated => r == BadRecord && reports == old(reports)
              case BadChecksum => r == BadRecord && reports == old(reports) + 1
      ensures r.Fragmentary? ==> Pos() == old(Pos()) + HEADER + |r.payload|
                                 && SoundAt(crc, file, Part(old(Pos()), r.t, r.payload))
    {
      hide SoundAt;
      StaysInBlock(Pos(), filePos, eof, |file|);
      match Parse(crc, buffer)
      case TooLong =>
        buffer := [];
        if !eof {
          reports := reports + 1;
          r := BadRecord;
        } else {
          r := Eof;
        }
      case Preallocated =>
        buffer := [];
        r := BadRecord;
      case BadChecksum =>
        buffer := [];
        reports := reports + 1;
        r := BadRecord;
      case Good(t, payload) =>
        GoodIsSound(crc, file, Pos(), buffer, t, payload);
        r := Fragmentary(t, payload);
        buffer := buffer[HEADER + |payload|..];
    }

    /** ReadPhysicalRecord.  The ghost arguments describe the log the file may be a prefix of. */
    method ReadPhysicalRecord(ghost left: Bytes, ghost begin: bool, ghost tail: Bytes) returns (r: Physical)
      requires Ok()
      modifies this`filePos, this`buffer, this`eof, this`reports
      ensures Ok() && Pos() >= old(Pos()) && reports >= old(reports)
      ensures !r.Eof? ==> Pos() > old(Pos())
      ensures r.Fragmentary? ==>
                old(Pos()) <= Pos() - HEADER - |r.payload|
                && SoundAt(crc, file, Part(Pos() - HEADER - |r.payload|, r.t, r.payload))
      ensures old(Pos()) == |file| ==> r.Eof? && reports == old(reports)
      ensures file[old(Pos())..] <= Emit(crc, old(Pos()), left, begin) + tail ==>
                reports == old(reports) &&
                if FragmentEnd(old(Pos()), left) <= |file| then
                  && r == Fragmentary(FragmentType(begin, FragmentLength(old(Pos()), left) == |left|),
                                      left[..FragmentLength(old(Pos()), left)])
                  && Pos() == FragmentEnd(old(Pos()), left)
                else r.Eof?
    {
      hide Emit, Header, Parse, FragmentLength, FragmentType, Pad, SoundAt;
      var ok := FillHeader();
      if !ok {
        return Eof;
      }
      if file[old(Pos())..] <= Emit(crc, old(Pos()), left, begin) + tail {
        ParseInFile(crc, file, old(Pos()), left, begin, tail, filePos, eof);
      }
      r := ConsumeFragment();
    }

    method ReportCorruption()
      modifies this`reports
      ensures reports == old(reports) + 1
    {
      reports := reports + 1;
    }

    /**
     ReadRecord: assemble the next record from its fragments.  On a prefix of a log, positioned at a record boundary,
     it returns the next record if that lies wholly inside the file and stops silently otherwise.  Whatever the file,
     what it returns is assembled from fragments of the file whose checksums match.
     */
    method ReadRecord(ghost records: seq<Bytes>) returns (r: Option<Bytes>, ghost parts: seq<Part>)
      requires Ok()
      modifies this`filePos, this`buffer, this`eof, this`reports
      ensures Ok() && (r.Some? ==> Pos() > old(Pos())) && Pos() >= old(Pos())
      ensures r.Some? ==> IsRecord(crc, file, parts, r.value)
      ensures file[old(Pos())..] <= LogFrom(crc, old(Pos()), records) ==>
                reports == old(reports) &&
                if records != [] && old(Pos()) + |Emit(crc, old(Pos()), records[0], true)| <= |file| then
                  r == Some(records[0]) && Pos() == old(Pos()) + |Emit(crc, old(Pos()), records[0], true)|
                else r == None
    {
      hide Emit, LogFrom, Midway, Following, RestOfLog, SoundAt, IsRecord, Assembling, FragmentEnd, FragmentLength;
      parts := [];
      NothingAssembled(crc, file, Pos());
      var scratch: Bytes := [];
      var inFragmentedRecord := false;
      ghost var at := Pos();
      ghost var left := if records == [] then [] else records[0];
      ghost var tail := RestOfLog(crc, at, records);
      ghost var aligned := file[at..] <= LogFrom(crc, at, records);
      if aligned { ReadStart(crc, file, at, records); }
      while true
        invariant Ok() && Pos() >= at
        invariant Assembling(crc, file, inFragmentedRecord, parts, Pos(), scratch)
        invariant aligned ==> reports == old(reports)
        invariant aligned ==> Following(crc, file, at, records, Pos(), scratch, left, !inFragmentedRecord, tail)
        decreases |file| - Pos()
      {
        ghost var pos, begin, n := Pos(), !inFragmentedRecord, FragmentLength(Pos(), left);
        if aligned { FollowOn(crc, file, at, records, pos, scratch, left, begin, tail); }
        var p := ReadPhysicalRecord(left, begin, tail);
        match p
        case Eof =>
          return None, parts;
        case BadRecord =>
          if inFragmentedRecord {
            ReportCorruption();
            inFragmentedRecord := false;
            scratch := [];
          }
          NothingAssembled(crc, file, Pos());
        case Fragmentary(t, fragment) =>
          ghost var part := Part(Pos() - HEADER - |fragment|, t, fragment);
          var done, record;
          done, record, inFragmentedRecord, scratch, parts :=
            TakeFragment(t, fragment, inFragmentedRecord, scratch, parts, pos, part);
          if done {
            return Some(record), parts;
          }
          left := left[n..];
      }
    }

    /** The switch of ReadRecord: a fragment completes the record, or begins or continues one, or is out of place. */
    method TakeFragment(t: nat, fragment: Bytes, inFragmentedRecord: bool, scratch: Bytes,
                        ghost parts: seq<Part>, ghost end: nat, ghost part: Part)
      returns (done: bool, record: Bytes, inFragmentedRecord': bool, scratch': Bytes, ghost parts': seq<Part>)
      requires Pos() >= 0 && Assembling(crc, file, inFragmentedRecord, parts, end, scratch)
      requires part.t == t && part.payload == fragment && SoundAt(crc, file, part)
      requires end <= part.at && PartEnd(part) <= Pos()
      modifies this`reports
      ensures done ==> IsRecord(crc, file, parts', record)
      ensures !done ==> Assembling(crc, file, inFragmentedRecord', parts', Pos(), scratch')
      ensures t == FULL ==> done && record == fragment
      ensures t == LAST && inFragmentedRecord ==> done && record == scratch + fragment
      ensures t == FIRST ==> !done && inFragmentedRecord' && scratch' == fragment
      ensures t == MIDDLE && inFragmentedRecord ==> !done && inFragmentedRecord' && scratch' == scratch + fragment
      ensures (if t == FULL || t == FIRST then !inFragmentedRecord || scratch == []
               else (t == MIDDLE || t == LAST) && inFragmentedRecord) <==> reports == old(reports)
    {
      hide SoundAt, IsRecord, Assembling;
      Assemble(crc, file, inFragmentedRecord, parts, end, scratch, part, Pos());
      NothingAssembled(crc, file, Pos());
      done, record, inFragmentedRecord', scratch', parts' := false, [], inFragmentedRecord, scratch, parts;
      if t == FULL {
        if inFragmentedRecord && scratch != [] {
          ReportCorruption();
        }
        done, record, parts' := true, fragment, [part];
      } else if t == FIRST {
        if inFragmentedRecord && scratch != [] {
          ReportCorruption();
        }
        scratch', parts' := fragment, [part];
        inFragmentedRecord' := true;
      } else if t == MIDDLE {
        if !inFragmentedRecord {
          ReportCorruption();
        } else {
          scratch', parts' := scratch + fragment, parts + [part];
        }
      } else if t == LAST {
        if !inFragmentedRecord {
          ReportCorruption();
        } else {
          done, record, parts' := true, scratch + fragment, parts + [part];
        }
      } else {
        ReportCorruption();
        inFragmentedRecord' := false;
        scratch' := [];
      }
    }
  }

  ghost function RestOfLog(crc: Crc, at: nat, records: seq<Bytes>): Bytes {
    if records == [] then [] else LogFrom(crc, at + |Emit(crc, at, records[0], true)|, records[1..])
  }

  /** In the middle of the first record: what is assembled, what is left, and where it will end. */
  ghost predicate Midway(crc: Crc, file: Bytes, at: nat, records: seq<Bytes>, pos: nat, scratch: Bytes, left: Bytes,
                         begin: bool, tail: Bytes)
    requires records != []
  {
    && pos <= |file| && file[pos..] <= Emit(crc, pos, left, begin) + tail
    && pos + |Emit(crc, pos, left, begin)| == at + |Emit(crc, at, records[0], true)|
    && scratch + left == records[0]
    && (begin ==> scratch == [])
  }

  /** Where the reader stands in the log, if there are records left. */
  ghost predicate Following(crc: Crc, file: Bytes, at: nat, records: seq<Bytes>, pos: nat, scratch: Bytes, left: Bytes,
                            begin: bool, tail: Bytes)
  {
    if records == [] then pos == |file|
    else
      && Midway(crc, file, at, records, pos, scratch, left, begin, tail)
      && pos <= |file| && file[pos..] <= Emit(crc, pos, left, begin) + tail
  }

  lemma FollowOn(crc: Crc, file: Bytes, at: nat, records: seq<Bytes>, pos: nat, scratch: Bytes, left: Bytes,
                 begin: bool, tail: Bytes)
    requires Following(crc, file, at, records, pos, scratch, left, begin, tail)
    ensures pos <= |file| && (records == [] ==> pos == |file|)
    ensures records != [] ==> file[pos..] <= Emit(crc, pos, left, begin) + tail
    ensures var n, end := FragmentLength(pos, left), FragmentEnd(pos, left);
            records != [] ==>
              && (end > |file| ==> at + |Emit(crc, at, records[0], true)| > |file|)
              && (begin ==> scratch + left[..n] == left[..n])
              && (end <= |file| && n == |left| ==>
                    scratch + left[..n] == records[0] && end == at + |Emit(crc, at, records[0], true)|)
              && (end <= |file| && n < |left| ==>
                    Following(crc, file, at, records, end, scratch + left[..n], left[n..], false, tail))
  {
    hide Emit, Midway, FragmentLength, FragmentEnd;
    if records != [] { FragmentConsumed(crc, file, at, records, pos, scratch, left, begin, tail); }
  }

  lemma ReadStart(crc: Crc, file: Bytes, at: nat, records: seq<Bytes>)
    requires at <= |file| && file[at..] <= LogFrom(crc, at, records)
    ensures Following(crc, file, at, records, at, [], if records == [] then [] else records[0], true,
                      RestOfLog(crc, at, records))
  {
  }

  /** One whole fragment further, or the record does not fit. */
  lemma FragmentConsumed(crc: Crc, file: Bytes, at: nat, records: seq<Bytes>, pos: nat, scratch: Bytes, left: Bytes,
                         begin: bool, tail: Bytes)
    requires records != [] && Midway(crc, file, at, records, pos, scratch, left, begin, tail)
    ensures var n, end := FragmentLength(pos, left), FragmentEnd(pos, left);
            && (end > |file| ==> at + |Emit(crc, at, records[0], true)| > |file|)
            && (begin ==> scratch + left[..n] == left[..n])
            && (end <= |file| && n == |left| ==>
                  scratch + left[..n] == records[0] && end == at + |Emit(crc, at, records[0], true)|)
            && (end <= |file| && n < |left| ==>
                  Midway(crc, file, at, records, end, scratch + left[..n], left[n..], false, tail)
                  && file[end..] <= Emit(crc, end, left[n..], false) + tail)
  {
    var n, end := FragmentLength(pos, left), FragmentEnd(pos, left);
    var f := Fragment(crc, pos, left, begin);
    if n < |left| {
      var rest := Emit(crc, end, left[n..], false);
      assert Emit(crc, pos, left, begin) == f + rest;
      assert scratch + left[..n] + left[n..] == scratch + left;
      if end <= |file| {
        DropPrefix(file[pos..], f, rest + tail);
        assert (f + rest) + tail == f + (rest + tail);
        assert file[pos..][|f|..] == file[end..];
      }
    } else {
      assert left[..n] == left;
    }
  }

  lemma DropPrefix(a: Bytes, f: Bytes, b: Bytes)
    requires a <= f + b && |f| <= |a|
    ensures a[|f|..] <= b
  {
    assert forall i :: 0 <= i < |a| - |f| ==> a[|f|..][i] == (f + b)[|f| + i];
  }

  /**
   Read a whole file.  If the file is a prefix of the log of `records`, of any length, the result is exactly the
   records that lie wholly inside it, in order, and nothing is reported as corrupt.  Whatever the file, every record
   found is assembled from fragments with matching checksums.
   */
  method ReadLog(crc: Crc, file: Bytes, ghost records: seq<Bytes>) returns (found: seq<Bytes>, reports: nat)
    ensures forall i :: 0 <= i < |found| ==> FromFile(crc, file, found[i])
    ensures file <= LogFrom(crc, 0, records) ==>
              found == records[..WholeRecords(crc, 0, records, |file|)] && reports == 0
  {
    hide Emit, IsRecord;
    var reader := new Reader(crc, file);
    found := [];
    ghost var todo := records;
    ghost var aligned := file <= LogFrom(crc, 0, records);
    assert file[0..] == file && records[..0] == [];
    while true
      invariant reader.Ok() && fresh(reader) && reader.file == file && reader.crc == crc
      invariant forall i :: 0 <= i < |found| ==> FromFile(crc, file, found[i])
      invariant aligned ==> reader.reports == 0 && file[reader.Pos()..] <= LogFrom(crc, reader.Pos(), todo)
      invariant aligned ==> |found| + |todo| == |records| && found == records[..|found|] && todo == records[|found|..]
      invariant aligned ==>
                  WholeRecords(crc, 0, records, |file|)
                  == |found| + WholeRecords(crc, reader.Pos(), todo, |file|)
      decreases |file| - reader.Pos()
    {
      ghost var pos := reader.Pos();
      var r;
      ghost var parts;
      r, parts := reader.ReadRecord(todo);
      if r.None? {
        break;
      }
      assert FromFile(crc, file, r.value);
      found := found + [r.value];
      if aligned {
        var e := Emit(crc, pos, todo[0], true);
        DropPrefix(file[pos..], e, LogFrom(crc, pos + |e|, todo[1..]));
        assert file[pos..][|e|..] == file[pos + |e|..];
        todo := todo[1..];
      }
    }
    reports := reader.reports;
  }

  /** Writing a log and reading back any prefix of it. */
  method RoundTrip(crc: Crc, records: seq<Bytes>, n: nat) returns (found: seq<Bytes>, reports: nat)
    ensures reports == 0 && found == records[..WholeRecords(crc, 0, records, n)]
  {
    var file := WriteLog(crc, records);
    if n < |file| {
      found, reports := ReadLog(crc, file[..n], records);
    } else {
      found, reports := ReadLog(crc, file, records);
      PastTheEnd(crc, 0, records, n);
      PastTheEnd(crc, 0, records, |file|);
    }
  }

  /** How many records lie wholly in the first `n` bytes: as many as their log is no longer than that. */
  lemma {:induction false} WholeRecordsIs(crc: Crc, at: nat, records: seq<Bytes>, n: nat, m: nat)
    requires m <= |records|
    ensures m <= WholeRecords(crc, at, records, n) <==> m == 0 || at + |LogFrom(crc, at, records[..m])| <= n
    decreases |records|
  {
    hide Emit;
    if m > 0 {
      var e := Emit(crc, at, records[0], true);
      assert records[..m][0] == records[0] && records[..m][1..] == records[1..][..m - 1];
      WholeRecordsIs(crc, at + |e|, records[1..], n, m - 1);
    }
  }

  lemma {:induction false} PastTheEnd(crc: Crc, at: nat, records: seq<Bytes>, n: nat)
    requires at + |LogFrom(crc, at, records)| <= n
    ensures WholeRecords(crc, at, records, n) == |records|
    decreases |records|
  {
    if records != [] {
      PastTheEnd(crc, at + |Emit(crc, at, records[0], true)|, records[1..], n);
    }
  }

  /** Consuming bytes of the buffer stays inside its block. */
  lemma StaysInBlock(pos: nat, filePos: nat, eof: bool, size: nat)
    requires pos < filePos <= size
    requires if eof then filePos == size && filePos - pos < Leftover(pos)
             else filePos - pos == Leftover(pos) && filePos % BLOCK == 0
    ensures eof ==> forall q :: pos <= q <= filePos ==> size < q - q % BLOCK + BLOCK
  {
  }

  /**
   At a fragment boundary of a log prefix: the fragment if it is whole, else a record cut off by the end of the file.
   */
  lemma ParseInFile(crc: Crc, file: Bytes, at: nat, left: Bytes, begin: bool, tail: Bytes, filePos: nat, eof: bool)
    requires at <= |file| && file[at..] <= Emit(crc, at, left, begin) + tail
    requires at + Pad(at) + HEADER <= filePos <= |file|
    requires eof ==> filePos == |file|
    requires !eof ==> filePos - (at + Pad(at)) == Leftover(at + Pad(at))
    ensures var n := FragmentLength(at, left);
            var parsed := Parse(crc, file[at + Pad(at)..filePos]);
            if FragmentEnd(at, left) <= |file| then parsed == Good(FragmentType(begin, n == |left|), left[..n])
            else parsed == TooLong && eof
  {
    var n := FragmentLength(at, left);
    var buffer := file[at + Pad(at)..filePos];
    HeaderInFile(crc, file, at, left, begin, tail);
    BufferHolds(file, at + Pad(at), filePos, buffer, n);
    ParseHeader(crc, FragmentType(begin, n == |left|), left[..n], buffer);
  }

  lemma BufferHolds(file: Bytes, pos: nat, filePos: nat, buffer: Bytes, n: nat)
    requires pos <= filePos <= |file| && buffer == file[pos..filePos] && |buffer| >= HEADER
    ensures buffer[..HEADER] == file[pos..pos + HEADER]
    ensures HEADER + n <= |buffer| ==> buffer[HEADER..HEADER + n] == file[pos + HEADER..pos + HEADER + n]
  {
  }

  lemma BufferIsBlockTail(pos: int, filePos: nat, n: nat, eof: bool, size: nat)
    requires pos == filePos - n >= 0 && filePos <= size
    requires if eof then filePos == size && size < pos - pos % BLOCK + BLOCK else filePos % BLOCK == 0 && n < BLOCK
    ensures !eof && n < HEADER ==> Pad(pos) == n && filePos % BLOCK == 0
    ensures n >= HEADER ==> Pad(pos) == 0
    ensures !eof && n > 0 ==> n == Leftover(pos)
    ensures eof ==> n < Leftover(pos)
  {
  }

  /** In a prefix of a log, the bytes at a fragment boundary are the fragment's header and payload. */
  lemma HeaderInFile(crc: Crc, file: Bytes, at: nat, left: Bytes, begin: bool, tail: Bytes)
    requires at <= |file| && file[at..] <= Emit(crc, at, left, begin) + tail
    requires at + Pad(at) + HEADER <= |file|
    ensures var p, n := at + Pad(at), FragmentLength(at, left);
            && file[p..p + HEADER] == Header(crc, FragmentType(begin, n == |left|), left[..n])
            && (p + HEADER + n <= |file| ==> file[p + HEADER..p + HEADER + n] == left[..n])
  {
    var p, n := at + Pad(at), FragmentLength(at, left);
    var h := Header(crc, FragmentType(begin, n == |left|), left[..n]);
    var f := Zeros(Pad(at)) + h + left[..n];
    var s := Emit(crc, at, left, begin) + tail;
    assert f == Fragment(crc, at, left, begin);
    assert forall i :: 0 <= i < |f| ==> s[i] == f[i];
    assert forall i :: at <= i < |file| ==> file[i] == file[at..][i - at];
    assert forall i :: 0 <= i < HEADER ==> file[p + i] == h[i];
    assert p + HEADER + n <= |file| ==> forall i :: 0 <= i < n ==> file[p + HEADER + i] == left[i];
  }
}
