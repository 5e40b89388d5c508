/**
 The on-disk form of a version edit (db/version_edit.h, db/version_edit.cc): a string of tagged items.  Internal keys
 appear as the byte strings they are stored as.
 */
module EditRecords {
  import opened Keys
  import opened Coding
  import Versions

  const COMPARATOR: nat := 1
  const LOG_NUMBER: nat := 2
  const NEXT_FILE_NUMBER: nat := 3
  const LAST_SEQUENCE: nat := 4
  const COMPACT_POINTER: nat := 5
  const DELETED_FILE: nat := 6
  const NEW_FILE: nat := 7
  const PREV_LOG_NUMBER: nat := 9

  /** What the manifest records of a table file. */
  datatype RawFile = RawFile(number: nat, size: nat, smallest: Bytes, largest: Bytes)

  /** The value of a VersionEdit object; an absent field is None. */
  datatype EditRecord = EditRecord(
    comparator: Option<Bytes>, logNumber: Option<nat>, prevLogNumber: Option<nat>, nextFileNumber: Option<nat>,
    lastSequence: Option<nat>, compactPointers: seq<(nat, Bytes)>, deletedFiles: set<(nat, nat)>,
    newFiles: seq<(nat, RawFile)>)

  const BLANK := EditRecord(None, None, None, None, None, [], {}, [])

  datatype Item =
    | Comparator(name: Bytes)
    | LogNumber(n: nat) | PrevLogNumber(n: nat) | NextFileNumber(n: nat) | LastSequence(n: nat)
    | CompactPointer(level: nat, key: Bytes) | DeletedFile(level: nat, n: nat) | NewFile(level: nat, file: RawFile)

  // ---------- what fits the format ----------

  predicate FitsString(s: Bytes) {
    |s| < TWO32
  }

  predicate FitsItem(i: Item) {
    match i
    case Comparator(name) => FitsString(name)
    case CompactPointer(level, key) => level < Versions.NUM_LEVELS && FitsString(key)
    case DeletedFile(level, n) => level < Versions.NUM_LEVELS && n < TWO64
    case NewFile(level, f) =>
      level < Versions.NUM_LEVELS && f.number < TWO64 && f.size < TWO64 && FitsString(f.smallest)
        && FitsString(f.largest)
    case _ => i.n < TWO64
  }

  predicate FitsNumber(n: Option<nat>) {
    n.Some? ==> n.value < TWO64
  }

  /** The fields are in the ranges of their types. */
  ghost predicate Fits(e: EditRecord) {
    && (e.comparator.Some? ==> FitsString(e.comparator.value))
    && FitsNumber(e.logNumber) && FitsNumber(e.prevLogNumber) && FitsNumber(e.nextFileNumber)
       && FitsNumber(e.lastSequence)
    && (forall p :: p in e.compactPointers ==> FitsItem(CompactPointer(p.0, p.1)))
    && (forall p :: p in e.deletedFiles ==> FitsItem(DeletedFile(p.0, p.1)))
    && (forall p :: p in e.newFiles ==> FitsItem(NewFile(p.0, p.1)))
  }

  // ---------- items as bytes ----------

  function EncodeItem(i: Item): (r: Bytes)
    ensures |r| > 0
  {
    match i
    case Comparator(name) => Varint(COMPARATOR) + LengthPrefixed(name)
    case LogNumber(n) => Varint(LOG_NUMBER) + Varint(n)
    case PrevLogNumber(n) => Varint(PREV_LOG_NUMBER) + Varint(n)
    case NextFileNumber(n) => Varint(NEXT_FILE_NUMBER) + Varint(n)
    case LastSequence(n) => Varint(LAST_SEQUENCE) + Varint(n)
    case CompactPointer(level, key) => Varint(COMPACT_POINTER) + Varint(level) + LengthPrefixed(key)
    case DeletedFile(level, n) => Varint(DELETED_FILE) + Varint(level) + Varint(n)
    case NewFile(level, f) =>
      Varint(NEW_FILE) + Varint(level) + Varint(f.number) + Varint(f.size) + LengthPrefixed(f.smallest)
        + LengthPrefixed(f.largest)
  }

  function EncodeItems(items: seq<Item>): Bytes {
    if items == [] then [] else EncodeItem(items[0]) + EncodeItems(items[1..])
  }

  function ReadLevel(b: Bytes): (r: Option<(nat, Bytes)>)
    ensures r.Some? ==> r.value.0 < Versions.NUM_LEVELS && |r.value.1| < |b|
  {
    match ReadVarint32(b)
    case Some((v, rest)) => if v < Versions.NUM_LEVELS then Some((v, rest)) else None
    case None => None
  }

  function ReadNumber(b: Bytes): (r: Option<(nat, Bytes)>)
    ensures r.Some? ==> |r.value.1| < |b|
  {
    match ReadVarint64(b)
    case Some((v, rest)) => Some((v as nat, rest))
    case None => None
  }

  function ReadFile(b: Bytes): (r: Option<(RawFile, Bytes)>)
    ensures r.Some? ==> |r.value.1| < |b|
  {
    match ReadNumber(b)
    case None => None
    case Some((number, b1)) =>
      match ReadNumber(b1)
      case None => None
      case Some((size, b2)) =>
        match ReadLengthPrefixed(b2)
        case None => None
        case Some((smallest, b3)) =>
          match ReadLengthPrefixed(b3)
          case None => None
          case Some((largest, b4)) => Some((RawFile(number, size, smallest, largest), b4))
  }

  /** What follows a tag. */
  function ReadBody(tag: nat, b: Bytes): (r: Option<(Item, Bytes)>)
    ensures r.Some? ==> |r.value.1| < |b|
  {
    if tag == COMPARATOR then
      match ReadLengthPrefixed(b)
      case Some((name, rest)) => Some((Comparator(name), rest))
      case None => None
    else if tag == COMPACT_POINTER || tag == DELETED_FILE || tag == NEW_FILE then
      match ReadLevel(b)
      case None => None
      case Some((level, b1)) =>
        if tag == COMPACT_POINTER then
          match ReadLengthPrefixed(b1)
          case Some((key, rest)) => Some((CompactPointer(level, key), rest))
          case None => None
        else if tag == DELETED_FILE then
          match ReadNumber(b1)
          case Some((n, rest)) => Some((DeletedFile(level, n), rest))
          case None => None
        else
          match ReadFile(b1)
          case Some((f, rest)) => Some((NewFile(level, f), rest))
          case None => None
    else
      match ReadNumber(b)
      case None => None
      case Some((n, rest)) =>
        if tag == LOG_NUMBER then Some((LogNumber(n), rest))
        else if tag == PREV_LOG_NUMBER then Some((PrevLogNumber(n), rest))
        else if tag == NEXT_FILE_NUMBER then Some((NextFileNumber(n), rest))
        else if tag == LAST_SEQUENCE then Some((LastSequence(n), rest))
        else None
  }

  /** All items of a record; none when it is corrupt. */
  function ParseItems(b: Bytes): Option<seq<Item>>
    decreases |b|
  {
    match ReadVarint32(b)
    case None => if b == [] then Some([]) else None
    case Some((tag, b1)) =>
      match ReadBody(tag, b1)
      case None => None
      case Some((item, rest)) =>
        match ParseItems(rest)
        case None => None
        case Some(items) => Some([item] + items)
  }

  /** Whatever the bytes, the items of an accepted record are in range: a level that does not exist is an error. */
  lemma {:induction false} ParsedFits(b: Bytes)
    requires ParseItems(b).Some?
    ensures forall i :: i in ParseItems(b).value ==> FitsItem(i)
    decreases |b|
  {
    if ReadVarint32(b).Some? {
      var (tag, b1) := ReadVarint32(b).value;
      var (item, rest) := ReadBody(tag, b1).value;
      BodyFits(tag, b1);
      ParsedFits(rest);
    }
  }

  lemma BodyFits(tag: nat, b: Bytes)
    requires ReadBody(tag, b).Some?
    ensures FitsItem(ReadBody(tag, b).value.0)
  {
    hide VarintAt;
  }

  lemma ReadFileRoundTrip(f: RawFile, rest: Bytes)
    requires f.number < TWO64 && f.size < TWO64 && FitsString(f.smallest) && FitsString(f.largest)
    ensures ReadFile(Varint(f.number) + Varint(f.size) + LengthPrefixed(f.smallest) + LengthPrefixed(f.largest) + rest)
            == Some((f, rest))
  {
    hide Varint, LengthPrefixed, ReadVarint64, ReadLengthPrefixed;
    var b3 := LengthPrefixed(f.largest) + rest;
    var b2 := LengthPrefixed(f.smallest) + b3;
    var b1 := Varint(f.size) + b2;
    var b0 := Varint(f.number) + b1;
    assert Varint(f.number) + Varint(f.size) + LengthPrefixed(f.smallest) + LengthPrefixed(f.largest) + rest == b0;
    Varint64RoundTrip(f.number, b1);
    Varint64RoundTrip(f.size, b2);
    LengthPrefixedRoundTrip(f.smallest, b3);
    LengthPrefixedRoundTrip(f.largest, rest);
  }

  /** The tag and the rest of an item's bytes. */
  function Tag(i: Item): U32 {
    match i
    case Comparator(_) => COMPARATOR
    case LogNumber(_) => LOG_NUMBER
    case PrevLogNumber(_) => PREV_LOG_NUMBER
    case NextFileNumber(_) => NEXT_FILE_NUMBER
    case LastSequence(_) => LAST_SEQUENCE
    case CompactPointer(_, _) => COMPACT_POINTER
    case DeletedFile(_, _) => DELETED_FILE
    case NewFile(_, _) => NEW_FILE
  }

  lemma NewFileRoundTrip(level: nat, f: RawFile, rest: Bytes)
    requires FitsItem(NewFile(level, f))
    ensures exists body :: EncodeItem(NewFile(level, f)) + rest == Varint(NEW_FILE) + body
                           && ReadBody(NEW_FILE, body) == Some((NewFile(level, f), rest))
  {
    hide Varint, LengthPrefixed, ReadVarint64, ReadVarint32, ReadLengthPrefixed, ReadFile;
    var tail := Varint(f.number) + Varint(f.size) + LengthPrefixed(f.smallest) + LengthPrefixed(f.largest) + rest;
    Varint32RoundTrip(level, tail);
    ReadFileRoundTrip(f, rest);
    assert EncodeItem(NewFile(level, f)) + rest == Varint(NEW_FILE) + (Varint(level) + tail);
  }

  lemma BodyRoundTrip(i: Item, rest: Bytes)
    requires FitsItem(i)
    ensures exists body :: EncodeItem(i) + rest == Varint(Tag(i)) + body && ReadBody(Tag(i), body) == Some((i, rest))
  {
    hide Varint, LengthPrefixed, ReadVarint64, ReadVarint32, ReadLengthPrefixed, ReadFile;
    var t := Varint(Tag(i));
    match i
    case Comparator(name) =>
      LengthPrefixedRoundTrip(name, rest);
      Reassociate(t, LengthPrefixed(name), rest);
    case CompactPointer(level, key) =>
      Varint32RoundTrip(level, LengthPrefixed(key) + rest);
      LengthPrefixedRoundTrip(key, rest);
      assert EncodeItem(i) + rest == t + (Varint(level) + (LengthPrefixed(key) + rest));
    case DeletedFile(level, n) =>
      Varint32RoundTrip(level, Varint(n) + rest);
      Varint64RoundTrip(n, rest);
      assert EncodeItem(i) + rest == t + (Varint(level) + (Varint(n) + rest));
    case NewFile(level, f) =>
      NewFileRoundTrip(level, f, rest);
    case _ =>
      Varint64RoundTrip(i.n, rest);
      Reassociate(t, Varint(i.n), rest);
  }

  lemma Reassociate(a: Bytes, b: Bytes, c: Bytes)
    ensures (a + b) + c == a + (b + c)
  {
  }

  /** Parsing what a list of items encodes to gives the list back. */
  lemma {:induction false} ItemsRoundTrip(items: seq<Item>)
    requires forall i :: i in items ==> FitsItem(i)
    ensures ParseItems(EncodeItems(items)) == Some(items)
  {
    if items != [] {
      var rest := EncodeItems(items[1..]);
      ItemsRoundTrip(items[1..]);
      BodyRoundTrip(items[0], rest);
      var body :| EncodeItem(items[0]) + rest == Varint(Tag(items[0])) + body
                  && ReadBody(Tag(items[0]), body) == Some((items[0], rest));
      Varint32RoundTrip(Tag(items[0]), body);
      assert items == [items[0]] + items[1..];
    }
  }

  // ---------- items and edits ----------

  function ApplyItem(e: EditRecord, i: Item): EditRecord {
    match i
    case Comparator(name) => e.(comparator := Some(name))
    case LogNumber(n) => e.(logNumber := Some(n))
    case PrevLogNumber(n) => e.(prevLogNumber := Some(n))
    case NextFileNumber(n) => e.(nextFileNumber := Some(n))
    case LastSequence(n) => e.(lastSequence := Some(n))
    case CompactPointer(level, key) => e.(compactPointers := e.compactPointers + [(level, key)])
    case DeletedFile(level, n) => e.(deletedFiles := e.deletedFiles + {(level, n)})
    case NewFile(level, f) => e.(newFiles := e.newFiles + [(level, f)])
  }

  function ApplyItems(e: EditRecord, items: seq<Item>): EditRecord
    decreases |items|
  {
    if items == [] then e else ApplyItems(ApplyItem(e, items[0]), items[1..])
  }

  lemma {:induction false} ApplyItemsConcat(e: EditRecord, a: seq<Item>, b: seq<Item>)
    ensures ApplyItems(e, a + b) == ApplyItems(ApplyItems(e, a), b)
    decreases |a|
  {
    if a == [] {
      assert a + b == b;
    } else {
      assert (a + b)[1..] == a[1..] + b;
      ApplyItemsConcat(ApplyItem(e, a[0]), a[1..], b);
    }
  }

  function Headers(e: EditRecord): seq<Item> {
    (if e.comparator.Some? then [Comparator(e.comparator.value)] else [])
    + (if e.logNumber.Some? then [LogNumber(e.logNumber.value)] else [])
    + (if e.prevLogNumber.Some? then [PrevLogNumber(e.prevLogNumber.value)] else [])
    + (if e.nextFileNumber.Some? then [NextFileNumber(e.nextFileNumber.value)] else [])
    + (if e.lastSequence.Some? then [LastSequence(e.lastSequence.value)] else [])
  }

  function PointerItems(ps: seq<(nat, Bytes)>): seq<Item> {
    seq(|ps|, i requires 0 <= i < |ps| => CompactPointer(ps[i].0, ps[i].1))
  }

  function DeletedItems(ds: seq<(nat, nat)>): seq<Item> {
    seq(|ds|, i requires 0 <= i < |ds| => DeletedFile(ds[i].0, ds[i].1))
  }

  function FileItems(fs: seq<(nat, RawFile)>): seq<Item> {
    seq(|fs|, i requires 0 <= i < |fs| => NewFile(fs[i].0, fs[i].1))
  }

  /** std::set<std::pair<int, uint64_t>> order. */
  predicate PairLess(a: (nat, nat), b: (nat, nat)) {
    a.0 < b.0 || (a.0 == b.0 && a.1 < b.1)
  }

  /** The elements of a set in iteration order. */
  ghost predicate InOrder(order: seq<(nat, nat)>, s: set<(nat, nat)>) {
    && (forall i, j :: 0 <= i < j < |order| ==> PairLess(order[i], order[j]))
    && (forall p :: p in order <==> p in s)
  }

  /** What EncodeTo writes, item by item. */
  function Items(e: EditRecord, order: seq<(nat, nat)>): seq<Item> {
    Headers(e) + PointerItems(e.compactPointers) + DeletedItems(order) + FileItems(e.newFiles)
  }

  lemma {:induction false} ApplyPointers(e: EditRecord, ps: seq<(nat, Bytes)>)
    ensures ApplyItems(e, PointerItems(ps)) == e.(compactPointers := e.compactPointers + ps)
    decreases |ps|
  {
    if ps != [] {
      assert PointerItems(ps)[1..] == PointerItems(ps[1..]);
      ApplyPointers(ApplyItem(e, PointerItems(ps)[0]), ps[1..]);
      assert e.compactPointers + [ps[0]] + ps[1..] == e.compactPointers + ps;
    } else {
      assert e.compactPointers + [] == e.compactPointers;
    }
  }

  lemma {:induction false} ApplyDeleted(e: EditRecord, ds: seq<(nat, nat)>)
    ensures ApplyItems(e, DeletedItems(ds)) == e.(deletedFiles := e.deletedFiles + set p | p in ds)
    decreases |ds|
  {
    if ds != [] {
      assert DeletedItems(ds)[1..] == DeletedItems(ds[1..]);
      ApplyDeleted(ApplyItem(e, DeletedItems(ds)[0]), ds[1..]);
      assert ds == [ds[0]] + ds[1..];
      assert e.deletedFiles + {ds[0]} + (set p | p in ds[1..]) == e.deletedFiles + set p | p in ds;
    } else {
      assert e.deletedFiles + (set p | p in ds) == e.deletedFiles;
    }
  }

  lemma {:induction false} ApplyFiles(e: EditRecord, fs: seq<(nat, RawFile)>)
    ensures ApplyItems(e, FileItems(fs)) == e.(newFiles := e.newFiles + fs)
    decreases |fs|
  {
    if fs != [] {
      assert FileItems(fs)[1..] == FileItems(fs[1..]);
      ApplyFiles(ApplyItem(e, FileItems(fs)[0]), fs[1..]);
      assert e.newFiles + [fs[0]] + fs[1..] == e.newFiles + fs;
    } else {
      assert e.newFiles + [] == e.newFiles;
    }
  }

  lemma ApplyOne(e: EditRecord, i: Item)
    ensures ApplyItems(e, [i]) == ApplyItem(e, i)
  {
    assert [i][1..] == [];
  }

  lemma ApplyHeaders(e: EditRecord, blank: EditRecord)
    requires blank == BLANK.(compactPointers := blank.compactPointers)
    ensures ApplyItems(blank, Headers(e))
            == e.(compactPointers := blank.compactPointers, deletedFiles := {}, newFiles := [])
  {
    var e0 := blank.(comparator := e.comparator);
    var e1 := e0.(logNumber := e.logNumber);
    var e2 := e1.(prevLogNumber := e.prevLogNumber);
    var e3 := e2.(nextFileNumber := e.nextFileNumber);
    var c := if e.comparator.Some? then [Comparator(e.comparator.value)] else [];
    var l := if e.logNumber.Some? then [LogNumber(e.logNumber.value)] else [];
    var p := if e.prevLogNumber.Some? then [PrevLogNumber(e.prevLogNumber.value)] else [];
    var n := if e.nextFileNumber.Some? then [NextFileNumber(e.nextFileNumber.value)] else [];
    var s := if e.lastSequence.Some? then [LastSequence(e.lastSequence.value)] else [];
    if e.comparator.Some? { ApplyOne(blank, Comparator(e.comparator.value)); }
    if e.logNumber.Some? { ApplyOne(e0, LogNumber(e.logNumber.value)); }
    if e.prevLogNumber.Some? { ApplyOne(e1, PrevLogNumber(e.prevLogNumber.value)); }
    if e.nextFileNumber.Some? { ApplyOne(e2, NextFileNumber(e.nextFileNumber.value)); }
    if e.lastSequence.Some? { ApplyOne(e3, LastSequence(e.lastSequence.value)); }
    ApplyItemsConcat(blank, c + l + p + n, s);
    ApplyItemsConcat(blank, c + l + p, n);
    ApplyItemsConcat(blank, c + l, p);
    ApplyItemsConcat(blank, c, l);
  }

  /** Applying the items of an edit to a cleared edit gives the edit, after any compaction pointers left in it. */
  lemma ItemsRebuild(e: EditRecord, order: seq<(nat, nat)>, blank: EditRecord)
    requires InOrder(order, e.deletedFiles) && blank == BLANK.(compactPointers := blank.compactPointers)
    ensures ApplyItems(blank, Items(e, order)) == e.(compactPointers := blank.compactPointers + e.compactPointers)
  {
    var h, p, d, f := Headers(e), PointerItems(e.compactPointers), DeletedItems(order), FileItems(e.newFiles);
    ApplyItemsConcat(blank, h + p + d, f);
    ApplyItemsConcat(blank, h + p, d);
    ApplyItemsConcat(blank, h, p);
    ApplyHeaders(e, blank);
    ApplyPointers(ApplyItems(blank, h), e.compactPointers);
    ApplyDeleted(ApplyItems(blank, h + p), order);
    ApplyFiles(ApplyItems(blank, h + p + d), e.newFiles);
    assert (set x | x in order) == e.deletedFiles;
    assert [] + e.newFiles == e.newFiles;
  }

  lemma ItemsFit(e: EditRecord, order: seq<(nat, nat)>)
    requires Fits(e) && InOrder(order, e.deletedFiles)
    ensures forall i :: i in Items(e, order) ==> FitsItem(i)
  {
    hide Headers;
    HeadersFit(e);
    forall i | i in PointerItems(e.compactPointers) + DeletedItems(order) + FileItems(e.newFiles)
      ensures FitsItem(i)
    {
      if i in PointerItems(e.compactPointers) {
        var k :| 0 <= k < |e.compactPointers| && i == CompactPointer(e.compactPointers[k].0, e.compactPointers[k].1);
        assert e.compactPointers[k] in e.compactPointers;
      } else if i in DeletedItems(order) {
        var k :| 0 <= k < |order| && i == DeletedFile(order[k].0, order[k].1);
        assert order[k] in order;
      } else {
        var k :| 0 <= k < |e.newFiles| && i == NewFile(e.newFiles[k].0, e.newFiles[k].1);
        assert e.newFiles[k] in e.newFiles;
      }
    }
  }

  lemma HeadersFit(e: EditRecord)
    requires Fits(e)
    ensures forall i :: i in Headers(e) ==> FitsItem(i)
  {
  }

  // ---------- the object ----------

  class VersionEdit {
    var comparator: Option<Bytes>
    var logNumber: Option<nat>
    var prevLogNumber: Option<nat>
    var nextFileNumber: Option<nat>
    var lastSequence: Option<nat>
    var compactPointers: seq<(nat, Bytes)>
    var deletedFiles: set<(nat, nat)>
    var newFiles: seq<(nat, RawFile)>

    /** The edit as a value. */
    function Abs(): EditRecord
      reads this
    {
      EditRecord(comparator, logNumber, prevLogNumber, nextFileNumber, lastSequence, compactPointers, deletedFiles,
                 newFiles)
    }

    constructor ()
      ensures Abs() == BLANK
    {
      compactPointers := [];
      comparator, logNumber, prevLogNumber, nextFileNumber, lastSequence := None, None, None, None, None;
      deletedFiles, newFiles := {}, [];
    }

    /** Clear: every field but the compaction pointers. */
    method Clear()
      modifies this
      ensures Abs() == BLANK.(compactPointers := old(compactPointers))
    {
      comparator, logNumber, prevLogNumber, nextFileNumber, lastSequence := None, None, None, None, None;
      deletedFiles, newFiles := {}, [];
    }

    /** The optional leading fields. */
    method EncodeHeaders() returns (dst: Bytes)
      ensures dst == EncodeItems(Headers(Abs()))
    {
      hide Headers, EncodeItems, Varint, LengthPrefixed;
      dst := [];
      if comparator.Some? {
        dst := Varint(COMPARATOR) + LengthPrefixed(comparator.value);
      }
      dst := PutNumber(dst, LOG_NUMBER, logNumber);
      dst := PutNumber(dst, PREV_LOG_NUMBER, prevLogNumber);
      dst := PutNumber(dst, NEXT_FILE_NUMBER, nextFileNumber);
      dst := PutNumber(dst, LAST_SEQUENCE, lastSequence);
      EncodeHeaderItems(Abs());
    }

    method EncodePointers() returns (dst: Bytes)
      ensures dst == EncodeItems(PointerItems(compactPointers))
    {
      hide Varint, LengthPrefixed;
      dst := [];
      for i := 0 to |compactPointers|
        invariant dst == EncodeItems(PointerItems(compactPointers[..i]))
      {
        var p := compactPointers[i];
        dst := dst + (Varint(COMPACT_POINTER) + Varint(p.0) + LengthPrefixed(p.1));
        EncodeSnoc(PointerItems(compactPointers[..i]), CompactPointer(p.0, p.1));
        assert PointerItems(compactPointers[..i + 1])
               == PointerItems(compactPointers[..i]) + [CompactPointer(p.0, p.1)];
      }
      assert compactPointers[..|compactPointers|] == compactPointers;
    }

    method EncodeDeletions() returns (dst: Bytes, ghost order: seq<(nat, nat)>)
      ensures InOrder(order, deletedFiles) && dst == EncodeItems(DeletedItems(order))
    {
      hide Varint, LengthPrefixed;
      var todo := deletedFiles;
      dst, order := [], [];
      while todo != {}
        invariant todo <= deletedFiles && InOrder(order, deletedFiles - todo)
        invariant forall p, q :: p in order && q in todo ==> PairLess(p, q)
        invariant dst == EncodeItems(DeletedItems(order))
        decreases todo
      {
        LeastPair(todo);
        var d :| d in todo && forall q :: q in todo ==> q == d || PairLess(d, q);
        dst := dst + (Varint(DELETED_FILE) + Varint(d.0) + Varint(d.1));
        EncodeSnoc(DeletedItems(order), DeletedFile(d.0, d.1));
        assert DeletedItems(order + [d]) == DeletedItems(order) + [DeletedFile(d.0, d.1)];
        order, todo := order + [d], todo - {d};
      }
    }

    method EncodeNewFiles() returns (dst: Bytes)
      ensures dst == EncodeItems(FileItems(newFiles))
    {
      hide Varint, LengthPrefixed;
      dst := [];
      for i := 0 to |newFiles|
        invariant dst == EncodeItems(FileItems(newFiles[..i]))
      {
        var level, f := newFiles[i].0, newFiles[i].1;
        dst := dst + (Varint(NEW_FILE) + Varint(level) + Varint(f.number) + Varint(f.size)
                      + LengthPrefixed(f.smallest) + LengthPrefixed(f.largest));
        EncodeSnoc(FileItems(newFiles[..i]), NewFile(level, f));
        assert FileItems(newFiles[..i + 1]) == FileItems(newFiles[..i]) + [NewFile(level, f)];
      }
      assert newFiles[..|newFiles|] == newFiles;
    }

    /** EncodeTo. */
    method EncodeTo() returns (dst: Bytes, ghost order: seq<(nat, nat)>)
      ensures InOrder(order, deletedFiles) && dst == EncodeItems(Items(Abs(), order))
    {
      var headers := EncodeHeaders();
      var pointers := EncodePointers();
      var deletions;
      deletions, order := EncodeDeletions();
      var files := EncodeNewFiles();
      dst := headers + pointers + deletions + files;
      ghost var h, p, d, f := Headers(Abs()), PointerItems(compactPointers), DeletedItems(order), FileItems(newFiles);
      EncodeConcat(h, p);
      EncodeConcat(h + p, d);
      EncodeConcat(h + p + d, f);
    }

    /** DecodeFrom: clear, then apply the items one by one; false is a corruption status. */
    method DecodeFrom(src: Bytes) returns (ok: bool)
      modifies this
      ensures ok <==> ParseItems(src).Some?
      ensures ok ==> Abs() == ApplyItems(BLANK.(compactPointers := old(compactPointers)), ParseItems(src).value)
    {
      Clear();
      var input := src;
      ghost var blank := Abs();
      while true
        invariant ParseItems(src).Some? <==> ParseItems(input).Some?
        invariant ParseItems(src).Some? ==>
          ApplyItems(Abs(), ParseItems(input).value) == ApplyItems(blank, ParseItems(src).value)
        decreases |input|
      {
        var tag := GetVarint32(input);
        if tag.None? {
          break;
        }
        var body := ReadBody(tag.value.0, tag.value.1);
        if body.None? {
          return false;
        }
        Take(body.value.0);
        ghost var rest := ParseItems(body.value.1);
        assert rest.Some? ==> ([body.value.0] + rest.value)[1..] == rest.value;
        input := body.value.1;
      }
      ok := input == [];
    }

    /** The switch of DecodeFrom, once its item is read. */
    method Take(item: Item)
      modifies this
      ensures Abs() == ApplyItem(old(Abs()), item)
    {
      match item
      case Comparator(name) => comparator := Some(name);
      case LogNumber(n) => logNumber := Some(n);
      case PrevLogNumber(n) => prevLogNumber := Some(n);
      case NextFileNumber(n) => nextFileNumber := Some(n);
      case LastSequence(n) => lastSequence := Some(n);
      case CompactPointer(level, key) => compactPointers := compactPointers + [(level, key)];
      case DeletedFile(level, n) => deletedFiles := deletedFiles + {(level, n)};
      case NewFile(level, f) => newFiles := newFiles + [(level, f)];
    }
  }

  /** PutVarint32 of a tag and PutVarint64 of a field, if the field is set. */
  method PutNumber(dst: Bytes, tag: nat, n: Option<nat>) returns (r: Bytes)
    ensures r == dst + if n.Some? then Varint(tag) + Varint(n.value) else []
  {
    r := dst;
    if n.Some? {
      r := r + (Varint(tag) + Varint(n.value));
    }
  }

  lemma {:induction false} EncodeConcat(a: seq<Item>, b: seq<Item>)
    ensures EncodeItems(a + b) == EncodeItems(a) + EncodeItems(b)
  {
    hide EncodeItem;
    if a == [] {
      assert a + b == b;
    } else {
      assert (a + b)[1..] == a[1..] + b;
      EncodeConcat(a[1..], b);
    }
  }

  lemma EncodeSnoc(items: seq<Item>, i: Item)
    ensures EncodeItems(items + [i]) == EncodeItems(items) + EncodeItem(i)
  {
    hide EncodeItem;
    EncodeConcat(items, [i]);
    assert [i][1..] == [];
    assert EncodeItems([i]) == EncodeItem(i);
  }

  lemma EncodeOne(i: Item)
    ensures EncodeItems([i]) == EncodeItem(i)
  {
    assert [i][1..] == [];
  }

  lemma EncodeHeaderItems(e: EditRecord)
    ensures EncodeItems(Headers(e))
            == (if e.comparator.Some? then Varint(COMPARATOR) + LengthPrefixed(e.comparator.value) else [])
               + (if e.logNumber.Some? then Varint(LOG_NUMBER) + Varint(e.logNumber.value) else [])
               + (if e.prevLogNumber.Some? then Varint(PREV_LOG_NUMBER) + Varint(e.prevLogNumber.value) else [])
               + (if e.nextFileNumber.Some? then Varint(NEXT_FILE_NUMBER) + Varint(e.nextFileNumber.value) else [])
               + (if e.lastSequence.Some? then Varint(LAST_SEQUENCE) + Varint(e.lastSequence.value) else [])
  {
    hide Varint, LengthPrefixed;
    var c := if e.comparator.Some? then [Comparator(e.comparator.value)] else [];
    var l := if e.logNumber.Some? then [LogNumber(e.logNumber.value)] else [];
    var p := if e.prevLogNumber.Some? then [PrevLogNumber(e.prevLogNumber.value)] else [];
    var n := if e.nextFileNumber.Some? then [NextFileNumber(e.nextFileNumber.value)] else [];
    var s := if e.lastSequence.Some? then [LastSequence(e.lastSequence.value)] else [];
    EncodeConcat(c + l + p + n, s);
    EncodeConcat(c + l + p, n);
    EncodeConcat(c + l, p);
    EncodeConcat(c, l);
    if e.comparator.Some? { EncodeOne(Comparator(e.comparator.value)); }
    if e.logNumber.Some? { EncodeOne(LogNumber(e.logNumber.value)); }
    if e.prevLogNumber.Some? { EncodeOne(PrevLogNumber(e.prevLogNumber.value)); }
    if e.nextFileNumber.Some? { EncodeOne(NextFileNumber(e.nextFileNumber.value)); }
    if e.lastSequence.Some? { EncodeOne(LastSequence(e.lastSequence.value)); }
  }

  lemma {:induction false} LeastPair(s: set<(nat, nat)>)
    requires s != {}
    ensures exists d :: d in s && forall q :: q in s ==> q == d || PairLess(d, q)
  {
    var x :| x in s;
    if s != {x} {
      LeastPair(s - {x});
      var d :| d in s - {x} && forall q :: q in s - {x} ==> q == d || PairLess(d, q);
      var least := if PairLess(x, d) then x else d;
      forall q | q in s
        ensures q == least || PairLess(least, q)
      {
        if q != x { assert q in s - {x}; }
      }
    } else {
      assert forall q :: q in s ==> q == x;
    }
  }

  /**
   Encoding an edit and decoding it into another object reproduces it exactly when that object holds no compaction
   pointers: Clear does not drop them.
   */
  method EncodeDecode(e: VersionEdit, f: VersionEdit) returns (ok: bool)
    requires e != f && Fits(e.Abs())
    modifies f
    ensures ok && (f.Abs() == old(e.Abs()) <==> old(f.compactPointers) == [])
    ensures f.Abs() == old(e.Abs()).(compactPointers := old(f.compactPointers) + old(e.compactPointers))
  {
    hide Fits, FitsItem, ParseItems, Items, InOrder, ApplyItems, EncodeItems;
    var bytes, order := e.EncodeTo();
    ItemsFit(e.Abs(), order);
    ItemsRoundTrip(Items(e.Abs(), order));
    ghost var blank := BLANK.(compactPointers := f.compactPointers);
    ItemsRebuild(e.Abs(), order, blank);
    ok := f.DecodeFrom(bytes);
    assert f.compactPointers == old(f.compactPointers) + old(e.compactPointers);
    assert old(f.compactPointers) == [] ==> f.compactPointers == old(e.compactPointers);
  }
}
