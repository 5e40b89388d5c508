/**
 The write-ahead log format (db/log_format.h, db/log_writer.cc): records are split into fragments that never cross a
 32 KB block, each with a 7-byte header of checksum, length and type; block tails too short for a header are zeros.
 The CRC32C function itself is a parameter.
 */
module LogFormat {
  import opened Keys
  import opened Coding
  import opened Checksums

  const BLOCK: nat := 32768
  const HEADER: nat := 7

  const FULL: nat := 1
  const FIRST: nat := 2
  const MIDDLE: nat := 3
  const LAST: nat := 4

  function FragmentType(begin: bool, end: bool): (t: nat)
    ensures 1 <= t <= 4
  {
    if begin && end then FULL else if begin then FIRST else if end then LAST else MIDDLE
  }

  function Zeros(n: nat): (r: Bytes)
    ensures |r| == n
  {
    seq(n, _ => 0 as byte)
  }

  /** The header of a fragment: masked checksum over type and payload, two length bytes, type. */
  function Header(crc: Crc, t: nat, payload: Bytes): (r: Bytes)
    requires t < 256 && |payload| < 0x1_0000
    ensures |r| == HEADER
  {
    EncodeFixed32(Mask(crc([t as byte] + payload))) + [(|payload| % 256) as byte, (|payload| / 256) as byte, t as byte]
  }

  /** Bytes left in the block of offset `at`. */
  function Leftover(at: nat): (r: nat)
    ensures 1 <= r <= BLOCK
  {
    BLOCK - at % BLOCK
  }

  /** The trailer the writer fills before a fragment at offset `at`. */
  function Pad(at: nat): (r: nat)
    ensures r < HEADER
    ensures Leftover(at + r) >= HEADER
  {
    if Leftover(at) < HEADER then
      assert (at + Leftover(at)) % BLOCK == 0;
      Leftover(at)
    else 0
  }

  /** Payload bytes that fit in the block after padding and a header. */
  function Avail(at: nat): (r: nat)
    ensures r <= BLOCK - HEADER
  {
    Leftover(at + Pad(at)) - HEADER
  }

  function FragmentLength(at: nat, left: Bytes): (r: nat)
    ensures r <= |left| && r <= Avail(at)
  {
    if |left| < Avail(at) then |left| else Avail(at)
  }

  /** End offset of the fragment written at `at`. */
  function FragmentEnd(at: nat, left: Bytes): nat {
    at + Pad(at) + HEADER + FragmentLength(at, left)
  }

  lemma FragmentProgress(at: nat, left: Bytes)
    ensures FragmentLength(at, left) == 0 && left != [] ==>
              FragmentEnd(at, left) % BLOCK == 0 && FragmentEnd(at, left) == at + HEADER
    ensures at % BLOCK == 0 ==> Avail(at) > 0
    ensures (at + Pad(at)) % BLOCK + HEADER + FragmentLength(at, left) <= BLOCK
  {
  }

  /** One physical fragment, padding included. */
  function Fragment(crc: Crc, at: nat, left: Bytes, begin: bool): (r: Bytes)
    ensures |r| == FragmentEnd(at, left) - at
  {
    var n := FragmentLength(at, left);
    Zeros(Pad(at)) + Header(crc, FragmentType(begin, n == |left|), left[..n]) + left[..n]
  }

  /** The bytes AddRecord writes for the rest of a record, starting at file offset `at`. */
  function Emit(crc: Crc, at: nat, left: Bytes, begin: bool): (r: Bytes)
    ensures |r| >= HEADER
    decreases |left|, if at % BLOCK == 0 then 0 else 1
  {
    var n := FragmentLength(at, left);
    FragmentProgress(at, left);
    if n == |left| then Fragment(crc, at, left, begin)
    else Fragment(crc, at, left, begin) + Emit(crc, FragmentEnd(at, left), left[n..], false)
  }

  /** The log of a list of records, starting at file offset `at`. */
  function LogFrom(crc: Crc, at: nat, records: seq<Bytes>): Bytes
    decreases |records|
  {
    if records == [] then []
    else
      var e := Emit(crc, at, records[0], true);
      e + LogFrom(crc, at + |e|, records[1..])
  }

  lemma {:induction false} LogSnoc(crc: Crc, at: nat, records: seq<Bytes>, r: Bytes)
    ensures LogFrom(crc, at, records + [r]) ==
            LogFrom(crc, at, records) + Emit(crc, at + |LogFrom(crc, at, records)|, r, true)
    decreases |records|
  {
    hide Emit;
    var all := records + [r];
    if records == [] {
      assert all[0] == r && all[1..] == [];
      assert LogFrom(crc, at, all) == Emit(crc, at, r, true) + [];
    } else {
      var e := Emit(crc, at, records[0], true);
      var rest := LogFrom(crc, at + |e|, records[1..]);
      var last := Emit(crc, at + |e| + |rest|, r, true);
      assert all[0] == records[0] && all[1..] == records[1..] + [r];
      LogSnoc(crc, at + |e|, records[1..], r);
      assert LogFrom(crc, at, all) == e + (rest + last);
      assert e + (rest + last) == (e + rest) + last;
    }
  }

  /** How many leading records lie wholly inside the first `n` bytes of the file. */
  function WholeRecords(crc: Crc, at: nat, records: seq<Bytes>, n: nat): (m: nat)
    ensures m <= |records|
    decreases |records|
  {
    if records == [] || at + |Emit(crc, at, records[0], true)| > n then 0
    else 1 + WholeRecords(crc, at + |Emit(crc, at, records[0], true)|, records[1..], n)
  }

  /** log::Writer over a file held as a byte string. */
  class Writer {
    const crc: Crc
    var dest: Bytes
    var blockOffset: nat

    ghost predicate Ok()
      reads this
    {
      blockOffset <= BLOCK && blockOffset % BLOCK == |dest| % BLOCK
    }

    /** A writer that appends to a file of the given contents. */
    constructor (crc: Crc, contents: Bytes)
      ensures Ok() && this.crc == crc && dest == contents
    {
      this.crc, dest, blockOffset := crc, contents, |contents| % BLOCK;
    }

    /** EmitPhysicalRecord. */
    method EmitPhysicalRecord(t: nat, payload: Bytes)
      requires 1 <= t <= 4 && blockOffset + HEADER + |payload| <= BLOCK
      modifies this
      ensures dest == old(dest) + Header(crc, t, payload) + payload
      ensures blockOffset == old(blockOffset) + HEADER + |payload|
    {
      var checksum := crc([t as byte] + payload);
      var buf := EncodeFixed32(Mask(checksum)) + [(|payload| % 256) as byte, (|payload| / 256) as byte, t as byte];
      dest := dest + buf;
      dest := dest + payload;
      blockOffset := blockOffset + HEADER + |payload|;
    }

    /** One turn of AddRecord's loop: pad if needed and emit the next fragment of a record. */
    method AddFragment(left: Bytes, begin: bool) returns (left': Bytes)
      requires Ok()
      modifies this
      ensures Ok() && dest == old(dest) + Fragment(crc, |old(dest)|, left, begin)
      ensures left' == left[FragmentLength(|old(dest)|, left)..]
    {
      hide Header, Zeros, Pad;
      ghost var before := |dest|;
      PadBlock(left);
      var avail := BLOCK - blockOffset - HEADER;
      var n := if |left| < avail then |left| else avail;
      var end := |left| == n;
      EmitPhysicalRecord(FragmentType(begin, end), left[..n]);
      left' := left[n..];
      Concat4(old(dest), Zeros(Pad(before)), Header(crc, FragmentType(begin, end), left[..n]), left[..n]);
      ModuloShift(|old(dest)| + Pad(before), HEADER + n);
    }

    /** A block tail too short for a header is filled with zeros. */
    method PadBlock(ghost left: Bytes)
      requires Ok()
      modifies this
      ensures dest == old(dest) + Zeros(Pad(|old(dest)|)) && blockOffset + HEADER <= BLOCK
      ensures blockOffset == |dest| % BLOCK && BLOCK - blockOffset - HEADER == Avail(|old(dest)|)
    {
      hide Header, Zeros;
      var leftover := BLOCK - blockOffset;
      if leftover < HEADER {
        if leftover > 0 {
          dest := dest + Zeros(leftover);
        }
        blockOffset := 0;
      }
      PaddingDone(|old(dest)|, old(blockOffset));
      assert dest == old(dest) + Zeros(Pad(|old(dest)|));
    }

    /** AddRecord: append exactly the bytes the format prescribes at the current end of the file. */
    method AddRecord(record: Bytes)
      requires Ok()
      modifies this
      ensures Ok() && dest == old(dest) + Emit(crc, |old(dest)|, record, true)
    {
      var left := record;
      var begin := true;
      var more := true;
      while more
        invariant Ok()
        invariant more ==> old(dest) + Emit(crc, |old(dest)|, record, true) == dest + Emit(crc, |dest|, left, begin)
        invariant !more ==> dest == old(dest) + Emit(crc, |old(dest)|, record, true)
        decreases more, |left|, if |dest| % BLOCK == 0 then 0 else 1
      {
        ghost var before := dest;
        FragmentProgress(|before|, left);
        EmitSplits(crc, before, left, begin);
        left := AddFragment(left, begin);
        begin := false;
        more := |left| > 0;
      }
    }
  }

  lemma Concat4(a: Bytes, b: Bytes, c: Bytes, d: Bytes)
    ensures (a + b) + c + d == a + (b + c + d)
  {
  }

  lemma EmitSplits(crc: Crc, file: Bytes, left: Bytes, begin: bool)
    ensures var n := FragmentLength(|file|, left);
            var f := Fragment(crc, |file|, left, begin);
            file + Emit(crc, |file|, left, begin) ==
            if n == |left| then file + f else (file + f) + Emit(crc, |file + f|, left[n..], false)
  {
    var n := FragmentLength(|file|, left);
    var f := Fragment(crc, |file|, left, begin);
    if n < |left| {
      assert file + (f + Emit(crc, |file + f|, left[n..], false))
             == (file + f) + Emit(crc, |file + f|, left[n..], false);
    }
  }

  lemma ModuloShift(a: nat, k: nat)
    ensures (a % BLOCK + k) % BLOCK == (a + k) % BLOCK
  {
    assert a == a / BLOCK * BLOCK + a % BLOCK;
  }

  lemma PaddingDone(before: nat, blockOffset: nat)
    requires blockOffset <= BLOCK && blockOffset % BLOCK == before % BLOCK
    ensures Pad(before) == if BLOCK - blockOffset < HEADER then BLOCK - blockOffset else 0
    ensures Leftover(before + Pad(before)) == if BLOCK - blockOffset < HEADER then BLOCK else BLOCK - blockOffset
    ensures BLOCK - blockOffset < HEADER ==> (before + Pad(before)) % BLOCK == 0
  {
  }

  /** Write a list of records to an empty file. */
  method WriteLog(crc: Crc, records: seq<Bytes>) returns (file: Bytes)
    ensures file == LogFrom(crc, 0, records)
  {
    var w := new Writer(crc, []);
    for i := 0 to |records|
      invariant w.Ok() && fresh(w) && w.crc == crc && w.dest == LogFrom(crc, 0, records[..i])
    {
      LogSnoc(crc, 0, records[..i], records[i]);
      assert records[..i + 1] == records[..i] + [records[i]];
      w.AddRecord(records[i]);
    }
    assert records[..|records|] == records;
    file := w.dest;
  }
}
