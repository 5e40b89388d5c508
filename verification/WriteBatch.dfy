/**
 Write batches (db/write_batch.cc): operations as a byte string with a 12-byte header of sequence number and count,
 and the recovery of a memtable from a log of them (db/db_impl.cc:382-453).
 */
module WriteBatches {
  import opened Keys
  import opened Coding
  import opened Checksums
  import opened LogFormat
  import opened LogReader

  const HEADER_SIZE: nat := 12
  const TYPE_DELETION: byte := 0
  const TYPE_VALUE: byte := 1

  datatype BatchOp = Put(key: Bytes, value: Bytes) | Delete(key: Bytes)

  /** An operation as a memtable gets it. */
  datatype Stamped = Stamped(op: BatchOp, sequence: nat)

  predicate FitsOp(op: BatchOp) {
    |op.key| < TWO32 && (op.Put? ==> |op.value| < TWO32)
  }

  ghost predicate FitsOps(ops: seq<BatchOp>) {
    |ops| < TWO32 / 2 && forall op :: op in ops ==> FitsOp(op)
  }

  function EncodeOp(op: BatchOp): (r: Bytes)
    ensures |r| > 0
  {
    match op
    case Put(k, v) => [TYPE_VALUE] + LengthPrefixed(k) + LengthPrefixed(v)
    case Delete(k) => [TYPE_DELETION] + LengthPrefixed(k)
  }

  function EncodeOps(ops: seq<BatchOp>): Bytes {
    if ops == [] then [] else EncodeOps(ops[..|ops| - 1]) + EncodeOp(ops[|ops| - 1])
  }

  lemma {:induction false} EncodeOpsConcat(a: seq<BatchOp>, b: seq<BatchOp>)
    ensures EncodeOps(a + b) == EncodeOps(a) + EncodeOps(b)
    decreases |b|
  {
    hide EncodeOp;
    if b == [] {
      assert a + b == a;
    } else {
      assert (a + b)[..|a + b| - 1] == a + b[..|b| - 1];
      EncodeOpsConcat(a, b[..|b| - 1]);
    }
  }

  /** The record of a whole batch. */
  function Contents(sequence: U64, ops: seq<BatchOp>): Bytes
    requires |ops| < TWO32
  {
    EncodeFixed64(sequence) + EncodeFixed32(|ops|) + EncodeOps(ops)
  }

  /** The operation at the front of `b`. */
  function ReadOp(b: Bytes): (r: Option<(BatchOp, Bytes)>)
    ensures r.Some? ==> |r.value.1| < |b|
  {
    if b == [] then None
    else if b[0] == TYPE_VALUE then
      match ReadLengthPrefixed(b[1..])
      case None => None
      case Some((k, rest)) =>
        match ReadLengthPrefixed(rest)
        case None => None
        case Some((v, rest')) => Some((Put(k, v), rest'))
    else if b[0] == TYPE_DELETION then
      match ReadLengthPrefixed(b[1..])
      case None => None
      case Some((k, rest)) => Some((Delete(k), rest))
    else None
  }

  lemma ReadOpRoundTrip(op: BatchOp, rest: Bytes)
    requires FitsOp(op)
    ensures ReadOp(EncodeOp(op) + rest) == Some((op, rest))
  {
    hide LengthPrefixed, ReadLengthPrefixed;
    var b := EncodeOp(op) + rest;
    match op
    case Put(k, v) =>
      LengthPrefixedRoundTrip(k, LengthPrefixed(v) + rest);
      LengthPrefixedRoundTrip(v, rest);
      assert b[1..] == LengthPrefixed(k) + (LengthPrefixed(v) + rest);
    case Delete(k) =>
      LengthPrefixedRoundTrip(k, rest);
      assert b[1..] == LengthPrefixed(k) + rest;
  }

  /** What Iterate hands to its handler, and whether it reaches the end. */
  function Handled(b: Bytes): (r: (seq<BatchOp>, bool))
    decreases |b|
  {
    if b == [] then ([], true)
    else
      match ReadOp(b)
      case None => ([], false)
      case Some((op, rest)) => ([op] + Handled(rest).0, Handled(rest).1)
  }

  lemma HandledStep(calls: seq<BatchOp>, b: Bytes)
    requires b != [] && ReadOp(b).Some?
    ensures var op, rest := ReadOp(b).value.0, ReadOp(b).value.1;
            calls + Handled(b).0 == calls + [op] + Handled(rest).0 && Handled(b).1 == Handled(rest).1
  {
    var op, rest := ReadOp(b).value.0, ReadOp(b).value.1;
    assert calls + ([op] + Handled(rest).0) == calls + [op] + Handled(rest).0;
  }

  lemma HandledStuck(calls: seq<BatchOp>, b: Bytes)
    requires b == [] || ReadOp(b).None?
    ensures calls + Handled(b).0 == calls && (Handled(b).1 <==> b == [])
  {
  }

  lemma {:induction false} HandledRoundTrip(ops: seq<BatchOp>)
    requires forall op :: op in ops ==> FitsOp(op)
    ensures Handled(EncodeOps(ops)) == (ops, true)
    decreases |ops|
  {
    if ops != [] {
      assert ops == [ops[0]] + ops[1..];
      EncodeOpsConcat([ops[0]], ops[1..]);
      EncodeOne(ops[0]);
      ReadOpRoundTrip(ops[0], EncodeOps(ops[1..]));
      HandledRoundTrip(ops[1..]);
    }
  }

  lemma EncodeOne(op: BatchOp)
    ensures EncodeOps([op]) == EncodeOp(op)
  {
    assert [op][..0] == [] && EncodeOps([]) == [];
  }

  // ---------- well-formed batches ----------

  /** A string behind its length, which is a varint of at most five bytes. */
  ghost predicate Sized(part: Bytes, s: Bytes) {
    var r := VarintAt(part, 5);
    r.Some? && r.value.0 % TWO32 == |s| && part == part[..r.value.1] + s
  }

  /** The bytes stand for the operation: its type, then the key and the value of a put, or the key. */
  ghost predicate WireForm(part: Bytes, op: BatchOp) {
    match op
    case Put(k, v) => exists a, b :: Sized(a, k) && Sized(b, v) && part == [TYPE_VALUE] + a + b
    case Delete(k) => exists a :: Sized(a, k) && part == [TYPE_DELETION] + a
  }

  /** The bytes are those of the operations, end to end. */
  ghost predicate WireForms(b: Bytes, ops: seq<BatchOp>)
    decreases |ops|
  {
    if ops == [] then b == []
    else exists i :: 0 <= i <= |b| && WireForm(b[..i], ops[0]) && WireForms(b[i..], ops[1..])
  }

  lemma SizedIsRead(part: Bytes, s: Bytes, rest: Bytes)
    requires Sized(part, s)
    ensures ReadLengthPrefixed(part + rest) == Some((s, rest))
  {
    var n := VarintAt(part, 5).value.1;
    VarintExtends(part, 5, rest, 5);
    assert (part + rest)[n..] == s + rest;
    assert (s + rest)[..|s|] == s && (s + rest)[|s|..] == rest;
  }

  lemma ReadIsSized(b: Bytes)
    requires ReadLengthPrefixed(b).Some?
    ensures var (s, rest) := ReadLengthPrefixed(b).value;
            |rest| <= |b| && b[|b| - |rest|..] == rest && Sized(b[..|b| - |rest|], s)
  {
    var (s, rest) := ReadLengthPrefixed(b).value;
    var n := VarintAt(b, 5).value.1;
    var part := b[..|b| - |rest|];
    assert b[n..] == s + rest;
    VarintTrimmed(b, 5, |part|);
    assert part == part[..n] + s;
  }

  lemma FormIsRead(part: Bytes, op: BatchOp, rest: Bytes)
    requires WireForm(part, op)
    ensures part + rest != [] && ReadOp(part + rest) == Some((op, rest))
  {
    hide Sized, ReadLengthPrefixed;
    match op
    case Put(k, v) =>
      var a, b :| Sized(a, k) && Sized(b, v) && part == [TYPE_VALUE] + a + b;
      SizedIsRead(a, k, b + rest);
      SizedIsRead(b, v, rest);
      assert (part + rest)[1..] == a + (b + rest);
    case Delete(k) =>
      var a :| Sized(a, k) && part == [TYPE_DELETION] + a;
      SizedIsRead(a, k, rest);
      assert (part + rest)[1..] == a + rest;
  }

  lemma ReadIsForm(b: Bytes)
    requires ReadOp(b).Some?
    ensures var (op, rest) := ReadOp(b).value; b[|b| - |rest|..] == rest && WireForm(b[..|b| - |rest|], op)
  {
    hide Sized, ReadLengthPrefixed;
    var (op, rest) := ReadOp(b).value;
    var part := b[..|b| - |rest|];
    ReadIsSized(b[1..]);
    match op
    case Put(k, v) =>
      var behind := ReadLengthPrefixed(b[1..]).value.1;
      ReadIsSized(behind);
      var x, y := b[1..][..|b| - 1 - |behind|], behind[..|behind| - |rest|];
      assert b == [b[0]] + x + behind && behind == y + rest;
      assert b == ([TYPE_VALUE] + x + y) + rest;
      assert part == [TYPE_VALUE] + x + y;
    case Delete(k) =>
      var x := b[1..][..|b| - 1 - |rest|];
      assert b == ([TYPE_DELETION] + x) + rest;
      assert part == [TYPE_DELETION] + x;
  }

  /** Iterate reaches the end exactly when the bytes are those of operations, and these are what it hands over. */
  lemma {:induction false} WellFormedIff(b: Bytes, ops: seq<BatchOp>)
    ensures WireForms(b, ops) <==> Handled(b) == (ops, true)
    decreases |ops|
  {
    hide WireForm, ReadOp;
    if ops != [] {
      assert ops == [ops[0]] + ops[1..];
      if WireForms(b, ops) {
        var i :| 0 <= i <= |b| && WireForm(b[..i], ops[0]) && WireForms(b[i..], ops[1..]);
        FormIsRead(b[..i], ops[0], b[i..]);
        assert b == b[..i] + b[i..];
        WellFormedIff(b[i..], ops[1..]);
        assert Handled(b) == (ops, true);
      }
      if Handled(b) == (ops, true) {
        var (op, rest) := ReadOp(b).value;
        ReadIsForm(b);
        assert ops[1..] == Handled(rest).0;
        WellFormedIff(rest, ops[1..]);
        assert WireForm(b[..|b| - |rest|], ops[0]) && WireForms(b[|b| - |rest|..], ops[1..]);
      }
    }
  }

  /** SetCount: the record with another count in its header. */
  function WithCount(rep: Bytes, n: U32): Bytes
    requires |rep| >= HEADER_SIZE
  {
    rep[..8] + EncodeFixed32(n) + rep[12..]
  }

  /** A record with its count raised and more operations behind it. */
  lemma Extended(rep: Bytes, sequence: U64, ops: seq<BatchOp>, more: seq<BatchOp>)
    requires FitsOps(ops) && FitsOps(ops + more) && rep == Contents(sequence, ops)
    ensures |ops + more| == |ops| + |more| < TWO32 && |rep| >= HEADER_SIZE
    ensures WithCount(rep, |ops| + |more|) + EncodeOps(more) == Contents(sequence, ops + more)
  {
    hide EncodeOps;
    EncodeOpsConcat(ops, more);
    assert rep[..8] == EncodeFixed64(sequence) && rep[12..] == EncodeOps(ops);
    Regroup(EncodeFixed64(sequence), EncodeFixed32(|ops| + |more|), EncodeOps(ops), EncodeOps(more));
  }

  lemma Regroup(a: Bytes, b: Bytes, c: Bytes, d: Bytes)
    ensures a + b + c + d == a + b + (c + d) == a + (b + c + d)
    ensures a + b + c == a + (b + c)
  {
  }

  class WriteBatch {
    var rep: Bytes

    /** The object holds these operations. */
    ghost predicate Holds(sequence: U64, ops: seq<BatchOp>)
      reads this
    {
      FitsOps(ops) && rep == Contents(sequence, ops)
    }

    constructor ()
      ensures Holds(0, [])
    {
      rep := seq(HEADER_SIZE, _ => 0);
      new;
      assert EncodeFixed32(0) == [0, 0, 0, 0];
      assert rep == EncodeFixed64(0) + EncodeFixed32(0) + EncodeOps([]);
    }

    function Count(): U32
      requires |rep| >= HEADER_SIZE
      reads this
    {
      DecodeFixed32(rep[8..12])
    }

    function Sequence(): U64
      requires |rep| >= HEADER_SIZE
      reads this
    {
      DecodeFixed64(rep[..8])
    }

    lemma HeaderFacts(sequence: U64, ops: seq<BatchOp>)
      requires Holds(sequence, ops)
      ensures |rep| >= HEADER_SIZE && Count() == |ops| && Sequence() == sequence && rep[HEADER_SIZE..] == EncodeOps(ops)
    {
      Fixed32RoundTrip(|ops|);
      Fixed64RoundTrip(sequence);
      assert rep[..8] == EncodeFixed64(sequence) && rep[8..12] == EncodeFixed32(|ops|);
    }

    method SetSequence(s: U64, ghost sequence: U64, ghost ops: seq<BatchOp>)
      requires Holds(sequence, ops)
      modifies this
      ensures Holds(s, ops)
    {
      hide EncodeFixed64, EncodeFixed32, EncodeOps;
      rep := EncodeFixed64(s) + rep[8..];
      assert rep == Contents(s, ops);
    }

    /** Put. */
    method Put(key: Bytes, value: Bytes, ghost sequence: U64, ghost ops: seq<BatchOp>)
      requires Holds(sequence, ops) && FitsOps(ops + [BatchOp.Put(key, value)])
      modifies this
      ensures Holds(sequence, ops + [BatchOp.Put(key, value)])
    {
      ghost var op := BatchOp.Put(key, value);
      Extended(rep, sequence, ops, [op]);
      EncodeOne(op);
      HeaderFacts(sequence, ops);
      hide Contents, EncodeOps, LengthPrefixed, WithCount, DecodeFixed32, DecodeFixed64, FitsOps;
      rep := WithCount(rep, Count() + 1);
      ghost var counted := rep;
      rep := rep + [TYPE_VALUE];
      rep := rep + LengthPrefixed(key);
      rep := rep + LengthPrefixed(value);
      Regroup(counted, [TYPE_VALUE], LengthPrefixed(key), LengthPrefixed(value));
    }

    /** Delete. */
    method Delete(key: Bytes, ghost sequence: U64, ghost ops: seq<BatchOp>)
      requires Holds(sequence, ops) && FitsOps(ops + [BatchOp.Delete(key)])
      modifies this
      ensures Holds(sequence, ops + [BatchOp.Delete(key)])
    {
      ghost var op := BatchOp.Delete(key);
      Extended(rep, sequence, ops, [op]);
      EncodeOne(op);
      HeaderFacts(sequence, ops);
      hide Contents, EncodeOps, LengthPrefixed, WithCount, DecodeFixed32, DecodeFixed64, FitsOps;
      rep := WithCount(rep, Count() + 1);
      ghost var counted := rep;
      rep := rep + [TYPE_DELETION];
      rep := rep + LengthPrefixed(key);
      Regroup(counted, [TYPE_DELETION], LengthPrefixed(key), []);
    }

    /** Append: the other batch's operations after this one's. */
    method Append(src: WriteBatch, ghost sequence: U64, ghost ops: seq<BatchOp>, ghost sequence': U64,
                  ghost more: seq<BatchOp>)
      requires Holds(sequence, ops) && src.Holds(sequence', more) && FitsOps(ops + more) && src != this
      modifies this
      ensures Holds(sequence, ops + more)
    {
      src.HeaderFacts(sequence', more);
      AppendRecords(src.Count(), src.rep[HEADER_SIZE..], sequence, ops, more);
    }

    /** Raise the count and append encoded operations. */
    method AppendRecords(n: U32, data: Bytes, ghost sequence: U64, ghost ops: seq<BatchOp>, ghost more: seq<BatchOp>)
      requires Holds(sequence, ops) && FitsOps(ops + more) && n == |more| && data == EncodeOps(more)
      modifies this
      ensures Holds(sequence, ops + more)
    {
      hide Contents, EncodeOps, WithCount, DecodeFixed32, DecodeFixed64, FitsOps;
      Extended(rep, sequence, ops, more);
      HeaderFacts(sequence, ops);
      var count: U32 := Count() + n;
      rep := WithCount(rep, count) + data;
    }

    /** Iterate: the calls made to the handler, in order; `ok` is false when the batch is malformed. */
    method Iterate() returns (calls: seq<BatchOp>, ok: bool)
      ensures |rep| < HEADER_SIZE ==> calls == [] && !ok
      ensures |rep| >= HEADER_SIZE ==>
        calls == Handled(rep[HEADER_SIZE..]).0 && (ok <==> Handled(rep[HEADER_SIZE..]).1 && |calls| == Count())
    {
      calls := [];
      if |rep| < HEADER_SIZE {
        return calls, false;
      }
      hide Handled, ReadOp, DecodeFixed32;
      var input, found := rep[HEADER_SIZE..], 0;
      assert calls + Handled(input).0 == Handled(input).0;
      while input != []
        invariant found == |calls|
        invariant Handled(rep[HEADER_SIZE..]) == (calls + Handled(input).0, Handled(input).1)
        decreases |input|
      {
        found := found + 1;
        var op := ReadOp(input);
        if op.None? {
          HandledStuck(calls, input);
          return calls, false;
        }
        HandledStep(calls, input);
        calls, input := calls + [op.value.0], op.value.1;
      }
      HandledStuck(calls, input);
      ok := found == Count();
    }
  }

  /** Operations numbered consecutively from `first`. */
  function Stamp(ops: seq<BatchOp>, first: nat): seq<Stamped> {
    seq(|ops|, i requires 0 <= i < |ops| => Stamped(ops[i], first + i))
  }

  lemma NothingStamped(mem: seq<Stamped>, ops: seq<BatchOp>, first: nat)
    ensures mem + Stamp(ops[..0], first) == mem
  {
  }

  lemma StampSnoc(mem: seq<Stamped>, ops: seq<BatchOp>, n: nat, first: nat)
    requires n < |ops|
    ensures mem + Stamp(ops[..n + 1], first) == mem + Stamp(ops[..n], first) + [Stamped(ops[n], first + n)]
  {
    assert Stamp(ops[..n + 1], first) == Stamp(ops[..n], first) + [Stamped(ops[n], first + n)];
  }

  /** InsertInto: the memtable gets the operations under consecutive sequence numbers. */
  method InsertInto(b: WriteBatch, mem: seq<Stamped>) returns (mem': seq<Stamped>, ok: bool)
    ensures |b.rep| < HEADER_SIZE ==> mem' == mem && !ok
    ensures |b.rep| >= HEADER_SIZE ==> mem' == mem + Stamp(Handled(b.rep[HEADER_SIZE..]).0, b.Sequence())
    ensures |b.rep| >= HEADER_SIZE ==>
              (ok <==> Handled(b.rep[HEADER_SIZE..]).1 && |Handled(b.rep[HEADER_SIZE..]).0| == b.Count())
  {
    var calls;
    calls, ok := b.Iterate();
    mem' := mem;
    if |b.rep| < HEADER_SIZE {
      return;
    }
    mem' := AddAll(mem, calls, b.Sequence());
  }

  /** MemTableInserter: one Add a call, under the next sequence number. */
  method AddAll(mem: seq<Stamped>, calls: seq<BatchOp>, first: nat) returns (mem': seq<Stamped>)
    ensures mem' == mem + Stamp(calls, first)
  {
    hide Stamp;
    mem' := mem;
    var sequence := first;
    NothingStamped(mem, calls, first);
    for i := 0 to |calls|
      invariant mem' == mem + Stamp(calls[..i], first) && sequence == first + i
    {
      StampSnoc(mem, calls, i, first);
      mem' := mem' + [Stamped(calls[i], sequence)];
      sequence := sequence + 1;
    }
    assert calls[..|calls|] == calls;
  }

  // ---------- recovery ----------

  /** What was logged: the operations of one group under their first sequence number. */
  datatype Logged = Logged(first: nat, ops: seq<BatchOp>)

  ghost predicate FitsLogged(g: Logged) {
    g.first < TWO64 && FitsOps(g.ops)
  }

  ghost function Records(groups: seq<Logged>): seq<Bytes>
    requires forall i :: 0 <= i < |groups| ==> FitsLogged(groups[i])
  {
    seq(|groups|, i requires 0 <= i < |groups| && FitsLogged(groups[i]) => Contents(groups[i].first, groups[i].ops))
  }

  /** The memtable that applying the groups one after another gives. */
  function Replayed(groups: seq<Logged>): seq<Stamped> {
    if groups == [] then []
    else Replayed(groups[..|groups| - 1]) + Stamp(groups[|groups| - 1].ops, groups[|groups| - 1].first)
  }

  /** Where each operation of each group ends up, and under which number. */
  lemma {:induction false} ReplayedAt(groups: seq<Logged>, i: nat, k: nat) returns (p: nat)
    requires i < |groups| && k < |groups[i].ops|
    ensures p < |Replayed(groups)| && Replayed(groups)[p] == Stamped(groups[i].ops[k], groups[i].first + k)
    ensures p == |Replayed(groups[..i])| + k
    decreases |groups|
  {
    var init, last := groups[..|groups| - 1], groups[|groups| - 1];
    if i < |groups| - 1 {
      p := ReplayedAt(init, i, k);
      assert init[..i] == groups[..i];
    } else {
      p := |Replayed(init)| + k;
    }
  }

  /** Nothing else is replayed. */
  lemma {:induction false} ReplayedFrom(groups: seq<Logged>, p: nat) returns (i: nat, k: nat)
    requires p < |Replayed(groups)|
    ensures i < |groups| && k < |groups[i].ops|
    ensures p == |Replayed(groups[..i])| + k && Replayed(groups)[p] == Stamped(groups[i].ops[k], groups[i].first + k)
    decreases |groups|
  {
    var init, last := groups[..|groups| - 1], groups[|groups| - 1];
    if p < |Replayed(init)| {
      i, k := ReplayedFrom(init, p);
      assert init[..i] == groups[..i];
    } else {
      i, k := |groups| - 1, p - |Replayed(init)|;
    }
  }

  /** Just what these groups took of the sequence numbers: nothing above `max`, and `max` is theirs if not the floor. */
  ghost predicate LastTaken(groups: seq<Logged>, floor: int, max: int) {
    && floor <= max && (forall g :: g in groups ==> g.first + |g.ops| - 1 <= max)
    && (max == floor || exists g :: g in groups && max == g.first + |g.ops| - 1)
  }

  /** The largest number covers every recovered operation, and belongs to one unless nothing exceeds the floor. */
  lemma LastCovers(groups: seq<Logged>, floor: int, max: int)
    requires LastTaken(groups, floor, max)
    ensures forall e :: e in Replayed(groups) ==> e.sequence <= max
    ensures (forall g :: g in groups ==> g.ops != []) ==>
              max == floor || exists e :: e in Replayed(groups) && e.sequence == max
  {
    forall e | e in Replayed(groups)
      ensures e.sequence <= max
    {
      var p :| 0 <= p < |Replayed(groups)| && Replayed(groups)[p] == e;
      var i, k := ReplayedFrom(groups, p);
      assert groups[i] in groups;
    }
    if max != floor && forall g :: g in groups ==> g.ops != [] {
      var g :| g in groups && max == g.first + |g.ops| - 1;
      var i :| 0 <= i < |groups| && groups[i] == g;
      var p := ReplayedAt(groups, i, |g.ops| - 1);
      assert Replayed(groups)[p] in Replayed(groups);
    }
  }

  /**
   RecoverLogFile on any prefix of a log of batches, cut at any byte: exactly the groups that lie wholly in the file
   are applied, in order and under the sequence numbers they were written with, and the next write may take the number
   after `max`.
   */
  method RecoverLogFile(crc: Crc, file: Bytes, paranoid: bool, maxSequence: int, ghost groups: seq<Logged>)
    returns (mem: seq<Stamped>, max: int, ok: bool)
    requires forall i :: 0 <= i < |groups| ==> FitsLogged(groups[i])
    ensures file <= LogFrom(crc, 0, Records(groups)) ==>
              var m := WholeRecords(crc, 0, Records(groups), |file|);
              && m <= |groups| && ok && mem == Replayed(groups[..m])
              && maxSequence <= max && (forall e :: e in mem ==> e.sequence <= max)
              && (forall g :: g in groups[..m] ==> g.first + |g.ops| - 1 <= max)
              && (max == maxSequence || exists g :: g in groups[..m] && max == g.first + |g.ops| - 1)
              && ((forall g :: g in groups[..m] ==> g.ops != []) ==>
                    max == maxSequence || exists e :: e in mem && e.sequence == max)
  {
    hide LogFrom, WholeRecords, Handled, DecodeFixed32, DecodeFixed64, FitsOps, Stamp, Contents;
    var records, reports := ReadLog(crc, file, Records(groups));
    ghost var aligned := file <= LogFrom(crc, 0, Records(groups));
    mem, max, ok := [], maxSequence, !paranoid || reports == 0;
    var n := 0;
    while n < |records| && ok
      invariant 0 <= n <= |records|
      invariant aligned ==>
                  ok && n <= |groups| && mem == Replayed(groups[..n])
                  && LastTaken(groups[..n], maxSequence, max)
    {
      var record := records[n];
      if aligned { GroupDecodes(groups, n); }
      n := n + 1;
      if |record| < HEADER_SIZE {
        ok := ok && !paranoid;
        continue;
      }
      var batch := new WriteBatch();
      batch.rep := record;
      mem, ok := InsertInto(batch, mem);
      ok := ok || !paranoid;
      if !ok {
        break;
      }
      var last := batch.Sequence() + batch.Count() - 1;
      if last > max {
        max := last;
      }
      assert aligned ==> groups[..n] == groups[..n - 1] + [groups[n - 1]] && groups[..n][..n - 1] == groups[..n - 1];
    }
    if aligned { LastCovers(groups[..n], maxSequence, max); }
  }

  /** The record of a group decodes to the group. */
  lemma GroupDecodes(groups: seq<Logged>, n: nat)
    requires (forall i :: 0 <= i < |groups| ==> FitsLogged(groups[i])) && n < |groups|
    ensures var r, g := Records(groups)[n], groups[n];
            && |r| >= HEADER_SIZE && DecodeFixed64(r[..8]) == g.first && DecodeFixed32(r[8..12]) == |g.ops|
            && Handled(r[HEADER_SIZE..]) == (g.ops, true)
  {
    var r, g := Records(groups)[n], groups[n];
    Fixed64RoundTrip(g.first);
    Fixed32RoundTrip(|g.ops|);
    assert r[..8] == EncodeFixed64(g.first) && r[8..12] == EncodeFixed32(|g.ops|);
    assert r[HEADER_SIZE..] == EncodeOps(g.ops);
    HandledRoundTrip(g.ops);
  }
}
