/**
 Prefix-compressed blocks with restart points (table/block_builder.cc, table/block.cc): what a builder writes for
 ascending keys, and that the iterator over it is a cursor over exactly those entries.
 */
module Blocks {
  import opened Keys
  import opened Coding
  import opened Comparators

  /** A key and its value as byte strings. */
  datatype Pair = Pair(key: Bytes, value: Bytes)

  ghost predicate Ascending(es: seq<Pair>, rank: Comparator) {
    forall i, j :: 0 <= i < j < |es| ==> Before(rank(es[i].key), rank(es[j].key))
  }

  // ---------- the format ----------

  /** A block's contents: its entries, and which of them store their key in full. */
  datatype Layout = Layout(entries: seq<Pair>, marks: seq<bool>) {
    ghost predicate WellFormed() {
      |marks| == |entries| && (|marks| > 0 ==> marks[0])
    }

    /** How much of its key an entry leaves to the previous one. */
    ghost function Shared(i: nat): (n: nat)
      requires WellFormed() && i < |entries|
      ensures n <= |entries[i].key|
    {
      if marks[i] then 0 else Common(entries[i - 1].key, entries[i].key)
    }

    /** The bytes of the first `n` entries. */
    ghost function Data(n: nat): Bytes
      requires WellFormed() && n <= |entries|
    {
      if n == 0 then [] else Data(n - 1) + EntryBytes(Shared(n - 1), entries[n - 1])
    }

    /** Where entry `n` starts. */
    ghost function Offset(n: nat): nat
      requires WellFormed() && n <= |entries|
    {
      |Data(n)|
    }

    /** The marked ones among the first `n` entries. */
    ghost function Marked(n: nat): seq<nat>
      requires WellFormed() && n <= |entries|
    {
      if n == 0 then [] else Marked(n - 1) + if marks[n - 1] then [n - 1] else []
    }

    /** The entries that restart points lead to; an empty block has one, at its end. */
    ghost function Points(): seq<nat>
      requires WellFormed()
    {
      if entries == [] then [0] else Marked(|entries|)
    }

    lemma {:induction false} MarkedFacts(n: nat)
      requires WellFormed() && n <= |entries|
      ensures n > 0 ==> |Marked(n)| > 0 && Marked(n)[0] == 0
      ensures forall j :: 0 <= j < |Marked(n)| ==> Marked(n)[j] < n && marks[Marked(n)[j]]
      ensures forall i, j :: 0 <= i < j < |Marked(n)| ==> Marked(n)[i] < Marked(n)[j]
    {
      if n > 0 { MarkedFacts(n - 1); }
    }

    lemma PointsFacts()
      requires WellFormed()
      ensures |Points()| > 0 && Points()[0] == 0
      ensures forall j :: 0 <= j < |Points()| ==> Points()[j] <= |entries|
      ensures entries != [] ==> forall j :: 0 <= j < |Points()| ==> Points()[j] < |entries| && marks[Points()[j]]
      ensures forall i, j :: 0 <= i < j < |Points()| ==> Points()[i] < Points()[j]
    {
      MarkedFacts(|entries|);
    }

    /** The restart array. */
    ghost function Restarts(): (r: seq<nat>)
      requires WellFormed()
      ensures |r| == |Points()|
    {
      PointsFacts();
      seq(|Points()|, j requires 0 <= j < |Points()| => Offset(Points()[j]))
    }

    /** Entries since the last restart point. */
    ghost function Since(n: nat): nat
      requires WellFormed() && n <= |entries|
    {
      if n == 0 then 0 else if marks[n - 1] then 1 else Since(n - 1) + 1
    }

    /** A restart point after every `interval` entries, and nowhere else. */
    ghost predicate Spaced(interval: nat)
      requires WellFormed()
    {
      forall n :: 0 <= n < |entries| ==> (marks[n] <==> n == 0 || Since(n) == interval)
    }

    lemma {:induction false} OffsetsGrow(i: nat, n: nat)
      requires WellFormed() && i <= n <= |entries|
      ensures Data(i) <= Data(n) && Offset(i) <= Offset(n) && (i < n ==> Offset(i) < Offset(n))
      decreases n
    {
      if i < n { OffsetsGrow(i, n - 1); }
    }
  }

  /** One entry, `shared` bytes of its key left out. */
  function EntryBytes(shared: nat, e: Pair): (r: Bytes)
    requires shared <= |e.key|
    ensures |r| >= 3
  {
    Varint(shared) + Varint(|e.key| - shared) + Varint(|e.value|) + e.key[shared..] + e.value
  }

  /** The most an entry takes besides its key and value: three lengths of five bytes, and a restart offset. */
  const ENTRY_OVERHEAD: nat := 19

  lemma EntryShort(shared: nat, e: Pair)
    requires shared <= |e.key| < TWO32 && |e.value| < TWO32
    ensures |EntryBytes(shared, e)| + 4 <= |e.key| + |e.value| + ENTRY_OVERHEAD
  {
    assert Pow128(5) == 128 * 128 * 128 * 128 * 128;
    VarintShort(shared, 5);
    VarintShort(|e.key| - shared, 5);
    VarintShort(|e.value|, 5);
  }

  ghost predicate Fit32(ns: seq<nat>) {
    |ns| < TWO32 && forall i :: 0 <= i < |ns| ==> ns[i] < TWO32
  }

  /** The whole block: entries, restart array, restart count. */
  ghost predicate IsBlock(block: Bytes, l: Layout) {
    && l.WellFormed() && |block| < TWO32 && Fit32(l.Restarts())
    && block == l.Data(|l.entries|) + FixedAll(l.Restarts()) + EncodeFixed32(|l.Restarts()|)
  }

  // ---------- the builder ----------

  /** The fields of a builder that has been given the entries of `l`. */
  ghost predicate Builds(l: Layout, interval: nat, rank: Comparator, buffer: Bytes, restarts: seq<nat>, counter: nat,
                         lastKey: Bytes) {
    && l.WellFormed() && Ascending(l.entries, rank) && l.Spaced(interval)
    && buffer == l.Data(|l.entries|) && restarts == l.Restarts()
    && counter == l.Since(|l.entries|) <= interval
    && lastKey == if l.entries == [] then [] else l.entries[|l.entries| - 1].key
  }

  /** What Add does to the fields, in terms of the entries. */
  lemma AddKeeps(l: Layout, interval: nat, rank: Comparator, buffer: Bytes, restarts: seq<nat>, counter: nat,
                 lastKey: Bytes, e: Pair)
    requires interval > 0 && Builds(l, interval, rank, buffer, restarts, counter, lastKey)
    requires l.entries != [] ==> Before(rank(l.entries[|l.entries| - 1].key), rank(e.key))
    ensures Builds(Layout(l.entries + [e], l.marks + [l.entries == [] || counter >= interval]), interval, rank,
                   buffer + EntryBytes(if counter < interval then Common(lastKey, e.key) else 0, e),
                   if counter < interval then restarts else restarts + [|buffer|],
                   (if counter < interval then counter else 0) + 1, e.key)
  {
    hide EntryBytes, Layout.WellFormed, Layout.Data, Layout.Restarts, Layout.Spaced, Layout.Since, Ascending, Common;
    if l.entries == [] {
      SinceStart(l);
      CommonEmpty(e.key);
    }
    Extended(l, e, l.entries == [] || counter >= interval, interval);
    AscendingSnoc(l.entries, e, rank);
  }

  lemma SinceStart(l: Layout)
    requires l.WellFormed()
    ensures l.Since(0) == 0
  {
  }

  lemma CommonEmpty(key: Bytes)
    ensures Common([], key) == 0
  {
  }

  class BlockBuilder {
    const interval: nat
    const rank: Comparator
    var buffer: Bytes
    var restarts: seq<nat>
    var counter: nat
    var finished: bool
    var lastKey: Bytes
    /** The entries added since the last reset, and which of them start over. */
    ghost var layout: Layout

    ghost predicate Valid()
      reads this
    {
      interval > 0 && !finished && Builds(layout, interval, rank, buffer, restarts, counter, lastKey)
    }

    constructor (interval: nat, rank: Comparator)
      requires interval >= 1
      ensures Valid() && layout == Layout([], []) && this.interval == interval && this.rank == rank
              && CurrentSizeEstimate() == 8
    {
      this.interval, this.rank := interval, rank;
      buffer, restarts, counter, finished, lastKey, layout := [], [0], 0, false, [], Layout([], []);
    }

    /** CurrentSizeEstimate: what the block would take if it were finished now. */
    function CurrentSizeEstimate(): nat
      reads this
    {
      |buffer| + |restarts| * 4 + 4
    }

    predicate Empty()
      reads this
    {
      buffer == []
    }

    lemma EmptyIff()
      requires Valid()
      ensures Empty() <==> layout.entries == []
      ensures Empty() ==> CurrentSizeEstimate() == 8
    {
      layout.OffsetsGrow(0, |layout.entries|);
    }

    /** Reset. */
    method Reset()
      requires interval > 0
      modifies this
      ensures Valid() && layout == Layout([], []) && CurrentSizeEstimate() == 8
    {
      buffer, restarts, counter, finished, lastKey, layout := [], [0], 0, false, [], Layout([], []);
    }

    /** Add. */
    method Add(key: Bytes, value: Bytes)
      requires Valid()
      requires layout.entries != [] ==> Before(rank(layout.entries[|layout.entries| - 1].key), rank(key))
      modifies this
      ensures Valid() && layout.entries == old(layout.entries) + [Pair(key, value)]
      ensures |key| < TWO32 && |value| < TWO32 ==>
                CurrentSizeEstimate() <= old(CurrentSizeEstimate()) + |key| + |value| + ENTRY_OVERHEAD
    {
      hide Builds, EntryBytes;
      var shared := 0;
      ghost var e, mark := Pair(key, value), layout.entries == [] || counter >= interval;
      AddKeeps(layout, interval, rank, buffer, restarts, counter, lastKey, e);
      if counter < interval {
        shared := SharedPrefix(lastKey, key);
      } else {
        restarts := restarts + [|buffer|];
        counter := 0;
      }
      var bytes := EncodeEntry(shared, key, value);
      buffer := buffer + bytes;
      if |key| < TWO32 && |value| < TWO32 { EntryShort(shared, e); }
      Glue(lastKey, key, shared);
      lastKey := lastKey[..shared] + key[shared..];
      counter := counter + 1;
      layout := Layout(layout.entries + [e], layout.marks + [mark]);
    }

    /** Finish: the bytes of the block.  Offsets are stored in 32 bits, so it is sound below 4 GB. */
    method Finish() returns (block: Bytes)
      requires Valid()
      modifies this
      ensures finished && layout == old(layout) && |block| == old(CurrentSizeEstimate())
      ensures |block| < TWO32 ==> IsBlock(block, old(layout))
    {
      hide Layout.Data, Layout.Restarts, Layout.Since, Layout.Spaced, Ascending, FixedAll, EncodeFixed32;
      block := PutFixedAll(buffer, Truncated(restarts));
      block := block + EncodeFixed32(|restarts| % TWO32);
      if |block| < TWO32 { RestartsFit(layout); }
      buffer, finished := block, true;
    }
  }

  /** The bytes Add appends. */
  method EncodeEntry(shared: nat, key: Bytes, value: Bytes) returns (bytes: Bytes)
    requires shared <= |key|
    ensures bytes == EntryBytes(shared, Pair(key, value))
  {
    hide Varint;
    var nonShared := |key| - shared;
    bytes := Varint(shared) + Varint(nonShared) + Varint(|value|);
    bytes := bytes + key[shared..];
    bytes := bytes + value;
  }

  lemma Glue(a: Bytes, b: Bytes, n: nat)
    ensures n == 0 || (n <= |a| && n <= |b| && a[..n] == b[..n]) ==> n <= |a| && n <= |b| && a[..n] + b[n..] == b
  {
  }

  /** Add's loop: how many bytes two keys have in common at the front. */
  method SharedPrefix(a: Bytes, b: Bytes) returns (shared: nat)
    ensures shared == Common(a, b)
  {
    shared := 0;
    var minLength := if |a| < |b| then |a| else |b|;
    while shared < minLength && a[shared] == b[shared]
      invariant shared <= minLength && a[..shared] == b[..shared]
    {
      shared := shared + 1;
    }
    CommonIs(a, b, shared);
  }

  lemma AscendingSnoc(es: seq<Pair>, e: Pair, rank: Comparator)
    requires Ascending(es, rank) && (es != [] ==> Before(rank(es[|es| - 1].key), rank(e.key)))
    ensures Ascending(es + [e], rank)
  {
    assert forall i :: 0 <= i < |es| - 1 ==> Before(rank(es[i].key), rank(es[|es| - 1].key));
  }

  /** One more entry leaves the earlier ones where they are. */
  lemma {:induction false} Kept(l: Layout, m: Layout, n: nat)
    requires l.WellFormed() && m.WellFormed() && l.entries <= m.entries && l.marks <= m.marks && n <= |l.entries|
    ensures m.Data(n) == l.Data(n) && m.Marked(n) == l.Marked(n) && m.Since(n) == l.Since(n)
  {
    if n > 0 { Kept(l, m, n - 1); }
  }

  /** What adding an entry does to a block. */
  lemma Extended(l: Layout, e: Pair, mark: bool, interval: nat)
    requires l.WellFormed() && interval > 0 && l.Spaced(interval) && l.Since(|l.entries|) <= interval
    requires mark == (l.entries == [] || l.Since(|l.entries|) == interval)
    ensures var m, n := Layout(l.entries + [e], l.marks + [mark]), |l.entries|;
            && m.WellFormed() && m.Spaced(interval)
            && m.Data(n + 1) == l.Data(n) + EntryBytes(if mark then 0 else Common(l.entries[n - 1].key, e.key), e)
            && m.Restarts() == (if mark && n > 0 then l.Restarts() + [l.Offset(n)] else l.Restarts())
            && m.Since(n + 1) == (if mark then 1 else l.Since(n) + 1) <= interval
            && (n == 0 ==> l.Since(n) == 0)
  {
    var m, n := Layout(l.entries + [e], l.marks + [mark]), |l.entries|;
    Kept(l, m, n);
    ExtendedSpaced(l, e, mark, interval);
    ExtendedRestarts(l, e, mark);
  }

  lemma ExtendedSpaced(l: Layout, e: Pair, mark: bool, interval: nat)
    requires l.WellFormed() && l.Spaced(interval)
    requires mark == (l.entries == [] || l.Since(|l.entries|) == interval)
    ensures Layout(l.entries + [e], l.marks + [mark]).WellFormed()
    ensures Layout(l.entries + [e], l.marks + [mark]).Spaced(interval)
  {
    hide Layout.Data, Layout.Marked, Layout.Since;
    var m, n := Layout(l.entries + [e], l.marks + [mark]), |l.entries|;
    forall i | 0 <= i <= n
      ensures m.marks[i] <==> i == 0 || m.Since(i) == interval
    {
      Kept(l, m, i);
      assert i < n ==> m.marks[i] == l.marks[i];
    }
  }

  lemma ExtendedRestarts(l: Layout, e: Pair, mark: bool)
    requires l.WellFormed() && (l.entries == [] ==> mark)
    ensures var m, n := Layout(l.entries + [e], l.marks + [mark]), |l.entries|;
            m.WellFormed() && m.Restarts() == if mark && n > 0 then l.Restarts() + [l.Offset(n)] else l.Restarts()
  {
    var m, n := Layout(l.entries + [e], l.marks + [mark]), |l.entries|;
    l.PointsFacts();
    m.PointsFacts();
    Kept(l, m, n);
    assert m.Points() == if n == 0 then [0] else l.Points() + (if mark then [n] else []);
    forall j | 0 <= j < |l.Points()|
      ensures m.Offset(l.Points()[j]) == l.Offset(l.Points()[j])
    {
      Kept(l, m, l.Points()[j]);
    }
    hide Layout.Data, Layout.Marked;
    assert m.Restarts() == if mark && n > 0 then l.Restarts() + [l.Offset(n)] else l.Restarts();
  }

  lemma RestartsFit(l: Layout)
    requires l.WellFormed() && l.Offset(|l.entries|) < TWO32
    ensures forall j :: 0 <= j < |l.Restarts()| ==> l.Restarts()[j] < TWO32
  {
    l.PointsFacts();
    forall j | 0 <= j < |l.Restarts()|
      ensures l.Restarts()[j] < TWO32
    {
      l.OffsetsGrow(l.Points()[j], |l.entries|);
    }
  }
}
