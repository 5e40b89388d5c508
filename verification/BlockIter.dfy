/**
 Block::Iter (table/block.cc:54-251): a cursor over the entries of a block, with binary search over restart points and
 backward steps that re-parse from one.
 */
module BlockIterators {
  import opened Keys
  import opened Coding
  import opened Comparators
  import opened Blocks

  /** The decoded lengths of an entry, and how many bytes they take. */
  datatype Header = Header(shared: nat, nonShared: nat, valueLength: nat, size: nat)

  /** DecodeEntry: the lengths at the front of `input`; none when the entry does not fit in it. */
  function DecodeEntry(input: Bytes): Option<Header> {
    if |input| < 3 then None
    else if input[0] < 128 && input[1] < 128 && input[2] < 128 then
      Checked(input, Header(input[0] as nat, input[1] as nat, input[2] as nat, 3))
    else
      var h := Lengths(input);
      if h.None? then None else Checked(input, h.value)
  }

  /** Three numbers in a row. */
  function Lengths(input: Bytes): (r: Option<Header>)
    ensures r.Some? ==> r.value.size <= |input|
  {
    match ReadVarint32(input)
    case None => None
    case Some((shared, r1)) =>
      match ReadVarint32(r1)
      case None => None
      case Some((nonShared, r2)) =>
        match ReadVarint32(r2)
        case None => None
        case Some((valueLength, r3)) => Some(Header(shared, nonShared, valueLength, |input| - |r3|))
  }

  function Checked(input: Bytes, h: Header): Option<Header>
    requires h.size <= |input|
  {
    if (|input| - h.size) % TWO32 < (h.nonShared + h.valueLength) % TWO32 then None else Some(h)
  }

  /** The fast path for one-byte lengths reads what the general one reads. */
  lemma FastIsGeneral(input: Bytes)
    requires |input| >= 3 && input[0] < 128 && input[1] < 128 && input[2] < 128
    ensures Lengths(input) == Some(Header(input[0] as nat, input[1] as nat, input[2] as nat, 3))
  {
    assert ReadVarint32(input) == Some((input[0] as nat, input[1..]));
    assert ReadVarint32(input[1..]) == Some((input[1] as nat, input[1..][1..]));
    assert ReadVarint32(input[1..][1..]) == Some((input[2] as nat, input[1..][1..][1..]));
  }

  lemma LengthsRoundTrip(shared: U32, nonShared: U32, valueLength: U32, tail: Bytes)
    ensures var s, ns, vl := Varint(shared), Varint(nonShared), Varint(valueLength);
            && Lengths(s + (ns + (vl + tail))) == Some(Header(shared, nonShared, valueLength, |s| + |ns| + |vl|))
            && |s| + |ns| + |vl| >= 3
  {
    hide ReadVarint32, Varint;
    var s, ns, vl := Varint(shared), Varint(nonShared), Varint(valueLength);
    Varint32RoundTrip(shared, ns + (vl + tail));
    Varint32RoundTrip(nonShared, vl + tail);
    Varint32RoundTrip(valueLength, tail);
  }

  /** The stored lengths of an entry come back, and tell where its key delta and value lie. */
  lemma EntryDecodes(shared: nat, e: Pair, rest: Bytes)
    requires shared <= |e.key| < TWO32 && |EntryBytes(shared, e) + rest| < TWO32
    ensures var all, nonShared := EntryBytes(shared, e) + rest, |e.key| - shared;
            var size := |EntryBytes(shared, e)| - nonShared - |e.value|;
            && size >= 3 && DecodeEntry(all) == Some(Header(shared, nonShared, |e.value|, size))
            && all[size..size + nonShared] == e.key[shared..]
            && all[size + nonShared..|EntryBytes(shared, e)|] == e.value
  {
    hide Varint, Lengths, EntryBytes, DecodeEntry, Checked;
    var nonShared, delta := |e.key| - shared, e.key[shared..];
    var s, ns, vl := Varint(shared), Varint(nonShared), Varint(|e.value|);
    var all := EntryBytes(shared, e) + rest;
    EntryParts(shared, e);
    Layered(s, ns, vl, delta, e.value, rest);
    LengthsRoundTrip(shared, nonShared, |e.value|, delta + e.value + rest);
    DecodesAsLengths(all, Header(shared, nonShared, |e.value|, |s| + |ns| + |vl|));
  }

  /** The fast path makes no difference, and an entry whose bytes are there passes the length check. */
  lemma DecodesAsLengths(input: Bytes, h: Header)
    requires Lengths(input) == Some(h) && h.size >= 3 && h.size + h.nonShared + h.valueLength <= |input| < TWO32
    ensures DecodeEntry(input) == Some(h)
  {
    hide Lengths;
    if input[0] < 128 && input[1] < 128 && input[2] < 128 { FastIsGeneral(input); }
  }

  lemma EntryParts(shared: nat, e: Pair)
    requires shared <= |e.key|
    ensures EntryBytes(shared, e)
            == Varint(shared) + Varint(|e.key| - shared) + Varint(|e.value|) + e.key[shared..] + e.value
  {
  }

  lemma Layered(s: Bytes, ns: Bytes, vl: Bytes, delta: Bytes, value: Bytes, rest: Bytes)
    ensures s + ns + vl + delta + value + rest == s + (ns + (vl + (delta + value + rest)))
    ensures var size, all := |s| + |ns| + |vl|, s + ns + vl + delta + value + rest;
            && all[size..size + |delta|] == delta && all[size + |delta|..size + |delta| + |value|] == value
  {
  }

  class Iter {
    const rank: Comparator
    const data: Bytes
    const restarts: nat
    const numRestarts: nat
    var current: nat
    var restartIndex: nat
    var key: Bytes
    /** The value as a slice of the block. */
    var valuePos: nat
    var valueSize: nat
    ghost const layout: Layout
    /** Index of the current entry; the number of entries when not valid. */
    ghost var pos: nat

    ghost predicate Setup()
    {
      && layout.WellFormed() && IsBlock(data, layout) && Ascending(layout.entries, rank)
      && restarts == layout.Offset(|layout.entries|) && numRestarts == |layout.Restarts()|
    }

    constructor (rank: Comparator, data: Bytes, restarts: nat, numRestarts: nat, ghost layout: Layout)
      requires IsBlock(data, layout) && Ascending(layout.entries, rank)
      requires restarts == layout.Offset(|layout.entries|) && numRestarts == |layout.Restarts()|
      ensures Ok() && pos == |layout.entries| && this.layout == layout && this.rank == rank
    {
      this.rank, this.data, this.restarts, this.numRestarts, this.layout := rank, data, restarts, numRestarts, layout;
      current, restartIndex, key, valuePos, valueSize, pos := restarts, numRestarts, [], 0, 0, |layout.entries|;
    }

    predicate Valid()
      reads this
    {
      current < restarts
    }

    function NextEntryOffset(): nat
      reads this
    {
      valuePos + valueSize
    }

    /** The restart index is that of the last restart point before the current entry, or of the entry's own. */
    ghost predicate IndexOk()
      requires Setup()
      reads this
    {
      && restartIndex < numRestarts && layout.Restarts()[restartIndex] <= current
    }

    /** Standing on entry `i`. */
    ghost predicate On(i: nat)
      requires Setup() && i < |layout.entries|
      reads this
    {
      var e := layout.entries[i];
      && current == layout.Offset(i) && key == e.key && IndexOk()
      && NextEntryOffset() == layout.Offset(i + 1) <= |data| && data[valuePos..valuePos + valueSize] == e.value
    }

    ghost predicate Ok()
      reads this
    {
      && Setup() && pos <= |layout.entries|
      && if pos < |layout.entries| then On(pos) else current == restarts && restartIndex == numRestarts
    }

    /** Ready to parse entry `i`: the key holds what that entry shares. */
    ghost predicate ReadyFor(i: nat)
      requires Setup() && i <= |layout.entries|
      reads this
    {
      && NextEntryOffset() == layout.Offset(i)
      && (i < |layout.entries| ==>
            && restartIndex < numRestarts && layout.Restarts()[restartIndex] <= layout.Offset(i)
            && layout.Shared(i) <= |key| && key[..layout.Shared(i)] == layout.entries[i].key[..layout.Shared(i)])
    }

    /** After an entry comes the next. */
    lemma ReadyAfter(i: nat)
      requires Setup() && i < |layout.entries| && On(i)
      ensures ReadyFor(i + 1)
    {
      hide IsBlock, Layout.Data, Layout.Restarts, Layout.Marked, Layout.Points, Ascending;
      layout.OffsetsGrow(i, i + 1);
      if i + 1 < |layout.entries| { SharedPrefixes(layout, i + 1); }
    }

    lemma ValidIff()
      requires Ok()
      ensures pos <= |layout.entries| && (Valid() <==> pos < |layout.entries|)
    {
      if pos < |layout.entries| { layout.OffsetsGrow(pos, |layout.entries|); }
    }

    method Key() returns (k: Bytes)
      requires Ok() && Valid()
      ensures pos < |layout.entries| && k == layout.entries[pos].key
    {
      k := key;
    }

    method Value() returns (v: Bytes)
      requires Ok() && Valid()
      ensures pos < |layout.entries| && v == layout.entries[pos].value
    {
      v := data[valuePos..valuePos + valueSize];
    }

    /** GetRestartPoint. */
    method GetRestartPoint(index: nat) returns (offset: nat)
      requires Setup() && index < numRestarts
      ensures offset == layout.Restarts()[index]
    {
      FixedAt(layout.Restarts(), index);
      ghost var fixed := FixedAll(layout.Restarts());
      assert data[restarts + 4 * index..restarts + 4 * index + 4] == fixed[4 * index..4 * index + 4];
      Fixed32RoundTrip(layout.Restarts()[index]);
      offset := DecodeFixed32(data[restarts + 4 * index..restarts + 4 * index + 4]);
    }

    /** SeekToRestartPoint. */
    method SeekToRestartPoint(index: nat)
      requires Setup() && index < numRestarts
      modifies this
      ensures index < |layout.Points()| && layout.Points()[index] <= |layout.entries|
              && ReadyFor(layout.Points()[index])
      ensures restartIndex == index
    {
      layout.PointsFacts();
      key := [];
      restartIndex := index;
      var offset := GetRestartPoint(index);
      valuePos, valueSize := offset, 0;
    }

    /** ParseNextKey: step to entry `i`, or off the end. */
    method ParseNextKey(ghost i: nat) returns (more: bool)
      requires Setup() && i <= |layout.entries| && ReadyFor(i)
      modifies this
      ensures Ok() && pos == i && (more <==> i < |layout.entries|)
    {
      hide IsBlock, Layout.Data, Layout.Restarts, Layout.Marked, Layout.Shared, Ascending, DecodeEntry;
      current := NextEntryOffset();
      pos := i;
      if current >= restarts {
        OffsetAtEnd(layout, i);
        current, restartIndex := restarts, numRestarts;
        return false;
      }
      assert i < |layout.entries|;
      ghost var e, shared := layout.entries[i], layout.Shared(i);
      ghost var size := EntryInBlock(data, layout, i);
      var header := DecodeEntry(data[current..restarts]);
      if header.None? || |key| < header.value.shared {
        // a block as built has no bad entries
        assert false;
      }
      var h := header.value;
      var p := current + h.size;
      key := key[..h.shared] + data[p..p + h.nonShared];
      assert e.key == e.key[..shared] + e.key[shared..];
      valuePos, valueSize := p + h.nonShared, h.valueLength;
      AdvanceRestartIndex();
      more := true;
    }

    /** The restart index follows the current entry. */
    method AdvanceRestartIndex()
      requires Setup() && IndexOk()
      modifies this`restartIndex
      ensures IndexOk()
      ensures restartIndex + 1 < numRestarts ==> current <= layout.Restarts()[restartIndex + 1]
    {
      hide IsBlock, Layout.Data, Layout.Restarts, Layout.Marked, Layout.Points, Ascending;
      var ahead := NextRestartIsBefore();
      while ahead
        invariant IndexOk()
        invariant ahead == (restartIndex + 1 < numRestarts && layout.Restarts()[restartIndex + 1] < current)
        decreases numRestarts - restartIndex, ahead
      {
        restartIndex := restartIndex + 1;
        ahead := NextRestartIsBefore();
      }
    }

    method NextRestartIsBefore() returns (ahead: bool)
      requires Setup() && IndexOk()
      ensures ahead == (restartIndex + 1 < numRestarts && layout.Restarts()[restartIndex + 1] < current)
    {
      hide IsBlock, Layout.Data, Layout.Restarts, Layout.Marked, Layout.Points, Layout.Offset, Ascending;
      ahead := false;
      if restartIndex + 1 < numRestarts {
        var next := GetRestartPoint(restartIndex + 1);
        ahead := next < current;
      }
    }

    /** Next. */
    method Next()
      requires Ok() && Valid()
      modifies this
      ensures Ok() && pos == old(pos) + 1
    {
      hide IsBlock, Layout.Data, Layout.Restarts, Layout.Marked, Ascending;
      ReadyAfter(pos);
      var more := ParseNextKey(pos + 1);
    }

    /** Prev: back to a restart point before the current entry, then forward to the entry just before it. */
    method Prev()
      requires Ok() && Valid()
      modifies this
      ensures Ok() && pos == if old(pos) == 0 then |layout.entries| else old(pos) - 1
    {
      hide IsBlock, Layout.Data, Layout.Restarts, Layout.Marked, Ascending;
      var original := current;
      ghost var p := pos;
      var point := GetRestartPoint(restartIndex);
      while point >= original
        invariant Setup() && restartIndex < numRestarts && point == layout.Restarts()[restartIndex]
        decreases restartIndex
      {
        if restartIndex == 0 {
          FirstRestart(layout);
          OffsetAtStart(layout, p);
          current, restartIndex, pos := restarts, numRestarts, |layout.entries|;
          return;
        }
        restartIndex := restartIndex - 1;
        point := GetRestartPoint(restartIndex);
      }
      ghost var i := layout.Points()[restartIndex];
      RestartBefore(layout, restartIndex, p);
      SeekToRestartPoint(restartIndex);
      ScanTo(i, p, original);
    }

    /** Parse entries from `i` on until the one that ends at `limit`; with none left, off the end. */
    method ScanTo(ghost i: nat, ghost p: nat, limit: nat)
      requires Setup() && i <= p <= |layout.entries| && ReadyFor(i) && limit == layout.Offset(p)
      requires i == p ==> i == |layout.entries|
      modifies this
      ensures Ok() && pos == if i < p then p - 1 else |layout.entries|
    {
      hide IsBlock, Layout.Data, Layout.Restarts, Layout.Marked, Ascending;
      ghost var k := i;
      var more := ParseNextKey(k);
      if k < p { OffsetOrder(layout, k + 1, p); }
      while more && NextEntryOffset() < limit
        invariant Ok() && pos == k <= p && (more <==> k < |layout.entries|) && (k == p ==> i == p)
        invariant k < p ==> (NextEntryOffset() < limit <==> k + 1 < p)
        decreases p - k
      {
        ReadyAfter(k);
        k := k + 1;
        more := ParseNextKey(k);
        OffsetOrder(layout, k + 1, p);
      }
    }

    /** SeekToFirst. */
    method SeekToFirst()
      requires Setup()
      modifies this
      ensures Ok() && pos == 0
    {
      layout.PointsFacts();
      SeekToRestartPoint(0);
      var more := ParseNextKey(0);
    }

    /** SeekToLast. */
    method SeekToLast()
      requires Setup()
      modifies this
      ensures Ok() && pos == if layout.entries == [] then 0 else |layout.entries| - 1
    {
      hide IsBlock, Layout.Data, Layout.Restarts, Layout.Marked, Ascending;
      layout.PointsFacts();
      SeekToRestartPoint(numRestarts - 1);
      ScanTo(layout.Points()[numRestarts - 1], |layout.entries|, restarts);
    }

    /** Seek: binary search over the restart points, then a scan to the first key at or after `target`. */
    method Seek(target: Bytes)
      requires Setup()
      modifies this
      ensures Ok() && AllBefore(layout.entries, pos, rank, target)
      ensures pos < |layout.entries| ==> !Before(rank(layout.entries[pos].key), rank(target))
    {
      hide IsBlock, Layout.Data, Layout.Restarts, Layout.Marked, Ascending, AllBefore;
      var left := FindRestart(target);
      SeekToRestartPoint(left);
      ghost var k: nat := layout.Points()[left];
      var more := true;
      while more
        invariant Setup() && k <= |layout.entries| && (more ==> ReadyFor(k))
                  && AllBefore(layout.entries, k, rank, target)
        invariant !more ==> Ok() && pos == k == |layout.entries|
        decreases more, |layout.entries| - k
      {
        more := ParseNextKey(k);
        if more {
          if !Before(rank(key), rank(target)) {
            return;
          }
          ReadyAfter(k);
          OneMoreBefore(layout.entries, k, rank, target);
          k := k + 1;
        }
      }
    }

    /** The binary search of Seek: the last restart point whose key is before `target`, or the first one. */
    method FindRestart(target: Bytes) returns (left: nat)
      requires Setup()
      ensures left < numRestarts == |layout.Points()| && layout.Points()[left] <= |layout.entries|
      ensures AllBefore(layout.entries, layout.Points()[left], rank, target)
      ensures left + 1 < numRestarts ==> layout.Points()[left + 1] < |layout.entries| &&
                                         !Before(rank(layout.entries[layout.Points()[left + 1]].key), rank(target))
    {
      hide IsBlock, Layout.Data, Layout.Restarts, Layout.Marked, Layout.Points, Ascending, AllBefore;
      layout.PointsFacts();
      ghost var points := layout.Points();
      FirstBefore(layout, rank, target);
      left := 0;
      var right := numRestarts - 1;
      while left < right
        invariant 0 <= left <= right < numRestarts
        invariant AllBefore(layout.entries, points[left], rank, target)
        invariant right + 1 < numRestarts ==>
                    points[right + 1] < |layout.entries|
                    && !Before(rank(layout.entries[points[right + 1]].key), rank(target))
      {
        var mid := (left + right + 1) / 2;
        var midKey := KeyAt(mid);
        if Before(rank(midKey), rank(target)) {
          EarlierBefore(layout.entries, points[mid], rank, target);
          left := mid;
        } else {
          right := mid - 1;
        }
      }
    }

    /** The key at a restart point past the first. */
    method KeyAt(index: nat) returns (midKey: Bytes)
      requires Setup() && 0 < index < numRestarts
      ensures layout.Points()[index] < |layout.entries| && midKey == layout.entries[layout.Points()[index]].key
    {
      hide IsBlock, Layout.Data, Layout.Restarts, Layout.Marked, Layout.Points, Ascending, DecodeEntry;
      var regionOffset := GetRestartPoint(index);
      ghost var i := MarkedRestart(data, layout, index);
      ghost var size := EntryInBlock(data, layout, i);
      var header := DecodeEntry(data[regionOffset..restarts]);
      if header.None? || header.value.shared != 0 {
        // a restart point of a block as built stores its key in full
        assert false;
      }
      var p := regionOffset + header.value.size;
      midKey := data[p..p + header.value.nonShared];
    }
  }

  /** Block::Block and NewIterator: the restart array lies before the count at the end. */
  method NewIterator(contents: Bytes, rank: Comparator, ghost layout: Layout) returns (it: Iter)
    requires IsBlock(contents, layout) && Ascending(layout.entries, rank)
    ensures fresh(it) && it.Setup() && it.Ok() && it.layout == layout && it.rank == rank
  {
    hide Layout.Data, Layout.Restarts, Ascending, EncodeFixed32, DecodeFixed32, FixedAll;
    var size := |contents|;
    assert contents[size - 4..] == EncodeFixed32(|layout.Restarts()|);
    Fixed32RoundTrip(|layout.Restarts()|);
    var numRestarts := DecodeFixed32(contents[size - 4..]);
    if numRestarts > (size - 4) / 4 {
      // a block as built has room for its restarts
      assert false;
    }
    var restartOffset := size - (1 + numRestarts) * 4;
    it := new Iter(rank, contents, restartOffset, numRestarts, layout);
  }

  /** The first `n` keys are all before `target`. */
  ghost predicate AllBefore(es: seq<Pair>, n: nat, rank: Comparator, target: Bytes)
    requires n <= |es|
  {
    forall j :: 0 <= j < n ==> Before(rank(es[j].key), rank(target))
  }

  lemma OneMoreBefore(es: seq<Pair>, n: nat, rank: Comparator, target: Bytes)
    requires n < |es| && AllBefore(es, n, rank, target) && Before(rank(es[n].key), rank(target))
    ensures AllBefore(es, n + 1, rank, target)
  {
  }

  lemma EarlierBefore(es: seq<Pair>, n: nat, rank: Comparator, target: Bytes)
    requires Ascending(es, rank) && n < |es| && Before(rank(es[n].key), rank(target))
    ensures AllBefore(es, n, rank, target)
  {
  }

  lemma FirstBefore(l: Layout, rank: Comparator, target: Bytes)
    requires l.WellFormed()
    ensures |l.Points()| > 0 && l.Points()[0] == 0 && AllBefore(l.entries, 0, rank, target)
  {
    l.PointsFacts();
  }

  /** What an entry shares with the previous key is a prefix of both. */
  lemma SharedPrefixes(l: Layout, i: nat)
    requires l.WellFormed() && 0 < i < |l.entries|
    ensures l.Shared(i) <= |l.entries[i - 1].key|
    ensures l.entries[i - 1].key[..l.Shared(i)] == l.entries[i].key[..l.Shared(i)]
  {
  }

  lemma FirstRestart(l: Layout)
    requires l.WellFormed()
    ensures |l.Restarts()| > 0 && l.Restarts()[0] == 0
  {
    l.PointsFacts();
  }

  lemma OffsetAtStart(l: Layout, i: nat)
    requires l.WellFormed() && i <= |l.entries|
    ensures l.Offset(i) == 0 <==> i == 0
  {
    l.OffsetsGrow(0, i);
  }

  lemma OffsetOrder(l: Layout, i: nat, j: nat)
    requires l.WellFormed() && i <= |l.entries| && j <= |l.entries|
    ensures l.Offset(i) < l.Offset(j) <==> i < j
  {
    if i < j { l.OffsetsGrow(i, j); } else { l.OffsetsGrow(j, i); }
  }

  lemma RestartBefore(l: Layout, index: nat, p: nat)
    requires l.WellFormed() && index < |l.Restarts()| && p <= |l.entries| && l.Restarts()[index] < l.Offset(p)
    ensures l.Points()[index] < p
  {
    l.PointsFacts();
    OffsetOrder(l, l.Points()[index], p);
  }

  /** A restart point past the first leads to an entry that stores its key in full. */
  lemma MarkedRestart(data: Bytes, l: Layout, index: nat) returns (i: nat)
    requires IsBlock(data, l) && 0 < index < |l.Restarts()|
    ensures i == l.Points()[index] < |l.entries| && l.Shared(i) == 0 && l.Restarts()[index] == l.Offset(i)
  {
    l.PointsFacts();
    i := l.Points()[index];
  }

  lemma OffsetAtEnd(l: Layout, i: nat)
    requires l.WellFormed() && i <= |l.entries| && l.Offset(i) >= l.Offset(|l.entries|)
    ensures i == |l.entries|
  {
    if i < |l.entries| { l.OffsetsGrow(i, |l.entries|); }
  }

  /** Every byte of a key is stored with it or with an earlier one. */
  lemma {:induction false} KeysFit(l: Layout, i: nat)
    requires l.WellFormed() && i < |l.entries|
    ensures |l.entries[i].key| <= l.Offset(i + 1)
  {
    if !l.marks[i] { KeysFit(l, i - 1); }
  }

  /** Where entry `i` lies in its block, and what follows it among the entries. */
  lemma EntryAt(data: Bytes, l: Layout, i: nat) returns (rest: Bytes)
    requires IsBlock(data, l) && i < |l.entries|
    ensures l.Offset(i) < l.Offset(i + 1) <= l.Offset(|l.entries|) <= |data|
    ensures l.Offset(i + 1) == l.Offset(i) + |EntryBytes(l.Shared(i), l.entries[i])|
    ensures data[l.Offset(i)..l.Offset(|l.entries|)] == EntryBytes(l.Shared(i), l.entries[i]) + rest
  {
    hide EntryBytes, IsBlock, Layout.Data, Layout.Restarts;
    var n := |l.entries|;
    BlockStart(data, l);
    l.OffsetsGrow(i, n);
    l.OffsetsGrow(i + 1, n);
    l.OffsetsGrow(i, i + 1);
    DataStep(l, i);
    var all, bytes := l.Data(n), EntryBytes(l.Shared(i), l.entries[i]);
    rest := all[l.Offset(i + 1)..];
    Middle(all, l.Data(i), bytes);
    assert data[l.Offset(i)..l.Offset(n)] == all[l.Offset(i)..];
  }

  lemma BlockStart(data: Bytes, l: Layout)
    requires IsBlock(data, l)
    ensures l.WellFormed() && l.Data(|l.entries|) <= data
  {
    hide Layout.Data, Layout.Restarts, FixedAll, EncodeFixed32;
  }

  lemma DataStep(l: Layout, i: nat)
    requires l.WellFormed() && i < |l.entries|
    ensures l.Data(i + 1) == l.Data(i) + EntryBytes(l.Shared(i), l.entries[i])
  {
    hide EntryBytes;
  }

  lemma Middle(all: Bytes, front: Bytes, part: Bytes)
    requires front + part <= all
    ensures all[|front|..] == part + all[|front + part|..]
  {
    assert all == (front + part) + all[|front + part|..];
  }

  /** The bytes of entry `i` in its block, decoded. */
  lemma EntryInBlock(data: Bytes, l: Layout, i: nat) returns (size: nat)
    requires IsBlock(data, l) && i < |l.entries|
    ensures l.Offset(i) < l.Offset(i + 1) <= l.Offset(|l.entries|) <= |data|
    ensures var e, shared, p := l.entries[i], l.Shared(i), l.Offset(i) + size;
            && DecodeEntry(data[l.Offset(i)..l.Offset(|l.entries|)])
               == Some(Header(shared, |e.key| - shared, |e.value|, size))
            && p + |e.key| - shared + |e.value| == l.Offset(i + 1)
            && data[p..p + |e.key| - shared] == e.key[shared..]
               && data[p + |e.key| - shared..l.Offset(i + 1)] == e.value
  {
    hide EntryBytes, DecodeEntry, Layout.Data;
    var rest := EntryAt(data, l, i);
    var e, shared := l.entries[i], l.Shared(i);
    KeysFit(l, i);
    EntryDecodes(shared, e, rest);
    size := |EntryBytes(shared, e)| - (|e.key| - shared) - |e.value|;
    SliceOfSlice(data, l.Offset(i), l.Offset(|l.entries|), size, size + |e.key| - shared);
    SliceOfSlice(data, l.Offset(i), l.Offset(|l.entries|), size + |e.key| - shared, |EntryBytes(shared, e)|);
  }

  lemma SliceOfSlice(data: Bytes, a: nat, b: nat, i: nat, j: nat)
    requires a <= b <= |data| && i <= j <= b - a
    ensures data[a..b][i..j] == data[a + i..a + j]
  {
    forall k | 0 <= k < j - i
      ensures data[a..b][i..j][k] == data[a + i..a + j][k]
    {
    }
  }
}
