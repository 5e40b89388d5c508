/**
 The encoder (nanopb/pb_encode.c): what the wire form of a struct is, and that both passes over a nested struct, the
 one that only counts and the one that writes, produce it.
 */
module PbEncode {
  import opened Keys
  import opened Coding
  import opened PbSchema

  const WT_VARINT: nat := 0
  const WT_64BIT: nat := 1
  const WT_STRING: nat := 2
  const WT_32BIT: nat := 5

  function WireType(t: LType): nat {
    match t
    case Fixed32 => WT_32BIT
    case Fixed64 => WT_64BIT
    case BytesUpTo(_) => WT_STRING
    case StringIn(_) => WT_STRING
    case FixedBytes(_) => WT_STRING
    case Submessage(_) => WT_STRING
    case _ => WT_VARINT
  }

  /** PB_LTYPE_LAST_PACKABLE. */
  predicate Packable(t: LType) {
    t.Boolean? || t.Int? || t.UInt? || t.SInt? || t.Fixed32? || t.Fixed64?
  }

  // ---------- the wire form ----------

  function Tag(wireType: nat, tag: nat): Bytes {
    Varint(tag * 8 + wireType)
  }

  /** The cast of a signed integer to 64 unsigned bits. */
  function ToUnsigned(n: int): (r: nat)
    requires InSigned(n, 8)
    ensures r < TWO64
  {
    if n < 0 then n + TWO64 else n
  }

  /** ZigZag: 0, -1, 1, -2, ... become 0, 1, 2, 3, ... */
  function ZigZag(n: int): (r: nat)
    requires InSigned(n, 8)
    ensures r < TWO64
  {
    if n < 0 then -2 * n - 1 else 2 * n
  }

  function Join(a: Option<Bytes>, b: Option<Bytes>): Option<Bytes> {
    if a.Some? && b.Some? then Some(a.value + b.value) else None
  }

  /** A byte string behind its length; none when the value is in error. */
  function Prefixed(b: Option<Bytes>): Option<Bytes> {
    if b.Some? then Some(Varint(|b.value|) + b.value) else None
  }

  /** PB_ENCODERS: the wire form of one value; none when it exceeds its storage. */
  ghost function EncItem(t: LType, v: Item): Option<Bytes>
    requires TypedItem(t, v)
    decreases v, 0
  {
    match t
    case Boolean => Some(Varint(v.n))
    case Int(w) => Some(Varint(ToUnsigned(v.n)))
    case UInt(_) => Some(Varint(v.n))
    case SInt(w) => Some(Varint(ZigZag(v.n)))
    case Fixed32 => Some(EncodeFixed32(v.n))
    case Fixed64 => Some(EncodeFixed64(v.n))
    case BytesUpTo(n) => if |v.bytes| <= n then Prefixed(Some(v.bytes)) else None
    case StringIn(_) => Prefixed(Some(v.bytes))
    case FixedBytes(_) => Prefixed(Some(v.bytes))
    case Submessage(fs) => Prefixed(EncFrom(fs, v.slots, 0))
  }

  /** The values from the i-th on, end to end. */
  ghost function EncItems(t: LType, vs: seq<Item>, i: nat): Option<Bytes>
    requires i <= |vs| && forall j :: 0 <= j < |vs| ==> TypedItem(t, vs[j])
    decreases vs, 1, |vs| - i
  {
    if i == |vs| then Some([]) else Join(EncItem(t, vs[i]), EncItems(t, vs, i + 1))
  }

  /** The values from the i-th on, each behind the field's tag. */
  ghost function EncTagged(f: Field, vs: seq<Item>, i: nat): Option<Bytes>
    requires i <= |vs| && forall j :: 0 <= j < |vs| ==> TypedItem(f.ltype, vs[j])
    decreases vs, 1, |vs| - i
  {
    if i == |vs| then Some([]) else Join(EncOne(f, vs[i]), EncTagged(f, vs, i + 1))
  }

  /** A value behind its field's tag. */
  ghost function EncOne(f: Field, v: Item): Option<Bytes>
    requires TypedItem(f.ltype, v)
    decreases v, 1
  {
    Join(Some(Tag(WireType(f.ltype), f.tag)), EncItem(f.ltype, v))
  }

  /** encode_array: packed if the type allows it; none when the array is overfull. */
  ghost function EncArray(f: Field, vs: seq<Item>, max: nat): Option<Bytes>
    requires forall j :: 0 <= j < |vs| ==> TypedItem(f.ltype, vs[j])
    decreases vs, 2
  {
    if |vs| == 0 then Some([])
    else if |vs| > max then None
    else if Packable(f.ltype) then Join(Some(Tag(WT_STRING, f.tag)), Prefixed(EncItems(f.ltype, vs, 0)))
    else EncTagged(f, vs, 0)
  }

  /** The field is there to be encoded. */
  ghost predicate Present(f: Field, s: Slot)
    requires TypedSlot(f, s)
  {
    match f.htype
    case Required => true
    case Optional => s.has
    case Singular => !IsDefaultItem(f.ltype, s.item)
    case Oneof(_) => s.chosen
    case Repeated(_) => |s.items| > 0
    case FixedCount(_) => |s.items| > 0
  }

  /** encode_basic_field. */
  ghost function EncField(f: Field, s: Slot): Option<Bytes>
    requires TypedSlot(f, s)
    decreases s, 3
  {
    match f.htype
    case Repeated(max) => EncArray(f, s.items, max)
    case FixedCount(n) => EncArray(f, s.items, n)
    case _ => if Present(f, s) then EncOne(f, s.item) else Some([])
  }

  /** The fields from the i-th on. */
  ghost function EncFrom(fields: seq<Field>, slots: seq<Slot>, i: nat): Option<Bytes>
    requires TypedMessage(fields, slots) && i <= |fields|
    decreases slots, 4, |fields| - i
  {
    if i == |fields| then Some([])
    else
      var s := slots[i];
      assert slots decreases to s;
      Join(EncField(fields[i], s), EncFrom(fields, slots, i + 1))
  }

  // ---------- streams ----------

  /** What a stream has done so far. */
  datatype Sink = Sink(sizing: bool, maxSize: nat, bytesWritten: nat, buffer: Bytes)

  /** pb_ostream_t: a sizing stream only counts; another one writes to a buffer of `maxSize` bytes. */
  class OStream {
    const sizing: bool
    const maxSize: nat
    var bytesWritten: nat
    var buffer: Bytes

    ghost predicate Valid()
      reads this
    {
      if sizing then buffer == [] else |buffer| == bytesWritten <= maxSize
    }

    ghost function Sunk(): Sink
      reads this
    {
      Sink(sizing, maxSize, bytesWritten, buffer)
    }

    constructor (sizing: bool, maxSize: nat)
      ensures Valid() && Sunk() == Sink(sizing, maxSize, 0, [])
    {
      this.sizing, this.maxSize, bytesWritten, buffer := sizing, maxSize, 0, [];
    }

    /** pb_write. */
    method Write(bytes: Bytes) returns (ok: bool)
      requires Valid()
      modifies this
      ensures Valid() && Outcome(old(Sunk()), Sunk(), Some(bytes), ok)
    {
      if |bytes| > 0 && !sizing {
        if bytesWritten + |bytes| > maxSize {
          return false;
        }
        buffer := buffer + bytes;
      }
      bytesWritten := bytesWritten + |bytes|;
      ok := true;
    }

    /** pb_write with no data, as both passes use it on a sizing stream. */
    method Count(ghost bytes: Bytes, n: nat)
      requires Valid() && sizing && n == |bytes|
      modifies this
      ensures Valid() && Outcome(old(Sunk()), Sunk(), Some(bytes), true)
    {
      bytesWritten := bytesWritten + n;
    }

    /** Take over what a substream wrote behind this stream's data. */
    method Absorb(sub: OStream)
      requires Valid() && !sizing && sub.Valid() && !sub.sizing && sub != this
      requires bytesWritten + sub.bytesWritten <= maxSize
      modifies this
      ensures Valid() && Outcome(old(Sunk()), Sunk(), Some(sub.buffer), true)
    {
      buffer := buffer + sub.buffer;
      bytesWritten := bytesWritten + sub.bytesWritten;
    }
  }

  /**
   How an encoding step with wire form `e` ends: it succeeds exactly when there is a wire form and, unless the stream
   only counts, it fits; then that many bytes are counted and those bytes written.
   */
  ghost predicate Outcome(before: Sink, after: Sink, e: Option<Bytes>, ok: bool) {
    && after.sizing == before.sizing && after.maxSize == before.maxSize && before.bytesWritten <= after.bytesWritten
    && (ok <==> e.Some? && (before.sizing || before.bytesWritten + |e.value| <= before.maxSize))
    && (ok ==> after.bytesWritten == before.bytesWritten + |e.value|
               && after.buffer == if before.sizing then before.buffer else before.buffer + e.value)
  }

  /** One step after another. */
  lemma Then(s0: Sink, s1: Sink, s2: Sink, e1: Option<Bytes>, e2: Option<Bytes>, ok: bool)
    requires Outcome(s0, s1, e1, true) && Outcome(s1, s2, e2, ok)
    ensures Outcome(s0, s2, Join(e1, e2), ok)
  {
  }

  lemma Fails(s0: Sink, s1: Sink, e1: Option<Bytes>, e2: Option<Bytes>)
    requires Outcome(s0, s1, e1, false)
    ensures Outcome(s0, s1, Join(e1, e2), false)
  {
  }

  lemma Nothing(s: Sink)
    requires s.sizing || s.bytesWritten <= s.maxSize
    ensures Outcome(s, s, Some([]), true)
  {
  }

  /** pb_encode_varint. */
  method EncodeVarint(stream: OStream, value: nat) returns (ok: bool)
    requires stream.Valid()
    modifies stream
    ensures stream.Valid() && Outcome(old(stream.Sunk()), stream.Sunk(), Some(Varint(value)), ok)
  {
    var buffer: Bytes := [];
    if value <= 0x7f {
      buffer := [value as byte];
    } else {
      var rest := value;
      while rest >= 128
        invariant rest > 0 && buffer + Varint(rest) == Varint(value)
      {
        assert Varint(rest) == [(rest % 128 + 128) as byte] + Varint(rest / 128);
        buffer := buffer + [(rest % 128 + 128) as byte];
        rest := rest / 128;
      }
      buffer := buffer + [rest as byte];
    }
    ok := stream.Write(buffer);
  }

  /** pb_encode_string. */
  method EncodeString(stream: OStream, bytes: Bytes) returns (ok: bool)
    requires stream.Valid()
    modifies stream
    ensures stream.Valid() && Outcome(old(stream.Sunk()), stream.Sunk(), Prefixed(Some(bytes)), ok)
  {
    hide Varint, Outcome;
    ghost var s0 := stream.Sunk();
    ok := EncodeVarint(stream, |bytes|);
    ghost var s1 := stream.Sunk();
    if ok {
      ok := stream.Write(bytes);
      Then(s0, s1, stream.Sunk(), Some(Varint(|bytes|)), Some(bytes), ok);
    } else {
      Fails(s0, s1, Some(Varint(|bytes|)), Some(bytes));
    }
  }

  /** pb_encode_tag. */
  method EncodeTag(stream: OStream, wireType: nat, tag: nat) returns (ok: bool)
    requires stream.Valid()
    modifies stream
    ensures stream.Valid() && Outcome(old(stream.Sunk()), stream.Sunk(), Some(Tag(wireType, tag)), ok)
  {
    ok := EncodeVarint(stream, tag * 8 + wireType);
  }

  // ---------- fields and messages ----------

  /** PB_ENCODERS: pb_enc_bool and so on. */
  method EncodeItem(stream: OStream, t: LType, v: Item) returns (ok: bool)
    requires stream.Valid() && TypedItem(t, v)
    modifies stream
    ensures stream.Valid() && Outcome(old(stream.Sunk()), stream.Sunk(), EncItem(t, v), ok)
    decreases v, 0
  {
    hide Varint, Outcome, EncFrom;
    match t
    case Boolean => ok := EncodeVarint(stream, if v.n != 0 then 1 else 0);
    case Int(_) => ok := EncodeVarint(stream, ToUnsigned(v.n));
    case UInt(_) => ok := EncodeVarint(stream, v.n);
    case SInt(_) => ok := EncodeVarint(stream, ZigZag(v.n));
    case Fixed32 => ok := stream.Write(EncodeFixed32(v.n));
    case Fixed64 => ok := stream.Write(EncodeFixed64(v.n));
    case BytesUpTo(n) =>
      if |v.bytes| > n {
        FailsOutright(stream.Sunk());
        return false;
      }
      ok := EncodeString(stream, v.bytes);
    case StringIn(n) =>
      var size := StringLength(v.bytes, n);
      ok := EncodeString(stream, v.bytes[..size]);
    case FixedBytes(_) => ok := EncodeString(stream, v.bytes);
    case Submessage(fs) => ok := EncodeSubmessage(stream, fs, v.slots);
  }

  lemma FailsOutright(s: Sink)
    ensures Outcome(s, s, None, false)
  {
  }

  /** The storage of a C string: its characters, then NUL. */
  function CharAt(s: Bytes, i: nat): byte {
    if i < |s| then s[i] else 0
  }

  /** strnlen, as pb_enc_string spells it out. */
  method StringLength(s: Bytes, max: nat) returns (size: nat)
    requires |s| <= max && 0 !in s
    ensures size == |s| && s[..size] == s
  {
    size := 0;
    while size < max && CharAt(s, size) != 0
      invariant size <= |s|
    {
      size := size + 1;
    }
  }

  /** encode_array. */
  method EncodeArray(stream: OStream, f: Field, vs: seq<Item>, max: nat) returns (ok: bool)
    requires stream.Valid() && forall j :: 0 <= j < |vs| ==> TypedItem(f.ltype, vs[j])
    modifies stream
    ensures stream.Valid() && Outcome(old(stream.Sunk()), stream.Sunk(), EncArray(f, vs, max), ok)
    decreases vs, 3
  {
    hide Varint, Outcome, EncItem, Tag;
    ghost var s0 := stream.Sunk();
    if |vs| == 0 {
      StreamNothing(stream);
      return true;
    }
    if |vs| > max {
      FailsOutright(stream.Sunk());
      return false;
    }
    if Packable(f.ltype) {
      ok := EncodeTag(stream, WT_STRING, f.tag);
      ghost var s1 := stream.Sunk();
      if ok {
        ok := EncodePacked(stream, f, vs);
        Then(s0, s1, stream.Sunk(), Some(Tag(WT_STRING, f.tag)), Prefixed(EncItems(f.ltype, vs, 0)), ok);
      } else {
        Fails(s0, s1, Some(Tag(WT_STRING, f.tag)), Prefixed(EncItems(f.ltype, vs, 0)));
      }
    } else {
      ok := EncodeTagged(stream, f, vs);
    }
  }

  lemma StreamNothing(stream: OStream)
    requires stream.Valid()
    ensures Outcome(stream.Sunk(), stream.Sunk(), Some([]), true)
  {
  }

  /** The size of a packed array: computed for fixed-width types, counted by a sizing stream for the others. */
  method PackedSize(f: Field, vs: seq<Item>) returns (size: nat, ok: bool)
    requires Packable(f.ltype) && forall j :: 0 <= j < |vs| ==> TypedItem(f.ltype, vs[j])
    ensures ok <==> EncItems(f.ltype, vs, 0).Some?
    ensures ok ==> size == |EncItems(f.ltype, vs, 0).value|
    decreases vs, 1
  {
    hide Varint;
    ok := true;
    FixedSizes(f.ltype, vs, 0);
    if f.ltype == Fixed32 {
      size := 4 * |vs|;
    } else if f.ltype == Fixed64 {
      size := 8 * |vs|;
    } else {
      var sizestream := new OStream(true, 0);
      ok := EncodeItems(sizestream, f.ltype, vs);
      size := sizestream.bytesWritten;
    }
  }

  lemma {:induction false} FixedSizes(t: LType, vs: seq<Item>, i: nat)
    requires i <= |vs| && forall j :: 0 <= j < |vs| ==> TypedItem(t, vs[j])
    ensures t == Fixed32 ==> EncItems(t, vs, i).Some? && |EncItems(t, vs, i).value| == 4 * (|vs| - i)
    ensures t == Fixed64 ==> EncItems(t, vs, i).Some? && |EncItems(t, vs, i).value| == 8 * (|vs| - i)
    decreases |vs| - i
  {
    if i < |vs| { FixedSizes(t, vs, i + 1); }
  }

  /** The values one after another, without tags. */
  method EncodeItems(stream: OStream, t: LType, vs: seq<Item>) returns (ok: bool)
    requires stream.Valid() && forall j :: 0 <= j < |vs| ==> TypedItem(t, vs[j])
    modifies stream
    ensures stream.Valid() && Outcome(old(stream.Sunk()), stream.Sunk(), EncItems(t, vs, 0), ok)
    decreases vs, 0
  {
    hide Varint, Outcome, EncItem;
    ghost var s0 := stream.Sunk();
    ghost var done: Option<Bytes> := Some([]);
    StreamNothing(stream);
    JoinNothing(EncItems(t, vs, 0));
    for i := 0 to |vs|
      invariant stream.Valid() && Outcome(s0, stream.Sunk(), done, true)
      invariant Join(done, EncItems(t, vs, i)) == EncItems(t, vs, 0)
    {
      ghost var s1 := stream.Sunk();
      ghost var e, rest := EncItem(t, vs[i]), EncItems(t, vs, i + 1);
      JoinRegroup(done, e, rest);
      ok := EncodeItem(stream, t, vs[i]);
      Then(s0, s1, stream.Sunk(), done, e, ok);
      if !ok {
        Fails(s0, stream.Sunk(), Join(done, e), rest);
        return;
      }
      done := Join(done, e);
    }
    JoinNothing(done);
    ok := true;
  }

  lemma JoinNothing(e: Option<Bytes>)
    ensures Join(Some([]), e) == e && Join(e, Some([])) == e
  {
    if e.Some? { assert [] + e.value == e.value && e.value + [] == e.value; }
  }

  lemma JoinRegroup(a: Option<Bytes>, b: Option<Bytes>, c: Option<Bytes>)
    ensures Join(Join(a, b), c) == Join(a, Join(b, c))
  {
    if a.Some? && b.Some? && c.Some? { assert a.value + b.value + c.value == a.value + (b.value + c.value); }
  }

  /** The length and the contents of a packed array. */
  method EncodePacked(stream: OStream, f: Field, vs: seq<Item>) returns (ok: bool)
    requires stream.Valid() && Packable(f.ltype) && forall j :: 0 <= j < |vs| ==> TypedItem(f.ltype, vs[j])
    modifies stream
    ensures stream.Valid() && Outcome(old(stream.Sunk()), stream.Sunk(), Prefixed(EncItems(f.ltype, vs, 0)), ok)
    decreases vs, 2
  {
    hide Varint, Outcome, EncItem, EncItems;
    ghost var s0 := stream.Sunk();
    ghost var e := EncItems(f.ltype, vs, 0);
    var size;
    size, ok := PackedSize(f, vs);
    if !ok {
      FailsOutright(s0);
      return;
    }
    ok := EncodeVarint(stream, size);
    ghost var s1 := stream.Sunk();
    if !ok {
      Fails(s0, s1, Some(Varint(size)), e);
      return;
    }
    if stream.sizing {
      stream.Count(e.value, size);
    } else {
      ok := EncodeItems(stream, f.ltype, vs);
    }
    Then(s0, s1, stream.Sunk(), Some(Varint(size)), e, ok);
  }

  /** A value behind its tag. */
  method EncodeOne(stream: OStream, f: Field, v: Item) returns (ok: bool)
    requires stream.Valid() && TypedItem(f.ltype, v)
    modifies stream
    ensures stream.Valid() && Outcome(old(stream.Sunk()), stream.Sunk(), EncOne(f, v), ok)
    decreases v, 1
  {
    hide Varint, Outcome, EncItem, Tag;
    ghost var s0 := stream.Sunk();
    ghost var e := Some(Tag(WireType(f.ltype), f.tag));
    ok := EncodeTag(stream, WireType(f.ltype), f.tag);
    ghost var s1 := stream.Sunk();
    if ok {
      ok := EncodeItem(stream, f.ltype, v);
      Then(s0, s1, stream.Sunk(), e, EncItem(f.ltype, v), ok);
    } else {
      Fails(s0, s1, e, EncItem(f.ltype, v));
    }
  }

  /** An array that cannot be packed: each value behind the tag. */
  method EncodeTagged(stream: OStream, f: Field, vs: seq<Item>) returns (ok: bool)
    requires stream.Valid() && forall j :: 0 <= j < |vs| ==> TypedItem(f.ltype, vs[j])
    modifies stream
    ensures stream.Valid() && Outcome(old(stream.Sunk()), stream.Sunk(), EncTagged(f, vs, 0), ok)
    decreases vs, 1
  {
    hide Varint, Outcome, EncOne;
    ghost var s0 := stream.Sunk();
    ghost var done: Option<Bytes> := Some([]);
    StreamNothing(stream);
    JoinNothing(EncTagged(f, vs, 0));
    for i := 0 to |vs|
      invariant stream.Valid() && Outcome(s0, stream.Sunk(), done, true)
      invariant Join(done, EncTagged(f, vs, i)) == EncTagged(f, vs, 0)
    {
      ghost var s1 := stream.Sunk();
      ghost var e, rest := EncOne(f, vs[i]), EncTagged(f, vs, i + 1);
      JoinRegroup(done, e, rest);
      ok := EncodeOne(stream, f, vs[i]);
      Then(s0, s1, stream.Sunk(), done, e, ok);
      if !ok {
        Fails(s0, stream.Sunk(), Join(done, e), rest);
        return;
      }
      done := Join(done, e);
    }
    JoinNothing(done);
    ok := true;
  }

  /** encode_basic_field. */
  method EncodeField(stream: OStream, f: Field, s: Slot) returns (ok: bool)
    requires stream.Valid() && TypedSlot(f, s)
    modifies stream
    ensures stream.Valid() && Outcome(old(stream.Sunk()), stream.Sunk(), EncField(f, s), ok)
    decreases s, 3
  {
    hide Varint, Outcome, EncOne, EncArray;
    match f.htype
    case Required =>
      ok := EncodeOne(stream, f, s.item);
    case Optional =>
      if !s.has {
        StreamNothing(stream);
        return true;
      }
      ok := EncodeOne(stream, f, s.item);
    case Singular =>
      if IsDefaultItem(f.ltype, s.item) {
        StreamNothing(stream);
        return true;
      }
      ok := EncodeOne(stream, f, s.item);
    case Repeated(max) =>
      ok := EncodeArray(stream, f, s.items, max);
    case FixedCount(n) =>
      ok := EncodeArray(stream, f, s.items, n);
    case Oneof(_) =>
      if !s.chosen {
        StreamNothing(stream);
        return true;
      }
      ok := EncodeOne(stream, f, s.item);
  }

  /** pb_encode. */
  method Encode(stream: OStream, fields: seq<Field>, slots: seq<Slot>) returns (ok: bool)
    requires stream.Valid() && TypedMessage(fields, slots)
    modifies stream
    ensures stream.Valid() && Outcome(old(stream.Sunk()), stream.Sunk(), EncFrom(fields, slots, 0), ok)
    decreases slots, 4
  {
    hide Varint, Outcome, EncField;
    ghost var s0 := stream.Sunk();
    ghost var done: Option<Bytes> := Some([]);
    StreamNothing(stream);
    JoinNothing(EncFrom(fields, slots, 0));
    for i := 0 to |fields|
      invariant stream.Valid() && Outcome(s0, stream.Sunk(), done, true)
      invariant Join(done, EncFrom(fields, slots, i)) == EncFrom(fields, slots, 0)
    {
      ghost var s1 := stream.Sunk();
      var s := slots[i];
      assert slots decreases to s;
      ghost var e, rest := EncField(fields[i], s), EncFrom(fields, slots, i + 1);
      JoinRegroup(done, e, rest);
      ok := EncodeField(stream, fields[i], s);
      Then(s0, s1, stream.Sunk(), done, e, ok);
      if !ok {
        Fails(s0, stream.Sunk(), Join(done, e), rest);
        return;
      }
      done := Join(done, e);
    }
    JoinNothing(done);
    ok := true;
  }

  /**
   pb_encode_submessage: one pass to find the size, one to write.  The two agree, so the "submsg size changed" error
   cannot occur.
   */
  method EncodeSubmessage(stream: OStream, fields: seq<Field>, slots: seq<Slot>) returns (ok: bool)
    requires stream.Valid() && TypedMessage(fields, slots)
    modifies stream
    ensures stream.Valid() && Outcome(old(stream.Sunk()), stream.Sunk(), Prefixed(EncFrom(fields, slots, 0)), ok)
    decreases slots, 5
  {
    hide Varint, EncFrom;
    ghost var s0 := stream.Sunk();
    ghost var e := EncFrom(fields, slots, 0);
    var substream := new OStream(true, 0);
    ok := Encode(substream, fields, slots);
    if !ok {
      return;
    }
    var size := substream.bytesWritten;
    ok := EncodeVarint(stream, size);
    ghost var s1 := stream.Sunk();
    if !ok {
      Fails(s0, s1, Some(Varint(size)), e);
      return;
    }
    if stream.sizing {
      stream.Count(e.value, size);
      Then(s0, s1, stream.Sunk(), Some(Varint(size)), e, true);
      return;
    }
    if stream.bytesWritten + size > stream.maxSize {
      return false;
    }
    substream := new OStream(false, size);
    var status := Encode(substream, fields, slots);
    stream.Absorb(substream);
    Then(s0, s1, stream.Sunk(), Some(Varint(size)), e, true);
    if substream.bytesWritten != size {
      assert false;
    }
    ok := status;
  }

  /** pb_get_encoded_size. */
  method GetEncodedSize(fields: seq<Field>, slots: seq<Slot>) returns (size: nat, ok: bool)
    requires TypedMessage(fields, slots)
    ensures ok <==> EncFrom(fields, slots, 0).Some?
    ensures ok ==> size == |EncFrom(fields, slots, 0).value|
  {
    var stream := new OStream(true, 0);
    ok := Encode(stream, fields, slots);
    size := stream.bytesWritten;
  }

  /**
   Sizing and writing agree: encoding into a buffer succeeds exactly when the sizing pass does and its size fits, and
   then writes exactly that many bytes, the same for every buffer.
   */
  method SizeThenEncode(fields: seq<Field>, slots: seq<Slot>, maxSize: nat)
    returns (size: nat, sized: bool, buffer: Bytes, ok: bool)
    requires TypedMessage(fields, slots)
    ensures ok <==> sized && size <= maxSize
    ensures ok ==> |buffer| == size && Some(buffer) == EncFrom(fields, slots, 0)
  {
    size, sized := GetEncodedSize(fields, slots);
    var stream := new OStream(false, maxSize);
    ok := Encode(stream, fields, slots);
    buffer := stream.buffer;
    JoinNothing(EncFrom(fields, slots, 0));
  }
}
