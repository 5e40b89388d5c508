/**
 Decoding single values (nanopb/pb_decode.c:1334-1562).  Whatever the input, a value that is accepted stands at its
 front and lies in the range of its field.
 */
module PbScalars {
  import opened Keys
  import opened Coding
  import opened PbSchema
  import opened PbEncode
  import opened PbStream

  /** A number of up to ten bytes was read off the front, modulo 2^64. */
  ghost predicate Took64(before: Bytes, value: nat, after: Bytes) {
    var r := VarintAt(before, 10);
    r.Some? && value == Wrap(r.value.0, TWO64) && after == before[r.value.1..]
  }

  /** The value is one that the field's storage has room for. */
  ghost predicate Holds(t: LType, x: Item) {
    match t
    case Boolean => x.Num? && 0 <= x.n <= 1
    case Int(w) => x.Num? && InSigned(x.n, w)
    case UInt(w) => x.Num? && InUnsigned(x.n, w)
    case SInt(w) => x.Num? && InSigned(x.n, w)
    case Fixed32 => x.Num? && 0 <= x.n < TWO32
    case Fixed64 => x.Num? && 0 <= x.n < TWO64
    case BytesUpTo(n) => x.Blob? && |x.bytes| <= n
    case StringIn(n) => x.Blob? && (x.bytes == [] || |x.bytes| < n)
    case FixedBytes(n) => x.Blob? && |x.bytes| == n
    case Submessage(_) => true
  }

  /** The front of `before` stands for the value; `after` is what follows it. */
  ghost predicate StandsFor(before: Bytes, t: LType, x: Item, after: Bytes) {
    match t
    case Boolean => exists raw: nat :: Took(before, raw, after) && x == Num(if raw != 0 then 1 else 0)
    case Int(w) => x.Num? && exists raw: nat :: Took64(before, raw, after) && SameBits(raw, x.n, w)
    case UInt(w) => x.Num? && x.n >= 0 && Took64(before, x.n, after)
    case SInt(w) =>
      x.Num? && exists raw: nat :: Took64(before, raw, after) && raw == if x.n < 0 then -2 * x.n - 1 else 2 * x.n
    case Fixed32 => x.Num? && 0 <= x.n < TWO32 && before == EncodeFixed32(x.n) + after
    case Fixed64 => x.Num? && 0 <= x.n < TWO64 && before == EncodeFixed64(x.n) + after
    case BytesUpTo(_) => x.Blob? && |x.bytes| < TWO32 && Took(before, |x.bytes|, x.bytes + after)
    case StringIn(_) => x.Blob? && |x.bytes| < TWO32 && Took(before, |x.bytes|, x.bytes + after)
    case FixedBytes(n) =>
      x.Blob? && (Took(before, n, x.bytes + after) || (AllZeros(x.bytes) && Took(before, 0, after)))
    case Submessage(_) => true
  }

  ghost predicate AllZeros(bytes: Bytes) {
    forall i :: 0 <= i < |bytes| ==> bytes[i] == 0
  }

  /** `n` is the number the bits stand for; integers of up to 32 bits may have been sent without sign extension. */
  ghost predicate SameBits(raw: nat, n: int, w: Width) {
    var m := if w == 8 then TWO64 else TWO32;
    raw % m == n % m
  }

  /** The cast to a signed integer of a given width. */
  function Cast(n: int, w: Width): (r: int)
    ensures InSigned(r, w)
  {
    var low := n % Bound(w);
    if low >= Bound(w) / 2 then low - Bound(w) else low
  }

  lemma CastKeeps(n: int, w: Width)
    requires InSigned(n, w)
    ensures Cast(n, w) == n && InSigned(n, 8) && Cast(ToUnsigned(n), w) == n
  {
    CastLow(n, w);
    if n < 0 {
      var m := Bound(w);
      var k := if w == 1 then 0x100_0000_0000_0000 else if w == 2 then 0x1_0000_0000_0000 else if w == 4 then TWO32
        else 1;
      assert k * m == TWO64;
      assert n + TWO64 == (k - 1) * m + (n + m);
      ModuloIs(n + TWO64, k - 1, n + m, m);
    }
  }

  lemma CastLow(n: int, w: Width)
    requires InSigned(n, w)
    ensures n % Bound(w) == if n < 0 then n + Bound(w) else n
  {
    if w == 1 {
    } else if w == 2 {
    } else if w == 4 {
    } else {
      assert w == 8;
    }
  }

  /** A 64-bit number at the front of some bytes. */
  lemma Varint64InFront(v: nat, tail: Bytes)
    requires v < TWO64
    ensures VarintAt(Varint(v) + tail, 10) == Some((v, |Varint(v)|)) && Wrap(v, TWO64) == v
    ensures (Varint(v) + tail)[|Varint(v)|..] == tail
  {
    assert Pow128(5) == 128 * (128 * (128 * (128 * (128 * Pow128(0)))));
    assert Pow128(10) == 128 * (128 * (128 * (128 * (128 * Pow128(5)))));
    VarintRoundTrip(v, 10, tail);
  }

  /** pb_dec_varint. */
  method DecodeInt(stream: IStream, w: Width, ghost n: int, ghost tail: Bytes) returns (ok: bool, value: int)
    requires stream.Valid()
    modifies stream
    ensures stream.Valid() && stream.End() == old(stream.End()) && stream.left <= old(stream.left)
    ensures InSigned(n, w) && InSigned(n, 8) && old(stream.Rest()) == Varint(ToUnsigned(n)) + tail ==>
              ok && value == n && stream.Rest() == tail
    ensures ok ==> Holds(Int(w), Num(value)) && StandsFor(old(stream.Rest()), Int(w), Num(value), stream.Rest())
    ensures !ok ==> forall raw, m, after :: Took64(old(stream.Rest()), raw, after) && InSigned(m, w) ==>
                      !SameBits(raw, m, w)
  {
    hide VarintAt, Varint, Wrap;
    if InSigned(n, w) && InSigned(n, 8) { Varint64InFront(ToUnsigned(n), tail); CastKeeps(n, w); CastKeeps(n, 8); }
    var raw;
    ok, raw := stream.DecodeVarint();
    if !ok {
      return false, 0;
    }
    // integers of up to 32 bits may have been encoded without sign extension to 64
    var svalue := if w == 8 then Cast(raw, 8) else Cast(raw, 4);
    value := Cast(svalue, w);
    if InSigned(n, w) && w != 8 { NarrowIsInt32(n, w); CastKeeps(n, 4); }
    ok := value == svalue;
    BitsKept(raw, w);
    if ok {
      assert Took64(old(stream.Rest()), raw, stream.Rest());
    } else {
      forall raw', m, after | Took64(old(stream.Rest()), raw', after) && InSigned(m, w)
        ensures !SameBits(raw', m, w)
      {
        if SameBits(raw, m, w) { BitsDecide(raw, m, w); }
      }
    }
  }

  /** Casting keeps the bits. */
  lemma BitsKept(raw: nat, w: Width)
    ensures SameBits(raw, if w == 8 then Cast(raw, 8) else Cast(raw, 4), w)
  {
  }

  /** No other number in range has these bits. */
  lemma BitsDecide(raw: nat, n: int, w: Width)
    requires SameBits(raw, n, w) && InSigned(n, w)
    ensures (if w == 8 then Cast(raw, 8) else Cast(raw, 4)) == n && Cast(n, w) == n
  {
    CastKeeps(n, w);
    if w == 8 {
    } else {
      NarrowIsInt32(n, w);
      CastLow(n, 4);
    }
  }

  lemma NarrowIsInt32(n: int, w: Width)
    requires InSigned(n, w) && w != 8
    ensures InSigned(n, 4)
  {
  }

  /** pb_dec_uvarint. */
  method DecodeUInt(stream: IStream, w: Width, ghost n: int, ghost tail: Bytes) returns (ok: bool, value: int)
    requires stream.Valid()
    modifies stream
    ensures stream.Valid() && stream.End() == old(stream.End()) && stream.left <= old(stream.left)
    ensures InUnsigned(n, w) && old(stream.Rest()) == Varint(n) + tail ==> ok && value == n && stream.Rest() == tail
    ensures ok ==> Holds(UInt(w), Num(value)) && StandsFor(old(stream.Rest()), UInt(w), Num(value), stream.Rest())
    ensures !ok ==> forall m: nat, after :: Took64(old(stream.Rest()), m, after) ==> !InUnsigned(m, w)
  {
    hide VarintAt, Varint, Wrap;
    if InUnsigned(n, w) { Varint64InFront(n, tail); }
    var raw;
    ok, raw := stream.DecodeVarint();
    if !ok {
      return false, 0;
    }
    value := raw % Bound(w);
    ok := value == raw;
    if InUnsigned(raw, w) { ModuloIs(raw, 0, raw, Bound(w)); }
  }

  /** pb_decode_svarint undoes ZigZag. */
  function UnZigZag(u: nat): int {
    if u % 2 == 1 then -(u / 2) - 1 else u / 2
  }

  lemma ZigZagRoundTrip(n: int)
    requires InSigned(n, 8)
    ensures UnZigZag(ZigZag(n)) == n
  {
  }

  /** pb_dec_svarint. */
  method DecodeSInt(stream: IStream, w: Width, ghost n: int, ghost tail: Bytes) returns (ok: bool, value: int)
    requires stream.Valid()
    modifies stream
    ensures stream.Valid() && stream.End() == old(stream.End()) && stream.left <= old(stream.left)
    ensures InSigned(n, w) && InSigned(n, 8) && old(stream.Rest()) == Varint(ZigZag(n)) + tail ==>
              ok && value == n && stream.Rest() == tail
    ensures ok ==> Holds(SInt(w), Num(value)) && StandsFor(old(stream.Rest()), SInt(w), Num(value), stream.Rest())
    ensures !ok ==> forall raw, m, after :: Took64(old(stream.Rest()), raw, after) && InSigned(m, w) ==>
                      raw != if m < 0 then -2 * m - 1 else 2 * m
  {
    hide VarintAt, Varint, Wrap;
    if InSigned(n, w) && InSigned(n, 8) { Varint64InFront(ZigZag(n), tail); ZigZagRoundTrip(n); CastKeeps(n, w); }
    var raw;
    ok, raw := stream.DecodeVarint();
    if !ok {
      return false, 0;
    }
    var svalue := UnZigZag(raw);
    value := Cast(svalue, w);
    ok := value == svalue;
    assert Took64(old(stream.Rest()), raw, stream.Rest());
    if InSigned(svalue, w) { CastKeeps(svalue, w); }
  }

  /** pb_dec_bool. */
  method DecodeBool(stream: IStream, ghost n: int, ghost tail: Bytes) returns (ok: bool, value: int)
    requires stream.Valid()
    modifies stream
    ensures stream.Valid() && stream.End() == old(stream.End()) && stream.left <= old(stream.left)
    ensures 0 <= n <= 1 && old(stream.Rest()) == Varint(n) + tail ==> ok && value == n && stream.Rest() == tail
    ensures ok ==> Holds(Boolean, Num(value)) && StandsFor(old(stream.Rest()), Boolean, Num(value), stream.Rest())
  {
    hide VarintAt, Varint, Took;
    if 0 <= n <= 1 { VarintInFront(n, tail); }
    var raw, eof;
    ok, raw, eof := stream.DecodeVarint32();
    value := if raw != 0 then 1 else 0;
  }

  /** pb_dec_bytes, pb_dec_string and pb_dec_fixed_length_bytes: a length of at most `limit`, then the bytes. */
  method DecodeBytes(stream: IStream, limit: int, ghost bytes: Bytes, ghost tail: Bytes)
    returns (ok: bool, value: Bytes)
    requires stream.Valid()
    modifies stream
    ensures stream.Valid() && stream.End() == old(stream.End()) && stream.left <= old(stream.left)
    ensures |bytes| <= limit && |bytes| < TWO32 && old(stream.Rest()) == Varint(|bytes|) + bytes + tail ==>
              ok && value == bytes && stream.Rest() == tail
    ensures ok ==> |value| <= limit && |value| < TWO32 && Took(old(stream.Rest()), |value|, value + stream.Rest())
  {
    hide VarintAt, Varint, Took;
    if |bytes| < TWO32 && stream.Rest() == Varint(|bytes|) + bytes + tail {
      VarintInFront(|bytes|, bytes + tail);
      Regroup(Varint(|bytes|), bytes, tail);
      Front(bytes, tail);
    }
    value := [];
    var size, eof;
    ok, size, eof := stream.DecodeVarint32();
    if !ok {
      return;
    }
    if size > limit {
      return false, value;
    }
    ghost var behind := stream.Rest();
    ok, value := stream.Read(size);
    if ok { Parted(behind, size); }
  }

  lemma Regroup(a: Bytes, b: Bytes, c: Bytes)
    ensures a + b + c == a + (b + c)
  {
  }

  lemma Parted(s: Bytes, n: nat)
    requires n <= |s|
    ensures s == s[..n] + s[n..]
  {
  }

  lemma Front(a: Bytes, b: Bytes)
    ensures (a + b)[..|a|] == a && (a + b)[|a|..] == b
  {
  }

  method DecodeFixedBytes(stream: IStream, size: nat, ghost bytes: Bytes, ghost tail: Bytes)
    returns (ok: bool, value: Bytes)
    requires stream.Valid()
    modifies stream
    ensures stream.Valid() && stream.End() == old(stream.End()) && stream.left <= old(stream.left)
    ensures |bytes| == size < TWO32 && old(stream.Rest()) == Varint(|bytes|) + bytes + tail ==>
              ok && value == bytes && stream.Rest() == tail
    ensures ok ==> Holds(FixedBytes(size), Blob(value))
                   && StandsFor(old(stream.Rest()), FixedBytes(size), Blob(value), stream.Rest())
  {
    hide VarintAt, Varint, Took;
    if |bytes| < TWO32 && stream.Rest() == Varint(|bytes|) + bytes + tail {
      VarintInFront(|bytes|, bytes + tail);
      Regroup(Varint(|bytes|), bytes, tail);
      Front(bytes, tail);
    }
    value := [];
    var length, eof;
    ok, length, eof := stream.DecodeVarint32();
    if !ok {
      return;
    }
    if length == 0 {
      // an empty byte string stands for all zeros
      value := seq(size, _ => 0 as byte);
      return;
    }
    if length != size {
      return false, value;
    }
    ghost var behind := stream.Rest();
    ok, value := stream.Read(size);
    if ok { Parted(behind, size); }
  }

  /** PB_DECODERS for the types that can be packed. */
  method DecodeNumber(stream: IStream, t: LType, ghost n: int, ghost tail: Bytes) returns (ok: bool, value: int)
    requires stream.Valid() && Packable(t)
    modifies stream
    ensures stream.Valid() && stream.End() == old(stream.End()) && stream.left <= old(stream.left)
    ensures ok ==> Holds(t, Num(value)) && StandsFor(old(stream.Rest()), t, Num(value), stream.Rest())
    ensures TypedItem(t, Num(n)) && old(stream.Rest()) == EncItem(t, Num(n)).value + tail ==>
              ok && value == n && stream.Rest() == tail
  {
    hide Varint, StandsFor;
    match t
    case Boolean => ok, value := DecodeBool(stream, n, tail);
    case Int(w) => ok, value := DecodeInt(stream, w, n, tail);
    case UInt(w) => ok, value := DecodeUInt(stream, w, n, tail);
    case SInt(w) => ok, value := DecodeSInt(stream, w, n, tail);
    case Fixed32 => ok, value := DecodeFixed(stream, Fixed32, n, tail);
    case Fixed64 => ok, value := DecodeFixed(stream, Fixed64, n, tail);
  }

  /** pb_dec_fixed32 and pb_dec_fixed64. */
  method DecodeFixed(stream: IStream, t: LType, ghost n: int, ghost tail: Bytes) returns (ok: bool, value: int)
    requires stream.Valid() && (t.Fixed32? || t.Fixed64?)
    modifies stream
    ensures stream.Valid() && stream.End() == old(stream.End()) && stream.left <= old(stream.left)
    ensures ok <==> old(stream.left) >= if t.Fixed32? then 4 else 8
    ensures ok ==> Holds(t, Num(value)) && StandsFor(old(stream.Rest()), t, Num(value), stream.Rest())
    ensures TypedItem(t, Num(n)) && old(stream.Rest()) == EncItem(t, Num(n)).value + tail ==>
              ok && value == n && stream.Rest() == tail
  {
    var bytes;
    value := 0;
    if t.Fixed32? {
      if 0 <= n < TWO32 { Fixed32RoundTrip(n); }
      ok, bytes := stream.Read(4);
      if ok {
        value := DecodeFixed32(bytes);
        Fixed32Back(bytes);
      }
    } else {
      if 0 <= n < TWO64 { Fixed64RoundTrip(n); }
      ok, bytes := stream.Read(8);
      if ok {
        value := DecodeFixed64(bytes);
        Fixed64Back(bytes);
      }
    }
  }

  lemma Fixed32Back(b: Bytes)
    requires |b| == 4
    ensures EncodeFixed32(DecodeFixed32(b)) == b
  {
    var v, b0, b1, b2, b3 := DecodeFixed32(b), b[0] as int, b[1] as int, b[2] as int, b[3] as int;
    var high := b2 + 256 * b3;
    assert v == b0 + 256 * (b1 + 256 * high);
    assert v / 256 == b1 + 256 * high && v % 256 == b0;
    assert v / 0x1_0000 == high && (v / 256) % 256 == b1;
    assert v / 0x100_0000 == b3 && high % 256 == b2;
    assert EncodeFixed32(v) == [b0 as byte, b1 as byte, b2 as byte, b3 as byte];
  }

  lemma Fixed64Back(b: Bytes)
    requires |b| == 8
    ensures EncodeFixed64(DecodeFixed64(b)) == b
  {
    hide EncodeFixed32, DecodeFixed32;
    Fixed32Back(b[..4]);
    Fixed32Back(b[4..]);
  }

  /** PB_DECODERS for byte strings. */
  method DecodeBlob(stream: IStream, t: LType, ghost bytes: Bytes, ghost tail: Bytes) returns (ok: bool, value: Bytes)
    requires stream.Valid() && (t.BytesUpTo? || t.StringIn? || t.FixedBytes?)
    modifies stream
    ensures stream.Valid() && stream.End() == old(stream.End()) && stream.left <= old(stream.left)
    ensures ok ==> Holds(t, Blob(value)) && StandsFor(old(stream.Rest()), t, Blob(value), stream.Rest())
    ensures TypedItem(t, Blob(bytes)) && EncItem(t, Blob(bytes)).Some?
            && (t.StringIn? ==> |bytes| < t.dataSize <= TWO32) && (t.FixedBytes? ==> t.size < TWO32)
            && old(stream.Rest()) == EncItem(t, Blob(bytes)).value + tail ==>
              ok && value == bytes && stream.Rest() == tail
  {
    hide Varint, Took;
    match t
    case BytesUpTo(capacity) => ok, value := DecodeBytes(stream, capacity, bytes, tail);
    case StringIn(size) => ok, value := DecodeBytes(stream, size - 1, bytes, tail);
    case FixedBytes(size) => ok, value := DecodeFixedBytes(stream, size, bytes, tail);
  }
}
