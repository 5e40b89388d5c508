/**
 Reading the wire format (nanopb/pb_decode.c:82-395): input streams, varints, tags and length-limited substreams.
 */
module PbStream {
  import opened Keys
  import opened Coding

  /** pb_istream_t over a memory buffer: `left` bytes may be read from `pos` on. */
  class IStream {
    const data: Bytes
    var pos: nat
    var left: nat

    ghost predicate Valid()
      reads this
    {
      pos + left <= |data|
    }

    /** The bytes that can still be read. */
    ghost function Rest(): Bytes
      requires Valid()
      reads this
    {
      data[pos..pos + left]
    }

    ghost function End(): nat
      reads this
    {
      pos + left
    }

    constructor (data: Bytes, pos: nat, left: nat)
      requires pos + left <= |data|
      ensures Valid() && this.data == data && this.pos == pos && this.left == left
    {
      this.data, this.pos, this.left := data, pos, left;
    }

    /** pb_read; without a destination it skips. */
    method Read(count: nat) returns (ok: bool, bytes: Bytes)
      requires Valid()
      modifies this
      ensures Valid() && End() == old(End()) && left <= old(left)
      ensures ok <==> count <= old(left)
      ensures ok ==> bytes == old(Rest())[..count] && Rest() == old(Rest())[count..]
      ensures !ok ==> pos == old(pos) && left == old(left)
    {
      if left < count {
        return false, [];
      }
      bytes := data[pos..pos + count];
      pos, left := pos + count, left - count;
      ok := true;
    }

    /** pb_readbyte. */
    method ReadByte() returns (ok: bool, b: byte)
      requires Valid()
      modifies this
      ensures Valid() && End() == old(End()) && left <= old(left)
      ensures ok <==> old(left) > 0
      ensures ok ==> left == old(left) - 1 && b == old(Rest())[0] && Rest() == old(Rest())[1..]
      ensures !ok ==> pos == old(pos) && left == old(left)
    {
      b := 0;
      if left == 0 {
        return false, b;
      }
      b := data[pos];
      pos, left := pos + 1, left - 1;
      ok := true;
    }

    /** pb_decode_varint: 64 bits, at most ten bytes. */
    method DecodeVarint() returns (ok: bool, value: nat)
      requires Valid()
      modifies this
      ensures Valid() && End() == old(End()) && left <= old(left)
      ensures ok <==> VarintAt(old(Rest()), 10).Some?
      ensures ok ==> value == Wrap(VarintAt(old(Rest()), 10).value.0, TWO64)
                     && Rest() == old(Rest())[VarintAt(old(Rest()), 10).value.1..]
    {
      ghost var input := Rest();
      var scale: nat, n: nat := 1, 0;
      ghost var exact: nat := 0;
      value := 0;
      assert input[0..] == input && Decoding(input, 10, n, exact, scale) && value == Wrap(exact, TWO64);
      hide Decoding, VarintAt, AddBits, Wrap, WithBits;
      while true
        invariant Valid() && End() == old(End()) && n <= |input| && Rest() == input[n..] && n <= 10
        invariant Decoding(input, 10, n, exact, scale) && value == Wrap(exact, TWO64)
        decreases 10 - n
      {
        if n >= 10 {
          ReadingDone(input, 10, n, exact, scale);
          return false, 0;
        }
        var more, b := ReadByte();
        if !more {
          ReadingDone(input, 10, n, exact, scale);
          return false, 0;
        }
        assert b == input[n];
        var low := if b >= 128 then b as nat - 128 else b as nat;
        AddBitsWraps(exact, low, scale, TWO64);
        value := AddBits(value, low, scale, TWO64);
        if b < 128 {
          ReadingLast(input, 10, n, exact, scale);
          return true, value;
        }
        ReadingMore(input, 10, n, exact, scale);
        exact, scale, n := WithBits(exact, low, scale), scale * 128, n + 1;
      }
    }

    /** The loop body of pb_decode_varint32_eof: what one more byte adds, or that it overflows 32 bits. */
    static method AddByte(b: byte, bitpos: nat, value: nat, scale: nat,
                          ghost input: Bytes, ghost n: nat, ghost exact: nat, ghost unit: nat)
      returns (ok: bool, value': nat, scale': nat, ghost exact': nat, ghost unit': nat)
      requires 1 <= n < |input| && b == input[n] && bitpos == 7 * n && value == Wrap(exact, TWO32)
      requires Taking(input, n, exact, unit, true) && (n <= 5 ==> scale == unit)
      ensures ok ==> Taking(input, n + 1, exact', unit', b >= 128) && value' == Wrap(exact', TWO32) < TWO32
      ensures ok ==> n + 1 <= 5 ==> scale' == unit'
      ensures VarintAt(input, 5).Some? && VarintAt(input, 5).value.0 < TWO32 && Read32(input, n, value, scale, true) ==>
                ok && Read32(input, n + 1, value', scale', b >= 128)
    {
      hide Decoding, VarintAt, AddBits, WithBits, Pow128, Taking;
      ghost var good := VarintAt(input, 5).Some? && VarintAt(input, 5).value.0 < TWO32
        && Read32(input, n, value, scale, true);
      var low := if b >= 128 then b as nat - 128 else b as nat;
      value', scale', exact', unit' := value, scale, WithBits(exact, low, unit), unit * 128;
      if good { AheadFits(input, n, value, scale); }
      TakingOn(input, n, exact, unit);
      if bitpos >= 32 {
        var signExtension := if bitpos < 63 then 0xff else 0x01;
        if low != 0 && (value / 0x8000_0000 == 0 || b as nat != signExtension) {
          return false, value', scale', exact', unit';
        }
        HighBits(input, n, exact, unit, low);
      } else {
        AddBitsWraps(exact, low, unit, TWO32);
        if good { NextFits(input, n, value, scale); }
        value' := AddBits(value, low, scale, TWO32);
        scale' := scale * 128;
      }
      ok := true;
    }

    /**
     pb_decode_varint32_eof: a 32-bit value.  Longer encodings are accepted when their excess bits are zero or a sign
     extension; `eof` is set when there was nothing to read.
     */
    method DecodeVarint32() returns (ok: bool, value: nat, eof: bool)
      requires Valid()
      modifies this
      ensures Valid() && End() == old(End()) && left <= old(left)
      ensures eof <==> old(left) == 0
      ensures ok ==> left < old(left) && value < TWO32
      ensures VarintAt(old(Rest()), 5).Some? && VarintAt(old(Rest()), 5).value.0 < TWO32 ==>
                ok && value == VarintAt(old(Rest()), 5).value.0
                  && Rest() == old(Rest())[VarintAt(old(Rest()), 5).value.1..]
      ensures ok ==> Took(old(Rest()), value, Rest())
    {
      hide Taking, Took;
      ghost var input := Rest();
      ghost var good := VarintAt(input, 5).Some? && VarintAt(input, 5).value.0 < TWO32;
      var b;
      ok, b := ReadByte();
      eof := false;
      if !ok {
        return false, 0, left == 0;
      }
      if b < 128 {
        TookByte(input);
        return true, b as nat, eof;
      }
      var bitpos, scale: nat := 7, 128;
      ghost var n: nat, exact: nat, unit: nat := 1, b as nat - 128, 128;
      value := b as nat - 128;
      assert input[0..] == input && Decoding(input, 5, 0, 0, 1);
      ReadingMore(input, 5, 0, 0, 1);
      FirstOfMany(input);
      var more := true;
      hide Decoding, VarintAt, AddBits, WithBits, Pow128, Wrap;
      while more
        invariant Taking(input, n, exact, unit, more) && value == Wrap(exact, TWO32) && (n <= 5 ==> scale == unit)
        invariant Valid() && End() == old(End()) && left < old(left) && 1 <= n <= |input| && Rest() == input[n..]
        invariant bitpos == 7 * n && value < TWO32 && b == input[n - 1] && (more <==> b >= 128)
        invariant good ==> Read32(input, n, value, scale, more)
        decreases left, more
      {
        if good { AheadFits(input, n, value, scale); }
        ok, b := ReadByte();
        if !ok {
          return false, 0, eof;
        }
        ok, value, scale, exact, unit := AddByte(b, bitpos, value, scale, input, n, exact, unit);
        if !ok {
          return false, 0, eof;
        }
        bitpos, n := bitpos + 7, n + 1;
        more := b >= 128;
      }
      if bitpos == 35 && b as nat % 128 / 16 != 0 {
        return false, 0, eof;
      }
      ok := true;
      TakenAll(input, n, exact, unit, value);
    }

    /** pb_skip_varint: a number of any length. */
    method SkipVarint() returns (ok: bool)
      requires Valid()
      modifies this
      ensures Valid() && End() == old(End()) && left <= old(left)
      ensures ok <==> VarintAt(old(Rest()), |old(Rest())|).Some?
      ensures ok ==> Rest() == old(Rest())[VarintAt(old(Rest()), |old(Rest())|).value.1..]
    {
      hide Decoding, VarintAt, WithBits;
      ghost var input := Rest();
      ghost var n: nat, exact: nat, unit: nat := 0, 0, 1;
      ReadingStarts(input, |input|);
      var more := true;
      while more
        invariant Valid() && End() == old(End()) && left <= old(left) && n <= |input| && Rest() == input[n..]
        invariant more ==> Decoding(input, |input|, n, exact, unit)
        invariant !more ==> VarintAt(input, |input|) == Some((exact, n))
        decreases left, more
      {
        var b;
        ok, b := ReadByte();
        if !ok {
          ReadingDone(input, |input|, n, exact, unit);
          return false;
        }
        var low := if b >= 128 then b as nat - 128 else b as nat;
        if b >= 128 {
          ReadingMore(input, |input|, n, exact, unit);
        } else {
          ReadingLast(input, |input|, n, exact, unit);
        }
        exact, unit, n := WithBits(exact, low, unit), unit * 128, n + 1;
        more := b >= 128;
      }
      ok := true;
    }

    /** pb_skip_string: a length and as many bytes. */
    method SkipString() returns (ok: bool)
      requires Valid()
      modifies this
      ensures Valid() && End() == old(End()) && left <= old(left)
      ensures ok ==> exists size: nat, rest :: Took(old(Rest()), size, rest) && size <= |rest| && Rest() == rest[size..]
      ensures VarintAt(old(Rest()), 5).Some? && VarintAt(old(Rest()), 5).value.0 < TWO32 ==>
                var (size, n) := VarintAt(old(Rest()), 5).value;
                && (ok <==> n + size <= |old(Rest())|) && (ok ==> Rest() == old(Rest())[n + size..])
    {
      hide VarintAt, Took;
      var length, eof, skipped;
      ok, length, eof := DecodeVarint32();
      if ok {
        ok, skipped := Read(length);
      }
    }

    /** pb_skip_field: what the wire type says is there, and no more. */
    method SkipField(wireType: nat) returns (ok: bool)
      requires Valid()
      modifies this
      ensures Valid() && End() == old(End()) && left <= old(left)
      ensures ok ==> wireType in {0, 1, 2, 5}
      ensures wireType == 0 ==>
                && (ok <==> VarintAt(old(Rest()), |old(Rest())|).Some?)
                && (ok ==> Rest() == old(Rest())[VarintAt(old(Rest()), |old(Rest())|).value.1..])
      ensures wireType == 1 ==> (ok <==> |old(Rest())| >= 8) && (ok ==> Rest() == old(Rest())[8..])
      ensures wireType == 5 ==> (ok <==> |old(Rest())| >= 4) && (ok ==> Rest() == old(Rest())[4..])
      ensures wireType == 2 && ok ==>
                exists size: nat, rest :: Took(old(Rest()), size, rest) && size <= |rest| && Rest() == rest[size..]
      ensures wireType == 2 && VarintAt(old(Rest()), 5).Some? && VarintAt(old(Rest()), 5).value.0 < TWO32 ==>
                var (size, n) := VarintAt(old(Rest()), 5).value;
                && (ok <==> n + size <= |old(Rest())|) && (ok ==> Rest() == old(Rest())[n + size..])
    {
      hide VarintAt, Took;
      var skipped;
      if wireType == 0 {
        ok := SkipVarint();
      } else if wireType == 1 {
        ok, skipped := Read(8);
      } else if wireType == 2 {
        ok := SkipString();
      } else if wireType == 5 {
        ok, skipped := Read(4);
      } else {
        ok := false;
      }
    }

    /**
     pb_decode_tag: a field number and a wire type; a zero byte or the end of the stream is the end of the message.
     */
    method DecodeTag() returns (ok: bool, wireType: nat, tag: nat, eof: bool)
      requires Valid()
      modifies this
      ensures Valid() && End() == old(End()) && left <= old(left)
      ensures !ok && eof ==> old(left) == 0 || Took(old(Rest()), 0, Rest())
      ensures ok ==> left < old(left) && wireType < 8 && Took(old(Rest()), 8 * tag + wireType, Rest())
      ensures VarintAt(old(Rest()), 5).Some? && 0 < VarintAt(old(Rest()), 5).value.0 < TWO32 ==>
                && ok && tag == VarintAt(old(Rest()), 5).value.0 / 8 && wireType == VarintAt(old(Rest()), 5).value.0 % 8
                && Rest() == old(Rest())[VarintAt(old(Rest()), 5).value.1..]
    {
      hide VarintAt;
      wireType, tag := 0, 0;
      var temp;
      ok, temp, eof := DecodeVarint32();
      if !ok {
        return;
      }
      if temp == 0 {
        return false, 0, 0, true;
      }
      tag, wireType := temp / 8, temp % 8;
    }

    /**
     pb_make_string_substream: a stream over the length-delimited data at the front.  Until it is closed, this stream
     stays where it is and only gives up the bytes.
     */
    method MakeSubstream() returns (ok: bool, sub: IStream)
      requires Valid()
      modifies this
      ensures Valid() && End() <= old(End()) && left <= old(left) && fresh(sub) && sub.Valid() && sub.data == data
      ensures ok ==> sub.End() + left == old(End()) && left + sub.left < old(left)
      ensures VarintAt(old(Rest()), 5).Some? && VarintAt(old(Rest()), 5).value.0 < TWO32
              && VarintAt(old(Rest()), 5).value.1 + VarintAt(old(Rest()), 5).value.0 <= |old(Rest())| ==>
                var size, rest := VarintAt(old(Rest()), 5).value.0, old(Rest())[VarintAt(old(Rest()), 5).value.1..];
                ok && sub.Rest() == rest[..size] && data[sub.End()..old(End())] == rest[size..]
    {
      hide VarintAt, Took;
      sub := new IStream(data, 0, 0);
      var size, eof;
      ok, size, eof := DecodeVarint32();
      if !ok {
        return;
      }
      if left < size {
        return false, sub;
      }
      ghost var rest := Rest();
      sub := new IStream(data, pos, size);
      left := left - size;
      assert sub.Rest() == rest[..size] && data[sub.End()..old(End())] == rest[size..];
    }

    /** pb_close_string_substream: skip what is left of the substream and go on behind it. */
    method CloseSubstream(sub: IStream) returns (ok: bool)
      requires Valid() && sub.Valid() && sub.data == data && sub != this && sub.End() + left <= |data|
      modifies this, sub
      ensures ok && Valid() && pos == old(sub.End()) && left == old(left)
    {
      ok := true;
      if sub.left > 0 {
        var skipped;
        ok, skipped := sub.Read(sub.left);
      }
      pos := sub.pos;
    }
  }

  /** A 32-bit number at the front of some bytes. */
  lemma VarintInFront(v: nat, tail: Bytes)
    requires v < TWO32
    ensures VarintAt(Varint(v) + tail, 5) == Some((v, |Varint(v)|))
    ensures (Varint(v) + tail)[|Varint(v)|..] == tail
  {
    assert Pow128(5) == 128 * (128 * (128 * (128 * (128 * Pow128(0)))));
    VarintRoundTrip(v, 5, tail);
  }

  lemma ReadingStarts(input: Bytes, max: nat)
    requires max == |input|
    ensures Decoding(input, max, 0, 0, 1)
  {
    assert input[0..] == input;
  }

  /** A number was read off the front, whatever its length, modulo 2^32. */
  ghost predicate Took(before: Bytes, value: nat, after: Bytes) {
    var r := VarintAt(before, |before|);
    r.Some? && value == r.value.0 % TWO32 && after == before[r.value.1..]
  }

  lemma TookByte(input: Bytes)
    requires input != [] && input[0] < 128
    ensures Took(input, input[0] as nat, input[1..])
  {
  }

  /** `n` bytes of a number of any length have been read, or all of it. */
  ghost predicate Taking(input: Bytes, n: nat, exact: nat, unit: nat, more: bool) {
    && n > 0 && unit == Pow128(n)
    && if more then Decoding(input, |input|, n, exact, unit) else VarintAt(input, |input|) == Some((exact, n))
  }

  lemma FirstOfMany(input: Bytes)
    requires input != [] && input[0] >= 128
    ensures Taking(input, 1, input[0] as nat - 128, 128, true)
    ensures Wrap(input[0] as nat - 128, TWO32) == input[0] as nat - 128
  {
    assert input[0..] == input && Decoding(input, |input|, 0, 0, 1);
    ReadingMore(input, |input|, 0, 0, 1);
    assert Pow128(1) == 128 * Pow128(0);
  }

  lemma TakingOn(input: Bytes, n: nat, exact: nat, unit: nat)
    requires Taking(input, n, exact, unit, true) && n < |input|
    ensures var low := if input[n] >= 128 then input[n] as nat - 128 else input[n] as nat;
            Taking(input, n + 1, WithBits(exact, low, unit), unit * 128, input[n] >= 128)
  {
    hide Decoding, VarintAt, WithBits, Pow128;
    NextPower(n);
    if input[n] >= 128 {
      ReadingMore(input, |input|, n, exact, unit);
    } else {
      ReadingLast(input, |input|, n, exact, unit);
    }
  }

  lemma {:induction false} PowerIsHigh(n: nat)
    requires n >= 5
    ensures Pow128(n) % TWO32 == 0
  {
    if n == 5 {
      assert Pow128(5) == 128 * (128 * (128 * (128 * (128 * Pow128(0)))));
    } else {
      PowerIsHigh(n - 1);
      var k := Pow128(n - 1) / TWO32;
      assert Pow128(n - 1) == k * TWO32;
      ModuloIs(Pow128(n), 128 * k, 0, TWO32);
    }
  }

  /** Bits from the sixth byte on lie above the 32 that are kept. */
  lemma HighBits(input: Bytes, n: nat, exact: nat, unit: nat, low: nat)
    requires n >= 5 && Taking(input, n, exact, unit, true)
    ensures Wrap(WithBits(exact, low, unit), TWO32) == Wrap(exact, TWO32)
  {
    PowerIsHigh(n);
    var k := unit / TWO32;
    var q := exact / TWO32;
    assert unit * low == k * low * TWO32;
    ModuloIs(exact + unit * low, q + k * low, exact % TWO32, TWO32);
  }

  lemma TakenAll(input: Bytes, n: nat, exact: nat, unit: nat, value: nat)
    requires Taking(input, n, exact, unit, false) && n <= |input| && value == Wrap(exact, TWO32)
    ensures Took(input, value, input[n..])
  {
  }

  /** In the middle of, or just past, an encoding of at most five bytes of a 32-bit number. */
  ghost predicate Read32(input: Bytes, n: nat, value: nat, scale: nat, more: bool) {
    && 1 <= n <= 5 && n <= |input|
    && (more ==> Decoding(input, 5, n, value, scale) && scale == Pow128(n))
    && (!more ==> VarintAt(input, 5) == Some((value, n)) && (n == 5 ==> input[4] < 16))
  }

  lemma NextFits(input: Bytes, n: nat, value: nat, scale: nat)
    requires Read32(input, n, value, scale, true) && VarintAt(input, 5).Some? && VarintAt(input, 5).value.0 < TWO32
    ensures n < |input|
    ensures var low := if input[n] >= 128 then input[n] as nat - 128 else input[n] as nat;
            Read32(input, n + 1, AddBits(value, low, scale, TWO32), scale * 128, input[n] >= 128)
  {
    AheadFits(input, n, value, scale);
    hide Decoding, VarintAt, WithBits, AddBits, Pow128;
    var low := if input[n] >= 128 then input[n] as nat - 128 else input[n] as nat;
    if input[n] >= 128 {
      ReadingMore(input, 5, n, value, scale);
      AheadFits32(input, n + 1, WithBits(value, low, scale), scale * 128);
      NextPower(n);
    } else {
      ReadingLast(input, 5, n, value, scale);
      LastByteFits(n, value, scale, low);
    }
    NoWrap(value, low, scale);
  }

  lemma NextPower(n: nat)
    ensures Pow128(n + 1) == Pow128(n) * 128
  {
  }

  lemma NoWrap(value: nat, low: nat, scale: nat)
    ensures WithBits(value, low, scale) < TWO32 ==> AddBits(value, low, scale, TWO32) == WithBits(value, low, scale)
  {
  }

  lemma ProductNonNegative(a: nat, b: nat)
    ensures a * b >= 0
  {
  }

  /** What has been read of a 32-bit number fits 32 bits, and more of it is ahead. */
  lemma AheadFits32(input: Bytes, n: nat, value: nat, scale: nat)
    requires Decoding(input, 5, n, value, scale) && VarintAt(input, 5).Some? && VarintAt(input, 5).value.0 < TWO32
    ensures n < 5 && n < |input| && value < TWO32
  {
    var ahead := VarintAt(input[n..], 5 - n);
    ProductNonNegative(scale, ahead.value.0);
  }

  lemma AheadFits(input: Bytes, n: nat, value: nat, scale: nat)
    requires Read32(input, n, value, scale, true) && VarintAt(input, 5).Some? && VarintAt(input, 5).value.0 < TWO32
    ensures n < 5 && n < |input|
  {
    AheadFits32(input, n, value, scale);
  }

  /** The fifth byte of a 32-bit number holds four bits. */
  lemma LastByteFits(n: nat, value: nat, scale: nat, low: nat)
    requires n < 5 && scale == Pow128(n) && WithBits(value, low, scale) < TWO32
    ensures n == 4 ==> low < 16
  {
    if n == 4 {
      assert Pow128(4) == 128 * (128 * (128 * (128 * Pow128(0))));
    }
  }
}
