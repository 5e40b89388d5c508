/**
 Integer and string encodings shared by the file formats (util/coding.h, util/coding.cc).
 */
module Coding {
  import opened Keys

  const TWO32: nat := 0x1_0000_0000
  const TWO64: nat := 0x1_0000_0000_0000_0000

  type U32 = n: int | 0 <= n < TWO32
  type U64 = n: int | 0 <= n < TWO64

  // ---------- fixed width, little endian ----------

  function EncodeFixed32(v: U32): (r: Bytes)
    ensures |r| == 4
  {
    [(v % 256) as byte, (v / 256 % 256) as byte, (v / 0x1_0000 % 256) as byte, (v / 0x100_0000) as byte]
  }

  function DecodeFixed32(b: Bytes): U32
    requires |b| == 4
  {
    b[0] as int + b[1] as int * 256 + b[2] as int * 0x1_0000 + b[3] as int * 0x100_0000
  }

  lemma Fixed32RoundTrip(v: U32)
    ensures DecodeFixed32(EncodeFixed32(v)) == v
  {
    var q := v / 256;
    var r := q / 256;
    assert v == 256 * q + v % 256 && q == 256 * r + q % 256 && r == 256 * (r / 256) + r % 256;
    assert v / 0x1_0000 == r && v / 0x100_0000 == r / 256;
  }

  function EncodeFixed64(v: U64): (r: Bytes)
    ensures |r| == 8
  {
    EncodeFixed32(v % TWO32) + EncodeFixed32(v / TWO32)
  }

  function DecodeFixed64(b: Bytes): U64
    requires |b| == 8
  {
    DecodeFixed32(b[..4]) + DecodeFixed32(b[4..]) * TWO32
  }

  lemma Fixed64RoundTrip(v: U64)
    ensures DecodeFixed64(EncodeFixed64(v)) == v
  {
    Fixed32RoundTrip(v % TWO32);
    Fixed32RoundTrip(v / TWO32);
    assert EncodeFixed64(v)[..4] == EncodeFixed32(v % TWO32);
    assert EncodeFixed64(v)[4..] == EncodeFixed32(v / TWO32);
  }

  /** An array of fixed-width numbers. */
  function FixedAll(ns: seq<nat>): (r: Bytes)
    requires forall i :: 0 <= i < |ns| ==> ns[i] < TWO32
    ensures |r| == 4 * |ns|
  {
    if ns == [] then [] else FixedAll(ns[..|ns| - 1]) + EncodeFixed32(ns[|ns| - 1])
  }

  /** The array of fixed-width numbers, element by element. */
  lemma {:induction false} FixedAt(ns: seq<nat>, i: nat)
    requires (forall j :: 0 <= j < |ns| ==> ns[j] < TWO32) && i < |ns|
    ensures FixedAll(ns)[4 * i..4 * i + 4] == EncodeFixed32(ns[i])
    decreases |ns|
  {
    if i < |ns| - 1 {
      FixedAt(ns[..|ns| - 1], i);
      assert FixedAll(ns)[4 * i..4 * i + 4] == FixedAll(ns[..|ns| - 1])[4 * i..4 * i + 4];
    }
  }

  /** PutFixed32, of one number after another. */
  method PutFixedAll(dst: Bytes, ns: seq<nat>) returns (r: Bytes)
    requires forall i :: 0 <= i < |ns| ==> ns[i] < TWO32
    ensures r == dst + FixedAll(ns)
  {
    hide EncodeFixed32;
    r := dst;
    for i := 0 to |ns|
      invariant r == dst + FixedAll(ns[..i])
    {
      assert ns[..i + 1][..i] == ns[..i];
      r := r + EncodeFixed32(ns[i]);
    }
    assert ns[..|ns|] == ns;
  }

  /** Numbers as 32-bit fields hold them. */
  function Truncated(ns: seq<nat>): (r: seq<U32>)
    ensures |r| == |ns|
    ensures (forall i :: 0 <= i < |ns| ==> ns[i] < TWO32) ==> r == ns
  {
    seq(|ns|, i requires 0 <= i < |ns| => ns[i] % TWO32)
  }

  // ---------- base 128 ----------

  /** Seven bits a byte, low bits first; the high bit of a byte says that more follow. */
  function Varint(v: nat): (r: Bytes)
    ensures |r| >= 1
  {
    if v < 128 then [v as byte] else [(v % 128 + 128) as byte] + Varint(v / 128)
  }

  /** The number in front of `b`, read from at most `max` bytes, and how many bytes it takes. */
  function VarintAt(b: Bytes, max: nat): (r: Option<(nat, nat)>)
    ensures r.Some? ==> 1 <= r.value.1 <= |b| && r.value.1 <= max
  {
    if max == 0 || b == [] then None
    else if b[0] < 128 then Some((b[0] as nat, 1))
    else
      match VarintAt(b[1..], max - 1)
      case None => None
      case Some((v, n)) => Some((b[0] as nat - 128 + 128 * v, n + 1))
  }

  function Pow128(n: nat): (r: nat)
    ensures r >= 1
  {
    if n == 0 then 1 else 128 * Pow128(n - 1)
  }

  lemma {:induction false} VarintRoundTrip(v: nat, max: nat, rest: Bytes)
    requires max > 0 && v < Pow128(max)
    ensures VarintAt(Varint(v) + rest, max) == Some((v, |Varint(v)|))
  {
    if v >= 128 {
      assert max > 1 && v / 128 < Pow128(max - 1) by {
        assert Pow128(max) == 128 * Pow128(max - 1);
        assert Pow128(0) == 1;
      }
      VarintRoundTrip(v / 128, max - 1, rest);
      assert (Varint(v) + rest)[1..] == Varint(v / 128) + rest;
    }
  }

  /** Bytes behind a number do not matter. */
  lemma {:induction false} VarintExtends(b: Bytes, max: nat, tail: Bytes, max': nat)
    requires VarintAt(b, max).Some? && max <= max'
    ensures VarintAt(b + tail, max') == VarintAt(b, max)
  {
    assert (b + tail)[0] == b[0];
    if b[0] >= 128 {
      VarintExtends(b[1..], max - 1, tail, max' - 1);
      assert (b + tail)[1..] == b[1..] + tail;
    }
  }

  lemma {:induction false} VarintTrimmed(b: Bytes, max: nat, n: nat)
    requires VarintAt(b, max).Some? && VarintAt(b, max).value.1 <= n <= |b|
    ensures VarintAt(b[..n], max) == VarintAt(b, max)
  {
    if b[0] >= 128 {
      VarintTrimmed(b[1..], max - 1, n - 1);
      assert b[..n][1..] == b[1..][..n - 1];
    }
  }

  lemma {:induction false} VarintShort(v: nat, n: nat)
    requires n > 0 && v < Pow128(n)
    ensures |Varint(v)| <= n
  {
    var part := Pow128(n - 1);
    assert Pow128(n) == 128 * part;
    if v >= 128 {
      assert n > 1 by { assert Pow128(0) == 1; }
      VarintShort(v / 128, n - 1);
    }
  }

  function ReadVarint32(b: Bytes): (r: Option<(U32, Bytes)>)
    ensures r.Some? ==> |r.value.1| < |b|
  {
    match VarintAt(b, 5)
    case None => None
    case Some((v, n)) => Some((v % TWO32, b[n..]))
  }

  function ReadVarint64(b: Bytes): (r: Option<(U64, Bytes)>)
    ensures r.Some? ==> |r.value.1| < |b|
  {
    match VarintAt(b, 10)
    case None => None
    case Some((v, n)) => Some((v % TWO64, b[n..]))
  }

  lemma Varint32RoundTrip(v: U32, rest: Bytes)
    ensures ReadVarint32(Varint(v) + rest) == Some((v, rest))
  {
    assert Pow128(5) == 128 * (128 * (128 * (128 * (128 * Pow128(0)))));
    VarintRoundTrip(v, 5, rest);
  }

  lemma Varint64RoundTrip(v: U64, rest: Bytes)
    ensures ReadVarint64(Varint(v) + rest) == Some((v, rest))
  {
    assert Pow128(5) == 128 * (128 * (128 * (128 * (128 * Pow128(0)))));
    assert Pow128(10) == 128 * (128 * (128 * (128 * (128 * Pow128(5)))));
    VarintRoundTrip(v, 10, rest);
  }

  /** EncodeVarint32: one straight-line case per length. */
  method EncodeVarint32(v: U32) returns (r: Bytes)
    ensures r == Varint(v)
  {
    if v < 0x80 {
      r := [v as byte];
    } else if v < 0x4000 {
      r := [(v % 128 + 128) as byte, (v / 0x80) as byte];
    } else if v < 0x20_0000 {
      r := [(v % 128 + 128) as byte, (v / 0x80 % 128 + 128) as byte, (v / 0x4000) as byte];
    } else if v < 0x1000_0000 {
      r := [(v % 128 + 128) as byte, (v / 0x80 % 128 + 128) as byte, (v / 0x4000 % 128 + 128) as byte,
            (v / 0x20_0000) as byte];
    } else {
      r := [(v % 128 + 128) as byte, (v / 0x80 % 128 + 128) as byte, (v / 0x4000 % 128 + 128) as byte,
            (v / 0x20_0000 % 128 + 128) as byte, (v / 0x1000_0000) as byte];
    }
    ShortVarints(v);
  }

  lemma ShortVarints(v: U32)
    ensures v < 0x80 ==> Varint(v) == [v as byte]
    ensures 0x80 <= v < 0x4000 ==> Varint(v) == [(v % 128 + 128) as byte, (v / 0x80) as byte]
    ensures 0x4000 <= v < 0x20_0000 ==>
      Varint(v) == [(v % 128 + 128) as byte, (v / 0x80 % 128 + 128) as byte, (v / 0x4000) as byte]
    ensures 0x20_0000 <= v < 0x1000_0000 ==>
      Varint(v) == [(v % 128 + 128) as byte, (v / 0x80 % 128 + 128) as byte, (v / 0x4000 % 128 + 128) as byte,
                    (v / 0x20_0000) as byte]
    ensures 0x1000_0000 <= v ==>
      Varint(v) == [(v % 128 + 128) as byte, (v / 0x80 % 128 + 128) as byte, (v / 0x4000 % 128 + 128) as byte,
                    (v / 0x20_0000 % 128 + 128) as byte, (v / 0x1000_0000) as byte]
  {
    var a := v / 128;
    var b := a / 128;
    var c := b / 128;
    var d := c / 128;
    assert b == v / 0x4000 && c == v / 0x20_0000 && d == v / 0x1000_0000;
    assert v >= 128 ==> Varint(v) == [(v % 128 + 128) as byte] + Varint(a);
    assert a >= 128 ==> Varint(a) == [(a % 128 + 128) as byte] + Varint(b);
    assert b >= 128 ==> Varint(b) == [(b % 128 + 128) as byte] + Varint(c);
    assert c >= 128 ==> Varint(c) == [(c % 128 + 128) as byte] + Varint(d);
  }

  /** EncodeVarint64. */
  method EncodeVarint64(v: U64) returns (r: Bytes)
    ensures r == Varint(v)
  {
    var rest: nat := v;
    r := [];
    while rest >= 128
      invariant r + Varint(rest) == Varint(v)
    {
      assert Varint(rest) == [(rest % 128 + 128) as byte] + Varint(rest / 128);
      r := r + [(rest % 128 + 128) as byte];
      rest := rest / 128;
    }
    r := r + [rest as byte];
  }

  /** After `p` bytes: what is read so far, `exact`, plus `scale` times what is still ahead is the number. */
  ghost predicate Decoding(input: Bytes, max: nat, p: nat, exact: nat, scale: nat) {
    && p <= max && p <= |input|
    && var ahead := VarintAt(input[p..], max - p);
       match VarintAt(input, max)
       case None => ahead.None?
       case Some((v, n)) => ahead.Some? && v == exact + scale * ahead.value.0 && n == p + ahead.value.1
  }

  /** `low` put in at the place that `scale` marks. */
  function WithBits(exact: nat, low: nat, scale: nat): nat {
    exact + scale * low
  }

  lemma ReadingMore(input: Bytes, max: nat, p: nat, exact: nat, scale: nat)
    requires Decoding(input, max, p, exact, scale) && p < max && p < |input| && input[p] >= 128
    ensures Decoding(input, max, p + 1, WithBits(exact, input[p] as nat - 128, scale), scale * 128)
  {
    assert input[p..][1..] == input[p + 1..];
    var tail := VarintAt(input[p + 1..], max - p - 1);
    if tail.Some? { Shift(exact, scale, input[p] as nat - 128, tail.value.0); }
  }

  lemma Shift(exact: nat, scale: nat, low: nat, v: nat)
    ensures exact + scale * (low + 128 * v) == exact + scale * low + scale * 128 * v
  {
  }

  lemma ReadingLast(input: Bytes, max: nat, p: nat, exact: nat, scale: nat)
    requires Decoding(input, max, p, exact, scale) && p < max && p < |input| && input[p] < 128
    ensures VarintAt(input, max) == Some((WithBits(exact, input[p] as nat, scale), p + 1))
  {
  }

  lemma AtLeastOnce(k: int, m: nat)
    ensures k >= 1 ==> k * m >= m
    ensures k <= -1 ==> k * m + m <= 0
  {
  }

  lemma ModuloIs(x: nat, q: nat, r: nat, m: nat)
    requires r < m && x == q * m + r
    ensures x % m == r
  {
    var k := x / m;
    assert x == k * m + x % m;
    assert (q - k) * m == q * m - k * m;
    AtLeastOnce(q - k, m);
    assert q == k;
  }

  lemma AddModulo(a: nat, b: nat, m: nat)
    requires m > 0
    ensures (a % m + b) % m == (a + b) % m
  {
    var s := a % m + b;
    assert a == a / m * m + a % m && s == s / m * m + s % m;
    assert a + b == (a / m + s / m) * m + s % m;
    ModuloIs(a + b, a / m + s / m, s % m, m);
  }

  lemma ReadingDone(input: Bytes, max: nat, p: nat, exact: nat, scale: nat)
    requires Decoding(input, max, p, exact, scale) && (p == max || p == |input|)
    ensures VarintAt(input, max).None?
  {
  }

  /** `result |= low << shift` in an integer that wraps at `modulus`; `scale` is 1 << shift and the bits are clear. */
  function AddBits(result: nat, low: nat, scale: nat, modulus: nat): nat
    requires modulus > 0
  {
    WithBits(result, low, scale) % modulus
  }

  function Wrap(exact: nat, modulus: nat): nat
    requires modulus > 0
  {
    exact % modulus
  }

  lemma AddBitsWraps(exact: nat, low: nat, scale: nat, modulus: nat)
    requires modulus > 0
    ensures AddBits(Wrap(exact, modulus), low, scale, modulus) == Wrap(WithBits(exact, low, scale), modulus)
  {
    AddModulo(exact, scale * low, modulus);
  }

  /** The decoding loop of GetVarint32Ptr and GetVarint64Ptr: at most `max` bytes, modulo the width of the result. */
  method GetVarint(input: Bytes, max: nat, modulus: nat) returns (r: Option<(nat, Bytes)>)
    requires modulus > 0
    ensures VarintAt(input, max).None? ==> r.None?
    ensures VarintAt(input, max).Some? ==>
      r == Some((Wrap(VarintAt(input, max).value.0, modulus), input[VarintAt(input, max).value.1..]))
  {
    var result: nat, scale: nat, p: nat := 0, 1, 0;
    ghost var exact: nat := 0;
    assert input[0..] == input;
    ModuloIs(0, 0, 0, modulus);
    assert Decoding(input, max, p, exact, scale) && result == Wrap(exact, modulus);
    hide Decoding, VarintAt, AddBits, Wrap, WithBits;
    while p < max && p < |input|
      invariant p <= max && p <= |input| && Decoding(input, max, p, exact, scale) && result == Wrap(exact, modulus)
    {
      var b := input[p] as nat;
      if b >= 128 {
        ReadingMore(input, max, p, exact, scale);
        AddBitsWraps(exact, b - 128, scale, modulus);
        result := AddBits(result, b - 128, scale, modulus);
        exact := WithBits(exact, b - 128, scale);
        scale := scale * 128;
      } else {
        ReadingLast(input, max, p, exact, scale);
        AddBitsWraps(exact, b, scale, modulus);
        result := AddBits(result, b, scale, modulus);
        return Some((result, input[p + 1..]));
      }
      p := p + 1;
    }
    ReadingDone(input, max, p, exact, scale);
    r := None;
  }

  method GetVarint32(input: Bytes) returns (r: Option<(U32, Bytes)>)
    ensures r == ReadVarint32(input)
  {
    var v := GetVarint(input, 5, TWO32);
    r := if v.None? then None else Some((v.value.0 % TWO32, v.value.1));
  }

  method GetVarint64(input: Bytes) returns (r: Option<(U64, Bytes)>)
    ensures r == ReadVarint64(input)
  {
    var v := GetVarint(input, 10, TWO64);
    r := if v.None? then None else Some((v.value.0 % TWO64, v.value.1));
  }

  // ---------- length-prefixed strings ----------

  function LengthPrefixed(s: Bytes): Bytes
  {
    Varint(|s|) + s
  }

  function ReadLengthPrefixed(b: Bytes): (r: Option<(Bytes, Bytes)>)
    ensures r.Some? ==> |r.value.1| < |b|
  {
    match ReadVarint32(b)
    case None => None
    case Some((n, rest)) => if n <= |rest| then Some((rest[..n], rest[n..])) else None
  }

  lemma LengthPrefixedRoundTrip(s: Bytes, rest: Bytes)
    requires |s| < TWO32
    ensures ReadLengthPrefixed(LengthPrefixed(s) + rest) == Some((s, rest))
  {
    Varint32RoundTrip(|s|, s + rest);
    assert LengthPrefixed(s) + rest == Varint(|s|) + (s + rest);
    assert (s + rest)[..|s|] == s && (s + rest)[|s|..] == rest;
  }
}
