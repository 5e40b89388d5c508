/**
 The Bloom filter policy (util/bloom.cc), and the wrapper that applies it to user keys (db/dbformat.cc:107-124).
 */
module Bloom {
  import opened Keys
  import opened Coding
  import opened Comparators

  // ---------- bits ----------

  /** The bit of a number at position `i`, from the low end. */
  predicate Bit(n: nat, i: nat) {
    if i == 0 then n % 2 == 1 else Bit(n / 2, i - 1)
  }

  /** n | (1 << i). */
  function WithBit(n: nat, i: nat): nat {
    if i == 0 then n + 1 - n % 2 else WithBit(n / 2, i - 1) * 2 + n % 2
  }

  function Pow2(k: nat): (r: nat)
    ensures r > 0
  {
    if k == 0 then 1 else 2 * Pow2(k - 1)
  }

  lemma {:induction false} WithBitSets(n: nat, i: nat, j: nat)
    ensures Bit(WithBit(n, i), j) <==> i == j || Bit(n, j)
  {
    if i > 0 && j > 0 { WithBitSets(n / 2, i - 1, j - 1); }
  }

  lemma {:induction false} WithBitFits(n: nat, i: nat, k: nat)
    requires i < k && n < Pow2(k)
    ensures WithBit(n, i) < Pow2(k)
  {
    var half := Pow2(k - 1);
    assert Pow2(k) == 2 * half;
    hide Pow2;
    Halves(n, WithBit(n / 2, if i > 0 then i - 1 else 0), half);
    if i > 0 {
      WithBitFits(n / 2, i - 1, k - 1);
    }
  }

  lemma Halves(n: nat, w: nat, half: nat)
    requires n < 2 * half
    ensures n / 2 < half && n + 1 - n % 2 < 2 * half && (w < half ==> w * 2 + n % 2 < 2 * half)
  {
  }

  lemma {:induction false} ZeroHasNone(i: nat)
    ensures !Bit(0, i)
  {
    if i > 0 { ZeroHasNone(i - 1); }
  }

  /** Bit `p` of a bit array. */
  predicate BitAt(bits: Bytes, p: nat) {
    p / 8 < |bits| && Bit(bits[p / 8] as nat, p % 8)
  }

  ghost predicate AllSet(bits: Bytes, ps: set<nat>) {
    forall p :: p in ps ==> BitAt(bits, p)
  }

  /** array[bitpos / 8] |= (1 << (bitpos % 8)). */
  method SetBit(bits: Bytes, p: nat) returns (r: Bytes)
    requires p < 8 * |bits|
    ensures |r| == |bits| && forall q: nat :: BitAt(r, q) <==> q == p || BitAt(bits, q)
  {
    WithBitFits(bits[p / 8] as nat, p % 8, 8);
    assert Pow2(8) == 256;
    r := bits[p / 8 := WithBit(bits[p / 8] as nat, p % 8) as byte];
    forall q: nat
      ensures BitAt(r, q) <==> q == p || BitAt(bits, q)
    {
      if q / 8 == p / 8 { WithBitSets(bits[p / 8] as nat, p % 8, q % 8); }
    }
  }

  // ---------- probes ----------

  /** A hash of a key: 32 bits, any function of its bytes. */
  type Hash = Bytes -> U32

  /** Rotate right by 17 bits. */
  function Delta(h: U32): U32 {
    h / 0x2_0000 + (h % 0x2_0000) * 0x8000
  }

  /** The `j`-th hash value of the double-hashing sequence. */
  function Probe(h: U32, j: nat): U32 {
    if j == 0 then h else (Probe(h, j - 1) + Delta(h)) % TWO32
  }

  /** The bits a key probes. */
  ghost function Probes(h: U32, k: nat, bits: nat): set<nat>
    requires bits > 0
  {
    if k == 0 then {} else Probes(h, k - 1, bits) + {Probe(h, k - 1) % bits}
  }

  ghost function AllProbes(hash: Hash, keys: seq<Bytes>, k: nat, bits: nat): set<nat>
    requires bits > 0
  {
    if keys == [] then {} else AllProbes(hash, keys[..|keys| - 1], k, bits) + Probes(hash(keys[|keys| - 1]), k, bits)
  }

  lemma {:induction false} KeyProbes(hash: Hash, keys: seq<Bytes>, k: nat, bits: nat, key: Bytes)
    requires bits > 0 && key in keys
    ensures Probes(hash(key), k, bits) <= AllProbes(hash, keys, k, bits)
  {
    if key != keys[|keys| - 1] { KeyProbes(hash, keys[..|keys| - 1], k, bits, key); }
  }

  // ---------- the policy ----------

  datatype Policy = Policy(hash: Hash, bitsPerKey: nat, k: nat) {
    predicate Valid() {
      1 <= k <= 30
    }

    /** How many bytes of bits a filter of `n` keys has. */
    function ByteCount(n: nat): (r: nat)
      ensures r >= 8
    {
      var bits := n * bitsPerKey;
      ((if bits < 64 then 64 else bits) + 7) / 8
    }

    /** A filter of these keys: its set bits are exactly those the keys probe; then the number of probes. */
    ghost predicate Summarizes(filter: Bytes, keys: seq<Bytes>) {
      var count := ByteCount(|keys|);
      && |filter| == count + 1 && filter[count] as int == k
      && forall p: nat :: BitAt(filter[..count], p) <==> p in AllProbes(hash, keys, k, 8 * count)
    }

    /** Does the filter say that this key may be among its keys? */
    ghost predicate Says(filter: Bytes, key: Bytes) {
      var len := |filter|;
      && len >= 2
      && (filter[len - 1] > 30
          || AllSet(filter[..len - 1], Probes(hash(key), filter[len - 1] as nat, 8 * (len - 1))))
    }

    /** No false negatives. */
    lemma KeysMatch(filter: Bytes, keys: seq<Bytes>, key: Bytes)
      requires Valid() && Summarizes(filter, keys) && key in keys
      ensures Says(filter, key)
    {
      KeyProbes(hash, keys, k, 8 * ByteCount(|keys|), key);
    }

    /** What the filter misses is not among its keys. */
    lemma SaysIff(filter: Bytes, keys: seq<Bytes>, key: Bytes)
      requires Valid() && Summarizes(filter, keys)
      ensures var bits := 8 * ByteCount(|keys|);
              Says(filter, key) <==> Probes(hash(key), k, bits) <= AllProbes(hash, keys, k, bits)
    {
    }

    /** CreateFilter: append a filter of the keys to `dst`. */
    method CreateFilter(keys: seq<Bytes>, dst: Bytes) returns (r: Bytes)
      requires Valid()
      ensures dst <= r && Summarizes(r[|dst|..], keys)
    {
      // tiny filters would say yes too often
      var bytes := ByteCount(|keys|);
      var bits := bytes * 8;
      var probed := seq(bytes, _ => 0 as byte);
      forall p: nat
        ensures !BitAt(probed, p)
      {
        ZeroHasNone(p % 8);
      }
      for i := 0 to |keys|
        invariant |probed| == bytes && forall p: nat :: BitAt(probed, p) <==> p in AllProbes(hash, keys[..i], k, bits)
      {
        assert keys[..i + 1][..i] == keys[..i];
        probed := AddProbes(probed, hash(keys[i]), bits);
      }
      assert keys[..|keys|] == keys;
      r := dst + probed + [k as byte];
      assert r[|dst|..][..bytes] == probed;
    }

    /** The loop over one key's probes. */
    method AddProbes(before: Bytes, hashed: U32, bits: nat) returns (r: Bytes)
      requires bits == 8 * |before| > 0
      ensures |r| == |before| && forall p: nat :: BitAt(r, p) <==> BitAt(before, p) || p in Probes(hashed, k, bits)
    {
      var h := hashed;
      var delta := Delta(h);
      r := before;
      for j := 0 to k
        invariant h == Probe(hashed, j) && |r| == |before|
        invariant forall p: nat :: BitAt(r, p) <==> BitAt(before, p) || p in Probes(hashed, j, bits)
      {
        var bitpos := h % bits;
        r := SetBit(r, bitpos);
        h := (h + delta) % TWO32;
      }
    }

    /** KeyMayMatch. */
    method KeyMayMatch(key: Bytes, filter: Bytes) returns (may: bool)
      ensures may == Says(filter, key)
    {
      var len := |filter|;
      if len < 2 { return false; }
      var bits := (len - 1) * 8;
      // the filter tells how many probes it was made with
      var probes := filter[len - 1] as nat;
      if probes > 30 { return true; }
      var hashed := hash(key);
      var h := hashed;
      var delta := Delta(h);
      for j := 0 to probes
        invariant h == Probe(hashed, j) && AllSet(filter[..len - 1], Probes(hashed, j, bits))
      {
        var bitpos := h % bits;
        if !Bit(filter[bitpos / 8] as nat, bitpos % 8) {
          assert !BitAt(filter[..len - 1], bitpos);
          ProbesGrow(hashed, j + 1, probes, bits);
          return false;
        }
        h := (h + delta) % TWO32;
      }
      return true;
    }
  }

  lemma {:induction false} ProbesGrow(h: U32, i: nat, k: nat, bits: nat)
    requires bits > 0 && i <= k
    ensures Probes(h, i, bits) <= Probes(h, k, bits)
  {
    if i < k { ProbesGrow(h, i, k - 1, bits); }
  }
}
