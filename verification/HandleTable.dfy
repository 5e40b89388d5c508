/**
 The cache's hash table (util/cache.cc:41-147): an array of buckets, each a chain of entries linked through the
 entries themselves, that grows with the number of entries.
 */
module HandleTables {
  import opened Keys

  /** A cache entry; what a client gets when it looks one up. */
  class Handle {
    const key: Bytes
    const hash: nat
    const value: int
    const charge: nat
    var nextHash: Handle?
    var next: Handle?
    var prev: Handle?
    var inCache: bool
    var refs: nat

    constructor (key: Bytes, hash: nat, value: int, charge: nat)
      ensures this.key == key && this.hash == hash && this.value == value && this.charge == charge
      ensures !inCache && refs == 1
    {
      this.key, this.hash, this.value, this.charge := key, hash, value, charge;
      nextHash, next, prev, inCache, refs := null, null, null, false, 1;
    }
  }

  predicate Matches(h: Handle, key: Bytes, hash: nat) {
    h.hash == hash && h.key == key
  }

  ghost predicate NoDup<T>(s: seq<T>) {
    forall i, j :: 0 <= i < j < |s| ==> s[i] != s[j]
  }

  ghost predicate PowerOfTwo(n: nat) {
    n == 1 || (n > 1 && n % 2 == 0 && PowerOfTwo(n / 2))
  }

  /** hash & (length - 1), for a length that is a power of two. */
  function Bucket(hash: nat, length: nat): (b: nat)
    requires length > 0
    ensures b < length
  {
    hash % length
  }

  function Nth(c: seq<Handle>, j: nat): Handle? {
    if j < |c| then c[j] else null
  }

  /** `first` is the head of a chain of exactly the entries `c`. */
  ghost predicate IsChain(first: Handle?, c: seq<Handle>)
    reads c`nextHash
  {
    first == Nth(c, 0) && forall j {:trigger c[j].nextHash} :: 0 <= j < |c| ==> c[j].nextHash == Nth(c, j + 1)
  }

  /** No two entries of a set answer to the same key and hash. */
  ghost predicate DistinctIds(members: set<Handle>) {
    forall g, h :: g in members && h in members && Matches(g, h.key, h.hash) ==> g == h
  }

  /** Chain `c` of bucket `b` holds, once each, exactly the members whose hash selects that bucket. */
  ghost predicate Holds(c: seq<Handle>, b: nat, length: nat, members: set<Handle>)
    requires length > 0
  {
    && NoDup(c) && (forall h :: h in c ==> h in members && Bucket(h.hash, length) == b)
    && (forall h :: h in members && Bucket(h.hash, length) == b ==> h in c)
  }

  /** Every member is in the bucket its hash selects, and nothing else is. */
  ghost predicate Buckets(chains: seq<seq<Handle>>, members: set<Handle>) {
    |chains| > 0 && forall b :: 0 <= b < |chains| ==> Holds(chains[b], b, |chains|, members)
  }

  /** Where a pointer to an entry is stored: LRUHandle**. */
  datatype Slot = InBucket(index: nat) | NextOf(handle: Handle)

  /** The slot that holds the pointer to the `j`-th entry of chain `b`. */
  ghost function SlotAt(chains: seq<seq<Handle>>, b: nat, j: nat): Slot
    requires b < |chains| && j <= |chains[b]|
  {
    if j == 0 then InBucket(b) else NextOf(chains[b][j - 1])
  }

  /** The buckets from number `from` on are the heads of these chains. */
  ghost predicate LinkedFrom(list: array<Handle?>, chains: seq<seq<Handle>>, members: set<Handle>, from: nat)
    reads list, members`nextHash
  {
    && |chains| == list.Length
    && forall b :: from <= b < |chains| ==> (forall h :: h in chains[b] ==> h in members) && IsChain(list[b], chains[b])
  }

  class HandleTable {
    var elems: nat
    /** The buckets; length_ is the array's length. */
    var list: array<Handle?>
    ghost var chains: seq<seq<Handle>>
    ghost var members: set<Handle>

    ghost predicate Linked()
      reads this, list, members`nextHash
    {
      LinkedFrom(list, chains, members, 0)
    }

    ghost predicate Valid()
      reads this, list, members`nextHash
    {
      && Buckets(chains, members) && DistinctIds(members) && Linked()
      && PowerOfTwo(list.Length) && elems == |members| <= list.Length
    }

    constructor ()
      ensures Valid() && members == {} && fresh(list)
    {
      var four: nat := 4;
      list := new Handle?[4](_ => null);
      elems, chains, members := 0, seq(4, _ => []), {};
      assert PowerOfTwo(four / 2);
    }

    /** The pointer stored in a slot. */
    function Load(slot: Slot): Handle?
      requires slot.InBucket? ==> slot.index < list.Length
      reads this, list, if slot.NextOf? then {slot.handle} else {}
    {
      match slot
      case InBucket(i) => list[i]
      case NextOf(h) => h.nextHash
    }

    /** FindPointer. */
    method FindPointer(key: Bytes, hash: nat) returns (slot: Slot, ghost b: nat, ghost j: nat)
      requires Valid()
      ensures b == Bucket(hash, list.Length) && j <= |chains[b]| && slot == SlotAt(chains, b, j)
      ensures j < |chains[b]| ==> Load(slot) == chains[b][j] && Matches(chains[b][j], key, hash)
      ensures j == |chains[b]| ==> Load(slot) == null && forall h :: h in members ==> !Matches(h, key, hash)
    {
      assert Holds(chains[Bucket(hash, list.Length)], Bucket(hash, list.Length), list.Length, members);
      hide Buckets, PowerOfTwo, DistinctIds;
      b, j := Bucket(hash, list.Length), 0;
      slot := InBucket(Bucket(hash, list.Length));
      var h := list[Bucket(hash, list.Length)];
      while h != null && !(h.hash == hash && h.key == key)
        invariant j <= |chains[b]| && slot == SlotAt(chains, b, j) && h == Nth(chains[b], j) == Load(slot)
        invariant forall k :: 0 <= k < j ==> !Matches(chains[b][k], key, hash)
        decreases |chains[b]| - j
      {
        slot := NextOf(h);
        h := h.nextHash;
        j := j + 1;
      }
    }

    /** Lookup. */
    method Lookup(key: Bytes, hash: nat) returns (h: Handle?)
      requires Valid()
      ensures h != null ==> h in members && h.key == key && h.hash == hash
      ensures h == null ==> forall g :: g in members ==> g.key != key || g.hash != hash
    {
      var slot, b, j := FindPointer(key, hash);
      h := Load(slot);
    }

    /** Store through a slot: chain `b` keeps its first `j` entries and goes on as the chain `d` that starts at `p`. */
    method Store(slot: Slot, p: Handle?, ghost b: nat, ghost j: nat, ghost d: seq<Handle>)
      requires Linked() && b < |chains| && j <= |chains[b]| && slot == SlotAt(chains, b, j)
      requires IsChain(p, d) && Separate(chains, b, j, d)
      modifies list, (if slot.NextOf? then {slot.handle} else {})`nextHash
      ensures forall i :: 0 <= i < |chains| ==> IsChain(list[i], if i == b then chains[b][..j] + d else chains[i])
    {
      ghost var c := chains[b];
      match slot {
        case InBucket(i) =>
          list[i] := p;
        case NextOf(g) =>
          g.nextHash := p;
      }
      assert IsChain(list[b], c[..j] + d);
      forall i | 0 <= i < |chains| && i != b
        ensures IsChain(list[i], chains[i])
      {
        assert slot.NextOf? ==> slot.handle == c[j - 1] && slot.handle !in chains[i];
      }
    }

    /** Remove. */
    method Remove(key: Bytes, hash: nat) returns (result: Handle?)
      requires Valid()
      modifies this`elems, this`chains, this`members, list, members`nextHash
      ensures Valid()
      ensures result != null ==>
                result in old(members) && result.key == key && result.hash == hash
                && members == old(members) - {result}
      ensures result == null ==>
                members == old(members) && forall g :: g in members ==> g.key != key || g.hash != hash
    {
      hide Buckets, Separate, IsChain, PowerOfTwo;
      var slot, b, j := FindPointer(key, hash);
      result := Load(slot);
      if result != null {
        ghost var c := chains[b];
        ChainAfter(chains, list[b], b, j);
        BucketsAreSeparate(chains, members, b, j, c[j + 1..]);
        WithoutOne(chains, members, b, j);
        assert j > 0 ==> c[j - 1] in c;
        assert c[j] in c;
        Store(slot, result.nextHash, b, j, c[j + 1..]);
        ghost var before := chains;
        chains := chains[b := Without(c, j)];
        members := members - {result};
        elems := elems - 1;
        AllMembers(chains, members);
        forall i | 0 <= i < |chains|
          ensures IsChain(list[i], chains[i])
        {
          assert chains[i] == if i == b then c[..j] + c[j + 1..] else before[i];
        }
      }
    }

    /** Insert: the entry it replaces, if there was one. */
    method Insert(h: Handle) returns (replaced: Handle?)
      requires Valid() && h !in members
      modifies this`elems, this`list, this`chains, this`members, list, members`nextHash, h`nextHash
      ensures Valid() && (list == old(list) || fresh(list))
      ensures replaced != null ==>
                replaced in old(members) && replaced.key == h.key && replaced.hash == h.hash
                && members == old(members) - {replaced} + {h}
      ensures replaced == null ==>
                members == old(members) + {h}
                && forall g :: g in old(members) ==> g.key != h.key || g.hash != h.hash
    {
      hide Buckets, PowerOfTwo, DistinctIds, LinkedFrom;
      ghost var was := members;
      replaced := Place(h);
      if replaced == null {
        elems := elems + 1;
        if elems > list.Length {
          // keep as many buckets as entries
          Resize();
        }
      }
    }

    /** Insert's stores: `h` goes where the entry it replaces was, or at the end of its chain. */
    method Place(h: Handle) returns (replaced: Handle?)
      requires Valid() && h !in members
      modifies this`chains, this`members, list, members`nextHash, h`nextHash
      ensures Buckets(chains, members) && DistinctIds(members) && Linked()
      ensures replaced != null ==>
                replaced in old(members) && Matches(replaced, h.key, h.hash)
                && members == old(members) - {replaced} + {h}
      ensures replaced == null ==>
                members == old(members) + {h} && forall g :: g in old(members) ==> !Matches(g, h.key, h.hash)
    {
      hide Buckets, Separate, IsChain, PowerOfTwo, DistinctIds;
      AllMembers(chains, members);
      var slot, b, j := FindPointer(h.key, h.hash);
      replaced := Load(slot);
      ghost var c, before := chains[b], chains;
      assert j > 0 ==> c[j - 1] in c;
      assert j < |c| ==> c[j] in c;
      ghost var d := [h] + After(c, j);
      BucketsAreSeparate(chains, members, b, j, d);
      Placed(chains, members, b, j, h);
      ChainAfter(chains, list[b], b, j);
      h.nextHash := if replaced == null then null else replaced.nextHash;
      StartsChain(h, After(c, j));
      Store(slot, h, b, j, d);
      chains := chains[b := c[..j] + d];
      members := if replaced == null then members + {h} else members - {replaced} + {h};
      AllMembers(chains, members);
      forall i | 0 <= i < |chains|
        ensures IsChain(list[i], chains[i])
      {
        assert chains[i] == if i == b then c[..j] + d else before[i];
      }
    }

    /** Resize: enough buckets for the entries, which move over one by one. */
    method Resize()
      requires Buckets(chains, members) && Linked() && DistinctIds(members) && elems == |members|
      modifies this`list, this`chains, members`nextHash
      ensures Valid() && fresh(list)
    {
      assert |chains| > 0;
      hide Buckets, IsChain, PowerOfTwo, DistinctIds;
      var newLength := NewLength();
      var newList := new Handle?[newLength](_ => null);
      ghost var newChains := seq(newLength, _ => []);
      AllEmpty(newList, newChains, members);
      NothingMoved(chains, members, newLength);
      for i := 0 to list.Length
        invariant list == old(list) && chains == old(chains) && |chains| > 0
        invariant Buckets(chains, members) && LinkedFrom(list, chains, members, i)
        invariant |newChains| == newLength && Buckets(newChains, Moved(chains, members, i, 0))
                  && LinkedFrom(newList, newChains, members, 0)
      {
        newChains := MoveBucket(i, newList, newChains);
      }
      EverythingMoved(chains, members);
      list, chains := newList, newChains;
    }

    /** Resize's first loop: a power of two, at least the number of entries. */
    method NewLength() returns (newLength: nat)
      ensures newLength >= elems && newLength >= 4 && PowerOfTwo(newLength)
    {
      newLength := 4;
      assert PowerOfTwo(newLength / 2);
      while newLength < elems
        invariant newLength >= 4 && PowerOfTwo(newLength)
      {
        newLength := newLength * 2;
      }
    }

    /** One turn of Resize's outer loop: the entries of bucket `i` go to the front of their new chains. */
    method MoveBucket(i: nat, newList: array<Handle?>, ghost newChains: seq<seq<Handle>>)
      returns (ghost nc: seq<seq<Handle>>)
      requires Buckets(chains, members) && LinkedFrom(list, chains, members, i) && i < list.Length && newList != list
      requires Buckets(newChains, Moved(chains, members, i, 0)) && LinkedFrom(newList, newChains, members, 0)
      modifies newList, members`nextHash
      ensures Buckets(nc, Moved(chains, members, i + 1, 0)) && LinkedFrom(newList, nc, members, 0)
      ensures LinkedFrom(list, chains, members, i + 1)
    {
      hide Buckets, IsChain;
      nc := newChains;
      var h := list[i];
      ghost var k := 0;
      while h != null
        invariant k <= |chains[i]| && IsChain(h, chains[i][k..]) && LinkedFrom(list, chains, members, i + 1)
        invariant Buckets(nc, Moved(chains, members, i, k)) && LinkedFrom(newList, nc, members, 0)
        decreases |chains[i]| - k
      {
        ChainEnds(h, chains[i][k..]);
        h, nc := MoveOne(h, i, k, newList, nc);
        k := k + 1;
      }
      ChainEnds(h, chains[i][k..]);
      BucketMoved(chains, members, i);
    }

    /** One turn of its inner loop: `h`, next in the bucket, goes to the front of its new chain. */
    method MoveOne(h: Handle, i: nat, ghost k: nat, newList: array<Handle?>, ghost newChains: seq<seq<Handle>>)
        returns (next: Handle?, ghost nc: seq<seq<Handle>>)
      requires Buckets(chains, members) && LinkedFrom(list, chains, members, i + 1) && i < list.Length
               && newList != list
      requires k < |chains[i]| && h == chains[i][k] && IsChain(h, chains[i][k..])
      requires Buckets(newChains, Moved(chains, members, i, k)) && LinkedFrom(newList, newChains, members, 0)
      modifies newList, h`nextHash
      ensures IsChain(next, chains[i][k + 1..]) && LinkedFrom(list, chains, members, i + 1)
      ensures |nc| == |newChains| && Buckets(nc, Moved(chains, members, i, k + 1))
              && LinkedFrom(newList, nc, members, 0)
    {
      hide Buckets, IsChain;
      OneMoved(chains, members, i, k, newChains);
      ghost var c := chains[i][k..];
      ChainTail(h, c);
      next := h.nextHash;
      var b := Bucket(h.hash, newList.Length);
      ghost var front := newChains[b];
      h.nextHash := newList[b];
      StartsChain(h, front);
      newList[b] := h;
      nc := newChains[b := [h] + front];
      assert chains[i][k + 1..] == c[1..];
    }
  }

  ghost function Without(c: seq<Handle>, j: nat): (d: seq<Handle>)
    requires j < |c|
    ensures forall h :: h in d ==> h in c
  {
    c[..j] + c[j + 1..]
  }

  /** What follows position `j`. */
  ghost function After(c: seq<Handle>, j: nat): (d: seq<Handle>)
    requires j <= |c|
    ensures forall h :: h in d ==> h in c
  {
    if j < |c| then c[j + 1..] else []
  }

  lemma StartsChain(h: Handle, d: seq<Handle>)
    requires IsChain(h.nextHash, d)
    ensures IsChain(h, [h] + d)
  {
  }

  lemma ChainEnds(first: Handle?, c: seq<Handle>)
    requires IsChain(first, c)
    ensures if c == [] then first == null else first == c[0]
  {
  }

  lemma AllEmpty(list: array<Handle?>, chains: seq<seq<Handle>>, members: set<Handle>)
    requires |chains| == list.Length && forall b :: 0 <= b < |chains| ==> chains[b] == [] && list[b] == null
    ensures LinkedFrom(list, chains, members, 0)
  {
  }

  lemma ChainTail(h: Handle, c: seq<Handle>)
    requires c != [] && IsChain(h, c)
    ensures h == c[0] && IsChain(h.nextHash, c[1..])
  {
  }

  /** The `j`-th entry of a chain links to the rest of it. */
  lemma ChainAfter(chains: seq<seq<Handle>>, first: Handle?, b: nat, j: nat)
    requires b < |chains| && IsChain(first, chains[b]) && j <= |chains[b]|
    ensures IsChain(if j < |chains[b]| then chains[b][j].nextHash else null, After(chains[b], j))
  {
  }

  /** The first `j` entries of chain `b` are in no other chain, and not in `d`, which is in no other chain either. */
  ghost predicate Separate(chains: seq<seq<Handle>>, b: nat, j: nat, d: seq<Handle>)
    requires b < |chains| && j <= |chains[b]|
  {
    && NoDup(chains[b][..j]) && (forall k :: 0 <= k < j ==> chains[b][k] !in d)
    && forall i, k :: 0 <= i < |chains| && i != b && 0 <= k < j ==> chains[b][k] !in chains[i]
  }

  lemma BucketsAreSeparate(chains: seq<seq<Handle>>, members: set<Handle>, b: nat, j: nat, d: seq<Handle>)
    requires Buckets(chains, members) && b < |chains| && j <= |chains[b]|
    requires forall h :: h in d ==> h in chains[b][j..] || h !in members
    ensures Separate(chains, b, j, d)
  {
    var c := chains[b];
    assert Holds(c, b, |chains|, members);
    forall k | 0 <= k < j
      ensures c[k] !in d && forall i :: 0 <= i < |chains| && i != b ==> c[k] !in chains[i]
    {
      assert c[k] in c && c[k] !in c[j..];
      forall i | 0 <= i < |chains| && i != b
        ensures c[k] !in chains[i]
      {
        assert Holds(chains[i], i, |chains|, members);
      }
    }
  }

  lemma AllMembers(chains: seq<seq<Handle>>, members: set<Handle>)
    requires Buckets(chains, members)
    ensures forall b, h :: 0 <= b < |chains| && h in chains[b] ==> h in members
  {
    forall b, h | 0 <= b < |chains| && h in chains[b]
      ensures h in members
    {
      assert Holds(chains[b], b, |chains|, members);
    }
  }

  lemma WithoutOne(chains: seq<seq<Handle>>, members: set<Handle>, b: nat, j: nat)
    requires Buckets(chains, members) && b < |chains| && j < |chains[b]|
    ensures Buckets(chains[b := Without(chains[b], j)], members - {chains[b][j]})
  {
    var c, g, d, rest := chains[b], chains[b][j], Without(chains[b], j), members - {chains[b][j]};
    assert Holds(c, b, |chains|, members) && g in c;
    forall h | h in c && h != g
      ensures h in d
    {
      var k :| 0 <= k < |c| && c[k] == h;
      assert d[if k < j then k else k - 1] == h;
    }
    forall k | 0 <= k < |d|
      ensures d[k] != g
    {
      assert d[k] == c[if k < j then k else k + 1];
    }
    assert Holds(d, b, |chains|, rest);
    forall i | 0 <= i < |chains| && i != b
      ensures Holds(chains[i], i, |chains|, rest)
    {
      assert Holds(chains[i], i, |chains|, members);
    }
  }

  lemma Placed(chains: seq<seq<Handle>>, members: set<Handle>, b: nat, j: nat, h: Handle)
    requires Buckets(chains, members) && DistinctIds(members) && h !in members
    requires b < |chains| && b == Bucket(h.hash, |chains|) && j <= |chains[b]|
    requires j < |chains[b]| ==> Matches(chains[b][j], h.key, h.hash)
    requires j == |chains[b]| ==> forall g :: g in members ==> !Matches(g, h.key, h.hash)
    ensures var c := chains[b];
            var now := (if j < |c| then members - {c[j]} else members) + {h};
            Buckets(chains[b := c[..j] + ([h] + After(c, j))], now) && DistinctIds(now)
  {
    var c, d := chains[b], chains[b][..j] + ([h] + After(chains[b], j));
    var now := (if j < |c| then members - {c[j]} else members) + {h};
    assert Holds(c, b, |chains|, members);
    assert h !in c;
    assert NoDup(d);
    forall g | g in c && (j < |c| ==> g != c[j])
      ensures g in d
    {
      var k :| 0 <= k < |c| && c[k] == g;
      assert d[k] == g;
    }
    assert d[j] == h;
    if j < |c| {
      assert c[j] in c;
      forall k | 0 <= k < |d|
        ensures d[k] != c[j]
      {
      }
    }
    assert Holds(d, b, |chains|, now);
    forall i | 0 <= i < |chains| && i != b
      ensures Holds(chains[i], i, |chains|, now)
    {
      assert Holds(chains[i], i, |chains|, members);
    }
  }

  /** The members in the first `i` buckets, and the first `k` of the next one. */
  ghost function Moved(chains: seq<seq<Handle>>, members: set<Handle>, i: nat, k: nat): set<Handle>
    requires i < |chains| ==> k <= |chains[i]|
    requires |chains| > 0
  {
    set h | h in members && (Bucket(h.hash, |chains|) < i || (i < |chains| && h in chains[i][..k]))
  }

  lemma NothingMoved(chains: seq<seq<Handle>>, members: set<Handle>, length: nat)
    requires Buckets(chains, members) && length > 0
    ensures Buckets(seq(length, _ => []), Moved(chains, members, 0, 0))
  {
    assert Moved(chains, members, 0, 0) == {};
    var empty: seq<seq<Handle>> := seq(length, _ => []);
    forall b | 0 <= b < length
      ensures Holds(empty[b], b, length, {})
    {
    }
  }

  lemma EverythingMoved(chains: seq<seq<Handle>>, members: set<Handle>)
    requires Buckets(chains, members)
    ensures Moved(chains, members, |chains|, 0) == members
  {
  }

  lemma BucketMoved(chains: seq<seq<Handle>>, members: set<Handle>, i: nat)
    requires Buckets(chains, members) && i < |chains|
    ensures Moved(chains, members, i, |chains[i]|) == Moved(chains, members, i + 1, 0)
  {
    assert Holds(chains[i], i, |chains|, members);
    assert chains[i][..|chains[i]|] == chains[i];
  }

  lemma OneMoved(chains: seq<seq<Handle>>, members: set<Handle>, i: nat, k: nat, newChains: seq<seq<Handle>>)
    requires Buckets(chains, members) && i < |chains| && k < |chains[i]|
    requires Buckets(newChains, Moved(chains, members, i, k))
    ensures var h := chains[i][k];
            var b := Bucket(h.hash, |newChains|);
            && h in members && (forall a :: 0 <= a < |chains| && a != i ==> h !in chains[a])
            && h !in chains[i][k + 1..] && (forall a :: 0 <= a < |newChains| ==> h !in newChains[a])
            && Buckets(newChains[b := [h] + newChains[b]], Moved(chains, members, i, k + 1))
  {
    var c, h, n := chains[i], chains[i][k], |newChains|;
    var b, was, now := Bucket(h.hash, n), Moved(chains, members, i, k), Moved(chains, members, i, k + 1);
    assert Holds(c, i, |chains|, members) && h in c;
    forall a | 0 <= a < |chains| && a != i
      ensures h !in chains[a]
    {
      assert Holds(chains[a], a, |chains|, members);
    }
    assert c[..k + 1] == c[..k] + [h];
    assert now == was + {h} && h !in was;
    forall a | 0 <= a < n
      ensures h !in newChains[a] && Holds(if a == b then [h] + newChains[b] else newChains[a], a, n, now)
    {
      assert Holds(newChains[a], a, n, was);
    }
  }
}
