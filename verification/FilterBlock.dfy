/**
 The filter block of a table (table/filter_block.cc): a filter for each 2 KB range of block offsets, and an array that
 says where each one starts.
 */
module FilterBlocks {
  import opened Keys
  import opened Coding
  import opened Comparators
  import opened Bloom

  /** One filter covers the data blocks that start in the same 2048 bytes of the file. */
  const FILTER_BASE_LG: nat := 11
  const FILTER_BASE: nat := 2048

  /** The user keys of internal keys: what InternalFilterPolicy makes filters of. */
  ghost function UserKeys(keys: seq<Bytes>): (r: seq<Bytes>)
    requires forall k :: k in keys ==> IsInternal(k)
    ensures |r| == |keys|
  {
    seq(|keys|, i requires 0 <= i < |keys| => UserPart(keys[i]))
  }

  /** Where filter `i` ends. */
  ghost function End(offsets: seq<nat>, total: nat, i: nat): nat {
    if i + 1 < |offsets| then offsets[i + 1] else total
  }

  /** `data` holds a filter of each group of keys, one after another; an empty group has an empty filter. */
  ghost predicate FilterAt(policy: Policy, data: Bytes, offsets: seq<nat>, keys: seq<Bytes>, i: nat)
    requires i < |offsets|
  {
    && (forall k :: k in keys ==> IsInternal(k))
    && offsets[i] <= End(offsets, |data|, i) <= |data|
    && var filter := data[offsets[i]..End(offsets, |data|, i)];
       if keys == [] then filter == [] else policy.Summarizes(filter, UserKeys(keys))
  }

  ghost predicate Filters(policy: Policy, data: Bytes, offsets: seq<nat>, groups: seq<seq<Bytes>>) {
    |offsets| == |groups| && forall i :: 0 <= i < |groups| ==> FilterAt(policy, data, offsets, groups[i], i)
  }

  /** A whole filter block: filters, their offsets, where the offsets start, and the base. */
  ghost predicate IsFilterBlock(policy: Policy, block: Bytes, groups: seq<seq<Bytes>>, data: Bytes, offsets: seq<nat>) {
    && Filters(policy, data, offsets, groups) && |data| < TWO32
    && (forall i :: 0 <= i < |offsets| ==> offsets[i] < TWO32)
    && block == data + FixedAll(offsets) + EncodeFixed32(|data|) + [FILTER_BASE_LG as byte]
  }

  /** Keys put end to end, and where each one starts. */
  ghost function Flat(keys: seq<Bytes>): Bytes {
    if keys == [] then [] else Flat(keys[..|keys| - 1]) + keys[|keys| - 1]
  }

  ghost function Starts(keys: seq<Bytes>): (r: seq<nat>)
    ensures |r| == |keys|
  {
    if keys == [] then [] else Starts(keys[..|keys| - 1]) + [|Flat(keys[..|keys| - 1])|]
  }

  lemma FrontSlice(front: Bytes, back: Bytes, a: nat, b: nat)
    requires a <= b <= |front|
    ensures (front + back)[a..b] == front[a..b]
  {
  }

  lemma {:induction false} KeyInFlat(keys: seq<Bytes>, i: nat)
    requires i < |keys|
    ensures var starts := Starts(keys) + [|Flat(keys)|];
            starts[i] <= starts[i + 1] <= |Flat(keys)| && Flat(keys)[starts[i]..starts[i + 1]] == keys[i]
    decreases |keys|
  {
    var n := |keys| - 1;
    if i < n {
      KeyInFlat(keys[..n], i);
      var front := Flat(keys[..n]);
      var starts := Starts(keys[..n]) + [|front|];
      assert starts[i + 1] == (Starts(keys) + [|Flat(keys)|])[i + 1];
      FrontSlice(front, keys[n], starts[i], starts[i + 1]);
    }
  }

  /** The groups of keys that filters are made of, once the builder has moved on to filter number `index`. */
  ghost function Started(groups: seq<seq<Bytes>>, pending: seq<Bytes>, index: nat): seq<seq<Bytes>>
    requires index > |groups|
  {
    groups + [pending] + seq(index - |groups| - 1, _ => [])
  }

  class FilterBlockBuilder {
    const policy: Policy
    /** The keys of the current filter, end to end, and where each one starts. */
    var keys: Bytes
    var start: seq<nat>
    var result: Bytes
    /** Where each finished filter starts, in 32 bits. */
    var filterOffsets: seq<U32>
    ghost var offsets: seq<nat>
    /** The keys of each finished filter, and of the current one. */
    ghost var groups: seq<seq<Bytes>>
    ghost var pending: seq<Bytes>

    ghost predicate Valid()
      reads this
    {
      && policy.Valid() && (forall k :: k in pending ==> IsInternal(k))
      && keys == Flat(pending) && start == Starts(pending) && Filters(policy, result, offsets, groups)
      && filterOffsets == Truncated(offsets)
    }

    constructor (policy: Policy)
      requires policy.Valid()
      ensures Valid() && groups == [] && pending == [] && this.policy == policy
    {
      this.policy := policy;
      keys, start, result, filterOffsets, offsets, groups, pending := [], [], [], [], [], [], [];
    }

    /** StartBlock: close the filters of the ranges before the one that holds `blockOffset`. */
    method StartBlock(blockOffset: nat)
      requires Valid() && blockOffset / FILTER_BASE >= |groups|
      modifies this
      ensures Valid() && |groups| == blockOffset / FILTER_BASE
      ensures if |groups| == |old(groups)| then groups == old(groups) && pending == old(pending)
              else pending == [] && groups == Started(old(groups), old(pending), |groups|)
    {
      var filterIndex := blockOffset / FILTER_BASE;
      while filterIndex > |filterOffsets|
        invariant Valid() && |old(groups)| <= |groups| <= filterIndex
        invariant if |groups| == |old(groups)| then groups == old(groups) && pending == old(pending)
                  else pending == [] && groups == Started(old(groups), old(pending), |groups|)
        decreases filterIndex - |groups|
      {
        ghost var before := groups;
        GenerateFilter();
        if |before| > |old(groups)| {
          assert Started(old(groups), old(pending), |before|) + [[]] == Started(old(groups), old(pending), |groups|);
        }
      }
    }

    /** AddKey. */
    method AddKey(key: Bytes)
      requires Valid() && IsInternal(key)
      modifies this
      ensures Valid() && groups == old(groups) && pending == old(pending) + [key]
    {
      start := start + [|keys|];
      keys := keys + key;
      assert (pending + [key])[..|pending|] == pending;
      pending := pending + [key];
    }

    /** GenerateFilter: the current keys get their filter. */
    method GenerateFilter()
      requires Valid()
      modifies this
      ensures Valid() && groups == old(groups) + [old(pending)] && pending == []
    {
      var numKeys := |start|;
      if numKeys == 0 {
        // a stretch where no block starts gets a filter of length zero
        NextFilter(policy, result, offsets, groups, [], result);
        filterOffsets := filterOffsets + [|result| % TWO32];
        offsets := offsets + [|result|];
        groups := groups + [[]];
        return;
      }
      // a sentinel start closes the last key
      start := start + [|keys|];
      var tmpKeys := ListOfKeys(numKeys);
      var offset := |result|;
      var longer := policy.CreateFilter(tmpKeys, result);
      NextFilter(policy, result, offsets, groups, pending, longer);
      filterOffsets := filterOffsets + [offset % TWO32];
      offsets := offsets + [offset];
      result := longer;
      keys, start := [], [];
      groups, pending := groups + [pending], [];
    }

    /** Its loop: the user keys, cut from the flattened keys. */
    method ListOfKeys(numKeys: nat) returns (tmpKeys: seq<Bytes>)
      requires (forall k :: k in pending ==> IsInternal(k)) && keys == Flat(pending)
               && start == Starts(pending) + [|keys|]
      requires numKeys == |pending|
      ensures tmpKeys == UserKeys(pending)
    {
      tmpKeys := [];
      for i := 0 to numKeys
        invariant tmpKeys == UserKeys(pending)[..i]
      {
        KeyInFlat(pending, i);
        var key := keys[start[i]..start[i + 1]];
        assert key in pending;
        tmpKeys := tmpKeys + [UserPart(key)];
      }
    }

    /** Finish: the filter block, as long as its filters take less than 4 GB. */
    method Finish() returns (block: Bytes, ghost data: Bytes)
      requires Valid()
      modifies this
      ensures groups == (if old(pending) == [] then old(groups) else old(groups) + [old(pending)])
      ensures |data| < TWO32 ==> IsFilterBlock(policy, block, groups, data, offsets)
    {
      if start != [] {
        GenerateFilter();
      }
      // the filters are complete; now where each of them begins
      data := result;
      var arrayOffset := |result| % TWO32;
      result := PutFixedAll(result, filterOffsets);
      result := result + EncodeFixed32(arrayOffset);
      result := result + [FILTER_BASE_LG as byte];
      block := result;
      if |data| < TWO32 { OffsetsFit(policy, data, offsets, groups); }
    }
  }

  lemma OffsetsFit(policy: Policy, data: Bytes, offsets: seq<nat>, groups: seq<seq<Bytes>>)
    requires Filters(policy, data, offsets, groups) && |data| < TWO32
    ensures (forall i :: 0 <= i < |offsets| ==> offsets[i] < TWO32) && Truncated(offsets) == offsets
  {
    forall i | 0 <= i < |offsets|
      ensures offsets[i] < TWO32
    {
      assert FilterAt(policy, data, offsets, groups[i], i);
    }
  }

  lemma NextFilter(policy: Policy, data: Bytes, offsets: seq<nat>, groups: seq<seq<Bytes>>, keys: seq<Bytes>,
                   longer: Bytes)
    requires Filters(policy, data, offsets, groups) && data <= longer && forall k :: k in keys ==> IsInternal(k)
    requires if keys == [] then longer == data else policy.Summarizes(longer[|data|..], UserKeys(keys))
    ensures Filters(policy, longer, offsets + [|data|], groups + [keys])
  {
    forall i | 0 <= i < |groups|
      ensures FilterAt(policy, longer, offsets + [|data|], groups[i], i)
    {
      assert FilterAt(policy, data, offsets, groups[i], i);
      assert End(offsets + [|data|], |longer|, i) == End(offsets, |data|, i);
      assert longer[offsets[i]..End(offsets, |data|, i)] == data[offsets[i]..End(offsets, |data|, i)];
    }
  }

  // ---------- the reader ----------

  class FilterBlockReader {
    const policy: Policy
    const data: Bytes
    /** Where the offset array starts; how many offsets it has. */
    var offset: nat
    var num: nat
    var baseLg: nat
    ghost const groups: seq<seq<Bytes>>
    ghost const filters: Bytes
    ghost const offsets: seq<nat>

    ghost predicate Valid()
      reads this
    {
      && policy.Valid() && IsFilterBlock(policy, data, groups, filters, offsets)
      && offset == |filters| && num == |groups| && baseLg == FILTER_BASE_LG
    }

    constructor (policy: Policy, contents: Bytes, ghost groups: seq<seq<Bytes>>, ghost filters: Bytes,
                 ghost offsets: seq<nat>)
      requires policy.Valid() && IsFilterBlock(policy, contents, groups, filters, offsets)
      ensures Valid() && this.groups == groups && this.policy == policy
    {
      this.policy, this.groups, this.filters, this.offsets := policy, groups, filters, offsets;
      data := contents;
      offset, num, baseLg := 0, 0, 0;
      new;
      var n := |contents|;
      if n < 5 { assert false; }  // 1 byte for the base and 4 for the start of the offset array
      baseLg := contents[n - 1] as nat;
      assert contents[n - 5..n - 1] == EncodeFixed32(|filters|);
      Fixed32RoundTrip(|filters|);
      var lastWord := DecodeFixed32(contents[n - 5..n - 1]);
      if lastWord > n - 5 { assert false; }
      offset := lastWord;
      num := (n - 5 - lastWord) / 4;
    }

    /** KeyMayMatch: the filter of the range that holds `blockOffset` decides; past the last range any key may match. */
    method KeyMayMatch(blockOffset: nat, key: Bytes) returns (may: bool)
      requires Valid() && IsInternal(key)
      ensures var i := blockOffset / FILTER_BASE;
              may == if i < |groups| then FilterAt(policy, filters, offsets, groups[i], i)
                                          && policy.Says(filters[offsets[i]..End(offsets, |filters|, i)], UserPart(key))
                     else true
    {
      assert Pow2(11) == FILTER_BASE;
      var index := blockOffset / Pow2(baseLg);
      if index < num {
        var start := Word(index);
        var limit := Word(index + 1);
        assert FilterAt(policy, filters, offsets, groups[index], index);
        if start <= limit && limit <= offset {
          var filter := data[start..limit];
          assert filter == filters[start..limit];
          may := policy.KeyMayMatch(UserPart(key), filter);
          return;
        } else if start == limit {
          // no block starts here, so there is nothing to find
          return false;
        }
      }
      return true;
    }

    /** A number of the offset array, or the one after it: where the array starts. */
    method Word(index: nat) returns (w: nat)
      requires Valid() && index <= |groups|
      ensures w == if index < |groups| then offsets[index] else |filters|
    {
      ghost var all := offsets + [|filters|];
      assert all[..|all| - 1] == offsets && FixedAll(all) == FixedAll(offsets) + EncodeFixed32(|filters|);
      FixedAt(all, index);
      assert data[offset + index * 4..offset + index * 4 + 4] == FixedAll(all)[4 * index..4 * index + 4];
      Fixed32RoundTrip(all[index]);
      w := DecodeFixed32(data[offset + index * 4..offset + index * 4 + 4]);
    }
  }

  /** A filter never hides a key it was made with; a range without keys matches none. */
  lemma NeverHides(policy: Policy, data: Bytes, offsets: seq<nat>, groups: seq<seq<Bytes>>, i: nat, user: Bytes)
    requires policy.Valid() && Filters(policy, data, offsets, groups) && i < |groups|
    ensures FilterAt(policy, data, offsets, groups[i], i)
    ensures (exists k :: k in groups[i] && UserPart(k) == user) ==>
              policy.Says(data[offsets[i]..End(offsets, |data|, i)], user)
    ensures groups[i] == [] ==> !policy.Says(data[offsets[i]..End(offsets, |data|, i)], user)
  {
    assert FilterAt(policy, data, offsets, groups[i], i);
    var filter := data[offsets[i]..End(offsets, |data|, i)];
    if k :| k in groups[i] && UserPart(k) == user {
      var j :| 0 <= j < |groups[i]| && groups[i][j] == k;
      assert UserKeys(groups[i])[j] == user;
      policy.KeysMatch(filter, UserKeys(groups[i]), user);
    }
  }
}
