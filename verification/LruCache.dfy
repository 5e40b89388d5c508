/**
 One shard of the LRU cache (util/cache.cc:149-333), pointer by pointer: two circular lists threaded through the
 entries, a hash table, and reference counts.  Each operation does to the abstract state exactly what CacheStates says.
 */
module LruCaches {
  import opened Keys
  import opened HandleTables
  import opened CacheStates

  /** Position `i` of the ring that starts and ends at `head` and runs through `s`. */
  function Node(head: Handle, s: seq<Handle>, i: nat): Handle {
    if 1 <= i <= |s| then s[i - 1] else head
  }

  ghost function Elems(s: seq<Handle>): set<Handle> {
    set e | e in s
  }

  /** `s` is the circular doubly linked list with dummy head `head`, oldest entry first. */
  ghost predicate Ring(head: Handle, s: seq<Handle>)
    reads head`next, head`prev, Elems(s)`next, Elems(s)`prev
  {
    && (forall i: nat {:trigger Node(head, s, i).next} :: i <= |s| ==> Node(head, s, i).next == Node(head, s, i + 1))
    && (forall i: nat {:trigger Node(head, s, i).prev} :: 1 <= i <= |s| + 1 ==>
        Node(head, s, i).prev == Node(head, s, i - 1))
  }

  lemma RingEnds(head: Handle, s: seq<Handle>)
    requires Ring(head, s)
    ensures head.next == if s == [] then head else s[0]
    ensures head.prev == if s == [] then head else s[|s| - 1]
  {
    assert Node(head, s, 0).next == Node(head, s, 1);
    assert Node(head, s, |s| + 1).prev == Node(head, s, |s|);
  }

  /** LRU_Remove. */
  method LruRemove(e: Handle, ghost head: Handle, ghost s: seq<Handle>)
    requires Ring(head, s) && NoDup(s) && head !in s && e in s
    modifies head`next, head`prev, Elems(s)`next, Elems(s)`prev
    ensures Ring(head, Minus(s, e))
  {
    ghost var i: nat :| i < |s| && s[i] == e;
    MinusAt(s, i);
    hide Minus;
    Bypass(e, head, s, i);
  }

  /** Its two stores, at a known position of the list. */
  method Bypass(e: Handle, ghost head: Handle, ghost s: seq<Handle>, ghost i: nat)
    requires Ring(head, s) && NoDup(s) && head !in s && i < |s| && s[i] == e
    modifies Node(head, s, i)`next, Node(head, s, i + 2)`prev
    ensures Ring(head, s[..i] + s[i + 1..])
  {
    ghost var before, after := Node(head, s, i), Node(head, s, i + 2);
    assert Node(head, s, i + 1) == e && e.next == after && e.prev == before;
    e.next.prev := e.prev;
    e.prev.next := e.next;
    ghost var t := s[..i] + s[i + 1..];
    forall k: nat | k <= |t|
      ensures Node(head, t, k).next == Node(head, t, k + 1)
    {
      assert Node(head, t, k) == Node(head, s, if k <= i then k else k + 1);
      assert old(Node(head, s, if k <= i then k else k + 1).next) == Node(head, s, if k <= i then k + 1 else k + 2);
    }
    forall k: nat | 1 <= k <= |t| + 1
      ensures Node(head, t, k).prev == Node(head, t, k - 1)
    {
      assert Node(head, t, k) == Node(head, s, if k <= i then k else k + 1);
      assert old(Node(head, s, if k <= i then k else k + 1).prev) == Node(head, s, if k <= i then k - 1 else k);
    }
  }

  /** LRU_Append: `e` becomes the last entry of the list. */
  method LruAppend(list: Handle, e: Handle, ghost s: seq<Handle>)
    requires Ring(list, s) && NoDup(s) && list !in s && e !in s && e != list
    modifies e`next, e`prev, list`next, list`prev, Elems(s)`next
    ensures Ring(list, s + [e])
  {
    RingEnds(list, s);
    e.next := list;
    e.prev := list.prev;
    e.prev.next := e;
    e.next.prev := e;
    ghost var t := s + [e];
    forall k: nat | k <= |t|
      ensures Node(list, t, k).next == Node(list, t, k + 1)
    {
      if k < |s| { assert old(Node(list, s, k).next) == Node(list, s, k + 1); }
    }
    forall k: nat | 1 <= k <= |t| + 1
      ensures Node(list, t, k).prev == Node(list, t, k - 1)
    {
      if k <= |s| { assert old(Node(list, s, k).prev) == Node(list, s, k - 1); }
    }
  }

  /** Two lists that share nothing. */
  ghost predicate Disjoint(head: Handle, s: seq<Handle>, head': Handle, t: seq<Handle>) {
    && NoDup(s) && NoDup(t) && head !in s && head != head' && head !in t && head' !in s && head' !in t
    && Elems(s) !! Elems(t)
  }

  lemma MinusDisjoint(head: Handle, s: seq<Handle>, e: Handle, head': Handle, t: seq<Handle>)
    requires Disjoint(head, s, head', t)
    ensures Disjoint(head, Minus(s, e), head', t) && e !in Minus(s, e)
  {
    MinusIs(s, e);
  }

  /** From one list to the end of the other. */
  method Move(e: Handle, ghost head: Handle, ghost s: seq<Handle>, list: Handle, ghost t: seq<Handle>)
    requires Ring(head, s) && Ring(list, t) && e in s && Disjoint(head, s, list, t)
    modifies head`next, head`prev, Elems(s)`next, Elems(s)`prev, list`next, list`prev, Elems(t)`next
    ensures Ring(head, Minus(s, e)) && Ring(list, t + [e])
  {
    MinusDisjoint(head, s, e, list, t);
    hide Ring, Minus, NoDup;
    assert e in Elems(s);
    LruRemove(e, head, s);
    ghost var rest := Minus(s, e);
    assert Ring(head, rest);
    label removed:
    LruAppend(list, e, t);
    assert forall o :: o in Elems(rest) ==> o.next == old@removed(o.next) && o.prev == old@removed(o.prev);
  }

  ghost predicate CountedIn(s: State, e: Handle)
    reads e`refs, e`inCache
  {
    e.inCache == s.Cached(e) && e.refs == s.held[e] + if e.inCache then 1 else 0
  }

  /** The list ascends in the time its entries were last released; all times lie in the past. */
  ghost predicate Ordered(s: seq<Handle>, times: map<Handle, nat>, now: nat) {
    && (forall h :: h in s ==> h in times) && (forall h :: h in times ==> times[h] < now)
    && (forall i, j :: 0 <= i < j < |s| && s[i] in times && s[j] in times ==> times[s[i]] < times[s[j]])
  }

  lemma MinusOrdered(s: seq<Handle>, e: Handle, times: map<Handle, nat>, now: nat)
    requires Ordered(s, times, now) && NoDup(s)
    ensures Ordered(Minus(s, e), times, now)
  {
    if e in s {
      var i :| 0 <= i < |s| && s[i] == e;
      MinusAt(s, i);
    } else {
      MinusNone(s, e);
    }
  }

  lemma DroppedOrdered(s: State, e: Handle, times: map<Handle, nat>, now: nat)
    requires s.Sound() && Ordered(s.lru, times, now)
    ensures Ordered(s.Dropped(e).lru, times, now)
  {
    MinusOrdered(s.lru, e, times, now);
  }

  lemma ReferencedOrdered(s: State, e: Handle, times: map<Handle, nat>, now: nat)
    requires s.Sound() && Ordered(s.lru, times, now)
    ensures Ordered(s.Referenced(e).lru, times, now)
  {
    MinusOrdered(s.lru, e, times, now);
  }

  /** The entry released now goes behind all others. */
  lemma NewestOrdered(s: seq<Handle>, e: Handle, times: map<Handle, nat>, now: nat)
    requires Ordered(s, times, now) && e !in s
    ensures Ordered(s + [e], times[e := now], now + 1) && Ordered(s, times[e := now], now + 1)
  {
  }

  /** What a release does to the LRU list: only the last handle on a cached entry puts it there. */
  lemma ReleaseOrdered(s: State, e: Handle, times: map<Handle, nat>, now: nat)
    requires s.Sound() && e in s.held && Ordered(s.lru, times, now)
    ensures Ordered(s.Released(e).lru, if s.held[e] == 1 then times[e := now] else times, now + 1)
  {
    assert s.held[e] > 0 && e !in s.lru;
    NewestOrdered(s.lru, e, times, now);
  }

  /** Eviction takes what was released longest ago. */
  lemma OldestGo(s: State, e: Handle, cached: bool, replaced: Handle?, capacity: nat, times: map<Handle, nat>, now: nat,
                 x: Handle, y: Handle)
    requires s.Sound() && Ordered(s.lru, times, now) && e !in s.all
    requires replaced != null ==> replaced in s.Entries()
    requires var m := s.Made(e, cached);
             var t := (if replaced != null then m.Dropped(replaced) else m).Evicted(capacity);
             x in s.Entries() && x !in t.Entries() && x != replaced && y in t.Entries() && t.held[y] == 0
    ensures x in times && y in times && times[x] < times[y]
  {
    s.MadeIsSound(e, cached);
    var m := s.Made(e, cached);
    var d := if replaced != null then m.Dropped(replaced) else m;
    if replaced != null {
      m.DroppedIsSound(replaced);
      MinusOrdered(s.lru, replaced, times, now);
      MinusIs(m.lru, replaced);
      MinusIs(m.inUse, replaced);
    }
    var n := d.EvictedIs(capacity);
    hide Minus, State.Usage, State.Evicted, NoDup;
    assert x in s.lru || x in s.inUse;
    assert x in d.lru || x in d.inUse;
    assert x in d.lru[..n];
    assert y in d.lru[n..];
  }

  class LruCache {
    var capacity: nat
    var usage: nat
    /** Dummy head of the LRU list: entries nobody holds. */
    const lru: Handle
    /** Dummy head of the in-use list: cached entries that clients hold. */
    const inUse: Handle
    const table: HandleTable
    ghost var state: State
    /** When each entry lost its last handle, for the last time; the clock ticks at every release. */
    ghost var released: map<Handle, nat>
    ghost var clock: nat

    ghost function Nodes(): set<Handle>
      reads this`state
    {
      state.all + {lru, inUse}
    }

    ghost predicate Lists()
      reads this`state, lru`next, lru`prev, inUse`next, inUse`prev, Elems(state.lru)`next, Elems(state.lru)`prev,
            Elems(state.inUse)`next, Elems(state.inUse)`prev
    {
      Ring(lru, state.lru) && Ring(inUse, state.inUse)
    }

    /** An entry's references are its handles, and one more while it is cached. */
    ghost predicate Counted(e: Handle)
      reads this`state, e`refs, e`inCache
    {
      CountedIn(state, e)
    }

    ghost predicate HeadsApart()
      reads this`state
    {
      lru != inUse && lru !in state.all && inUse !in state.all
    }

    /** All of the invariant that does not concern the table. */
    ghost predicate Core()
      reads this`state, this`usage, Nodes()`next, Nodes()`prev, Nodes()`refs, Nodes()`inCache
    {
      && HeadsApart() && state.Sound()
      && Lists() && (forall e :: e in state.all ==> Counted(e)) && usage == state.Usage()
    }

    lemma CoreFacts()
      requires Core()
      ensures HeadsApart() && state.Sound() && state.Once() && state.Apart() && Lists() && usage == state.Usage()
      ensures forall o :: o in state.all ==> CountedIn(state, o)
    {
    }

    ghost predicate Valid()
      reads this`state, this`usage, Nodes()`next, Nodes()`prev, Nodes()`refs, Nodes()`inCache
      reads table, table.list, table.members`nextHash, this`released, this`clock
    {
      Core() && table.Valid() && table.members == state.Entries() && Ordered(state.lru, released, clock)
    }

    constructor ()
      ensures Valid() && capacity == 0 && state == State({}, [], [], multiset{}, [])
      ensures fresh(lru) && fresh(inUse) && fresh(table) && fresh(table.list)
    {
      hide HandleTable.Valid;
      capacity, usage := 0, 0;
      lru := new Handle([], 0, 0, 0);
      inUse := new Handle([], 0, 0, 0);
      table := new HandleTable();
      state := State({}, [], [], multiset{}, []);
      released, clock := map[], 0;
      new;
      // a head that points to itself is a list without entries
      lru.next, lru.prev, inUse.next, inUse.prev := lru, lru, inUse, inUse;
      assert state.Entries() == {};
    }

    /** Ref. */
    method Ref(e: Handle)
      requires Core() && state.Cached(e)
      modifies this`state, Nodes()`next, Nodes()`prev, e`refs
      ensures Core() && state == old(state).Referenced(e)
    {
      hide Core, Ring, Minus, NoDup, State.Sound, State.Once, State.Apart, State.Usage, State.Cached, State.Entries,
           Disjoint;
      ghost var s := state;
      CoreFacts();
      s.ReferencedFacts(e);
      if e.refs == 1 && e.inCache {
        // the first client
        ListsDisjoint(s, lru, inUse);
        Move(e, lru, s.lru, inUse, s.inUse);
      }
      e.refs := e.refs + 1;
      assert forall o :: o in s.all && o != e ==> CountedIn(s, o);
      SettleReferenced(s, e);
    }

    /** The state, once a client has another handle on `e`. */
    ghost method SettleReferenced(s: State, e: Handle)
      requires s.Sound() && s.Cached(e) && HeadsApart() && state == s && usage == s.Usage() && e.inCache
               && e.refs == s.held[e] + 2
      requires Ring(lru, s.Referenced(e).lru) && Ring(inUse, s.Referenced(e).inUse)
      requires forall o :: o in s.all && o != e ==> CountedIn(s, o)
      modifies this`state
      ensures Core() && state == s.Referenced(e)
    {
      hide Ring, Minus, NoDup, State.Sound, State.Usage, State.Entries;
      s.ReferencedFacts(e);
      state := s.Referenced(e);
    }

    /**
     Unref: one reference fewer; free the entry at none, and move it to the LRU list when only the cache's is left.
     */
    method Unref(e: Handle)
      requires HeadsApart() && state.Once() && state.Apart() && e in state.all
      requires e.refs > 0 && (e.refs == 1 ==> !e.inCache) && (e.inCache ==> Lists() && e in state.inUse)
      modifies this`state, Nodes()`next, Nodes()`prev, e`refs
      ensures e.refs == old(e.refs) - 1 && (old(Lists()) ==> Lists())
      ensures state == AfterUnref(old(state), e, e.refs, e.inCache)
      ensures !e.inCache ==> forall o :: o in Nodes() ==> o.next == old(o.next) && o.prev == old(o.prev)
    {
      hide Ring, Minus, NoDup;
      ghost var s := state;
      e.refs := e.refs - 1;
      if e.refs == 0 {
        // the last reference is gone
      } else if e.inCache && e.refs == 1 {
        // only the cache holds it now
        Move(e, inUse, s.inUse, lru, s.lru);
      }
      state := AfterUnref(s, e, e.refs, e.inCache);
    }

    /** FinishErase: `e` is already out of the table. */
    method FinishErase(e: Handle?) returns (erased: bool)
      requires Core() && (e != null ==> state.Cached(e))
      modifies this`state, this`usage, Nodes()`next, Nodes()`prev, Nodes()`refs, Nodes()`inCache
      ensures erased == (e != null) && Core()
      ensures state == if e != null then old(state).Dropped(e) else old(state)
    {
      hide Core, Ring, Minus, NoDup, State.Sound, State.Once, State.Apart, State.Usage, State.Dropped, State.Cached;
      hide State.Entries, Unlinked;
      if e != null {
        ghost var s := state;
        CoreFacts();
        s.CachedIsMade(e);
        UnlinkedFacts(s, e);
        Unlink(e);
        Unref(e);
        assert forall o :: o in s.all && o != e ==> CountedIn(s, o);
        SettleDropped(s, e);
      }
      return e != null;
    }

    /** The state, once the cache has let go of `e`. */
    lemma SettleDropped(s: State, e: Handle)
      requires s.Sound() && s.Cached(e) && HeadsApart() && Lists() && usage == s.Usage() - e.charge
      requires state == AfterUnref(Unlinked(s, e), e, e.refs, false) && e.refs == s.held[e] && !e.inCache
      requires forall o :: o in s.all && o != e ==> CountedIn(s, o)
      ensures Core() && state == s.Dropped(e)
    {
      s.DroppedIsSound(e);
      s.DroppedLoses(e);
      hide Ring, Minus, NoDup, State.Sound, State.Usage;
      forall o | o in state.all
        ensures Counted(o)
      {
        StillCached(s, state, e, o);
      }
    }

    /** The cache's reference is no longer one: `e` leaves its list, and its charge the usage. */
    method Unlink(e: Handle)
      requires Core() && state.Cached(e)
      modifies this`state, this`usage, Nodes()`next, Nodes()`prev, e`inCache
      ensures state == Unlinked(old(state), e) && HeadsApart() && state.Once() && state.Apart() && Lists()
      ensures !e.inCache && e.refs == old(state).held[e] + 1 && usage == old(state).Usage() - e.charge
      ensures forall o :: o in old(state).all && o != e ==> CountedIn(old(state), o)
    {
      hide Core, Ring, Minus, NoDup, State.Sound, State.Once, State.Apart, State.Usage, State.Entries, Unlinked;
      ghost var s := state;
      CoreFacts();
      s.CachedIsMade(e);
      s.DroppedLoses(e);
      LeaveList(e);
      e.inCache := false;
      usage := usage - e.charge;
    }

    /** LRU_Remove, on the list that holds `e`. */
    method LeaveList(e: Handle)
      requires HeadsApart() && state.Once() && state.Apart() && Lists() && state.Cached(e)
      modifies this`state, Nodes()`next, Nodes()`prev
      ensures state == Unlinked(old(state), e) && HeadsApart() && state.Once() && state.Apart() && Lists()
    {
      ghost var s := state;
      UnlinkedFacts(s, e);
      ListsDisjoint(s, lru, inUse);
      hide Ring, Minus, NoDup, State.Once, State.Apart;
      LruRemove(e, if e in s.lru then lru else inUse, if e in s.lru then s.lru else s.inUse);
      state := Unlinked(s, e);
    }

    /** Lookup: a handle on the cached entry with this key and hash, if there is one. */
    method Lookup(key: Bytes, hash: nat) returns (e: Handle?)
      requires Valid()
      modifies this`state, Nodes()`next, Nodes()`prev, Nodes()`refs
      ensures Valid()
      ensures e == null ==> state == old(state) && forall h :: h in state.Entries() ==> h.key != key || h.hash != hash
      ensures e != null ==> e in state.Entries() && e.key == key && e.hash == hash && state == old(state).Referenced(e)
    {
      hide Core, Ring, State.Usage, State.Sound, State.Referenced, State.Entries, HandleTable.Valid, Ordered;
      CoreFacts();
      e := table.Lookup(key, hash);
      if e != null {
        OneLess(state, e);
        state.ReferencedKeeps(e);
        ReferencedOrdered(state, e, released, clock);
        Ref(e);
      }
    }

    /** Release: with the last handle, the entry becomes the one released most recently. */
    method Release(handle: Handle)
      requires Valid() && handle in state.held
      modifies this`state, this`released, this`clock, Nodes()`next, Nodes()`prev, Nodes()`refs
      ensures Valid() && state == old(state).Released(handle)
      ensures released == if old(state.held)[handle] == 1 then old(released)[handle := old(clock)] else old(released)
      ensures forall h :: h in old(released) ==> old(released)[h] < old(clock)
    {
      hide Core, State.Sound, State.Released, State.Entries, HandleTable.Valid, Ordered;
      CoreFacts();
      ReleaseOrdered(state, handle, released, clock);
      TimesPast(released, clock, state.lru);
      released := if state.held[handle] == 1 then released[handle := clock] else released;
      clock := clock + 1;
      state.ReleasedKeeps(handle);
      UnrefHeld(handle);
    }

    lemma TimesPast(times: map<Handle, nat>, now: nat, s: seq<Handle>)
      requires Ordered(s, times, now)
      ensures forall h :: h in times ==> times[h] < now
    {
    }

    /** Unref, of a client's reference. */
    method UnrefHeld(e: Handle)
      requires Core() && e in state.held
      modifies this`state, Nodes()`next, Nodes()`prev, e`refs
      ensures Core() && state == old(state).Released(e)
    {
      ghost var s := state;
      s.ReleasedKeeps(e);
      assert forall o :: o in s.all ==> Counted(o);
      UnrefIsRelease(s, e, e.refs - 1, e.inCache);
      assert s.Once() && s.Apart();
      hide Ring, Minus, NoDup, State.Sound, State.Once, State.Apart, State.Usage, State.Released, AfterUnref,
           State.Entries, State.Cached;
      Unref(e);
      assert forall o :: o in s.all && o != e ==> CountedIn(s, o);
      Settle(s, e);
    }

    /** The state, once a client's reference is gone. */
    ghost method Settle(s: State, e: Handle)
      requires s.Sound() && e in s.held && HeadsApart() && Lists() && usage == s.Released(e).Usage()
      requires state.all == s.all && state.lru == s.Released(e).lru && state.inUse == s.Released(e).inUse
      requires e.inCache == s.Cached(e) && e.refs == s.held[e] - 1 + if e.inCache then 1 else 0
      requires forall o :: o in s.all && o != e ==> CountedIn(s, o)
      modifies this`state
      ensures Core() && state == s.Released(e)
    {
      s.ReleasedIsSound(e);
      ReleasedCounts(s, e);
      hide Ring, Minus, NoDup, State.NoneLost, State.Usage, State.Released, State.Cached;
      state := s.Released(e);
    }

    /**
     Erase: the entry with this key and hash leaves the cache, if there is one; clients that hold it keep it alive.
     The eviction loops do the same with the keys of the entries they evict.
     */
    method Erase(key: Bytes, hash: nat) returns (erased: bool, ghost e: Handle?)
      requires Valid()
      modifies this`state, this`usage, Nodes()`next, Nodes()`prev, Nodes()`refs, Nodes()`inCache
      modifies table`elems, table`chains, table`members, table.list, table.members`nextHash
      ensures Valid() && erased == (e != null)
      ensures e == null ==> state == old(state) && forall h :: h in state.Entries() ==> h.key != key || h.hash != hash
      ensures e != null ==> e in old(state.Entries()) && e.key == key && e.hash == hash
      ensures e != null ==> state == old(state).Dropped(e)
    {
      hide Core, Ring, State.Usage, State.Sound, State.Dropped, State.Entries, HandleTable.Valid, Ordered;
      CoreFacts();
      var h := table.Remove(key, hash);
      if h != null {
        OneLess(state, h);
        DroppedOrdered(state, h, released, clock);
      }
      e := h;
      erased := FinishErase(h);
    }

    /** Insert's loop: evict entries nobody holds, oldest first, while the cache is over capacity. */
    method Shrink()
      requires Valid()
      modifies this`state, this`usage, Nodes()`next, Nodes()`prev, Nodes()`refs, Nodes()`inCache
      modifies table`elems, table`chains, table`members, table.list, table.members`nextHash
      ensures Valid() && state == old(state).Evicted(capacity)
    {
      hide Ring, State.Usage, State.Entries, Ordered;
      RingEnds(lru, state.lru);
      while usage > capacity && lru.next != lru
        invariant Valid() && state.Evicted(capacity) == old(state).Evicted(capacity) && state.all == old(state.all)
        invariant table.members <= old(table.members) && table.list == old(table.list)
        invariant lru.next == if state.lru == [] then lru else state.lru[0]
        decreases |state.lru|
      {
        EvictOldest();
      }
    }

    /** One turn of that loop. */
    method EvictOldest()
      requires Valid() && state.lru != []
      modifies this`state, this`usage, Nodes()`next, Nodes()`prev, Nodes()`refs, Nodes()`inCache
      modifies table`elems, table`chains, table`members, table.list, table.members`nextHash
      ensures Valid() && state == State(old(state.all), old(state.lru)[1..], old(state.inUse), old(state.held),
                                        old(state.freed) + [old(state.lru)[0]])
      ensures table.members <= old(table.members) && lru.next == if state.lru == [] then lru else state.lru[0]
    {
      hide State.Usage, State.Sound, Buckets, LinkedFrom, PowerOfTwo, Ordered;
      CoreFacts();
      RingEnds(lru, state.lru);
      state.OldestDropped();
      ghost var s := state;
      var oldest := lru.next;
      assert oldest == s.lru[0] && oldest in s.Entries();
      var erased, e := Erase(oldest.key, oldest.hash);
      assert e == oldest;
      RingEnds(lru, state.lru);
    }

    /**
     Insert: the client gets a handle on a new entry, which takes the place of the one cached under the same key and
     hash (`replaced`); then entries nobody holds make room.
     */
    method Insert(key: Bytes, hash: nat, value: int, charge: nat) returns (e: Handle, ghost replaced: Handle?)
      requires Valid()
      modifies this`state, this`usage, Nodes()`next, Nodes()`prev, Nodes()`refs, Nodes()`inCache
      modifies table`elems, table`list, table`chains, table`members, table.list, table.members`nextHash
      ensures Valid() && fresh(e) && e.key == key && e.hash == hash && e.value == value && e.charge == charge
      ensures replaced != null ==>
                capacity > 0 && replaced in old(state.Entries()) && replaced.key == key && replaced.hash == hash
      ensures replaced == null && capacity > 0 ==>
                forall h :: h in old(state.Entries()) ==> h.key != key || h.hash != hash
      ensures var s := old(state).Made(e, capacity > 0);
              state == (if replaced != null then s.Dropped(replaced) else s).Evicted(capacity)
      ensures forall x, y :: x in old(state.Entries()) && x !in state.Entries() && x != replaced
                             && y in state.Entries() && state.held[y] == 0 ==>
                x in released && y in released && released[x] < released[y]
      ensures table.list == old(table.list) || fresh(table.list)
    {
      hide Core, Ring, State.Usage, State.Sound, State.Evicted, State.Made, State.Entries, HandleTable.Valid, Ordered;
      CoreFacts();
      ghost var s := state;
      e := new Handle(key, hash, value, charge);  // one reference, for the returned handle
      replaced := null;
      EntriesMade(state, e, capacity > 0);
      Adopt(e);
      if capacity > 0 {
        var r := Enter(e);
        replaced := r;
      }
      Shrink();
      EvictsOldest(s, e, capacity > 0, replaced);
    }

    /** What Insert evicted was released before every entry nobody holds that stays. */
    lemma EvictsOldest(s: State, e: Handle, cached: bool, replaced: Handle?)
      requires s.Sound() && Ordered(s.lru, released, clock) && e !in s.all
      requires replaced != null ==> replaced in s.Entries()
      requires var m := s.Made(e, cached);
               state == (if replaced != null then m.Dropped(replaced) else m).Evicted(capacity)
      ensures forall x, y :: x in s.Entries() && x !in state.Entries() && x != replaced
                             && y in state.Entries() && state.held[y] == 0 ==>
                x in released && y in released && released[x] < released[y]
    {
      hide State.Sound, Ordered, State.Entries, State.Cached, State.Made, State.Dropped, State.Evicted;
      forall x, y | x in s.Entries() && x !in state.Entries() && x != replaced
                    && y in state.Entries() && state.held[y] == 0
        ensures x in released && y in released && released[x] < released[y]
      {
        OldestGo(s, e, cached, replaced, capacity, released, clock, x, y);
      }
    }

    /** The new entry goes into the table, and the entry it replaces there out of the cache. */
    method Enter(e: Handle) returns (replaced: Handle?)
      requires Core() && table.Valid() && e in state.Entries() && table.members == state.Entries() - {e}
      requires Ordered(state.lru, released, clock)
      modifies this`state, this`usage, Nodes()`next, Nodes()`prev, Nodes()`refs, Nodes()`inCache
      modifies table`elems, table`list, table`chains, table`members, table.list, table.members`nextHash, e`nextHash
      ensures Valid() && (table.list == old(table.list) || fresh(table.list))
              && table.members <= old(table.members) + {e}
      ensures replaced != null ==>
                replaced in old(table.members) && Matches(replaced, e.key, e.hash)
                && state == old(state).Dropped(replaced)
      ensures replaced == null ==> state == old(state) && forall h :: h in old(table.members) ==>
                !Matches(h, e.key, e.hash)
    {
      hide Core, State.Usage, State.Sound, State.Entries, State.Dropped, State.Cached, HandleTable.Valid, Ordered;
      ghost var s := state;
      CoreFacts();
      replaced := EnterTable(e);
      if replaced != null {
        OneLess(s, replaced);
        DroppedOrdered(s, replaced, released, clock);
      }
      var erased := FinishErase(replaced);
    }

    method EnterTable(e: Handle) returns (replaced: Handle?)
      requires Core() && table.Valid() && e in state.Entries() && table.members == state.Entries() - {e}
      modifies table`elems, table`list, table`chains, table`members, table.list, table.members`nextHash, e`nextHash
      ensures Core() && table.Valid() && (table.list == old(table.list) || fresh(table.list))
      ensures table.members == if replaced != null then state.Entries() - {replaced} else state.Entries()
      ensures replaced != null ==> replaced != e && replaced in state.Entries() && Matches(replaced, e.key, e.hash)
      ensures replaced == null ==> forall h :: h in old(table.members) ==> !Matches(h, e.key, e.hash)
    {
      hide State.Entries, State.Sound, State.Usage, HandleTable.Valid;
      ghost var entries := state.Entries();
      ghost var l, u := state.lru, state.inUse;
      replaced := table.Insert(e);
      assert forall o :: o in Elems(l) || o in Elems(u) ==> o.next == old(o.next) && o.prev == old(o.prev);
      Swapped(entries, e, replaced);
    }

    /** Insert's first half: the new entry gets the cache's reference and joins the in-use list. */
    method Adopt(e: Handle)
      requires Core() && e !in state.all && e != lru && e != inUse && e.refs == 1 && !e.inCache
      modifies this`state, this`usage, Nodes()`next, Nodes()`prev, e`next, e`prev, e`refs, e`inCache
      ensures Core() && state == old(state).Made(e, capacity > 0)
    {
      hide Core, Ring, NoDup, Minus, State.Sound, State.Once, State.Apart, State.Usage, State.Made, State.Cached,
           Disjoint;
      ghost var s := state;
      CoreFacts();
      MadeCounts(s, e, capacity > 0);
      ListsDisjoint(s, lru, inUse);
      if capacity > 0 {
        e.refs := e.refs + 1;
        e.inCache := true;
        Join(e);
        usage := usage + e.charge;
      } else {
        // a cache without capacity keeps nothing
        LeaveOut(e);
      }
      assert forall o :: o in s.all ==> CountedIn(s, o);
      SettleMade(s, e, capacity > 0);
    }

    /** An entry that no list takes up. */
    method LeaveOut(e: Handle)
      requires Lists() && e !in state.lru && e !in state.inUse && e != lru && e != inUse
      modifies e`next
      ensures Lists() && e.next == null
    {
      ghost var l, u := state.lru, state.inUse;
      e.next := null;
      assert forall o :: o in Elems(l) || o in Elems(u) ==> o.next == old(o.next) && o.prev == old(o.prev);
    }

    /** LRU_Append, of a new entry to the in-use list. */
    method Join(e: Handle)
      requires Lists() && Disjoint(lru, state.lru, inUse, state.inUse) && e !in state.lru && e !in state.inUse
               && e != lru && e != inUse
      modifies state.inUse`next, inUse`next, inUse`prev, e`next, e`prev
      ensures Ring(lru, state.lru) && Ring(inUse, state.inUse + [e])
    {
      hide Minus, NoDup;
      ghost var l := state.lru;
      LruAppend(inUse, e, state.inUse);
      assert forall o :: o in Elems(l) ==> o.next == old(o.next) && o.prev == old(o.prev);
    }

    /** The state, once a new entry is made. */
    ghost method SettleMade(s: State, e: Handle, cached: bool)
      requires s.Sound() && e !in s.all && e != lru && e != inUse && HeadsApart() && state == s
      requires Ring(lru, s.lru) && Ring(inUse, if cached then s.inUse + [e] else s.inUse)
      requires e.inCache == cached && e.refs == (if cached then 2 else 1) && usage == s.Usage() + if cached
               then e.charge else 0
      requires forall o :: o in s.all ==> CountedIn(s, o)
      modifies this`state
      ensures Core() && state == s.Made(e, cached)
    {
      MadeCounts(s, e, cached);
      hide Ring, Minus, NoDup, State.Sound, State.Usage, State.Made, State.Cached;
      state := s.Made(e, cached);
    }

    /** Prune: every entry nobody holds goes. */
    method Prune()
      requires Valid()
      modifies this`state, this`usage, Nodes()`next, Nodes()`prev, Nodes()`refs, Nodes()`inCache
      modifies table`elems, table`chains, table`members, table.list, table.members`nextHash
      ensures Valid()
      ensures state == State(old(state.all), [], old(state.inUse), old(state.held), old(state.freed) + old(state.lru))
    {
      hide Core, Ring, State.Entries, State.Sound, State.Usage, HandleTable.Valid, Ordered;
      CoreFacts();
      ghost var s, n := state, 0;
      RingEnds(lru, state.lru);
      assert s.lru[0..] == s.lru && s.freed + [] == s.freed;
      while lru.next != lru
        invariant n <= |s.lru| && Valid() && state == State(s.all, s.lru[n..], s.inUse, s.held, s.freed + s.lru[..n])
        invariant table.members <= old(table.members) && table.list == old(table.list)
        invariant lru.next == if state.lru == [] then lru else state.lru[0]
        decreases |s.lru| - n
      {
        CoreFacts();
        EvictOldest();
        FrontGrows(s.freed, s.lru, n);
        n := n + 1;
      }
      CoreFacts();
      assert s.lru[..n] == s.lru;
    }

    static lemma FrontGrows(freed: seq<Handle>, lru: seq<Handle>, n: nat)
      requires n < |lru|
      ensures lru[n..] != [] && lru[n..][1..] == lru[n + 1..]
      ensures freed + lru[..n] + [lru[n..][0]] == freed + lru[..n + 1]
    {
    }

    /** One turn of the destructor's loop: the cache lets go of the next entry of the LRU list. */
    method DestroyOne(e: Handle, ghost s: State, ghost k: nat)
      requires k < |s.lru| && e == s.lru[k] && HeadsApart() && Ring(lru, s.lru)
               && (forall o :: o in s.lru ==> o in s.all)
      requires state == State(s.all, s.lru[k..], [], s.held, s.freed + s.lru[..k]) && state.Sound()
      requires forall o :: o in s.all ==> CountedIn(state, o)
      modifies this`state, e`refs, e`inCache, Nodes()`next, Nodes()`prev
      ensures state == State(s.all, s.lru[k + 1..], [], s.held, s.freed + s.lru[..k + 1]) && state.Sound()
      ensures HeadsApart() && Ring(lru, s.lru) && forall o :: o in s.all ==> CountedIn(state, o)
    {
      hide Minus, NoDup, State.Usage, State.Entries, State.Sound, State.Once, State.Apart, State.Cached;
      ghost var t, next := state, State(s.all, s.lru[k + 1..], [], s.held, s.freed + s.lru[..k + 1]);
      DestroyStep(s, t, next, k);
      assert CountedIn(t, e);
      e.inCache := false;
      Unref(e);
      assert forall o :: o in s.all && o != e ==> CountedIn(t, o);
      state := next;
    }

    /** The destructor: clients hold no cached entry any more; the cache lets go of all of them. */
    method Destroy()
      requires Valid() && state.inUse == []
      modifies this`state, state.all`refs, state.all`inCache, Nodes()`next, Nodes()`prev
      ensures state == State(old(state.all), [], [], old(state.held), old(state.freed) + old(state.lru))
              && state.Sound()
      ensures forall o :: o in state.all ==> CountedIn(state, o)
    {
      hide Ring, Minus, NoDup, State.Usage, State.Entries, HandleTable.Valid;
      ghost var s, k := state, 0;
      RingEnds(lru, s.lru);
      assert s.lru[0..] == s.lru && s.freed + [] == s.freed;
      var e := lru.next;
      while e != lru
        invariant k <= |s.lru| && e == Node(lru, s.lru, k + 1)
        invariant state == State(s.all, s.lru[k..], [], s.held, s.freed + s.lru[..k]) && state.Sound()
        invariant HeadsApart() && Ring(lru, s.lru) && forall o :: o in s.all ==> CountedIn(state, o)
        decreases |s.lru| - k
      {
        DestroyOne(e, s, k);
        RingStep(lru, s.lru, k + 1);
        e := e.next;
        k := k + 1;
      }
      assert s.lru[..k] == s.lru;
    }
  }

  lemma RingStep(head: Handle, s: seq<Handle>, k: nat)
    requires Ring(head, s) && k <= |s|
    ensures Node(head, s, k).next == Node(head, s, k + 1)
  {
  }

  lemma Swapped(entries: set<Handle>, e: Handle, r: Handle?)
    requires e in entries && (r != null ==> r in entries && r != e)
    ensures r == null ==> entries - {e} + {e} == entries
    ensures r != null ==> entries - {e} - {r} + {e} == entries - {r}
  {
  }

  lemma OneLess(s: State, e: Handle)
    requires s.Sound() && e in s.Entries()
    ensures s.Cached(e) && s.Dropped(e).Entries() == s.Entries() - {e}
  {
    LosesOne(s, e);
  }

  lemma EntriesMade(s: State, e: Handle, cached: bool)
    requires s.Sound() && e !in s.all
    ensures s.Made(e, cached).all == s.all + {e} && e !in s.Entries() && s.Made(e, cached).lru == s.lru
    ensures s.Made(e, cached).Entries() == (if cached then s.Entries() + {e} else s.Entries())
  {
    s.MadeIsSound(e, cached);
  }

  lemma MadeCounts(s: State, e: Handle, cached: bool)
    requires s.Sound() && e !in s.all
    ensures var t := s.Made(e, cached);
            && t.Sound() && t.all == s.all + {e} && t.lru == s.lru
               && t.inUse == (if cached then s.inUse + [e] else s.inUse)
            && t.Usage() == s.Usage() + (if cached then e.charge else 0)
            && t.held[e] == 1 && (t.Cached(e) <==> cached)
            && forall o :: o in s.all ==> t.Cached(o) == s.Cached(o) && t.held[o] == s.held[o]
    ensures NoDup(s.inUse) && e !in s.inUse && e !in s.lru
    ensures forall o :: o in s.lru || o in s.inUse ==> o in s.all
  {
    s.MadeIsSound(e, cached);
    assert e !in s.held && e !in s.lru && e !in s.inUse;
  }

  /** Dropping a reference that a client held is a release. */
  lemma UnrefIsRelease(s: State, e: Handle, refs: nat, inCache: bool)
    requires s.Sound() && e in s.held && inCache == s.Cached(e) && refs == s.held[e] - 1 + if inCache then 1 else 0
    ensures var t := AfterUnref(s, e, refs, inCache);
            s.Released(e) == State(t.all, t.lru, t.inUse, s.held - multiset{e}, t.freed)
    ensures refs == 0 ==> !inCache
    ensures inCache ==> e in s.inUse
  {
  }

  lemma ReleasedCounts(s: State, e: Handle)
    requires s.Sound() && e in s.held
    ensures s.Released(e).all == s.all && s.Released(e).held == s.held - multiset{e} && e in s.all
    ensures forall o :: o in s.all ==> s.Released(e).Cached(o) == s.Cached(o)
  {
    s.ReleasedKeeps(e);
    forall o | o in s.all
      ensures s.Released(e).Cached(o) == s.Cached(o)
    {
      SameCached(s, s.Released(e), o);
    }
  }

  /** The destructor's step, in terms of the state. */
  lemma DestroyStep(s: State, t: State, next: State, k: nat)
    requires k < |s.lru| && (forall o :: o in s.lru ==> o in s.all)
    requires t == State(s.all, s.lru[k..], [], s.held, s.freed + s.lru[..k]) && t.Sound()
    requires next == State(s.all, s.lru[k + 1..], [], s.held, s.freed + s.lru[..k + 1])
    ensures var e := s.lru[k];
            && t.Once() && t.Apart() && next.Sound() && e in t.all && t.Cached(e) && !next.Cached(e) && t.held[e] == 0
            && next == State(t.all, t.lru[1..], t.inUse, t.held, t.freed + [e])
            && forall o :: o in s.all && o != e ==> next.Cached(o) == t.Cached(o)
  {
    hide State.Usage;
    var e := s.lru[k];
    assert t.lru[0] == e && t.lru[1..] == s.lru[k + 1..] && t.freed + [e] == next.freed;
    t.OldestDropped();
    forall o | o in s.all
      ensures next.Cached(o) == (t.Cached(o) && o != e)
    {
      StillCached(t, next, e, o);
    }
  }

  lemma LosesOne(s: State, e: Handle)
    requires s.Sound() && s.Cached(e)
    ensures s.Dropped(e).Entries() == s.Entries() - {e}
  {
    s.DroppedLoses(e);
  }

  lemma SameCached(s: State, t: State, o: Handle)
    requires s.all == t.all && s.Entries() == t.Entries() && o in s.all
    ensures s.Cached(o) == t.Cached(o)
  {
    assert s.Cached(o) == (o in s.Entries()) && t.Cached(o) == (o in t.Entries());
  }

  lemma StillCached(s: State, t: State, e: Handle, o: Handle)
    requires s.all == t.all && t.Entries() == s.Entries() - {e} && o in s.all
    ensures t.Cached(o) == (s.Cached(o) && o != e)
  {
    assert s.Cached(o) == (o in s.Entries()) && t.Cached(o) == (o in t.Entries());
  }

  /** Out of the lists, and nothing else yet. */
  ghost function Unlinked(s: State, e: Handle): State {
    State(s.all, Minus(s.lru, e), Minus(s.inUse, e), s.held, s.freed)
  }

  lemma UnlinkedFacts(s: State, e: Handle)
    requires s.Once() && s.Apart() && s.Cached(e)
    ensures Unlinked(s, e).Once() && Unlinked(s, e).Apart()
    ensures Unlinked(s, e).all == s.all
    ensures if e in s.lru then Unlinked(s, e).inUse == s.inUse else Unlinked(s, e).lru == s.lru
    ensures !Unlinked(s, e).Cached(e) && forall o :: o in s.all && o != e ==>
              (Unlinked(s, e).Cached(o) <==> s.Cached(o))
  {
    if e !in s.lru { MinusNone(s.lru, e); } else { MinusNone(s.inUse, e); }
    MinusIs(s.lru, e);
    MinusIs(s.inUse, e);
    hide Minus, NoDup;
  }

  lemma ListsDisjoint(s: State, lru: Handle, inUse: Handle)
    requires s.Once() && s.Apart() && lru != inUse && lru !in s.all && inUse !in s.all
    ensures Disjoint(lru, s.lru, inUse, s.inUse) && Disjoint(inUse, s.inUse, lru, s.lru)
  {
  }

  /** What Unref does to the state, given the references that are left. */
  ghost function AfterUnref(s: State, e: Handle, refs: nat, inCache: bool): State {
    if refs == 0 then State(s.all, s.lru, s.inUse, s.held, s.freed + [e])
    else if refs == 1 && inCache then State(s.all, s.lru + [e], Minus(s.inUse, e), s.held, s.freed)
    else s
  }
}
