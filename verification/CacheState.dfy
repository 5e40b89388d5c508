/**
 What the LRU cache's operations mean (util/cache.cc:193-333): which entries are cached, which of those clients hold,
 and which have been given to their deleters.
 */
module CacheStates {
  import opened HandleTables

  /** The list without `e`. */
  ghost function Minus(s: seq<Handle>, e: Handle): seq<Handle> {
    if s == [] then [] else if s[0] == e then s[1..] else [s[0]] + Minus(s[1..], e)
  }

  lemma {:induction false} MinusAt(s: seq<Handle>, i: nat)
    requires NoDup(s) && i < |s|
    ensures Minus(s, s[i]) == s[..i] + s[i + 1..]
  {
    if i > 0 {
      MinusAt(s[1..], i - 1);
      assert s[1..][i - 1] == s[i] && [s[0]] + (s[1..][..i - 1] + s[1..][i..]) == s[..i] + s[i + 1..];
    }
  }

  lemma {:induction false} MinusNone(s: seq<Handle>, e: Handle)
    requires e !in s
    ensures Minus(s, e) == s
  {
    if s != [] { MinusNone(s[1..], e); }
  }

  lemma MinusIs(s: seq<Handle>, e: Handle)
    requires NoDup(s)
    ensures NoDup(Minus(s, e)) && (forall h :: h in Minus(s, e) ==> h in s && h != e)
    ensures forall h :: h in s && h != e ==> h in Minus(s, e)
  {
    hide Minus;
    if e in s {
      var i :| 0 <= i < |s| && s[i] == e;
      MinusAt(s, i);
      var r := Minus(s, e);
      assert forall k :: 0 <= k < |r| ==> r[k] == s[if k < i then k else k + 1];
      forall h | h in s && h != e
        ensures h in r
      {
        var k :| 0 <= k < |s| && s[k] == h;
        assert r[if k < i then k else k - 1] == h;
      }
    } else {
      MinusNone(s, e);
    }
  }

  lemma NoDupSnoc(s: seq<Handle>, e: Handle)
    requires NoDup(s) && e !in s
    ensures NoDup(s + [e]) && (forall h :: h in s + [e] ==> h in s || h == e)
  {
  }

  /** What a list of entries counts towards the capacity. */
  ghost function Charges(s: seq<Handle>): nat {
    if s == [] then 0 else s[0].charge + Charges(s[1..])
  }

  lemma {:induction false} ChargesSnoc(s: seq<Handle>, e: Handle)
    ensures Charges(s + [e]) == Charges(s) + e.charge
  {
    if s == [] {
      assert [] + [e] == [e] && [e][1..] == [];
    } else {
      ChargesSnoc(s[1..], e);
      assert (s + [e])[1..] == s[1..] + [e];
    }
  }

  lemma {:induction false} ChargesMinus(s: seq<Handle>, e: Handle)
    ensures Charges(s) == Charges(Minus(s, e)) + if e in s then e.charge else 0
  {
    if s != [] && s[0] != e { ChargesMinus(s[1..], e); }
  }

  /**
   `all`: every entry ever made; `lru`: cached and not held, oldest first; `inUse`: cached and held; `held`: the
   handles clients have and have not released; `freed`: the entries given to their deleters, in order.
   */
  datatype State = State(all: set<Handle>, lru: seq<Handle>, inUse: seq<Handle>, held: multiset<Handle>,
                         freed: seq<Handle>) {
    ghost predicate Cached(e: Handle) {
      e in lru || e in inUse
    }

    ghost function Entries(): set<Handle> {
      set e | e in all && Cached(e)
    }

    ghost function Usage(): nat {
      Charges(lru) + Charges(inUse)
    }

    /** No list holds an entry twice. */
    ghost predicate Once() {
      NoDup(lru) && NoDup(inUse) && NoDup(freed)
    }

    /** Cached entries are in the list for their handles; a freed one is neither cached nor held. */
    ghost predicate Apart() {
      && (forall e :: e in lru ==> e in all && held[e] == 0 && e !in freed)
      && (forall e :: e in inUse ==> e in all && held[e] > 0)
      && (forall e :: e in freed ==> e in all && held[e] == 0)
      && (forall e :: e in held ==> e in all)
    }

    /** Every entry is cached, held or freed. */
    ghost predicate NoneLost() {
      forall e :: e in all ==> e in lru || e in inUse || e in held || e in freed
    }

    ghost predicate Sound() {
      Once() && Apart() && NoneLost()
    }

    /** A client gets another handle on `e`. */
    ghost function Referenced(e: Handle): State {
      if e in lru then State(all, Minus(lru, e), inUse + [e], held + multiset{e}, freed)
      else this.(held := held + multiset{e})
    }

    /** A client gives back a handle on `e`. */
    ghost function Released(e: Handle): State {
      if held[e] > 1 then this.(held := held - multiset{e})
      else if e in inUse then State(all, lru + [e], Minus(inUse, e), held - multiset{e}, freed)
      else State(all, lru, inUse, held - multiset{e}, freed + [e])
    }

    /** The cache lets go of `e`. */
    ghost function Dropped(e: Handle): State {
      State(all, Minus(lru, e), Minus(inUse, e), held, if held[e] == 0 then freed + [e] else freed)
    }

    /** Cached entries nobody holds go, oldest first, until the rest fits. */
    ghost function Evicted(capacity: nat): State
      decreases |lru|
    {
      if Usage() > capacity && lru != [] then State(all, lru[1..], inUse, held, freed + [lru[0]]).Evicted(capacity)
        else this
    }

    /** A new entry for a client, cached or not. */
    ghost function Made(e: Handle, cached: bool): State {
      State(all + {e}, lru, if cached then inUse + [e] else inUse, held + multiset{e}, freed)
    }

    lemma ReferencedIsSound(e: Handle)
      requires Sound() && Cached(e)
      ensures Referenced(e).Sound()
    {
      if e in lru {
        MinusIs(lru, e);
        NoDupSnoc(inUse, e);
      }
      hide Minus, NoDup;
      assert Referenced(e).Once() && Referenced(e).Apart() && Referenced(e).NoneLost();
    }

    lemma ReferencedKeeps(e: Handle)
      requires Sound() && Cached(e)
      ensures Referenced(e).Entries() == Entries() && Referenced(e).Usage() == Usage()
    {
      MinusIs(lru, e);
      ChargesMinus(lru, e);
      ChargesSnoc(inUse, e);
      hide Minus, Charges, NoDup;
    }

    lemma CachedIsMade(e: Handle)
      requires Apart() && Cached(e)
      ensures e in all
    {
    }

    /** All of this, and what stays the same. */
    lemma ReferencedFacts(e: Handle)
      requires Sound() && Cached(e)
      ensures var t := Referenced(e);
              && t.Sound() && t.Usage() == Usage() && t.Entries() == Entries() && t.all == all && e in all
              && t.held == held + multiset{e} && t.Cached(e) && (held[e] == 0 <==> e in lru)
      ensures forall o :: o in all ==> Referenced(e).Cached(o) == Cached(o)
    {
      ReferencedIsSound(e);
      ReferencedKeeps(e);
      forall o | o in all
        ensures Referenced(e).Cached(o) == Cached(o)
      {
        assert Cached(o) == (o in Entries()) && Referenced(e).Cached(o) == (o in Referenced(e).Entries());
      }
    }

    lemma ReleasedIsSound(e: Handle)
      requires Sound() && e in held
      ensures Released(e).Sound()
    {
      var t := Released(e);
      if e in inUse {
        MinusIs(inUse, e);
        NoDupSnoc(lru, e);
      } else {
        NoDupSnoc(freed, e);
      }
      hide Minus, NoDup;
      assert t.Once() && t.Apart();
      assert t.NoneLost();
    }

    lemma ReleasedKeeps(e: Handle)
      requires Sound() && e in held
      ensures Released(e).Entries() == Entries() && Released(e).Usage() == Usage()
    {
      MinusIs(inUse, e);
      ChargesMinus(inUse, e);
      ChargesSnoc(lru, e);
      hide Minus, Charges, NoDup;
    }

    lemma DroppedIsSound(e: Handle)
      requires Sound() && Cached(e)
      ensures Dropped(e).Sound()
    {
      var t := Dropped(e);
      if held[e] == 0 { NoDupSnoc(freed, e); }
      MinusIs(lru, e);
      MinusIs(inUse, e);
      hide Minus, NoDup;
      assert t.Once() && t.Apart();
      assert t.NoneLost();
    }

    lemma DroppedLoses(e: Handle)
      requires Sound() && Cached(e)
      ensures Dropped(e).Entries() == Entries() - {e} && Usage() == Dropped(e).Usage() + e.charge
    {
      MinusIs(lru, e);
      MinusIs(inUse, e);
      ChargesMinus(lru, e);
      ChargesMinus(inUse, e);
      hide Minus, Charges, NoDup;
    }

    lemma OldestDropped()
      requires Sound() && lru != []
      ensures Dropped(lru[0]) == State(all, lru[1..], inUse, held, freed + [lru[0]])
      ensures Dropped(lru[0]).Sound() && Dropped(lru[0]).Entries() == Entries() - {lru[0]}
      ensures Usage() == Dropped(lru[0]).Usage() + lru[0].charge
    {
      DroppedIsSound(lru[0]);
      DroppedLoses(lru[0]);
      MinusNone(inUse, lru[0]);
    }

    lemma MadeIsSound(e: Handle, cached: bool)
      requires Sound() && e !in all
      ensures Made(e, cached).Sound()
      ensures Made(e, cached).Entries() == (if cached then Entries() + {e} else Entries())
      ensures Made(e, cached).Usage() == Usage() + (if cached then e.charge else 0)
    {
      ChargesSnoc(inUse, e);
      assert e !in held && e !in freed && e !in inUse && e !in lru;
      NoDupSnoc(inUse, e);
      hide Charges, NoDup;
    }

    /** Eviction drops the shortest front of the LRU list after which the rest fits, or all of it. */
    lemma {:induction false} EvictedIs(capacity: nat) returns (n: nat)
      requires Sound()
      ensures Evicted(capacity).Sound() && n <= |lru|
      ensures Evicted(capacity) == State(all, lru[n..], inUse, held, freed + lru[..n])
      ensures Evicted(capacity).Usage() <= capacity || n == |lru|
      ensures forall m :: 0 <= m < n ==> Charges(lru[m..]) + Charges(inUse) > capacity
      decreases |lru|
    {
      hide Sound, Charges, Dropped;
      n := 0;
      assert lru[0..] == lru && freed + [] == freed;
      if Usage() > capacity && lru != [] {
        OldestDropped();
        var k := Dropped(lru[0]).EvictedIs(capacity);
        n := k + 1;
        assert lru[1..][k..] == lru[n..] && freed + [lru[0]] + lru[1..][..k] == freed + lru[..n];
        forall m | 0 < m < n
          ensures Charges(lru[m..]) + Charges(inUse) > capacity
        {
          assert lru[m..] == lru[1..][m - 1..];
        }
      }
    }

    /** A handle given back is one fewer; an entry is freed when that was the last one and it is not cached. */
    lemma ReleasedMeans(e: Handle)
      requires Sound() && e in held
      ensures var t := Released(e);
              && t.all == all && t.Entries() == Entries() && t.held == held - multiset{e}
              && t.freed == if held[e] == 1 && !Cached(e) then freed + [e] else freed
    {
      ReleasedKeeps(e);
      hide Charges, Minus, NoDup;
    }

    /** The cache lets go of one entry; it is freed unless a client holds it. */
    lemma DroppedMeans(e: Handle)
      requires Sound() && Cached(e)
      ensures var t := Dropped(e);
              && t.all == all && t.Entries() == Entries() - {e} && t.held == held
              && t.freed == if held[e] > 0 then freed else freed + [e]
    {
      DroppedLoses(e);
      hide Charges, Minus, NoDup;
    }

    /** What an insertion leaves: the client's handle, no replaced entry, and no unheld entry over the capacity. */
    lemma InsertedMeans(e: Handle, cached: bool, replaced: Handle?, capacity: nat)
      requires Sound() && e !in all && (replaced != null ==> cached && Cached(replaced))
      ensures var m := Made(e, cached);
              var t := (if replaced != null then m.Dropped(replaced) else m).Evicted(capacity);
              && t.all == all + {e} && t.held == held + multiset{e} && (e in t.Entries() <==> cached)
              && t.Entries() <= Entries() + {e} && (replaced != null ==> replaced !in t.Entries())
              && (t.Usage() <= capacity || forall x :: x in t.Entries() ==> t.held[x] > 0)
              && (forall x :: x in Entries() && x !in t.Entries() ==> held[x] > 0 || x in t.freed)
              && (forall x :: x in t.freed && x !in freed ==> x in Entries() && x !in t.Entries() && held[x] == 0)
    {
      hide Charges, Minus, NoDup, Evicted, Usage;
      var m := Made(e, cached);
      MadeIsSound(e, cached);
      var d := if replaced != null then m.Dropped(replaced) else m;
      if replaced != null {
        m.DroppedIsSound(replaced);
        m.DroppedMeans(replaced);
      }
      var n := d.EvictedIs(capacity);
      var t := d.Evicted(capacity);
      assert d.lru == d.lru[..n] + d.lru[n..];
      FrontGoes(d, n, t);
    }

    static lemma FrontGoes(d: State, n: nat, t: State)
      requires d.Sound() && t.Sound() && n <= |d.lru|
      requires t == State(d.all, d.lru[n..], d.inUse, d.held, d.freed + d.lru[..n])
      ensures forall x :: x in d.Entries() && x !in t.Entries() ==> x in t.freed && d.held[x] == 0
      ensures forall x :: x in t.freed && x !in d.freed ==> x in d.Entries() && x !in t.Entries()
      ensures t.Entries() <= d.Entries() && forall x :: x in d.inUse ==> x in t.Entries()
      ensures n == |d.lru| ==> forall x :: x in t.Entries() ==> t.held[x] > 0
    {
      assert d.lru == d.lru[..n] + d.lru[n..];
      hide Charges, Minus, NoDup;
    }

    /** Once the cache is gone and every handle given back, every entry made has been freed, and only once. */
    lemma AllFreed()
      requires Sound() && lru == inUse == [] && held == multiset{}
      ensures (set e | e in freed) == all && NoDup(freed)
    {
    }
  }
}
