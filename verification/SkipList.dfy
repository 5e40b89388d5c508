/**
 The skip list behind a memtable (db/skiplist.h), pointer by pointer.  Every store an insertion makes leaves a list
 that readers may search: each level is a sorted sublist of the level below.  Stores are sequentially consistent.
 */
module SkipLists {

  const MAX_HEIGHT: nat := 12

  /** A key's rank in the comparator's total order. */
  type Key = real

  class Node {
    const key: Key
    /** One link a level, for as many levels as the node is high. */
    var next: seq<Node?>

    constructor (key: Key, height: nat)
      ensures this.key == key && |next| == height
    {
      this.key := key;
      next := seq(height, _ => null);
    }
  }

  /** `xs` with `x` put in at position `r`. */
  ghost function Inserted<T>(xs: seq<T>, r: nat, x: T): (ys: seq<T>)
    requires r <= |xs|
    ensures |ys| == |xs| + 1
    ensures forall p :: 0 <= p < |ys| ==> ys[p] == if p < r then xs[p] else if p == r then x else xs[p - 1]
  {
    xs[..r] + [x] + xs[r..]
  }

  ghost predicate Within<T>(xs: seq<T>, ys: seq<T>) {
    forall p :: 0 <= p < |xs| ==> xs[p] in ys
  }

  ghost predicate Ascending(ns: seq<Node>) {
    forall p, q :: 0 <= p < q < |ns| ==> ns[p].key < ns[q].key
  }

  lemma InsertedAscends(ns: seq<Node>, r: nat, x: Node)
    requires Ascending(ns) && r <= |ns|
    requires forall p :: 0 <= p < r ==> ns[p].key < x.key
    requires forall p :: r <= p < |ns| ==> x.key < ns[p].key
    ensures Ascending(Inserted(ns, r, x))
  {
  }

  ghost function KeysOf(ns: seq<Node>): seq<Key> {
    seq(|ns|, i requires 0 <= i < |ns| => ns[i].key)
  }

  lemma KeysOfInserted(ns: seq<Node>, r: nat, x: Node)
    requires r <= |ns|
    ensures KeysOf(Inserted(ns, r, x)) == Inserted(KeysOf(ns), r, x.key)
  {
  }

  /** The first `r` nodes of a level lie before `key` and the others at or after it. */
  ghost predicate Splits(ns: seq<Node>, r: nat, key: Key) {
    && r <= |ns|
    && (forall p :: 0 <= p < r ==> ns[p].key < key)
    && (forall p :: r <= p < |ns| ==> key <= ns[p].key)
  }

  /** `n` holds the r-th of these keys, null past the last, and the r-th is the first at or after `key`. */
  ghost predicate ReportsAt(keys: seq<Key>, key: Key, n: Node?, r: nat) {
    && r <= |keys| && (n == null <==> r == |keys|) && (r < |keys| ==> n != null && n.key == keys[r])
    && (forall p :: 0 <= p < r ==> keys[p] < key) && (forall p :: r <= p < |keys| ==> key <= keys[p])
  }

  /** `n` answers a search for `key` over these keys. */
  ghost predicate Reports(keys: seq<Key>, key: Key, n: Node?) {
    exists r :: ReportsAt(keys, key, n, r)
  }

  /** A search in progress: FindGreaterOrEqual's `x` and `level`. */
  datatype Search = Search(target: Key, node: Node, level: nat)

  class SkipList {
    const head: Node
    var maxHeight: nat
    /** The nodes linked at each level, in list order, without the head. */
    ghost var levels: seq<seq<Node>>
    ghost var repr: set<Node>

    /** The p-th node of a level; the head comes before the first. */
    ghost function NodeAt(ns: seq<Node>, p: nat): Node
      requires p <= |ns|
    {
      if p == 0 then head else ns[p - 1]
    }

    ghost function Successor(ns: seq<Node>, p: nat): Node?
      requires p <= |ns|
    {
      if p == |ns| then null else ns[p]
    }

    /** The nodes of level `l` are known, tall enough, and linked in order. */
    ghost predicate LevelOk(ns: seq<Node>, l: nat)
      reads `repr, repr
    {
      && Ascending(ns) && head in repr && l < |head.next|
      && (forall p :: 0 <= p < |ns| ==> ns[p] in repr && ns[p] != head && l < |ns[p].next|)
      && (forall p :: 0 <= p <= |ns| ==> NodeAt(ns, p).next[l] == Successor(ns, p))
    }

    /** The nodes of a level are also linked one level down. */
    ghost predicate Nested(l: nat)
      requires 0 < l < |levels|
      reads `levels
    {
      Within(levels[l], levels[l - 1])
    }

    ghost predicate Valid()
      reads this, repr
    {
      && |levels| == MAX_HEIGHT && 1 <= maxHeight <= MAX_HEIGHT && head in repr && |head.next| == MAX_HEIGHT
      && (forall l :: 0 <= l < MAX_HEIGHT ==> LevelOk(levels[l], l))
      && (forall l :: 0 < l < MAX_HEIGHT ==> Nested(l))
      && (forall l :: maxHeight <= l < MAX_HEIGHT ==> levels[l] == [])
    }

    /** The keys in the list, ascending. */
    ghost function Keys(): seq<Key>
      requires |levels| > 0
      reads `levels
    {
      KeysOf(levels[0])
    }

    constructor ()
      ensures Valid() && Keys() == [] && fresh(repr)
    {
      head := new Node(0.0, MAX_HEIGHT);
      maxHeight := 1;
      levels := seq(MAX_HEIGHT, _ => []);
      new;
      repr := {head};
      head.next := seq(MAX_HEIGHT, _ => null);
    }

    /** The link a search reads where it stands. */
    lemma LinkIs(l: nat, p: nat)
      requires Valid() && l < |levels| && p <= |levels[l]|
      ensures |levels| == MAX_HEIGHT && 1 <= maxHeight <= MAX_HEIGHT
      ensures l < |NodeAt(levels[l], p).next| && NodeAt(levels[l], p).next[l] == Successor(levels[l], p)
    {
      hide Valid;
      ValidLevel(l);
    }

    lemma ValidSizes()
      requires Valid()
      ensures |levels| == MAX_HEIGHT && 1 <= maxHeight <= MAX_HEIGHT
    {
    }

    lemma ValidLevel(l: nat)
      requires Valid() && l < |levels|
      ensures |levels| == MAX_HEIGHT && 1 <= maxHeight <= MAX_HEIGHT && LevelOk(levels[l], l)
    {
    }

    /** A node of a level is somewhere in the level below. */
    lemma Below(l: nat, p: nat) returns (q: nat)
      requires Valid() && 0 < l < MAX_HEIGHT && p <= |levels[l]|
      ensures q <= |levels[l - 1]| && NodeAt(levels[l - 1], q) == NodeAt(levels[l], p) && (q > 0 ==> p > 0)
    {
      if p == 0 {
        q := 0;
      } else {
        assert Nested(l);
        var i :| 0 <= i < |levels[l - 1]| && levels[l - 1][i] == levels[l][p - 1];
        q := i + 1;
      }
    }

    // ---------- searching ----------

    /** The position where a search stands: its node's, on its level. */
    ghost predicate At(s: Search, p: nat)
      requires s.level < |levels|
      reads `levels
    {
      p <= |levels[s.level]| && s.node == NodeAt(levels[s.level], p)
    }

    /** What a reader in mid-search relies on; insertions by the writer keep it. */
    ghost predicate Searching(s: Search)
      reads `levels
    {
      && s.level < |levels| && (s.node == head || (s.node in levels[s.level] && s.node.key < s.target))
    }

    lemma Locate(s: Search) returns (p: nat)
      requires Searching(s)
      ensures At(s, p)
    {
      if s.node == head {
        p := 0;
      } else {
        var i :| 0 <= i < |levels[s.level]| && levels[s.level][i] == s.node;
        p := i + 1;
      }
    }

    predicate KeyIsAfterNode(key: Key, n: Node?)
    {
      n != null && n.key < key
    }

    /**
     One turn of FindGreaterOrEqual's loop: one load of a link, then a move right, a move down or the answer.  The
     answer is exact for the list as it is at that load.
     */
    method SearchStep(s: Search, ghost p: nat) returns (done: bool, s': Search, ghost p': nat, found: Node?)
      requires Valid() && Searching(s) && At(s, p)
      ensures !done ==> Searching(s') && At(s', p') && s'.target == s.target
      ensures !done ==> s'.level < s.level || (s'.level == s.level && p' == p + 1)
      ensures done ==> IsFirstAtOrAfter(s.target, found)
    {
      assert LevelOk(levels[s.level], s.level);
      var next := s.node.next[s.level];
      found, s', p' := next, s, p;
      if KeyIsAfterNode(s.target, next) {
        done, s', p' := false, s.(node := next), p + 1;
        assert levels[s.level][p] in levels[s.level];
      } else if s.level == 0 {
        done := true;
        AnswerAt(s.target, p);
      } else {
        done, s' := false, s.(level := s.level - 1);
        p' := Below(s.level, p);
        assert p' > 0 ==> NodeAt(levels[s.level - 1], p') in levels[s.level - 1];
      }
    }

    lemma PositionsDiffer(l: nat, p: nat, q: nat)
      requires Valid() && l < MAX_HEIGHT && p < q <= |levels[l]|
      ensures NodeAt(levels[l], p) != NodeAt(levels[l], q)
    {
      assert LevelOk(levels[l], l);
    }

    /** `n` is the node with the least key that is not below `key`; null when all keys are below. */
    ghost predicate IsFirstAtOrAfter(key: Key, n: Node?)
      requires |levels| > 0
      reads `levels
    {
      exists r :: 0 <= r <= |levels[0]| && n == Successor(levels[0], r) && Splits(levels[0], r, key)
    }

    /** Neighbours around `key` split their level. */
    lemma SplitHere(l: nat, p: nat, key: Key)
      requires Valid() && l < MAX_HEIGHT && p <= |levels[l]|
      requires p > 0 ==> levels[l][p - 1].key < key
      requires p < |levels[l]| ==> key <= levels[l][p].key
      ensures Splits(levels[l], p, key)
    {
      assert LevelOk(levels[l], l);
    }

    lemma AnswerAt(key: Key, p: nat)
      requires Valid() && p <= |levels[0]|
      requires p > 0 ==> levels[0][p - 1].key < key
      requires p < |levels[0]| ==> key <= levels[0][p].key
      ensures IsFirstAtOrAfter(key, Successor(levels[0], p))
    {
      SplitHere(0, p, key);
    }

    /**
     FindGreaterOrEqual: the earliest node at or after `key`, and at every level in use the last node before it.
     */
    method FindGreaterOrEqual(key: Key) returns (found: Node?, prev: seq<Node>, ghost ranks: seq<nat>)
      requires Valid()
      ensures IsFirstAtOrAfter(key, found)
      ensures |prev| == |ranks| == MAX_HEIGHT
      ensures forall l :: 0 <= l < maxHeight ==>
          ranks[l] <= |levels[l]| && Splits(levels[l], ranks[l], key) && prev[l] == NodeAt(levels[l], ranks[l])
      ensures Splits(levels[0], ranks[0], key) && found == Successor(levels[0], ranks[0])
    {
      hide Splits, Valid;
      ValidSizes();
      var x, level: nat := head, maxHeight - 1;
      prev := seq(MAX_HEIGHT, _ => head);
      ranks := seq(MAX_HEIGHT, _ => 0);
      ghost var p: nat := 0;
      while true
        invariant 0 <= level < maxHeight && p <= |levels[level]| && x == NodeAt(levels[level], p)
        invariant p > 0 ==> x.key < key
        invariant |prev| == |ranks| == MAX_HEIGHT
        invariant forall l :: level < l < maxHeight ==>
          ranks[l] <= |levels[l]| && Splits(levels[l], ranks[l], key) && prev[l] == NodeAt(levels[l], ranks[l])
        decreases level, |levels[level]| - p
      {
        LinkIs(level, p);
        var next := x.next[level];
        if KeyIsAfterNode(key, next) {
          x, p := next, p + 1;
        } else {
          SplitHere(level, p, key);
          prev := prev[level := x];
          ranks := ranks[level := p];
          if level == 0 {
            return next, prev, ranks;
          }
          p := Below(level, p);
          level := level - 1;
        }
      }
    }

    /** FindLessThan: the latest node before `key`, the head when there is none. */
    method FindLessThan(key: Key) returns (x: Node, ghost r: nat)
      requires Valid()
      ensures Splits(levels[0], r, key) && x == NodeAt(levels[0], r)
    {
      var level: nat := maxHeight - 1;
      x, r := head, 0;
      while true
        invariant 0 <= level < maxHeight && r <= |levels[level]| && x == NodeAt(levels[level], r)
        invariant r > 0 ==> x.key < key
        decreases level, |levels[level]| - r
      {
        assert LevelOk(levels[level], level);
        var next := x.next[level];
        if next == null || next.key >= key {
          if level == 0 {
            SplitHere(0, r, key);
            return;
          }
          r := Below(level, r);
          level := level - 1;
        } else {
          x, r := next, r + 1;
        }
      }
    }

    /** FindLast: the last node, the head when the list is empty. */
    method FindLast() returns (x: Node)
      requires Valid()
      ensures x == NodeAt(levels[0], |levels[0]|)
    {
      var level: nat := maxHeight - 1;
      x := head;
      ghost var r: nat := 0;
      while true
        invariant 0 <= level < maxHeight && r <= |levels[level]| && x == NodeAt(levels[level], r)
        decreases level, |levels[level]| - r
      {
        assert LevelOk(levels[level], level);
        var next := x.next[level];
        if next == null {
          if level == 0 {
            return;
          }
          r := Below(level, r);
          level := level - 1;
        } else {
          x, r := next, r + 1;
        }
      }
    }

    /** Contains. */
    method Contains(key: Key) returns (b: bool)
      requires Valid()
      ensures b <==> key in Keys()
    {
      var x, prev, ranks := FindGreaterOrEqual(key);
      b := x != null && x.key == key;
      assert LevelOk(levels[0], 0);
      if b {
        assert Keys()[ranks[0]] == key;
      } else {
        assert forall i :: ranks[0] < i < |levels[0]| ==> levels[0][ranks[0]].key < levels[0][i].key;
      }
    }

    // ---------- inserting, store by store ----------

    /** A reader in mid-search stays well placed when a node is published. */
    lemma SearchSurvives(s: Search, was: seq<seq<Node>>, l: nat, r: nat, x: Node)
      requires l < |was| && r <= |was[l]| && levels == was[l := Inserted(was[l], r, x)] && s.level < |was|
      requires s.node == head || (s.node in was[s.level] && s.node.key < s.target)
      ensures Searching(s)
    {
      if s.node != head && s.level == l {
        InsertedHolds(was[l], r, x, s.node);
      }
    }

    /** The store to max_height_: the new levels are still empty. */
    method RaiseMaxHeight(height: nat)
      requires Valid() && maxHeight < height <= MAX_HEIGHT
      modifies this`maxHeight
      ensures Valid() && maxHeight == height
    {
      maxHeight := height;
    }

    /** The store to a link of the new node, at a level where it is not reachable yet. */
    method SetNextOfNew(x: Node, l: nat, to: Node?)
      requires Valid() && x != head && l < |x.next| && l < MAX_HEIGHT && x !in levels[l]
      modifies x
      ensures Valid() && x.next == old(x.next)[l := to]
    {
      x.next := x.next[l := to];
      forall i | 0 <= i < MAX_HEIGHT
        ensures LevelOk(levels[i], i)
      {
        assert old(LevelOk(levels[i], i));
      }
    }

    /** A level whose links are in order except after its r-th node, which leads to `x`. */
    ghost predicate Detoured(ns: seq<Node>, l: nat, r: nat, x: Node)
      reads `repr, repr
    {
      && Ascending(ns) && head in repr && l < |head.next|
      && (forall p :: 0 <= p < |ns| ==> ns[p] in repr && ns[p] != head && l < |ns[p].next|)
      && (forall p :: 0 <= p <= |ns| ==> NodeAt(ns, p).next[l] == if p == r then x else Successor(ns, p))
    }

    /** The store of a link: only level `l` changes, and only after its r-th node. */
    method SetNext(prev: Node, l: nat, x: Node, ghost r: nat)
      requires Valid() && l < MAX_HEIGHT && r <= |levels[l]| && prev == NodeAt(levels[l], r) && x != prev
      modifies prev
      ensures l < |old(prev.next)| && prev.next == old(prev.next)[l := x] && head in repr && |head.next| == MAX_HEIGHT
      ensures Detoured(levels[l], l, r, x)
      ensures forall i :: 0 <= i < MAX_HEIGHT && i != l ==> LevelOk(levels[i], i)
    {
      assert LevelOk(levels[l], l);
      OthersKeepLinks(l, r);
      prev.next := prev.next[l := x];
      forall i | 0 <= i < MAX_HEIGHT && i != l
        ensures LevelOk(levels[i], i)
      {
        assert old(LevelOk(levels[i], i));
      }
    }

    /** The store that makes the new node reachable at one level. */
    method Publish(x: Node, l: nat, prev: Node, ghost r: nat)
      requires Valid() && x != head && l < |x.next| && l < maxHeight && x !in levels[l]
      requires Place(levels[l], r, x.key, prev) && r <= |levels[l]| && x.next[l] == Successor(levels[l], r)
      requires forall p :: 0 <= p < |levels[l]| ==> levels[l][p].key != x.key
      requires l > 0 ==> x in levels[l - 1]
      modifies this`levels, this`repr, prev
      ensures Valid() && levels == old(levels)[l := Inserted(old(levels)[l], r, x)]
      ensures repr == old(repr) + {x} && x.next == old(x.next)
    {
      assert LevelOk(levels[l], l);
      assert r > 0 ==> levels[l][r - 1] in levels[l];
      InsertedAscends(levels[l], r, x);
      SetNext(prev, l, x, r);
      Enter(x, l, r);
    }

    /** The level as readers now see it. */
    ghost method Enter(x: Node, l: nat, r: nat)
      requires |levels| == MAX_HEIGHT && l < maxHeight <= MAX_HEIGHT && head in repr && |head.next| == MAX_HEIGHT
      requires x != head && l < |x.next| && r <= |levels[l]| && x.next[l] == Successor(levels[l], r)
      requires Ascending(Inserted(levels[l], r, x)) && Detoured(levels[l], l, r, x)
      requires forall i :: 0 <= i < MAX_HEIGHT && i != l ==> LevelOk(levels[i], i)
      requires forall i :: 0 < i < MAX_HEIGHT ==> Nested(i)
      requires forall i :: maxHeight <= i < MAX_HEIGHT ==> levels[i] == []
      requires l > 0 ==> x in levels[l - 1]
      modifies this`levels, this`repr
      ensures Valid() && levels == old(levels)[l := Inserted(old(levels)[l], r, x)] && repr == old(repr) + {x}
    {
      ghost var was := levels;
      DetourIsLevel(levels[l], l, r, x);
      levels := levels[l := Inserted(levels[l], r, x)];
      repr := repr + {x};
      forall i | 0 <= i < MAX_HEIGHT
        ensures LevelOk(levels[i], i)
      {
        assert i != l ==> old(LevelOk(levels[i], i)) && levels[i] == was[i];
      }
      forall i | 0 < i < MAX_HEIGHT
        ensures Nested(i)
      {
        assert old(Nested(i));
        StaysNested(was, l, r, x, i);
      }
    }

    /** No node at any level holds a key that is not in the list. */
    lemma {:induction false} AbsentEverywhere(key: Key, l: nat, p: nat)
      requires Valid() && key !in Keys() && l < MAX_HEIGHT && p < |levels[l]|
      ensures levels[l][p].key != key
    {
      if l == 0 {
        assert Keys()[p] != key;
      } else {
        assert Nested(l);
        var q :| 0 <= q < |levels[l - 1]| && levels[l - 1][q] == levels[l][p];
        AbsentEverywhere(key, l - 1, q);
      }
    }

    /** The positions an insertion of `key` links at: FindGreaterOrEqual, then the head for levels not used before. */
    method FindPlaces(key: Key, height: nat) returns (prev: seq<Node>, ghost ranks: seq<nat>)
      requires Valid() && 1 <= height <= MAX_HEIGHT
      modifies this`maxHeight
      ensures Valid() && height <= maxHeight && |levels| == |prev| == |ranks| == MAX_HEIGHT
      ensures forall l :: 0 <= l < height ==> Place(levels[l], ranks[l], key, prev[l])
    {
      hide Splits;
      var found;
      found, prev, ranks := FindGreaterOrEqual(key);
      if height > maxHeight {
        for i := maxHeight to height
          invariant Valid() && maxHeight == old(maxHeight) && |prev| == |ranks| == MAX_HEIGHT
          invariant forall l :: 0 <= l < i ==> Place(levels[l], ranks[l], key, prev[l])
        {
          prev := prev[i := head];
          ranks := ranks[i := 0];
          SplitHere(i, 0, key);
        }
        RaiseMaxHeight(height);
      }
    }

    /** `prev` is the r-th node of a level, the last one before `key`. */
    ghost predicate Place(ns: seq<Node>, r: nat, key: Key, prev: Node)
    {
      Splits(ns, r, key) && prev == if r == 0 then head else ns[r - 1]
    }

    /** The first of the two stores of one turn of Insert's loop: the new node points on. */
    method Prepare(x: Node, l: nat, prev: Node, ghost r: nat)
      requires Valid() && l < |levels| == MAX_HEIGHT && x != head && l < |x.next| && x !in levels[l]
      requires Place(levels[l], r, x.key, prev)
      modifies x
      ensures Valid() && |x.next| == |old(x.next)| && r <= |levels[l]| && x.next[l] == Successor(levels[l], r)
    {
      assert LevelOk(levels[l], l);
      SetNextOfNew(x, l, prev.next[l]);
    }

    /** The two stores that link the new node at one level. */
    method LinkAt(x: Node, l: nat, prev: Node, ghost r: nat)
      requires Valid() && |levels| == MAX_HEIGHT && x != head && l < |x.next| && l < maxHeight && x !in levels[l]
      requires Place(levels[l], r, x.key, prev)
      requires forall p :: 0 <= p < |levels[l]| ==> levels[l][p].key != x.key
      requires l > 0 ==> x in levels[l - 1]
      modifies this`levels, this`repr, prev, x
      ensures Valid() && levels == old(levels)[l := Inserted(old(levels)[l], r, x)]
      ensures repr == old(repr) + {x} && |x.next| == |old(x.next)|
    {
      Prepare(x, l, prev, r);
      Publish(x, l, prev, r);
    }

    /** The loop of Insert: link the new node level by level, from the bottom. */
    method LinkAll(x: Node, height: nat, prev: seq<Node>, ghost ranks: seq<nat>)
      requires Valid() && 1 <= height <= maxHeight <= MAX_HEIGHT && |levels| == |prev| == |ranks| == MAX_HEIGHT
      requires x != head && x !in repr && |x.next| == height
      requires forall l, p :: 0 <= l < MAX_HEIGHT && 0 <= p < |levels[l]| ==>
                 levels[l][p].key != x.key && levels[l][p] in repr
      requires forall l :: 0 <= l < height ==> Place(levels[l], ranks[l], x.key, prev[l])
      modifies this`levels, this`repr, repr, x
      ensures Valid() && repr == old(repr) + {x}
      ensures Ranked(old(levels), ranks, height) && levels == Grown(old(levels), ranks, height, x, height)
    {
      hide Valid, Place, Grown, Within;
      ghost var was: seq<seq<Node>> := levels;
      forall l | 0 <= l < height
        ensures ranks[l] <= |was[l]| && prev[l] in repr
      {
        PlaceFacts(l, ranks[l], x.key, prev[l]);
      }
      GrownFacts(was, ranks, height, x, 0);
      for i := 0 to height
        invariant Valid() && |levels| == MAX_HEIGHT && |x.next| == height
        invariant repr == if i == 0 then old(repr) else old(repr) + {x}
        invariant levels == Grown(was, ranks, height, x, i)
      {
        GrownFacts(was, ranks, height, x, i);
        LinkAt(x, i, prev[i], ranks[i]);
      }
    }

    /**
     Insert.  After each store the list is valid, and holds the old keys until the first link to the new node is
     published and the old keys with the new one from then on; no level ever loses a node a reader may stand on.
     */
    method Insert(key: Key, draws: seq<nat>)
      requires Valid() && key !in Keys()
      modifies this, repr
      ensures Valid() && fresh(repr - old(repr)) && |levels| == |old(levels)| == MAX_HEIGHT
      ensures exists r :: 0 <= r <= |old(Keys())| && Keys() == Inserted(old(Keys()), r, key)
      ensures forall l :: 0 <= l < MAX_HEIGHT ==> Within(old(levels)[l], levels[l])
    {
      ValidFacts(key);
      ghost var was: seq<seq<Node>> := levels;
      var height := RandomHeight(draws);
      var prev, ranks := FindPlaces(key, height);
      var x := new Node(key, height);
      LinkAll(x, height, prev, ranks);
      hide Valid, KeysOf, Grown, Ranked;
      GrownFacts(was, ranks, height, x, height);
      KeysOfInserted(was[0], ranks[0], x);
    }

    lemma ExactNow(key: Key, n: Node?)
      requires |levels| > 0 && IsFirstAtOrAfter(key, n)
      ensures Reports(Keys(), key, n)
    {
      var r :| 0 <= r <= |levels[0]| && n == Successor(levels[0], r) && Splits(levels[0], r, key);
      assert ReportsAt(Keys(), key, n, r);
    }

    /** The new node belongs after the r-th node of the level, `prev`. */
    ghost predicate Room(ns: seq<Node>, inside: set<Node>, r: nat, x: Node, prev: Node) {
      && Place(ns, r, x.key, prev) && r <= |ns| && prev in inside && x !in ns
      && forall p :: 0 <= p < |ns| ==> ns[p].key != x.key
    }

    lemma RoomForAll(x: Node, height: nat, prev: seq<Node>, ranks: seq<nat>)
      requires Valid() && height <= MAX_HEIGHT && |levels| == |prev| == |ranks| == MAX_HEIGHT && x !in repr
      requires forall l, p :: 0 <= l < MAX_HEIGHT && 0 <= p < |levels[l]| ==>
                 levels[l][p].key != x.key && levels[l][p] in repr
      requires forall l :: 0 <= l < height ==> Place(levels[l], ranks[l], x.key, prev[l])
      ensures forall l :: 0 <= l < height ==> Room(levels[l], repr, ranks[l], x, prev[l])
    {
      hide Valid, Place;
      forall l | 0 <= l < height
        ensures Room(levels[l], repr, ranks[l], x, prev[l])
      {
        PlaceFacts(l, ranks[l], x.key, prev[l]);
      }
    }

    lemma RoomRanked(was: seq<seq<Node>>, inside: set<Node>, x: Node, height: nat, prev: seq<Node>, ranks: seq<nat>)
      requires height <= |was| == |prev| == |ranks|
      requires forall l :: 0 <= l < height ==> Room(was[l], inside, ranks[l], x, prev[l])
      ensures Ranked(was, ranks, height) && forall l :: 0 <= l < height ==> prev[l] in inside
    {
    }

    /** The writer's next store at level `l`: the new node's own link, then the link of its predecessor. */
    method WriterStep(x: Node, l: nat, prev: Node, ghost r: nat, prepared: bool, ghost inside: set<Node>)
      returns (linked: bool)
      requires Valid() && l < |levels| == MAX_HEIGHT && x != head && l < |x.next| && l < maxHeight
      requires Room(levels[l], inside, r, x, prev)
      requires l > 0 ==> x in levels[l - 1]
      requires prepared ==> r <= |levels[l]| && x.next[l] == Successor(levels[l], r)
      modifies this`levels, this`repr, prev, x
      ensures Valid() && |x.next| == |old(x.next)| && linked == prepared
      ensures linked ==> levels == old(levels)[l := Inserted(old(levels)[l], r, x)] && repr == old(repr) + {x}
      ensures !linked ==> levels == old(levels) && repr == old(repr)
      ensures !linked ==> r <= |levels[l]| && x.next[l] == Successor(levels[l], r)
    {
      hide Valid, Place, Successor;
      if prepared {
        Publish(x, l, prev, r);
      } else {
        Prepare(x, l, prev, r);
      }
      linked := prepared;
    }

    /** One load of the search. */
    method ReaderStep(s: Search, ghost p: nat) returns (done: bool, s': Search, ghost p': nat, found: Node?)
      requires Valid() && |levels| == MAX_HEIGHT && Searching(s) && At(s, p)
      ensures s'.target == s.target && s'.level < MAX_HEIGHT && p' <= |levels[s'.level]|
      ensures !done ==> Searching(s') && At(s', p')
      ensures !done ==> s'.level < s.level || (s'.level == s.level && p' == p + 1)
      ensures done ==> s' == s && p' == p && Reports(Keys(), s.target, found)
    {
      hide Valid, IsFirstAtOrAfter, KeysOf;
      done, s', p', found := SearchStep(s, p);
      if done {
        ExactNow(s.target, found);
        s', p' := s, p;
      }
    }

    /** The stores of Insert's loop and the loads of one search, interleaved as scheduled. */
    method Interleave(x: Node, height: nat, prev: seq<Node>, ghost ranks: seq<nat>, start: Search, schedule: seq<bool>)
      returns (found: Node?)
      requires Valid() && 1 <= height <= maxHeight <= MAX_HEIGHT && |levels| == |prev| == |ranks| == MAX_HEIGHT
      requires x != head && x !in repr && |x.next| == height && Searching(start)
      requires forall l :: 0 <= l < height ==> Room(levels[l], repr, ranks[l], x, prev[l])
      modifies this`levels, this`repr, repr, x
      ensures Valid() && repr == old(repr) + {x}
      ensures Ranked(old(levels), ranks, height) && levels == Grown(old(levels), ranks, height, x, height)
      ensures Reports(old(Keys()), start.target, found) || Reports(Keys(), start.target, found)
    {
      hide Valid, Room, Grown, Within, KeysOf, Reports, Ranked;
      ghost var was: seq<seq<Node>>, inside := levels, repr;
      RoomRanked(was, inside, x, height, prev, ranks);
      GrownAt(was, ranks, height, x, 0);
      GrownAt(was, ranks, height, x, height);
      GrownKeys(was, ranks, height, x);
      ghost var before, after := KeysOf(was[0]), KeysOf(Grown(was, ranks, height, x, height)[0]);
      ghost var seen := before;
      ghost var p: nat := Locate(start);
      var i, n, prepared, done := 0, 0, false, false;
      var s := start;
      found := null;
      while i < height || !done
        invariant Valid() && 0 <= i <= height && |levels| == MAX_HEIGHT && |x.next| == height
        invariant repr == (if i == 0 then old(repr) else old(repr) + {x}) && levels == Grown(was, ranks, height, x, i)
        invariant prepared ==> i < height && ranks[i] <= |levels[i]| && x.next[i] == Successor(levels[i], ranks[i])
        invariant s.target == start.target && s.level < MAX_HEIGHT && p <= |levels[s.level]|
        invariant !done ==> Searching(s) && At(s, p)
        invariant done ==> seen in {before, after} && Reports(seen, s.target, found)
        decreases height - i, !prepared, !done, s.level, |levels[s.level]| - p
      {
        GrownAt(was, ranks, height, x, i);
        if i < height && (done || (n < |schedule| && !schedule[n])) {
          var linked := WriterStep(x, i, prev[i], ranks[i], prepared, inside);
          if linked {
            if !done {
              SearchSurvives(s, Grown(was, ranks, height, x, i), i, ranks[i], x);
              p := Locate(s);
            }
            i := i + 1;
          }
          prepared := !linked;
        } else {
          done, s, p, found := ReaderStep(s, p);
          seen := KeysOf(levels[0]);
        }
        n := n + 1;
      }
    }

    /**
     One insertion and one search, their stores and loads interleaved in any order.  The search answers for the keys
     before the insertion or for the keys after it.  A true entry of the schedule lets the reader go next.
     */
    method InsertWhileReading(key: Key, draws: seq<nat>, target: Key, early: bool, schedule: seq<bool>)
      returns (found: Node?)
      requires Valid() && key !in Keys()
      modifies this, repr
      ensures Valid() && fresh(repr - old(repr))
      ensures exists r :: 0 <= r <= |old(Keys())| && Keys() == Inserted(old(Keys()), r, key)
      ensures Reports(old(Keys()), target, found) || Reports(Keys(), target, found)
    {
      ValidFacts(key);
      ghost var was: seq<seq<Node>> := levels;
      var s := Search(target, head, maxHeight - 1);
      var height := RandomHeight(draws);
      var prev, ranks := FindPlaces(key, height);
      if !early {
        s := Search(target, head, maxHeight - 1);
      }
      var x := new Node(key, height);
      RoomForAll(x, height, prev, ranks);
      found := Interleave(x, height, prev, ranks, s, schedule);
      hide Valid, KeysOf, Grown, Ranked, Reports;
      GrownFacts(was, ranks, height, x, height);
      KeysOfInserted(was[0], ranks[0], x);
    }

    /** Only the lowest level holds the keys. */
    lemma GrownKeys(was: seq<seq<Node>>, ranks: seq<nat>, height: nat, x: Node)
      requires Ranked(was, ranks, height) && 0 < height
      ensures forall j :: 0 <= j <= height ==>
        Grown(was, ranks, height, x, j)[0] == if j == 0 then was[0] else Grown(was, ranks, height, x, height)[0]
    {
    }

    lemma ValidFacts(key: Key)
      requires Valid() && key !in Keys()
      ensures |levels| == MAX_HEIGHT && head in repr
      ensures forall l, p :: 0 <= l < MAX_HEIGHT && 0 <= p < |levels[l]| ==>
        levels[l][p].key != key && levels[l][p] in repr
    {
      forall l, p | 0 <= l < MAX_HEIGHT && 0 <= p < |levels[l]|
        ensures levels[l][p].key != key && levels[l][p] in repr
      {
        AbsentEverywhere(key, l, p);
        assert LevelOk(levels[l], l);
      }
    }

    lemma PlaceFacts(l: nat, r: nat, key: Key, prev: Node)
      requires Valid() && l < MAX_HEIGHT == |levels| && Place(levels[l], r, key, prev)
      ensures r <= |levels[l]| && prev in repr
    {
      assert LevelOk(levels[l], l);
    }

    /** RandomHeight: one more level for each draw in a row that is divisible by 4. */
    method RandomHeight(draws: seq<nat>) returns (height: nat)
      ensures 1 <= height <= MAX_HEIGHT
    {
      height := 1;
      while height < MAX_HEIGHT && height - 1 < |draws| && draws[height - 1] % 4 == 0
        invariant 1 <= height <= MAX_HEIGHT
      {
        height := height + 1;
      }
    }

    /** Read with the new node in it, a detour through that node is a level in order. */
    lemma DetourIsLevel(ns: seq<Node>, l: nat, r: nat, x: Node)
      requires Detoured(ns, l, r, x) && r <= |ns| && x != head && l < |x.next| && x.next[l] == Successor(ns, r)
      requires Ascending(Inserted(ns, r, x))
      ensures forall p :: 0 <= p <= |ns| + 1 ==>
        l < |NodeAt(Inserted(ns, r, x), p).next| && NodeAt(Inserted(ns, r, x), p).next[l]
          == Successor(Inserted(ns, r, x), p)
    {
      var ms := Inserted(ns, r, x);
      forall p | 0 <= p <= |ms|
        ensures l < |NodeAt(ms, p).next| && NodeAt(ms, p).next[l] == Successor(ms, p)
      {
        if p <= r {
          assert NodeAt(ms, p) == NodeAt(ns, p);
        } else if p > r + 1 {
          assert NodeAt(ms, p) == NodeAt(ns, p - 1);
        }
      }
    }

    lemma OthersKeepLinks(l: nat, r: nat)
      requires Valid() && l < MAX_HEIGHT && r <= |levels[l]|
      ensures forall p :: 0 <= p <= |levels[l]| && p != r ==> NodeAt(levels[l], p) != NodeAt(levels[l], r)
    {
      forall p | 0 <= p <= |levels[l]| && p != r
        ensures NodeAt(levels[l], p) != NodeAt(levels[l], r)
      {
        if p < r { PositionsDiffer(l, p, r); } else { PositionsDiffer(l, r, p); }
      }
    }
  }

  /** SkipList::Iterator: a cursor over the keys in ascending order. */
  class Iterator {
    const list: SkipList
    var node: Node?
    /** Index of the node among the list's nodes; their number when not valid. */
    ghost var pos: nat

    ghost predicate Ok()
      reads this, list, list.repr
    {
      list.Valid() && pos <= |list.levels[0]| && node == list.Successor(list.levels[0], pos)
    }

    constructor (list: SkipList)
      requires list.Valid()
      ensures Ok() && this.list == list && pos == |list.Keys()|
    {
      this.list, node, pos := list, null, |list.levels[0]|;
    }

    predicate Valid()
      reads this
    {
      node != null
    }

    method GetKey() returns (k: Key)
      requires Ok() && Valid()
      ensures pos < |list.Keys()| && k == list.Keys()[pos]
    {
      k := node.key;
    }

    method Next()
      requires Ok() && Valid()
      modifies this
      ensures Ok() && pos == old(pos) + 1
    {
      assert list.LevelOk(list.levels[0], 0);
      assert node == list.NodeAt(list.levels[0], pos + 1);
      node, pos := node.next[0], pos + 1;
    }

    /** Prev searches for the last node before the current key: there are no back links. */
    method Prev()
      requires Ok() && Valid()
      modifies this
      ensures Ok() && pos == if old(pos) == 0 then |list.Keys()| else old(pos) - 1
    {
      assert list.LevelOk(list.levels[0], 0);
      var x, r := list.FindLessThan(node.key);
      assert r == pos;
      node := x;
      if node == list.head {
        node := null;
      }
      pos := if r == 0 then |list.levels[0]| else r - 1;
    }

    method Seek(target: Key)
      requires Ok()
      modifies this
      ensures Ok() && (forall p :: 0 <= p < pos ==> list.Keys()[p] < target)
      ensures forall p :: pos <= p < |list.Keys()| ==> target <= list.Keys()[p]
    {
      var found, prev, ranks := list.FindGreaterOrEqual(target);
      node := found;
      pos := ranks[0];
    }

    method SeekToFirst()
      requires Ok()
      modifies this
      ensures Ok() && pos == 0
    {
      assert list.LevelOk(list.levels[0], 0);
      assert list.NodeAt(list.levels[0], 0) == list.head;
      node, pos := list.head.next[0], 0;
    }

    method SeekToLast()
      requires Ok()
      modifies this
      ensures Ok() && pos == if list.Keys() == [] then 0 else |list.Keys()| - 1
    {
      assert list.LevelOk(list.levels[0], 0);
      node := list.FindLast();
      if node == list.head {
        node := null;
      }
      pos := if |list.levels[0]| == 0 then 0 else |list.levels[0]| - 1;
    }
  }

  lemma InsertedHolds<T>(xs: seq<T>, r: nat, x: T, y: T)
    requires r <= |xs|
    ensures y in Inserted(xs, r, x) <==> y in xs || y == x
  {
    if y in xs {
      var i :| 0 <= i < |xs| && xs[i] == y;
      assert Inserted(xs, r, x)[if i < r then i else i + 1] == y;
    }
    assert Inserted(xs, r, x)[r] == x;
  }

  /** Putting `x` into a level below which it is linked already keeps each level within the one below. */
  lemma StaysNested<T>(levels: seq<seq<T>>, l: nat, r: nat, x: T, i: nat)
    requires 0 < i < |levels| && l < |levels| && r <= |levels[l]|
    requires Within(levels[i], levels[i - 1]) && (l > 0 ==> x in levels[l - 1])
    ensures var now := levels[l := Inserted(levels[l], r, x)]; Within(now[i], now[i - 1])
  {
    var now := levels[l := Inserted(levels[l], r, x)];
    forall p | 0 <= p < |now[i]|
      ensures now[i][p] in now[i - 1]
    {
      var y := now[i][p];
      assert y in now[i];
      if i == l { InsertedHolds(levels[l], r, x, y); }
      if i - 1 == l { InsertedHolds(levels[l], r, x, y); }
      assert y in levels[i] ==> y in levels[i - 1];
    }
  }

  ghost predicate Ranked<T>(was: seq<seq<T>>, ranks: seq<nat>, height: nat) {
    height <= |was| && height <= |ranks| && forall l :: 0 <= l < height ==> ranks[l] <= |was[l]|
  }

  /** The levels once `x` is linked at the lowest `i` of them. */
  ghost function Grown<T>(was: seq<seq<T>>, ranks: seq<nat>, height: nat, x: T, i: nat): seq<seq<T>>
    requires Ranked(was, ranks, height) && i <= height
  {
    seq(|was|, l requires 0 <= l < |was| => if l < i then Inserted(was[l], ranks[l], x) else was[l])
  }

  lemma GrownFacts<T>(was: seq<seq<T>>, ranks: seq<nat>, height: nat, x: T, i: nat)
    requires Ranked(was, ranks, height) && i <= height
    ensures var now := Grown(was, ranks, height, x, i);
            && |now| == |was| && (i == 0 ==> now == was)
            && (forall l :: i <= l < |was| ==> now[l] == was[l])
            && (forall l :: 0 <= l < i ==>
              ranks[l] <= |was[l]| && now[l] == Inserted(was[l], ranks[l], x)
              && x in now[l])
            && (forall l :: 0 <= l < |was| ==> Within(was[l], now[l]))
    ensures i < height ==>
      Grown(was, ranks, height, x, i + 1) == Grown(was, ranks, height, x, i)[i := Inserted(was[i], ranks[i], x)]
  {
    forall l, y | 0 <= l < i
      ensures y in was[l] || y == x <==> y in Inserted(was[l], ranks[l], x)
    {
      InsertedHolds(was[l], ranks[l], x, y);
    }
  }

  /** What the next store of the writer relies on. */
  lemma GrownAt<T>(was: seq<seq<T>>, ranks: seq<nat>, height: nat, x: T, i: nat)
    requires Ranked(was, ranks, height) && i <= height
    ensures var now := Grown(was, ranks, height, x, i);
            && |now| == |was| && (i == 0 ==> now == was)
            && (i < |was| ==> now[i] == was[i]) && (i > 0 ==> x in now[i - 1])
    ensures i < height ==>
      Grown(was, ranks, height, x, i + 1) == Grown(was, ranks, height, x, i)[i := Inserted(was[i], ranks[i], x)]
  {
    GrownFacts(was, ranks, height, x, i);
  }
}
