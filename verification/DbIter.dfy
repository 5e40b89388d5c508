/**
 The user-visible iterator (db/db_iter.cc): a cursor over the ascending list of user keys whose newest entry at or
 below the iterator's sequence is a value.  It moves over an internal iterator in both directions.
 */
module UserIterator {
  import opened Keys
  import opened Lookup
  import opened Cursors

  // ---------- what the iterator is supposed to show ----------

  predicate Seen(es: seq<Entry>, s: SequenceNumber, i: nat)
    requires i < |es|
  {
    es[i].key.sequence <= s
  }

  /** The i-th entry is the newest visible entry of its user key, and a value. */
  ghost predicate Shown(es: seq<Entry>, s: SequenceNumber, i: nat)
    requires i < |es|
  {
    && Seen(es, s, i) && es[i].key.kind.Value?
    && forall j :: 0 <= j < i && es[j].key.user == es[i].key.user ==> !Seen(es, s, j)
  }

  ghost predicate NoneShown(es: seq<Entry>, s: SequenceNumber, from: int, to: int)
    requires 0 <= from && to <= |es|
  {
    forall j :: from <= j < to ==> !Shown(es, s, j)
  }

  /** The visible keys and values among the first `n` entries. */
  ghost function VisibleTo(es: seq<Entry>, s: SequenceNumber, n: nat): seq<(UserKey, Bytes)>
    requires n <= |es|
  {
    if n == 0 then []
    else VisibleTo(es, s, n - 1) + (if Shown(es, s, n - 1) then [(es[n - 1].key.user, es[n - 1].value)] else [])
  }

  ghost function Visible(es: seq<Entry>, s: SequenceNumber): seq<(UserKey, Bytes)> {
    VisibleTo(es, s, |es|)
  }

  lemma {:induction false} VisibleToSkips(es: seq<Entry>, s: SequenceNumber, a: nat, b: nat)
    requires a <= b <= |es| && NoneShown(es, s, a, b)
    ensures VisibleTo(es, s, b) == VisibleTo(es, s, a)
  {
    if a < b { VisibleToSkips(es, s, a, b - 1); }
  }

  lemma {:induction false} VisibleToIsPrefix(es: seq<Entry>, s: SequenceNumber, a: nat, b: nat)
    requires a <= b <= |es|
    ensures |VisibleTo(es, s, a)| <= |VisibleTo(es, s, b)|
    ensures VisibleTo(es, s, a) == VisibleTo(es, s, b)[..|VisibleTo(es, s, a)|]
  {
    if a < b { VisibleToIsPrefix(es, s, a, b - 1); }
  }

  /** A shown entry sits in the visible list at the number of shown entries before it. */
  lemma ShownAtRank(es: seq<Entry>, s: SequenceNumber, c: nat)
    requires c < |es| && Shown(es, s, c)
    ensures |VisibleTo(es, s, c)| < |Visible(es, s)|
    ensures Visible(es, s)[|VisibleTo(es, s, c)|] == (es[c].key.user, es[c].value)
    ensures |VisibleTo(es, s, c + 1)| == |VisibleTo(es, s, c)| + 1
  {
    VisibleToIsPrefix(es, s, c + 1, |es|);
    assert VisibleTo(es, s, c + 1)[|VisibleTo(es, s, c)|] == (es[c].key.user, es[c].value);
  }

  lemma {:induction false} VisibleKeysBounded(es: seq<Entry>, s: SequenceNumber, n: nat, i: nat)
    requires Sorted(es) && n <= |es| && i < |VisibleTo(es, s, n)|
    ensures exists c :: 0 <= c < n && Shown(es, s, c) && VisibleTo(es, s, n)[i] == (es[c].key.user, es[c].value)
                        && |VisibleTo(es, s, c)| == i
  {
    if i < |VisibleTo(es, s, n - 1)| {
      VisibleKeysBounded(es, s, n - 1, i);
    } else {
      assert Shown(es, s, n - 1);
    }
  }

  /** The visible list ascends strictly by user key. */
  lemma {:induction false} VisibleAscends(es: seq<Entry>, s: SequenceNumber, n: nat, i: nat, j: nat)
    requires Sorted(es) && n <= |es| && i < j < |VisibleTo(es, s, n)|
    ensures VisibleTo(es, s, n)[i].0 < VisibleTo(es, s, n)[j].0
  {
    VisibleKeysBounded(es, s, n, i);
    VisibleKeysBounded(es, s, n, j);
    var c :| 0 <= c < n && Shown(es, s, c) && VisibleTo(es, s, n)[i] == (es[c].key.user, es[c].value)
      && |VisibleTo(es, s, c)| == i;
    var d :| 0 <= d < n && Shown(es, s, d) && VisibleTo(es, s, n)[j] == (es[d].key.user, es[d].value)
      && |VisibleTo(es, s, d)| == j;
    if d <= c { VisibleToIsPrefix(es, s, d, c); }
    assert c < d;
    assert Less(es[c].key, es[d].key);
  }

  /** The visible list is the map of reads at `s`: it holds (k, v) exactly when a read of `k` answers `v`. */
  lemma VisibleIsReads(es: seq<Entry>, s: SequenceNumber, k: UserKey, v: Bytes)
    requires Sorted(es) && UniqueStamps(EntrySet(es))
    ensures (k, v) in Visible(es, s) <==> Answer(EntrySet(es), k, s) == Some(v)
  {
    if (k, v) in Visible(es, s) {
      var i :| 0 <= i < |Visible(es, s)| && Visible(es, s)[i] == (k, v);
      VisibleKeysBounded(es, s, |es|, i);
      var c :| 0 <= c < |es| && Shown(es, s, c) && Visible(es, s)[i] == (es[c].key.user, es[c].value);
      ShownIsNewest(es, s, c);
      AnswerIs(EntrySet(es), k, s, es[c]);
    }
    if Answer(EntrySet(es), k, s) == Some(v) {
      var e := NewestExists(EntrySet(es), k, s);
      if e.None? { AnswerAbsent(EntrySet(es), k, s); }
      AnswerIs(EntrySet(es), k, s, e.value);
      var c :| 0 <= c < |es| && es[c] == e.value;
      NewestIsShown(es, s, k, c);
      ShownAtRank(es, s, c);
    }
  }

  lemma ShownIsNewest(es: seq<Entry>, s: SequenceNumber, c: nat)
    requires Sorted(es) && c < |es| && Shown(es, s, c)
    ensures Newest(EntrySet(es), es[c].key.user, s, es[c])
  {
    forall x | x in EntrySet(es) && Matches(x, es[c].key.user, s)
      ensures x.key.sequence <= es[c].key.sequence
    {
      var j :| 0 <= j < |es| && es[j] == x;
      assert Seen(es, s, j);
      assert c < j ==> Less(es[c].key, es[j].key);
    }
  }

  lemma NewestIsShown(es: seq<Entry>, s: SequenceNumber, k: UserKey, c: nat)
    requires Sorted(es) && UniqueStamps(EntrySet(es)) && c < |es|
    requires Newest(EntrySet(es), k, s, es[c]) && es[c].key.kind.Value?
    ensures Shown(es, s, c)
  {
    forall j | 0 <= j < c && es[j].key.user == k
      ensures !Seen(es, s, j)
    {
      assert Less(es[j].key, es[c].key);
      assert es[j] in EntrySet(es) && es[c] in EntrySet(es);
      assert Seen(es, s, j) ==> Matches(es[j], k, s);
    }
  }

  /** User keys do not descend along a sorted run. */
  lemma UsersAscend(es: seq<Entry>, i: nat, j: nat)
    requires Sorted(es) && i <= j < |es|
    ensures es[i].key.user <= es[j].key.user
  {
    assert i < j ==> Less(es[i].key, es[j].key);
  }

  // ---------- moving in a list ----------

  /** Where Seek lands in an ascending list: at its first key at or after `target`. */
  ghost function SeekRank(list: seq<(UserKey, Bytes)>, target: UserKey): nat {
    if list == [] || target <= list[0].0 then 0 else 1 + SeekRank(list[1..], target)
  }

  lemma {:induction false} SeekRankUnique(list: seq<(UserKey, Bytes)>, target: UserKey, n: nat)
    requires n <= |list|
    requires forall i :: 0 <= i < n ==> list[i].0 < target
    requires forall i :: n <= i < |list| ==> target <= list[i].0
    ensures SeekRank(list, target) == n
  {
    if n > 0 { SeekRankUnique(list[1..], target, n - 1); }
  }

  datatype Move = ToFirst | ToLast | To(target: UserKey) | Forth | Back

  /** Forth and Back need a valid position. */
  ghost predicate Allowed(list: seq<(UserKey, Bytes)>, p: nat, m: Move) {
    m.Forth? || m.Back? ==> p < |list|
  }

  /** The position after one move; the length of the list means no element. */
  ghost function Moved(list: seq<(UserKey, Bytes)>, p: nat, m: Move): nat {
    match m
    case ToFirst => 0
    case ToLast => if list == [] then 0 else |list| - 1
    case To(target) => SeekRank(list, target)
    case Forth => p + 1
    case Back => if p == 0 then |list| else p - 1
  }

  ghost function MovedAll(list: seq<(UserKey, Bytes)>, p: nat, ms: seq<Move>): nat {
    if ms == [] then p else Moved(list, MovedAll(list, p, ms[..|ms| - 1]), ms[|ms| - 1])
  }

  ghost predicate AllAllowed(list: seq<(UserKey, Bytes)>, p: nat, ms: seq<Move>) {
    forall n :: 0 <= n < |ms| ==> Allowed(list, MovedAll(list, p, ms[..n]), ms[n])
  }

  // ---------- the user iterator ----------

  datatype Direction = Forward | Reverse

  /** Moving backward, the internal iterator stands just before the visible entries of the shown key. */
  ghost predicate JustBefore(es: seq<Entry>, s: SequenceNumber, pos: nat, cur: nat)
    requires cur < |es|
  {
    && (pos < |es| ==> pos < cur && es[pos].key.user < es[cur].key.user)
    && forall j :: (if pos < |es| then pos + 1 else 0) <= j < cur ==> !Seen(es, s, j)
  }

  /** What makes a forward scan at `p` sound when leaving the entry `c0` (or none, -1): see FindNextUserEntry. */
  ghost predicate ScanState(es: seq<Entry>, s: SequenceNumber, p: nat, from: nat, c0: int, skip: Option<UserKey>) {
    && p <= |es| && -1 <= c0 < |es|
    // a passed entry that hides the next one lies at or below the skip key
    && (p < |es| ==> forall j :: 0 <= j < p && es[j].key.user == es[p].key.user && Seen(es, s, j) ==>
          skip.Some? && es[j].key.user <= skip.value)
    // nothing visible ahead lies below the skip key, and nothing new ahead lies at it
    && (skip.Some? ==> forall j :: p <= j < |es| && Seen(es, s, j) ==> skip.value <= es[j].key.user)
    && (skip.Some? ==> forall j :: p <= j < |es| && Shown(es, s, j) && es[j].key.user <= skip.value ==> j <= c0)
    // the entry being left is skipped
    && (c0 >= 0 ==> skip.Some? && es[c0].key.user <= skip.value)
    && NoneShown(es, s, from, p)
  }

  lemma ScanStep(es: seq<Entry>, s: SequenceNumber, p: nat, from: nat, c0: int, skip: Option<UserKey>)
    requires Sorted(es) && p < |es| && c0 < from && ScanState(es, s, p, from, c0, skip)
    ensures !Seen(es, s, p) ==> ScanState(es, s, p + 1, from, c0, skip)
    ensures Seen(es, s, p) && es[p].key.kind.Deletion? ==> ScanState(es, s, p + 1, from, c0, Some(es[p].key.user))
    ensures Seen(es, s, p) && es[p].key.kind.Value? && skip.Some? && es[p].key.user <= skip.value ==>
              ScanState(es, s, p + 1, from, c0, skip)
    ensures Seen(es, s, p) && es[p].key.kind.Value? && !(skip.Some? && es[p].key.user <= skip.value) ==>
              Shown(es, s, p) && c0 < p
  {
    forall i, j | 0 <= i <= j < |es|
      ensures es[i].key.user <= es[j].key.user
    {
      UsersAscend(es, i, j);
    }
  }

  /** Leaving a shown entry forward, with only invisible entries between the start of the scan and it. */
  lemma LeaveForward(es: seq<Entry>, s: SequenceNumber, p: nat, c0: nat)
    requires Sorted(es) && p <= c0 < |es| && Shown(es, s, c0)
    requires forall j :: p <= j < c0 ==> !Seen(es, s, j)
    ensures ScanState(es, s, p, c0 + 1, c0, Some(es[c0].key.user))
  {
    forall i, j | 0 <= i <= j < |es|
      ensures es[i].key.user <= es[j].key.user
    {
      UsersAscend(es, i, j);
    }
  }

  lemma SeekStart(es: seq<Entry>, s: SequenceNumber, target: UserKey)
    requires Sorted(es)
    ensures var start := LowerBound(es, SeekKey(target, s));
            ScanState(es, s, start, start, -1, None)
            && (forall j :: 0 <= j < start && Seen(es, s, j) ==> es[j].key.user < target)
            && (forall j :: start <= j < |es| ==> target <= es[j].key.user)
  {
    var start := LowerBound(es, SeekKey(target, s));
    forall j | start <= j < |es|
      ensures target <= es[j].key.user
    {
      UsersAscend(es, start, j);
    }
  }

  lemma SeekSplitsAt(es: seq<Entry>, s: SequenceNumber, target: UserKey, start: nat, i: nat)
    requires Sorted(es) && start <= |es| && i < |Visible(es, s)|
    requires forall j :: 0 <= j < start && Seen(es, s, j) ==> es[j].key.user < target
    requires forall j :: start <= j < |es| ==> target <= es[j].key.user
    ensures i < |VisibleTo(es, s, start)| ==> Visible(es, s)[i].0 < target
    ensures i >= |VisibleTo(es, s, start)| ==> target <= Visible(es, s)[i].0
  {
    VisibleKeysBounded(es, s, |es|, i);
    var c :| 0 <= c < |es| && Shown(es, s, c) && Visible(es, s)[i] == (es[c].key.user, es[c].value)
      && |VisibleTo(es, s, c)| == i;
    ShownAtRank(es, s, c);
    if c < start { VisibleToIsPrefix(es, s, c + 1, start); } else { VisibleToIsPrefix(es, s, start, c); }
  }

  lemma SeekSplits(es: seq<Entry>, s: SequenceNumber, target: UserKey, start: nat, cur: nat)
    requires Sorted(es) && start <= cur <= |es| && NoneShown(es, s, start, cur)
    requires forall j :: 0 <= j < start && Seen(es, s, j) ==> es[j].key.user < target
    requires forall j :: start <= j < |es| ==> target <= es[j].key.user
    ensures |VisibleTo(es, s, cur)| <= |Visible(es, s)| && |VisibleTo(es, s, cur)| == SeekRank(Visible(es, s), target)
  {
    VisibleToSkips(es, s, start, cur);
    VisibleToIsPrefix(es, s, cur, |es|);
    forall i | 0 <= i < |Visible(es, s)|
      ensures i < |VisibleTo(es, s, start)| ==> Visible(es, s)[i].0 < target
      ensures i >= |VisibleTo(es, s, start)| ==> target <= Visible(es, s)[i].0
    {
      SeekSplitsAt(es, s, target, start, i);
    }
    SeekRankUnique(Visible(es, s), target, |VisibleTo(es, s, cur)|);
  }

  /** The position of a shown entry, or of the end, tells validity. */
  lemma RankOfCurrent(es: seq<Entry>, s: SequenceNumber, cur: nat)
    requires cur <= |es| && (cur < |es| ==> Shown(es, s, cur))
    ensures cur < |es| <==> |VisibleTo(es, s, cur)| < |Visible(es, s)|
  {
    if cur < |es| { ShownAtRank(es, s, cur); }
  }

  lemma RankAfter(es: seq<Entry>, s: SequenceNumber, c0: nat, cur: nat)
    requires c0 < cur <= |es| && Shown(es, s, c0) && NoneShown(es, s, c0 + 1, cur)
    requires cur < |es| ==> Shown(es, s, cur)
    ensures |VisibleTo(es, s, cur)| == |VisibleTo(es, s, c0)| + 1
    ensures cur < |es| <==> |VisibleTo(es, s, cur)| < |Visible(es, s)|
  {
    ShownAtRank(es, s, c0);
    VisibleToSkips(es, s, c0 + 1, cur);
    RankOfCurrent(es, s, cur);
  }

  lemma RankBefore(es: seq<Entry>, s: SequenceNumber, c0: nat, cur: nat)
    requires c0 < |es| && cur <= |es| && Shown(es, s, c0)
    requires cur < |es| ==> cur < c0 && Shown(es, s, cur) && NoneShown(es, s, cur + 1, c0)
    requires cur == |es| ==> NoneShown(es, s, 0, c0)
    ensures |VisibleTo(es, s, cur)| == if |VisibleTo(es, s, c0)| == 0 then |Visible(es, s)|
            else |VisibleTo(es, s, c0)| - 1
    ensures cur < |es| <==> |VisibleTo(es, s, cur)| < |Visible(es, s)|
  {
    if cur < |es| {
      RankAfter(es, s, cur, c0);
    } else {
      VisibleToSkips(es, s, 0, c0);
    }
    RankOfCurrent(es, s, cur);
  }

  lemma SameUserHidden(es: seq<Entry>, s: SequenceNumber, a: nat, c0: nat)
    requires c0 < |es| && Shown(es, s, c0) && forall j :: a <= j < c0 ==> es[j].key.user == es[c0].key.user
    ensures NoneShown(es, s, a, c0)
  {
  }

  /** The backward scan after considering the entries from `lo` on: `m` is the last visible one considered. */
  ghost predicate BackState(es: seq<Entry>, s: SequenceNumber, lo: nat, c0: nat, m: int, kind: ValueType,
                            key: Option<UserKey>, value: Bytes)
  {
    && lo <= c0 <= |es|
    && (m < 0 ==> kind.Deletion? && NoneShown(es, s, lo, c0))
    && (m >= 0 ==>
          && lo <= m < c0 && Seen(es, s, m) && kind == es[m].key.kind
          && (kind.Value? ==> key == Some(es[m].key.user) && value == es[m].value)
          && (forall j :: lo <= j < m ==> !Seen(es, s, j))
          && NoneShown(es, s, m + 1, c0))
  }

  lemma BackStep(es: seq<Entry>, s: SequenceNumber, p: nat, c0: nat, m: int, kind: ValueType, key: Option<UserKey>,
                 value: Bytes)
    requires Sorted(es) && p < |es| && BackState(es, s, p + 1, c0, m, kind, key, value)
    ensures !Seen(es, s, p) ==> BackState(es, s, p, c0, m, kind, key, value)
    ensures Seen(es, s, p) && kind.Value? && es[p].key.user < key.value ==>
              Shown(es, s, m) && NoneShown(es, s, m + 1, c0) && JustBefore(es, s, p, m)
    ensures Seen(es, s, p) && !(kind.Value? && es[p].key.user < key.value) ==>
              NoneShown(es, s, p + 1, c0)
  {
    forall i, j | 0 <= i <= j < |es|
      ensures es[i].key.user <= es[j].key.user
    {
      UsersAscend(es, i, j);
    }
  }

  class DbIter {
    const iter: Cursor
    const sequence: SequenceNumber
    var direction: Direction
    var valid: bool
    var savedKey: Option<UserKey>
    var savedValue: Bytes
    /** Index of the entry being shown, or the number of entries when there is none. */
    ghost var cur: nat

    /** The representation invariant: where the internal iterator stands relative to the shown entry. */
    ghost predicate Ok()
      reads this, iter
    {
      var es := iter.entries;
      && iter.Ok() && cur <= |es| && (valid <==> cur < |es|)
      && (valid ==> Shown(es, sequence, cur))
      && (valid && direction.Forward? ==> iter.pos == cur)
      && (valid && direction.Reverse? ==>
            && savedKey == Some(es[cur].key.user) && savedValue == es[cur].value
            && JustBefore(es, sequence, iter.pos, cur))
    }

    /** The list this iterator walks. */
    ghost function List(): seq<(UserKey, Bytes)>
    {
      Visible(iter.entries, sequence)
    }

    /** Position in the list; the length of the list when not valid. */
    ghost function Position(): nat
      requires Ok()
      reads this, iter
    {
      |VisibleTo(iter.entries, sequence, cur)|
    }

    constructor (iter: Cursor, s: SequenceNumber)
      requires iter.Ok()
      ensures Ok() && this.iter == iter && sequence == s && !valid
    {
      this.iter, this.sequence := iter, s;
      direction, valid, savedKey, savedValue := Forward, false, None, [];
      cur := |iter.entries|;
    }

    method Key() returns (k: UserKey)
      requires Ok() && valid
      ensures Position() < |List()| && k == List()[Position()].0
    {
      ShownAtRank(iter.entries, sequence, cur);
      k := if direction.Forward? then iter.entries[iter.pos].key.user else savedKey.value;
    }

    method Value() returns (v: Bytes)
      requires Ok() && valid
      ensures Position() < |List()| && v == List()[Position()].1
    {
      ShownAtRank(iter.entries, sequence, cur);
      v := if direction.Forward? then iter.entries[iter.pos].value else savedValue;
    }

    /** Scan forward to the first entry to show after `c0`; `skip` hides keys at or below it. */
    method FindNextUserEntry(skip0: Option<UserKey>, ghost from: nat, ghost c0: int)
      requires iter.Ok() && iter.Valid() && direction.Forward?
      requires c0 < from && ScanState(iter.entries, sequence, iter.pos, from, c0, skip0)
      modifies this`valid, this`savedKey, this`cur, iter
      ensures Ok() && direction.Forward?
      ensures c0 < cur && old(iter.pos) <= cur && NoneShown(iter.entries, sequence, from, cur)
    {
      var skip := skip0;
      ghost var es := iter.entries;
      while true
        invariant iter.Ok() && iter.Valid() && direction.Forward?
        invariant ScanState(es, sequence, iter.pos, from, c0, skip) && old(iter.pos) <= iter.pos
        decreases |es| - iter.pos
      {
        var e := iter.entries[iter.pos];
        ScanStep(es, sequence, iter.pos, from, c0, skip);
        if e.key.sequence <= sequence {
          match e.key.kind
          case Deletion =>
            skip := Some(e.key.user);
          case Value =>
            if skip.Some? && e.key.user <= skip.value {
              // hidden
            } else {
              valid, savedKey := true, None;
              cur := iter.pos;
              return;
            }
        }
        iter.Next();
        if !iter.Valid() {
          break;
        }
      }
      savedKey, valid := None, false;
      cur := |es|;
    }

    /** Next: the following element of the list. */
    method Next()
      requires Ok() && valid
      modifies this, iter
      ensures Ok() && Position() == old(Position()) + 1 && (valid <==> Position() < |List()|)
    {
      ghost var es, c0 := iter.entries, cur;
      if direction.Reverse? {
        direction := Forward;
        if !iter.Valid() {
          iter.SeekToFirst();
        } else {
          iter.Next();
        }
        if !iter.Valid() {
          // the entries of the key being left are still ahead
          assert false;
        }
      } else {
        savedKey := Some(iter.entries[iter.pos].key.user);
      }
      LeaveForward(es, sequence, iter.pos, c0);
      FindNextUserEntry(savedKey, c0 + 1, c0);
      RankAfter(es, sequence, c0, cur);
    }

    /** Scan backward from the internal iterator's position to the last entry to show. */
    method FindPrevUserEntry(ghost c0: nat)
      requires iter.Ok() && direction.Reverse? && c0 <= |iter.entries|
      requires NoneShown(iter.entries, sequence, if iter.Valid() then iter.pos + 1 else 0, c0)
      requires iter.Valid() ==> iter.pos < c0
      modifies this, iter
      ensures Ok()
      ensures valid ==> cur < c0 && NoneShown(iter.entries, sequence, cur + 1, c0)
      ensures !valid ==> NoneShown(iter.entries, sequence, 0, c0)
    {
      ghost var es := iter.entries;
      var valueType := Deletion;
      ghost var m: int := -1;
      if iter.Valid() {
        while true
          invariant iter.Ok() && iter.Valid() && iter.pos < c0 && direction.Reverse?
          invariant BackState(es, sequence, iter.pos + 1, c0, m, valueType, savedKey, savedValue)
          decreases iter.pos
        {
          var e := iter.entries[iter.pos];
          BackStep(es, sequence, iter.pos, c0, m, valueType, savedKey, savedValue);
          if e.key.sequence <= sequence {
            if valueType.Value? && e.key.user < savedKey.value {
              break;
            }
            valueType := e.key.kind;
            m := iter.pos;
            if valueType.Deletion? {
              savedKey, savedValue := None, [];
            } else {
              savedKey, savedValue := Some(e.key.user), e.value;
            }
          }
          iter.Prev();
          if !iter.Valid() {
            break;
          }
        }
      }
      if valueType.Deletion? {
        valid, savedKey, savedValue, direction := false, None, [], Forward;
        cur := |es|;
      } else {
        valid := true;
        cur := m;
      }
    }

    /** Prev: the preceding element of the list, or no element. */
    method Prev()
      requires Ok() && valid
      modifies this, iter
      ensures Ok()
      ensures Position() == if old(Position()) == 0 then |List()| else old(Position()) - 1
      ensures valid <==> Position() < |List()|
    {
      ghost var es, c0 := iter.entries, cur;
      if direction.Forward? {
        savedKey := Some(iter.entries[iter.pos].key.user);
        while true
          invariant iter.Ok() && iter.Valid() && iter.pos <= c0 && savedKey == Some(es[c0].key.user)
          invariant forall j :: iter.pos <= j <= c0 ==> es[j].key.user == es[c0].key.user
          decreases iter.pos
        {
          iter.Prev();
          if !iter.Valid() {
            valid, savedKey, savedValue := false, None, [];
            cur := |es|;
            SameUserHidden(es, sequence, 0, c0);
            RankBefore(es, sequence, c0, cur);
            return;
          }
          if iter.entries[iter.pos].key.user < savedKey.value {
            break;
          }
          UsersAscend(es, iter.pos, c0);
        }
        SameUserHidden(es, sequence, iter.pos + 1, c0);
        direction := Reverse;
      }
      FindPrevUserEntry(c0);
      RankBefore(es, sequence, c0, cur);
    }

    /** Seek: the first element whose key is at or after `target`. */
    method Seek(target: UserKey)
      requires Ok()
      modifies this, iter
      ensures Ok() && (valid <==> Position() < |List()|)
      ensures Position() == SeekRank(List(), target) <= |List()|
    {
      ghost var es := iter.entries;
      direction, savedValue, savedKey := Forward, [], None;
      iter.Seek(SeekKey(target, sequence));
      ghost var start := iter.pos;
      SeekStart(es, sequence, target);
      if iter.Valid() {
        FindNextUserEntry(None, start, -1);
      } else {
        valid := false;
        cur := |es|;
      }
      SeekSplits(es, sequence, target, start, cur);
      RankOfCurrent(es, sequence, cur);
    }

    /** SeekToFirst. */
    method SeekToFirst()
      requires Ok()
      modifies this, iter
      ensures Ok() && Position() == 0 && (valid <==> 0 < |List()|)
    {
      ghost var es := iter.entries;
      direction, savedValue := Forward, [];
      iter.SeekToFirst();
      if iter.Valid() {
        FindNextUserEntry(None, 0, -1);
      } else {
        valid := false;
        cur := |es|;
      }
      VisibleToSkips(es, sequence, 0, cur);
      RankOfCurrent(es, sequence, cur);
    }

    /** SeekToLast. */
    method SeekToLast()
      requires Ok()
      modifies this, iter
      ensures Ok() && Position() == (if List() == [] then 0 else |List()| - 1) && (valid <==> 0 < |List()|)
    {
      ghost var es := iter.entries;
      direction, savedValue := Reverse, [];
      iter.SeekToLast();
      FindPrevUserEntry(|es|);
      if valid {
        ShownAtRank(es, sequence, cur);
        VisibleToSkips(es, sequence, cur + 1, |es|);
      } else {
        VisibleToSkips(es, sequence, 0, |es|);
      }
    }
  }

  /** One call on the iterator is one move in the visible list. */
  method Step(it: DbIter, move: Move)
    requires it.Ok() && Allowed(it.List(), it.Position(), move)
    modifies it, it.iter
    ensures it.Ok() && it.Position() == Moved(it.List(), old(it.Position()), move)
    ensures it.valid <==> it.Position() < |it.List()|
  {
    RankOfCurrent(it.iter.entries, it.sequence, it.cur);
    match move
    case ToFirst => it.SeekToFirst();
    case ToLast => it.SeekToLast();
    case To(target) => it.Seek(target);
    case Forth => it.Next();
    case Back => it.Prev();
  }

  /** Any run of moves, direction changes included, is the same run of moves in the visible list. */
  method Run(it: DbIter, moves: seq<Move>)
    requires it.Ok() && AllAllowed(it.List(), it.Position(), moves)
    modifies it, it.iter
    ensures it.Ok() && it.Position() == MovedAll(it.List(), old(it.Position()), moves)
    ensures it.valid <==> it.Position() < |it.List()|
  {
    RankOfCurrent(it.iter.entries, it.sequence, it.cur);
    for n := 0 to |moves|
      invariant it.Ok() && it.Position() == MovedAll(it.List(), old(it.Position()), moves[..n])
      invariant it.valid <==> it.Position() < |it.List()|
    {
      assert Allowed(it.List(), it.Position(), moves[n]);
      assert moves[..n + 1][..n] == moves[..n];
      Step(it, moves[n]);
    }
    assert moves[..|moves|] == moves;
  }
}
