/**
 Key orders and the short keys that separate neighbours (util/comparator.cc, db/dbformat.cc:47-101).
 */
module Comparators {
  import opened Keys
  import opened Coding

  /** A place in a total order: lexicographic. */
  datatype Place = Place(major: real, minor: int)

  predicate Before(a: Place, b: Place) {
    a.major < b.major || (a.major == b.major && a.minor < b.minor)
  }

  /** A comparator puts every key at its place. */
  type Comparator = Bytes -> Place

  // ---------- bytewise ----------

  /** The length of the common prefix of two keys. */
  function Common(a: Bytes, b: Bytes): (n: nat)
    ensures n <= |a| && n <= |b| && a[..n] == b[..n]
    ensures n < |a| && n < |b| ==> a[n] != b[n]
  {
    if a == [] || b == [] || a[0] != b[0] then 0
    else
      var n := 1 + Common(a[1..], b[1..]);
      assert a[..n] == [a[0]] + a[1..][..n - 1] && b[..n] == [b[0]] + b[1..][..n - 1];
      n
  }

  lemma CommonIs(a: Bytes, b: Bytes, n: nat)
    requires n <= |a| && n <= |b| && a[..n] == b[..n] && (n < |a| && n < |b| ==> a[n] != b[n])
    ensures Common(a, b) == n
  {
    var m := Common(a, b);
    assert forall i :: 0 <= i < n ==> a[..n][i] == b[..n][i];
    assert forall i :: 0 <= i < m ==> a[..m][i] == b[..m][i];
  }

  /** Slice::compare: is `a` before `b` in dictionary order? */
  predicate BytesLess(a: Bytes, b: Bytes) {
    b != [] && (a == [] || a[0] < b[0] || (a[0] == b[0] && BytesLess(a[1..], b[1..])))
  }

  /** A number between 0 and 1 that puts byte strings in dictionary order. */
  function Rank(s: Bytes): (r: real)
    ensures 0.0 <= r < 1.0
    ensures s != [] ==> r > 0.0
  {
    if s == [] then 0.0 else (s[0] as int as real + 1.0 + Rank(s[1..])) / 257.0
  }

  /** The ranks are in dictionary order, and equal only for equal strings. */
  lemma {:induction false} RankIsOrder(a: Bytes, b: Bytes)
    ensures Rank(a) < Rank(b) <==> BytesLess(a, b)
    ensures Rank(a) == Rank(b) ==> a == b
  {
    if a != [] && b != [] {
      RankIsOrder(a[1..], b[1..]);
      if a[0] < b[0] {
        assert a[0] as int as real + 1.0 <= b[0] as int as real;
      } else if b[0] < a[0] {
        assert b[0] as int as real + 1.0 <= a[0] as int as real;
      } else if Rank(a) == Rank(b) {
        assert a == [a[0]] + a[1..] && b == [b[0]] + b[1..];
      }
    }
  }

  function BytewisePlace(key: Bytes): Place {
    Place(Rank(key), 0)
  }

  /** Where two strings with a common front differ decides their order. */
  lemma {:induction false} DifferAt(a: Bytes, b: Bytes, n: nat)
    requires n <= |a| && n <= |b| && a[..n] == b[..n]
    ensures BytesLess(a, b) == BytesLess(a[n..], b[n..])
    decreases n
  {
    if n > 0 {
      assert a[..n][0] == b[..n][0];
      assert a[1..][..n - 1] == a[..n][1..] && b[1..][..n - 1] == b[..n][1..];
      DifferAt(a[1..], b[1..], n - 1);
      assert a[1..][n - 1..] == a[n..] && b[1..][n - 1..] == b[n..];
    } else {
      assert a[0..] == a && b[0..] == b;
    }
  }

  /** BytewiseComparatorImpl::FindShortestSeparator: a key no longer than `start`, at or after it and before `limit`. */
  method ShortestSeparator(start: Bytes, limit: Bytes) returns (key: Bytes)
    ensures key == start || (|key| <= |start| && BytesLess(start, key) && BytesLess(key, limit))
    ensures var n := Common(start, limit);
            key == if n < |start| && n < |limit| && start[n] < 0xff && start[n] + 1 < limit[n]
              then start[..n] + [start[n] + 1] else start
  {
    key := start;
    var minLength := if |start| < |limit| then |start| else |limit|;
    var diffIndex := 0;
    while diffIndex < minLength && start[diffIndex] == limit[diffIndex]
      invariant diffIndex <= minLength && start[..diffIndex] == limit[..diffIndex]
    {
      diffIndex := diffIndex + 1;
    }
    CommonIs(start, limit, diffIndex);
    if diffIndex >= minLength {
      // one extends the other: `start` stays as it is
    } else {
      var diffByte := start[diffIndex];
      if diffByte < 0xff && diffByte + 1 < limit[diffIndex] {
        key := start[diffIndex := diffByte + 1][..diffIndex + 1];
        Raised(start, diffIndex);
        assert key[..diffIndex] == limit[..diffIndex];
        DifferAt(key, limit, diffIndex);
      }
      assert start[diffIndex] != limit[diffIndex];
    }
  }

  /** Incrementing a byte and dropping what follows gives a later key. */
  lemma Raised(s: Bytes, i: nat)
    requires i < |s| && s[i] < 0xff
    ensures BytesLess(s, s[i := s[i] + 1][..i + 1])
  {
    var t := s[i := s[i] + 1][..i + 1];
    assert s[..i] == t[..i];
    DifferAt(s, t, i);
  }

  /** BytewiseComparatorImpl::FindShortSuccessor: a key no longer than `key`, at or after it. */
  method ShortSuccessor(key: Bytes) returns (r: Bytes)
    ensures r == key || (|r| <= |key| && BytesLess(key, r))
    ensures r == key <==> forall i :: 0 <= i < |key| ==> key[i] == 0xff
  {
    for i := 0 to |key|
      invariant forall j :: 0 <= j < i ==> key[j] == 0xff
    {
      var b := key[i];
      if b != 0xff {
        r := key[i := b + 1][..i + 1];
        Raised(key, i);
        return;
      }
    }
    // a run of 0xffs stays as it is
    r := key;
  }

  // ---------- internal keys ----------

  predicate IsInternal(key: Bytes) {
    |key| >= 8
  }

  /** ExtractUserKey. */
  function UserPart(key: Bytes): Bytes
    requires IsInternal(key)
  {
    key[..|key| - 8]
  }

  /** The packed sequence number and type at the end of an internal key. */
  function Tag(key: Bytes): U64
    requires IsInternal(key)
  {
    DecodeFixed64(key[|key| - 8..])
  }

  /** InternalKeyComparator::Compare: by user key, then by descending tag. */
  function InternalPlace(key: Bytes): Place {
    if IsInternal(key) then Place(Rank(UserPart(key)), -(Tag(key) as int)) else Place(-1.0, 0)
  }

  /** The largest tag a key can have: kMaxSequenceNumber with kValueTypeForSeek. */
  const MAX_TAG: U64 := MAX_SEQUENCE * 256 + 1

  lemma JoinedParts(user: Bytes, tag: U64)
    ensures var key := user + EncodeFixed64(tag); IsInternal(key) && UserPart(key) == user && Tag(key) == tag
  {
    var key := user + EncodeFixed64(tag);
    assert key[..|user|] == user && key[|user|..] == EncodeFixed64(tag);
    Fixed64RoundTrip(tag);
  }

  /** The order of internal keys as bytes is that of the keys they encode. */
  lemma PlacesAreInternalOrder(a: InternalKey, b: InternalKey, ua: Bytes, ub: Bytes)
    requires a.user == Rank(ua) && b.user == Rank(ub)
    ensures Before(InternalPlace(ua + EncodeFixed64(PackSequenceAndType(a))),
                   InternalPlace(ub + EncodeFixed64(PackSequenceAndType(b))))
            <==> Less(a, b)
  {
    JoinedParts(ua, PackSequenceAndType(a));
    JoinedParts(ub, PackSequenceAndType(b));
    LessIsPackedOrder(a, b);
  }

  /**
   Two internal keys separated by a third: at or after `start`, before `limit`, and of another user key than `limit`
   when it is new.
   */
  ghost predicate Separates(key: Bytes, start: Bytes, limit: Bytes) {
    && IsInternal(key) && (key == start || Before(InternalPlace(start), InternalPlace(key)))
    && Before(InternalPlace(key), InternalPlace(limit))
    && (key != start ==> IsInternal(limit) && Rank(UserPart(key)) < Rank(UserPart(limit)) && Tag(key) == MAX_TAG)
  }

  /** InternalKeyComparator::FindShortestSeparator. */
  method InternalSeparator(start: Bytes, limit: Bytes) returns (key: Bytes)
    requires IsInternal(start) && IsInternal(limit) && Before(InternalPlace(start), InternalPlace(limit))
    ensures Separates(key, start, limit) && |key| <= |start|
  {
    key := start;
    var userStart, userLimit := UserPart(start), UserPart(limit);
    var tmp := ShortestSeparator(userStart, userLimit);
    if |tmp| < |userStart| && BytesLess(userStart, tmp) {
      RankIsOrder(userStart, tmp);
      RankIsOrder(tmp, userLimit);
      key := tmp + EncodeFixed64(MAX_TAG);
      JoinedParts(tmp, MAX_TAG);
    }
  }

  /** InternalKeyComparator::FindShortSuccessor. */
  method InternalSuccessor(start: Bytes) returns (key: Bytes)
    requires IsInternal(start)
    ensures IsInternal(key) && |key| <= |start|
    ensures key == start || (Before(InternalPlace(start), InternalPlace(key)) && Tag(key) == MAX_TAG)
  {
    key := start;
    var user := UserPart(start);
    var tmp := ShortSuccessor(user);
    if |tmp| < |user| && BytesLess(user, tmp) {
      RankIsOrder(user, tmp);
      key := tmp + EncodeFixed64(MAX_TAG);
      JoinedParts(tmp, MAX_TAG);
    }
  }
}
