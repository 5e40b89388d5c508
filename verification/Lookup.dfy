/**
 The meaning of a read.  A database is a set of entries; a read of user key `k` at sequence `s`
 sees the newest entry of `k` whose sequence is at most `s`, and a tombstone counts as absent.
 */
module Lookup {
  import opened Keys

  /** `e` belongs to user key `k` and is not newer than `s`. */
  predicate Matches(e: Entry, k: UserKey, s: SequenceNumber) {
    e.key.user == k && e.key.sequence <= s
  }

  ghost predicate Newest(es: set<Entry>, k: UserKey, s: SequenceNumber, e: Entry) {
    && e in es && Matches(e, k, s)
    && forall x :: x in es && Matches(x, k, s) ==> x.key.sequence <= e.key.sequence
  }

  ghost predicate Absent(es: set<Entry>, k: UserKey, s: SequenceNumber) {
    forall e :: e in es ==> !Matches(e, k, s)
  }

  /** No two operations on one user key share a sequence number. */
  ghost predicate UniqueStamps(es: set<Entry>) {
    forall x, y :: x in es && y in es && x.key.user == y.key.user && x.key.sequence == y.key.sequence ==> x == y
  }

  /** Every entry of `a` is newer than every entry of `b` that has the same user key. */
  ghost predicate NewerThan(a: set<Entry>, b: set<Entry>) {
    forall x, y :: x in a && y in b && x.key.user == y.key.user ==> x.key.sequence > y.key.sequence
  }

  function Reading(e: Entry): Option<Bytes> {
    if e.key.kind.Value? then Some(e.value) else None
  }

  ghost function Answer(es: set<Entry>, k: UserKey, s: SequenceNumber): Option<Bytes> {
    if exists e :: Newest(es, k, s, e) then
      var e :| Newest(es, k, s, e);
      Reading(e)
    else
      None
  }

  lemma AnswerIs(es: set<Entry>, k: UserKey, s: SequenceNumber, e: Entry)
    requires UniqueStamps(es) && Newest(es, k, s, e)
    ensures Answer(es, k, s) == Reading(e)
  {
    forall x | Newest(es, k, s, x)
      ensures x == e
    {
      assert Matches(x, k, s) && Matches(e, k, s);
      assert x.key.sequence == e.key.sequence;
    }
  }

  lemma AnswerAbsent(es: set<Entry>, k: UserKey, s: SequenceNumber)
    requires Absent(es, k, s)
    ensures Answer(es, k, s) == None
  {
  }

  /** A finite set that holds any matching entry has a newest one. */
  lemma {:induction false} NewestExists(es: set<Entry>, k: UserKey, s: SequenceNumber) returns (found: Option<Entry>)
    ensures found.None? ==> Absent(es, k, s)
    ensures found.Some? ==> Newest(es, k, s, found.value)
  {
    if es == {} {
      found := None;
    } else {
      var e :| e in es;
      var rest := NewestExists(es - {e}, k, s);
      if Matches(e, k, s) && (rest.None? || rest.value.key.sequence < e.key.sequence) {
        found := Some(e);
      } else {
        found := rest;
      }
    }
  }

  /** Reads of `a + b` where `a` is newer: `a` decides when it has anything to say. */
  lemma NewestInUnion(a: set<Entry>, b: set<Entry>, k: UserKey, s: SequenceNumber, e: Entry)
    requires NewerThan(a, b)
    ensures Newest(a, k, s, e) ==> Newest(a + b, k, s, e)
    ensures Absent(a, k, s) && Newest(b, k, s, e) ==> Newest(a + b, k, s, e)
  {
  }

  ghost function EntrySet(es: seq<Entry>): set<Entry> {
    set e | e in es
  }

  /** What one sorted run (a table or a memtable) reports for a lookup: seek, then compare user keys. */
  function RunGet(es: seq<Entry>, k: UserKey, s: SequenceNumber): (r: Option<Entry>) {
    var i := LowerBound(es, SeekKey(k, s));
    if i < |es| && es[i].key.user == k then Some(es[i]) else None
  }

  /** Seeking a sorted run finds exactly the newest matching entry. */
  lemma RunGetIsNewest(es: seq<Entry>, k: UserKey, s: SequenceNumber)
    requires Sorted(es)
    ensures RunGet(es, k, s).None? ==> Absent(EntrySet(es), k, s)
    ensures RunGet(es, k, s).Some? ==> Newest(EntrySet(es), k, s, RunGet(es, k, s).value)
  {
    var i := LowerBound(es, SeekKey(k, s));
    forall e | e in EntrySet(es) && Matches(e, k, s)
      ensures i < |es| && es[i].key.user == k && e.key.sequence <= es[i].key.sequence
    {
      var j :| 0 <= j < |es| && es[j] == e;
      assert !Less(e.key, SeekKey(k, s));
      assert j >= i;
    }
  }
}
