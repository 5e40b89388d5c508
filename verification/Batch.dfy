/**
 The operations of a write batch as database entries (db/write_batch.cc:119-137, db/memtable.cc:75-132), and what a
 batch does to reads.
 */
module Batches {
  import opened Keys
  import opened Lookup

  /** One operation of a write batch. */
  datatype Op = Put(key: UserKey, value: Bytes) | Delete(key: UserKey)

  function OpEntry(op: Op, sequence: SequenceNumber): Entry {
    match op
    case Put(k, v) => Entry(InternalKey(k, sequence, Value), v)
    case Delete(k) => Entry(InternalKey(k, sequence, Deletion), [])
  }

  /** The entries the first `n` operations of a batch add when the first one gets sequence `first`. */
  ghost function BatchEntries(batch: seq<Op>, n: nat, first: nat): set<Entry>
    requires n <= |batch| && first + n <= MAX_SEQUENCE + 1
  {
    if n == 0 then {} else BatchEntries(batch, n - 1, first) + {OpEntry(batch[n - 1], first + n - 1)}
  }

  ghost predicate StampedBelow(es: set<Entry>, n: nat) {
    forall e :: e in es ==> e.key.sequence < n
  }

  /** One more operation: reads of its key from now on see it, all others what they saw. */
  lemma OneOpAnswers(es: set<Entry>, op: Op, s: SequenceNumber, k: UserKey, q: SequenceNumber)
    requires UniqueStamps(es) && StampedBelow(es, s)
    ensures UniqueStamps(es + {OpEntry(op, s)}) && StampedBelow(es + {OpEntry(op, s)}, s + 1)
    ensures q >= s && k == op.key ==>
              Answer(es + {OpEntry(op, s)}, k, q) == match op case Put(_, v) => Some(v) case Delete(_) => None
    ensures q < s || k != op.key ==> Answer(es + {OpEntry(op, s)}, k, q) == Answer(es, k, q)
  {
    hide Answer;
    var e := OpEntry(op, s);
    if q >= s && k == op.key {
      assert Newest(es + {e}, k, q, e);
      AnswerIs(es + {e}, k, q, e);
    } else {
      var n := NewestExists(es, k, q);
      if n.Some? {
        assert Newest(es + {e}, k, q, n.value);
        AnswerIs(es, k, q, n.value);
        AnswerIs(es + {e}, k, q, n.value);
      } else {
        AnswerAbsent(es, k, q);
        AnswerAbsent(es + {e}, k, q);
      }
    }
  }

  /** Among the first `n` operations the i-th is the last on its key. */
  ghost predicate LastOnKey(batch: seq<Op>, n: nat, i: nat)
    requires n <= |batch|
  {
    i < n && forall j :: i < j < n ==> batch[j].key != batch[i].key
  }

  lemma {:induction false} BatchStamps(es: set<Entry>, batch: seq<Op>, n: nat, first: nat)
    requires UniqueStamps(es) && StampedBelow(es, first) && n <= |batch| && first + n <= MAX_SEQUENCE + 1
    ensures UniqueStamps(es + BatchEntries(batch, n, first))
    ensures StampedBelow(es + BatchEntries(batch, n, first), first + n)
  {
    if n > 0 { BatchStamps(es, batch, n - 1, first); }
  }

  /** Other keys, and older reads, are as before the batch. */
  lemma {:induction false} BatchSpares(es: set<Entry>, batch: seq<Op>, n: nat, first: nat, k: UserKey,
                                        q: SequenceNumber)
    requires UniqueStamps(es) && StampedBelow(es, first) && n <= |batch| && first + n <= MAX_SEQUENCE + 1
    requires q < first || forall i :: 0 <= i < n ==> batch[i].key != k
    ensures Answer(es + BatchEntries(batch, n, first), k, q) == Answer(es, k, q)
  {
    hide Answer, OpEntry, UniqueStamps, StampedBelow;
    if n == 0 {
      assert es + {} == es;
    } else {
      BatchSpares(es, batch, n - 1, first, k, q);
      BatchStamps(es, batch, n - 1, first);
      var before, s := es + BatchEntries(batch, n - 1, first), first + n - 1;
      OneOpAnswers(before, batch[n - 1], s, k, q);
      assert es + BatchEntries(batch, n, first) == before + {OpEntry(batch[n - 1], s)};
    }
  }

  /** Read your writes: the last operation of the batch on a key decides. */
  lemma {:induction false} BatchAnswers(es: set<Entry>, batch: seq<Op>, n: nat, first: nat, i: nat, q: SequenceNumber)
    requires UniqueStamps(es) && StampedBelow(es, first) && n <= |batch| && first + n <= MAX_SEQUENCE + 1
    requires LastOnKey(batch, n, i) && q >= first + n - 1
    ensures Answer(es + BatchEntries(batch, n, first), batch[i].key, q)
            == match batch[i] case Put(_, v) => Some(v) case Delete(_) => None
  {
    hide Answer, OpEntry, UniqueStamps, StampedBelow;
    if i < n - 1 {
      BatchAnswers(es, batch, n - 1, first, i, q);
    }
    BatchStamps(es, batch, n - 1, first);
    var before, s := es + BatchEntries(batch, n - 1, first), first + n - 1;
    OneOpAnswers(before, batch[n - 1], s, batch[i].key, q);
    assert es + BatchEntries(batch, n, first) == before + {OpEntry(batch[n - 1], s)};
  }
}
