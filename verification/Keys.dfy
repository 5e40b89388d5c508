/**
 Internal keys and entries (db/dbformat.h, db/dbformat.cc).

 A user comparator is an arbitrary total order on byte strings.  There are countably many
 byte strings, and every countable total order embeds in the reals, so a user key is
 represented by its rank in such an embedding and `Compare` becomes `<` on reals.
 */
module Keys {

  type UserKey = real

  newtype byte = b: int | 0 <= b < 256

  type Bytes = seq<byte>

  datatype Option<+T> = None | Some(value: T)

  datatype ValueType = Deletion | Value

  /** The largest sequence number: 56 bits, the low 8 bits of a tag hold the value type. */
  const MAX_SEQUENCE: nat := 0xff_ffff_ffff_ffff

  type SequenceNumber = n: int | 0 <= n <= MAX_SEQUENCE

  datatype InternalKey = InternalKey(user: UserKey, sequence: SequenceNumber, kind: ValueType)

  datatype Entry = Entry(key: InternalKey, value: Bytes)

  /** Order of internal keys: user key ascending, sequence descending, value type descending. */
  predicate Less(a: InternalKey, b: InternalKey) {
    || a.user < b.user
    || (a.user == b.user && (a.sequence > b.sequence
                             || (a.sequence == b.sequence && a.kind.Value? && b.kind.Deletion?)))
  }

  /** The 64-bit trailer of an internal key: `(sequence << 8) | type`. */
  function PackSequenceAndType(k: InternalKey): nat {
    k.sequence * 256 + (if k.kind.Value? then 1 else 0)
  }

  /** The internal key order is the order on (user key, descending packed trailer). */
  lemma LessIsPackedOrder(a: InternalKey, b: InternalKey)
    ensures Less(a, b) <==>
            (a.user < b.user || (a.user == b.user && PackSequenceAndType(a) > PackSequenceAndType(b)))
    ensures Less(a, b) || Less(b, a) || a == b
  {
    if a.user == b.user && a.sequence == b.sequence {
    } else if a.sequence < b.sequence {
      assert a.sequence * 256 + 256 <= b.sequence * 256;
    } else if b.sequence < a.sequence {
      assert b.sequence * 256 + 256 <= a.sequence * 256;
    }
  }

  /** The key a lookup of `user` at snapshot `s` seeks to (kValueTypeForSeek is Value). */
  function SeekKey(user: UserKey, s: SequenceNumber): InternalKey {
    InternalKey(user, s, Value)
  }

  ghost predicate Sorted(es: seq<Entry>) {
    forall i, j :: 0 <= i < j < |es| ==> Less(es[i].key, es[j].key)
  }

  /** Positions in a sorted list compare as their keys do. */
  lemma SortedAt(es: seq<Entry>, i: nat, j: nat)
    requires Sorted(es) && i < |es| && j < |es|
    ensures i < j <==> Less(es[i].key, es[j].key)
    ensures i == j <==> es[i] == es[j]
  {
    if j < i { assert Less(es[j].key, es[i].key); }
  }

  /** Index of the first entry at or after `target`: what every table and memtable iterator's Seek finds. */
  function LowerBound(es: seq<Entry>, target: InternalKey): (i: nat)
    ensures i <= |es|
    ensures forall j :: 0 <= j < i ==> Less(es[j].key, target)
    ensures i < |es| ==> !Less(es[i].key, target)
  {
    if es == [] || !Less(es[0].key, target) then 0 else 1 + LowerBound(es[1..], target)
  }
}
