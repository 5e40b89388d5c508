/**
 Reading a message with an older schema (nanopb/pb_decode.c:321-334, 985-995): the entries of fields the reader does not
 know are skipped by their wire types, and the fields it knows come back.
 */
module PbOlderReader {
  import opened Keys
  import opened Coding
  import opened PbSchema
  import opened PbValues
  import opened PbStream
  import opened PbEncode
  import opened PbDecode

  /** `fields` and `v` are what `at` picks from the larger schema and its message, in order. */
  ghost predicate Picked(big: seq<Field>, w: seq<Slot>, fields: seq<Field>, v: seq<Slot>, at: seq<nat>) {
    && |at| == |fields| == |v| && |big| == |w|
    && (forall k :: 0 <= k < |at| ==> at[k] < |big| && fields[k] == big[at[k]] && v[k] == w[at[k]])
    && (forall k, l :: 0 <= k < l < |at| ==> at[k] < at[l])
  }

  /** The first `n` picked fields are those before field `i` of the larger schema. */
  ghost predicate Reached(at: seq<nat>, i: nat, n: nat) {
    && n <= |at| && (forall k :: 0 <= k < n ==> at[k] < i) && (forall k :: n <= k < |at| ==> i <= at[k])
  }

  lemma {:induction false} PickedEncodes(fields: seq<Field>, v: seq<Slot>, i: nat)
    requires TypedMessage(fields, v) && i <= |fields| && forall k :: 0 <= k < |fields| ==> FitsSlot(fields[k], v[k])
    ensures EncFrom(fields, v, i).Some?
    decreases |fields| - i
  {
    hide EncField;
    if i < |fields| {
      PickedEncodes(fields, v, i + 1);
      FitsEncodes(fields[i], v[i]);
    }
  }

  lemma FitsEncodes(f: Field, s: Slot)
    requires FitsSlot(f, s)
    ensures TypedSlot(f, s) && EncField(f, s).Some?
  {
  }

  /** What is picked from a message that fits is a message that fits. */
  lemma PickedFits(big: seq<Field>, w: seq<Slot>, fields: seq<Field>, v: seq<Slot>, at: seq<nat>)
    requires FitsMessage(big, w) && Picked(big, w, fields, v, at)
    ensures TypedMessage(fields, v) && FitsMessage(fields, v)
  {
    hide FitsSlot, EncFrom, TypedSlot;
    forall k | 0 <= k < |fields|
      ensures TypedSlot(fields[k], v[k]) && FitsSlot(fields[k], v[k])
    {
      assert TypedSlot(big[at[k]], w[at[k]]) && FitsSlot(big[at[k]], w[at[k]]);
    }
    forall i, j | 0 <= i < j < |v| && fields[i].htype.Oneof? && fields[i].htype == fields[j].htype
      ensures !(v[i].Choice? && v[i].chosen && v[j].Choice? && v[j].chosen)
    {
      assert at[i] < at[j];
    }
    assert GoodTags(fields) by { PickedTags(big, w, fields, v, at); }
    PickedEncodes(fields, v, 0);
  }

  lemma PickedTags(big: seq<Field>, w: seq<Slot>, fields: seq<Field>, v: seq<Slot>, at: seq<nat>)
    requires GoodTags(big) && Picked(big, w, fields, v, at)
    ensures GoodTags(fields)
  {
  }

  lemma {:induction false} VarintWhole(n: nat)
    ensures VarintAt(Varint(n), |Varint(n)|) == Some((n, |Varint(n)|))
  {
    if n >= 128 {
      VarintWhole(n / 128);
      assert Varint(n)[1..] == Varint(n / 128);
    }
  }

  /** A length and as many bytes are a whole body of wire type 2. */
  lemma PrefixedSkippable(bytes: Bytes)
    requires |bytes| < TWO32
    ensures Skippable(WT_STRING, Varint(|bytes|) + bytes)
  {
    VarintInFront(|bytes|, bytes);
  }

  lemma ItemSkippable(t: LType, v: Item)
    requires FitsItem(t, v)
    ensures TypedItem(t, v) && EncItem(t, v).Some? && Skippable(WireType(t), EncItem(t, v).value)
  {
    hide Varint, VarintAt;
    match t
    case Boolean => VarintWhole(v.n);
    case Int(_) => VarintWhole(ToUnsigned(v.n));
    case UInt(_) => VarintWhole(v.n);
    case SInt(_) => VarintWhole(ZigZag(v.n));
    case Fixed32 =>
    case Fixed64 =>
    case BytesUpTo(_) => PrefixedSkippable(v.bytes);
    case StringIn(_) => PrefixedSkippable(v.bytes);
    case FixedBytes(_) => PrefixedSkippable(v.bytes);
    case Submessage(fs) => PrefixedSkippable(EncFrom(fs, v.slots, 0).value);
  }

  /** Whatever follows a tag of an encoded field can be skipped by its wire type. */
  lemma EntrySkippable(f: Field, s: Slot, j: nat)
    requires FitsSlot(f, s) && TypedSlot(f, s) && Present(f, s) && (IsArray(f) ==> j < |s.items|)
    requires EntryBody(f, s, j).Some?
    ensures Skippable(EntryWireType(f), EntryBody(f, s, j).value)
  {
    hide Skippable, EncItem;
    if !IsArray(f) {
      ItemSkippable(f.ltype, s.item);
    } else if Packable(f.ltype) {
      assert FitsItems(f, s.items);
      PrefixedSkippable(EncItems(f.ltype, s.items, 0).value);
    } else {
      assert FitsItems(f, s.items);
      ItemSkippable(f.ltype, s.items[j]);
    }
  }

  ghost predicate IsPicked(at: seq<nat>, i: nat, n: nat) {
    n < |at| && at[n] == i
  }

  /** Past field `i` of the larger schema. */
  lemma ReachedNext(at: seq<nat>, i: nat, n: nat)
    requires Reached(at, i, n) && forall k, l :: 0 <= k < l < |at| ==> at[k] < at[l]
    ensures Reached(at, i + 1, if IsPicked(at, i, n) then n + 1 else n)
  {
  }

  lemma EntryOfUnknown(big: seq<Field>, w: seq<Slot>, fields: seq<Field>, v: seq<Slot>, at: seq<nat>, i: nat, j: nat,
                       n: nat)
    requires FitsMessage(big, w) && TypedMessage(big, w) && Picked(big, w, fields, v, at) && Reached(at, i, n)
    requires i < |big| && !IsPicked(at, i, n) && EntryThere(big[i], w[i], j)
    ensures Unknown(fields, Extra(big[i].tag, EntryWireType(big[i]), EntryBody(big[i], w[i], j).value))
  {
    hide Skippable, EntryBody, EncFrom, FitsSlot;
    assert FitsSlot(big[i], w[i]) && GoodTags(big);
    EntrySkippable(big[i], w[i], j);
    forall k | 0 <= k < |fields|
      ensures fields[k].tag != big[i].tag
    {
      assert at[k] != i;
    }
  }

  /** The script for the rest of a message of the larger schema, read with the smaller one. */
  lemma {:induction false} Narrow(big: seq<Field>, w: seq<Slot>, fields: seq<Field>, v: seq<Slot>, at: seq<nat>,
                                  i: nat, j: nat, n: nat)
    returns (script: seq<Chunk>)
    requires FitsMessage(big, w) && TypedMessage(big, w) && FitsMessage(fields, v) && TypedMessage(fields, v)
    requires Picked(big, w, fields, v, at) && Reached(at, i, n) && At(big, w, i, j) && Remaining(big, w, i, j).Some?
    ensures At(fields, v, n, if IsPicked(at, i, n) then j else 0)
    ensures Woven(Remaining(big, w, i, j).value, fields, v, n, if IsPicked(at, i, n) then j else 0, script)
    decreases |big| - i, if i < |big| && w[i].Many? then |w[i].items| - j else 0
  {
    hide FitsMessage, EncField, EncFrom, EncTagged, FitsSlot, Unknown, Tag, Passed, EntryBody, Remaining;
    var picked, rest := IsPicked(at, i, n), Remaining(big, w, i, j).value;
    if i == |big| {
      AtTheEnd(big, w, fields, v, at, j, n);
      script := [];
    } else {
      PickedAt(big, w, fields, v, at, i, j, n);
      if Passed(big[i], w[i], j) {
        PassedRest(big, w, i, j);
        ReachedNext(at, i, n);
        var tail := Narrow(big, w, fields, v, at, i + 1, 0, if picked then n + 1 else n);
        script := if picked then [Pass] + tail else tail;
        if picked { assert script[1..] == tail; }
      } else {
        NextEntry(big, w, i, j);
        var a := AfterEntry(big[i], i, j);
        if a.0 > i { ReachedNext(at, i, n); }
        var m := if picked && a.0 > i then n + 1 else n;
        var tail := Narrow(big, w, fields, v, at, a.0, a.1, m);
        if picked {
          script := [Next] + tail;
        } else {
          EntryOfUnknown(big, w, fields, v, at, i, j, n);
          script := [Extra(big[i].tag, EntryWireType(big[i]), EntryBody(big[i], w[i], j).value)] + tail;
        }
        assert script[1..] == tail;
      }
    }
  }

  lemma NextReached(at: seq<nat>, i: nat, n: nat)
    requires Reached(at, i, n)
    ensures n < |at| ==> i <= at[n]
  {
  }

  lemma AtTheEnd(big: seq<Field>, w: seq<Slot>, fields: seq<Field>, v: seq<Slot>, at: seq<nat>, j: nat, n: nat)
    requires TypedMessage(big, w) && TypedMessage(fields, v) && Picked(big, w, fields, v, at)
    requires Reached(at, |big|, n) && At(big, w, |big|, j)
    ensures n == |fields| && At(fields, v, n, 0) && !IsPicked(at, |big|, n)
    ensures Remaining(big, w, |big|, j) == Some([]) == Remaining(fields, v, n, 0)
  {
    NextReached(at, |big|, n);
  }

  /** The same position in both schemas. */
  lemma PickedAt(big: seq<Field>, w: seq<Slot>, fields: seq<Field>, v: seq<Slot>, at: seq<nat>, i: nat, j: nat, n: nat)
    requires TypedMessage(big, w) && TypedMessage(fields, v) && Picked(big, w, fields, v, at)
    requires Reached(at, i, n) && i < |big| && At(big, w, i, j)
    ensures IsPicked(at, i, n) ==> n < |fields| && fields[n] == big[i] && v[n] == w[i] && At(fields, v, n, j)
    ensures !IsPicked(at, i, n) ==> At(fields, v, n, 0)
  {
  }

  lemma PassedRest(big: seq<Field>, w: seq<Slot>, i: nat, j: nat)
    requires TypedMessage(big, w) && FitsMessage(big, w) && i < |big| && At(big, w, i, j) && Passed(big[i], w[i], j)
    requires Remaining(big, w, i, j).Some?
    ensures At(big, w, i + 1, 0) && Remaining(big, w, i + 1, 0) == Remaining(big, w, i, j)
  {
    hide FitsMessage, EncField, EncFrom, EncTagged, Passed;
    PassedField(big[i], w[i], j);
    JoinNothing(EncFrom(big, w, i + 1));
    RemainingWhole(big, w, i + 1);
  }

  /** A message written under the larger schema is read under the smaller one: the fields it knows come back. */
  method ReadOlder(big: seq<Field>, w: seq<Slot>, fields: seq<Field>, ghost v: seq<Slot>, ghost at: seq<nat>)
    returns (decoded: seq<Slot>, ok: bool)
    requires FitsMessage(big, w) && Picked(big, w, fields, v, at)
    ensures ok && TypedMessage(fields, v) && decoded == NormMessage(fields, v) && SameMessage(fields, v, decoded)
  {
    hide FitsMessage, EncFrom, NormMessage, SameMessage, Encoded, RequiredOccur, Picked, Woven;
    FitsIsTyped(big, w);
    PickedFits(big, w, fields, v, at);
    var size, sized := GetEncodedSize(big, w);
    var out := new OStream(false, size);
    ok := Encode(out, big, w);
    JoinNothing(EncFrom(big, w, 0));
    var input := new IStream(out.buffer, 0, |out.buffer|);
    assert input.Rest() == out.buffer;
    ghost var script := WholeScript(big, w, fields, v, at);
    ok, decoded := Decode(input, fields, v, script);
    NormIsSame(fields, v);
  }

  lemma WholeScript(big: seq<Field>, w: seq<Slot>, fields: seq<Field>, v: seq<Slot>, at: seq<nat>)
    returns (script: seq<Chunk>)
    requires FitsMessage(big, w) && TypedMessage(big, w) && FitsMessage(fields, v) && TypedMessage(fields, v)
    requires Picked(big, w, fields, v, at) && EncFrom(big, w, 0).Some?
    ensures Encoded(EncFrom(big, w, 0).value, fields, v, script)
  {
    hide FitsMessage, EncFrom, Woven;
    RemainingWhole(big, w, 0);
    script := Narrow(big, w, fields, v, at, 0, 0, 0);
  }
}
