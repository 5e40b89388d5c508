/**
 What it means that a decoded struct says what the encoded one said (nanopb/pb_encode.c:240-338,
 nanopb/pb_decode.c:845-932): equal values, and the default where nothing was sent.
 */
module PbValues {
  import opened Keys
  import opened Coding
  import opened PbSchema

  /** All bits are zero. */
  ghost predicate AllZero(v: Item) {
    match v
    case Num(n) => n == 0
    case Blob(bytes) => forall i :: 0 <= i < |bytes| ==> bytes[i] == 0
    case Msg(_) => false
  }

  /** The zero of a type without nested struct: the number 0, no bytes, or the fixed number of zero bytes. */
  ghost predicate IsZero(t: LType, v: Item) {
    match t
    case BytesUpTo(_) => v == Blob([])
    case StringIn(_) => v == Blob([])
    case FixedBytes(n) => v.Blob? && |v.bytes| == n && AllZero(v)
    case Submessage(_) => false
    case _ => v == Num(0)
  }

  /** The value a field without value has: its preset, or zero. */
  ghost predicate IsAbsent(f: Field, v: Item) {
    if f.ltype.Submessage? then v == Msg(Defaults(f.ltype.fields))
    else if f.preset.Some? then v == f.preset.value
    else IsZero(f.ltype, v)
  }

  /** `w` says what `v` says: equal values, field by field in nested structs. */
  ghost predicate SameItem(t: LType, v: Item, w: Item)
    decreases v
  {
    if t.Submessage? then v.Msg? && w.Msg? && SameMessage(t.fields, v.slots, w.slots) else v == w
  }

  ghost predicate SameItems(t: LType, vs: seq<Item>, ws: seq<Item>)
    decreases vs
  {
    |vs| == |ws| && forall i :: 0 <= i < |vs| ==> SameItem(t, vs[i], ws[i])
  }

  /** A proto3 field that is zero is not sent, so a preset other than zero takes its place. */
  ghost predicate Replaced(f: Field, v: Item) {
    f.preset.Some? && IsZero(f.ltype, v) && !(f.ltype.FixedBytes? && f.ltype.size > 0)
  }

  ghost predicate SameSlot(f: Field, s: Slot, d: Slot)
    decreases s
  {
    match f.htype
    case Required => s.One? && d.One? && SameItem(f.ltype, s.item, d.item)
    case Singular =>
      s.One? && d.One? && if Replaced(f, s.item) then d.item == f.preset.value else SameItem(f.ltype, s.item, d.item)
    case Optional =>
      && s.Maybe? && d.Maybe? && s.has == d.has
      && (if s.has then SameItem(f.ltype, s.item, d.item) else IsAbsent(f, d.item))
    case Repeated(_) => s.Many? && d.Many? && SameItems(f.ltype, s.items, d.items)
    case FixedCount(_) => s.Many? && d.Many? && SameItems(f.ltype, s.items, d.items)
    case Oneof(_) =>
      s.Choice? && d.Choice? && s.chosen == d.chosen && (s.chosen ==> SameItem(f.ltype, s.item, d.item))
  }

  ghost predicate SameMessage(fields: seq<Field>, v: seq<Slot>, w: seq<Slot>)
    decreases v
  {
    |fields| == |v| == |w| && forall i :: 0 <= i < |v| ==> SameSlot(fields[i], v[i], w[i])
  }

  /** The test for values that need not be sent is the test for zero. */
  lemma DefaultIsZero(t: LType, v: Item)
    requires TypedItem(t, v) && !t.Submessage?
    ensures IsDefaultItem(t, v) <==> IsZero(t, v) && !(t.FixedBytes? && t.size > 0)
    ensures IsZero(t, v) <==> v == ZeroItem(t)
  {
    if t.FixedBytes? && IsZero(t, v) {
      assert v.bytes == seq(t.size, _ => 0 as byte);
    }
  }

  /** A struct whose nested values all pass that test says what the default struct says. */
  lemma {:induction false} DefaultItemSame(f: Field, v: Item)
    requires TypedItem(f.ltype, v) && IsDefaultItem(f.ltype, v)
    ensures if Replaced(f, v) then DefaultItem(f) == f.preset.value else SameItem(f.ltype, v, DefaultItem(f))
    decreases v, 1
  {
    if f.ltype.Submessage? {
      DefaultSlotsSame(f.ltype.fields, v.slots);
    } else {
      DefaultIsZero(f.ltype, v);
    }
  }

  lemma {:induction false} DefaultSlotsSame(fields: seq<Field>, slots: seq<Slot>)
    requires TypedMessage(fields, slots) && forall i :: 0 <= i < |fields| ==> IsDefaultSlot(fields, slots, i)
    ensures SameMessage(fields, slots, Defaults(fields))
    decreases slots, 0
  {
    forall i | 0 <= i < |fields|
      ensures SameSlot(fields[i], slots[i], DefaultSlot(fields[i]))
    {
      var f, s := fields[i], slots[i];
      assert TypedSlot(f, s) && IsDefaultSlot(fields, slots, i);
      assert slots decreases to s;
      if f.htype.Singular? {
        DefaultItemSame(f, s.item);
      } else if f.htype.Optional? {
        AbsentItem(f);
      }
    }
  }

  lemma AbsentItem(f: Field)
    ensures IsAbsent(f, DefaultItem(f))
  {
  }

  /** The decoded form says what was encoded. */
  lemma {:induction false} NormItemSame(t: LType, v: Item)
    requires TypedItem(t, v)
    ensures SameItem(t, v, NormItem(t, v))
    decreases v, 0
  {
    if t.Submessage? { NormIsSame(t.fields, v.slots); }
  }

  lemma {:induction false} NormIsSame(fields: seq<Field>, v: seq<Slot>)
    requires TypedMessage(fields, v)
    ensures SameMessage(fields, v, NormMessage(fields, v))
    decreases v, 0
  {
    forall i | 0 <= i < |v|
      ensures SameSlot(fields[i], v[i], NormSlot(fields[i], v[i]))
    {
      assert TypedSlot(fields[i], v[i]);
      NormSlotSame(fields[i], v[i]);
    }
  }

  lemma {:induction false} NormSlotSame(f: Field, s: Slot)
    requires TypedSlot(f, s)
    ensures SameSlot(f, s, NormSlot(f, s))
    decreases s, 0
  {
    match f.htype
    case Required => NormItemSame(f.ltype, s.item);
    case Singular =>
      if IsDefaultItem(f.ltype, s.item) {
        DefaultItemSame(f, s.item);
      } else {
        NormItemSame(f.ltype, s.item);
        if !f.ltype.Submessage? { DefaultIsZero(f.ltype, s.item); }
      }
    case Optional => if s.has { NormItemSame(f.ltype, s.item); } else { AbsentItem(f); }
    case Repeated(_) => NormItemsSame(f.ltype, s.items);
    case FixedCount(_) => NormItemsSame(f.ltype, s.items);
    case Oneof(_) => if s.chosen { NormItemSame(f.ltype, s.item); }
  }

  lemma {:induction false} NormItemsSame(t: LType, vs: seq<Item>)
    requires forall i :: 0 <= i < |vs| ==> TypedItem(t, vs[i])
    ensures SameItems(t, vs, NormItems(t, vs))
    decreases vs, 0
  {
    forall i | 0 <= i < |vs|
      ensures SameItem(t, vs[i], NormItems(t, vs)[i])
    {
      NormItemSame(t, vs[i]);
    }
  }
}
