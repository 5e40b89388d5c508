/**
 Messages as nanopb sees them (nanopb/pb.h): field descriptors with static allocation, and the values of the structs
 they describe.  Callback, pointer and extension fields are not modelled.
 */
module PbSchema {
  import opened Keys
  import opened Coding

  /** Size in bytes of an integer in the struct. */
  type Width = w: nat | w == 1 || w == 2 || w == 4 || w == 8 witness 1

  /** PB_LTYPE_*: how one value is stored and encoded. */
  datatype LType =
    | Boolean | Int(width: Width) | UInt(width: Width) | SInt(width: Width) | Fixed32 | Fixed64
    | BytesUpTo(capacity: nat) | StringIn(dataSize: nat) | FixedBytes(size: nat) | Submessage(fields: seq<Field>)

  /** PB_HTYPE_*: how often the value occurs.  Optional has a has_ flag; Singular is the proto3 form without one. */
  datatype HType = Required | Optional | Singular | Repeated(max: nat) | FixedCount(count: nat) | Oneof(group: nat)

  /** A field descriptor; `preset` is its default value. */
  datatype Field = Field(tag: nat, htype: HType, ltype: LType, preset: Option<Item>)

  /** One value: an integer or raw bits, a byte string, or a nested struct. */
  datatype Item = Num(n: int) | Blob(bytes: Bytes) | Msg(slots: seq<Slot>)

  /** The part of a struct that belongs to one field. */
  datatype Slot = One(item: Item) | Maybe(has: bool, item: Item) | Many(items: seq<Item>) | Choice(chosen: bool,
        item: Item)

  /** The bound of an unsigned integer of a given width; half of it bounds a signed one. */
  function Bound(w: Width): (r: nat)
    ensures 256 <= r <= TWO64
  {
    if w == 1 then 0x100 else if w == 2 then 0x1_0000 else if w == 4 then TWO32 else TWO64
  }

  predicate InSigned(n: int, w: Width) {
    -(Bound(w) / 2) <= n < Bound(w) / 2
  }

  predicate InUnsigned(n: int, w: Width) {
    0 <= n < Bound(w)
  }

  // ---------- what a struct can hold ----------

  /** The value has the shape and machine range of its C type. */
  ghost predicate TypedItem(t: LType, v: Item)
    decreases v
  {
    match t
    case Boolean => v.Num? && 0 <= v.n <= 1
    case Int(w) => v.Num? && InSigned(v.n, w)
    case UInt(w) => v.Num? && InUnsigned(v.n, w)
    case SInt(w) => v.Num? && InSigned(v.n, w)
    case Fixed32 => v.Num? && 0 <= v.n < TWO32
    case Fixed64 => v.Num? && 0 <= v.n < TWO64
    case BytesUpTo(_) => v.Blob? && |v.bytes| < TWO32
    case StringIn(n) => v.Blob? && |v.bytes| <= n && 0 !in v.bytes
    case FixedBytes(n) => v.Blob? && |v.bytes| == n
    case Submessage(fs) => v.Msg? && TypedMessage(fs, v.slots)
  }

  ghost predicate TypedSlot(f: Field, s: Slot)
    decreases s
  {
    match f.htype
    case Required => s.One? && TypedItem(f.ltype, s.item)
    case Singular => s.One? && TypedItem(f.ltype, s.item)
    case Optional => s.Maybe? && (s.has ==> TypedItem(f.ltype, s.item))
    case Oneof(_) => s.Choice? && (s.chosen ==> TypedItem(f.ltype, s.item))
    case Repeated(_) => s.Many? && forall i :: 0 <= i < |s.items| ==> TypedItem(f.ltype, s.items[i])
    case FixedCount(n) => s.Many? && |s.items| == n && forall i :: 0 <= i < |s.items| ==> TypedItem(f.ltype, s.items[i])
  }

  /** A struct of this type; the members of a union share their storage, so at most one is chosen. */
  ghost predicate TypedMessage(fields: seq<Field>, slots: seq<Slot>)
    decreases slots
  {
    && |slots| == |fields|
    && (forall i :: 0 <= i < |slots| ==> TypedSlot(fields[i], slots[i]))
    && (forall i, j :: 0 <= i < j < |slots| && fields[i].htype.Oneof? && fields[i].htype == fields[j].htype ==>
          !(slots[i].Choice? && slots[i].chosen && slots[j].Choice? && slots[j].chosen))
  }

  // ---------- defaults ----------

  /** pb_field_set_to_default for the value itself. */
  function DefaultItem(f: Field): Item
    decreases f, 0
  {
    match f.ltype
    case Submessage(fs) => Msg(Defaults(fs))
    case t => if f.preset.Some? then f.preset.value else ZeroItem(t)
  }

  function ZeroItem(t: LType): Item {
    match t
    case BytesUpTo(_) => Blob([])
    case StringIn(_) => Blob([])
    case FixedBytes(n) => Blob(seq(n, _ => 0 as byte))
    case Submessage(_) => Msg([])
    case _ => Num(0)
  }

  /** pb_field_set_to_default.  The elements of a fixed-count array keep their storage; all of them get decoded. */
  function DefaultSlot(f: Field): Slot
    decreases f, 1
  {
    match f.htype
    case Required => One(DefaultItem(f))
    case Singular => One(DefaultItem(f))
    case Optional => Maybe(false, DefaultItem(f))
    case Repeated(_) => Many([])
    case FixedCount(n) => Many(seq(n, _ => Num(0)))
    case Oneof(_) => Choice(false, Num(0))
  }

  /** pb_message_set_to_defaults. */
  function Defaults(fields: seq<Field>): (r: seq<Slot>)
    ensures |r| == |fields|
    decreases fields, 0
  {
    seq(|fields|, i requires 0 <= i < |fields| => DefaultSlot(fields[i]))
  }

  /** No member of the union is chosen. */
  predicate NoneChosen(fields: seq<Field>, slots: seq<Slot>, group: nat)
    requires |fields| == |slots|
  {
    forall j :: 0 <= j < |slots| && fields[j].htype == Oneof(group) ==> !(slots[j].Choice? && slots[j].chosen)
  }

  /** pb_check_proto3_default_value for a value without a presence flag of its own. */
  predicate IsDefaultItem(t: LType, v: Item)
    decreases v, 0
  {
    match t
    case BytesUpTo(_) => v.Blob? && |v.bytes| == 0
    case StringIn(_) => v.Blob? && |v.bytes| == 0
    case FixedBytes(n) => n == 0
    case Submessage(fs) => v.Msg? && |fs| == |v.slots| && forall i :: 0 <= i < |fs| ==> IsDefaultSlot(fs, v.slots, i)
    case _ => v.Num? && v.n == 0
  }

  /** pb_check_proto3_default_value for a field of a nested struct. */
  predicate IsDefaultSlot(fields: seq<Field>, slots: seq<Slot>, i: nat)
    requires |fields| == |slots| && i < |fields|
    decreases slots, 0
  {
    match fields[i].htype
    case Required => false
    case Repeated(_) => slots[i].Many? && |slots[i].items| == 0
    case FixedCount(_) => false
    case Oneof(g) => NoneChosen(fields, slots, g)
    case Optional => slots[i].Maybe? && !slots[i].has
    case Singular =>
      var s := slots[i];
      assert slots decreases to s;
      s.One? && IsDefaultItem(fields[i].ltype, s.item)
  }

  // ---------- what survives encoding and decoding ----------

  /** The decoded form of an encoded value: nested absent fields are at their defaults. */
  ghost function NormItem(t: LType, v: Item): Item
    requires TypedItem(t, v)
    decreases v, 0
  {
    match t
    case Submessage(fs) => Msg(NormMessage(fs, v.slots))
    case _ => v
  }

  ghost function NormItems(t: LType, vs: seq<Item>): (r: seq<Item>)
    requires forall i :: 0 <= i < |vs| ==> TypedItem(t, vs[i])
    ensures |r| == |vs|
    decreases vs, 0
  {
    seq(|vs|, i requires 0 <= i < |vs| => NormItem(t, vs[i]))
  }

  /** A present field keeps its value, an absent one is at its default. */
  ghost function NormSlot(f: Field, s: Slot): Slot
    requires TypedSlot(f, s)
    decreases s, 0
  {
    match f.htype
    case Required => One(NormItem(f.ltype, s.item))
    case Singular => if IsDefaultItem(f.ltype, s.item) then DefaultSlot(f) else One(NormItem(f.ltype, s.item))
    case Optional => if s.has then Maybe(true, NormItem(f.ltype, s.item)) else DefaultSlot(f)
    case Repeated(_) => Many(NormItems(f.ltype, s.items))
    case FixedCount(_) => Many(NormItems(f.ltype, s.items))
    case Oneof(_) => if s.chosen then Choice(true, NormItem(f.ltype, s.item)) else DefaultSlot(f)
  }

  ghost function NormMessage(fields: seq<Field>, slots: seq<Slot>): (r: seq<Slot>)
    requires TypedMessage(fields, slots)
    ensures |r| == |fields|
    decreases slots, 0
  {
    seq(|slots|, i requires 0 <= i < |slots| => NormSlot(fields[i], slots[i]))
  }
}
