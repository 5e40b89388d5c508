/**
 The decoder (nanopb/pb_decode.c, nanopb/pb_common.c): decoding what the encoder wrote restores every present field and
 leaves every absent one at its default.
 */
module PbDecode {
  import opened Keys
  import opened Coding
  import opened PbSchema
  import opened PbEncode
  import opened PbStream
  import opened PbScalars

  const MAX_REQUIRED_FIELDS: nat := 64

  // ---------- values that fit ----------

  /** Field numbers are distinct and in the range of the wire format. */
  ghost predicate GoodTags(fields: seq<Field>) {
    && (forall i :: 0 <= i < |fields| ==> 0 < fields[i].tag < 0x2000_0000)
    && (forall i, j :: 0 <= i < j < |fields| ==> fields[i].tag != fields[j].tag)
  }

  /** The value has a wire form, room for its terminator if it is a string, and lengths below 2^32. */
  ghost predicate FitsItem(t: LType, v: Item)
    decreases v
  {
    && TypedItem(t, v) && EncItem(t, v).Some?
    && match t
       case StringIn(n) => |v.bytes| < n && n <= TWO32
       case FixedBytes(n) => n < TWO32
       case Submessage(fs) => FitsMessage(fs, v.slots) && |EncFrom(fs, v.slots, 0).value| < TWO32
       case _ => true
  }

  ghost predicate FitsItems(f: Field, vs: seq<Item>)
    decreases vs
  {
    && (forall i :: 0 <= i < |vs| ==> TypedItem(f.ltype, vs[i]) && FitsItem(f.ltype, vs[i]))
    && (Packable(f.ltype) && EncItems(f.ltype, vs, 0).Some? ==> |EncItems(f.ltype, vs, 0).value| < TWO32)
  }

  ghost predicate FitsSlot(f: Field, s: Slot)
    decreases s
  {
    && TypedSlot(f, s) && EncField(f, s).Some?
    && match f.htype
       case Repeated(_) => FitsItems(f, s.items)
       case FixedCount(_) => FitsItems(f, s.items)
       case _ => Present(f, s) ==> FitsItem(f.ltype, s.item)
  }

  ghost predicate FitsMessage(fields: seq<Field>, slots: seq<Slot>)
    decreases slots
  {
    && TypedMessage(fields, slots) && GoodTags(fields) && EncFrom(fields, slots, 0).Some?
    && forall i :: 0 <= i < |slots| ==> FitsSlot(fields[i], slots[i])
  }

  // ---------- the field iterator ----------

  function RequiredBefore(fields: seq<Field>, i: nat): nat
    requires i <= |fields|
  {
    if i == 0 then 0 else RequiredBefore(fields, i - 1) + if fields[i - 1].htype.Required? then 1 else 0
  }

  /** pb_field_iter_t, as far as it does not point into the struct. */
  class FieldIter {
    const fields: seq<Field>
    var pos: nat
    var requiredFieldIndex: nat

    ghost predicate Valid()
      reads this
    {
      && (if fields == [] then pos == 0 else pos < |fields|)
      && requiredFieldIndex == RequiredBefore(fields, pos)
    }

    /** pb_field_iter_begin. */
    constructor (fields: seq<Field>)
      ensures Valid() && this.fields == fields && pos == 0
    {
      this.fields, pos, requiredFieldIndex := fields, 0, 0;
    }

    /** pb_field_iter_next: false when it wraps around. */
    method Next() returns (more: bool)
      requires Valid()
      modifies this
      ensures Valid() && (more <==> old(pos) + 1 < |fields|) && pos == if more then old(pos) + 1 else 0
    {
      if fields == [] {
        return false;
      }
      if pos + 1 == |fields| {
        pos, requiredFieldIndex := 0, 0;
        return false;
      }
      if fields[pos].htype.Required? {
        requiredFieldIndex := requiredFieldIndex + 1;
      }
      pos := pos + 1;
      more := true;
    }

    /** pb_field_iter_find: search from here around to here. */
    method Find(tag: nat) returns (found: bool)
      requires Valid()
      modifies this
      ensures Valid()
      ensures found ==> pos < |fields| && fields[pos].tag == tag
      ensures !found ==> pos == old(pos) && forall i :: 0 <= i < |fields| ==> fields[i].tag != tag
    {
      if fields == [] {
        return false;
      }
      var start := pos;
      var going, wrapped := true, false;
      while going
        invariant Valid() && (going ==> if wrapped then pos < start else start <= pos)
        invariant !going ==> wrapped && pos == start
        invariant !wrapped ==> forall i :: start <= i < pos ==> fields[i].tag != tag
        invariant wrapped ==> forall i :: start <= i < |fields| || 0 <= i < pos ==> fields[i].tag != tag
        decreases going, !wrapped, |fields| - pos
      {
        if fields[pos].tag == tag {
          return true;
        }
        var more := Next();
        wrapped := wrapped || !more;
        going := pos != start;
      }
      found := false;
    }
  }

  // ---------- structs that a decoder may write to ----------

  ghost predicate ShapedItem(f: Field, v: Item)
    decreases f, 0
  {
    match f.ltype
    case Submessage(fs) => v.Msg? && ShapedMessage(fs, v.slots)
    case t => Holds(t, v) || f.preset == Some(v)
  }

  /** Every element is in range, or a place of a fixed-count array that nothing has been put in. */
  ghost predicate ShapedItems(f: Field, items: seq<Item>)
    decreases f, 1
  {
    forall i :: 0 <= i < |items| ==> (f.htype.FixedCount? && items[i] == Num(0)) || ShapedItem(f, items[i])
  }

  ghost predicate ShapedSlot(f: Field, s: Slot)
    decreases f, 2
  {
    match f.htype
    case Required => s.One? && ShapedItem(f, s.item)
    case Singular => s.One? && ShapedItem(f, s.item)
    case Optional => s.Maybe? && ShapedItem(f, s.item)
    case Repeated(max) => s.Many? && |s.items| <= max && ShapedItems(f, s.items)
    case FixedCount(n) => s.Many? && |s.items| == n && ShapedItems(f, s.items)
    case Oneof(_) => s.Choice? && (s.chosen ==> ShapedItem(f, s.item))
  }

  /**
   The struct has the storage its descriptor says, every value in it is in the range of its field, and of the members
   of a union at most one is chosen.
   */
  ghost predicate ShapedMessage(fields: seq<Field>, slots: seq<Slot>)
    decreases fields
  {
    && |slots| == |fields| && (forall i :: 0 <= i < |fields| ==> ShapedSlot(fields[i], slots[i]))
    && OneChosen(fields, slots)
  }

  ghost predicate OneChosen(fields: seq<Field>, slots: seq<Slot>)
    requires |slots| == |fields|
  {
    forall i, j :: 0 <= i < j < |fields| && fields[i].htype.Oneof? && fields[i].htype == fields[j].htype ==>
      !(slots[i].Choice? && slots[i].chosen && slots[j].Choice? && slots[j].chosen)
  }

  /** The first `n` elements of an array have been put in. */
  ghost predicate FirstIn(f: Field, items: seq<Item>, n: nat) {
    n <= |items| && forall i :: 0 <= i < n ==> ShapedItem(f, items[i])
  }

  /** Every fixed-count array is as it was or complete, save the one under way. */
  ghost predicate ArraysWhole(fields: seq<Field>, dest: seq<Slot>, slots: seq<Slot>, c: FixedCounter) {
    && |dest| == |slots| == |fields|
    && forall k :: 0 <= k < |fields| && fields[k].htype.FixedCount? ==>
         && slots[k].Many?
         && if c.field == Some(k) then FirstIn(fields[k], slots[k].items, c.size)
            else slots[k] == dest[k] || FirstIn(fields[k], slots[k].items, |slots[k].items|)
  }

  /** An occurrence of field `i` leaves the other fixed-count arrays alone, and adds to its own in order. */
  ghost predicate OnlyAt(fields: seq<Field>, i: nat, slots: seq<Slot>, size: nat, slots': seq<Slot>, size': nat) {
    && |slots| == |slots'| == |fields| && i < |fields|
    && (forall k :: 0 <= k < |fields| && k != i && fields[k].htype.FixedCount? ==> slots'[k] == slots[k])
    && (fields[i].htype.FixedCount? ==>
          && slots[i].Many? && slots'[i].Many?
          && (FirstIn(fields[i], slots[i].items, size) ==> FirstIn(fields[i], slots'[i].items, size')))
    && (!fields[i].htype.FixedCount? ==> size' == size)
  }

  /** The bytes start with an entry of the field that stands for `x`. */
  ghost predicate Entered(bytes: Bytes, f: Field, x: Item) {
    exists value: nat, rest, after ::
      Took(bytes, value, rest) && value / 8 == f.tag && StandsFor(rest, f.ltype, x, after)
  }

  /** A slot after an occurrence of field `i`, whose body lies between `before` and `after`. */
  ghost predicate StoredAt(fields: seq<Field>, i: nat, k: nat, slot: Slot, slot': Slot, before: Bytes, after: Bytes)
    requires k < |fields|
  {
    || slot' == slot || slot' == Choice(false, Num(0))
    || (k == i && (IsArray(fields[k]) || (!slot'.Many? && StandsFor(before, fields[k].ltype, slot'.item, after))))
  }

  ghost predicate Stored(fields: seq<Field>, i: nat, slots: seq<Slot>, slots': seq<Slot>, before: Bytes, after: Bytes) {
    && |slots| == |slots'| == |fields|
    && forall k :: 0 <= k < |fields| ==> StoredAt(fields, i, k, slots[k], slots'[k], before, after)
  }

  lemma ArrayStored(fields: seq<Field>, i: nat, slots: seq<Slot>, slots': seq<Slot>, before: Bytes, after: Bytes)
    requires |slots| == |slots'| == |fields| && i < |fields| && IsArray(fields[i]) && slots' == slots[i := slots'[i]]
    ensures Stored(fields, i, slots, slots', before, after)
  {
  }

  /** A slot that is not an array is as it was, given up to another member of its union, or read from the input. */
  ghost predicate SlotFrom(f: Field, slot: Slot, slot': Slot, bytes: Bytes) {
    || IsArray(f) || slot' == slot || slot' == Choice(false, Num(0)) || (!slot'.Many? && Entered(bytes, f, slot'.item))
  }

  ghost predicate EntryFrom(fields: seq<Field>, slots: seq<Slot>, slots': seq<Slot>, bytes: Bytes) {
    && |slots| == |slots'| == |fields|
    && forall k :: 0 <= k < |fields| ==> SlotFrom(fields[k], slots[k], slots'[k], bytes)
  }

  lemma StoredFrom(fields: seq<Field>, i: nat, slots: seq<Slot>, slots': seq<Slot>, bytes: Bytes, value: nat,
                   before: Bytes, after: Bytes)
    requires i < |fields| && Stored(fields, i, slots, slots', before, after)
    requires Took(bytes, value, before) && value / 8 == fields[i].tag
    ensures EntryFrom(fields, slots, slots', bytes)
  {
    hide Took, StandsFor;
    forall k | 0 <= k < |fields|
      ensures SlotFrom(fields[k], slots[k], slots'[k], bytes)
    {
      assert StoredAt(fields, i, k, slots[k], slots'[k], before, after);
    }
  }

  lemma SameLength(fields: seq<Field>, slots: seq<Slot>)
    requires ShapedMessage(fields, slots)
    ensures |slots| == |fields|
  {
  }

  lemma NothingStored(fields: seq<Field>, slots: seq<Slot>, bytes: Bytes)
    requires |slots| == |fields|
    ensures EntryFrom(fields, slots, slots, bytes)
  {
  }

  /** Some place of the input an entry of the field stands at. */
  ghost predicate EnteredIn(input: Bytes, f: Field, x: Item) {
    exists p :: 0 <= p <= |input| && Entered(input[p..], f, x)
  }

  /** Nothing is made up: every value that is not an array or in one was there, or is entered in the input. */
  ghost predicate FromInput(fields: seq<Field>, dest: seq<Slot>, slots: seq<Slot>, input: Bytes) {
    && |dest| == |slots| == |fields|
    && forall k :: 0 <= k < |fields| && !IsArray(fields[k]) ==>
         || slots[k] == dest[k] || slots[k] == Choice(false, Num(0))
         || (!slots[k].Many? && EnteredIn(input, fields[k], slots[k].item))
  }

  lemma FromNothing(fields: seq<Field>, dest: seq<Slot>, input: Bytes)
    requires |dest| == |fields|
    ensures FromInput(fields, dest, dest, input)
  {
  }

  lemma FromMore(fields: seq<Field>, dest: seq<Slot>, slots: seq<Slot>, slots': seq<Slot>, input: Bytes, p: nat)
    requires p <= |input| && FromInput(fields, dest, slots, input) && EntryFrom(fields, slots, slots', input[p..])
    ensures FromInput(fields, dest, slots', input)
  {
    hide Entered;
    forall k | 0 <= k < |fields| && !IsArray(fields[k])
      ensures || slots'[k] == dest[k] || slots'[k] == Choice(false, Num(0))
              || (!slots'[k].Many? && EnteredIn(input, fields[k], slots'[k].item))
    {
      assert SlotFrom(fields[k], slots[k], slots'[k], input[p..]);
    }
  }

  lemma ArraysAtStart(fields: seq<Field>, dest: seq<Slot>)
    requires ShapedMessage(fields, dest)
    ensures ArraysWhole(fields, dest, dest, FixedCounter(None, 0))
  {
    forall k | 0 <= k < |fields| && fields[k].htype.FixedCount?
      ensures dest[k].Many?
    {
      assert ShapedSlot(fields[k], dest[k]);
    }
  }

  lemma ArraysAtSwitch(fields: seq<Field>, dest: seq<Slot>, slots: seq<Slot>, c: FixedCounter, c': FixedCounter)
    requires ShapedMessage(fields, slots) && ArraysWhole(fields, dest, slots, c)
    requires c.field.Some? && c.field != c'.field ==>
               && c.field.value < |fields| && fields[c.field.value].htype.FixedCount?
               && c.size == fields[c.field.value].htype.count
    requires c'.field.Some? ==> if c.field == c'.field then c' == c else c'.size == 0
    ensures ArraysWhole(fields, dest, slots, c')
  {
    forall k | 0 <= k < |fields| && fields[k].htype.FixedCount?
      ensures |slots[k].items| == fields[k].htype.count
    {
      assert ShapedSlot(fields[k], slots[k]);
    }
  }

  lemma ArraysAfter(fields: seq<Field>, dest: seq<Slot>, slots: seq<Slot>, c: FixedCounter, i: nat, slots': seq<Slot>,
                    size: nat)
    requires ArraysWhole(fields, dest, slots, c) && OnlyAt(fields, i, slots, c.size, slots', size)
    requires fields[i].htype.FixedCount? ==> c.field == Some(i)
    ensures ArraysWhole(fields, dest, slots', c.(size := size))
  {
  }

  lemma {:induction false} DefaultItemShaped(f: Field)
    ensures ShapedItem(f, DefaultItem(f))
    decreases f, 0
  {
    if f.ltype.Submessage? { DefaultsShaped(f.ltype.fields); }
  }

  lemma {:induction false} DefaultsShaped(fields: seq<Field>)
    ensures ShapedMessage(fields, Defaults(fields))
    decreases fields, 1
  {
    forall i | 0 <= i < |fields|
      ensures ShapedSlot(fields[i], DefaultSlot(fields[i]))
    {
      DefaultItemShaped(fields[i]);
    }
  }

  predicate IsArray(f: Field) {
    f.htype.Repeated? || f.htype.FixedCount?
  }

  // ---------- values and fields ----------

  /** The bytes at the front encode `v`, and a nested struct to be merged into is at its defaults. */
  ghost predicate ItemAhead(rest: Bytes, f: Field, dest: Item, v: Item, tail: Bytes) {
    && FitsItem(f.ltype, v) && rest == EncItem(f.ltype, v).value + tail
    && (f.ltype.Submessage? && !IsArray(f) ==> dest == DefaultItem(f))
  }

  /** PB_DECODERS: one value; array elements that are structs start from their defaults. */
  method DecodeItem(stream: IStream, f: Field, dest: Item, ghost v: Item, ghost tail: Bytes)
    returns (ok: bool, item: Item)
    requires stream.Valid() && (IsArray(f) || ShapedItem(f, dest))
    modifies stream
    ensures stream.Valid() && stream.End() <= old(stream.End()) && stream.left <= old(stream.left)
    ensures ok ==> stream.End() == old(stream.End()) && ShapedItem(f, item)
    ensures ok ==> StandsFor(old(stream.Rest()), f.ltype, item, stream.Rest())
    ensures ItemAhead(old(stream.Rest()), f, dest, v, tail) ==>
              ok && item == NormItem(f.ltype, v) && stream.Rest() == tail
    decreases f, 1
  {
    hide Holds, StandsFor, TypedItem, FitsMessage, EncItem;
    if ItemAhead(stream.Rest(), f, dest, v, tail) { ItemIsThere(f.ltype, v); }
    if f.ltype.Submessage? {
      ok, item := DecodeSubmessage(stream, f, dest, v, tail);
      if ok { AnyStruct(old(stream.Rest()), f.ltype, item, stream.Rest()); }
    } else if Packable(f.ltype) {
      var value;
      ok, value := DecodeNumber(stream, f.ltype, if v.Num? then v.n else 0, tail);
      item := Num(value);
    } else {
      var bytes;
      ok, bytes := DecodeBlob(stream, f.ltype, if v.Blob? then v.bytes else [], tail);
      item := Blob(bytes);
    }
  }

  lemma AnyStruct(before: Bytes, t: LType, x: Item, after: Bytes)
    requires t.Submessage?
    ensures StandsFor(before, t, x, after)
  {
  }

  lemma ItemIsThere(t: LType, v: Item)
    requires FitsItem(t, v)
    ensures TypedItem(t, v) && EncItem(t, v).Some? && NormItem(t, v) == if t.Submessage? then NormItem(t, v) else v
    ensures if Packable(t) then v == Num(v.n) else if t.Submessage? then v.Msg? else v == Blob(v.bytes)
  {
  }

  // ---------- arrays ----------

  /** Put an array element at its index. */
  function Store(items: seq<Item>, k: nat, x: Item): (r: seq<Item>)
    requires k <= |items|
    ensures k < |r| && r[..k] == items[..k] && r[k] == x
    ensures |r| == if k < |items| then |items| else |items| + 1
  {
    if k < |items| then items[k := x] else items + [x]
  }

  lemma StoreShaped(f: Field, items: seq<Item>, k: nat, x: Item)
    requires k <= |items| && ShapedItems(f, items) && ShapedItem(f, x)
    ensures ShapedItems(f, Store(items, k, x))
    ensures FirstIn(f, items, k) ==> FirstIn(f, Store(items, k, x), k + 1)
  {
    hide ShapedItem;
    var r := Store(items, k, x);
    assert forall i :: 0 <= i < k ==> r[i] == r[..k][i] == items[i];
  }

  /** The first `k` elements are those of `vs`, decoded, and the others as they were at the start. */
  function Filled(start: seq<Item>, vs: seq<Item>, k: nat): seq<Item>
    requires k <= |vs|
  {
    vs[..k] + (if k < |start| then start[k..] else [])
  }

  lemma FillNext(start: seq<Item>, vs: seq<Item>, k: nat)
    requires k < |vs| && (start == [] || |start| == |vs|)
    ensures k <= |Filled(start, vs, k)| && Store(Filled(start, vs, k), k, vs[k]) == Filled(start, vs, k + 1)
  {
  }

  lemma FilledAll(start: seq<Item>, vs: seq<Item>)
    requires start == [] || |start| == |vs|
    ensures Filled(start, vs, |vs|) == vs && Filled(start, vs, 0) == start
  {
  }

  lemma PackedIsNormal(t: LType, vs: seq<Item>)
    requires Packable(t) && forall i :: 0 <= i < |vs| ==> TypedItem(t, vs[i])
    ensures NormItems(t, vs) == vs
  {
  }

  lemma {:induction false} PackedLeft(t: LType, vs: seq<Item>, k: nat)
    requires Packable(t) && k < |vs| && forall i :: 0 <= i < |vs| ==> TypedItem(t, vs[i])
    ensures EncItems(t, vs, k).Some? ==> |EncItems(t, vs, k).value| > 0
  {
    assert EncItem(t, vs[k]).Some? && |EncItem(t, vs[k]).value| > 0;
  }

  /** All elements of a packed array are still ahead, and there is room for them. */
  ghost predicate ItemsAhead(rest: Bytes, f: Field, start: seq<Item>, size: nat, max: nat, vs: seq<Item>) {
    && Packable(f.ltype) && IsArray(f) && FitsItems(f, vs) && EncItems(f.ltype, vs, 0).Some?
    && rest == EncItems(f.ltype, vs, 0).value
    && size == 0 && |vs| <= max && (start == [] || |start| == |vs|)
  }

  /** The loop over the elements of a packed array. */
  method DecodeItems(sub: IStream, f: Field, start: seq<Item>, size: nat, max: nat, ghost vs: seq<Item>)
    returns (ok: bool, items: seq<Item>, size': nat)
    requires sub.Valid() && size <= |start| && Packable(f.ltype) && IsArray(f) && ShapedItems(f, start)
    modifies sub
    ensures sub.Valid() && sub.End() <= old(sub.End()) && ShapedItems(f, items)
    ensures FirstIn(f, start, size) ==> FirstIn(f, items, size')
    ensures ok ==> sub.End() == old(sub.End()) && size <= size' <= |items|
    ensures ok ==> (size' <= max || size' == size) && |items| == if size' < |start| then |start| else size'
    ensures ItemsAhead(old(sub.Rest()), f, start, size, max, vs) ==> ok && items == vs && size' == |vs| && sub.left == 0
    decreases f, 2
  {
    hide FitsItem, EncItem, ShapedItems, ShapedItem, StandsFor, FirstIn;
    ghost var ahead := ItemsAhead(sub.Rest(), f, start, size, max, vs);
    if ahead { FilledAll(start, vs); }
    items, size', ok := start, size, true;
    while sub.left > 0 && size' < max && ok
      invariant sub.Valid() && sub.End() <= old(sub.End()) && (ok ==> sub.End() == old(sub.End()))
      invariant size <= size' <= |items| && (size' <= max || size' == size)
      invariant FirstIn(f, start, size) ==> FirstIn(f, items, size')
      invariant ShapedItems(f, items) && |items| == if size' < |start| then |start| else size'
      invariant ahead ==> ok && size' <= |vs| && items == Filled(start, vs, size')
      invariant ahead ==> EncItems(f.ltype, vs, size').Some? && sub.Rest() == EncItems(f.ltype, vs, size').value
      decreases max - size', ok
    {
      var item;
      if ahead {
        assert |sub.Rest()| > 0;
        FillNext(start, vs, size');
      }
      ghost var v := if ahead then vs[size'] else Num(0);
      ghost var more := if ahead then EncItems(f.ltype, vs, size' + 1).value else [];
      ok, item := DecodeItem(sub, f, Num(0), v, more);
      if ok {
        StoreShaped(f, items, size', item);
        items := Store(items, size', item);
        size' := size' + 1;
      }
    }
    if ahead {
      if size' < |vs| { PackedLeft(f.ltype, vs, size'); }
    }
  }

  /** The body of a packed array is at the front. */
  ghost predicate PackedAhead(rest: Bytes, f: Field, start: seq<Item>, size: nat, max: nat, vs: seq<Item>,
                              tail: Bytes) {
    && FitsItems(f, vs) && EncItems(f.ltype, vs, 0).Some?
    && ItemsAhead(EncItems(f.ltype, vs, 0).value, f, start, size, max, vs)
    && rest == Varint(|EncItems(f.ltype, vs, 0).value|) + EncItems(f.ltype, vs, 0).value + tail
  }

  /** The packed case of decode_static_field. */
  method DecodePacked(stream: IStream, f: Field, start: seq<Item>, size: nat, max: nat, ghost vs: seq<Item>,
                      ghost tail: Bytes)
    returns (ok: bool, items: seq<Item>, size': nat)
    requires stream.Valid() && size <= |start| && Packable(f.ltype) && IsArray(f) && ShapedItems(f, start)
    modifies stream
    ensures stream.Valid() && stream.End() <= old(stream.End()) && stream.left <= old(stream.left)
    ensures ok ==> stream.End() == old(stream.End()) && size <= size' <= |items| && ShapedItems(f, items)
    ensures ok && FirstIn(f, start, size) ==> FirstIn(f, items, size')
    ensures ok ==> (size' <= max || size' == size) && |items| == if size' < |start| then |start| else size'
    ensures PackedAhead(old(stream.Rest()), f, start, size, max, vs, tail) ==>
              ok && items == vs && size' == |vs| && stream.Rest() == tail
    decreases f, 3
  {
    hide Varint, VarintAt, FitsItem, EncItems, ShapedItems, FirstIn;
    ghost var ahead := PackedAhead(stream.Rest(), f, start, size, max, vs, tail);
    if ahead {
      ghost var payload := EncItems(f.ltype, vs, 0).value;
      VarintInFront(|payload|, payload + tail);
      Regroup(Varint(|payload|), payload, tail);
      Front(payload, tail);
    }
    items, size' := start, size;
    var sub;
    ok, sub := stream.MakeSubstream();
    if !ok {
      return;
    }
    ok, items, size' := DecodeItems(sub, f, start, size, max, vs);
    if sub.left != 0 {
      return false, items, size';
    }
    var closed := stream.CloseSubstream(sub);
    ok := ok && closed;
  }

  // ---------- one occurrence of a field ----------

  /** The element type of an array field and how many elements it may have. */
  function MaxCount(f: Field): nat
    requires IsArray(f)
  {
    if f.htype.Repeated? then f.htype.max else f.htype.count
  }

  /** A field that is not an array: the bytes ahead encode its value, and the struct holds its default. */
  ghost predicate SingleAhead(rest: Bytes, f: Field, dest: Slot, s: Slot, tail: Bytes)
  {
    && FitsSlot(f, s) && !IsArray(f) && Present(f, s) && dest == DefaultSlot(f)
    && FitsItem(f.ltype, s.item) && EncItem(f.ltype, s.item).Some? && rest == EncItem(f.ltype, s.item).value + tail
  }

  /** decode_static_field for required, optional, singular and oneof fields. */
  method DecodeSingle(stream: IStream, f: Field, dest: Slot, ghost s: Slot, ghost tail: Bytes)
    returns (ok: bool, slot: Slot)
    requires stream.Valid() && !IsArray(f) && ShapedSlot(f, dest)
    modifies stream
    ensures stream.Valid() && stream.End() <= old(stream.End()) && stream.left <= old(stream.left)
    ensures ok ==> stream.End() == old(stream.End()) && ShapedSlot(f, slot) && (slot.Choice? ==> slot.chosen)
    ensures ok ==> !slot.Many? && StandsFor(old(stream.Rest()), f.ltype, slot.item, stream.Rest())
    ensures SingleAhead(old(stream.Rest()), f, dest, s, tail) ==> ok && slot == NormSlot(f, s) && stream.Rest() == tail
    decreases f, 4
  {
    hide EncItem, FitsItem, ShapedItem, StandsFor;
    ghost var v := if s.Many? then Num(0) else s.item;
    slot := dest;
    var item;
    match f.htype
    case Required =>
      ok, item := DecodeItem(stream, f, dest.item, v, tail);
      slot := One(item);
    case Singular =>
      ok, item := DecodeItem(stream, f, dest.item, v, tail);
      slot := One(item);
    case Optional =>
      ok, item := DecodeItem(stream, f, dest.item, v, tail);
      slot := Maybe(true, item);
    case Oneof(_) =>
      // a struct in a union is set to its defaults when it becomes the chosen member
      item := dest.item;
      if !dest.chosen {
        DefaultItemShaped(f);
        item := DefaultItem(f);
      }
      ok, item := DecodeItem(stream, f, item, v, tail);
      slot := Choice(true, item);
  }

  /** An array of values that are not packed: element `j` is ahead and the elements before it are in place. */
  ghost predicate ElementAhead(rest: Bytes, f: Field, items: seq<Item>, size: nat, vs: seq<Item>, j: nat, tail: Bytes)
    requires IsArray(f)
  {
    && FitsItems(f, vs) && j < |vs| <= MaxCount(f) && size == j && |DefaultSlot(f).items| in {0, |vs|}
    && items == Filled(DefaultSlot(f).items, NormItems(f.ltype, vs), j)
    && EncItem(f.ltype, vs[j]).Some? && rest == EncItem(f.ltype, vs[j]).value + tail
  }

  /** The unpacked array case of decode_static_field. */
  method DecodeElement(stream: IStream, f: Field, items: seq<Item>, size: nat, ghost vs: seq<Item>, ghost j: nat,
                       ghost tail: Bytes)
    returns (ok: bool, items': seq<Item>)
    requires stream.Valid() && IsArray(f) && size <= |items| <= MaxCount(f) && ShapedItems(f, items)
    modifies stream
    ensures stream.Valid() && stream.End() <= old(stream.End()) && stream.left <= old(stream.left)
    ensures ok ==> stream.End() == old(stream.End()) && size < |items'| <= MaxCount(f) && ShapedItems(f, items')
                   && |items'| == if size < |items| then |items| else size + 1
    ensures ok && FirstIn(f, items, size) ==> FirstIn(f, items', size + 1)
    ensures ElementAhead(old(stream.Rest()), f, items, size, vs, j, tail) ==>
              ok && items' == Filled(DefaultSlot(f).items, NormItems(f.ltype, vs), j + 1) && stream.Rest() == tail
    decreases f, 4
  {
    hide EncItem, FitsItem, ShapedItems, ShapedItem, StandsFor, FirstIn;
    ghost var ahead := ElementAhead(stream.Rest(), f, items, size, vs, j, tail);
    items' := items;
    if size >= MaxCount(f) {
      return false, items;
    }
    if ahead { FillNext(DefaultSlot(f).items, NormItems(f.ltype, vs), j); }
    var item;
    ghost var v := if ahead then vs[j] else Num(0);
    ok, item := DecodeItem(stream, f, Num(0), v, tail);
    if ok { StoreShaped(f, items, size, item); }
    items' := Store(items, size, item);
  }

  /** The union of a chosen member: the other members share its storage. */
  function ClearOthers(fields: seq<Field>, slots: seq<Slot>, i: nat): (r: seq<Slot>)
    requires |slots| == |fields| && i < |fields| && fields[i].htype.Oneof?
    ensures |r| == |slots|
  {
    seq(|slots|, k requires 0 <= k < |slots| =>
      if k != i && fields[k].htype == fields[i].htype then Choice(false, Num(0)) else slots[k])
  }

  // ---------- how far a message has been read ----------

  /** The next thing to read is field `i`, or its j-th element if it is an unpacked array under way. */
  ghost predicate At(fields: seq<Field>, v: seq<Slot>, i: nat, j: nat)
    requires TypedMessage(fields, v)
  {
    && i <= |fields|
    && (i < |fields| ==> TypedSlot(fields[i], v[i]))
    && (j > 0 ==> i < |fields| && IsArray(fields[i]) && !Packable(fields[i].ltype) && j <= |v[i].items|)
  }

  /** The wire form of what is left of field `i`. */
  ghost function FieldLeft(f: Field, s: Slot, j: nat): Option<Bytes>
    requires TypedSlot(f, s) && (j > 0 ==> IsArray(f) && j <= |s.items|)
  {
    if j == 0 then EncField(f, s) else EncTagged(f, s.items, j)
  }

  /** The wire form of what is left of the message. */
  ghost function Remaining(fields: seq<Field>, v: seq<Slot>, i: nat, j: nat): Option<Bytes>
    requires TypedMessage(fields, v) && At(fields, v, i, j)
  {
    if i == |fields| then Some([]) else Join(FieldLeft(fields[i], v[i], j), EncFrom(fields, v, i + 1))
  }

  /** What the struct holds for field `i` when `j` elements have been decoded. */
  ghost function PartSlot(f: Field, s: Slot, j: nat): Slot
    requires TypedSlot(f, s) && (j > 0 ==> IsArray(f) && j <= |s.items|)
  {
    if IsArray(f) then Many(Filled(DefaultSlot(f).items, NormItems(f.ltype, s.items), j)) else DefaultSlot(f)
  }

  /** The struct so far: fields before `i` as they were encoded, the others still at their defaults. */
  ghost predicate Progress(fields: seq<Field>, v: seq<Slot>, dest: seq<Slot>, i: nat, j: nat)
    requires TypedMessage(fields, v) && At(fields, v, i, j)
  {
    && |dest| == |fields|
    && (forall k :: 0 <= k < i ==> dest[k] == NormSlot(fields[k], v[k]))
    && (i < |fields| ==> dest[i] == PartSlot(fields[i], v[i], j))
    && (forall k :: i < k < |fields| ==> dest[k] == DefaultSlot(fields[k]))
  }

  lemma PartAtStart(f: Field, s: Slot)
    requires TypedSlot(f, s) && (IsArray(f) ==> |s.items| <= MaxCount(f))
    ensures PartSlot(f, s, 0) == DefaultSlot(f)
  {
    if IsArray(f) { assert NormItems(f.ltype, s.items)[..0] == []; }
  }

  lemma PartAtEnd(f: Field, s: Slot)
    requires TypedSlot(f, s) && IsArray(f)
    ensures PartSlot(f, s, |s.items|) == NormSlot(f, s)
  {
    var vs := NormItems(f.ltype, s.items);
    assert vs[..|vs|] == vs;
  }

  /** Nothing of the field is on the wire, or nothing more. */
  ghost predicate Passed(f: Field, s: Slot, j: nat)
    requires TypedSlot(f, s) && (j > 0 ==> IsArray(f) && j <= |s.items|)
  {
    !Present(f, s) || (IsArray(f) && j == |s.items|)
  }

  lemma PassedField(f: Field, s: Slot, j: nat)
    requires TypedSlot(f, s) && (j > 0 ==> IsArray(f) && j <= |s.items|) && Passed(f, s, j)
    ensures FieldLeft(f, s, j) == Some([]) && PartSlot(f, s, j) == NormSlot(f, s) && !f.htype.Required?
  {
    if IsArray(f) {
      PartAtEnd(f, s);
      assert j == |s.items|;
    }
  }

  /** The message fits, so its arrays are not overfull. */
  lemma ArraysFit(fields: seq<Field>, v: seq<Slot>, i: nat)
    requires FitsMessage(fields, v) && i < |fields| && IsArray(fields[i])
    ensures TypedSlot(fields[i], v[i]) && v[i].Many? && |v[i].items| <= MaxCount(fields[i])
    ensures EncField(fields[i], v[i]) == EncArray(fields[i], v[i].items, MaxCount(fields[i]))
  {
    var f, s := fields[i], v[i];
    assert FitsSlot(f, s) && EncField(f, s).Some?;
    assert EncField(f, s) == EncArray(f, s.items, MaxCount(f));
  }

  /** Skip what is not on the wire: the next field that is, or the end of the message. */
  lemma {:induction false} Advance(fields: seq<Field>, v: seq<Slot>, dest: seq<Slot>, i: nat, j: nat)
    returns (i': nat, j': nat)
    requires TypedMessage(fields, v) && FitsMessage(fields, v) && At(fields, v, i, j) && Progress(fields, v, dest, i, j)
    ensures At(fields, v, i', j') && Progress(fields, v, dest, i', j')
    ensures Remaining(fields, v, i', j') == Remaining(fields, v, i, j)
    ensures i' < |fields| ==> !Passed(fields[i'], v[i'], j')
    ensures i <= i' && (i == i' ==> j == j') && (i < i' ==> j' == 0)
    ensures i < i' && j > 0 ==> v[i].Many? && j == |v[i].items|
    ensures forall k :: i <= k < i' ==> !fields[k].htype.Required?
    decreases |fields| - i
  {
    hide FitsMessage, FitsSlot, EncField, EncTagged, Passed, PartSlot, NormSlot, DefaultSlot;
    if i < |fields| && Passed(fields[i], v[i], j) {
      PassedField(fields[i], v[i], j);
      NextField(fields, v, dest, i, j);
      i', j' := Advance(fields, v, dest, i + 1, 0);
      PassedArray(fields[i], v[i], j);
    } else {
      i', j' := i, j;
    }
  }

  lemma PassedArray(f: Field, s: Slot, j: nat)
    requires TypedSlot(f, s) && (j > 0 ==> IsArray(f) && j <= |s.items|) && Passed(f, s, j)
    ensures j > 0 ==> s.Many? && j == |s.items|
  {
  }

  lemma NextField(fields: seq<Field>, v: seq<Slot>, dest: seq<Slot>, i: nat, j: nat)
    requires FitsMessage(fields, v) && i < |fields| && At(fields, v, i, j) && Progress(fields, v, dest, i, j)
    requires FieldLeft(fields[i], v[i], j) == Some([]) && PartSlot(fields[i], v[i], j) == NormSlot(fields[i], v[i])
    ensures At(fields, v, i + 1, 0) && Progress(fields, v, dest, i + 1, 0)
    ensures Remaining(fields, v, i + 1, 0) == Remaining(fields, v, i, j)
  {
    hide EncField, EncTagged, PartSlot, NormSlot, DefaultSlot, FitsSlot;
    JoinNothing(EncFrom(fields, v, i + 1));
    if i + 1 < |fields| {
      if IsArray(fields[i + 1]) { ArraysFit(fields, v, i + 1); }
      PartAtStart(fields[i + 1], v[i + 1]);
    }
  }

  // ---------- one entry on the wire ----------

  function EntryWireType(f: Field): nat {
    if IsArray(f) && Packable(f.ltype) then WT_STRING else WireType(f.ltype)
  }

  /** What follows the tag. */
  ghost function EntryBody(f: Field, s: Slot, j: nat): Option<Bytes>
    requires TypedSlot(f, s) && Present(f, s) && (IsArray(f) ==> j < |s.items|)
  {
    if !IsArray(f) then EncItem(f.ltype, s.item)
    else if Packable(f.ltype) then Prefixed(EncItems(f.ltype, s.items, 0))
    else EncItem(f.ltype, s.items[j])
  }

  /** Where reading is after an entry. */
  function AfterEntry(f: Field, i: nat, j: nat): (nat, nat) {
    if IsArray(f) && !Packable(f.ltype) then (i, j + 1) else (i + 1, 0)
  }

  /** What is left of the message starts with the tag and the body of the next entry. */
  lemma NextEntry(fields: seq<Field>, v: seq<Slot>, i: nat, j: nat)
    requires FitsMessage(fields, v) && i < |fields| && At(fields, v, i, j) && !Passed(fields[i], v[i], j)
    requires Remaining(fields, v, i, j).Some?
    ensures var f, a := fields[i], AfterEntry(fields[i], i, j);
            && Present(f, v[i]) && (IsArray(f) ==> j < |v[i].items|) && At(fields, v, a.0, a.1)
            && EntryBody(f, v[i], j).Some? && Remaining(fields, v, a.0, a.1).Some?
            && Remaining(fields, v, i, j).value
               == Tag(EntryWireType(f), f.tag) + (EntryBody(f, v[i], j).value + Remaining(fields, v, a.0, a.1).value)
  {
    hide EncItem, Tag, EncItems, GoodTags, FitsSlot;
    var f, s, a := fields[i], v[i], AfterEntry(fields[i], i, j);
    var tag, body, rest := Some(Tag(EntryWireType(f), f.tag)), EntryBody(f, s, j), Remaining(fields, v, a.0, a.1);
    assert Remaining(fields, v, i, j) == Join(Join(tag, body), rest) by {
      if IsArray(f) && !Packable(f.ltype) {
        NextElement(fields, v, i, j);
      } else {
        assert FieldLeft(f, s, j) == Join(tag, body) by { WholeField(fields, v, i); }
        assert rest == EncFrom(fields, v, i + 1) by { RemainingWhole(fields, v, i + 1); }
      }
    }
    JoinRegroup(tag, body, rest);
  }

  lemma RemainingWhole(fields: seq<Field>, v: seq<Slot>, i: nat)
    requires TypedMessage(fields, v) && i <= |fields|
    ensures At(fields, v, i, 0) && Remaining(fields, v, i, 0) == EncFrom(fields, v, i)
  {
  }

  lemma WholeField(fields: seq<Field>, v: seq<Slot>, i: nat)
    requires FitsMessage(fields, v) && i < |fields| && TypedSlot(fields[i], v[i]) && Present(fields[i], v[i])
    requires !(IsArray(fields[i]) && !Packable(fields[i].ltype))
    ensures IsArray(fields[i]) ==> |v[i].items| > 0
    ensures EncField(fields[i], v[i]) == Join(Some(Tag(EntryWireType(fields[i]), fields[i].tag)),
                                              EntryBody(fields[i], v[i], 0))
  {
    hide EncItem, EncItems, Tag;
    if IsArray(fields[i]) { ArraysFit(fields, v, i); }
  }

  lemma NextElement(fields: seq<Field>, v: seq<Slot>, i: nat, j: nat)
    requires FitsMessage(fields, v) && i < |fields| && At(fields, v, i, j) && !Passed(fields[i], v[i], j)
    requires IsArray(fields[i]) && !Packable(fields[i].ltype)
    ensures Present(fields[i], v[i]) && v[i].Many? && j < |v[i].items| && At(fields, v, i, j + 1)
    ensures Remaining(fields, v, i, j)
            == Join(Join(Some(Tag(EntryWireType(fields[i]), fields[i].tag)), EntryBody(fields[i], v[i], j)),
                    Remaining(fields, v, i, j + 1))
  {
    hide EncItem, EncItems, Tag;
    var f, vs := fields[i], v[i].items;
    ArraysFit(fields, v, i);
    assert FieldLeft(f, v[i], j) == EncTagged(f, vs, j);
    JoinRegroup(EncOne(f, vs[j]), EncTagged(f, vs, j + 1), EncFrom(fields, v, i + 1));
  }

  // ---------- messages ----------

  /** The next entry of the message, less its tag, is ahead, and the struct has come as far as the stream. */
  ghost predicate EntryAhead(rest: Bytes, fields: seq<Field>, v: seq<Slot>, i: nat, j: nat, slots: seq<Slot>,
                             fixedSize: nat,
                             tail: Bytes)
  {
    && FitsMessage(fields, v) && i < |fields| && At(fields, v, i, j) && Progress(fields, v, slots, i, j)
    && !Passed(fields[i], v[i], j) && (IsArray(fields[i]) ==> j < |v[i].items|)
    && (fields[i].htype.FixedCount? ==> fixedSize == j)
    && EntryBody(fields[i], v[i], j).Some? && rest == EntryBody(fields[i], v[i], j).value + tail
  }

  /** The field an entry belongs to, with nothing of it decoded yet. */
  lemma FreshField(rest: Bytes, fields: seq<Field>, v: seq<Slot>, i: nat, slots: seq<Slot>, fixedSize: nat, tail: Bytes)
    requires EntryAhead(rest, fields, v, i, 0, slots, fixedSize, tail)
    ensures FitsSlot(fields[i], v[i]) && slots[i] == DefaultSlot(fields[i])
    ensures IsArray(fields[i]) ==> v[i].Many? && 0 < |v[i].items| <= MaxCount(fields[i])
  {
    hide EncItem, EncItems;
    if IsArray(fields[i]) { ArraysFit(fields, v, i); }
    PartAtStart(fields[i], v[i]);
  }

  lemma PackedEntry(rest: Bytes, fields: seq<Field>, v: seq<Slot>, i: nat, slots: seq<Slot>, fixedSize: nat,
                    tail: Bytes)
    requires EntryAhead(rest, fields, v, i, 0, slots, fixedSize, tail) && IsArray(fields[i])
             && Packable(fields[i].ltype)
    ensures slots[i].Many? && v[i].Many?
    ensures PackedAhead(rest, fields[i], slots[i].items, 0, MaxCount(fields[i]), v[i].items, tail)
  {
    hide EncItem, FitsItem;
    FreshField(rest, fields, v, i, slots, fixedSize, tail);
    var f, vs := fields[i], v[i].items;
    assert FitsItems(f, vs);
    Regroup(Varint(|EncItems(f.ltype, vs, 0).value|), EncItems(f.ltype, vs, 0).value, tail);
  }

  lemma ElementEntry(rest: Bytes, fields: seq<Field>, v: seq<Slot>, i: nat, j: nat, slots: seq<Slot>, fixedSize: nat,
                     tail: Bytes)
    requires EntryAhead(rest, fields, v, i, j, slots, fixedSize, tail) && IsArray(fields[i])
             && !Packable(fields[i].ltype)
    ensures slots[i].Many? && v[i].Many? && (fields[i].htype.Repeated? ==> |slots[i].items| == j)
    ensures ElementAhead(rest, fields[i], slots[i].items, j, v[i].items, j, tail)
  {
    hide EncItem;
    ArraysFit(fields, v, i);
    assert FitsSlot(fields[i], v[i]);
    assert FitsItems(fields[i], v[i].items);
    PartAtStart(fields[i], v[i]);
  }

  lemma SingleEntry(rest: Bytes, fields: seq<Field>, v: seq<Slot>, i: nat, slots: seq<Slot>, fixedSize: nat,
                    tail: Bytes)
    requires EntryAhead(rest, fields, v, i, 0, slots, fixedSize, tail) && !IsArray(fields[i])
    ensures SingleAhead(rest, fields[i], slots[i], v[i], tail)
  {
    hide EncItem;
    FreshField(rest, fields, v, i, slots, fixedSize, tail);
  }

  /** A whole field has been decoded. */
  lemma FieldDone(fields: seq<Field>, v: seq<Slot>, i: nat, j: nat, slots: seq<Slot>, slots': seq<Slot>)
    requires TypedMessage(fields, v) && FitsMessage(fields, v) && i < |fields| && At(fields, v, i, j)
             && Progress(fields, v, slots, i, j)
    requires slots' == slots[i := NormSlot(fields[i], v[i])]
    ensures At(fields, v, i + 1, 0) && Progress(fields, v, slots', i + 1, 0)
  {
    hide FitsMessage, NormSlot, DefaultSlot, PartSlot;
    if i + 1 < |fields| {
      if IsArray(fields[i + 1]) { ArraysFit(fields, v, i + 1); }
      PartAtStart(fields[i + 1], v[i + 1]);
    }
  }

  /** The other members of a chosen member's union are at their defaults already. */
  lemma OthersClear(fields: seq<Field>, v: seq<Slot>, i: nat, slots: seq<Slot>)
    requires TypedMessage(fields, v) && i < |fields| && fields[i].htype.Oneof? && v[i].Choice? && v[i].chosen
             && |slots| == |fields|
    requires forall k :: 0 <= k < |fields| && k != i ==> slots[k] in {NormSlot(fields[k], v[k]), DefaultSlot(fields[k])}
    ensures ClearOthers(fields, slots, i) == slots
  {
    forall k | 0 <= k < |slots| && k != i && fields[k].htype == fields[i].htype
      ensures slots[k] == Choice(false, Num(0))
    {
      assert TypedSlot(fields[k], v[k]);
      assert !v[k].chosen;
    }
  }

  /** decode_static_field: one occurrence of field `i`. */
  method DecodeField(stream: IStream, fields: seq<Field>, i: nat, wireType: nat, slots: seq<Slot>, fixedSize: nat,
                     ghost v: seq<Slot>, ghost j: nat, ghost tail: Bytes)
    returns (ok: bool, slots': seq<Slot>, fixedSize': nat)
    requires stream.Valid() && ShapedMessage(fields, slots) && i < |fields|
    requires fields[i].htype.FixedCount? ==> fixedSize <= fields[i].htype.count
    modifies stream
    ensures stream.Valid() && stream.End() <= old(stream.End()) && stream.left <= old(stream.left)
    ensures ok ==> stream.End() == old(stream.End()) && ShapedMessage(fields, slots')
    ensures ok ==> if fields[i].htype.FixedCount? then fixedSize' <= fields[i].htype.count else fixedSize' == fixedSize
    ensures ok ==> OnlyAt(fields, i, slots, fixedSize, slots', fixedSize')
    ensures ok ==> Stored(fields, i, slots, slots', old(stream.Rest()), stream.Rest())
    ensures EntryAhead(old(stream.Rest()), fields, v, i, j, slots, fixedSize, tail)
            && (wireType == EntryWireType(fields[i])) ==>
              && ok && stream.Rest() == tail
              && var a := AfterEntry(fields[i], i, j);
                 At(fields, v, a.0, a.1) && Progress(fields, v, slots', a.0, a.1)
                 && (fields[i].htype.FixedCount? ==> fixedSize' == if a.0 == i then a.1 else |v[i].items|)
    decreases fields, 2
  {
    hide EncItem, EncItems, FitsItem, EntryBody, OnlyAt, ShapedMessage, Stored;
    ghost var before := stream.Rest();
    SameLength(fields, slots);
    var f := fields[i];
    slots', fixedSize' := slots, fixedSize;
    if !IsArray(f) {
      ok, slots' := DecodeSingleAt(stream, fields, i, slots, fixedSize, v, tail);
    } else if wireType == WT_STRING && Packable(f.ltype) {
      ok, slots', fixedSize' := DecodePackedAt(stream, fields, i, slots, fixedSize, v, tail);
      if ok { ArrayStored(fields, i, slots, slots', before, stream.Rest()); }
    } else {
      ok, slots', fixedSize' := DecodeElementAt(stream, fields, i, slots, fixedSize, v, j, tail);
      if ok { ArrayStored(fields, i, slots, slots', before, stream.Rest()); }
    }
  }

  method DecodeSingleAt(stream: IStream, fields: seq<Field>, i: nat, slots: seq<Slot>, ghost fixedSize: nat,
                        ghost v: seq<Slot>,
                        ghost tail: Bytes)
    returns (ok: bool, slots': seq<Slot>)
    requires stream.Valid() && ShapedMessage(fields, slots) && i < |fields| && !IsArray(fields[i])
    modifies stream
    ensures stream.Valid() && stream.End() <= old(stream.End()) && stream.left <= old(stream.left)
    ensures ok ==> stream.End() == old(stream.End()) && ShapedMessage(fields, slots')
    ensures ok ==> OnlyAt(fields, i, slots, fixedSize, slots', fixedSize)
    ensures ok ==> Stored(fields, i, slots, slots', old(stream.Rest()), stream.Rest())
    ensures EntryAhead(old(stream.Rest()), fields, v, i, 0, slots, fixedSize, tail) ==>
              ok && stream.Rest() == tail && At(fields, v, i + 1, 0) && Progress(fields, v, slots', i + 1, 0)
    decreases fields, 1
  {
    hide ShapedItems, ShapedItem, FirstIn, StandsFor, EncItem, EncItems, FitsItem, EntryBody, PartSlot, NormSlot,
         DefaultSlot;
    var f := fields[i];
    ghost var ahead := EntryAhead(stream.Rest(), fields, v, i, 0, slots, fixedSize, tail);
    if ahead { SingleEntry(stream.Rest(), fields, v, i, slots, fixedSize, tail); }
    var slot;
    ok, slot := DecodeSingle(stream, f, slots[i], if ahead then v[i] else slots[i], tail);
    slots' := slots[i := slot];
    if ahead {
      FieldDone(fields, v, i, 0, slots, slots');
      if f.htype.Oneof? { OthersClear(fields, v, i, slots'); }
    }
    if f.htype.Oneof? {
      slots' := ClearOthers(fields, slots', i);
    }
  }

  method DecodePackedAt(stream: IStream, fields: seq<Field>, i: nat, slots: seq<Slot>, fixedSize: nat,
                        ghost v: seq<Slot>,
                        ghost tail: Bytes)
    returns (ok: bool, slots': seq<Slot>, fixedSize': nat)
    requires stream.Valid() && ShapedMessage(fields, slots) && i < |fields| && IsArray(fields[i])
             && Packable(fields[i].ltype)
    requires fields[i].htype.FixedCount? ==> fixedSize <= fields[i].htype.count
    modifies stream
    ensures stream.Valid() && stream.End() <= old(stream.End()) && stream.left <= old(stream.left)
    ensures ok ==> stream.End() == old(stream.End()) && ShapedMessage(fields, slots')
    ensures ok ==> if fields[i].htype.FixedCount? then fixedSize' <= fields[i].htype.count else fixedSize' == fixedSize
    ensures ok ==> OnlyAt(fields, i, slots, fixedSize, slots', fixedSize')
    ensures ok ==> slots' == slots[i := slots'[i]]
    ensures EntryAhead(old(stream.Rest()), fields, v, i, 0, slots, fixedSize, tail) ==>
              && ok && stream.Rest() == tail && At(fields, v, i + 1, 0) && Progress(fields, v, slots', i + 1, 0)
              && (fields[i].htype.FixedCount? ==> v[i].Many? && fixedSize' == |v[i].items|)
    decreases fields, 1
  {
    hide ShapedItems, ShapedItem, FirstIn, EncItem, EncItems, FitsItem, EntryBody, PartSlot;
    var f := fields[i];
    ghost var ahead := EntryAhead(stream.Rest(), fields, v, i, 0, slots, fixedSize, tail);
    if ahead { PackedEntry(stream.Rest(), fields, v, i, slots, fixedSize, tail); FreshField(stream.Rest(), fields, v,
          i, slots, fixedSize, tail); }
    ghost var vs := if ahead then v[i].items else [];
    var size := if f.htype.FixedCount? then fixedSize else |slots[i].items|;
    var items;
    ok, items, size := DecodePacked(stream, f, slots[i].items, size, MaxCount(f), vs, tail);
    slots' := slots[i := Many(items)];
    fixedSize' := if f.htype.FixedCount? then size else fixedSize;
    if ahead {
      PackedIsNormal(f.ltype, vs);
      FieldDone(fields, v, i, 0, slots, slots');
    }
  }

  method DecodeElementAt(stream: IStream, fields: seq<Field>, i: nat, slots: seq<Slot>, fixedSize: nat,
                         ghost v: seq<Slot>,
                         ghost j: nat, ghost tail: Bytes)
    returns (ok: bool, slots': seq<Slot>, fixedSize': nat)
    requires stream.Valid() && ShapedMessage(fields, slots) && i < |fields| && IsArray(fields[i])
    requires fields[i].htype.FixedCount? ==> fixedSize <= fields[i].htype.count
    modifies stream
    ensures stream.Valid() && stream.End() <= old(stream.End()) && stream.left <= old(stream.left)
    ensures ok ==> stream.End() == old(stream.End()) && ShapedMessage(fields, slots')
    ensures ok ==> if fields[i].htype.FixedCount? then fixedSize' <= fields[i].htype.count else fixedSize' == fixedSize
    ensures ok ==> OnlyAt(fields, i, slots, fixedSize, slots', fixedSize')
    ensures ok ==> slots' == slots[i := slots'[i]]
    ensures EntryAhead(old(stream.Rest()), fields, v, i, j, slots, fixedSize, tail) && !Packable(fields[i].ltype) ==>
              && ok && stream.Rest() == tail && At(fields, v, i, j + 1) && Progress(fields, v, slots', i, j + 1)
              && (fields[i].htype.FixedCount? ==> fixedSize' == j + 1)
    decreases fields, 1
  {
    hide ShapedItems, ShapedItem, FirstIn, EncItem, EncItems, FitsItem, EntryBody;
    var f := fields[i];
    ghost var ahead := EntryAhead(stream.Rest(), fields, v, i, j, slots, fixedSize, tail) && !Packable(f.ltype);
    if ahead { ElementEntry(stream.Rest(), fields, v, i, j, slots, fixedSize, tail); }
    ghost var vs := if ahead then v[i].items else [];
    var size := if f.htype.FixedCount? then fixedSize else |slots[i].items|;
    var items;
    ok, items := DecodeElement(stream, f, slots[i].items, size, vs, j, tail);
    slots' := slots[i := Many(items)];
    fixedSize' := if f.htype.FixedCount? then size + 1 else fixedSize;
  }

  // ---------- fields the reader does not know ----------

  /** The body of an entry of this wire type, whole. */
  ghost predicate Skippable(wireType: nat, body: Bytes) {
    match wireType
    case 0 => VarintAt(body, |body|).Some? && VarintAt(body, |body|).value.1 == |body|
    case 1 => |body| == 8
    case 2 =>
      VarintAt(body, 5).Some? && VarintAt(body, 5).value.0 < TWO32
      && VarintAt(body, 5).value.1 + VarintAt(body, 5).value.0 == |body|
    case 5 => |body| == 4
    case _ => false
  }

  /** What is ahead: the next entry of a known field, the end of one, or an entry of an unknown field. */
  datatype Chunk = Next | Pass | Extra(tag: nat, wireType: nat, body: Bytes)

  ghost predicate Unknown(fields: seq<Field>, e: Chunk) {
    && e.Extra? && 0 < e.tag * 8 + e.wireType < TWO32 && e.wireType < 8 && Skippable(e.wireType, e.body)
    && forall k :: 0 <= k < |fields| ==> fields[k].tag != e.tag
  }

  /** The rest of the message, with entries of unknown fields before some of its own; plain where the script ends. */
  ghost predicate Woven(rest: Bytes, fields: seq<Field>, v: seq<Slot>, i: nat, j: nat, script: seq<Chunk>)
    requires TypedMessage(fields, v) && At(fields, v, i, j)
    decreases |script|
  {
    if script == [] then Remaining(fields, v, i, j) == Some(rest)
    else
      match script[0]
      case Pass => i < |fields| && Passed(fields[i], v[i], j) && At(fields, v, i + 1, 0)
                   && Woven(rest, fields, v, i + 1, 0, script[1..])
      case Next =>
        && i < |fields| && !Passed(fields[i], v[i], j) && EntryThere(fields[i], v[i], j)
        && var f, a := fields[i], AfterEntry(fields[i], i, j);
           At(fields, v, a.0, a.1)
           && exists tail :: rest == Tag(EntryWireType(f), f.tag) + (EntryBody(f, v[i], j).value + tail)
                             && Woven(tail, fields, v, a.0, a.1, script[1..])
      case Extra(tag, wireType, body) =>
        && Unknown(fields, script[0])
        && exists tail :: rest == Tag(wireType, tag) + (body + tail) && Woven(tail, fields, v, i, j, script[1..])
  }

  ghost predicate EntryThere(f: Field, s: Slot, j: nat)
    requires TypedSlot(f, s)
  {
    Present(f, s) && (IsArray(f) ==> j < |s.items|) && EntryBody(f, s, j).Some?
  }

  // ---------- the loop over a message ----------

  /** The position in a fixed-count array, which no counter in the struct keeps. */
  datatype FixedCounter = FixedCounter(field: Option<nat>, size: nat)

  /** The counter belongs to the array under way, or to one that has been decoded completely. */
  ghost predicate CounterOk(fields: seq<Field>, v: seq<Slot>, i: nat, j: nat, c: FixedCounter)
    requires TypedMessage(fields, v) && At(fields, v, i, j)
  {
    && (c.field.Some? ==>
          && c.field.value < |fields| && fields[c.field.value].htype.FixedCount?
          && if c.field.value < i then c.size == fields[c.field.value].htype.count
             else c.field.value == i && c.size == j && j > 0)
    && (j > 0 && fields[i].htype.FixedCount? ==> c.field == Some(i))
  }

  /** Every required field before the current one has been seen. */
  ghost predicate SeenOk(fields: seq<Field>, i: nat, seen: set<nat>)
    requires i <= |fields|
  {
    forall k :: 0 <= k < i && fields[k].htype.Required? && RequiredBefore(fields, k) < MAX_REQUIRED_FIELDS ==>
      RequiredBefore(fields, k) in seen
  }

  /** What the decoding loop keeps while it reads an encoded message. */
  ghost predicate Reading(rest: Bytes, fields: seq<Field>, v: seq<Slot>, slots: seq<Slot>, i: nat, j: nat,
                          c: FixedCounter, seen: set<nat>, script: seq<Chunk>)
  {
    && TypedMessage(fields, v) && FitsMessage(fields, v) && At(fields, v, i, j) && Progress(fields, v, slots, i, j)
    && Woven(rest, fields, v, i, j, script) && CounterOk(fields, v, i, j, c) && SeenOk(fields, i, seen)
  }

  /** Past what is not on the wire: to the next entry, known or unknown, or the end of the message. */
  lemma {:induction false} AdvanceReading(rest: Bytes, fields: seq<Field>, v: seq<Slot>, slots: seq<Slot>, i: nat,
                                          j: nat, c: FixedCounter, seen: set<nat>, script: seq<Chunk>)
    returns (i': nat, j': nat, script': seq<Chunk>)
    requires Reading(rest, fields, v, slots, i, j, c, seen, script)
    ensures Reading(rest, fields, v, slots, i', j', c, seen, script')
    ensures script' == [] || !script'[0].Pass?
    ensures (script' == [] || script'[0].Next?) && i' < |fields| ==> !Passed(fields[i'], v[i'], j')
    ensures script' == [] || script'[0].Next? ==> i' <= |fields| && (i' == |fields| <==> rest == [])
    ensures script' != [] && script'[0].Extra? ==> rest != []
    decreases |script|
  {
    hide FitsMessage, Progress, EncField, EncFrom, EncTagged, CounterOk, EntryBody, Passed, Skippable, SeenOk;
    i', j', script' := i, j, script;
    if script == [] {
      i', j' := Advance(fields, v, slots, i, j);
      CounterAdvances(fields, v, i, j, i', j', c);
      SeenAdvances(fields, i, i', seen);
      if i' < |fields| {
        NextEntry(fields, v, i', j');
      }
    } else if script[0].Pass? {
      PassedArray(fields[i], v[i], j);
      PassedField(fields[i], v[i], j);
      NextField(fields, v, slots, i, j);
      CounterAdvances(fields, v, i, j, i + 1, 0, c);
      SeenAdvances(fields, i, i + 1, seen);
      i', j', script' := AdvanceReading(rest, fields, v, slots, i + 1, 0, c, seen, script[1..]);
    }
  }

  lemma SeenAdvances(fields: seq<Field>, i: nat, i': nat, seen: set<nat>)
    requires i <= i' <= |fields| && SeenOk(fields, i, seen) && forall k :: i <= k < i' ==> !fields[k].htype.Required?
    ensures SeenOk(fields, i', seen)
  {
  }

  lemma CounterAdvances(fields: seq<Field>, v: seq<Slot>, i: nat, j: nat, i': nat, j': nat, c: FixedCounter)
    requires TypedMessage(fields, v) && At(fields, v, i, j) && At(fields, v, i', j') && CounterOk(fields, v, i, j, c)
    requires i <= i' && (i == i' ==> j == j') && (i < i' ==> j' == 0)
             && (i < i' && j > 0 ==> v[i].Many? && j == |v[i].items|)
    ensures CounterOk(fields, v, i', j', c)
  {
  }

  /** One entry has been decoded. */
  lemma EntryDone(rest: Bytes, fields: seq<Field>, v: seq<Slot>, slots': seq<Slot>, i: nat, j: nat, c: FixedCounter,
                  c': FixedCounter, seen: set<nat>, seen': set<nat>, script: seq<Chunk>)
    requires TypedMessage(fields, v) && FitsMessage(fields, v) && i < |fields| && At(fields, v, i, j)
             && !Passed(fields[i], v[i], j)
    requires CounterOk(fields, v, i, j, c) && SeenOk(fields, i, seen) && seen <= seen'
    requires var a := AfterEntry(fields[i], i, j);
             && At(fields, v, a.0, a.1) && Progress(fields, v, slots', a.0, a.1)
             && Woven(rest, fields, v, a.0, a.1, script)
             && (if fields[i].htype.FixedCount? then c' == FixedCounter(Some(i), if a.0 == i then a.1
                   else |v[i].items|) else c' == c)
    requires fields[i].htype.Required? && RequiredBefore(fields, i) < MAX_REQUIRED_FIELDS ==>
               RequiredBefore(fields, i) in seen'
    ensures var a := AfterEntry(fields[i], i, j); Reading(rest, fields, v, slots', a.0, a.1, c', seen', script)
  {
    hide FitsMessage, Progress, Woven, EncField, EncFrom, EncTagged, FieldLeft;
    assert TypedSlot(fields[i], v[i]);
  }

  /** The tag of the next entry is at the front. */
  lemma TagInFront(rest: Bytes, fields: seq<Field>, v: seq<Slot>, slots: seq<Slot>, i: nat, j: nat, c: FixedCounter,
                   seen: set<nat>, script: seq<Chunk>)
    returns (n: nat, tail: Bytes, script': seq<Chunk>)
    requires Reading(rest, fields, v, slots, i, j, c, seen, script) && i < |fields| && !Passed(fields[i], v[i], j)
    requires script == [] || script[0].Next?
    ensures n == fields[i].tag * 8 + EntryWireType(fields[i]) && 0 < n < TWO32
    ensures VarintAt(rest, 5).Some? && VarintAt(rest, 5).value.0 == n
    ensures EntryAhead(rest[VarintAt(rest, 5).value.1..], fields, v, i, j, slots, j, tail)
    ensures var a := AfterEntry(fields[i], i, j);
            At(fields, v, a.0, a.1) && Woven(tail, fields, v, a.0, a.1, script')
  {
    hide Progress, EncField, EncFrom, EncTagged, EncItem, EncItems, FitsSlot, VarintAt, Varint, Unknown;
    var f, a := fields[i], AfterEntry(fields[i], i, j);
    n := f.tag * 8 + EntryWireType(f);
    if script == [] {
      NextEntry(fields, v, i, j);
      tail, script' := Remaining(fields, v, a.0, a.1).value, [];
    } else {
      tail :| rest == Tag(EntryWireType(f), f.tag) + (EntryBody(f, v[i], j).value + tail)
              && Woven(tail, fields, v, a.0, a.1, script[1..]);
      script' := script[1..];
    }
    assert GoodTags(fields);
    VarintInFront(n, EntryBody(f, v[i], j).value + tail);
  }

  /** An unknown entry is in front: its tag belongs to no field, and skipping it ends behind it. */
  lemma UnknownInFront(rest: Bytes, fields: seq<Field>, v: seq<Slot>, i: nat, j: nat, script: seq<Chunk>)
    returns (tail: Bytes)
    requires TypedMessage(fields, v) && At(fields, v, i, j) && Woven(rest, fields, v, i, j, script)
    requires script != [] && script[0].Extra?
    ensures Woven(tail, fields, v, i, j, script[1..])
    ensures var e, n := script[0], script[0].tag * 8 + script[0].wireType;
            && Unknown(fields, e) && 0 < n < TWO32 && n / 8 == e.tag && n % 8 == e.wireType
            && VarintAt(rest, 5).Some? && VarintAt(rest, 5).value.0 == n
            && rest[VarintAt(rest, 5).value.1..] == e.body + tail
  {
    hide Remaining, VarintAt, Varint, Skippable, Passed, EntryThere;
    var e := script[0];
    tail :| rest == Tag(e.wireType, e.tag) + (e.body + tail) && Woven(tail, fields, v, i, j, script[1..]);
    VarintInFront(e.tag * 8 + e.wireType, e.body + tail);
  }

  /** Skipping by the wire type consumes just the body. */
  method SkipBody(stream: IStream, wireType: nat, ghost body: Bytes, ghost tail: Bytes) returns (ok: bool)
    requires stream.Valid()
    modifies stream
    ensures stream.Valid() && stream.End() == old(stream.End()) && stream.left <= old(stream.left)
    ensures Skippable(wireType, body) && old(stream.Rest()) == body + tail ==> ok && stream.Rest() == tail
  {
    hide VarintAt, Took;
    ghost var rest := stream.Rest();
    if Skippable(wireType, body) && rest == body + tail {
      if wireType == 0 { VarintExtends(body, |body|, tail, |rest|); }
      if wireType == 2 { VarintExtends(body, 5, tail, 5); }
      assert rest[|body|..] == tail;
    }
    ok := stream.SkipField(wireType);
  }

  /** All of the message has been read. */
  lemma ReadingDone(fields: seq<Field>, v: seq<Slot>, slots: seq<Slot>, j: nat, c: FixedCounter, seen: set<nat>,
                    script: seq<Chunk>)
    requires Reading([], fields, v, slots, |fields|, j, c, seen, script)
    ensures slots == NormMessage(fields, v)
    ensures c.field.Some? ==> c.field.value < |fields| && fields[c.field.value].htype.FixedCount?
                              && c.size == fields[c.field.value].htype.count
    ensures forall r :: 0 <= r < RequiredBefore(fields, |fields|) && r < MAX_REQUIRED_FIELDS ==> r in seen
  {
    hide FitsMessage, EncFrom, EncField, Remaining, Woven;
    forall r | 0 <= r < RequiredBefore(fields, |fields|) && r < MAX_REQUIRED_FIELDS
      ensures r in seen
    {
      var k := RequiredAt(fields, |fields|, r);
    }
  }

  lemma {:induction false} RequiredAt(fields: seq<Field>, n: nat, r: nat) returns (k: nat)
    requires n <= |fields| && r < RequiredBefore(fields, n)
    ensures k < n && fields[k].htype.Required? && RequiredBefore(fields, k) == r
  {
    if r < RequiredBefore(fields, n - 1) {
      k := RequiredAt(fields, n - 1, r);
    } else {
      k := n - 1;
    }
  }

  /** The check for missing required fields; the bitmap of seen fields is a set here. */
  method CheckRequired(iter: FieldIter, seen: set<nat>) returns (ok: bool)
    requires iter.Valid()
    modifies iter
    ensures ok <==> forall r :: 0 <= r < RequiredBefore(iter.fields, |iter.fields|) && r < MAX_REQUIRED_FIELDS ==>
              r in seen
  {
    var count := iter.requiredFieldIndex;
    var last := iter.pos;
    var more := true;
    while more
      invariant iter.Valid()
      invariant more && iter.fields != [] ==> iter.pos < |iter.fields|
      invariant !more ==>
                  last + 1 == (if iter.fields == [] then 1 else |iter.fields|)
                  && count == RequiredBefore(iter.fields, last)
      decreases more, |iter.fields| - iter.pos
    {
      count, last := iter.requiredFieldIndex, iter.pos;
      more := iter.Next();
    }
    if iter.fields != [] && iter.fields[last].htype.Required? {
      count := count + 1;
    }
    if count > MAX_REQUIRED_FIELDS {
      count := MAX_REQUIRED_FIELDS;
    }
    ok := true;
    for i := 0 to count
      invariant ok <==> forall r :: 0 <= r < i ==> r in seen
    {
      if i !in seen {
        ok := false;
      }
    }
  }

  /** The counter of a fixed-count array is in range. */
  ghost predicate CounterInRange(fields: seq<Field>, c: FixedCounter) {
    c.field.Some? ==>
      && c.field.value < |fields| && fields[c.field.value].htype.FixedCount?
      && c.size <= fields[c.field.value].htype.count
  }

  /** The counter for an occurrence of field `pos`: a new array may start only when the previous one is complete. */
  method SelectCounter(fields: seq<Field>, pos: nat, c: FixedCounter) returns (ok: bool, c': FixedCounter)
    requires pos < |fields| && CounterInRange(fields, c)
    ensures CounterInRange(fields, c')
    ensures ok <==> !(fields[pos].htype.FixedCount? && c.field != Some(pos) && c.field.Some?
                      && c.size != fields[c.field.value].htype.count)
    ensures ok ==> c' == if fields[pos].htype.FixedCount? && c.field != Some(pos) then FixedCounter(Some(pos), 0) else c
  {
    ok, c' := true, c;
    if fields[pos].htype.FixedCount? && c.field != Some(pos) {
      if c.field.Some? && c.size != fields[c.field.value].htype.count {
        return false, c;
      }
      c' := FixedCounter(Some(pos), 0);
    }
  }

  /** An occurrence of the field the iterator is at: its counter, the mark that it was seen, and its value. */
  method DecodeKnown(stream: IStream, iter: FieldIter, wireType: nat, slots: seq<Slot>, c: FixedCounter, seen: set<nat>,
                     ghost dest: seq<Slot>, ghost v: seq<Slot>, ghost i: nat, ghost j: nat, ghost tail: Bytes,
                     ghost ahead: bool)
    returns (ok: bool, slots': seq<Slot>, c': FixedCounter, seen': set<nat>)
    requires stream.Valid() && iter.Valid() && iter.pos < |iter.fields|
    requires ShapedMessage(iter.fields, slots) && CounterInRange(iter.fields, c)
             && ArraysWhole(iter.fields, dest, slots, c)
    requires ahead ==>
               && iter.pos == i && wireType == EntryWireType(iter.fields[i])
               && EntryAhead(stream.Rest(), iter.fields, v, i, j, slots, j, tail) && CounterSuits(iter.fields, i, j, c)
    modifies stream
    ensures stream.Valid() && stream.End() <= old(stream.End()) && stream.left <= old(stream.left)
    ensures ok ==>
              stream.End() == old(stream.End()) && ShapedMessage(iter.fields, slots')
              && CounterInRange(iter.fields, c') && ArraysWhole(iter.fields, dest, slots', c')
    ensures ok ==>
              seen' == if iter.fields[iter.pos].htype.Required? && iter.requiredFieldIndex < MAX_REQUIRED_FIELDS
                       then seen + {iter.requiredFieldIndex} else seen
    ensures ok ==> Stored(iter.fields, iter.pos, slots, slots', old(stream.Rest()), stream.Rest())
    ensures ahead ==>
              && ok && stream.Rest() == tail
              && var a := AfterEntry(iter.fields[i], i, j);
                 At(iter.fields, v, a.0, a.1) && Progress(iter.fields, v, slots', a.0, a.1)
                 && c' == if iter.fields[i].htype.FixedCount?
                          then FixedCounter(Some(i), if a.0 == i then a.1 else |v[i].items|) else c
    decreases iter.fields, 3
  {
    hide EntryAhead, At, Progress, ShapedMessage, ArraysWhole, OnlyAt, Stored;
    slots', c', seen' := slots, c, seen;
    ok, c' := SelectCounter(iter.fields, iter.pos, c);
    if !ok {
      return;
    }
    ArraysAtSwitch(iter.fields, dest, slots, c, c');
    if iter.fields[iter.pos].htype.Required? && iter.requiredFieldIndex < MAX_REQUIRED_FIELDS {
      seen' := seen + {iter.requiredFieldIndex};
    }
    if ahead { SizeIrrelevant(stream.Rest(), iter.fields, v, i, j, slots, c'.size, tail); }
    var size;
    ok, slots', size := DecodeField(stream, iter.fields, iter.pos, wireType, slots, c'.size, v, j, tail);
    if ok { ArraysAfter(iter.fields, dest, slots, c', iter.pos, slots', size); }
    c' := c'.(size := size);
  }

  /** The counter belongs to field `i`, or is free for it. */
  ghost predicate CounterSuits(fields: seq<Field>, i: nat, j: nat, c: FixedCounter) {
    i < |fields| && fields[i].htype.FixedCount? ==>
      && (c.field == Some(i) ==> c.size == j)
      && (c.field != Some(i) ==>
            j == 0 && (c.field.Some? ==> c.field.value < |fields| && fields[c.field.value].htype.FixedCount?
                                         && c.size == fields[c.field.value].htype.count))
  }

  /** One turn of the loop of pb_decode_noinit; `stop` is the end of the message. */
  method DecodeEntry(stream: IStream, iter: FieldIter, slots: seq<Slot>, c: FixedCounter, seen: set<nat>,
                     ghost dest: seq<Slot>, ghost v: seq<Slot>, ghost i: nat, ghost j: nat, ghost script: seq<Chunk>,
                     ghost ahead: bool)
    returns (ok: bool, stop: bool, slots': seq<Slot>, c': FixedCounter, seen': set<nat>,
             ghost i': nat, ghost j': nat, ghost script': seq<Chunk>)
    requires stream.Valid() && stream.left > 0 && iter.Valid()
    requires ShapedMessage(iter.fields, slots) && CounterInRange(iter.fields, c)
             && ArraysWhole(iter.fields, dest, slots, c)
    requires ahead ==>
               FitsMessage(iter.fields, v) && Reading(stream.Rest(), iter.fields, v, slots, i, j, c, seen, script)
    modifies stream, iter
    ensures stream.Valid() && stream.End() <= old(stream.End()) && stream.left <= old(stream.left) && iter.Valid()
    ensures ok ==>
              stream.End() == old(stream.End()) && ShapedMessage(iter.fields, slots')
              && CounterInRange(iter.fields, c') && ArraysWhole(iter.fields, dest, slots', c')
    ensures ok && !stop ==> stream.left < old(stream.left)
    ensures ahead ==> ok && !stop && Reading(stream.Rest(), iter.fields, v, slots', i', j', c', seen', script')
    ensures ok && !stop ==> forall k :: 0 <= k < |iter.fields| && iter.fields[k].htype.Required?
                                        && RequiredBefore(iter.fields, k) in seen' - seen ==>
                              TagAhead(old(stream.Rest()), iter.fields[k].tag)
    ensures ok ==> EntryFrom(iter.fields, slots, slots', old(stream.Rest()))
    ensures ok && stop ==> seen' == seen && Took(old(stream.Rest()), 0, stream.Rest())
    decreases iter.fields, 4
  {
    hide FitsMessage, EncFrom, Reading, VarintAt, EntryAhead, At, Progress, Remaining, CounterOk, SeenOk, Passed,
         EntryBody, ShapedMessage, ArraysWhole, Stored, EntryFrom, Woven, Took, Unknown, TagAhead, RequiredBefore;
    slots', c', seen', i', j', script', stop := slots, c, seen, i, j, script, false;
    ghost var fields, rest, tail, number, next := iter.fields, stream.Rest(), [], 0, [];
    SameLength(fields, slots);
    NothingStored(fields, slots, rest);
    if ahead {
      i', j', script' := AdvanceReading(rest, fields, v, slots, i, j, c, seen, script);
    }
    ghost var extra := ahead && script' != [] && script'[0].Extra?;
    if extra {
      tail := UnknownInReading(rest, fields, v, slots, i', j', c, seen, script');
    } else if ahead {
      number, tail, next := TagInFront(rest, fields, v, slots, i', j', c, seen, script');
    }
    var wireType, tag, eof;
    ok, wireType, tag, eof := stream.DecodeTag();
    if !ok {
      return eof, true, slots, c, seen, i, j, script;
    }
    TookTag(rest, tag, wireType, stream.Rest());
    var found := iter.Find(tag);
    if extra {
      assert !found by { TagUnknown(fields, script'[0], iter.pos, found); }
    } else if ahead {
      TagFinds(fields, v, i', tag, iter.pos, found);
    }
    if !found {
      ok := SkipBody(stream, wireType, if extra then script'[0].body else [], tail);
      if extra { script' := script'[1..]; }
      return;
    }
    if ahead && fields[i'].htype.FixedCount? { CounterFacts(rest, fields, v, slots, i', j', c, seen, script'); }
    ghost var behind := stream.Rest();
    ok, slots', c', seen' := DecodeKnown(stream, iter, wireType, slots, c, seen, dest, v, i', j', tail, ahead);
    if fields[iter.pos].htype.Required? { OnlyThisField(fields, iter.pos); }
    if ok { StoredFrom(fields, iter.pos, slots, slots', rest, 8 * tag + wireType, behind, stream.Rest()); }
    if ahead {
      ReadingFacts(rest, fields, v, slots, i', j', c, seen, script');
      EntryDone(tail, fields, v, slots', i', j', c, c', seen, seen', next);
      var a := AfterEntry(fields[i'], i', j');
      i', j', script' := a.0, a.1, next;
    }
  }

  /** The bytes start with a tag of this number. */
  ghost predicate TagAhead(bytes: Bytes, tag: nat) {
    exists value: nat, rest :: Took(bytes, value, rest) && value / 8 == tag
  }

  lemma TookTag(bytes: Bytes, tag: nat, wireType: nat, rest: Bytes)
    requires Took(bytes, 8 * tag + wireType, rest) && wireType < 8
    ensures TagAhead(bytes, tag)
  {
    hide Took;
    assert (8 * tag + wireType) / 8 == tag;
  }

  lemma TagUnknown(fields: seq<Field>, e: Chunk, pos: nat, found: bool)
    requires Unknown(fields, e) && (found ==> pos < |fields| && fields[pos].tag == e.tag)
    ensures !found
  {
  }

  lemma UnknownInReading(rest: Bytes, fields: seq<Field>, v: seq<Slot>, slots: seq<Slot>, i: nat, j: nat,
                         c: FixedCounter, seen: set<nat>, script: seq<Chunk>)
    returns (tail: Bytes)
    requires Reading(rest, fields, v, slots, i, j, c, seen, script) && script != [] && script[0].Extra?
    ensures Reading(tail, fields, v, slots, i, j, c, seen, script[1..])
    ensures var e, n := script[0], script[0].tag * 8 + script[0].wireType;
            && Unknown(fields, e) && Skippable(e.wireType, e.body) && 0 < n < TWO32 && n / 8 == e.tag
            && n % 8 == e.wireType && VarintAt(rest, 5).Some? && VarintAt(rest, 5).value.0 == n
            && rest[VarintAt(rest, 5).value.1..] == e.body + tail
  {
    hide FitsMessage, Progress, CounterOk, SeenOk, Woven, VarintAt, Skippable;
    tail := UnknownInFront(rest, fields, v, i, j, script);
  }

  /** Required fields are numbered apart. */
  lemma OnlyThisField(fields: seq<Field>, pos: nat)
    requires pos < |fields| && fields[pos].htype.Required?
    ensures forall k :: 0 <= k < |fields| && fields[k].htype.Required? && k != pos ==>
              RequiredBefore(fields, k) != RequiredBefore(fields, pos)
  {
    forall k | 0 <= k < |fields| && fields[k].htype.Required? && k != pos
      ensures RequiredBefore(fields, k) != RequiredBefore(fields, pos)
    {
      if k < pos { RequiredGrows(fields, k, pos); } else { RequiredGrows(fields, pos, k); }
    }
  }

  lemma {:induction false} RequiredGrows(fields: seq<Field>, i: nat, n: nat)
    requires i < n <= |fields| && fields[i].htype.Required?
    ensures RequiredBefore(fields, i) < RequiredBefore(fields, n)
  {
    if i < n - 1 { RequiredGrows(fields, i, n - 1); }
  }

  /** A tag of this number is read somewhere in the bytes. */
  ghost predicate Occurs(bytes: Bytes, tag: nat) {
    exists p :: 0 <= p <= |bytes| && TagAhead(bytes[p..], tag)
  }

  /** The required fields whose number is in `seen` occur in the bytes. */
  ghost predicate SeenOccur(fields: seq<Field>, seen: set<nat>, bytes: Bytes) {
    forall k :: 0 <= k < |fields| && fields[k].htype.Required? && RequiredBefore(fields, k) in seen ==>
      Occurs(bytes, fields[k].tag)
  }

  lemma MoreOccur(fields: seq<Field>, seen: set<nat>, seen': set<nat>, bytes: Bytes, p: nat)
    requires p <= |bytes| && SeenOccur(fields, seen, bytes)
    requires forall k :: 0 <= k < |fields| && fields[k].htype.Required? && RequiredBefore(fields, k) in seen' - seen ==>
               TagAhead(bytes[p..], fields[k].tag)
    ensures SeenOccur(fields, seen', bytes)
  {
    hide TagAhead, RequiredBefore;
  }

  /** Every required field that is tracked has been seen, so it occurs. */
  lemma AllOccur(fields: seq<Field>, seen: set<nat>, bytes: Bytes)
    requires SeenOccur(fields, seen, bytes)
    requires forall r :: 0 <= r < RequiredBefore(fields, |fields|) && r < MAX_REQUIRED_FIELDS ==> r in seen
    ensures RequiredOccur(fields, bytes)
  {
    forall k | 0 <= k < |fields| && fields[k].htype.Required? && RequiredBefore(fields, k) < MAX_REQUIRED_FIELDS
      ensures Occurs(bytes, fields[k].tag)
    {
      RequiredGrows(fields, k, |fields|);
    }
  }

  /** Every required field, up to the number of them that is tracked, occurs in the bytes. */
  ghost predicate RequiredOccur(fields: seq<Field>, bytes: Bytes) {
    forall k :: 0 <= k < |fields| && fields[k].htype.Required? && RequiredBefore(fields, k) < MAX_REQUIRED_FIELDS ==>
      Occurs(bytes, fields[k].tag)
  }

  /** A message may end early, behind a zero where a tag would be. */
  ghost predicate StopsAtZero(input: Bytes, rest: Bytes) {
    exists p :: 0 <= p <= |input| && Took(input[p..], 0, rest)
  }

  /** pb_decode_noinit. */
  method DecodeNoInit(stream: IStream, fields: seq<Field>, dest: seq<Slot>, ghost v: seq<Slot>,
                      ghost script: seq<Chunk>)
    returns (ok: bool, slots: seq<Slot>)
    requires stream.Valid() && ShapedMessage(fields, dest)
    modifies stream
    ensures stream.Valid() && stream.End() <= old(stream.End()) && stream.left <= old(stream.left)
    ensures ok ==> stream.End() == old(stream.End()) && ShapedMessage(fields, slots)
    ensures ok ==> RequiredOccur(fields, old(stream.Rest())) && ArraysWhole(fields, dest, slots, FixedCounter(None, 0))
    ensures ok ==> stream.left == 0 || StopsAtZero(old(stream.Rest()), stream.Rest())
    ensures ok ==> FromInput(fields, dest, slots, old(stream.Rest()))
    ensures Encoded(old(stream.Rest()), fields, v, script) && dest == Defaults(fields) ==>
              ok && slots == NormMessage(fields, v) && stream.left == 0
    decreases fields, 5
  {
    hide FitsMessage, EncFrom, Reading, ShapedMessage, At, Progress, Remaining, CounterOk, SeenOk, Woven, SeenOccur;
    hide TagAhead, RequiredOccur, RequiredBefore, ArraysWhole, Took, FromInput, EntryFrom;
    ArraysAtStart(fields, dest);
    SameLength(fields, dest);
    slots := dest;
    var iter := new FieldIter(fields);
    var counter, seen: set<nat>, stop := FixedCounter(None, 0), {}, false;
    ghost var ahead := Encoded(stream.Rest(), fields, v, script) && dest == Defaults(fields);
    ghost var i: nat, j: nat, todo := 0, 0, script;
    ghost var input, start := stream.Rest(), stream.pos;
    if ahead { ReadingStarts(stream.Rest(), fields, v, script); }
    NoneSeen(fields, input);
    FromNothing(fields, dest, input);
    while stream.left > 0 && !stop
      invariant stream.Valid() && stream.End() == old(stream.End()) && stream.left <= old(stream.left)
      invariant iter.Valid() && fresh(iter) && iter.fields == fields
      invariant ShapedMessage(fields, slots) && CounterInRange(fields, counter)
      invariant ArraysWhole(fields, dest, slots, counter) && (stop ==> StopsAtZero(input, stream.Rest()))
      invariant ahead ==> !stop && Reading(stream.Rest(), fields, v, slots, i, j, counter, seen, todo)
      invariant SeenOccur(fields, seen, input) && FromInput(fields, dest, slots, input)
      decreases stream.left, !stop
    {
      ghost var p, before, was := stream.pos - start, seen, slots;
      assert input[p..] == stream.Rest();
      ok, stop, slots, counter, seen, i, j, todo :=
        DecodeEntry(stream, iter, slots, counter, seen, dest, v, i, j, todo, ahead);
      if !ok {
        return;
      }
      FromMore(fields, dest, was, slots, input, p);
      if !stop { MoreOccur(fields, before, seen, input, p); }
    }
    if ahead {
      assert stream.Rest() == [];
      i, j, todo := AdvanceReading([], fields, v, slots, i, j, counter, seen, todo);
      ReadingDone(fields, v, slots, j, counter, seen, todo);
    }
    if counter.field.Some? && counter.size != fields[counter.field.value].htype.count {
      return false, slots;
    }
    ArraysAtSwitch(fields, dest, slots, counter, FixedCounter(None, 0));
    ok := CheckRequired(iter, seen);
    if ok { AllOccur(fields, seen, input); }
  }

  lemma NoneSeen(fields: seq<Field>, bytes: Bytes)
    ensures SeenOccur(fields, {}, bytes)
  {
  }

  /** The bytes encode a message that fits, with unknown entries as the script says. */
  ghost predicate Encoded(bytes: Bytes, fields: seq<Field>, v: seq<Slot>, script: seq<Chunk>) {
    FitsMessage(fields, v) && TypedMessage(fields, v) && At(fields, v, 0, 0) && Woven(bytes, fields, v, 0, 0, script)
  }

  lemma PlainEncoded(bytes: Bytes, fields: seq<Field>, v: seq<Slot>)
    requires FitsMessage(fields, v) && TypedMessage(fields, v) && EncFrom(fields, v, 0) == Some(bytes)
    ensures Encoded(bytes, fields, v, [])
  {
    hide FitsMessage, EncFrom;
    RemainingWhole(fields, v, 0);
  }

  lemma ReadingStarts(rest: Bytes, fields: seq<Field>, v: seq<Slot>, script: seq<Chunk>)
    requires Encoded(rest, fields, v, script)
    ensures Reading(rest, fields, v, Defaults(fields), 0, 0, FixedCounter(None, 0), {}, script)
  {
    hide Woven;
    if fields != [] {
      if IsArray(fields[0]) { ArraysFit(fields, v, 0); }
      PartAtStart(fields[0], v[0]);
    }
  }

  lemma TagFinds(fields: seq<Field>, v: seq<Slot>, i: nat, tag: nat, pos: nat, found: bool)
    requires FitsMessage(fields, v) && i < |fields| && tag == fields[i].tag
    requires found ==> pos < |fields| && fields[pos].tag == tag
    requires !found ==> forall k :: 0 <= k < |fields| ==> fields[k].tag != tag
    ensures found && pos == i
  {
    assert GoodTags(fields);
  }

  lemma CounterFacts(rest: Bytes, fields: seq<Field>, v: seq<Slot>, slots: seq<Slot>, i: nat, j: nat, c: FixedCounter,
                     seen: set<nat>, script: seq<Chunk>)
    requires Reading(rest, fields, v, slots, i, j, c, seen, script) && i < |fields| && fields[i].htype.FixedCount?
    ensures CounterSuits(fields, i, j, c)
  {
    hide FitsMessage, Progress, EncFrom, EncField, Remaining, Woven;
  }

  lemma SizeIrrelevant(rest: Bytes, fields: seq<Field>, v: seq<Slot>, i: nat, j: nat, slots: seq<Slot>, size: nat,
                       tail: Bytes)
    requires EntryAhead(rest, fields, v, i, j, slots, j, tail) && (fields[i].htype.FixedCount? ==> size == j)
    ensures EntryAhead(rest, fields, v, i, j, slots, size, tail)
  {
  }

  lemma ReadingFacts(rest: Bytes, fields: seq<Field>, v: seq<Slot>, slots: seq<Slot>, i: nat, j: nat, c: FixedCounter,
                     seen: set<nat>, script: seq<Chunk>)
    requires Reading(rest, fields, v, slots, i, j, c, seen, script)
    ensures TypedMessage(fields, v) && i <= |fields| && At(fields, v, i, j) && CounterOk(fields, v, i, j, c)
            && SeenOk(fields, i, seen)
  {
    hide Woven, FitsMessage, Progress;
  }

  /** pb_decode: from the defaults. */
  method Decode(stream: IStream, fields: seq<Field>, ghost v: seq<Slot>, ghost script: seq<Chunk>)
    returns (ok: bool, slots: seq<Slot>)
    requires stream.Valid()
    modifies stream
    ensures stream.Valid() && stream.End() <= old(stream.End()) && stream.left <= old(stream.left)
    ensures ok ==> stream.End() == old(stream.End()) && ShapedMessage(fields, slots)
    ensures ok ==> RequiredOccur(fields, old(stream.Rest()))
                   && ArraysWhole(fields, Defaults(fields), slots, FixedCounter(None, 0))
    ensures ok ==> stream.left == 0 || StopsAtZero(old(stream.Rest()), stream.Rest())
    ensures ok ==> FromInput(fields, Defaults(fields), slots, old(stream.Rest()))
    ensures Encoded(old(stream.Rest()), fields, v, script) ==>
              ok && slots == NormMessage(fields, v) && stream.left == 0
    decreases fields, 6
  {
    hide Encoded, RequiredOccur, ArraysWhole, StopsAtZero, FromInput;
    DefaultsShaped(fields);
    ok, slots := DecodeNoInit(stream, fields, Defaults(fields), v, script);
  }

  /** pb_dec_submessage: array elements start from the defaults, other structs are decoded into what is there. */
  method DecodeSubmessage(stream: IStream, f: Field, dest: Item, ghost v: Item, ghost tail: Bytes)
    returns (ok: bool, item: Item)
    requires stream.Valid() && f.ltype.Submessage? && (IsArray(f) || ShapedItem(f, dest))
    modifies stream
    ensures stream.Valid() && stream.End() <= old(stream.End()) && stream.left <= old(stream.left)
    ensures ok ==> stream.End() == old(stream.End()) && ShapedItem(f, item)
    ensures ItemAhead(old(stream.Rest()), f, dest, v, tail) ==>
              ok && item == NormItem(f.ltype, v) && stream.Rest() == tail
    decreases f, 0
  {
    hide FitsMessage, EncFrom, VarintAt, Varint;
    var fields := f.ltype.fields;
    ghost var ahead := ItemAhead(stream.Rest(), f, dest, v, tail);
    ghost var w := if ahead then v.slots else [];
    if ahead {
      ghost var payload := EncFrom(fields, w, 0).value;
      VarintInFront(|payload|, payload + tail);
      Regroup(Varint(|payload|), payload, tail);
      Front(payload, tail);
    }
    item := dest;
    var sub, slots;
    ok, sub := stream.MakeSubstream();
    if !ok {
      return;
    }
    if ahead { PlainEncoded(sub.Rest(), fields, w); }
    if IsArray(f) {
      ok, slots := Decode(sub, fields, w, []);
    } else {
      ok, slots := DecodeNoInit(sub, fields, dest.slots, w, []);
    }
    var closed := stream.CloseSubstream(sub);
    ok, item := ok && closed, Msg(slots);
  }

  lemma FitsIsTyped(fields: seq<Field>, v: seq<Slot>)
    requires FitsMessage(fields, v)
    ensures TypedMessage(fields, v) && EncFrom(fields, v, 0).Some?
  {
  }
}
