/**
 What is left out of the wire image: a proto3 field without a has_ flag takes no bytes
 exactly while it holds its default, and a message takes none exactly while all of it does.
 ZeroIsDefault of module DefaultsProjected is one half; the other one holds of these types.
 */
module ZeroFields {
  import opened Varint
  import opened Descriptor
  import opened Encoding
  import opened Projection
  import opened DefaultsProjected
  import opened Decoding
  import opened Records
  import opened SubmessageMerging

  // ---------- Types whose default takes no bytes ----------

  /** Every field is left out while it holds its default. */
  predicate Erasable(d: seq<Field>)
    decreases d, 0
  {
    forall i :: 0 <= i < |d| ==> ErasableField(d[i])
  }

  /** Required fields and fixed-count arrays are always written. */
  predicate ErasableField(f: Field)
    decreases f, 1
  {
    match f.htype
    case Required => false
    case Optional => f.sizeOffset != 0 || ErasableType(f)
    case Repeated => f.sizeOffset != 0
    case Oneof(_) => true
  }

  /** The zero check calls no array of fixed length zero, unless it is empty. */
  predicate ErasableType(f: Field)
    decreases f, 0
  {
    if f.ltype.Submessage? then f.ptr.Sub? && Erasable(f.ptr.fields)
    else !f.ptr.Init? && (f.ltype.FixedLengthBytes? ==> f.dataSize == 0)
  }

  // ---------- The default is zero ----------

  lemma {:induction false} DefaultIsZero(f: Field)
    requires WellFormedField(f) && ErasableType(f)
    ensures ZeroValue(f, DefaultValue(f))
    decreases f, 0
  {
    if f.ltype.Submessage? {
      DefaultsAreZero(f.ptr.fields);
    }
  }

  lemma {:induction false} DefaultsAreZero(d: seq<Field>)
    requires WellFormed(d) && Erasable(d)
    ensures ZeroMsg(d, Defaults(d))
    decreases d, 1
  {
    DefaultsAt(d);
    forall i | 0 <= i < |d| ensures ZeroSlot(d[i], SlotOf(Defaults(d), d[i])) {
      assert ErasableField(d[i]) && WellFormedField(d[i]);
      DefaultSlotIsZero(d, i);
    }
    ZeroMsgAt(d, Defaults(d));
  }

  lemma {:induction false} DefaultSlotIsZero(d: seq<Field>, i: nat)
    requires i < |d| && WellFormedField(d[i]) && ErasableField(d[i])
    ensures ZeroSlot(d[i], DefaultSlot(d[i]))
    decreases d, 0
  {
    hide ZeroValue, DefaultValue, WellFormedField, ErasableType;
    if d[i].htype.Optional? && d[i].sizeOffset == 0 {
      DefaultIsZero(d[i]);
    }
  }

  // ---------- One field ----------

  /** The zero check finds exactly the default. */
  lemma ZeroExactly(f: Field, v: Value)
    requires WellFormedField(f) && ErasableType(f) && NormalValue(f, v)
    ensures ZeroValue(f, v) <==> v == DefaultValue(f)
  {
    DefaultIsZero(f);
    if ZeroValue(f, v) {
      ZeroIsDefault(f, v);
    }
    hide ZeroValue, DefaultValue, NormalValue, WellFormedField, ErasableType;
  }

  /** A proto3 singular field occupies no bytes exactly while it holds its default. */
  lemma LeftOutExactly(f: Field, v: Value)
    requires WellFormedField(f) && f.htype.Optional? && f.sizeOffset == 0
    requires ErasableType(f) && NormalValue(f, v)
    ensures SlotBytes(f, Single(v)) == [] <==> v == DefaultValue(f)
  {
    ZeroExactly(f, v);
    TagBytesNonEmpty(f.tag, WireType(f.ltype), ItemBytes(f, v));
    hide ZeroValue, DefaultValue, NormalValue, WellFormedField, ErasableType, ItemBytes, TagBytes;
  }

  /** An array of fixed length is written even when it holds its default, all zeros. */
  lemma FixedLengthAlwaysWritten(f: Field, v: Value)
    requires f.htype.Optional? && f.sizeOffset == 0 && f.ltype.FixedLengthBytes? && f.dataSize > 0
    ensures SlotBytes(f, Single(v)) != []
  {
    TagBytesNonEmpty(f.tag, WireType(f.ltype), ItemBytes(f, v));
    hide ItemBytes, TagBytes;
  }

  /** A string is left out exactly when it has no characters before its terminator. */
  lemma EmptyStringLeftOut(f: Field, b: seq<byte>)
    requires f.htype.Optional? && f.sizeOffset == 0 && f.ltype.String? && f.dataSize > 0
    ensures SlotBytes(f, Single(VBytes(b))) == [] <==> CString(b, f.dataSize) == []
  {
    TagBytesNonEmpty(f.tag, WireType(f.ltype), ItemBytes(f, VBytes(b)));
    hide ItemBytes, TagBytes;
  }

  // ---------- One message ----------

  lemma {:induction false} NoBytesAt(d: seq<Field>, m: Msg)
    ensures MsgBytes(d, m) == [] <==> forall i :: 0 <= i < |d| ==> SlotBytes(d[i], SlotOf(m, d[i])) == []
  {
    hide SlotBytes, SlotOf;
    if d != [] {
      NoBytesAt(d[1..], m);
      assert forall i :: 0 < i < |d| ==> d[i] == d[1..][i - 1];
      assert forall i :: 0 <= i < |d[1..]| ==> d[1..][i] == d[i + 1];
    }
  }

  /** A union that holds a member writes that member. */
  lemma ActiveMember(d: seq<Field>, m: Msg, i: nat) returns (j: nat)
    requires i < |d| && Normal(d, m) && d[i].htype.Oneof? && !SlotOf(m, d[i]).OneNone?
    ensures j < |d| && SlotBytes(d[j], SlotOf(m, d[j])) != []
  {
    NormalField(d, m, i);
    hide NormalValue, Normal, FindTag;
    j := FindTag(d, SlotOf(m, d[i]).which).value;
    WrittenWhenEmitted(d[j], SlotOf(m, d[j]));
  }

  /** The zero check of a slot and the bytes of the slot say the same. */
  lemma SilentSlot(d: seq<Field>, m: Msg, i: nat)
    requires i < |d| && ErasableField(d[i]) && Normal(d, m)
    requires forall j :: 0 <= j < |d| ==> SlotBytes(d[j], SlotOf(m, d[j])) == []
    ensures ZeroSlot(d[i], SlotOf(m, d[i]))
  {
    var f, s := d[i], SlotOf(m, d[i]);
    NormalField(d, m, i);
    hide ZeroValue, DefaultValue, NormalValue, ErasableType, ItemBytes, NormalItems, Normal, FindTag;
    hide NormalUnion, SlotBytes;
    if f.htype.Repeated? {
      SilentArray(f, s);
    } else if f.htype.Oneof? {
      if !s.OneNone? {
        var j := ActiveMember(d, m, i);
      }
    } else {
      WrittenWhenEmitted(f, s);
    }
  }

  lemma WrittenWhenEmitted(f: Field, s: Slot)
    requires !f.htype.Repeated?
    ensures Emits(f, s) <==> SlotBytes(f, s) != []
  {
    if Emits(f, s) {
      TagBytesNonEmpty(f.tag, WireType(f.ltype), ItemBytes(f, s.v));
    }
    hide ItemBytes, TagBytes, ZeroValue;
  }

  lemma SilentArray(f: Field, s: Slot)
    requires f.htype.Repeated? && s.Arr?
    ensures SlotBytes(f, s) == [] <==> s.items == []
  {
    if s.items != [] {
      hide TagBytes, LengthPrefixed, PackedBytes, ItemBytes, UnpackedBytes;
      if Packable(f.ltype) {
        TagBytesNonEmpty(f.tag, WT_STRING, LengthPrefixed(PackedBytes(f.ltype, s.items)));
      } else {
        UnpackedNonEmpty(f, s.items);
      }
    }
  }

  lemma UnpackedNonEmpty(f: Field, items: seq<Value>)
    requires items != []
    ensures UnpackedBytes(f, items) != []
  {
    TagBytesNonEmpty(f.tag, WireType(f.ltype), ItemBytes(f, items[0]));
    hide ItemBytes, TagBytes;
  }

  /** A normal message of such a type has an empty wire image exactly while every field holds its default. */
  lemma EmptyExactly(d: seq<Field>, m: Msg)
    requires WellFormed(d) && Erasable(d) && Normal(d, m)
    ensures MsgBytes(d, m) == [] <==> m == Defaults(d)
  {
    NoBytesAt(d, m);
    if MsgBytes(d, m) == [] {
      forall i | 0 <= i < |d| ensures ZeroSlot(d[i], SlotOf(m, d[i])) {
        SilentSlot(d, m, i);
      }
      ZeroMsgAt(d, m);
      ZeroIsDefaults(d, m);
    }
    DefaultsTakeNoBytes(d);
  }

  /** The defaults of such a type take no bytes. */
  lemma DefaultsTakeNoBytes(d: seq<Field>)
    requires WellFormed(d) && Erasable(d)
    ensures MsgBytes(d, Defaults(d)) == []
  {
    DefaultsAreZero(d);
    ZeroMsgAt(d, Defaults(d));
    NoBytesAt(d, Defaults(d));
    forall i | 0 <= i < |d| ensures SlotBytes(d[i], SlotOf(Defaults(d), d[i])) == [] {
      assert ZeroSlot(d[i], SlotOf(Defaults(d), d[i]));
      ZeroIsSilent(d[i], SlotOf(Defaults(d), d[i]));
    }
  }

  lemma ZeroIsSilent(f: Field, s: Slot)
    requires ZeroSlot(f, s)
    ensures SlotBytes(f, s) == []
  {
    hide ZeroValue, ItemBytes, TagBytes;
  }

  // ---------- The empty message ----------

  /** What a field holds that does not occur: its declared default, or zero, at every depth. */
  predicate Unset(f: Field, s: Slot)
    decreases f, 1
  {
    match f.htype
    case Required => s.Single? && UnsetValue(f, s.v)
    case Optional => (if f.sizeOffset != 0 then s.Opt? && !s.has else s.Single?) && UnsetValue(f, s.v)
    case Repeated => s.Arr? && (if f.sizeOffset != 0 then s.items == [] else |s.items| == f.arraySize)
    case Oneof(_) => s == OneNone
  }

  predicate UnsetValue(f: Field, v: Value)
    decreases f, 0
  {
    if f.ltype.Submessage? then f.ptr.Sub? ==> v.VMsg? && AllUnset(f.ptr.fields, v.m)
    else if f.ptr.Init? then v == f.ptr.value
    else if Packable(f.ltype) then v == VInt(0)
    else v.VBytes? && (if f.ltype.FixedLengthBytes? then |v.b| == f.dataSize else v.b == [])
         && forall k :: 0 <= k < |v.b| ==> v.b[k] == 0
  }

  predicate AllUnset(d: seq<Field>, m: Msg)
    decreases d, 0
  {
    m.Keys == Keys(d) && forall i :: 0 <= i < |d| ==> Unset(d[i], SlotOf(m, d[i]))
  }

  /** No bytes are a message exactly when nothing is required, and then every field is unset. */
  lemma EmptyMessage(d: seq<Field>)
    requires WellFormed(d)
    ensures Decode(d, []).Ok? <==> forall i :: 0 <= i < |d| ==> !d[i].htype.Required?
    ensures Decode(d, []).Ok? ==> AllUnset(d, Decode(d, []).value)
  {
    assert Run(d, Start(Defaults(d)), []) == Done(Start(Defaults(d)), [], false);
    NothingSeen(d);
    DefaultsUnset(d);
    hide Run, AllUnset, RequiredSeen;
  }

  lemma {:induction false} DefaultsUnset(d: seq<Field>)
    requires WellFormed(d)
    ensures AllUnset(d, Defaults(d))
    decreases d, 0
  {
    DefaultsAt(d);
    forall i | 0 <= i < |d| ensures Unset(d[i], SlotOf(Defaults(d), d[i])) {
      assert WellFormedField(d[i]);
      DefaultUnset(d[i]);
    }
    hide Unset;
  }

  lemma {:induction false} DefaultUnset(f: Field)
    requires WellFormedField(f)
    ensures Unset(f, DefaultSlot(f))
    decreases f, 0
  {
    if f.ltype.Submessage? && f.ptr.Sub? {
      DefaultsUnset(f.ptr.fields);
    }
    hide Defaults, WellFormed, AllUnset;
  }
}
