/**
 Sending on what was received: a message decoded from arbitrary bytes is encodable, and its
 encoding decodes to the same message, under conditions that can be read off the message.
 */
module Reencoding {
  import opened Bits
  import opened Varint
  import opened Descriptor
  import opened Scalars
  import opened Encoding
  import opened Decoding
  import opened Projection
  import opened DecodeSafety
  import opened RoundTrip

  // ---------- What the descriptor contributes ----------

  /** Defaults have the type of their field, and proto3 singular fields have none but zero. */
  predicate PlainField(f: Field)
    decreases f, 0
  {
    && (f.htype.Required? || f.htype.Optional? ==> SoundValue(f, DefaultValue(f)))
    && (f.htype.Optional? && f.sizeOffset == 0 ==> !f.ptr.Init?)
    && (f.ltype.Submessage? && f.ptr.Sub? ==> Plain(f.ptr.fields))
  }

  predicate Plain(d: seq<Field>)
    decreases d, 1
  {
    forall i :: 0 <= i < |d| ==> PlainField(d[i])
  }

  // ---------- What the message has to fulfil ----------

  /** No string holds a NUL, every array item was received, and no submessage takes 2^32 bytes or more. */
  predicate KeptValue(f: Field, v: Value)
    decreases f, 0
  {
    match v
    case VInt(_) => true
    case VBytes(b) => f.ltype.String? ==> forall k :: 0 <= k < |b| ==> b[k] != 0
    case VMsg(m) => f.ptr.Sub? ==> Kept(f.ptr.fields, m) && |MsgBytes(f.ptr.fields, m)| < U32
    case Undefined => false
  }

  /** A value that its has_ flag declares absent is not looked at. */
  predicate KeptOwn(f: Field, s: Slot)
    decreases f, 1
  {
    match s
    case Single(v) => KeptValue(f, v)
    case Opt(has, v) => has ==> KeptValue(f, v)
    case Arr(items) =>
      && (forall k :: 0 <= k < |items| ==> KeptValue(f, items[k]))
      && (Packable(f.ltype) ==> |PackedBytes(f.ltype, items)| < U32)
    case OneNone => true
    case One(_, _) => true
  }

  predicate KeptAt(d: seq<Field>, m: Msg, i: nat)
    requires i < |d|
    decreases d, 0
  {
    var s := SlotOf(m, d[i]);
    if s.One? then s.which == d[i].tag ==> KeptValue(d[i], s.v) else KeptOwn(d[i], s)
  }

  predicate Kept(d: seq<Field>, m: Msg)
    decreases d, 1
  {
    forall i :: 0 <= i < |d| ==> KeptAt(d, m, i)
  }

  // ---------- Together they make a sound message normal ----------

  lemma {:induction false} NormalValueWhenKept(f: Field, v: Value)
    requires WellFormedField(f) && PlainField(f) && SoundValue(f, v)
    ensures NormalValue(f, v) <==> KeptValue(f, v)
    decreases f, 0
  {
    if f.ltype.Submessage? {
      hide WellFormed, Plain, Sound, Normal, Kept, MsgBytes;
      NormalWhenKept(f.ptr.fields, v.m);
    } else {
      hide InRange;
    }
  }

  lemma SettledIsSound(f: Field, v: Value)
    requires PlainField(f) && Settled(f, v) && (f.htype.Required? || f.htype.Optional?)
    ensures SoundValue(f, v)
  {
    hide SoundValue, Plain, DefaultValue;
  }

  lemma {:induction false} NormalOwnWhenKept(f: Field, s: Slot)
    requires WellFormedField(f) && PlainField(f) && SoundOwn(f, s) && !f.htype.Oneof?
    ensures NormalOwn(f, s) <==> KeptOwn(f, s)
    decreases f, 2
  {
    if f.htype.Repeated? {
      NormalArrayWhenKept(f, s.items);
      hide SoundValue, WellFormedField, PlainField, KeptValue, NormalValue;
      hide NormalItems, AllOrNothing, PackedBytes, Packable;
    } else if s.Opt? {
      if s.has { NormalValueWhenKept(f, s.v); }
      hide SoundValue, WellFormedField, PlainField, KeptValue, NormalValue, DefaultValue;
    } else {
      SettledIsSound(f, s.v);
      NormalValueWhenKept(f, s.v);
      hide SoundValue, WellFormedField, Settled, KeptValue, NormalValue, DefaultValue;
    }
  }

  lemma {:induction false} NormalArrayWhenKept(f: Field, items: seq<Value>)
    requires WellFormedField(f) && PlainField(f)
    requires AllOrNothing(f, items)
    ensures NormalItems(f, items) <==> forall k :: 0 <= k < |items| ==> KeptValue(f, items[k])
    decreases f, 1
  {
    forall k | 0 <= k < |items| ensures NormalValue(f, items[k]) <==> KeptValue(f, items[k]) {
      if items[k] == Undefined {
        UndefinedNeither(f);
      } else {
        assert SoundValue(f, items[k]);
        NormalValueWhenKept(f, items[k]);
      }
    }
    hide SoundValue, WellFormedField, PlainField, KeptValue, NormalValue, AllOrNothing;
  }

  lemma UndefinedNeither(f: Field)
    ensures !NormalValue(f, Undefined) && !KeptValue(f, Undefined)
  {
    hide InRange;
  }

  lemma {:induction false} NormalWhenKept(d: seq<Field>, m: Msg)
    requires WellFormed(d) && Plain(d) && Sound(d, m)
    ensures Normal(d, m) <==> Kept(d, m)
    decreases d, 1
  {
    forall i | 0 <= i < |d| && !d[i].htype.Oneof? ensures NormalAt(d, m, i) <==> KeptAt(d, m, i) {
      NormalOwnAt(d, m, i);
    }
    forall i | 0 <= i < |d| && d[i].htype.Oneof? ensures (NormalAt(d, m, i) ==> KeptAt(d, m, i)) {
      NormalUnionAt(d, m, i);
    }
    if Kept(d, m) {
      forall i | 0 <= i < |d| && d[i].htype.Oneof? ensures NormalAt(d, m, i) { NormalUnionAt(d, m, i); }
    }
    hide NormalAt, KeptAt, WellFormed, Plain, SoundAt;
  }

  lemma {:induction false} NormalOwnAt(d: seq<Field>, m: Msg, i: nat)
    requires WellFormed(d) && Plain(d) && Sound(d, m) && i < |d| && !d[i].htype.Oneof?
    ensures NormalAt(d, m, i) <==> KeptAt(d, m, i)
    decreases d, 0
  {
    assert SoundAt(d, m, i) && WellFormedField(d[i]) && PlainField(d[i]);
    hide WellFormed, Plain, Sound, WellFormedField, PlainField, SoundOwn, KeptOwn, NormalOwn;
    OwnSlot(d[i], m[KeyOf(d[i])]);
    NormalOwnWhenKept(d[i], m[KeyOf(d[i])]);
  }

  lemma OwnSlot(f: Field, s: Slot)
    requires SoundOwn(f, s) && !f.htype.Oneof?
    ensures !s.One?
  {
    hide Settled, SoundValue, AllOrNothing, DefaultValue;
  }

  /** The union of field i: whichever member it holds. */
  lemma {:induction false} NormalUnionAt(d: seq<Field>, m: Msg, i: nat)
    requires WellFormed(d) && Plain(d) && Sound(d, m) && i < |d| && d[i].htype.Oneof?
    ensures NormalAt(d, m, i) ==> KeptAt(d, m, i)
    ensures Kept(d, m) ==> NormalAt(d, m, i)
    decreases d, 0
  {
    var s := m[KeyOf(d[i])];
    assert SoundAt(d, m, i) && SoundUnion(d, KeyOf(d[i]), s);
    if s.One? {
      var w := FindTag(d, s.which).value;
      assert WellFormedField(d[w]) && PlainField(d[w]) && SoundValue(d[w], s.v);
      FindTagAt(d, i);
      FindTagAt(d, w);
      assert Kept(d, m) ==> KeptAt(d, m, w);
      assert NormalAt(d, m, i) <==> NormalUnion(d, KeyOf(d[i]), s);
      hide WellFormed, Plain, Sound, WellFormedField, PlainField, FindTag, SoundValue, KeptValue, NormalValue, Kept;
      NormalValueWhenKept(d[w], s.v);
    } else {
      hide FindTag, KeptValue, NormalValue, SoundValue, Kept;
      assert s.OneNone?;
    }
  }

  // ---------- The theorem ----------

  /**
   Whatever the bytes were: a decoded message is normal exactly when it holds no NUL in a
   string, no unreceived fixed-count array and no length of 2^32 or more, and it is then
   encoded without error and read back equal.
   */
  lemma DecodedMessageReencodes(d: seq<Field>, bs: seq<byte>)
    requires WellFormed(d) && Plain(d) && Decode(d, bs).Ok?
    ensures var m := Decode(d, bs).value;
            && (Normal(d, m) <==> Kept(d, m))
            && (Kept(d, m) ==> MsgEncodable(d, m) && Decode(d, MsgBytes(d, m)) == Ok(m, []))
  {
    hide Decode, WellFormed, Plain, Sound, Normal, Kept, MsgEncodable, MsgBytes;
    var m := Decode(d, bs).value;
    DecodedMessageSound(d, bs);
    NormalWhenKept(d, m);
    if Kept(d, m) { MessageRoundTrip(d, m); }
  }
}
