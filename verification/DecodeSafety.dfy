/**
 What a successful decode guarantees, whatever the bytes: every value lies in the range of
 its field, every count is within its array, unions hold one of their members, and a
 fixed-count array is received whole or not at all - at every nesting depth.
 */
module DecodeSafety {
  import opened Varint
  import opened Wrappers
  import opened Descriptor
  import opened Scalars
  import opened Encoding
  import opened Decoding
  import opened DefaultsProjected
  import opened Merging

  // ---------- The guarantee ----------

  predicate SoundValue(f: Field, v: Value)
    decreases f, 0
  {
    match f.ltype
    case Bytes => v.VBytes? && |v.b| + BYTES_OFFSET <= f.dataSize
    case String => v.VBytes? && |v.b| < f.dataSize
    case FixedLengthBytes => v.VBytes? && |v.b| == f.dataSize
    case Submessage => f.ptr.Sub? && v.VMsg? && Sound(f.ptr.fields, v.m)
    case _ => v.VInt? && InRange(f.ltype, f.dataSize, v.n)
  }

  /** A single value was read, or is still the default of the descriptor. */
  predicate Settled(f: Field, v: Value)
    decreases f, 1
  {
    SoundValue(f, v) || (v == DefaultValue(f) && !(f.ltype.Submessage? && f.ptr.Sub?))
  }

  /** Received whole or not at all. */
  predicate AllOrNothing(f: Field, items: seq<Value>)
    decreases f, 1
  {
    || (forall k :: 0 <= k < |items| ==> SoundValue(f, items[k]))
    || (forall k :: 0 <= k < |items| ==> items[k] == Undefined)
  }

  /** An optional value is there when its has_ flag says so, and is the default otherwise. */
  predicate SoundOwn(f: Field, s: Slot)
    decreases f, 2
  {
    match f.htype
    case Required => s.Single? && Settled(f, s.v)
    case Optional =>
      if f.sizeOffset != 0 then s.Opt? && (if s.has then SoundValue(f, s.v) else s.v == DefaultValue(f))
      else s.Single? && Settled(f, s.v)
    case Repeated =>
      s.Arr? &&
      if f.sizeOffset == 0 then |s.items| == f.arraySize && AllOrNothing(f, s.items)
      else |s.items| <= f.arraySize && (forall k :: 0 <= k < |s.items| ==> SoundValue(f, s.items[k]))
    case Oneof(_) => true
  }

  predicate SoundUnion(d: seq<Field>, k: Key, s: Slot)
    decreases d, 0
  {
    || s.OneNone?
    || (&& s.One? && FindTag(d, s.which).Some?
        && KeyOf(d[FindTag(d, s.which).value]) == k
        && SoundValue(d[FindTag(d, s.which).value], s.v))
  }

  predicate SoundAt(d: seq<Field>, m: Msg, i: nat)
    requires i < |d|
    decreases d, 1
  {
    && KeyOf(d[i]) in m
    && if d[i].htype.Oneof? then SoundUnion(d, KeyOf(d[i]), m[KeyOf(d[i])])
       else SoundOwn(d[i], m[KeyOf(d[i])])
  }

  predicate Sound(d: seq<Field>, m: Msg)
    decreases d, 2
  {
    m.Keys == Keys(d) && forall i :: 0 <= i < |d| ==> SoundAt(d, m, i)
  }

  // ---------- The invariant of the record loop ----------

  /** A fixed-count array of which c items have been received in this run. */
  predicate InProgress(f: Field, items: seq<Value>, c: nat) {
    && |items| == f.arraySize && c <= f.arraySize
    && (forall k :: 0 <= k < c ==> SoundValue(f, items[k]))
    && (forall k :: 0 <= k < |items| ==> SoundValue(f, items[k]) || items[k] == Undefined)
  }

  predicate SlotSound(d: seq<Field>, st: State, i: nat)
    requires i < |d|
  {
    if st.fixed == Some(i)
    then KeyOf(d[i]) in st.m && st.m[KeyOf(d[i])].Arr? && InProgress(d[i], st.m[KeyOf(d[i])].items, st.count)
    else SoundAt(d, st.m, i)
  }

  predicate SoundState(d: seq<Field>, st: State) {
    && st.m.Keys == Keys(d)
    && (st.fixed.Some? ==> st.fixed.value < |d| && FixedCount(d[st.fixed.value]))
    && forall i :: 0 <= i < |d| ==> SlotSound(d, st, i)
  }

  lemma {:induction false} DefaultsSound(d: seq<Field>)
    requires WellFormed(d)
    ensures Sound(d, Defaults(d))
    decreases d, 1
  {
    DefaultsAt(d);
    forall i | 0 <= i < |d| ensures SoundAt(d, Defaults(d), i) {
      assert WellFormedField(d[i]);
      DefaultSlotSound(d, i);
    }
    hide SoundAt, Defaults, WellFormed;
  }

  lemma {:induction false} DefaultSlotSound(d: seq<Field>, i: nat)
    requires i < |d| && WellFormedField(d[i])
    requires KeyOf(d[i]) in Defaults(d) && Defaults(d)[KeyOf(d[i])] == DefaultSlot(d[i])
    ensures SoundAt(d, Defaults(d), i)
    decreases d, 0
  {
    var f := d[i];
    assert DefaultSlot(f).Single? || DefaultSlot(f).Opt? ==> DefaultSlot(f).v == DefaultValue(f);
    DefaultSettled(f);
    hide Settled, Defaults, DefaultValue, SoundUnion, SoundValue, FindTag, WellFormedField;
    var s := DefaultSlot(f);
    if f.htype.Oneof? {
      assert SoundUnion(d, KeyOf(f), OneNone) by { UnsetSound(d, KeyOf(f)); }
    } else {
      assert SoundOwn(f, s);
    }
  }

  lemma UnsetSound(d: seq<Field>, k: Key)
    ensures SoundUnion(d, k, OneNone)
  {
  }

  lemma {:induction false} DefaultSettled(f: Field)
    requires WellFormedField(f)
    ensures Settled(f, DefaultValue(f))
    decreases f, 0
  {
    if f.ltype.Submessage? && f.ptr.Sub? { DefaultsSound(f.ptr.fields); }
    hide Sound, Defaults, InRange;
  }

  // ---------- Reading keeps it ----------

  lemma PlainItemSound(f: Field, prior: Value, bs: seq<byte>)
    requires !f.ltype.Submessage? && ReadItem(f, prior, bs).Ok?
    ensures SoundValue(f, ReadItem(f, prior, bs).value)
  {
    hide ReadVarint32, ReadBytes, InRange, ReadScalar;
    if Packable(f.ltype) {
      ReadScalarStores(f.ltype, f.dataSize, bs);
    } else {
      hide ReadScalar;
      assert ReadScalar(Extension, f.dataSize, bs).Fail? by { NoExtensions(f.dataSize, bs); }
    }
  }

  lemma NoExtensions(size: nat, bs: seq<byte>)
    ensures ReadScalar(Extension, size, bs).Fail?
  {
  }

  /** One value, of any type. */
  lemma {:induction false} ItemSound(f: Field, prior: Value, bs: seq<byte>)
    requires WellFormedField(f) && ReadItem(f, prior, bs).Ok?
    requires f.ltype.Submessage? && f.ptr.Sub? && prior.VMsg? && !f.htype.Repeated? ==> Sound(f.ptr.fields, prior.m)
    ensures SoundValue(f, ReadItem(f, prior, bs).value)
    decreases |bs|, 0
  {
    if f.ltype.Submessage? {
      var payload := Substream(bs).value;
      assert ReadItem(f, prior, bs) == ReadPayload(f, prior, payload, Substream(bs).rest);
      var d := f.ptr.fields;
      DefaultsSound(d);
      var into := if f.htype.Repeated? then VMsg(Defaults(d)) else prior;
      hide Substream, WellFormed, Sound, DecodeNoinit, Defaults;
      DecodeSound(d, into.m, payload);
    } else {
      PlainItemSound(f, prior, bs);
    }
  }

  lemma {:induction false} PackedSound(f: Field, a: ArrayState, payload: seq<byte>)
    requires Packable(f.ltype) && ReadPacked(f, a, payload).Some?
    requires a.count <= |a.items| && a.count <= f.arraySize
    ensures ArrayKept(f, a, ReadPacked(f, a, payload).value)
    decreases |payload|
  {
    hide ReadScalar, InRange;
    if payload != [] {
      ReadScalarStores(f.ltype, f.dataSize, payload);
      var p := ReadScalar(f.ltype, f.dataSize, payload);
      var a' := ArrayState(PutItem(a.items, a.count, VInt(p.value)), a.count + 1);
      PackedSound(f, a', p.rest);
    }
  }

  /** From a to b: items before the counter stay, items up to the new counter are sound, later ones stay. */
  predicate ArrayKept(f: Field, a: ArrayState, b: ArrayState) {
    && a.count <= b.count <= f.arraySize
    && |b.items| == (if b.count > |a.items| then b.count else |a.items|)
    && (forall k :: a.count <= k < b.count ==> SoundValue(f, b.items[k]))
    && (forall k :: 0 <= k < |a.items| && (k < a.count || b.count <= k) ==> b.items[k] == a.items[k])
  }

  lemma {:induction false} ArraySound(f: Field, a: ArrayState, wireType: nat, bs: seq<byte>)
    requires WellFormedField(f) && f.htype.Repeated? && ReadArray(f, a, wireType, bs).Ok?
    requires a.count <= |a.items| && a.count <= f.arraySize
    ensures ArrayKept(f, a, ReadArray(f, a, wireType, bs).value)
    decreases |bs|, 1
  {
    hide ReadItem, WellFormedField, Substream, ReadPacked, SoundValue;
    if wireType == WT_STRING && Packable(f.ltype) {
      PackedSound(f, a, Substream(bs).value);
    } else {
      ItemSound(f, Undefined, bs);
    }
  }

  /** The memory a single field is merged into is sound when the struct is. */
  lemma PriorSound(d: seq<Field>, st: State, i: nat)
    requires WellFormed(d) && SoundState(d, st) && i < |d| && !d[i].htype.Repeated?
    ensures var v := OldValue(d[i], SlotOf(st.m, d[i]));
            d[i].ltype.Submessage? && d[i].ptr.Sub? && v.VMsg? ==> Sound(d[i].ptr.fields, v.m)
  {
    var f, s := d[i], SlotOf(st.m, d[i]);
    assert SlotSound(d, st, i) && SoundAt(d, st.m, i);
    FindTagAt(d, i);
    assert WellFormedField(f);
    if f.ltype.Submessage? && f.ptr.Sub? {
      DefaultsSound(f.ptr.fields);
      hide FindTag, WellFormed, Sound, Defaults;
      if f.htype.Oneof? {
        assert SoundUnion(d, KeyOf(f), s);
        if s.One? && s.which == f.tag { assert SoundValue(f, s.v); }
      } else {
        assert SoundOwn(f, s);
        assert Settled(f, s.v);
        assert SoundValue(f, s.v);
      }
    }
  }

  /** Replacing the slot of field i by a sound one keeps the whole struct sound. */
  lemma UpdateSound(d: seq<Field>, st: State, i: nat, s: Slot, count: nat)
    requires WellFormed(d) && SoundState(d, st) && i < |d|
    requires FixedCount(d[i]) || count == st.count
    requires st.fixed == Some(i) || !FixedCount(d[i])
    requires if FixedCount(d[i]) then s.Arr? && InProgress(d[i], s.items, count)
             else if d[i].htype.Oneof? then SoundUnion(d, KeyOf(d[i]), s)
             else SoundOwn(d[i], s)
    ensures SoundState(d, st.(m := st.m[KeyOf(d[i]) := s], count := count))
  {
    var k := KeyOf(d[i]);
    var st' := st.(m := st.m[k := s], count := count);
    KeyFromField(d, i);
    forall j | 0 <= j < |d| ensures SlotSound(d, st', j) {
      assert SlotSound(d, st, j);
      if j != i { KeysDistinct(d, i, j); }
      hide WellFormed, SoundUnion, SoundOwn, InProgress, Keys;
    }
    hide SlotSound, WellFormed;
    assert st'.m.Keys == Keys(d);
  }

  lemma FixedAt(d: seq<Field>, m: Msg, i: nat)
    requires i < |d| && FixedCount(d[i])
    ensures SoundAt(d, m, i) <==>
              KeyOf(d[i]) in m && m[KeyOf(d[i])].Arr? && |m[KeyOf(d[i])].items| == d[i].arraySize
              && AllOrNothing(d[i], m[KeyOf(d[i])].items)
  {
    hide AllOrNothing;
    if KeyOf(d[i]) in m {
      assert SoundAt(d, m, i) == SoundOwn(d[i], m[KeyOf(d[i])]);
    }
  }

  /** A complete array is received whole; one that was received whole or not at all can be started again. */
  lemma ProgressEnds(f: Field, items: seq<Value>)
    ensures InProgress(f, items, f.arraySize) ==> |items| == f.arraySize && AllOrNothing(f, items)
    ensures |items| == f.arraySize && AllOrNothing(f, items) ==> InProgress(f, items, 0)
  {
    hide SoundValue;
  }

  lemma EnterSound(d: seq<Field>, st: State, i: nat)
    requires WellFormed(d) && SoundState(d, st) && i < |d| && MayEnter(d, st, i)
    ensures SoundState(d, Enter(d, st, i))
    ensures FixedCount(d[i]) ==> Enter(d, st, i).fixed == Some(i)
  {
    var st' := Enter(d, st, i);
    forall j | 0 <= j < |d| ensures SlotSound(d, st', j) {
      assert SlotSound(d, st, j);
      if FixedCount(d[j]) {
        FixedAt(d, st.m, j);
        if KeyOf(d[j]) in st.m && st.m[KeyOf(d[j])].Arr? { ProgressEnds(d[j], st.m[KeyOf(d[j])].items); }
      }
      hide WellFormed, SoundAt, AllOrNothing, InProgress, SoundValue, Keys;
    }
    hide SlotSound, WellFormed;
  }

  lemma {:induction false} FieldSound(d: seq<Field>, i: nat, st: State, wireType: nat, bs: seq<byte>)
    requires WellFormed(d) && SoundState(d, st) && i < |d| && (FixedCount(d[i]) ==> st.fixed == Some(i))
    requires ReadField(d, i, st, wireType, bs).Done?
    ensures SoundState(d, ReadField(d, i, st, wireType, bs).st)
    decreases |bs|, 2
  {
    var f, s := d[i], SlotOf(st.m, d[i]);
    assert SlotSound(d, st, i);
    assert WellFormedField(f);
    KeyFromField(d, i);
    if f.htype.Repeated? {
      var a := ArrayState(s.items, if FixedCount(f) then st.count else |s.items|);
      assert !FixedCount(f) ==> SoundAt(d, st.m, i) && SoundOwn(f, s);
      hide WellFormed, WellFormedField, ReadArray, SoundState, SoundValue, Keys;
      ArraySound(f, a, wireType, bs);
      var b := ReadArray(f, a, wireType, bs).value;
      ArrayStaysSound(f, a, b);
      UpdateSound(d, st, i, Arr(b.items), if FixedCount(f) then b.count else st.count);
    } else {
      PriorSound(d, st, i);
      var v := ReadItem(f, OldValue(f, s), bs).value;
      FindTagAt(d, i);
      hide WellFormed, WellFormedField, ReadItem, SoundState, SoundValue, Keys, FindTag, OldValue;
      ItemSound(f, OldValue(f, s), bs);
      NewSlotSound(d, i, v);
      UpdateSound(d, st, i, NewSlot(f, v), st.count);
    }
  }

  lemma ArrayStaysSound(f: Field, a: ArrayState, b: ArrayState)
    requires f.htype.Repeated? && ArrayKept(f, a, b)
    requires if FixedCount(f) then InProgress(f, a.items, a.count)
             else SoundOwn(f, Arr(a.items)) && a.count == |a.items|
    ensures if FixedCount(f) then InProgress(f, b.items, b.count) else SoundOwn(f, Arr(b.items))
  {
    hide SoundValue;
  }

  lemma NewSlotSound(d: seq<Field>, i: nat, v: Value)
    requires i < |d| && !d[i].htype.Repeated? && SoundValue(d[i], v) && FindTag(d, d[i].tag) == Some(i)
    ensures if d[i].htype.Oneof? then SoundUnion(d, KeyOf(d[i]), NewSlot(d[i], v)) else SoundOwn(d[i], NewSlot(d[i], v))
  {
    hide FindTag, DefaultValue;
  }

  lemma {:induction false} StepSound(d: seq<Field>, st: State, bs: seq<byte>)
    requires WellFormed(d) && SoundState(d, st) && Step(d, st, bs).Done?
    ensures SoundState(d, Step(d, st, bs).st)
    decreases |bs|, 3
  {
    hide ReadTag, SkipField, FindTag, ReadField, SoundState, WellFormed, MayEnter, Enter;
    var t := ReadTag(bs);
    if t.Tag? && !(d == [] && t.tag == 0) && FindTag(d, t.tag).Some? {
      var i := FindTag(d, t.tag).value;
      EnterSound(d, st, i);
      FieldSound(d, i, Enter(d, st, i), t.wireType, t.rest);
    }
  }

  lemma {:induction false} RunSound(d: seq<Field>, st: State, bs: seq<byte>)
    requires WellFormed(d) && SoundState(d, st) && Run(d, st, bs).Done?
    ensures SoundState(d, Run(d, st, bs).st)
    decreases |bs|, 4
  {
    hide Step, SoundState, WellFormed;
    if bs != [] {
      StepSound(d, st, bs);
      if !Step(d, st, bs).stopped { RunSound(d, Step(d, st, bs).st, Step(d, st, bs).rest); }
    }
  }

  /** Decoding any bytes onto a sound struct, if it succeeds, leaves a sound struct. */
  lemma {:induction false} DecodeSound(d: seq<Field>, m: Msg, bs: seq<byte>)
    requires WellFormed(d) && Sound(d, m) && DecodeNoinit(d, m, bs).Ok?
    ensures Sound(d, DecodeNoinit(d, m, bs).value)
    decreases |bs|, 5
  {
    var st0 := Start(m);
    assert SoundState(d, st0) by { hide SoundAt; }
    RunSound(d, st0, bs);
    hide Run, RequiredSeen, WellFormed;
    CompleteSound(d, Run(d, st0, bs).st);
  }

  lemma CompleteSound(d: seq<Field>, st: State)
    requires SoundState(d, st) && FixedComplete(d, st)
    ensures Sound(d, st.m)
  {
    forall i | 0 <= i < |d| ensures SoundAt(d, st.m, i) {
      assert SlotSound(d, st, i);
      if st.fixed == Some(i) {
        FixedAt(d, st.m, i);
        ProgressEnds(d[i], st.m[KeyOf(d[i])].items);
      }
      hide SoundAt, AllOrNothing, InProgress, SoundValue, Keys;
    }
    hide SlotSound, SoundAt;
  }

  /** pb_decode on arbitrary bytes. */
  lemma DecodedMessageSound(d: seq<Field>, bs: seq<byte>)
    requires WellFormed(d) && Decode(d, bs).Ok?
    ensures Sound(d, Decode(d, bs).value)
  {
    hide DecodeNoinit, Defaults, WellFormed, Sound;
    DefaultsSound(d);
    DecodeSound(d, Defaults(d), bs);
  }

  // ---------- Fixed-count fields that occurred ----------

  /** A record of field i occurs among those that the loop reads from bs. */
  predicate Occurs(d: seq<Field>, st: State, bs: seq<byte>, i: nat)
    decreases |bs|
  {
    bs != [] &&
    (HeadField(d, bs) == Some(i)
     || match Step(d, st, bs)
        case Failed => false
        case Done(st', rest, stopped) => !stopped && Occurs(d, st', rest, i))
  }

  /** Every item of the array was received. */
  predicate Whole(d: seq<Field>, m: Msg, i: nat)
    requires i < |d|
  {
    && KeyOf(d[i]) in m && m[KeyOf(d[i])].Arr? && |m[KeyOf(d[i])].items| == d[i].arraySize
    && forall k :: 0 <= k < d[i].arraySize ==> SoundValue(d[i], m[KeyOf(d[i])].items[k])
  }

  predicate Going(d: seq<Field>, st: State, i: nat)
    requires i < |d|
  {
    st.fixed == Some(i) || Whole(d, st.m, i)
  }

  lemma CompletedIsWhole(d: seq<Field>, st: State, i: nat)
    requires i < |d| && SoundState(d, st) && FixedComplete(d, st) && Going(d, st, i)
    ensures Whole(d, st.m, i)
  {
    assert SlotSound(d, st, i);
    hide SoundAt, SoundValue, Keys;
  }

  lemma FieldKeepsOthers(d: seq<Field>, j: nat, st: State, wireType: nat, bs: seq<byte>, i: nat)
    requires WellFormed(d) && i < |d| && j < |d| && i != j && FixedCount(d[i]) && Whole(d, st.m, i)
    requires ReadField(d, j, st, wireType, bs).Done?
    ensures Whole(d, ReadField(d, j, st, wireType, bs).st.m, i)
  {
    KeysDistinct(d, i, j);
    hide ReadArray, ReadItem, OldValue, NewSlot, SoundValue, WellFormed;
  }

  lemma StepGoing(d: seq<Field>, st: State, bs: seq<byte>, i: nat)
    requires WellFormed(d) && SoundState(d, st) && i < |d| && FixedCount(d[i])
    requires Step(d, st, bs).Done? && (Going(d, st, i) || HeadField(d, bs) == Some(i))
    ensures Going(d, Step(d, st, bs).st, i)
  {
    var t := ReadTag(bs);
    if t.Tag? && FindTag(d, t.tag).Some? {
      var j := FindTag(d, t.tag).value;
      var st1 := Enter(d, st, j);
      if j != i && st.fixed == Some(i) && FixedCount(d[j]) {
        CompletedIsWhole(d, st, i);
      }
      hide ReadTag, FindTag, ReadItem, ReadArray, SkipField, SoundState, WellFormed, Whole;
      if j != i && Whole(d, st1.m, i) {
        FieldKeepsOthers(d, j, st1, t.wireType, t.rest, i);
      }
    } else {
      hide ReadTag, FindTag, ReadField, SkipField, SoundState, WellFormed, Whole;
    }
  }

  lemma {:induction false} RunWhole(d: seq<Field>, st: State, bs: seq<byte>, i: nat)
    requires WellFormed(d) && SoundState(d, st) && i < |d| && FixedCount(d[i])
    requires Run(d, st, bs).Done? && FixedComplete(d, Run(d, st, bs).st)
    requires Going(d, st, i) || Occurs(d, st, bs, i)
    ensures Whole(d, Run(d, st, bs).st.m, i)
    decreases |bs|
  {
    hide Step, SoundState, WellFormed, HeadField, Going, FixedComplete, Whole;
    if bs == [] {
      CompletedIsWhole(d, st, i);
    } else {
      var r := Step(d, st, bs);
      StepSound(d, st, bs);
      if Going(d, st, i) || HeadField(d, bs) == Some(i) { StepGoing(d, st, bs, i); }
      if r.stopped {
        CompletedIsWhole(d, r.st, i);
      } else {
        RunWhole(d, r.st, r.rest, i);
      }
    }
  }

  /** After a successful decode, every fixed-count field that occurred holds array_size received items. */
  lemma FixedArraysReceivedWhole(d: seq<Field>, bs: seq<byte>, i: nat)
    requires WellFormed(d) && i < |d| && FixedCount(d[i])
    requires Decode(d, bs).Ok? && Occurs(d, Start(Defaults(d)), bs, i)
    ensures Whole(d, Decode(d, bs).value, i)
  {
    var st0 := Start(Defaults(d));
    DefaultsSound(d);
    assert SoundState(d, st0) by { hide SoundAt; }
    hide Run, RequiredSeen, WellFormed, Sound, Defaults, Occurs, Whole, SoundState;
    RunWhole(d, st0, bs, i);
  }

  // ---------- Required fields that occurred ----------

  /** The step for one record adds exactly its own field, if that is required. */
  lemma StepSeen(d: seq<Field>, st: State, bs: seq<byte>, i: nat)
    requires i < |d| && d[i].htype.Required? && Step(d, st, bs).Done?
    ensures i in Step(d, st, bs).st.seen <==> i in st.seen || HeadField(d, bs) == Some(i)
  {
    hide ReadTag, SkipField, FindTag, ReadItem, ReadArray, OldValue, NewSlot;
  }

  /** The set that the loop collects is the set of required fields whose records occur in the bytes. */
  lemma {:induction false} SeenIsOccurs(d: seq<Field>, st: State, bs: seq<byte>, i: nat)
    requires i < |d| && d[i].htype.Required? && Run(d, st, bs).Done?
    ensures i in Run(d, st, bs).st.seen <==> i in st.seen || Occurs(d, st, bs, i)
    decreases |bs|
  {
    hide Step, HeadField;
    if bs != [] {
      StepSeen(d, st, bs, i);
      var r := Step(d, st, bs);
      if !r.stopped { SeenIsOccurs(d, r.st, r.rest, i); }
    }
  }

  /** Field i is one of those whose absence the decoder reports. */
  predicate Demanded(d: seq<Field>, i: nat)
    requires i < |d|
  {
    d[i].htype.Required? && RequiredBefore(d, i) < PB_MAX_REQUIRED_FIELDS
  }

  /**
   Once the record loop ends with its fixed-count check passed, decoding succeeds exactly
   when each of the first 64 required fields has a record in the bytes.
   */
  lemma MissingFieldReported(d: seq<Field>, m: Msg, bs: seq<byte>)
    requires Run(d, Start(m), bs).Done? && FixedComplete(d, Run(d, Start(m), bs).st)
    ensures DecodeNoinit(d, m, bs).Ok? <==> forall i :: 0 <= i < |d| && Demanded(d, i) ==> Occurs(d, Start(m), bs, i)
  {
    var st := Run(d, Start(m), bs).st;
    forall i | 0 <= i < |d| && Demanded(d, i) ensures i in st.seen <==> Occurs(d, Start(m), bs, i) {
      SeenIsOccurs(d, Start(m), bs, i);
    }
    hide Run, Occurs, RequiredBefore;
    if RequiredSeen(d, st.seen) {
      forall i | 0 <= i < |d| && Demanded(d, i) ensures Occurs(d, Start(m), bs, i) { assert i in st.seen; }
    }
    if forall i :: 0 <= i < |d| && Demanded(d, i) ==> Occurs(d, Start(m), bs, i) {
      forall i | 0 <= i < |d| && d[i].htype.Required? && RequiredBefore(d, i) < PB_MAX_REQUIRED_FIELDS
          ensures i in st.seen {
        assert Demanded(d, i);
      }
    }
  }
}
