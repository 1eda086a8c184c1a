/**
 Decoding what was encoded. Bytes written under descriptor d and read under any view d' of
 d give the projection of the message; with d' = d that is the round trip.
 */
module Compatibility {
  import opened Bits
  import opened Varint
  import opened Wrappers
  import opened Descriptor
  import opened Scalars
  import opened Encoding
  import opened Decoding
  import opened Records
  import opened Projection
  import opened DefaultsProjected
  import opened Progress

  /** The decoder's state after the records of the first n fields of d. */
  ghost predicate At(d': seq<Field>, d: seq<Field>, m: Msg, n: nat, st: State) {
    && st.m == StructAfter(d', d, m, n)
    && FixedComplete(d', st)
    && (st.fixed.Some? ==> st.fixed.value < |d'| && Reached(d, d'[st.fixed.value].tag, n))
    && (forall j :: 0 <= j < |d'| && d'[j].htype.Required? && Reached(d, d'[j].tag, n) ==> j in st.seen)
  }

  // ---------- Values ----------

  lemma BytesThrough(f: Field, b: seq<byte>, tail: seq<byte>)
    requires f.ltype.Bytes? && |b| + BYTES_OFFSET <= f.dataSize <= PB_SIZE_MAX
    ensures ReadByteArray(f, LengthPrefixed(b) + tail) == Ok(VBytes(b), tail)
  {
    hide LengthPrefixed, ReadVarint32;
    SubstreamOfLengthPrefixed(b, tail);
    SplitAppend(b, tail);
  }

  lemma StringThrough(f: Field, b: seq<byte>, tail: seq<byte>)
    requires f.ltype.String? && |b| < f.dataSize <= PB_SIZE_MAX
    ensures ReadString(f, LengthPrefixed(b) + tail) == Ok(VBytes(b), tail)
  {
    hide LengthPrefixed, ReadVarint32;
    SubstreamOfLengthPrefixed(b, tail);
    SplitAppend(b, tail);
  }

  lemma FixedBytesThrough(f: Field, b: seq<byte>, tail: seq<byte>)
    requires f.ltype.FixedLengthBytes? && |b| == f.dataSize <= PB_SIZE_MAX
    ensures ReadFixedBytes(f, LengthPrefixed(b) + tail) == Ok(VBytes(b), tail)
  {
    hide LengthPrefixed, ReadVarint32;
    SubstreamOfLengthPrefixed(b, tail);
    SplitAppend(b, tail);
    if b == [] { assert Zeros(0) == []; }
  }

  lemma CStringWhole(b: seq<byte>, max: nat)
    requires |b| <= max && forall k :: 0 <= k < |b| ==> b[k] != 0
    ensures CString(b, max) == b
  {
    CStringEnds(b, max, |b|);
    assert b[..|b|] == b;
  }

  /** One value: what the decoder stores is the projection of what was encoded. */
  lemma {:induction false} ItemThrough(f': Field, f: Field, v: Value, prior: Value, tail: seq<byte>)
    requires WellFormedField(f) && WellFormedField(f') && ViewOfField(f', f) && NormalValue(f, v)
    requires f.ltype.Submessage? && !f.htype.Repeated? ==> prior == VMsg(Defaults(f'.ptr.fields))
    ensures ReadItem(f', prior, ItemBytes(f, v) + tail) == Ok(ProjectValue(f', f, v), tail)
    decreases f, 0
  {
    if f.ltype.Bytes? {
      hide ReadByteArray, LengthPrefixed;
      BytesThrough(f', v.b, tail);
    } else if f.ltype.String? {
      hide ReadString, LengthPrefixed;
      CStringWhole(v.b, f.dataSize);
      StringThrough(f', v.b, tail);
    } else if f.ltype.FixedLengthBytes? {
      hide ReadFixedBytes, LengthPrefixed;
      FixedBytesThrough(f', v.b, tail);
    } else if f.ltype.Submessage? {
      SubmessageThrough(f', f, v, prior, tail);
    } else {
      hide ScalarBytes, ReadScalar, InRange;
      ScalarRoundTrip(f.ltype, f.dataSize, v.n, tail);
    }
  }

  lemma {:induction false} SubmessageThrough(f': Field, f: Field, v: Value, prior: Value, tail: seq<byte>)
    requires f.ltype.Submessage?
    requires WellFormedField(f) && WellFormedField(f') && ViewOfField(f', f) && NormalValue(f, v)
    requires !f.htype.Repeated? ==> prior == VMsg(Defaults(f'.ptr.fields))
    ensures ReadItem(f', prior, ItemBytes(f, v) + tail) == Ok(ProjectValue(f', f, v), tail)
    decreases f, 0, 0
  {
    var d', d := f'.ptr.fields, f.ptr.fields;
    var payload := MsgBytes(d, v.m);
    DecodeThrough(d', d, v.m);
    SubstreamOfLengthPrefixed(payload, tail);
    assert ItemBytes(f, v) == LengthPrefixed(payload);
    assert ProjectValue(f', f, v) == VMsg(Project(d', d, v.m));
    hide LengthPrefixed, Substream, DecodeNoinit, MsgBytes, Defaults;
    hide ItemBytes, Project, WellFormedField, ViewOfField, NormalValue;
    assert ReadItem(f', prior, LengthPrefixed(payload) + tail) == ReadPayload(f', prior, payload, tail);
  }

  // ---------- Messages ----------

  /** pb_decode of a whole message, as a submessage or at the top. */
  lemma {:induction false} DecodeThrough(d': seq<Field>, d: seq<Field>, m: Msg)
    requires Compatible(d', d, m)
    ensures DecodeNoinit(d', Defaults(d'), MsgBytes(d, m)) == Ok(Project(d', d, m), [])
    decreases d, |d| + 1, 4
  {
    var st := WholeMessageThrough(d', d, m, []);
    assert MsgBytes(d, m) + [] == MsgBytes(d, m);
    hide MsgBytes, Step, Accepts, Project, Defaults, Compatible;
    assert Run(d', st, []) == Done(st, [], false);
  }

  /** A whole message, with bytes still to come. */
  lemma {:induction false} WholeMessageThrough(d': seq<Field>, d: seq<Field>, m: Msg, tail: seq<byte>)
      returns (st: State)
    requires Compatible(d', d, m)
    ensures Run(d', Start(Defaults(d')), MsgBytes(d, m) + tail) == Run(d', st, tail)
    ensures st.m == Project(d', d, m) && Accepts(d', st)
    decreases d, |d| + 1, 3
  {
    StructAfterNone(d', d, m);
    StructAfterAll(d', d, m);
    hide MsgBytes, Run, RequiredSeen, Project, Defaults, StructAfter, Reached, Compatible, FixedComplete;
    var st0 := Start(Defaults(d'));
    assert FixedComplete(d', st0) by { NothingInProgress(d', st0); }
    assert forall j :: 0 <= j < |d'| ==> !Reached(d, d'[j].tag, 0) by { NoneReached(d); }
    st := MessageThrough(d', d, m, 0, st0, tail);
    AllRequired(d', d, m, st);
    assert d[0..] == d;
  }

  lemma NothingInProgress(d: seq<Field>, st: State)
    requires st.fixed.None?
    ensures FixedComplete(d, st)
  {
  }

  lemma NoneReached(d: seq<Field>)
    ensures forall tag: nat :: !Reached(d, tag, 0)
  {
  }

  lemma AllRequired(d': seq<Field>, d: seq<Field>, m: Msg, st: State)
    requires Compatible(d', d, m) && At(d', d, m, |d|, st)
    ensures RequiredSeen(d', st.seen)
  {
    forall j | 0 <= j < |d'| && d'[j].htype.Required? ensures j in st.seen {
      var i := ViewIndex(d', d, j);
      assert Reached(d, d'[j].tag, |d|);
    }
    hide RequiredBefore, StructAfter;
  }

  /** The records of fields i, i+1, ... take the decoder from one state to the next. */
  lemma {:induction false} MessageThrough(d': seq<Field>, d: seq<Field>, m: Msg, i: nat, st: State, tail: seq<byte>)
    returns (st': State)
    requires Compatible(d', d, m) && i <= |d| && At(d', d, m, i, st)
    ensures Run(d', st, MsgBytes(d[i..], m) + tail) == Run(d', st', tail)
    ensures At(d', d, m, |d|, st')
    decreases d, |d| - i, 2
  {
    if i == |d| {
      assert MsgBytes(d[i..], m) + tail == tail;
      return st;
    }
    var record := SlotBytes(d[i], SlotOf(m, d[i]));
    var others := MsgBytes(d[i + 1..], m);
    assert d[i..][1..] == d[i + 1..];
    assert MsgBytes(d[i..], m) == record + others;
    assert (record + others) + tail == record + (others + tail);
    hide MsgBytes, SlotBytes, Run, At, Compatible;
    var st1 := FieldThrough(d', d, m, i, st, others + tail);
    st' := MessageThrough(d', d, m, i + 1, st1, tail);
  }

  /** The records of one field. */
  lemma {:induction false} FieldThrough(d': seq<Field>, d: seq<Field>, m: Msg, i: nat, st: State, tail: seq<byte>)
    returns (st': State)
    requires Compatible(d', d, m) && i < |d| && At(d', d, m, i, st)
    ensures Run(d', st, SlotBytes(d[i], SlotOf(m, d[i])) + tail) == Run(d', st', tail)
    ensures At(d', d, m, i + 1, st')
    decreases d, |d| - i, 1
  {
    var s := SlotOf(m, d[i]);
    hide SlotBytes, Run, At, Compatible, SlotOf, FindTag;
    if FindTag(d', d[i].tag).None? {
      st' := MissingFieldThrough(d', d, m, i, st, tail);
    } else {
      var j := FindTag(d', d[i].tag).value;
      if d[i].htype.Repeated? {
        st' := ArrayThrough(d', d, m, i, j, st, tail);
      } else if Emits(d[i], s) {
        st' := SingleThrough(d', d, m, i, j, st, tail);
      } else {
        st' := LeftOutThrough(d', d, m, i, j, st, tail);
      }
    }
  }

  // ---------- Keeping the invariant ----------

  lemma ReachedNext(d: seq<Field>, i: nat, tag: nat)
    requires WellFormed(d) && i < |d|
    ensures Reached(d, tag, i + 1) <==> Reached(d, tag, i) || tag == d[i].tag
  {
    FindTagAt(d, i);
    hide FindTag, WellFormed;
  }

  lemma AtNext(d': seq<Field>, d: seq<Field>, m: Msg, i: nat, st: State, st': State)
    requires Compatible(d', d, m) && i < |d| && At(d', d, m, i, st)
    requires st'.m == StructAfter(d', d, m, i + 1) && FixedComplete(d', st')
    requires st'.fixed == st.fixed
          || (st'.fixed.Some? && st'.fixed.value < |d'| && d'[st'.fixed.value].tag == d[i].tag)
    requires st.seen <= st'.seen
    requires forall j :: 0 <= j < |d'| && d'[j].tag == d[i].tag && d'[j].htype.Required? ==> j in st'.seen
    ensures At(d', d, m, i + 1, st')
  {
    forall tag: nat ensures Reached(d, tag, i + 1) <==> Reached(d, tag, i) || tag == d[i].tag {
      ReachedNext(d, i, tag);
    }
    hide Reached, StructAfter, FixedComplete, Compatible, WellFormed;
    if st'.fixed.Some? {
      assert Reached(d, d'[st'.fixed.value].tag, i + 1);
    }
    forall j | 0 <= j < |d'| && d'[j].htype.Required? && Reached(d, d'[j].tag, i + 1) ensures j in st'.seen {
      assert Reached(d, d'[j].tag, i) || d'[j].tag == d[i].tag;
    }
  }

  /** The field of d' with the tag of field i views it. */
  lemma ViewsField(d': seq<Field>, d: seq<Field>, m: Msg, i: nat, j: nat)
    requires Compatible(d', d, m) && i < |d| && FindTag(d', d[i].tag) == Some(j)
    ensures j < |d'| && d'[j].tag == d[i].tag && ViewOfField(d'[j], d[i])
    ensures WellFormedField(d[i]) && WellFormedField(d'[j])
    ensures d'[j].htype == d[i].htype && d'[j].ltype == d[i].ltype && d'[j].arraySize == d[i].arraySize
    ensures FixedCount(d'[j]) == FixedCount(d[i])
    ensures forall k :: 0 <= k < |d'| && d'[k].tag == d[i].tag ==> k == j
  {
    FindTagAt(d, i);
    var _ := ViewIndex(d', d, j);
    assert forall k :: 0 <= k < |d'| && d'[k].tag == d[i].tag ==> k == j by {
      forall k | 0 <= k < |d'| && d'[k].tag == d[i].tag ensures k == j { FindTagAt(d', k); }
    }
    hide FindTag, Normal, ViewOf;
  }

  // ---------- Fields left out, and fields that d' does not have ----------

  lemma LeftOutThrough(d': seq<Field>, d: seq<Field>, m: Msg, i: nat, j: nat, st: State, tail: seq<byte>)
    returns (st': State)
    requires Compatible(d', d, m) && i < |d| && At(d', d, m, i, st)
    requires FindTag(d', d[i].tag) == Some(j) && !d[i].htype.Repeated? && !Emits(d[i], SlotOf(m, d[i]))
    ensures Run(d', st, SlotBytes(d[i], SlotOf(m, d[i])) + tail) == Run(d', st', tail)
    ensures At(d', d, m, i + 1, st')
  {
    assert SlotBytes(d[i], SlotOf(m, d[i])) + tail == tail;
    NormalField(d, m, i);
    ViewsField(d', d, m, i, j);
    LeftOutSame(d', d, m, i, j);
    hide SlotBytes, Run, StructAfter, FindTag, WellFormed, WellFormedField;
    hide ViewOfField, ViewOf, Normal, NormalUnion, NormalValue;
    st' := st;
    AtNext(d', d, m, i, st, st');
  }

  /** A value is skipped by exactly its length. */
  lemma SkipItem(f: Field, v: Value, tail: seq<byte>)
    requires WellFormedField(f) && NormalValue(f, v)
    ensures SkipField(WireType(f.ltype), ItemBytes(f, v) + tail) == Ok((), tail)
  {
    hide SkipField, LengthPrefixed, ScalarBytes, MsgBytes, InRange;
    if f.ltype.Bytes? || f.ltype.FixedLengthBytes? {
      SkipLengthPrefixed(v.b, tail);
    } else if f.ltype.String? {
      CStringWhole(v.b, f.dataSize);
      SkipLengthPrefixed(v.b, tail);
    } else if f.ltype.Submessage? {
      SkipLengthPrefixed(MsgBytes(f.ptr.fields, v.m), tail);
    } else {
      SkipScalar(f.ltype, v.n, tail);
    }
  }

  lemma {:induction false} SkipUnpacked(d': seq<Field>, st: State, f: Field, items: seq<Value>, tail: seq<byte>)
    requires WellFormedField(f) && NormalItems(f, items) && FindTag(d', f.tag).None?
    ensures Run(d', st, UnpackedBytes(f, items) + tail) == Run(d', st, tail)
    decreases |items|
  {
    if items == [] {
      assert UnpackedBytes(f, items) + tail == tail;
    } else {
      var first, others := ItemBytes(f, items[0]), UnpackedBytes(f, items[1..]);
      assert UnpackedBytes(f, items) == FieldTag(f) + first + others;
      assert FieldTag(f) + first + others + tail == FieldTag(f) + first + (others + tail);
      assert NormalItems(f, items[1..]) && NormalValue(f, items[0]);
      assert FieldTag(f) == TagBytes(f.tag, WireType(f.ltype));
      assert 0 < f.tag < 0x2000_0000;
      hide UnpackedBytes, ItemBytes, FieldTag, TagBytes, Run, FindTag, NormalValue, NormalItems, WellFormedField;
      SkipItem(f, items[0], others + tail);
      UnknownRecord(d', st, f.tag, WireType(f.ltype), first, others + tail);
      SkipUnpacked(d', st, f, items[1..], tail);
    }
  }

  lemma SkipSlot(d': seq<Field>, st: State, d: seq<Field>, m: Msg, i: nat, tail: seq<byte>)
    requires WellFormed(d) && Normal(d, m) && i < |d| && FindTag(d', d[i].tag).None?
    ensures Run(d', st, SlotBytes(d[i], SlotOf(m, d[i])) + tail) == Run(d', st, tail)
  {
    var f, s := d[i], SlotOf(m, d[i]);
    NormalField(d, m, i);
    FindTagAt(d, i);
    assert WellFormedField(f) && 0 < f.tag < 0x2000_0000;
    hide Run, FindTag, WellFormed, WellFormedField, Normal;
    hide NormalValue, TagBytes, ItemBytes, UnpackedBytes, PackedBytes;
    hide LengthPrefixed, ZeroValue;
    if SlotBytes(f, s) == [] {
      assert SlotBytes(f, s) + tail == tail;
    } else if f.htype.Repeated? {
      if Packable(f.ltype) {
        var packed := PackedBytes(f.ltype, s.items);
        SkipLengthPrefixed(packed, tail);
        UnknownRecord(d', st, f.tag, WT_STRING, LengthPrefixed(packed), tail);
      } else {
        SkipUnpacked(d', st, f, s.items, tail);
      }
    } else {
      assert SlotBytes(f, s) == FieldTag(f) + ItemBytes(f, s.v);
      SkipItem(f, s.v, tail);
      UnknownRecord(d', st, f.tag, WireType(f.ltype), ItemBytes(f, s.v), tail);
    }
  }

  lemma MissingFieldThrough(d': seq<Field>, d: seq<Field>, m: Msg, i: nat, st: State, tail: seq<byte>)
    returns (st': State)
    requires Compatible(d', d, m) && i < |d| && At(d', d, m, i, st)
    requires FindTag(d', d[i].tag).None?
    ensures Run(d', st, SlotBytes(d[i], SlotOf(m, d[i])) + tail) == Run(d', st', tail)
    ensures At(d', d, m, i + 1, st')
  {
    hide SlotBytes, Run, StructAfter, FindTag, WellFormed, ViewOf, Normal;
    SkipSlot(d', st, d, m, i, tail);
    MissingFieldSame(d', d, m, i);
    st' := st;
    AtNext(d', d, m, i, st, st');
  }

  // ---------- A single record ----------

  lemma {:induction false} SingleThrough(d': seq<Field>, d: seq<Field>, m: Msg, i: nat, j: nat, st: State,
      tail: seq<byte>)
    returns (st': State)
    requires Compatible(d', d, m) && i < |d| && At(d', d, m, i, st)
    requires FindTag(d', d[i].tag) == Some(j) && !d[i].htype.Repeated? && Emits(d[i], SlotOf(m, d[i]))
    ensures Run(d', st, SlotBytes(d[i], SlotOf(m, d[i])) + tail) == Run(d', st', tail)
    ensures At(d', d, m, i + 1, st')
    decreases d, |d| - i, 0
  {
    var f, f', s := d[i], d'[j], SlotOf(m, d[i]);
    var body := ItemBytes(f, s.v);
    ViewsField(d', d, m, i, j);
    EmittedSlot(d', d, m, i, j);
    assert SlotBytes(f, s) == FieldTag(f) + body;
    assert FieldTag(f) == TagBytes(f'.tag, WireType(f'.ltype));
    assert 0 < f'.tag < 0x2000_0000;
    hide Run, FindTag, WellFormed, WellFormedField, Normal, NormalValue;
    hide ViewOf, ViewOfField, TagBytes, FieldTag, ItemBytes;
    hide SlotBytes, ZeroValue, Defaults, ProjectValue, SlotAfter, ReadItem, SlotOf, Emits, NewSlot;
    var st1 := Enter(d', st, j);
    assert st1.m == st.m && st1.fixed == st.fixed && st1.count == st.count;
    var prior := OldValue(f', SlotOf(st1.m, f'));
    SlotInStruct(d', d, m, i, KeyOf(f), f');
    ItemThrough(f', f, s.v, prior, tail);
    st' := st1.(m := st1.m[KeyOf(f) := NewSlot(f', ProjectValue(f', f, s.v))]);
    assert ReadField(d', j, st1, WireType(f.ltype), body + tail) == Done(st', tail, false);
    KnownRecord(d', st, j, WireType(f.ltype), body, tail, st');
    StructUpdated(d', d, m, i, NewSlot(f', ProjectValue(f', f, s.v)));
    AtNext(d', d, m, i, st, st');
  }

  lemma SlotInStruct(d': seq<Field>, d: seq<Field>, m: Msg, i: nat, k: Key, f': Field)
    requires k in Keys(d') && KeyOf(f') == k
    ensures SlotOf(StructAfter(d', d, m, i), f') == SlotAfter(d', d, m, i, k)
  {
    hide SlotAfter, Keys;
  }

  // ---------- Arrays ----------

  /** An array of which k items have been received. */
  function Filled(f': Field, items: seq<Value>, k: nat): (r: seq<Value>)
    requires k <= |items| <= f'.arraySize
  {
    items[..k] + (if FixedCount(f') then seq(f'.arraySize - k, _ => Undefined) else [])
  }

  function ArrayAt(f': Field, st: State, items: seq<Value>, k: nat): State
    requires k <= |items| <= f'.arraySize
  {
    st.(m := st.m[KeyOf(f') := Arr(Filled(f', items, k))], count := if FixedCount(f') then k else st.count)
  }

  lemma PutFilled(f': Field, items: seq<Value>, k: nat)
    requires k < |items| <= f'.arraySize
    ensures |Filled(f', items, k)| == if FixedCount(f') then f'.arraySize else k
    ensures PutItem(Filled(f', items, k), k, items[k]) == Filled(f', items, k + 1)
  {
    assert items[..k + 1] == items[..k] + [items[k]];
  }

  lemma {:induction false} PackedThrough(f': Field, items: seq<Value>, k: nat)
    requires Packable(f'.ltype) && k <= |items| <= f'.arraySize
    requires forall x :: 0 <= x < |items| ==> items[x].VInt? && InRange(f'.ltype, f'.dataSize, items[x].n)
    ensures ReadPacked(f', ArrayState(Filled(f', items, k), k), PackedBytes(f'.ltype, items[k..]))
         == Some(ArrayState(Filled(f', items, |items|), |items|))
    decreases |items| - k
  {
    hide Filled, PutItem, ScalarBytes, ReadScalar, InRange;
    if k < |items| {
      var n, others := items[k].n, PackedBytes(f'.ltype, items[k + 1..]);
      assert items[k..][1..] == items[k + 1..];
      assert PackedBytes(f'.ltype, items[k..]) == ScalarBytes(f'.ltype, n) + others;
      FixedWidth(f'.ltype, n);
      ScalarRoundTrip(f'.ltype, f'.dataSize, n, others);
      PutFilled(f', items, k);
      PackedThrough(f', items, k + 1);
    } else {
      assert items[k..] == [];
    }
  }

  /** Before its first record an array holds nothing, or undefined items. */
  lemma ArrayBefore(d': seq<Field>, d: seq<Field>, m: Msg, i: nat, j: nat, st: State, items: seq<Value>)
    requires Compatible(d', d, m) && i < |d| && At(d', d, m, i, st)
    requires FindTag(d', d[i].tag) == Some(j) && d[i].htype.Repeated? && |items| <= d'[j].arraySize
    ensures KeyOf(d'[j]) == KeyOf(d[i]) && KeyOf(d[i]) in Keys(d')
    ensures d'[j].htype.Repeated? && KeyOf(d[i]) in st.m && st.m[KeyOf(d[i])] == Arr(Filled(d'[j], items, 0))
  {
    var f', k := d'[j], KeyOf(d[i]);
    ViewsField(d', d, m, i, j);
    KeyFromField(d', j);
    SlotInStruct(d', d, m, i, k, f');
    FindTagAt(d, i);
    DefaultSlotCases(f');
    assert !Reached(d, d[i].tag, i);
    hide FindTag, WellFormed, WellFormedField, Normal, ViewOf, ViewOfField, DefaultSlot, ProjectKey, Keys;
  }

  /** Where an array field starts: empty or undefined, with a fresh counter. */
  lemma ArrayStarts(d': seq<Field>, d: seq<Field>, m: Msg, i: nat, j: nat, st: State, items: seq<Value>)
    requires Compatible(d', d, m) && i < |d| && At(d', d, m, i, st)
    requires FindTag(d', d[i].tag) == Some(j) && d[i].htype.Repeated? && |items| <= d'[j].arraySize
    ensures KeyOf(d'[j]) == KeyOf(d[i]) && KeyOf(d[i]) in Keys(d')
    ensures MayEnter(d', st, j) && Enter(d', st, j) == ArrayAt(d'[j], Enter(d', st, j), items, 0)
    ensures Enter(d', st, j).m == st.m
  {
    var f', k := d'[j], KeyOf(d[i]);
    ArrayBefore(d', d, m, i, j, st, items);
    hide FindTag, WellFormed, WellFormedField, Normal, ViewOf, Keys, Filled, Compatible;
    assert st.m[k := Arr(Filled(f', items, 0))] == st.m;
  }

  lemma {:induction false} ItemsThrough(f': Field, f: Field, items: seq<Value>, k: nat, tail: seq<byte>)
    requires WellFormedField(f) && WellFormedField(f') && ViewOfField(f', f) && NormalItems(f, items)
    requires f.htype.Repeated? && k < |items|
    ensures ReadItem(f', Undefined, ItemBytes(f, items[k]) + tail) == Ok(ProjectItems(f', f, items)[k], tail)
    decreases f, 1
  {
    ProjectItemsAt(f', f, items, k);
    assert NormalValue(f, items[k]);
    hide WellFormedField, ViewOfField, NormalItems, NormalValue, ProjectItems, ProjectValue, ItemBytes, ReadItem;
    ItemThrough(f', f, items[k], Undefined, tail);
  }

  /** Record number k of an unpacked array. */
  lemma {:induction false} UnpackedOne(d': seq<Field>, j: nat, f: Field, items: seq<Value>, k: nat,
                                       pre: State, st: State, tail: seq<byte>)
    requires j < |d'| && FindTag(d', f.tag) == Some(j)
    requires WellFormedField(f) && WellFormedField(d'[j]) && ViewOfField(d'[j], f) && NormalItems(f, items)
    requires f.htype.Repeated? && !Packable(f.ltype) && k < |items| <= f.arraySize
    requires MayEnter(d', pre, j)
    requires Enter(d', pre, j) == ArrayAt(d'[j], st, ProjectItems(d'[j], f, items), k)
    ensures Run(d', pre, UnpackedBytes(f, items[k..]) + tail)
         == Run(d', ArrayAt(d'[j], st, ProjectItems(d'[j], f, items), k + 1), UnpackedBytes(f, items[k + 1..]) + tail)
    decreases f, 2
  {
    var f', p := d'[j], ProjectItems(d'[j], f, items);
    var body, tail' := ItemBytes(f, items[k]), UnpackedBytes(f, items[k + 1..]) + tail;
    assert items[k..][1..] == items[k + 1..];
    assert UnpackedBytes(f, items[k..]) + tail == FieldTag(f) + body + tail';
    ItemsThrough(f', f, items, k, tail');
    assert FieldTag(f) == TagBytes(f'.tag, WireType(f'.ltype));
    assert 0 < f'.tag < 0x2000_0000;
    hide Run, FindTag, WellFormedField, NormalItems, ViewOfField, TagBytes, FieldTag, ItemBytes, UnpackedBytes;
    hide ProjectItems, ArrayAt, ReadItem, MayEnter, Enter, ReadField;
    ItemIntoArray(d', j, st, p, k, WireType(f.ltype), body + tail', tail');
    KnownRecord(d', pre, j, WireType(f.ltype), body, tail', ArrayAt(f', st, p, k + 1));
  }

  lemma ItemIntoArray(d': seq<Field>, j: nat, st: State, items: seq<Value>, k: nat,
                      wireType: nat, bs: seq<byte>, tail: seq<byte>)
    requires j < |d'| && d'[j].htype.Repeated? && !Packable(d'[j].ltype) && k < |items| <= d'[j].arraySize
    requires ReadItem(d'[j], Undefined, bs) == Ok(items[k], tail)
    ensures ReadField(d', j, ArrayAt(d'[j], st, items, k), wireType, bs)
         == Done(ArrayAt(d'[j], st, items, k + 1), tail, false)
  {
    var f' := d'[j];
    PutFilled(f', items, k);
    var st1, st2 := ArrayAt(f', st, items, k), ArrayAt(f', st, items, k + 1);
    hide Filled, PutItem, ReadItem;
    assert st1.m[KeyOf(f') := Arr(Filled(f', items, k + 1))] == st2.m;
    assert SlotOf(st1.m, f') == Arr(Filled(f', items, k));
  }

  lemma EnterAgain(d': seq<Field>, j: nat, st: State, items: seq<Value>, k: nat)
    requires j < |d'| && d'[j].htype.Repeated? && k <= |items| <= d'[j].arraySize
    requires FixedCount(d'[j]) ==> st.fixed == Some(j)
    ensures var st1 := ArrayAt(d'[j], st, items, k); MayEnter(d', st1, j) && Enter(d', st1, j) == st1
  {
    hide Filled;
  }

  lemma {:induction false} UnpackedThrough(d': seq<Field>, j: nat, f: Field, items: seq<Value>, k: nat,
                                           pre: State, st: State, tail: seq<byte>)
    requires j < |d'| && FindTag(d', f.tag) == Some(j)
    requires WellFormedField(f) && WellFormedField(d'[j]) && ViewOfField(d'[j], f) && NormalItems(f, items)
    requires f.htype.Repeated? && !Packable(f.ltype) && k < |items| <= f.arraySize
    requires MayEnter(d', pre, j) && (FixedCount(d'[j]) ==> st.fixed == Some(j))
    requires Enter(d', pre, j) == ArrayAt(d'[j], st, ProjectItems(d'[j], f, items), k)
    ensures Run(d', pre, UnpackedBytes(f, items[k..]) + tail)
         == Run(d', ArrayAt(d'[j], st, ProjectItems(d'[j], f, items), |items|), tail)
    decreases f, 3, |items| - k
  {
    UnpackedOne(d', j, f, items, k, pre, st, tail);
    var p := ProjectItems(d'[j], f, items);
    assert d'[j].arraySize == f.arraySize && d'[j].htype == f.htype;
    if k + 1 == |items| {
      assert UnpackedBytes(f, items[k + 1..]) + tail == tail;
    } else {
      EnterAgain(d', j, st, p, k + 1);
      hide Run, FindTag, WellFormedField, NormalItems, ViewOfField;
      hide UnpackedBytes, ProjectItems, ArrayAt, MayEnter, Enter;
      UnpackedThrough(d', j, f, items, k + 1, ArrayAt(d'[j], st, p, k + 1), st, tail);
    }
  }

  lemma FilledWhole(f': Field, items: seq<Value>)
    requires |items| <= f'.arraySize && (FixedCount(f') ==> |items| == f'.arraySize)
    ensures Filled(f', items, |items|) == items
  {
  }

  lemma ProjectScalars(f': Field, f: Field, items: seq<Value>)
    requires !f.ltype.Submessage?
    ensures ProjectItems(f', f, items) == items
  {
    forall k | 0 <= k < |items| ensures ProjectItems(f', f, items)[k] == items[k] {
      ProjectItemsAt(f', f, items, k);
    }
  }

  /** The single record of a packed array. */
  lemma PackedRecord(d': seq<Field>, j: nat, items: seq<Value>, pre: State, st: State, tail: seq<byte>)
    requires j < |d'| && FindTag(d', d'[j].tag) == Some(j) && WellFormedField(d'[j])
    requires d'[j].htype.Repeated? && Packable(d'[j].ltype) && |items| <= d'[j].arraySize
    requires forall x :: 0 <= x < |items| ==> items[x].VInt? && InRange(d'[j].ltype, d'[j].dataSize, items[x].n)
    requires |PackedBytes(d'[j].ltype, items)| < U32
    requires MayEnter(d', pre, j) && Enter(d', pre, j) == ArrayAt(d'[j], st, items, 0)
    ensures Run(d', pre, TagBytes(d'[j].tag, WT_STRING) + LengthPrefixed(PackedBytes(d'[j].ltype, items)) + tail)
         == Run(d', ArrayAt(d'[j], st, items, |items|), tail)
  {
    var f' := d'[j];
    var payload := PackedBytes(f'.ltype, items);
    SubstreamOfLengthPrefixed(payload, tail);
    PackedThrough(f', items, 0);
    assert items[0..] == items;
    hide LengthPrefixed, Substream, PackedBytes, TagBytes, Run, FindTag, Enter, MayEnter, ReadPacked, InRange;
    PackedIntoArray(d', j, st, items, LengthPrefixed(payload) + tail, payload, tail);
    KnownRecord(d', pre, j, WT_STRING, LengthPrefixed(payload), tail, ArrayAt(f', st, items, |items|));
  }

  lemma PackedIntoArray(d': seq<Field>, j: nat, st: State, items: seq<Value>, bs: seq<byte>, payload: seq<byte>,
      tail: seq<byte>)
    requires j < |d'| && d'[j].htype.Repeated? && Packable(d'[j].ltype) && |items| <= d'[j].arraySize
    requires Substream(bs) == Ok(payload, tail)
    requires ReadPacked(d'[j], ArrayState(Filled(d'[j], items, 0), 0), payload)
          == Some(ArrayState(Filled(d'[j], items, |items|), |items|))
    ensures ReadField(d', j, ArrayAt(d'[j], st, items, 0), WT_STRING, bs)
         == Done(ArrayAt(d'[j], st, items, |items|), tail, false)
  {
    var f' := d'[j];
    var st1, st2 := ArrayAt(f', st, items, 0), ArrayAt(f', st, items, |items|);
    assert !FixedCount(f') ==> |Filled(f', items, 0)| == 0;
    hide Filled, ReadPacked, Substream;
    assert st1.m[KeyOf(f') := Arr(Filled(f', items, |items|))] == st2.m;
    assert SlotOf(st1.m, f') == Arr(Filled(f', items, 0));
  }

  lemma {:induction false} ArrayRecords(d': seq<Field>, j: nat, f: Field, items: seq<Value>,
                                        pre: State, st: State, tail: seq<byte>)
    requires j < |d'| && FindTag(d', f.tag) == Some(j)
    requires WellFormedField(f) && WellFormedField(d'[j]) && ViewOfField(d'[j], f) && NormalItems(f, items)
    requires f.htype.Repeated? && 0 < |items| <= f.arraySize
    requires Packable(f.ltype) ==> |PackedBytes(f.ltype, items)| < U32
    requires MayEnter(d', pre, j) && (FixedCount(d'[j]) ==> st.fixed == Some(j))
    requires Enter(d', pre, j) == ArrayAt(d'[j], st, ProjectItems(d'[j], f, items), 0)
    ensures Run(d', pre, ArrayBytes(f, items) + tail)
         == Run(d', ArrayAt(d'[j], st, ProjectItems(d'[j], f, items), |items|), tail)
    decreases f, 4
  {
    var f' := d'[j];
    assert f'.ltype == f.ltype && f'.tag == f.tag;
    if Packable(f.ltype) {
      ProjectScalars(f', f, items);
      ScalarItems(f, items);
      assert f'.dataSize == f.dataSize;
      hide Run, FindTag, WellFormedField, NormalItems, ViewOfField, PackedBytes, LengthPrefixed, TagBytes;
      hide ArrayAt, MayEnter, Enter, ProjectItems, InRange;
      PackedRecord(d', j, items, pre, st, tail);
    } else {
      assert items[0..] == items;
      hide Run, FindTag, WellFormedField, NormalItems, ViewOfField, UnpackedBytes;
      hide ArrayAt, MayEnter, Enter, ProjectItems;
      UnpackedThrough(d', j, f, items, 0, pre, st, tail);
    }
  }

  lemma ScalarItems(f: Field, items: seq<Value>)
    requires Packable(f.ltype) && NormalItems(f, items)
    ensures forall x :: 0 <= x < |items| ==> items[x].VInt? && InRange(f.ltype, f.dataSize, items[x].n)
  {
    hide InRange;
    forall x | 0 <= x < |items| ensures items[x].VInt? && InRange(f.ltype, f.dataSize, items[x].n) {
      assert NormalValue(f, items[x]);
    }
  }

  lemma ArrayStruct(d': seq<Field>, d: seq<Field>, m: Msg, i: nat, j: nat)
    requires Compatible(d', d, m) && i < |d| && FindTag(d', d[i].tag) == Some(j)
    requires d[i].htype.Repeated? && SlotOf(m, d[i]).Arr?
    ensures j < |d'| && SlotAfter(d', d, m, i + 1, KeyOf(d[i])) == Arr(ProjectItems(d'[j], d[i], SlotOf(m, d[i]).items))
  {
    NormalField(d, m, i);
    FindTagAt(d, i);
    ProjectMember(d', d, m, i, j);
    ProjectOwnCases(d'[j], d[i], SlotOf(m, d[i]));
    hide FindTag, WellFormed, Normal, ViewOf, ProjectKey, ProjectOwn, ProjectItems, NormalItems, DefaultOf;
  }

  lemma {:induction false} ArrayThrough(d': seq<Field>, d: seq<Field>, m: Msg, i: nat, j: nat, st: State,
      tail: seq<byte>)
    returns (st': State)
    requires Compatible(d', d, m) && i < |d| && At(d', d, m, i, st)
    requires FindTag(d', d[i].tag) == Some(j) && d[i].htype.Repeated?
    ensures Run(d', st, SlotBytes(d[i], SlotOf(m, d[i])) + tail) == Run(d', st', tail)
    ensures At(d', d, m, i + 1, st')
    decreases d, |d| - i, 0
  {
    var f, f' := d[i], d'[j];
    NormalField(d, m, i);
    ViewsField(d', d, m, i, j);
    var items := SlotOf(m, f).items;
    hide Run, FindTag, WellFormed, WellFormedField, Normal, ViewOf, ViewOfField, NormalItems, At;
    if items == [] {
      assert SlotBytes(f, SlotOf(m, f)) + tail == tail;
      LeftOutSame(d', d, m, i, j);
      hide SlotBytes, StructAfter, SlotOf;
      st' := st;
      AtNext(d', d, m, i, st, st');
    } else {
      var p := ProjectItems(f', f, items);
      var st1 := Enter(d', st, j);
      ArrayStarts(d', d, m, i, j, st, p);
      FilledWhole(f', p);
      st' := ArrayAt(f', st1, p, |p|);
      assert SlotBytes(f, SlotOf(m, f)) == ArrayBytes(f, items);
      ArrayRecords(d', j, f, items, st, st1, tail);
      ArrayStruct(d', d, m, i, j);
      hide SlotBytes, StructAfter, ArrayBytes, ProjectItems, Filled;
      StructUpdated(d', d, m, i, Arr(p));
      AtNext(d', d, m, i, st, st');
    }
  }
}
