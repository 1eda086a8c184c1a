/**
 Concatenation is merging: decoding a++b onto a struct is decoding a, then b. The one
 exception is exact: both halves receive the same fixed-count array, a last and b first.
 */
module Merging {
  import opened Varint
  import opened Wrappers
  import opened Descriptor
  import opened Scalars
  import opened Encoding
  import opened Decoding

  // ---------- What follows a record does not matter ----------

  lemma SubstreamFrame(a: seq<byte>, b: seq<byte>)
    requires Substream(a).Ok?
    ensures Substream(a + b) == Ok(Substream(a).value, Substream(a).rest + b)
  {
    hide ReadVarint32, ReadBytes;
    ReadVarint32Frame(a, b);
    ReadBytesFrame(ReadVarint32(a).rest, b, ReadVarint32(a).value);
  }

  lemma SkipFieldFrame(wireType: nat, a: seq<byte>, b: seq<byte>)
    requires SkipField(wireType, a).Ok?
    ensures SkipField(wireType, a + b) == Ok((), SkipField(wireType, a).rest + b)
  {
    hide ReadBytes, Substream, VarintLength;
    if wireType == WT_VARINT {
      var k := VarintLength(a);
      LengthFrame(a, b);
      assert (a + b)[k..] == a[k..] + b;
    } else if wireType == WT_64BIT {
      ReadBytesFrame(a, b, 8);
    } else if wireType == WT_STRING {
      SubstreamFrame(a, b);
    } else {
      ReadBytesFrame(a, b, 4);
    }
  }

  lemma ReadTagFrame(a: seq<byte>, b: seq<byte>)
    requires !ReadTag(a).BadTag?
    ensures var t := ReadTag(a);
            ReadTag(a + b) == if t.Stop? then Stop(t.rest + b) else Tag(t.tag, t.wireType, t.rest + b)
  {
    hide ReadVarint32;
    ReadVarint32Frame(a, b);
  }

  lemma ReadPlainFrame(f: Field, a: seq<byte>, b: seq<byte>)
    ensures ReadByteArray(f, a).Ok? ==>
              ReadByteArray(f, a + b) == Ok(ReadByteArray(f, a).value, ReadByteArray(f, a).rest + b)
    ensures ReadString(f, a).Ok? ==>
              ReadString(f, a + b) == Ok(ReadString(f, a).value, ReadString(f, a).rest + b)
    ensures ReadFixedBytes(f, a).Ok? ==>
              ReadFixedBytes(f, a + b) == Ok(ReadFixedBytes(f, a).value, ReadFixedBytes(f, a).rest + b)
  {
    hide ReadVarint32, ReadBytes;
    if ReadVarint32(a).Ok? {
      var n, rest := ReadVarint32(a).value, ReadVarint32(a).rest;
      ReadVarint32Frame(a, b);
      if ReadBytes(rest, n).Ok? { ReadBytesFrame(rest, b, n); }
    }
  }

  lemma ReadItemFrame(f: Field, prior: Value, a: seq<byte>, b: seq<byte>)
    requires ReadItem(f, prior, a).Ok?
    ensures ReadItem(f, prior, a + b) == Ok(ReadItem(f, prior, a).value, ReadItem(f, prior, a).rest + b)
  {
    if f.ltype.Submessage? {
      hide Substream, DecodeNoinit;
      SubstreamFrame(a, b);
      var payload := Substream(a).value;
      assert ReadItem(f, prior, a) == ReadPayload(f, prior, payload, Substream(a).rest);
      assert ReadItem(f, prior, a + b) == ReadPayload(f, prior, payload, Substream(a).rest + b);
    } else {
      hide ReadByteArray, ReadString, ReadFixedBytes, ReadScalar;
      ReadPlainFrame(f, a, b);
      if ReadScalar(f.ltype, f.dataSize, a).Ok? { ReadScalarFrame(f.ltype, f.dataSize, a, b); }
    }
  }

  lemma ReadArrayFrame(f: Field, s: ArrayState, wireType: nat, a: seq<byte>, b: seq<byte>)
    requires ReadArray(f, s, wireType, a).Ok?
    ensures ReadArray(f, s, wireType, a + b)
            == Ok(ReadArray(f, s, wireType, a).value, ReadArray(f, s, wireType, a).rest + b)
  {
    hide Substream, ReadPacked, ReadItem, PutItem;
    if wireType == WT_STRING && Packable(f.ltype) {
      SubstreamFrame(a, b);
    } else {
      ReadItemFrame(f, Undefined, a, b);
    }
  }

  lemma ReadFieldFrame(d: seq<Field>, i: nat, st: State, wireType: nat, a: seq<byte>, b: seq<byte>)
    requires i < |d| && ReadField(d, i, st, wireType, a).Done?
    ensures var r := ReadField(d, i, st, wireType, a);
            ReadField(d, i, st, wireType, a + b) == Done(r.st, r.rest + b, false) && !r.stopped
  {
    hide ReadArray, ReadItem, OldValue, NewSlot;
    var f := d[i];
    var s := SlotOf(st.m, f);
    if f.htype.Repeated? {
      ReadArrayFrame(f, ArrayState(s.items, if FixedCount(f) then st.count else |s.items|), wireType, a, b);
    } else {
      ReadItemFrame(f, OldValue(f, s), a, b);
    }
  }

  lemma StepFrame(d: seq<Field>, st: State, a: seq<byte>, b: seq<byte>)
    requires Step(d, st, a).Done?
    ensures Step(d, st, a + b) == Done(Step(d, st, a).st, Step(d, st, a).rest + b, Step(d, st, a).stopped)
  {
    hide ReadTag, ReadField, SkipField, FindTag, ReadVarint32, MayEnter, Enter;
    var t := ReadTag(a);
    ReadTagFrame(a, b);
    if t.Tag? {
      if d == [] && t.tag == 0 {
        ReadVarint32Frame(t.rest, b);
      } else if FindTag(d, t.tag).None? {
        SkipFieldFrame(t.wireType, t.rest, b);
      } else {
        var i := FindTag(d, t.tag).value;
        ReadFieldFrame(d, i, Enter(d, st, i), t.wireType, t.rest, b);
      }
    }
  }

  /** The record loop works through a and goes on with b in the state that a left. */
  lemma {:induction false} RunConcat(d: seq<Field>, st: State, a: seq<byte>, b: seq<byte>)
    requires Run(d, st, a).Done? && !Run(d, st, a).stopped
    ensures Run(d, st, a + b) == Run(d, Run(d, st, a).st, b)
    decreases |a|
  {
    if a == [] {
      assert a + b == b;
    } else {
      hide Step;
      StepFrame(d, st, a, b);
      var r := Step(d, st, a);
      RunConcat(d, r.st, r.rest, b);
    }
  }

  // ---------- The second half, with the bookkeeping of the first ----------

  /** The field of the record at the head of bs. */
  function HeadField(d: seq<Field>, bs: seq<byte>): Option<nat> {
    match ReadTag(bs)
    case Tag(tag, _, _) => FindTag(d, tag)
    case _ => None
  }

  predicate HeadIsFixed(d: seq<Field>, bs: seq<byte>) {
    HeadField(d, bs).Some? && FixedCount(d[HeadField(d, bs).value])
  }

  /** The first fixed-count field that occurs in bs, on the way through the records. */
  function FirstFixed(d: seq<Field>, st: State, bs: seq<byte>): Option<nat>
    decreases |bs|
  {
    if bs == [] then None
    else if HeadIsFixed(d, bs) then HeadField(d, bs)
    else match Step(d, st, bs)
         case Failed => None
         case Done(st', rest, stopped) => if stopped then None else FirstFixed(d, st', rest)
  }

  /** st2 differs from st only in the bookkeeping. */
  predicate SameStruct(st: State, st2: State) {
    st2.m == st.m && st.seen <= st2.seen
  }

  /** A record of any other field does not look at the fixed-count counter. */
  lemma StepIndependent(d: seq<Field>, st: State, st2: State, bs: seq<byte>)
    requires SameStruct(st, st2) && !HeadIsFixed(d, bs)
    ensures var r, r2 := Step(d, st, bs), Step(d, st2, bs);
            r.Failed? == r2.Failed?
    ensures var r, r2 := Step(d, st, bs), Step(d, st2, bs);
            r.Done? ==>
              && SameStruct(r.st, r2.st) && r2.rest == r.rest && r2.stopped == r.stopped
              && r.st.fixed == st.fixed && r.st.count == st.count
              && r2.st.fixed == st2.fixed && r2.st.count == st2.count
  {
    hide ReadTag, SkipField, FindTag, ReadVarint32, ReadArray, ReadItem, OldValue, NewSlot;
  }

  /** The bookkeeping of the first half cannot be told from a fresh start at the next fixed-count field. */
  predicate Harmless(d: seq<Field>, st2: State, first: Option<nat>) {
    st2.fixed.None? || first != st2.fixed || (st2.fixed.value < |d| && d[st2.fixed.value].arraySize == 0)
  }

  /** While b meets no fixed-count field, or meets another one first, the bookkeeping of a is irrelevant. */
  lemma {:induction false} RunAfterComplete(d: seq<Field>, st: State, st2: State, bs: seq<byte>)
    requires SameStruct(st, st2) && st.fixed.None? && FixedComplete(d, st2)
    requires Harmless(d, st2, FirstFixed(d, st, bs))
    requires Run(d, st, bs).Done?
    ensures Run(d, st2, bs).Done?
    ensures var r, r2 := Run(d, st, bs), Run(d, st2, bs);
            && SameStruct(r.st, r2.st) && r2.rest == r.rest && r2.stopped == r.stopped
            && (FixedComplete(d, r.st) ==> FixedComplete(d, r2.st))
    decreases |bs|
  {
    hide Step;
    if bs != [] {
      if HeadIsFixed(d, bs) {
        EnterFresh(d, st, st2, bs);
        var r, r2 := Step(d, st, bs), Step(d, st2, bs);
        if !r.stopped { RunSeenMonotone(d, r.st, r2.st, r.rest); }
      } else {
        StepIndependent(d, st, st2, bs);
        var r, r2 := Step(d, st, bs), Step(d, st2, bs);
        if !r.stopped { RunAfterComplete(d, r.st, r2.st, r.rest); }
      }
    }
  }

  /** Entering a fixed-count field starts its counter afresh. */
  lemma EnterFresh(d: seq<Field>, st: State, st2: State, bs: seq<byte>)
    requires SameStruct(st, st2) && HeadIsFixed(d, bs)
    requires st.fixed.None? && FixedComplete(d, st2) && Harmless(d, st2, HeadField(d, bs))
    requires Step(d, st, bs).Done?
    ensures var r, r2 := Step(d, st, bs), Step(d, st2, bs);
            r2.Done? && SameStruct(r.st, r2.st) && r2.rest == r.rest && r2.stopped == r.stopped
            && r2.st.fixed == r.st.fixed && r2.st.count == r.st.count
  {
    hide ReadTag, SkipField, FindTag, ReadVarint32, ReadArray, ReadItem, OldValue, NewSlot;
  }

  lemma StepSeenMonotone(d: seq<Field>, st: State, st2: State, bs: seq<byte>)
    requires SameStruct(st, st2) && st2.fixed == st.fixed && st2.count == st.count
    requires Step(d, st, bs).Done?
    ensures var r, r2 := Step(d, st, bs), Step(d, st2, bs);
            r2.Done? && SameStruct(r.st, r2.st) && r2.rest == r.rest && r2.stopped == r.stopped
            && r2.st.fixed == r.st.fixed && r2.st.count == r.st.count
  {
    hide ReadTag, SkipField, FindTag, ReadVarint32, ReadArray, ReadItem, OldValue, NewSlot;
  }

  lemma {:induction false} RunSeenMonotone(d: seq<Field>, st: State, st2: State, bs: seq<byte>)
    requires SameStruct(st, st2) && st2.fixed == st.fixed && st2.count == st.count
    requires Run(d, st, bs).Done?
    ensures var r, r2 := Run(d, st, bs), Run(d, st2, bs);
            r2.Done? && SameStruct(r.st, r2.st) && r2.rest == r.rest && r2.stopped == r.stopped
            && r2.st.fixed == r.st.fixed && r2.st.count == r.st.count
    decreases |bs|
  {
    hide Step;
    if bs != [] {
      StepSeenMonotone(d, st, st2, bs);
      var r, r2 := Step(d, st, bs), Step(d, st2, bs);
      if !r.stopped { RunSeenMonotone(d, r.st, r2.st, r.rest); }
    }
  }

  // ---------- The same array twice ----------

  /** The array F has just been completed (st2) instead of just started (st). */
  predicate DoneInsteadOfStarted(d: seq<Field>, st: State, st2: State) {
    && SameStruct(st, st2) && st.fixed.Some? && st2.fixed == st.fixed && st.fixed.value < |d|
    && st.count == 0 && st2.count == d[st.fixed.value].arraySize > 0
  }

  /** Another item for a completed array is an overflow; only an empty packed record gets by. */
  lemma ExtraItem(f: Field, items: seq<Value>, wireType: nat, bs: seq<byte>)
    requires f.arraySize > 0
    ensures var r, r2 := ReadArray(f, ArrayState(items, 0), wireType, bs),
            ReadArray(f, ArrayState(items, f.arraySize), wireType, bs);
            r2.Fail? || (r.Ok? && r.rest == r2.rest && r.value == ArrayState(items, 0)
                && r2.value == ArrayState(items, f.arraySize))
  {
    hide Substream, ReadItem, PutItem, ReadScalar;
  }

  lemma StuckStep(d: seq<Field>, st: State, st2: State, bs: seq<byte>)
    requires DoneInsteadOfStarted(d, st, st2) && HeadField(d, bs) == st.fixed && HeadIsFixed(d, bs)
    ensures var r, r2 := Step(d, st, bs), Step(d, st2, bs);
            r2.Failed? || (r.Done? && r2.rest == r.rest && r2.stopped == r.stopped
                && DoneInsteadOfStarted(d, r.st, r2.st))
  {
    var t, i := ReadTag(bs), st.fixed.value;
    hide ReadTag, FindTag, ReadArray, SkipField;
    if SlotOf(st.m, d[i]).Arr? { ExtraItem(d[i], SlotOf(st.m, d[i]).items, t.wireType, t.rest); }
  }

  lemma OtherArrayTooEarly(d: seq<Field>, st: State, st2: State, bs: seq<byte>)
    requires DoneInsteadOfStarted(d, st, st2) && HeadIsFixed(d, bs) && HeadField(d, bs) != st.fixed
    ensures Step(d, st, bs).Failed?
  {
    hide ReadTag, FindTag, ReadField, SkipField;
  }

  lemma {:induction false} RunStuck(d: seq<Field>, st: State, st2: State, bs: seq<byte>)
    requires DoneInsteadOfStarted(d, st, st2)
    requires Run(d, st, bs).Done? && FixedComplete(d, Run(d, st, bs).st)
    ensures Run(d, st2, bs).Failed?
    decreases |bs|
  {
    hide Step;
    if bs != [] {
      if !HeadIsFixed(d, bs) {
        StepIndependent(d, st, st2, bs);
      } else if HeadField(d, bs) == st.fixed {
        StuckStep(d, st, st2, bs);
      } else {
        OtherArrayTooEarly(d, st, st2, bs);
      }
      var r, r2 := Step(d, st, bs), Step(d, st2, bs);
      if r2.Done? && !r.stopped { RunStuck(d, r.st, r2.st, r.rest); }
    }
  }

  lemma StepAfterEnter(d: seq<Field>, st: State, bs: seq<byte>, i: nat)
    requires i < |d| && HeadIsFixed(d, bs) && HeadField(d, bs) == Some(i) && st.fixed.None?
    ensures Step(d, st, bs) == Step(d, st.(fixed := Some(i), count := 0), bs)
  {
    hide ReadTag, FindTag, ReadField, SkipField;
  }

  lemma {:induction false} RunDoubled(d: seq<Field>, st: State, st2: State, bs: seq<byte>)
    requires SameStruct(st, st2) && st.fixed.None? && FixedComplete(d, st2)
    requires st2.fixed.Some? && FirstFixed(d, st, bs) == st2.fixed && st2.count > 0
    requires Run(d, st, bs).Done? && FixedComplete(d, Run(d, st, bs).st)
    ensures Run(d, st2, bs).Failed?
    decreases |bs|
  {
    hide Step;
    if HeadIsFixed(d, bs) {
      var i := st2.fixed.value;
      StepAfterEnter(d, st, bs, i);
      RunStuck(d, st.(fixed := Some(i), count := 0), st2, bs);
    } else {
      StepIndependent(d, st, st2, bs);
      var r, r2 := Step(d, st, bs), Step(d, st2, bs);
      RunDoubled(d, r.st, r2.st, r.rest);
    }
  }

  // ---------- The theorems ----------

  /** The last fixed-count array that a fills is the first one that b fills again. */
  predicate Collide(d: seq<Field>, last: Option<nat>, first: Option<nat>) {
    last.Some? && first == last && last.value < |d| && d[last.value].arraySize > 0
  }

  lemma RequiredSeenGrows(d: seq<Field>, seen: set<nat>, seen2: set<nat>)
    requires seen <= seen2 && RequiredSeen(d, seen)
    ensures RequiredSeen(d, seen2)
  {
    hide RequiredBefore;
  }

  /**
   Reading a++b onto m: if a takes m to m1 (without a zero tag) and b takes m1 to m2, then
   a++b takes m to m2, exactly unless the same fixed-count array ends a and begins b.
   */
  lemma ConcatenationMerges(d: seq<Field>, m: Msg, a: seq<byte>, b: seq<byte>)
    requires Run(d, Start(m), a).Done? && !Run(d, Start(m), a).stopped && Accepts(d, Run(d, Start(m), a).st)
    requires DecodeNoinit(d, Run(d, Start(m), a).st.m, b).Ok?
    ensures var st := Run(d, Start(m), a).st;
            DecodeNoinit(d, m, a + b) ==
            if Collide(d, st.fixed, FirstFixed(d, Start(st.m), b)) then Fail else DecodeNoinit(d, st.m, b)
  {
    var st2 := Run(d, Start(m), a).st;
    var st := Start(st2.m);
    RunConcat(d, Start(m), a, b);
    hide Run, RequiredSeen, FirstFixed;
    var r := Run(d, st, b);
    if Collide(d, st2.fixed, FirstFixed(d, st, b)) {
      RunDoubled(d, st, st2, b);
    } else {
      RunAfterComplete(d, st, st2, b);
      RequiredSeenGrows(d, r.st.seen, Run(d, st2, b).st.seen);
    }
  }

  lemma {:induction false} NoFixedField(d: seq<Field>, st: State, bs: seq<byte>)
    requires st.fixed.None? && forall i :: 0 <= i < |d| ==> !FixedCount(d[i])
    requires Run(d, st, bs).Done?
    ensures Run(d, st, bs).st.fixed.None?
    decreases |bs|
  {
    hide Step, ReadTag, FindTag;
    if bs != [] {
      StepIndependent(d, st, st, bs);
      if !Step(d, st, bs).stopped { NoFixedField(d, Step(d, st, bs).st, Step(d, st, bs).rest); }
    }
  }

  /** Without fixed-count fields, concatenation always merges. */
  lemma MergeWithoutFixedArrays(d: seq<Field>, m: Msg, a: seq<byte>, b: seq<byte>)
    requires forall i :: 0 <= i < |d| ==> !FixedCount(d[i])
    requires Run(d, Start(m), a).Done? && !Run(d, Start(m), a).stopped && Accepts(d, Run(d, Start(m), a).st)
    requires DecodeNoinit(d, Run(d, Start(m), a).st.m, b).Ok?
    ensures DecodeNoinit(d, m, a + b) == DecodeNoinit(d, Run(d, Start(m), a).st.m, b)
  {
    NoFixedField(d, Start(m), a);
    ConcatenationMerges(d, m, a, b);
    hide Run, FirstFixed, DecodeNoinit, Accepts;
  }

  // ---------- The exception is real ----------

  const ONE_ENTRY_ARRAY: Field := Field(1, Fixed32, Repeated, Static, 0, 0, 4, 1, Null)
  const ONE_ENTRY_RECORD: seq<byte> := [0x0A, 0x04, 0x07, 0x00, 0x00, 0x00]

  function OneEntry(v: Value): Msg {
    map[Own(1) := Arr([v])]
  }

  lemma OneEntryHead()
    ensures ReadTag(ONE_ENTRY_RECORD) == Tag(1, WT_STRING, ONE_ENTRY_RECORD[1..])
    ensures Substream(ONE_ENTRY_RECORD[1..]) == Ok(ONE_ENTRY_RECORD[2..], [])
  {
    assert EncVarint(10) == [10] && EncVarint(4) == [4];
    Varint32RoundTrip(10, ONE_ENTRY_RECORD[1..]);
    Varint32RoundTrip(4, ONE_ENTRY_RECORD[2..]);
    hide ReadVarint32, EncVarint;
    assert [10] + ONE_ENTRY_RECORD[1..] == ONE_ENTRY_RECORD;
    assert [4] + ONE_ENTRY_RECORD[2..] == ONE_ENTRY_RECORD[1..];
    var payload := ONE_ENTRY_RECORD[2..];
    assert payload[..4] == payload && payload[4..] == [];
  }

  lemma OneEntryPayload(v: Value)
    ensures ReadPacked(ONE_ENTRY_ARRAY, ArrayState([v], 0), ONE_ENTRY_RECORD[2..]) == Some(ArrayState([VInt(7)], 1))
  {
    var payload := ONE_ENTRY_RECORD[2..];
    assert payload == [7, 0, 0, 0];
    assert FromLittleEndian([0]) == 0;
    assert FromLittleEndian([0, 0]) == 0;
    assert FromLittleEndian([0, 0, 0]) == 0;
    assert payload[1..] == [0, 0, 0] && payload[1..][1..] == [0, 0];
    assert FromLittleEndian(payload) == 7;
    assert payload[..4] == payload && payload[4..] == [];
    assert ReadBytes(payload, 4) == Ok(payload, []);
    hide FromLittleEndian, ReadBytes;
    assert ReadScalar(Fixed32, 4, payload) == Ok(7, []);
    hide ReadScalar;
    assert PutItem([v], 0, VInt(7)) == [VInt(7)];
  }

  lemma OneEntryRun(v: Value)
    ensures Run([ONE_ENTRY_ARRAY], Start(OneEntry(v)), ONE_ENTRY_RECORD)
            == Done(State(OneEntry(VInt(7)), Some(0), 1, {}), [], false)
    ensures HeadIsFixed([ONE_ENTRY_ARRAY], ONE_ENTRY_RECORD)
            && HeadField([ONE_ENTRY_ARRAY], ONE_ENTRY_RECORD) == Some(0)
  {
    OneEntryHead();
    OneEntryPayload(v);
    hide ReadTag, Substream, ReadPacked;
    var d, st := [ONE_ENTRY_ARRAY], Start(OneEntry(v));
    assert FindTag(d, 1) == Some(0);
    var st1 := Enter(d, st, 0);
    assert ReadArray(ONE_ENTRY_ARRAY, ArrayState([v], 0), WT_STRING, ONE_ENTRY_RECORD[1..])
        == Ok(ArrayState([VInt(7)], 1), []);
    hide ReadArray, FindTag;
    assert OneEntry(v)[Own(1) := Arr([VInt(7)])] == OneEntry(VInt(7));
    assert ReadField(d, 0, st1, WT_STRING, ONE_ENTRY_RECORD[1..])
        == Done(State(OneEntry(VInt(7)), Some(0), 1, {}), [], false);
    hide ReadField;
    assert Step(d, st, ONE_ENTRY_RECORD) == Done(State(OneEntry(VInt(7)), Some(0), 1, {}), [], false);
  }

  /** Each half is accepted after the other, and together they are not. */
  lemma FixedArraysDoNotMerge()
    ensures DecodeNoinit([ONE_ENTRY_ARRAY], OneEntry(Undefined), ONE_ENTRY_RECORD) == Ok(OneEntry(VInt(7)), [])
    ensures DecodeNoinit([ONE_ENTRY_ARRAY], OneEntry(VInt(7)), ONE_ENTRY_RECORD) == Ok(OneEntry(VInt(7)), [])
    ensures DecodeNoinit([ONE_ENTRY_ARRAY], OneEntry(Undefined), ONE_ENTRY_RECORD + ONE_ENTRY_RECORD) == Fail
  {
    OneEntryRun(Undefined);
    OneEntryRun(VInt(7));
    hide Run, HeadIsFixed, HeadField;
    assert RequiredSeen([ONE_ENTRY_ARRAY], {});
    ConcatenationMerges([ONE_ENTRY_ARRAY], OneEntry(Undefined), ONE_ENTRY_RECORD, ONE_ENTRY_RECORD);
  }
}
