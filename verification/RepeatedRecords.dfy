/**
 Repeated fields as other senders write them: one record per item, or several packed records.
 They all mean the same, also for items that come on top of earlier ones.
 */
module RepeatedRecords {
  import opened Bits
  import opened Varint
  import opened Wrappers
  import opened Descriptor
  import opened Scalars
  import opened Encoding
  import opened Decoding
  import opened Records

  // ---------- Putting items one after the other ----------

  /** The array after these items, or none if they do not fit. */
  function PutAll(f: Field, a: ArrayState, items: seq<Value>): Option<ArrayState>
    decreases |items|
  {
    if items == [] then Some(a)
    else if a.count >= f.arraySize then None
    else PutAll(f, ArrayState(PutItem(a.items, a.count, items[0]), a.count + 1), items[1..])
  }

  lemma PutOne(f: Field, a: ArrayState, v: Value)
    ensures PutAll(f, a, [v]) ==
            if a.count >= f.arraySize then None else Some(ArrayState(PutItem(a.items, a.count, v), a.count + 1))
  {
    hide PutItem;
    if a.count < f.arraySize {
      assert [v][1..] == [];
      NothingPut(f, ArrayState(PutItem(a.items, a.count, v), a.count + 1));
    }
  }

  lemma NothingPut(f: Field, a: ArrayState)
    ensures PutAll(f, a, []) == Some(a)
  {
  }

  lemma PutFirst(f: Field, a: ArrayState, items: seq<Value>)
    requires items != []
    ensures PutAll(f, a, items) ==
            match PutAll(f, a, [items[0]])
            case None => None
            case Some(a1) => PutAll(f, a1, items[1..])
  {
    PutOne(f, a, items[0]);
    hide PutItem;
  }

  /** A counted array is extended, exactly when there is room. */
  lemma {:induction false} PutAllAppends(f: Field, xs: seq<Value>, items: seq<Value>)
    ensures PutAll(f, ArrayState(xs, |xs|), items) ==
            if items == [] || |xs| + |items| <= f.arraySize then Some(ArrayState(xs + items, |xs| + |items|)) else None
    decreases |items|
  {
    if items == [] {
      assert xs + items == xs;
    } else if |xs| < f.arraySize {
      PutAllAppends(f, xs + [items[0]], items[1..]);
      assert (xs + [items[0]]) + items[1..] == xs + items;
    }
  }

  /** An array received whole has exactly the items received, whatever was there before. */
  lemma {:induction false} PutAllFills(f: Field, xs: seq<Value>, c: nat, items: seq<Value>)
    requires |xs| == f.arraySize && c + |items| == f.arraySize
    ensures PutAll(f, ArrayState(xs, c), items) == Some(ArrayState(xs[..c] + items, f.arraySize))
    decreases |items|
  {
    if items == [] {
      assert xs[..c] + items == xs;
    } else {
      PutAllFills(f, xs[c := items[0]], c + 1, items[1..]);
      assert xs[c := items[0]][..c + 1] + items[1..] == xs[..c] + items;
    }
  }

  predicate InFieldRange(f: Field, items: seq<Value>) {
    forall k :: 0 <= k < |items| ==> items[k].VInt? && InRange(f.ltype, f.dataSize, items[k].n)
  }

  lemma {:induction false} PackedPutsAll(f: Field, a: ArrayState, items: seq<Value>)
    requires Packable(f.ltype) && InFieldRange(f, items)
    ensures ReadPacked(f, a, PackedBytes(f.ltype, items)) == PutAll(f, a, items)
    decreases |items|
  {
    hide PutItem, ScalarBytes, ReadScalar, InRange;
    if items != [] {
      var n, others := items[0].n, PackedBytes(f.ltype, items[1..]);
      FixedWidth(f.ltype, n);
      ScalarRoundTrip(f.ltype, f.dataSize, n, others);
      PackedPutsAll(f, ArrayState(PutItem(a.items, a.count, items[0]), a.count + 1), items[1..]);
    }
  }

  /** What follows whole items in a packed payload is read like a payload of its own. */
  lemma {:induction false} PackedThenMore(f: Field, a: ArrayState, items: seq<Value>, more: seq<byte>)
    requires Packable(f.ltype) && InFieldRange(f, items)
    ensures ReadPacked(f, a, PackedBytes(f.ltype, items) + more) ==
            match PutAll(f, a, items)
            case None => None
            case Some(a1) => ReadPacked(f, a1, more)
    decreases |items|
  {
    hide PutItem, ScalarBytes, ReadScalar, InRange;
    if items == [] {
      assert [] + more == more;
    } else {
      var n, others := items[0].n, PackedBytes(f.ltype, items[1..]);
      FixedWidth(f.ltype, n);
      ScalarRoundTrip(f.ltype, f.dataSize, n, others + more);
      assert (ScalarBytes(f.ltype, n) + others) + more == ScalarBytes(f.ltype, n) + (others + more);
      PackedThenMore(f, ArrayState(PutItem(a.items, a.count, items[0]), a.count + 1), items[1..], more);
    }
  }

  /** A packed payload that ends inside an item is refused, however many items came before. */
  lemma PackedCutOff(f: Field, a: ArrayState, items: seq<Value>, more: seq<byte>)
    requires Packable(f.ltype) && InFieldRange(f, items)
    requires more != [] && ReadScalar(f.ltype, f.dataSize, more).Fail?
    ensures ReadPacked(f, a, PackedBytes(f.ltype, items) + more) == None
  {
    PackedThenMore(f, a, items, more);
    hide ReadScalar, PackedBytes, PutAll;
  }

  // ---------- Records of a repeated field ----------

  /** The array of field i with its counter, in the struct or beside it. */
  function ArrayIn(d: seq<Field>, i: nat, st: State): Option<ArrayState>
    requires i < |d|
  {
    var s := SlotOf(st.m, d[i]);
    if !s.Arr? then None else Some(ArrayState(s.items, if FixedCount(d[i]) then st.count else |s.items|))
  }

  function WithArray(d: seq<Field>, i: nat, st: State, a: ArrayState): State
    requires i < |d|
  {
    st.(m := st.m[KeyOf(d[i]) := Arr(a.items)], count := if FixedCount(d[i]) then a.count else st.count)
  }

  /** What records with these items do, before the bytes that follow. */
  function AfterItems(d: seq<Field>, i: nat, st: State, items: seq<Value>): Option<State>
    requires i < |d|
  {
    if !MayEnter(d, st, i) || ArrayIn(d, i, Enter(d, st, i)).None? then None
    else match PutAll(d[i], ArrayIn(d, i, Enter(d, st, i)).value, items)
         case None => None
         case Some(a) => Some(WithArray(d, i, Enter(d, st, i), a))
  }

  function ThenRun(d: seq<Field>, next: Option<State>, tail: seq<byte>): Outcome {
    if next.None? then Failed else Run(d, next.value, tail)
  }

  predicate ScalarArray(d: seq<Field>, i: nat) {
    && i < |d| && FindTag(d, d[i].tag) == Some(i) && 0 < d[i].tag < 0x2000_0000
    && d[i].htype.Repeated? && Packable(d[i].ltype)
  }

  lemma PackedField(d: seq<Field>, i: nat, st: State, items: seq<Value>, tail: seq<byte>)
    requires ScalarArray(d, i) && InFieldRange(d[i], items) && |PackedBytes(d[i].ltype, items)| < U32
    ensures ReadField(d, i, st, WT_STRING, LengthPrefixed(PackedBytes(d[i].ltype, items)) + tail) ==
            if ArrayIn(d, i, st).None? then Failed
            else match PutAll(d[i], ArrayIn(d, i, st).value, items)
                 case None => Failed
                 case Some(a) => Done(WithArray(d, i, st, a), tail, false)
  {
    var f := d[i];
    var payload := PackedBytes(f.ltype, items);
    SubstreamOfLengthPrefixed(payload, tail);
    if ArrayIn(d, i, st).Some? { PackedPutsAll(f, ArrayIn(d, i, st).value, items); }
    hide LengthPrefixed, Substream, PackedBytes, ReadPacked, PutAll, FindTag, InFieldRange;
  }

  /** One packed record. */
  lemma PackedRecords(d: seq<Field>, i: nat, st: State, items: seq<Value>, tail: seq<byte>)
    requires ScalarArray(d, i) && InFieldRange(d[i], items) && |PackedBytes(d[i].ltype, items)| < U32 && items != []
    ensures Run(d, st, ArrayBytes(d[i], items) + tail) == ThenRun(d, AfterItems(d, i, st, items), tail)
  {
    var f, body := d[i], LengthPrefixed(PackedBytes(d[i].ltype, items)) + tail;
    assert ArrayBytes(f, items) + tail == TagBytes(f.tag, WT_STRING) + body by {
      hide PackedBytes, LengthPrefixed, TagBytes;
    }
    hide LengthPrefixed, PackedBytes, TagBytes, Run, ReadField, PutAll, FindTag;
    hide InFieldRange, MayEnter, Enter, ArrayIn, WithArray, ArrayBytes;
    AnyRecord(d, st, i, WT_STRING, body);
    PackedField(d, i, Enter(d, st, i), items, tail);
  }

  lemma ScalarWireType(t: LType)
    requires Packable(t)
    ensures WireType(t) != WT_STRING
  {
  }

  lemma UnpackedItem(f: Field, a: ArrayState, v: Value, tail: seq<byte>)
    requires f.htype.Repeated? && Packable(f.ltype) && v.VInt? && InRange(f.ltype, f.dataSize, v.n)
    ensures ReadArray(f, a, WireType(f.ltype), ItemBytes(f, v) + tail) ==
            match PutAll(f, a, [v]) case None => Fail case Some(a1) => Ok(a1, tail)
  {
    PutOne(f, a, v);
    ScalarRoundTrip(f.ltype, f.dataSize, v.n, tail);
    ScalarWireType(f.ltype);
    ScalarItem(f, v, tail);
    hide ReadItem, ItemBytes, InRange, PutItem, WireType, PutAll, Packable, ReadScalar, ScalarBytes;
  }

  lemma ScalarItem(f: Field, v: Value, tail: seq<byte>)
    requires Packable(f.ltype) && v.VInt?
            && ReadScalar(f.ltype, f.dataSize, ScalarBytes(f.ltype, v.n) + tail) == Ok(v.n, tail)
    ensures ReadItem(f, Undefined, ItemBytes(f, v) + tail) == Ok(v, tail)
  {
    assert ItemBytes(f, v) == ScalarBytes(f.ltype, v.n);
    hide ScalarBytes, ReadScalar, ItemBytes;
  }

  lemma UnpackedField(d: seq<Field>, i: nat, st: State, v: Value, tail: seq<byte>)
    requires ScalarArray(d, i) && InFieldRange(d[i], [v])
    ensures ReadField(d, i, st, WireType(d[i].ltype), ItemBytes(d[i], v) + tail) ==
            if ArrayIn(d, i, st).None? then Failed
            else match PutAll(d[i], ArrayIn(d, i, st).value, [v])
                 case None => Failed
                 case Some(a) => Done(WithArray(d, i, st, a), tail, false)
  {
    assert [v][0] == v;
    if ArrayIn(d, i, st).Some? { UnpackedItem(d[i], ArrayIn(d, i, st).value, v, tail); }
    hide ReadArray, ItemBytes, InRange, FindTag, PutAll, WireType;
  }

  /** After a record of the field the next one finds the array where that left it. */
  lemma EnterAgain(d: seq<Field>, i: nat, st: State, v: Value)
    requires i < |d| && d[i].htype.Repeated? && AfterItems(d, i, st, [v]).Some?
    ensures var next := AfterItems(d, i, st, [v]).value;
            && MayEnter(d, next, i) && Enter(d, next, i) == next
            && ArrayIn(d, i, next) == PutAll(d[i], ArrayIn(d, i, Enter(d, st, i)).value, [v])
  {
    assert [v][0] == v && [v][1..] == [];
  }

  lemma OneByOne(d: seq<Field>, i: nat, st: State, items: seq<Value>)
    requires i < |d| && d[i].htype.Repeated? && items != []
    ensures AfterItems(d, i, st, items) ==
            match AfterItems(d, i, st, [items[0]])
            case None => None
            case Some(next) => if items[1..] == [] then Some(next) else AfterItems(d, i, next, items[1..])
  {
    var first := AfterItems(d, i, st, [items[0]]);
    if first.Some? {
      EnterAgain(d, i, st, items[0]);
      WithArrayTwice(d, i, Enter(d, st, i));
      NothingPut(d[i], ArrayIn(d, i, first.value).value);
    }
    if ArrayIn(d, i, Enter(d, st, i)).Some? { PutFirst(d[i], ArrayIn(d, i, Enter(d, st, i)).value, items); }
    hide MayEnter, Enter, ArrayIn, WithArray, PutItem, PutAll;
  }

  lemma WithArrayTwice(d: seq<Field>, i: nat, st: State)
    requires i < |d|
    ensures forall a, b :: WithArray(d, i, WithArray(d, i, st, a), b) == WithArray(d, i, st, b)
  {
  }

  /** One record per item. */
  lemma {:induction false} UnpackedRecords(d: seq<Field>, i: nat, st: State, items: seq<Value>, tail: seq<byte>)
    requires ScalarArray(d, i) && InFieldRange(d[i], items) && items != []
    ensures Run(d, st, UnpackedBytes(d[i], items) + tail) == ThenRun(d, AfterItems(d, i, st, items), tail)
    decreases |items|
  {
    var f, v, others := d[i], items[0], UnpackedBytes(d[i], items[1..]);
    var body := ItemBytes(f, v) + (others + tail);
    assert UnpackedBytes(f, items) + tail == TagBytes(f.tag, WireType(f.ltype)) + body by {
      hide ItemBytes, TagBytes, WireType;
    }
    assert InFieldRange(f, [v]) && InFieldRange(f, items[1..]) by { assert [v][0] == v; hide InRange; }
    hide UnpackedBytes, ItemBytes, TagBytes, Run, ReadField, PutAll, FindTag, InFieldRange, WireType;
    hide MayEnter, Enter, ArrayIn, WithArray;
    assert WireType(f.ltype) < 8;
    AnyRecord(d, st, i, WireType(f.ltype), body);
    UnpackedField(d, i, Enter(d, st, i), v, others + tail);
    assert Run(d, st, UnpackedBytes(f, items) + tail) == ThenRun(d, AfterItems(d, i, st, [v]), others + tail);
    OneByOne(d, i, st, items);
    hide AfterItems;
    if items[1..] == [] {
      NoBytes(f);
      assert others + tail == tail;
    } else if AfterItems(d, i, st, [v]).Some? {
      UnpackedRecords(d, i, AfterItems(d, i, st, [v]).value, items[1..], tail);
    }
  }

  lemma NoBytes(f: Field)
    ensures UnpackedBytes(f, []) == []
  {
  }

  // ---------- The theorems ----------

  /**
   Packed and unpacked records of the same values have the same effect, also on an array that
   holds items already, on a fixed-count array in progress, and when they do not fit.
   */
  lemma PackedOrNot(d: seq<Field>, i: nat, st: State, items: seq<Value>, tail: seq<byte>)
    requires ScalarArray(d, i) && InFieldRange(d[i], items) && |PackedBytes(d[i].ltype, items)| < U32
    ensures Run(d, st, UnpackedBytes(d[i], items) + tail) == Run(d, st, ArrayBytes(d[i], items) + tail)
  {
    if items == [] {
      NoBytes(d[i]);
      assert ArrayBytes(d[i], items) == [];
    } else {
      hide Run, UnpackedBytes, ArrayBytes, AfterItems, PackedBytes, ScalarArray, InFieldRange;
      PackedRecords(d, i, st, items, tail);
      UnpackedRecords(d, i, st, items, tail);
    }
  }

  /** Records of a counted array append their items, exactly when there is room for all of them. */
  lemma RecordsAppend(d: seq<Field>, i: nat, st: State, xs: seq<Value>, items: seq<Value>, tail: seq<byte>)
    requires ScalarArray(d, i) && !FixedCount(d[i]) && InFieldRange(d[i], items) && items != []
    requires SlotOf(st.m, d[i]) == Arr(xs)
    ensures Run(d, st, UnpackedBytes(d[i], items) + tail) ==
            if |xs| + |items| <= d[i].arraySize then Run(d, st.(m := st.m[KeyOf(d[i]) := Arr(xs + items)]), tail)
                else Failed
  {
    PutAllAppends(d[i], xs, items);
    UnpackedRecords(d, i, st, items, tail);
    hide Run, UnpackedBytes, PutAll, FindTag, InFieldRange;
  }

  /** A full array takes no further item; only an empty packed record gets by. */
  lemma FullArrayRefuses(f: Field, a: ArrayState, wireType: nat, bs: seq<byte>)
    requires a.count >= f.arraySize && ReadArray(f, a, wireType, bs).Ok?
    ensures wireType == WT_STRING && Packable(f.ltype) && ReadArray(f, a, wireType, bs).value == a
    ensures Substream(bs).Ok? && Substream(bs).value == []
  {
    hide Substream, ReadItem, PutItem, ReadScalar;
  }

  /** The encoder refuses a counted array exactly when its bytes would not fit into an empty one. */
  lemma ArrayRefusedBothWays(d: seq<Field>, i: nat, st: State, items: seq<Value>)
    requires ScalarArray(d, i) && !FixedCount(d[i]) && SlotOf(st.m, d[i]) == Arr([])
    requires InFieldRange(d[i], items) && |PackedBytes(d[i].ltype, items)| < U32
    ensures SlotEncodable(d[i], Arr(items)) <==> Run(d, st, ArrayBytes(d[i], items)).Done?
  {
    var bs := ArrayBytes(d[i], items);
    assert bs + [] == bs;
    assert SlotEncodable(d[i], Arr(items)) <==> |items| <= d[i].arraySize by {
      assert forall k :: 0 <= k < |items| ==> InRange(d[i].ltype, d[i].dataSize, items[k].n);
      hide Modulus, FitsSigned;
    }
    PutAllAppends(d[i], [], items);
    hide PutAll, FindTag, InFieldRange, SlotEncodable, PackedBytes, Step, InRange;
    if items == [] {
      assert Run(d, st, []).Done?;
    } else {
      PackedRecords(d, i, st, items, []);
      hide ArrayBytes;
      if |items| <= d[i].arraySize {
        assert Run(d, AfterItems(d, i, st, items).value, []).Done?;
      }
    }
  }

  lemma {:induction false} PutAllCounts(f: Field, a: ArrayState, items: seq<Value>)
    ensures PutAll(f, a, items).Some? <==> items == [] || a.count + |items| <= f.arraySize
    ensures PutAll(f, a, items).Some? ==> PutAll(f, a, items).value.count == a.count + |items|
    decreases |items|
  {
    hide PutItem;
    if items != [] && a.count < f.arraySize {
      PutAllCounts(f, ArrayState(PutItem(a.items, a.count, items[0]), a.count + 1), items[1..]);
    }
  }

  /** It refuses a fixed-count array exactly when its bytes would leave the decoder with one that is not complete. */
  lemma FixedRefusedBothWays(d: seq<Field>, i: nat, m: Msg, items: seq<Value>)
    requires ScalarArray(d, i) && FixedCount(d[i]) && SlotOf(m, d[i]).Arr? && items != []
    requires InFieldRange(d[i], items) && |PackedBytes(d[i].ltype, items)| < U32
    ensures
      var o := Run(d, Start(m), ArrayBytes(d[i], items));
      SlotEncodable(d[i], Arr(items)) <==> o.Done? && FixedComplete(d, o.st)
  {
    var bs, st := ArrayBytes(d[i], items), Start(m);
    assert bs + [] == bs;
    assert SlotEncodable(d[i], Arr(items)) <==> |items| == d[i].arraySize by {
      assert forall k :: 0 <= k < |items| ==> InRange(d[i].ltype, d[i].dataSize, items[k].n);
      hide Modulus, FitsSigned;
    }
    PutAllCounts(d[i], ArrayState(SlotOf(m, d[i]).items, 0), items);
    PackedRecords(d, i, st, items, []);
    hide PutAll, FindTag, InFieldRange, SlotEncodable, PackedBytes, Step, InRange, ArrayBytes;
    var after := AfterItems(d, i, st, items);
    if after.Some? {
      assert Run(d, after.value, []) == Done(after.value, [], false);
    }
  }
}
