/**
 Submessages that arrive in several records. A singular submessage is merged into what it
 holds already; a member of a oneof is too while it stays the active one, and starts from
 its defaults when another member was active.
 */
module SubmessageMerging {
  import opened Bits
  import opened Varint
  import opened Wrappers
  import opened Descriptor
  import opened Scalars
  import opened Encoding
  import opened Decoding
  import opened Records
  import opened Merging

  /** A required, optional or oneof submessage, sent as a record of its own. */
  predicate Singular(f: Field) {
    f.ltype.Submessage? && f.ptr.Sub? && !f.htype.Repeated?
  }

  /** No array among the fields shares the counter for fixed-count arrays. */
  predicate NoFixedArrays(d: seq<Field>) {
    forall i :: 0 <= i < |d| ==> !FixedCount(d[i])
  }

  /** No zero tag ends the payload early. */
  predicate Unstopped(d: seq<Field>, m: Msg, payload: seq<byte>) {
    Run(d, Start(m), payload).Done? ==> !Run(d, Start(m), payload).stopped
  }

  /** Payload a takes m to m1 without ending early at a zero tag, and payload b takes m1 to m2. */
  predicate TwoPayloads(d: seq<Field>, m: Msg, a: seq<byte>, m1: Msg, b: seq<byte>, m2: Msg) {
    && DecodeNoinit(d, m, a).Ok? && DecodeNoinit(d, m, a).value == m1 && Unstopped(d, m, a)
    && DecodeNoinit(d, m1, b).Ok? && DecodeNoinit(d, m1, b).value == m2
  }

  lemma {:induction false} JoinedPayload(d: seq<Field>, m: Msg, a: seq<byte>, m1: Msg, b: seq<byte>, m2: Msg)
    requires NoFixedArrays(d) && TwoPayloads(d, m, a, m1, b, m2)
    ensures DecodeNoinit(d, m, a + b).Ok? && DecodeNoinit(d, m, a + b).value == m2
  {
    MergeWithoutFixedArrays(d, m, a, b);
    hide Run, Accepts;
  }

  // ---------- One value ----------

  /** A record merges its payload into the memory as it stands. */
  lemma {:induction false} ReadSingular(f: Field, m: Msg, payload: seq<byte>, tail: seq<byte>)
    requires Singular(f) && |payload| < U32
    ensures ReadItem(f, VMsg(m), LengthPrefixed(payload) + tail) ==
            match DecodeNoinit(f.ptr.fields, m, payload)
            case Fail => Fail
            case Ok(after, _) => Ok(VMsg(after), tail)
  {
    SubstreamOfLengthPrefixed(payload, tail);
    var bs := LengthPrefixed(payload) + tail;
    hide Substream, LengthPrefixed, DecodeNoinit;
    assert ReadItem(f, VMsg(m), bs) == ReadPayload(f, VMsg(m), payload, tail);
  }

  /** If payload a takes memory m to m1 and payload b takes m1 to m2, then the joined payload takes m to m2. */
  lemma {:induction false} SubmessageMerges(f: Field, m: Msg, a: seq<byte>, b: seq<byte>, m1: Msg, m2: Msg,
      rest: seq<byte>, tail: seq<byte>)
    requires Singular(f) && NoFixedArrays(f.ptr.fields) && |a| + |b| < U32
    requires Unstopped(f.ptr.fields, m, a)
    requires ReadItem(f, VMsg(m), LengthPrefixed(a) + rest) == Ok(VMsg(m1), rest)
    requires ReadItem(f, VMsg(m1), LengthPrefixed(b) + tail) == Ok(VMsg(m2), tail)
    ensures ReadItem(f, VMsg(m), LengthPrefixed(a + b) + tail) == Ok(VMsg(m2), tail)
  {
    hide ReadItem, Run, DecodeNoinit, LengthPrefixed, NoFixedArrays;
    ReadSingular(f, m, a, rest);
    ReadSingular(f, m1, b, tail);
    ReadSingular(f, m, a + b, tail);
    JoinedPayload(f.ptr.fields, m, a, m1, b, m2);
  }

  /** An empty payload leaves the memory as it is, and is refused exactly when something is required. */
  lemma {:induction false} EmptyPayload(f: Field, m: Msg, tail: seq<byte>)
    requires Singular(f)
    ensures ReadItem(f, VMsg(m), LengthPrefixed([]) + tail) ==
            if exists i :: 0 <= i < |f.ptr.fields| && f.ptr.fields[i].htype.Required? then Fail else Ok(VMsg(m), tail)
  {
    var d := f.ptr.fields;
    ReadSingular(f, m, [], tail);
    assert Run(d, Start(m), []) == Done(Start(m), [], false);
    hide Run, ReadItem, LengthPrefixed;
    NothingSeen(d);
  }

  lemma {:induction false} NothingSeen(d: seq<Field>)
    ensures RequiredSeen(d, {}) <==> !exists i :: 0 <= i < |d| && d[i].htype.Required?
  {
    if exists i :: 0 <= i < |d| && d[i].htype.Required? {
      var i :| 0 <= i < |d| && d[i].htype.Required?;
      var first := FirstRequired(d, i);
      assert first !in {};
    }
  }

  lemma {:induction false} FirstRequired(d: seq<Field>, i: nat) returns (first: nat)
    requires i < |d| && d[i].htype.Required?
    ensures first <= i && d[first].htype.Required? && RequiredBefore(d, first) == 0
  {
    if j :| 0 <= j < i && d[j].htype.Required? {
      first := FirstRequired(d, j);
    } else {
      first := i;
      NoneBefore(d, i);
    }
  }

  lemma {:induction false} NoneBefore(d: seq<Field>, i: nat)
    requires i <= |d| && forall j :: 0 <= j < i ==> !d[j].htype.Required?
    ensures RequiredBefore(d, i) == 0
  {
    if i > 0 { NoneBefore(d, i - 1); }
  }

  // ---------- Records in a message ----------

  predicate SingularAt(d: seq<Field>, i: nat) {
    i < |d| && FindTag(d, d[i].tag) == Some(i) && 0 < d[i].tag < 0x2000_0000 && Singular(d[i])
  }

  /** The state after a record of field i that left this value in it. */
  function Stored(d: seq<Field>, i: nat, st: State, v: Value): State
    requires i < |d|
  {
    var st1 := Enter(d, st, i);
    st1.(m := st1.m[KeyOf(d[i]) := NewSlot(d[i], v)])
  }

  /** The message that a record of field i is merged into. */
  function Memory(d: seq<Field>, i: nat, st: State): Value
    requires i < |d|
  {
    OldValue(d[i], SlotOf(st.m, d[i]))
  }

  /** A record that holds a submessage. */
  function Record(f: Field, payload: seq<byte>): seq<byte> {
    TagBytes(f.tag, WT_STRING) + LengthPrefixed(payload)
  }

  lemma {:induction false} SubmessageRecord(d: seq<Field>, i: nat, st: State, payload: seq<byte>, tail: seq<byte>)
    requires SingularAt(d, i) && Memory(d, i, st).VMsg? && |payload| < U32
    ensures Run(d, st, Record(d[i], payload) + tail) ==
            match DecodeNoinit(d[i].ptr.fields, Memory(d, i, st).m, payload)
            case Fail => Failed
            case Ok(m, _) => Run(d, Stored(d, i, st, VMsg(m)), tail)
  {
    var f, body := d[i], LengthPrefixed(payload) + tail;
    assert Record(f, payload) + tail == TagBytes(f.tag, WT_STRING) + body;
    hide Run, DecodeNoinit, LengthPrefixed, TagBytes, ReadItem, FindTag, Record;
    AnyRecord(d, st, i, WT_STRING, body);
    ReadSingular(f, Memory(d, i, st).m, payload, tail);
    assert Enter(d, st, i).m == st.m && MayEnter(d, st, i);
  }

  /** The next record of the same field finds what the last one left. */
  lemma {:induction false} FindsStored(d: seq<Field>, i: nat, st: State, v: Value)
    requires i < |d| && !d[i].htype.Repeated?
    ensures Memory(d, i, Stored(d, i, st, v)) == v
  {
    hide FindTag, Defaults;
  }

  lemma {:induction false} StoredTwice(d: seq<Field>, i: nat, st: State, v: Value, later: Value)
    requires i < |d| && !d[i].htype.Repeated?
    ensures Stored(d, i, Stored(d, i, st, v), later) == Stored(d, i, st, later)
  {
    hide FindTag, Defaults;
    var st1 := Enter(d, st, i);
    assert st1.seen + {i} + {i} == st1.seen + {i};
  }

  /** Two records of one singular submessage leave what one record with the joined payload leaves. */
  lemma {:induction false} TwoRecordsAreOne(d: seq<Field>, i: nat, st: State, a: seq<byte>, b: seq<byte>, m1: Msg,
      m2: Msg, tail: seq<byte>)
    requires SingularAt(d, i) && Memory(d, i, st).VMsg? && |a| + |b| < U32
    requires NoFixedArrays(d[i].ptr.fields) && TwoPayloads(d[i].ptr.fields, Memory(d, i, st).m, a, m1, b, m2)
    ensures Run(d, st, Record(d[i], a) + (Record(d[i], b) + tail)) == Run(d, st, Record(d[i], a + b) + tail)
    ensures Run(d, st, Record(d[i], a + b) + tail) == Run(d, Stored(d, i, st, VMsg(m2)), tail)
  {
    JoinedPayload(d[i].ptr.fields, Memory(d, i, st).m, a, m1, b, m2);
    FindsStored(d, i, st, VMsg(m1));
    StoredTwice(d, i, st, VMsg(m1), VMsg(m2));
    hide Run, DecodeNoinit, Record, Memory, Stored, SingularAt, NoFixedArrays;
    SubmessageRecord(d, i, st, a, Record(d[i], b) + tail);
    SubmessageRecord(d, i, Stored(d, i, st, VMsg(m1)), b, tail);
    SubmessageRecord(d, i, st, a + b, tail);
  }

  /** A oneof member starts from its defaults when another one was active: nothing of that one is left. */
  lemma {:induction false} OneofStartsAfresh(d: seq<Field>, i: nat, st: State, payload: seq<byte>, tail: seq<byte>)
    requires SingularAt(d, i) && d[i].htype.Oneof? && |payload| < U32
    requires !(SlotOf(st.m, d[i]).One? && SlotOf(st.m, d[i]).which == d[i].tag)
    ensures Run(d, st, Record(d[i], payload) + tail) ==
            match Decode(d[i].ptr.fields, payload)
            case Fail => Failed
            case Ok(m, _) => Run(d, st.(m := st.m[KeyOf(d[i]) := One(d[i].tag, VMsg(m))]), tail)
  {
    hide Run, DecodeNoinit, Record, FindTag, Defaults;
    SubmessageRecord(d, i, st, payload, tail);
  }

  // ---------- Last one wins ----------

  /** A field of one value other than a submessage. */
  predicate PlainAt(d: seq<Field>, i: nat) {
    && i < |d| && FindTag(d, d[i].tag) == Some(i) && 0 < d[i].tag < 0x2000_0000
    && !d[i].ltype.Submessage? && !d[i].htype.Repeated?
  }

  lemma {:induction false} PlainRecord(d: seq<Field>, i: nat, st: State, wireType: nat, body: seq<byte>)
    requires PlainAt(d, i) && wireType < 8
    ensures Run(d, st, TagBytes(d[i].tag, wireType) + body) ==
            match ReadItem(d[i], Undefined, body)
            case Fail => Failed
            case Ok(v, rest) => Run(d, Stored(d, i, st, v), rest)
  {
    hide Run, TagBytes, ReadItem, FindTag;
    PriorIgnored(d[i], Memory(d, i, st), body);
    AnyRecord(d, st, i, wireType, body);
    assert Enter(d, st, i).m == st.m && MayEnter(d, st, i);
  }

  /**
   A later record of such a field replaces the earlier one, whatever the two wire types:
   the earlier one need only be readable.
   */
  lemma {:induction false} LastOneWins(d: seq<Field>, i: nat, st: State, wt: nat, x: seq<byte>, wt': nat,
      later: seq<byte>)
    requires PlainAt(d, i) && wt < 8 && wt' < 8
    requires ReadItem(d[i], Undefined, x).Ok? && ReadItem(d[i], Undefined, x).rest == []
    ensures Run(d, st, TagBytes(d[i].tag, wt) + (x + (TagBytes(d[i].tag, wt') + later)))
         == Run(d, st, TagBytes(d[i].tag, wt') + later)
  {
    hide Run, TagBytes, ReadItem, FindTag, Stored;
    var record := TagBytes(d[i].tag, wt') + later;
    var v := ReadItem(d[i], Undefined, x).value;
    ReadItemFrame(d[i], Undefined, x, record);
    assert [] + record == record;
    PlainRecord(d, i, st, wt, x + record);
    PlainRecord(d, i, st, wt', later);
    PlainRecord(d, i, Stored(d, i, st, v), wt', later);
    var second := ReadItem(d[i], Undefined, later);
    if second.Ok? {
      StoredTwice(d, i, st, v, second.value);
    }
  }

  /** The record stores its value, and says that the field is there. */
  lemma {:induction false} RecordStores(d: seq<Field>, i: nat, st: State, wt: nat, body: seq<byte>)
    requires PlainAt(d, i) && wt < 8
    requires ReadItem(d[i], Undefined, body).Ok? && ReadItem(d[i], Undefined, body).rest == []
    ensures var v := ReadItem(d[i], Undefined, body).value;
      && Run(d, st, TagBytes(d[i].tag, wt) + body).Done?
      && Run(d, st, TagBytes(d[i].tag, wt) + body).st.m == st.m[KeyOf(d[i]) := NewSlot(d[i], v)]
  {
    PlainRecord(d, i, st, wt, body);
    var after := Stored(d, i, st, ReadItem(d[i], Undefined, body).value);
    hide TagBytes, ReadItem, FindTag, PlainAt, Step;
    assert Run(d, after, []) == Done(after, [], false);
  }

  /** Only a submessage looks at the memory it is read into. */
  lemma {:induction false} PriorIgnored(f: Field, prior: Value, bs: seq<byte>)
    requires !f.ltype.Submessage?
    ensures ReadItem(f, prior, bs) == ReadItem(f, Undefined, bs)
  {
    hide ReadByteArray, ReadString, ReadFixedBytes, ReadScalar;
  }
}
