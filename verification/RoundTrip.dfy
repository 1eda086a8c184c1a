/**
 The promises of the codec to its users: reading back what was written, under the same or
 an older or newer descriptor, alone, delimited, or terminated by a zero byte.
 */
module RoundTrip {
  import opened Bits
  import opened Varint
  import opened Descriptor
  import opened Scalars
  import opened Encoding
  import opened Decoding
  import opened Records
  import opened Projection
  import opened DefaultsProjected
  import opened Progress
  import opened Compatibility
  import opened OutputStream

  /** Forward and backward compatibility: the decoder keeps what its descriptor knows and skips the rest. */
  lemma ForwardCompatible(d': seq<Field>, d: seq<Field>, m: Msg)
    requires WellFormed(d) && WellFormed(d') && ViewOf(d', d) && Normal(d, m)
    ensures Decode(d', MsgBytes(d, m)) == Ok(Project(d', d, m), [])
  {
    hide DecodeNoinit, MsgBytes, Project, Defaults, WellFormed, ViewOf, Normal;
    DecodeThrough(d', d, m);
  }

  // ---------- The same descriptor on both sides ----------

  lemma {:induction false} ViewOfItself(d: seq<Field>)
    requires WellFormed(d)
    ensures ViewOf(d, d)
    decreases d, 1
  {
    hide WellFormedField;
    forall j | 0 <= j < |d| ensures ViewAt(d, d, j) {
      FindTagAt(d, j);
      FieldViewsItself(d[j]);
    }
  }

  lemma {:induction false} FieldViewsItself(f: Field)
    requires WellFormedField(f)
    ensures ViewOfField(f, f)
    decreases f, 0
  {
    if f.ltype.Submessage? && f.ptr.Sub? { ViewOfItself(f.ptr.fields); }
  }

  lemma {:induction false} ProjectItself(d: seq<Field>, m: Msg)
    requires WellFormed(d) && Normal(d, m)
    ensures Project(d, d, m) == m
    decreases d, 2
  {
    forall k | k in Keys(d) ensures ProjectKey(d, d, m, k) == m[k] {
      var i := FieldFromKey(d, k);
      NormalField(d, m, i);
      assert WellFormedField(d[i]);
      ProjectSlotItself(d, m, i);
    }
    hide ProjectKey, WellFormed;
  }

  lemma {:induction false} ProjectSlotItself(d: seq<Field>, m: Msg, i: nat)
    requires WellFormed(d) && Normal(d, m) && i < |d|
    ensures KeyOf(d[i]) in m && ProjectKey(d, d, m, KeyOf(d[i])) == m[KeyOf(d[i])]
    decreases d, 1
  {
    var f := d[i];
    NormalField(d, m, i);
    var s := m[KeyOf(f)];
    FindTagAt(d, i);
    assert WellFormedField(f);
    if f.htype.Oneof? {
      if s.One? {
        var w := FindTag(d, s.which).value;
        FindTagAt(d, w);
        ProjectMember(d, d, m, w, w);
        assert NormalValue(d[w], s.v) && WellFormedField(d[w]);
        hide FindTag, Normal, WellFormed, WellFormedField, NormalValue, ProjectKey, ProjectValue;
        ProjectValueItself(d[w], s.v);
      }
    } else {
      ProjectMember(d, d, m, i, i);
      hide FindTag, Normal, WellFormed, WellFormedField, ProjectKey, NormalOwn;
      ProjectOwnItself(f, s);
    }
  }

  lemma {:induction false} ProjectOwnItself(f: Field, s: Slot)
    requires WellFormedField(f) && NormalOwn(f, s) && !f.htype.Oneof?
    ensures ProjectOwn(f, f, s) == s
    decreases f, 2
  {
    ProjectOwnCases(f, f, s);
    hide WellFormedField, ProjectOwn, ProjectValue, NormalValue, ProjectItems, DefaultValue;
    if s.Arr? {
      forall k | 0 <= k < |s.items| ensures ProjectItems(f, f, s.items)[k] == s.items[k] {
        ProjectItemsAt(f, f, s.items, k);
        assert NormalValue(f, s.items[k]);
        ProjectValueItself(f, s.items[k]);
      }
    } else if s.Opt? && !s.has {
      FieldViewsItself(f);
      hide ViewOfField;
      ProjectDefaultValue(f, f);
    } else {
      ProjectValueItself(f, s.v);
    }
  }

  lemma {:induction false} ProjectValueItself(f: Field, v: Value)
    requires WellFormedField(f) && NormalValue(f, v)
    ensures ProjectValue(f, f, v) == v
    decreases f, 0
  {
    if f.ltype.Submessage? { ProjectItself(f.ptr.fields, v.m); }
  }

  /** The round trip: every normal message is encodable, and decoding its encoding gives it back. */
  lemma MessageRoundTrip(d: seq<Field>, m: Msg)
    requires WellFormed(d) && Normal(d, m)
    ensures MsgEncodable(d, m)
    ensures Decode(d, MsgBytes(d, m)) == Ok(m, [])
  {
    hide Decode, MsgBytes, Project, WellFormed, ViewOf, Normal, MsgEncodable;
    NormalEncodable(d, m);
    ViewOfItself(d);
    ForwardCompatible(d, d, m);
    ProjectItself(d, m);
  }

  /** The same through streams: what the encoder left in a large enough buffer decodes to the message. */
  lemma WrittenMessageReadsBack(d: seq<Field>, m: Msg, a: Output, b: Output, ok: bool)
    requires WellFormed(d) && Normal(d, m) && !a.sizing
    requires Encodes(a, b, ok, MsgEncodable(d, m), MsgBytes(d, m)) && a.count + |MsgBytes(d, m)| <= a.maxSize
    ensures ok && Decode(d, b.written[|a.written|..]) == Ok(m, [])
  {
    hide Decode, MsgBytes, MsgEncodable, WellFormed, Normal;
    MessageRoundTrip(d, m);
    assert b.written[|a.written|..] == MsgBytes(d, m);
  }

  /** Distinct messages have distinct encodings. */
  lemma EncodingInjective(d: seq<Field>, m1: Msg, m2: Msg)
    requires WellFormed(d) && Normal(d, m1) && Normal(d, m2) && MsgBytes(d, m1) == MsgBytes(d, m2)
    ensures m1 == m2
  {
    hide Decode, MsgBytes, WellFormed, Normal;
    MessageRoundTrip(d, m1);
    MessageRoundTrip(d, m2);
  }

  // ---------- Normal messages are accepted by the encoder ----------

  lemma {:induction false} NormalEncodable(d: seq<Field>, m: Msg)
    requires Normal(d, m) && WellFormed(d)
    ensures MsgEncodable(d, m)
    decreases d, 2
  {
    MsgEncodableAt(d, m);
    forall i | 0 <= i < |d| ensures SlotEncodable(d[i], SlotOf(m, d[i])) {
      NormalSlotEncodable(d, m, i);
    }
    hide SlotEncodable, SlotOf, Normal, WellFormed;
  }

  lemma {:induction false} NormalSlotEncodable(d: seq<Field>, m: Msg, i: nat)
    requires Normal(d, m) && WellFormed(d) && i < |d|
    ensures SlotEncodable(d[i], SlotOf(m, d[i]))
    decreases d, 1
  {
    var f, s := d[i], SlotOf(m, d[i]);
    NormalField(d, m, i);
    assert WellFormedField(f);
    if f.htype.Oneof? {
      if s.One? && s.which == f.tag {
        FindTagAt(d, i);
        assert NormalValue(f, s.v);
        hide FindTag, Normal, WellFormed, WellFormedField, NormalValue, ItemEncodable;
        NormalItemEncodable(f, s.v);
      }
    } else if f.htype.Repeated? {
      hide FindTag, Normal, WellFormed, WellFormedField, NormalValue, ItemEncodable;
      forall k | 0 <= k < |s.items| ensures ItemEncodable(f, s.items[k]) {
        assert NormalValue(f, s.items[k]);
        NormalItemEncodable(f, s.items[k]);
      }
    } else {
      hide FindTag, Normal, WellFormed, WellFormedField, NormalValue, ItemEncodable, ZeroValue, DefaultValue;
      if !(s.Opt? && !s.has) { NormalItemEncodable(f, s.v); }
    }
  }

  lemma {:induction false} NormalItemEncodable(f: Field, v: Value)
    requires NormalValue(f, v) && WellFormedField(f)
    ensures ItemEncodable(f, v)
    decreases f, 0
  {
    if f.ltype.Submessage? { NormalEncodable(f.ptr.fields, v.m); }
  }

  // ---------- A full string buffer ----------

  /**
   The encoder accepts a string that fills its buffer without a terminator; the decoder
   takes a string back exactly when the terminator fits.
   */
  lemma StringReadBack(f: Field, b: seq<byte>, tail: seq<byte>)
    requires f.ltype.String? && |b| <= f.dataSize <= PB_SIZE_MAX && forall k :: 0 <= k < |b| ==> b[k] != 0
    ensures ItemEncodable(f, VBytes(b))
    ensures ReadString(f, ItemBytes(f, VBytes(b)) + tail) == if |b| < f.dataSize then Ok(VBytes(b), tail) else Fail
  {
    CStringWhole(b, f.dataSize);
    assert ItemBytes(f, VBytes(b)) == LengthPrefixed(b);
    hide LengthPrefixed, CString, ItemBytes, ReadString;
    if |b| < f.dataSize {
      StringThrough(f, b, tail);
    } else {
      FullStringRejected(f, b, tail);
    }
  }

  lemma FullStringRejected(f: Field, b: seq<byte>, tail: seq<byte>)
    requires |b| == f.dataSize <= PB_SIZE_MAX
    ensures ReadString(f, LengthPrefixed(b) + tail).Fail?
  {
    hide ReadVarint32, ReadBytes, LengthPrefixed;
    SubstreamOfLengthPrefixed(b, tail);
  }

  // ---------- Streams of messages ----------

  /** Messages written back to back with pb_encode_delimited. */
  function DelimitedBytes(d: seq<Field>, ms: seq<Msg>): seq<byte> {
    if ms == [] then [] else LengthPrefixed(MsgBytes(d, ms[0])) + DelimitedBytes(d, ms[1..])
  }

  /** Reading n messages with pb_decode_delimited. */
  function DecodeStream(d: seq<Field>, n: nat, bs: seq<byte>): Parsed<seq<Msg>>
    decreases n
  {
    if n == 0 then Ok([], bs)
    else match DecodeDelimited(d, bs)
         case Fail => Fail
         case Ok(m, rest) =>
           match DecodeStream(d, n - 1, rest)
           case Fail => Fail
           case Ok(ms, rest') => Ok([m] + ms, rest')
  }

  lemma DelimitedOne(d': seq<Field>, d: seq<Field>, m: Msg, tail: seq<byte>)
    requires WellFormed(d) && WellFormed(d') && ViewOf(d', d) && Normal(d, m) && |MsgBytes(d, m)| < U32
    ensures DecodeDelimited(d', LengthPrefixed(MsgBytes(d, m)) + tail) == Ok(Project(d', d, m), tail)
  {
    hide Decode, MsgBytes, Project, WellFormed, ViewOf, Normal, LengthPrefixed, Substream;
    ForwardCompatible(d', d, m);
    SubstreamOfLengthPrefixed(MsgBytes(d, m), tail);
  }

  /** Delimited messages separate themselves: the same list is read back, leaving exactly the tail. */
  lemma {:induction false} DelimitedRoundTrip(d: seq<Field>, ms: seq<Msg>, tail: seq<byte>)
    requires WellFormed(d)
    requires forall m :: m in ms ==> Normal(d, m) && |MsgBytes(d, m)| < U32
    ensures DecodeStream(d, |ms|, DelimitedBytes(d, ms) + tail) == Ok(ms, tail)
  {
    hide MsgBytes, Project, WellFormed, ViewOf, Normal, LengthPrefixed, DecodeDelimited;
    if ms == [] {
      assert DelimitedBytes(d, ms) + tail == tail;
    } else {
      var m, others := ms[0], DelimitedBytes(d, ms[1..]);
      assert DelimitedBytes(d, ms) + tail == LengthPrefixed(MsgBytes(d, m)) + (others + tail);
      ViewOfItself(d);
      ProjectItself(d, m);
      DelimitedOne(d, d, m, others + tail);
      DelimitedRoundTrip(d, ms[1..], tail);
      assert [m] + ms[1..] == ms;
    }
  }

  /** A zero byte ends a message: what follows it is left unread. */
  lemma NullTerminatedRoundTrip(d: seq<Field>, m: Msg, tail: seq<byte>)
    requires WellFormed(d) && Normal(d, m)
    ensures Decode(d, MsgBytes(d, m) + [0] + tail) == Ok(m, tail)
  {
    hide MsgBytes, Accepts, Project, Defaults, Run, WellFormed, Normal, ViewOf;
    ViewOfItself(d);
    ProjectItself(d, m);
    var st := WholeMessageThrough(d, d, m, [0] + tail);
    assert MsgBytes(d, m) + [0] + tail == MsgBytes(d, m) + ([0] + tail);
    ZeroTagStops(d, st, tail);
  }

  lemma ZeroTagStops(d: seq<Field>, st: State, tail: seq<byte>)
    ensures Run(d, st, [0] + tail) == Done(st, tail, true)
  {
    var bs := [0] + tail;
    assert EncVarint(0) == [0];
    Varint32RoundTrip(0, tail);
    hide ReadVarint32, EncVarint, ReadIntoEmpty, SkipField, ReadField, FindTag;
    assert ReadTag(bs) == Stop(tail);
    assert Step(d, st, bs) == Done(st, tail, true);
  }
}
