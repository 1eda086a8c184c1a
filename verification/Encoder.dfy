/**
 The message encoder of pb_encode.c. Each method writes to its stream and is proved against
 the functions of module Encoding: it succeeds exactly when the message is encodable and
 its bytes fit, and then appends exactly those bytes.
 */
module Encoder {
  import opened Bits
  import opened Varint
  import opened Descriptor
  import opened FieldIterator
  import opened Scalars
  import opened Encoding
  import opened OutputStream

  // ---------- Scalars ----------

  /** The entries of PB_ENCODERS for the scalar types. */
  method EncScalar(s: OStream, f: Field, n: int) returns (ok: bool)
    requires s.Valid() && Packable(f.ltype)
    modifies s, s.buf
    ensures s.Valid() && Encodes(old(s.Now()), s.Now(), ok, ScalarEncodable(f.ltype, f.dataSize),
            ScalarBytes(f.ltype, n))
  {
    hide Encodes, EncVarint, LittleEndian, CastUnsigned, ZigZag;
    if f.ltype.Bool? {
      ok := s.EncodeVarint(if n != 0 then 1 else 0);
    } else if f.ltype.Fixed32? {
      ok := s.EncodeFixed(CastUnsigned(n, 4), 4);
    } else if f.ltype.Fixed64? {
      ok := s.EncodeFixed(CastUnsigned(n, 8), 8);
    } else if !IntSize(f.dataSize) {
      ok := false;
      Refused(s.Now(), ScalarBytes(f.ltype, n));
    } else if f.ltype.SInt? {
      ok := s.EncodeSvarint(n);
    } else {
      FitsWord(n);
      ok := s.EncodeVarint(CastUnsigned(n, 8));
    }
  }

  lemma FitsWord(n: int)
    ensures CastUnsigned(n, 8) < U64
  {
  }

  // ---------- Byte arrays and strings ----------

  /** pb_enc_bytes. */
  method EncBytes(s: OStream, f: Field, v: Value) returns (ok: bool)
    requires s.Valid() && f.ltype.Bytes?
    modifies s, s.buf
    ensures s.Valid() && Encodes(old(s.Now()), s.Now(), ok, ItemEncodable(f, v), ItemBytes(f, v))
  {
    if !v.VBytes? { return false; }
    var allocSize := |v.b| + BYTES_OFFSET;
    if allocSize > f.dataSize { return false; }
    hide Encodes, LengthPrefixed;
    ok := s.EncodeString(v.b);
  }

  /** pb_enc_string: the length is found by a bounded search for the terminator. */
  method EncString(s: OStream, f: Field, v: Value) returns (ok: bool)
    requires s.Valid() && f.ltype.String?
    modifies s, s.buf
    ensures s.Valid() && Encodes(old(s.Now()), s.Now(), ok, ItemEncodable(f, v), ItemBytes(f, v))
  {
    hide Encodes, LengthPrefixed, CString;
    if !v.VBytes? {
      Refused(s.Now(), ItemBytes(f, v));
      return false;
    }
    var size := CStringLength(v.b, f.dataSize);
    ok := s.EncodeString(v.b[..size]);
  }

  /** The search of pb_enc_string. */
  method CStringLength(b: seq<byte>, max: nat) returns (size: nat)
    ensures size <= |b| && b[..size] == CString(b, max)
  {
    size := 0;
    while size < max && size < |b| && b[size] != 0
      invariant size <= max && size <= |b|
      invariant forall k :: 0 <= k < size ==> b[k] != 0
    {
      size := size + 1;
    }
    CStringEnds(b, max, size);
  }

  /** pb_enc_fixed_length_bytes. */
  method EncFixedLengthBytes(s: OStream, f: Field, v: Value) returns (ok: bool)
    requires s.Valid() && f.ltype.FixedLengthBytes?
    modifies s, s.buf
    ensures s.Valid() && Encodes(old(s.Now()), s.Now(), ok, ItemEncodable(f, v), ItemBytes(f, v))
  {
    if !v.VBytes? || |v.b| != f.dataSize { return false; }
    hide Encodes, LengthPrefixed;
    ok := s.EncodeString(v.b[..f.dataSize]);
  }

  // ---------- The zero check of proto3 fields ----------

  /** pb_check_proto3_default_value. */
  method CheckDefault(f: Field, s: Slot) returns (zero: bool)
    requires WellFormedField(f)
    ensures zero == ZeroSlot(f, s)
    decreases f, 1
  {
    hide ZeroValue, WellFormedField;
    if f.htype.Required? { return false; }
    if f.htype.Repeated? { return f.sizeOffset != 0 && s == Arr([]); }
    if f.htype.Oneof? { return s.OneNone?; }
    if f.sizeOffset != 0 { return s.Opt? && !s.has; }
    if !s.Single? { return false; }
    zero := CheckValue(f, s.v);
  }

  /** Its second half, on the memory of the value. */
  method CheckValue(f: Field, v: Value) returns (zero: bool)
    requires WellFormedField(f)
    ensures zero == ZeroValue(f, v)
    decreases f, 0
  {
    hide ZeroMsg;
    if f.ltype.Bytes? { return v.VBytes? && v.b == []; }
    if f.ltype.String? { return v.VBytes? && (v.b == [] || v.b[0] == 0); }
    if f.ltype.FixedLengthBytes? { return f.dataSize == 0; }
    if f.ltype.Submessage? {
      zero := true;
      if f.ptr.Sub? && v.VMsg? { zero := CheckMessage(f.ptr.fields, v.m); }
    } else {
      zero := v == VInt(0);
    }
  }

  /** The loop over a submessage's fields. */
  method CheckMessage(d: seq<Field>, m: Msg) returns (zero: bool)
    requires WellFormed(d)
    ensures zero == ZeroMsg(d, m)
    decreases d, 2
  {
    hide ZeroSlot, WellFormedField, SlotOf;
    var iter := new FieldIter(d);
    var more := iter.Begin();
    while more
      invariant iter.Valid() && iter.start == d
      invariant ZeroMsg(d, m) == if more then ZeroMsg(d[iter.pos..], m) else true
      decreases more, |d| - iter.pos
    {
      var i := iter.pos;
      assert d[i..][0] == d[i] && d[i..][1..] == d[i + 1..];
      var slotZero := CheckDefault(d[i], SlotOf(m, d[i]));
      if !slotZero { return false; }
      more := iter.Next();
    }
    zero := true;
  }

  // ---------- Packed arrays ----------

  predicate AllInts(items: seq<Value>) {
    forall k :: 0 <= k < |items| ==> items[k].VInt?
  }

  /** The value encoder applied to one item after another, for sizing as well as for writing. */
  method EncScalars(s: OStream, f: Field, items: seq<Value>) returns (ok: bool)
    requires s.Valid() && Packable(f.ltype) && items != [] && AllInts(items)
    modifies s, s.buf
    ensures s.Valid() && Encodes(old(s.Now()), s.Now(), ok, ScalarEncodable(f.ltype, f.dataSize),
            PackedBytes(f.ltype, items))
  {
    hide Encodes, ScalarBytes, ScalarEncodable, Packable;
    ghost var a := s.Now();
    ghost var done: seq<byte> := [];
    ghost var acc := true;
    EncodesNothing(a);
    for i := 0 to |items|
      invariant s.Valid() && Encodes(a, s.Now(), true, acc, done)
      invariant acc == (i == 0 || ScalarEncodable(f.ltype, f.dataSize))
      invariant PackedBytes(f.ltype, items) == done + PackedBytes(f.ltype, items[i..])
    {
      ghost var b, item := s.Now(), ScalarBytes(f.ltype, items[i].n);
      PackedNext(f.ltype, items, i);
      ok := EncScalar(s, f, items[i].n);
      EncodesBoth(a, b, s.Now(), true, ok, acc, done, ScalarEncodable(f.ltype, f.dataSize), item);
      acc, done := acc && ScalarEncodable(f.ltype, f.dataSize), done + item;
      assert done + PackedBytes(f.ltype, items[i + 1..]) == PackedBytes(f.ltype, items);
      if !ok {
        FailsEarly(a, s.Now(), acc, done, acc, PackedBytes(f.ltype, items[i + 1..]));
        return;
      }
    }
    assert items[|items|..] == [] && done + [] == done;
    ok := true;
  }

  lemma PackedNext(t: LType, items: seq<Value>, i: nat)
    requires i < |items| && items[i].VInt?
    ensures PackedBytes(t, items[i..]) == ScalarBytes(t, items[i].n) + PackedBytes(t, items[i + 1..])
  {
    assert items[i..][1..] == items[i + 1..];
  }

  /** The size of the packed contents: computed for fixed widths, otherwise by a sizing stream. */
  method PackedSize(f: Field, items: seq<Value>) returns (ok: bool, size: nat)
    requires Packable(f.ltype) && items != [] && AllInts(items)
    ensures ok == ScalarEncodable(f.ltype, f.dataSize)
    ensures ok ==> size == |PackedBytes(f.ltype, items)|
  {
    ok, size := true, 0;
    if f.ltype.Fixed32? {
      FixedWidthArray(f.ltype, items, 4);
      return true, 4 * |items|;
    }
    if f.ltype.Fixed64? {
      FixedWidthArray(f.ltype, items, 8);
      return true, 8 * |items|;
    }
    hide ScalarEncodable, PackedBytes;
    var sizing := new OStream.Sizing();
    ok := EncScalars(sizing, f, items);
    size := sizing.bytesWritten;
  }

  lemma {:induction false} FixedWidthArray(t: LType, items: seq<Value>, width: nat)
    requires AllInts(items) && ((t == Fixed32 && width == 4) || (t == Fixed64 && width == 8))
    ensures |PackedBytes(t, items)| == width * |items|
  {
    hide ScalarBytes;
    if items != [] {
      FixedWidth(t, items[0].n);
      FixedWidthArray(t, items[1..], width);
    }
  }

  /** The payload of an array whose size is known: counted on a sizing stream, written otherwise. */
  method PackedData(s: OStream, f: Field, items: seq<Value>, size: nat) returns (ok: bool)
    requires s.Valid() && Packable(f.ltype) && items != [] && AllInts(items)
    requires ScalarEncodable(f.ltype, f.dataSize) && size == |PackedBytes(f.ltype, items)|
    modifies s, s.buf
    ensures s.Valid() && Encodes(old(s.Now()), s.Now(), ok, true, PackedBytes(f.ltype, items))
  {
    hide PackedBytes, ScalarEncodable, Packable;
    if s.buf == null {
      s.Count(size);
      return true;
    }
    ok := EncScalars(s, f, items);
  }

  /** Length and payload. */
  method PackedContents(s: OStream, f: Field, items: seq<Value>) returns (ok: bool)
    requires s.Valid() && Packable(f.ltype) && items != [] && AllInts(items)
    modifies s, s.buf
    ensures s.Valid()
    ensures Encodes(old(s.Now()), s.Now(), ok, ScalarEncodable(f.ltype, f.dataSize),
            LengthPrefixed(PackedBytes(f.ltype, items)))
  {
    hide Encodes, PackedBytes, EncVarint, ScalarEncodable, Packable;
    ghost var a, payload := s.Now(), PackedBytes(f.ltype, items);
    var sized, size := PackedSize(f, items);
    if !sized {
      Refused(a, LengthPrefixed(payload));
      return false;
    }
    var first := s.EncodeVarint(size % U64);
    ghost var b := s.Now();
    ok := first;
    if first { ok := PackedData(s, f, items, size); }
    EncodesBoth(a, b, s.Now(), first, ok, true, EncVarint(|payload| % U64), true, payload);
  }

  /** The packed branch of encode_array. */
  method EncodePacked(s: OStream, f: Field, items: seq<Value>) returns (ok: bool)
    requires s.Valid() && Packable(f.ltype) && items != [] && AllInts(items) && f.tag < U32
    modifies s, s.buf
    ensures s.Valid() && Encodes(old(s.Now()), s.Now(), ok, ScalarEncodable(f.ltype, f.dataSize), ArrayBytes(f, items))
  {
    hide Encodes, PackedBytes, LengthPrefixed, TagBytes, ScalarEncodable, UnpackedBytes;
    ghost var a := s.Now();
    var first := s.EncodeTag(WT_STRING, f.tag);
    ghost var b := s.Now();
    ok := first;
    if first { ok := PackedContents(s, f, items); }
    EncodesBoth(a, b, s.Now(), first, ok, true, TagBytes(f.tag, WT_STRING),
                ScalarEncodable(f.ltype, f.dataSize), LengthPrefixed(PackedBytes(f.ltype, items)));
  }

  // ---------- One value ----------

  /** The entry of PB_ENCODERS for the field's type. */
  method EncItem(s: OStream, f: Field, v: Value) returns (ok: bool)
    requires s.Valid() && WellFormedField(f)
    modifies s, s.buf
    ensures s.Valid() && Encodes(old(s.Now()), s.Now(), ok, ItemEncodable(f, v), ItemBytes(f, v))
    decreases f, 0
  {
    hide Encodes, MsgEncodable, MsgBytes, LengthPrefixed, ScalarBytes, ScalarEncodable, WellFormed;
    if f.ltype.Bytes? {
      ok := EncBytes(s, f, v);
    } else if f.ltype.String? {
      ok := EncString(s, f, v);
    } else if f.ltype.FixedLengthBytes? {
      ok := EncFixedLengthBytes(s, f, v);
    } else if f.ltype.Submessage? {
      if !f.ptr.Sub? || !v.VMsg? {
        Refused(s.Now(), ItemBytes(f, v));
        return false;
      }
      ok := EncodeSubmessage(s, f.ptr.fields, v.m);
    } else if !v.VInt? {
      Refused(s.Now(), ItemBytes(f, v));
      return false;
    } else {
      ok := EncScalar(s, f, v.n);
    }
  }

  /**
   pb_encode_submessage: measure with a sizing stream, write the length, then write into an exactly
   sized substream.
   */
  method EncodeSubmessage(s: OStream, d: seq<Field>, m: Msg) returns (ok: bool)
    requires s.Valid() && WellFormed(d)
    modifies s, s.buf
    ensures s.Valid() && Encodes(old(s.Now()), s.Now(), ok, MsgEncodable(d, m), LengthPrefixed(MsgBytes(d, m)))
    decreases d, 6
  {
    hide Encodes, MsgEncodable, MsgBytes, EncVarint, WellFormed;
    ghost var a, payload := s.Now(), MsgBytes(d, m);
    var sizing := new OStream.Sizing();
    ghost var empty := sizing.Now();
    ok := EncodeMessage(sizing, d, m);
    SizingSucceeds(empty, sizing.Now(), ok, MsgEncodable(d, m), payload);
    if !ok {
      Refused(a, LengthPrefixed(payload));
      return;
    }
    var size := sizing.bytesWritten;
    var first := s.EncodeVarint(size % U64);
    ghost var b := s.Now();
    ok := first;
    if first { ok := EncodePayload(s, d, m, size); }
    EncodesBoth(a, b, s.Now(), first, ok, true, EncVarint(|payload| % U64), true, payload);
  }

  /** The sizing pass accepts exactly what a writing pass with enough room accepts, and counts what it would write. */
  lemma SizingSucceeds(a: Output, b: Output, ok: bool, acc: bool, bytes: seq<byte>)
    requires a.sizing && a.count == 0 && Encodes(a, b, ok, acc, bytes)
    ensures ok == acc && (ok ==> b.count == |bytes|)
  {
  }

  /** The second pass. The comparison with the first pass's size cannot fail. */
  method EncodePayload(s: OStream, d: seq<Field>, m: Msg, size: nat) returns (ok: bool)
    requires s.Valid() && WellFormed(d) && MsgEncodable(d, m) && size == |MsgBytes(d, m)|
    modifies s, s.buf
    ensures s.Valid() && Encodes(old(s.Now()), s.Now(), ok, true, MsgBytes(d, m))
    decreases d, 5
  {
    hide MsgEncodable, MsgBytes, WellFormed;
    if s.buf == null {
      s.Count(size);
      return true;
    }
    if s.bytesWritten + size > s.maxSize { return false; }
    var sub := new OStream.Limited(s.buf, s.state, size);
    var status := EncodeMessage(sub, d, m);
    assert s.buf[s.End()..] == s.buf[sub.End()..][s.End() - sub.End()..];
    s.bytesWritten := s.bytesWritten + sub.bytesWritten;
    s.state := sub.state;
    assert sub.bytesWritten == size;
    ok := status && sub.bytesWritten == size;
  }

  // ---------- Fields ----------

  /** A tag and a value. */
  method EncodeTagged(s: OStream, f: Field, v: Value) returns (ok: bool)
    requires s.Valid() && WellFormedField(f)
    modifies s, s.buf
    ensures s.Valid() && Encodes(old(s.Now()), s.Now(), ok, ItemEncodable(f, v), FieldTag(f) + ItemBytes(f, v))
    decreases f, 1
  {
    hide Encodes, ItemEncodable, ItemBytes, TagBytes, WellFormed;
    ghost var a := s.Now();
    var first := s.EncodeTag(WireType(f.ltype), f.tag);
    ghost var b := s.Now();
    ok := first;
    if first { ok := EncItem(s, f, v); }
    EncodesBoth(a, b, s.Now(), first, ok, true, FieldTag(f), ItemEncodable(f, v), ItemBytes(f, v));
  }

  ghost predicate ItemsEncodable(f: Field, items: seq<Value>) {
    forall k :: 0 <= k < |items| ==> ItemEncodable(f, items[k])
  }

  /** The unpacked branch of encode_array. */
  method EncodeUnpacked(s: OStream, f: Field, items: seq<Value>) returns (ok: bool)
    requires s.Valid() && WellFormedField(f)
    modifies s, s.buf
    ensures s.Valid() && Encodes(old(s.Now()), s.Now(), ok, ItemsEncodable(f, items), UnpackedBytes(f, items))
    decreases f, 2
  {
    hide Encodes, ItemEncodable, ItemBytes, WellFormedField, FieldTag;
    ghost var a := s.Now();
    ghost var done: seq<byte> := [];
    EncodesNothing(a);
    for i := 0 to |items|
      invariant s.Valid() && Encodes(a, s.Now(), true, true, done)
      invariant forall k :: 0 <= k < i ==> ItemEncodable(f, items[k])
      invariant UnpackedBytes(f, items) == done + UnpackedBytes(f, items[i..])
    {
      ghost var b, item := s.Now(), FieldTag(f) + ItemBytes(f, items[i]);
      UnpackedNext(f, items, i);
      ok := EncodeTagged(s, f, items[i]);
      EncodesBoth(a, b, s.Now(), true, ok, true, done, ItemEncodable(f, items[i]), item);
      done := done + item;
      assert done + UnpackedBytes(f, items[i + 1..]) == UnpackedBytes(f, items);
      if !ok {
        FailsEarly(a, s.Now(), ItemEncodable(f, items[i]), done, ItemsEncodable(f, items),
            UnpackedBytes(f, items[i + 1..]));
        return;
      }
      EncodesAccepted(a, s.Now(), ItemEncodable(f, items[i]), done);
    }
    assert items[|items|..] == [] && done + [] == done;
    ok := true;
  }

  lemma EncodesAccepted(a: Output, b: Output, acc: bool, bytes: seq<byte>)
    requires Encodes(a, b, true, acc, bytes)
    ensures acc && Encodes(a, b, true, true, bytes)
  {
  }

  lemma UnpackedNext(f: Field, items: seq<Value>, i: nat)
    requires i < |items|
    ensures UnpackedBytes(f, items[i..]) == FieldTag(f) + ItemBytes(f, items[i]) + UnpackedBytes(f, items[i + 1..])
  {
    hide ItemBytes, FieldTag;
    assert items[i..][1..] == items[i + 1..];
  }

  /** encode_array. */
  method EncodeArray(s: OStream, f: Field, items: seq<Value>) returns (ok: bool)
    requires s.Valid() && WellFormedField(f)
    modifies s, s.buf
    ensures s.Valid()
    ensures Encodes(old(s.Now()), s.Now(), ok, |items| <= f.arraySize && ItemsEncodable(f, items), ArrayBytes(f, items))
    decreases f, 3
  {
    hide Encodes, ItemEncodable, UnpackedBytes, PackedBytes, LengthPrefixed, TagBytes, WellFormed;
    ghost var a := s.Now();
    if |items| == 0 {
      EncodesNothing(a);
      return true;
    }
    if |items| > f.arraySize {
      Refused(a, ArrayBytes(f, items));
      return false;
    }
    if !Packable(f.ltype) {
      ok := EncodeUnpacked(s, f, items);
      return;
    }
    PackedEncodable(f, items);
    if !AllInts(items) {
      Refused(a, ArrayBytes(f, items));
      return false;
    }
    ok := EncodePacked(s, f, items);
  }

  /** Whether a packed array is accepted depends on the item size only. */
  lemma PackedEncodable(f: Field, items: seq<Value>)
    requires Packable(f.ltype) && items != []
    ensures ItemsEncodable(f, items) <==> AllInts(items) && ScalarEncodable(f.ltype, f.dataSize)
  {
    hide ScalarEncodable;
    assert forall k :: 0 <= k < |items| ==> (ItemEncodable(f, items[k])
        <==> items[k].VInt? && ScalarEncodable(f.ltype, f.dataSize));
    if ItemsEncodable(f, items) { assert ItemEncodable(f, items[0]); }
  }

  /** encode_basic_field. */
  method EncodeField(s: OStream, f: Field, slot: Slot) returns (ok: bool)
    requires s.Valid() && WellFormedField(f)
    modifies s, s.buf
    ensures s.Valid() && Encodes(old(s.Now()), s.Now(), ok, SlotEncodable(f, slot), SlotBytes(f, slot))
    decreases f, 4
  {
    hide Encodes, ItemEncodable, ItemBytes, ArrayBytes, ZeroValue, FieldTag, WellFormedField;
    if f.htype.Repeated? {
      if !slot.Arr? || (f.sizeOffset == 0 && |slot.items| != f.arraySize) {
        Refused(s.Now(), SlotBytes(f, slot));
        return false;
      }
      ok := EncodeArray(s, f, slot.items);
      return;
    }
    if !SlotFits(f, slot) {
      Refused(s.Now(), SlotBytes(f, slot));
      return false;
    }
    var present := true;
    if f.htype.Optional? {
      if f.sizeOffset != 0 {
        present := slot.has;
      } else {
        var zero := CheckDefault(f, slot);
        present := !zero;
      }
    } else if f.htype.Oneof? {
      present := slot.One? && slot.which == f.tag;
    }
    if !present {
      EncodesNothing(s.Now());
      return true;
    }
    ok := EncodeTagged(s, f, slot.v);
  }

  /** The struct member of a field that is not repeated. */
  predicate SlotFits(f: Field, slot: Slot) {
    if f.htype.Oneof? then slot.OneNone? || slot.One?
    else if f.htype.Optional? && f.sizeOffset != 0 then slot.Opt?
    else slot.Single?
  }

  // ---------- Messages ----------

  /** pb_encode. */
  method EncodeMessage(s: OStream, d: seq<Field>, m: Msg) returns (ok: bool)
    requires s.Valid() && WellFormed(d)
    modifies s, s.buf
    ensures s.Valid() && Encodes(old(s.Now()), s.Now(), ok, MsgEncodable(d, m), MsgBytes(d, m))
    decreases d, 4
  {
    hide Encodes, SlotEncodable, SlotBytes, SlotOf, MsgBytes;
    hide MsgEncodable, WellFormedField, DataAt, SizeAt, RequiredBefore;
    ghost var a := s.Now();
    EncodesNothing(a);
    var iter := new FieldIter(d);
    var more := iter.Begin();
    ghost var done: seq<byte> := [];
    MsgStart(d, m);
    while more
      invariant iter.Valid() && iter.start == d && s.Valid()
      invariant Encodes(a, s.Now(), true, true, done)
      invariant Remaining(d, m, if more then iter.pos else |d|, done)
      decreases more, |d| - iter.pos
    {
      ghost var b := s.Now();
      var f, slot := d[iter.pos], SlotOf(m, d[iter.pos]);
      ok := EncodeField(s, f, slot);
      EncodesBoth(a, b, s.Now(), true, ok, true, done, SlotEncodable(f, slot), SlotBytes(f, slot));
      MsgNext(d, m, iter.pos, done, a, s.Now(), ok);
      if !ok { return; }
      done := done + SlotBytes(f, slot);
      more := iter.Next();
    }
    MsgEnd(d, m, done);
    ok := true;
  }

  /** After the fields before i are written: `done` is their bytes, and they were all acceptable. */
  ghost predicate Remaining(d: seq<Field>, m: Msg, i: nat, done: seq<byte>) {
    && i <= |d|
    && MsgBytes(d, m) == done + MsgBytes(d[i..], m)
    && (MsgEncodable(d, m) <==> MsgEncodable(d[i..], m))
  }

  lemma MsgStart(d: seq<Field>, m: Msg)
    ensures Remaining(d, m, 0, [])
  {
    hide MsgBytes, MsgEncodable;
    assert d[0..] == d;
  }

  lemma MsgEnd(d: seq<Field>, m: Msg, done: seq<byte>)
    requires Remaining(d, m, |d|, done)
    ensures MsgBytes(d, m) == done && MsgEncodable(d, m)
  {
    assert d[|d|..] == [];
  }

  lemma MsgNext(d: seq<Field>, m: Msg, i: nat, done: seq<byte>, a: Output, b: Output, ok: bool)
    requires i < |d| && Remaining(d, m, i, done)
    requires Encodes(a, b, ok, SlotEncodable(d[i], SlotOf(m, d[i])), done + SlotBytes(d[i], SlotOf(m, d[i])))
    ensures ok ==> Encodes(a, b, true, true, done + SlotBytes(d[i], SlotOf(m, d[i])))
    ensures ok ==> Remaining(d, m, i + 1, done + SlotBytes(d[i], SlotOf(m, d[i])))
    ensures !ok ==> Encodes(a, b, false, MsgEncodable(d, m), MsgBytes(d, m))
  {
    hide SlotEncodable, SlotBytes, SlotOf, Encodes;
    var acc, item := SlotEncodable(d[i], SlotOf(m, d[i])), SlotBytes(d[i], SlotOf(m, d[i]));
    MsgSplit(d, m, i);
    hide MsgBytes, MsgEncodable;
    assert (done + item) + MsgBytes(d[i + 1..], m) == MsgBytes(d, m);
    if ok {
      EncodesAccepted(a, b, acc, done + item);
    } else {
      FailsEarly(a, b, acc, done + item, MsgEncodable(d, m), MsgBytes(d[i + 1..], m));
    }
  }

  lemma MsgSplit(d: seq<Field>, m: Msg, i: nat)
    requires i < |d|
    ensures MsgBytes(d[i..], m) == SlotBytes(d[i], SlotOf(m, d[i])) + MsgBytes(d[i + 1..], m)
    ensures MsgEncodable(d[i..], m) <==> SlotEncodable(d[i], SlotOf(m, d[i])) && MsgEncodable(d[i + 1..], m)
  {
    hide SlotEncodable, SlotBytes, SlotOf;
    assert d[i..][0] == d[i] && d[i..][1..] == d[i + 1..];
  }

  // ---------- Entry points ----------

  /** pb_encode_delimited. */
  method EncodeDelimited(s: OStream, d: seq<Field>, m: Msg) returns (ok: bool)
    requires s.Valid() && WellFormed(d)
    modifies s, s.buf
    ensures s.Valid() && Encodes(old(s.Now()), s.Now(), ok, MsgEncodable(d, m), LengthPrefixed(MsgBytes(d, m)))
  {
    hide Encodes, MsgEncodable, MsgBytes, LengthPrefixed, WellFormed;
    ok := EncodeSubmessage(s, d, m);
  }

  /** pb_encode_nullterminated. */
  method EncodeNullterminated(s: OStream, d: seq<Field>, m: Msg) returns (ok: bool)
    requires s.Valid() && WellFormed(d)
    modifies s, s.buf
    ensures s.Valid() && Encodes(old(s.Now()), s.Now(), ok, MsgEncodable(d, m), MsgBytes(d, m) + [0])
  {
    hide Encodes, MsgEncodable, MsgBytes, WellFormed;
    ghost var a := s.Now();
    var first := EncodeMessage(s, d, m);
    ghost var b := s.Now();
    ok := first;
    if first { ok := s.Write([0]); }
    EncodesBoth(a, b, s.Now(), first, ok, MsgEncodable(d, m), MsgBytes(d, m), true, [0]);
  }

  /** pb_get_encoded_size. */
  method GetEncodedSize(d: seq<Field>, m: Msg) returns (ok: bool, size: nat)
    requires WellFormed(d)
    ensures ok == MsgEncodable(d, m)
    ensures ok ==> size == |MsgBytes(d, m)|
  {
    hide Encodes, MsgEncodable, MsgBytes, WellFormed;
    var stream := new OStream.Sizing();
    ghost var empty := stream.Now();
    ok := EncodeMessage(stream, d, m);
    SizingSucceeds(empty, stream.Now(), ok, MsgEncodable(d, m), MsgBytes(d, m));
    size := stream.bytesWritten;
  }
}
