/**
 The message decoder of pb_decode.c. Each method advances its stream and is proved against
 the function of module Decoding that says what the consumed bytes mean.
 */
module Decoder {
  import opened Bits
  import opened Varint
  import opened Wrappers
  import opened Descriptor
  import opened FieldIterator
  import opened Scalars
  import opened Encoding
  import opened Decoding
  import opened InputStream
  import Records
  import opened RequiredFields

  // ---------- Scalars ----------

  /** pb_dec_varint. */
  method DecVarint(s: IStream, f: Field) returns (ok: bool, n: int)
    requires s.Valid()
    modifies s
    ensures s.Moved(ok)
    ensures var p := ReadScalar(Int, f.dataSize, old(s.Rest()));
            ok == p.Ok? && (ok ==> n == p.value && s.Rest() == p.rest)
  {
    hide ReadVarint64, CastSigned;
    var value: nat;
    ok, value := s.DecodeVarint();
    if !ok { return false, 0; }
    var svalue := if f.dataSize == 8 then CastSigned(value, 8) else CastSigned(value, 4);
    if !IntSize(f.dataSize) { return false, 0; }
    var clamped := CastSigned(svalue, f.dataSize);
    if clamped != svalue { return false, 0; }
    n := svalue;
  }

  /** pb_dec_uvarint. */
  method DecUvarint(s: IStream, f: Field) returns (ok: bool, n: int)
    requires s.Valid()
    modifies s
    ensures s.Moved(ok)
    ensures var p := ReadScalar(UInt, f.dataSize, old(s.Rest()));
            ok == p.Ok? && (ok ==> n == p.value && s.Rest() == p.rest)
  {
    hide ReadVarint64, CastUnsigned;
    var value: nat;
    ok, value := s.DecodeVarint();
    if !ok || !IntSize(f.dataSize) { return false, 0; }
    var clamped := CastUnsigned(value, f.dataSize);
    if clamped != value { return false, 0; }
    n := value;
  }

  /** pb_dec_svarint. */
  method DecSvarint(s: IStream, f: Field) returns (ok: bool, n: int)
    requires s.Valid()
    modifies s
    ensures s.Moved(ok)
    ensures var p := ReadScalar(SInt, f.dataSize, old(s.Rest()));
            ok == p.Ok? && (ok ==> n == p.value && s.Rest() == p.rest)
  {
    hide ReadVarint64, CastSigned, UnZigZag;
    ok, n := s.DecodeSvarint();
    if !ok || !IntSize(f.dataSize) { return false, 0; }
    var clamped := CastSigned(n, f.dataSize);
    if clamped != n { return false, 0; }
  }

  /** pb_dec_bool. */
  method DecBool(s: IStream, f: Field) returns (ok: bool, n: int)
    requires s.Valid()
    modifies s
    ensures s.Moved(ok)
    ensures var p := ReadScalar(Bool, f.dataSize, old(s.Rest()));
            ok == p.Ok? && (ok ==> n == p.value && s.Rest() == p.rest)
  {
    hide ReadVarint32;
    var value: nat;
    var eof: bool;
    ok, value, eof := s.DecodeVarint32();
    n := if value != 0 then 1 else 0;
  }

  /** The entries of PB_DECODERS for the scalar types. */
  method DecScalar(s: IStream, f: Field) returns (ok: bool, n: int)
    requires s.Valid()
    modifies s
    ensures s.Moved(ok)
    ensures var p := ReadScalar(f.ltype, f.dataSize, old(s.Rest()));
            ok == p.Ok? && (ok ==> n == p.value && s.Rest() == p.rest)
  {
    match f.ltype {
      case Bool => ok, n := DecBool(s, f);
      case Int => ok, n := DecVarint(s, f);
      case UInt => ok, n := DecUvarint(s, f);
      case SInt => ok, n := DecSvarint(s, f);
      case Fixed32 =>
        hide FromLittleEndian, ReadBytes;
        ok, n := s.DecodeFixed(4);
      case Fixed64 =>
        hide FromLittleEndian, ReadBytes;
        ok, n := s.DecodeFixed(8);
      case _ => ok, n := false, 0;
    }
  }

  // ---------- Byte arrays and strings ----------

  /** pb_dec_bytes. */
  method DecBytes(s: IStream, f: Field) returns (ok: bool, v: Value)
    requires s.Valid()
    modifies s
    ensures s.Moved(ok)
    ensures var p := ReadByteArray(f, old(s.Rest())); ok == p.Ok? && (ok ==> v == p.value && s.Rest() == p.rest)
  {
    hide ReadVarint32, ReadBytes;
    v := Undefined;
    var size: nat;
    var eof: bool;
    ok, size, eof := s.DecodeVarint32();
    if !ok { return; }
    var allocSize := size + BYTES_OFFSET;
    if allocSize > f.dataSize { return false, v; }
    var bytes: seq<byte>;
    ok, bytes := s.Read(size);
    v := VBytes(bytes);
  }

  /** pb_dec_string. */
  method DecString(s: IStream, f: Field) returns (ok: bool, v: Value)
    requires s.Valid()
    modifies s
    ensures s.Moved(ok)
    ensures var p := ReadString(f, old(s.Rest())); ok == p.Ok? && (ok ==> v == p.value && s.Rest() == p.rest)
  {
    hide ReadVarint32, ReadBytes;
    v := Undefined;
    var size: nat;
    var eof: bool;
    ok, size, eof := s.DecodeVarint32();
    if !ok { return; }
    var allocSize := (size + 1) % U32;
    if allocSize < size { return false, v; }
    if allocSize > f.dataSize { return false, v; }
    var bytes: seq<byte>;
    ok, bytes := s.Read(size);
    v := VBytes(bytes);
  }

  /** pb_dec_fixed_length_bytes. */
  method DecFixedLengthBytes(s: IStream, f: Field) returns (ok: bool, v: Value)
    requires s.Valid()
    modifies s
    ensures s.Moved(ok)
    ensures var p := ReadFixedBytes(f, old(s.Rest())); ok == p.Ok? && (ok ==> v == p.value && s.Rest() == p.rest)
  {
    hide ReadVarint32, ReadBytes;
    v := Undefined;
    var size: nat;
    var eof: bool;
    ok, size, eof := s.DecodeVarint32();
    if !ok { return; }
    if size == 0 { return true, VBytes(Zeros(f.dataSize)); }
    if size != f.dataSize { return false, v; }
    var bytes: seq<byte>;
    ok, bytes := s.Read(size);
    v := VBytes(bytes);
  }

  // ---------- Defaults ----------

  /** pb_message_set_to_defaults. */
  method MessageSetToDefaults(d: seq<Field>) returns (m: Msg)
    ensures m == Defaults(d)
    decreases d, 1
  {
    m := map[];
    var iter := new FieldIter(d);
    var more := iter.Begin();
    while more
      invariant iter.Valid() && iter.start == d
      invariant more ==> iter.pos < |d| && m == DefaultsUpTo(d, iter.pos)
      invariant !more ==> m == DefaultsUpTo(d, |d|)
      decreases more, |d| - iter.pos
    {
      var i := iter.pos;
      var slot := FieldSetToDefault(d[i]);
      m := m[KeyOf(d[i]) := slot];
      more := iter.Next();
    }
  }

  /** pb_field_set_to_default. */
  method FieldSetToDefault(f: Field) returns (s: Slot)
    ensures s == DefaultSlot(f)
    decreases f, 0
  {
    if f.htype.Repeated? {
      return if f.sizeOffset != 0 then Arr([]) else Arr(seq(f.arraySize, _ => Undefined));
    }
    if f.htype.Oneof? { return OneNone; }
    var v: Value;
    if f.ltype.Submessage? {
      v := Undefined;
      if f.ptr.Sub? {
        var m := MessageSetToDefaults(f.ptr.fields);
        v := VMsg(m);
      }
    } else if f.ptr.Init? {
      v := f.ptr.value;
    } else {
      v := ZeroOf(f);
    }
    s := if f.htype.Optional? && f.sizeOffset != 0 then Opt(false, v) else Single(v);
  }

  // ---------- One field ----------

  /** The entry of PB_DECODERS for the field's type. */
  method DecItem(s: IStream, f: Field, prior: Value) returns (ok: bool, v: Value)
    requires s.Valid() && WellFormedField(f)
    modifies s
    ensures s.Moved(ok)
    ensures var p := ReadItem(f, prior, old(s.Rest())); ok == p.Ok? && (ok ==> v == p.value && s.Rest() == p.rest)
    decreases s.bytesLeft, 0
  {
    hide ReadByteArray, ReadString, ReadFixedBytes, ReadScalar, Substream, ReadPayload;
    if f.ltype.Bytes? {
      ok, v := DecBytes(s, f);
    } else if f.ltype.String? {
      ok, v := DecString(s, f);
    } else if f.ltype.FixedLengthBytes? {
      ok, v := DecFixedLengthBytes(s, f);
    } else if f.ltype.Submessage? {
      ok, v := DecSubmessage(s, f, prior);
    } else {
      var n: int;
      ok, n := DecScalar(s, f);
      v := VInt(n);
    }
  }

  /** pb_dec_submessage. */
  method DecSubmessage(s: IStream, f: Field, prior: Value) returns (ok: bool, v: Value)
    requires s.Valid() && WellFormedField(f) && f.ltype.Submessage?
    modifies s
    ensures s.Moved(ok)
    ensures var p := ReadItem(f, prior, old(s.Rest())); ok == p.Ok? && (ok ==> v == p.value && s.Rest() == p.rest)
    decreases s.bytesLeft, 0, 0
  {
    hide Substream, DecodeNoinit, Defaults;
    v := Undefined;
    var sub: IStream;
    ok, sub := s.MakeSubstream();
    if !ok { return; }
    if !f.ptr.Sub? { return false, v; }
    var into := prior;
    if f.htype.Repeated? {
      var m := MessageSetToDefaults(f.ptr.fields);
      into := VMsg(m);
    }
    if !into.VMsg? { return false, v; }
    var m: Msg;
    ok, m := DecodeMessage(sub, f.ptr.fields, into.m);
    s.CloseSubstream(sub);
    v := VMsg(m);
  }

  /** The packed loop of decode_static_field; the caller checks what is left of the substream. */
  method DecodePacked(sub: IStream, f: Field, a: ArrayState) returns (status: bool, r: ArrayState)
    requires sub.Valid() && Packable(f.ltype)
    modifies sub
    ensures sub.Moved(status)
    ensures (status && sub.bytesLeft == 0) == ReadPacked(f, a, old(sub.Rest())).Some?
    ensures status && sub.bytesLeft == 0 ==> ReadPacked(f, a, old(sub.Rest())) == Some(r)
  {
    hide ReadScalar, PutItem, Packable;
    status, r := true, a;
    while sub.bytesLeft > 0 && r.count < f.arraySize
      invariant sub.Moved(true)
      invariant ReadPacked(f, a, old(sub.Rest())) == ReadPacked(f, r, sub.Rest())
      decreases sub.bytesLeft
    {
      var n: int;
      status, n := DecScalar(sub, f);
      if !status { break; }
      r := ArrayState(PutItem(r.items, r.count, VInt(n)), r.count + 1);
    }
  }

  /** The repeated case of decode_static_field; a.count is the counter that pSize points at. */
  method DecodeArray(s: IStream, f: Field, wireType: nat, a: ArrayState) returns (ok: bool, r: ArrayState)
    requires s.Valid() && WellFormedField(f)
    modifies s
    ensures s.Moved(ok)
    ensures var p := ReadArray(f, a, wireType, old(s.Rest()));
            ok == p.Ok? && (ok ==> r == p.value && s.Rest() == p.rest)
    decreases s.bytesLeft, 1
  {
    hide Substream, ReadPacked, ReadItem, PutItem, Packable, WellFormedField;
    r := a;
    if wireType == WT_STRING && Packable(f.ltype) {
      var sub: IStream;
      ok, sub := s.MakeSubstream();
      if !ok { return; }
      var status: bool;
      status, r := DecodePacked(sub, f, a);
      if sub.bytesLeft != 0 { return false, r; }
      s.CloseSubstream(sub);
      return status, r;
    }
    if a.count >= f.arraySize { return false, r; }
    var v: Value;
    ok, v := DecItem(s, f, Undefined);
    r := ArrayState(PutItem(a.items, a.count, v), a.count + 1);
  }

  /** decode_static_field on the iterator's field; the counter is the one kept for fixed-count fields. */
  method DecodeField(s: IStream, iter: FieldIter, wireType: nat, m0: Msg, count0: nat, ghost st: State)
    returns (ok: bool, m: Msg, count: nat)
    requires s.Valid() && iter.pos < |iter.start| && WellFormedField(iter.start[iter.pos])
    requires iter.start[iter.pos].htype.Repeated? ==> iter.pSize.FixedCounter? == FixedCount(iter.start[iter.pos])
    requires st.m == m0 && st.count == count0
    modifies s
    ensures s.Moved(ok)
    ensures var r := ReadField(iter.start, iter.pos, st, wireType, old(s.Rest()));
            ok == r.Done? && (ok ==> r == Done(st.(m := m, count := count), s.Rest(), false))
    decreases s.bytesLeft, 2
  {
    hide ReadItem, ReadArray, WellFormedField, SlotOf, Defaults;
    m, count := m0, count0;
    var f := iter.start[iter.pos];
    var slot := SlotOf(m, f);
    if f.htype.Repeated? {
      if !slot.Arr? { return false, m, count; }
      var a := ArrayState(slot.items, if iter.pSize.FixedCounter? then count else |slot.items|);
      ok, a := DecodeArray(s, f, wireType, a);
      m := m[KeyOf(f) := Arr(a.items)];
      if iter.pSize.FixedCounter? { count := a.count; }
      return;
    }
    var prior := if slot.Single? || slot.Opt? then slot.v else Undefined;
    if f.htype.Oneof? {
      prior := if slot.One? && slot.which == f.tag then slot.v else Undefined;
      if f.ltype.Submessage? && f.ptr.Sub? && !(slot.One? && slot.which == f.tag) {
        var cleared := MessageSetToDefaults(f.ptr.fields);
        prior := VMsg(cleared);
      }
    }
    var v: Value;
    ok, v := DecItem(s, f, prior);
    m := m[KeyOf(f) := NewSlot(f, v)];
  }

  // ---------- The record loop ----------

  /** The local variables of pb_decode_noinit besides the iterator, and the struct being filled. */
  datatype Locals = Locals(m: Msg, fixedField: Option<nat>, fixedCount: nat, fieldsSeen: seq<nat>)

  /** The variables stand for the state st; pSize may still point at the counter of the field in progress. */
  ghost predicate Tracks(iter: FieldIter, l: Locals, st: State)
    reads iter
  {
    && iter.Valid()
    && l.m == st.m && l.fixedField == st.fixed && l.fixedCount == st.count
    && |l.fieldsSeen| == 2 && (iter.start != [] ==> BitmapTracks(iter.start, st.seen, l.fieldsSeen))
    && (l.fixedField.Some? ==> l.fixedField.value < |iter.start|)
    && (iter.pSize.FixedCounter? ==> l.fixedField == Some(iter.pos) && FixedCount(iter.start[iter.pos]))
  }

  lemma SizeOfRepeated(d: seq<Field>, i: nat)
    requires i < |d| && d[i].htype.Repeated?
    ensures SizeAt(d, i) == DataAt(d, i) <==> d[i].sizeOffset == 0
  {
    hide DataAt;
  }

  /** What happens between finding a field and decoding it: fixed-count bookkeeping and the required bit. */
  method EnterField(iter: FieldIter, l: Locals, ghost st: State) returns (ok: bool, r: Locals)
    requires Tracks(iter, l, st) && iter.pos < |iter.start|
    modifies iter`pSize
    ensures ok == MayEnter(iter.start, st, iter.pos)
    ensures ok ==> Tracks(iter, r, Enter(iter.start, st, iter.pos))
    ensures ok && iter.start[iter.pos].htype.Repeated? ==> iter.pSize.FixedCounter? == FixedCount(iter.start[iter.pos])
  {
    hide WordTracks, DataAt, SizeAt, RequiredBefore;
    r := l;
    var f := iter.start[iter.pos];
    if f.htype.Repeated? {
      SizeOfRepeated(iter.start, iter.pos);
      if iter.pSize == InStruct(iter.pData) {
        if r.fixedField != Some(iter.pos) {
          if r.fixedField.Some? && r.fixedCount != iter.start[r.fixedField.value].arraySize { return false, r; }
          r := r.(fixedField := Some(iter.pos), fixedCount := 0);
        }
        iter.pSize := FixedCounter;
      }
    }
    if f.htype.Required? {
      var words := MarkRequired(r.fieldsSeen, iter.requiredFieldIndex, iter.start, st.seen, iter.pos);
      r := r.(fieldsSeen := words);
    }
    ok := true;
  }

  /** The iterator's search agrees with the first field of that number. */
  lemma FoundField(d: seq<Field>, pos: nat, tag: nat, found: bool)
    requires WellFormed(d)
    requires found ==> Matches(d, pos, tag)
    requires d != [] ==> (found <==> exists i :: 0 <= i < |d| && Matches(d, i, tag))
    requires d != [] ==> pos < |d|
    requires d == [] ==> (found <==> tag == 0)
    ensures d != [] && found ==> FindTag(d, tag) == Some(pos)
    ensures d == [] || !found ==> FindTag(d, tag) == None
    ensures d != [] ==> WellFormedField(d[pos])
  {
    if d != [] && found {
      FindTagAt(d, pos);
    } else if d != [] {
      var r := FindTag(d, tag);
      if r.Some? { assert WellFormedField(d[r.value]) && Matches(d, r.value, tag); }
    }
  }

  /** The terminating entry of an empty descriptor reads as a required bool with index 0. */
  method DecodeTerminator(s: IStream, l: Locals, ghost st: State) returns (ok: bool, r: Locals)
    requires s.Valid() && |l.fieldsSeen| == 2
    modifies s
    ensures s.Moved(ok)
    ensures var o := ReadIntoEmpty(st, old(s.Rest())); ok == o.Done? && (ok ==> o == Done(st, s.Rest(), false))
    ensures |r.fieldsSeen| == 2 && r == l.(fieldsSeen := r.fieldsSeen)
  {
    hide ReadVarint32;
    r := l.(fieldsSeen := l.fieldsSeen[0 := Or(l.fieldsSeen[0], 1)]);
    var value: nat, eof: bool;
    ok, value, eof := s.DecodeVarint32();
  }

  /** One iteration of the loop; `stop` reports a zero tag. */
  method DecodeRecord(s: IStream, iter: FieldIter, l: Locals, ghost st: State)
    returns (ok: bool, stop: bool, r: Locals, ghost st': State)
    requires s.Valid() && s.bytesLeft > 0 && WellFormed(iter.start) && Tracks(iter, l, st)
    modifies s, iter
    ensures s.Moved(ok)
    ensures var o := Step(iter.start, st, old(s.Rest())); ok == o.Done? && (ok ==> o == Done(st', s.Rest(), stop))
    ensures ok ==> Tracks(iter, r, st')
    decreases s.bytesLeft, 3
  {
    hide ReadTag, SkipField, ReadField, ReadIntoEmpty, FindTag, Enter, MayEnter, WellFormed, BitmapTracks;
    stop, r, st' := false, l, st;
    var wireType: nat, tag: nat, eof: bool;
    ok, wireType, tag, eof := s.DecodeTag();
    if !ok { return eof, eof, r, st'; }
    var found := iter.Find(tag);
    FoundField(iter.start, iter.pos, tag, found);
    if !found {
      ok := s.SkipWire(wireType);
      return;
    }
    if iter.start == [] {
      ok, r := DecodeTerminator(s, r, st);
      return;
    }
    ok, r := EnterField(iter, r, st);
    if !ok { return; }
    var m: Msg, count: nat;
    st' := Enter(iter.start, st, iter.pos);
    ok, m, count := DecodeField(s, iter, wireType, r.m, r.fixedCount, st');
    r := r.(m := m, fixedCount := count);
    st' := st'.(m := m, count := count);
  }

  /** pb_decode_noinit. */
  method DecodeMessage(s: IStream, d: seq<Field>, m0: Msg) returns (ok: bool, m: Msg)
    requires s.Valid() && WellFormed(d)
    modifies s
    ensures s.Moved(ok)
    ensures var p := DecodeNoinit(d, m0, old(s.Rest())); ok == p.Ok? && (ok ==> m == p.value && s.Rest() == p.rest)
    decreases s.bytesLeft, 9
  {
    hide Run, Step, BitmapTracks, RequiredSeen, WellFormed;
    ghost var all := s.Rest();
    ghost var st := Start(m0);
    var iter := new FieldIter(d);
    var _ := iter.Begin();
    EmptyBitmap(d);
    var l := Locals(m0, None, 0, [0, 0]);
    var stop := false;
    while s.bytesLeft > 0 && !stop
      invariant s.Moved(true) && iter.start == d && Tracks(iter, l, st)
      invariant Run(d, Start(m0), all) == if stop then Done(st, s.Rest(), true) else Run(d, st, s.Rest())
      decreases s.bytesLeft, !stop
    {
      Records.RunStep(d, st, s.Rest());
      ok, stop, l, st := DecodeRecord(s, iter, l, st);
      if !ok { return false, l.m; }
    }
    RunEnd(d, st);
    m := l.m;
    if l.fixedField.Some? && l.fixedCount != d[l.fixedField.value].arraySize { return false, m; }
    ok := CheckRequired(iter, l.fieldsSeen, st.seen);
  }

  lemma RunEnd(d: seq<Field>, st: State)
    ensures Run(d, st, []) == Done(st, [], false)
  {
  }

  // ---------- Entry points ----------

  /** pb_decode, on a stream whose position and limit are arbitrary. */
  method DecodeFromDefaults(s: IStream, d: seq<Field>) returns (ok: bool, m: Msg)
    requires s.Valid() && WellFormed(d)
    modifies s
    ensures s.Moved(ok)
    ensures var p := Decode(d, old(s.Rest())); ok == p.Ok? && (ok ==> m == p.value && s.Rest() == p.rest)
  {
    hide DecodeNoinit, Defaults, WellFormed;
    m := MessageSetToDefaults(d);
    ok, m := DecodeMessage(s, d, m);
  }

  /** pb_decode_delimited: on success the stream moves past exactly the announced length. */
  method DecodeDelimitedMessage(s: IStream, d: seq<Field>) returns (ok: bool, m: Msg)
    requires s.Valid() && WellFormed(d)
    modifies s
    ensures s.Moved(ok)
    ensures var p := DecodeDelimited(d, old(s.Rest())); ok == p.Ok? && (ok ==> m == p.value && s.Rest() == p.rest)
  {
    hide Substream, Decode, WellFormed;
    m := map[];
    var sub: IStream;
    ok, sub := s.MakeSubstream();
    if !ok { return; }
    ok, m := DecodeFromDefaults(sub, d);
    s.CloseSubstream(sub);
  }
}
