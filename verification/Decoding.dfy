/**
 What pb_decode does with a byte string (pb_decode.c), as functions: reading one value,
 one record, and the loop over records. The methods of module Decoder are proved against
 these functions.
 */
module Decoding {
  import opened Bits
  import opened Varint
  import opened Wrappers
  import opened Descriptor
  import opened Scalars
  import opened Encoding

  // ---------- Skipping ----------

  /** pb_skip_varint: any number of bytes. */
  function SkipVarint(bs: seq<byte>): (p: Parsed<()>)
    ensures p.Ok? ==> |p.rest| < |bs|
  {
    var k := VarintLength(bs);
    if k == 0 then Fail else Ok((), bs[k..])
  }

  /** A length-delimited payload and what follows it. */
  function Substream(bs: seq<byte>): (p: Parsed<seq<byte>>)
    ensures p.Ok? ==> |p.rest| + |p.value| < |bs|
  {
    match ReadVarint32(bs)
    case Fail => Fail
    case Ok(n, rest) => ReadBytes(rest, n)
  }

  /** pb_skip_field. */
  function SkipField(wireType: nat, bs: seq<byte>): (p: Parsed<()>)
    ensures p.Ok? ==> |p.rest| <= |bs|
  {
    if wireType == WT_VARINT then SkipVarint(bs)
    else if wireType == WT_64BIT then Discard(ReadBytes(bs, 8))
    else if wireType == WT_STRING then Discard(Substream(bs))
    else if wireType == WT_32BIT then Discard(ReadBytes(bs, 4))
    else Fail
  }

  function Discard(p: Parsed<seq<byte>>): (q: Parsed<()>)
    ensures q.Ok? <==> p.Ok?
    ensures p.Ok? ==> q.rest == p.rest
  {
    match p
    case Fail => Fail
    case Ok(_, rest) => Ok((), rest)
  }

  // ---------- Records ----------

  /** Stop: a zero tag ends the message early. */
  datatype TagRead = BadTag | Stop(rest: seq<byte>) | Tag(tag: nat, wireType: nat, rest: seq<byte>)

  /** pb_decode_tag on a stream with bytes left. */
  function ReadTag(bs: seq<byte>): (t: TagRead)
    ensures !t.BadTag? ==> |t.rest| < |bs|
  {
    match ReadVarint32(bs)
    case Fail => BadTag
    case Ok(v, rest) => if v == 0 then Stop(rest) else Tag(v / 8, v % 8, rest)
  }

  /**
   The message being filled, the fixed-count field being received and its counter, and
   the indices of the required fields that have occurred.
   */
  datatype State = State(m: Msg, fixed: Option<nat>, count: nat, seen: set<nat>)

  datatype Outcome = Failed | Done(st: State, rest: seq<byte>, stopped: bool)

  // ---------- One value ----------

  /** pb_dec_bytes. */
  function ReadByteArray(f: Field, bs: seq<byte>): (p: Parsed<Value>)
    ensures p.Ok? ==> |p.rest| < |bs|
  {
    match ReadVarint32(bs)
    case Fail => Fail
    case Ok(n, rest) =>
      if n + BYTES_OFFSET > f.dataSize then Fail
      else match ReadBytes(rest, n)
           case Fail => Fail
           case Ok(b, rest') => Ok(VBytes(b), rest')
  }

  /** pb_dec_string: `size + 1` is 32-bit arithmetic. */
  function ReadString(f: Field, bs: seq<byte>): (p: Parsed<Value>)
    ensures p.Ok? ==> |p.rest| < |bs|
  {
    match ReadVarint32(bs)
    case Fail => Fail
    case Ok(n, rest) =>
      var alloc := (n + 1) % U32;
      if alloc < n || alloc > f.dataSize then Fail
      else match ReadBytes(rest, n)
           case Fail => Fail
           case Ok(b, rest') => Ok(VBytes(b), rest')
  }

  /** pb_dec_fixed_length_bytes: an empty payload stands for all zeros. */
  function ReadFixedBytes(f: Field, bs: seq<byte>): (p: Parsed<Value>)
    ensures p.Ok? ==> |p.rest| < |bs|
  {
    match ReadVarint32(bs)
    case Fail => Fail
    case Ok(n, rest) =>
      if n == 0 then Ok(VBytes(Zeros(f.dataSize)), rest)
      else if n != f.dataSize then Fail
      else match ReadBytes(rest, n)
           case Fail => Fail
           case Ok(b, rest') => Ok(VBytes(b), rest')
  }

  /** The value decoders. `prior` is the memory that a submessage is merged into. */
  function ReadItem(f: Field, prior: Value, bs: seq<byte>): (p: Parsed<Value>)
    ensures p.Ok? ==> |p.rest| < |bs|
    decreases |bs|, 0
  {
    match f.ltype
    case Bytes => ReadByteArray(f, bs)
    case String => ReadString(f, bs)
    case FixedLengthBytes => ReadFixedBytes(f, bs)
    case Submessage =>
      (match Substream(bs)
       case Fail => Fail
       case Ok(payload, rest) => ReadPayload(f, prior, payload, rest))
    case _ =>
      match ReadScalar(f.ltype, f.dataSize, bs)
      case Fail => Fail
      case Ok(n, rest) => Ok(VInt(n), rest)
  }

  /** pb_dec_submessage: array entries are initialised, other fields are merged into. */
  function ReadPayload(f: Field, prior: Value, payload: seq<byte>, rest: seq<byte>): (p: Parsed<Value>)
    ensures p.Ok? ==> p.rest == rest
    decreases |payload|, 6
  {
    if !f.ptr.Sub? then Fail
    else
      var into := if f.htype.Repeated? then VMsg(Defaults(f.ptr.fields)) else prior;
      if !into.VMsg? then Fail
      else match DecodeNoinit(f.ptr.fields, into.m, payload)
           case Fail => Fail
           case Ok(m, _) => Ok(VMsg(m), rest)
  }

  // ---------- Arrays ----------

  /** Write item number c; one past the end extends a counted array. */
  function PutItem(items: seq<Value>, c: nat, v: Value): (r: seq<Value>)
    ensures |r| == if c < |items| then |items| else |items| + 1
  {
    if c < |items| then items[c := v] else items + [v]
  }

  datatype ArrayState = ArrayState(items: seq<Value>, count: nat)

  /** The loop over a packed payload; it must consume all of it. */
  function ReadPacked(f: Field, a: ArrayState, payload: seq<byte>): (r: Option<ArrayState>)
    decreases |payload|
  {
    if payload == [] then Some(a)
    else if a.count >= f.arraySize then None
    else match ReadScalar(f.ltype, f.dataSize, payload)
         case Fail => None
         case Ok(n, rest) => ReadPacked(f, ArrayState(PutItem(a.items, a.count, VInt(n)), a.count + 1), rest)
  }

  /** The repeated case of decode_static_field. */
  function ReadArray(f: Field, a: ArrayState, wireType: nat, bs: seq<byte>): (p: Parsed<ArrayState>)
    ensures p.Ok? ==> |p.rest| < |bs|
    decreases |bs|, 1
  {
    if wireType == WT_STRING && Packable(f.ltype) then
      match Substream(bs)
      case Fail => Fail
      case Ok(payload, rest) =>
        (match ReadPacked(f, a, payload)
         case None => Fail
         case Some(a') => Ok(a', rest))
    else if a.count >= f.arraySize then Fail
    else match ReadItem(f, Undefined, bs)
         case Fail => Fail
         case Ok(v, rest) => Ok(ArrayState(PutItem(a.items, a.count, v), a.count + 1), rest)
  }

  // ---------- One field ----------

  predicate FixedCount(f: Field) {
    f.htype.Repeated? && f.sizeOffset == 0
  }

  /** The memory that a oneof member is decoded into: its own old value, or a cleared union. */
  function UnionMemory(f: Field, s: Slot): Value {
    if s.One? && s.which == f.tag then s.v
    else if f.ltype.Submessage? && f.ptr.Sub? then VMsg(Defaults(f.ptr.fields))
    else Undefined
  }

  /** decode_static_field, for every rule but repeated: the value decoded into and the new slot. */
  function OldValue(f: Field, s: Slot): Value {
    match f.htype
    case Oneof(_) => UnionMemory(f, s)
    case _ => if s.Single? || s.Opt? then s.v else Undefined
  }

  function NewSlot(f: Field, v: Value): Slot {
    match f.htype
    case Oneof(_) => One(f.tag, v)
    case Optional => if f.sizeOffset != 0 then Opt(true, v) else Single(v)
    case _ => Single(v)
  }

  function ReadField(d: seq<Field>, i: nat, st: State, wireType: nat, bs: seq<byte>): (r: Outcome)
    requires i < |d|
    ensures r.Done? ==> |r.rest| < |bs|
    decreases |bs|, 2
  {
    var f := d[i];
    var s := SlotOf(st.m, f);
    if f.htype.Repeated? then
      if !s.Arr? then Failed
      else match ReadArray(f, ArrayState(s.items, if FixedCount(f) then st.count else |s.items|), wireType, bs)
           case Fail => Failed
           case Ok(a, rest) =>
             Done(st.(m := st.m[KeyOf(f) := Arr(a.items)], count := if FixedCount(f) then a.count else st.count),
                 rest, false)
    else match ReadItem(f, OldValue(f, s), bs)
         case Fail => Failed
         case Ok(v, rest) => Done(st.(m := st.m[KeyOf(f) := NewSlot(f, v)]), rest, false)
  }

  // ---------- The loop of pb_decode_noinit ----------

  /** The fixed-count field in progress, if any, has all its entries. */
  predicate FixedComplete(d: seq<Field>, st: State) {
    st.fixed.Some? ==> st.fixed.value < |d| && st.count == d[st.fixed.value].arraySize
  }

  /** Note the occurrence of field i: start its counter or its required-field bit. */
  function Enter(d: seq<Field>, st: State, i: nat): State
    requires i < |d|
  {
    if FixedCount(d[i]) && st.fixed != Some(i) then st.(fixed := Some(i), count := 0)
    else if d[i].htype.Required? then st.(seen := st.seen + {i})
    else st
  }

  /** Leaving a fixed-count field for another one before it is complete is an error. */
  predicate MayEnter(d: seq<Field>, st: State, i: nat)
    requires i < |d|
  {
    FixedCount(d[i]) && st.fixed != Some(i) ==> FixedComplete(d, st)
  }

  /** One iteration, on a stream with bytes left. */
  function Step(d: seq<Field>, st: State, bs: seq<byte>): (r: Outcome)
    ensures r.Done? ==> |r.rest| < |bs|
    decreases |bs|, 3
  {
    match ReadTag(bs)
    case BadTag => Failed
    case Stop(rest) => Done(st, rest, true)
    case Tag(tag, wireType, rest) =>
      if d == [] && tag == 0 then ReadIntoEmpty(st, rest)
      else match FindTag(d, tag)
           case None =>
             (match SkipField(wireType, rest)
              case Fail => Failed
              case Ok(_, rest') => Done(st, rest', false))
           case Some(i) =>
             if !MayEnter(d, st, i) then Failed
             else ReadField(d, i, Enter(d, st, i), wireType, rest)
  }

  /** In an empty descriptor a zero field number matches the terminator, which decodes as a bool. */
  function ReadIntoEmpty(st: State, bs: seq<byte>): (r: Outcome)
    ensures r.Done? ==> |r.rest| < |bs|
  {
    match ReadVarint32(bs)
    case Fail => Failed
    case Ok(_, rest) => Done(st, rest, false)
  }

  function Run(d: seq<Field>, st: State, bs: seq<byte>): (r: Outcome)
    ensures r.Done? ==> |r.rest| <= |bs|
    ensures r.Done? && !r.stopped ==> r.rest == []
    decreases |bs|, 4
  {
    if bs == [] then Done(st, [], false)
    else match Step(d, st, bs)
         case Failed => Failed
         case Done(st', rest, stopped) => if stopped then Done(st', rest, true) else Run(d, st', rest)
  }

  /** Every one of the first 64 required fields has occurred. */
  predicate RequiredSeen(d: seq<Field>, seen: set<nat>) {
    forall i :: 0 <= i < |d| && d[i].htype.Required? && RequiredBefore(d, i) < PB_MAX_REQUIRED_FIELDS ==> i in seen
  }

  function Start(m: Msg): State {
    State(m, None, 0, {})
  }

  predicate Accepts(d: seq<Field>, st: State) {
    FixedComplete(d, st) && RequiredSeen(d, st.seen)
  }

  /** pb_decode_noinit: merge a message into m. */
  function DecodeNoinit(d: seq<Field>, m: Msg, bs: seq<byte>): (p: Parsed<Msg>)
    ensures p.Ok? ==> |p.rest| <= |bs|
    decreases |bs|, 5
  {
    match Run(d, Start(m), bs)
    case Failed => Fail
    case Done(st, rest, _) => if Accepts(d, st) then Ok(st.m, rest) else Fail
  }

  /** pb_decode. */
  function Decode(d: seq<Field>, bs: seq<byte>): (p: Parsed<Msg>)
    ensures p.Ok? ==> |p.rest| <= |bs|
  {
    DecodeNoinit(d, Defaults(d), bs)
  }

  /** pb_decode_delimited. */
  function DecodeDelimited(d: seq<Field>, bs: seq<byte>): (p: Parsed<Msg>)
    ensures p.Ok? ==> |p.rest| < |bs|
  {
    match Substream(bs)
    case Fail => Fail
    case Ok(payload, rest) =>
      match Decode(d, payload)
      case Fail => Fail
      case Ok(m, _) => Ok(m, rest)
  }
}
