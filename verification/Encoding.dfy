/**
 The wire image of a message (pb_encode.c): which bytes pb_encode writes, and when it
 refuses. The methods of module Encoder are proved against these functions.
 */
module Encoding {
  import opened Bits
  import opened Varint
  import opened Descriptor
  import opened Scalars

  const WT_VARINT: nat := 0
  const WT_64BIT: nat := 1
  const WT_STRING: nat := 2
  const WT_32BIT: nat := 5

  /** pb_encode_tag_for_field. */
  function WireType(t: LType): (wt: nat)
    ensures wt < 8
  {
    match t
    case Fixed32 => WT_32BIT
    case Fixed64 => WT_64BIT
    case Bytes => WT_STRING
    case String => WT_STRING
    case Submessage => WT_STRING
    case FixedLengthBytes => WT_STRING
    case _ => WT_VARINT
  }

  function TagBytes(tag: nat, wireType: nat): seq<byte> {
    EncVarint(8 * tag + wireType)
  }

  function FieldTag(f: Field): seq<byte> {
    TagBytes(f.tag, WireType(f.ltype))
  }

  /** pb_encode_string; the length is cast to uint64_t. */
  function LengthPrefixed(s: seq<byte>): seq<byte> {
    EncVarint(|s| % U64) + s
  }

  /** The characters before the terminator, at most max of them. */
  function CString(b: seq<byte>, max: nat): (s: seq<byte>)
    ensures |s| <= max && s <= b
  {
    if max == 0 || b == [] || b[0] == 0 then [] else [b[0]] + CString(b[1..], max - 1)
  }

  lemma {:induction false} CStringEnds(b: seq<byte>, max: nat, size: nat)
    requires size <= max && size <= |b| && (size == max || size == |b| || b[size] == 0)
    requires forall k :: 0 <= k < size ==> b[k] != 0
    ensures CString(b, max) == b[..size]
  {
    if size > 0 {
      CStringEnds(b[1..], max - 1, size - 1);
      assert b[..size] == [b[0]] + b[1..][..size - 1];
    }
  }

  // ---------- Messages ----------

  /** The slot of a field's struct member. */
  function SlotOf(m: Msg, f: Field): Slot {
    if KeyOf(f) in m then m[KeyOf(f)] else OneNone
  }

  function ItemBytes(f: Field, v: Value): seq<byte>
    decreases f, 0, 0
  {
    match v
    case VInt(n) => ScalarBytes(f.ltype, n)
    case VBytes(b) => LengthPrefixed(if f.ltype.String? then CString(b, f.dataSize) else b)
    case VMsg(m) => if f.ptr.Sub? then LengthPrefixed(MsgBytes(f.ptr.fields, m)) else []
    case Undefined => []
  }

  function PackedBytes(t: LType, items: seq<Value>): seq<byte> {
    if items == [] then []
    else (if items[0].VInt? then ScalarBytes(t, items[0].n) else []) + PackedBytes(t, items[1..])
  }

  function UnpackedBytes(f: Field, items: seq<Value>): seq<byte>
    decreases f, 1, |items|
  {
    if items == [] then []
    else FieldTag(f) + ItemBytes(f, items[0]) + UnpackedBytes(f, items[1..])
  }

  /** encode_array: always packed when the element type allows it. */
  function ArrayBytes(f: Field, items: seq<Value>): seq<byte>
    decreases f, 2, 0
  {
    if items == [] then []
    else if Packable(f.ltype) then TagBytes(f.tag, WT_STRING) + LengthPrefixed(PackedBytes(f.ltype, items))
    else UnpackedBytes(f, items)
  }

  /** encode_basic_field. */
  function SlotBytes(f: Field, s: Slot): seq<byte>
    decreases f, 3, 0
  {
    if f.htype.Repeated? then
      if s.Arr? then ArrayBytes(f, s.items) else []
    else if Emits(f, s) then FieldTag(f) + ItemBytes(f, s.v)
    else []
  }

  /** A field that is not repeated is written in these states of its slot. */
  predicate Emits(f: Field, s: Slot) {
    match f.htype
    case Required => s.Single?
    case Optional => (s.Opt? && s.has) || (s.Single? && !ZeroValue(f, s.v))
    case Repeated => false
    case Oneof(_) => s.One? && s.which == f.tag
  }

  function MsgBytes(d: seq<Field>, m: Msg): seq<byte>
    decreases d, 4, 0
  {
    if d == [] then [] else SlotBytes(d[0], SlotOf(m, d[0])) + MsgBytes(d[1..], m)
  }

  // ---------- pb_check_proto3_default_value ----------

  predicate ZeroValue(f: Field, v: Value)
    decreases f, 0
  {
    match f.ltype
    case Bytes => v.VBytes? && v.b == []
    case String => v.VBytes? && (v.b == [] || v.b[0] == 0)
    case FixedLengthBytes => f.dataSize == 0
    case Submessage => f.ptr.Sub? && v.VMsg? ==> ZeroMsg(f.ptr.fields, v.m)
    case _ => v.VInt? && v.n == 0
  }

  predicate ZeroSlot(f: Field, s: Slot)
    decreases f, 1
  {
    match f.htype
    case Required => false
    case Repeated => f.sizeOffset != 0 && s == Arr([])
    case Oneof(_) => s.OneNone?
    case Optional =>
      if f.sizeOffset != 0 then s.Opt? && !s.has
      else s.Single? && ZeroValue(f, s.v)
  }

  predicate ZeroMsg(d: seq<Field>, m: Msg)
    decreases d, 2
  {
    d == [] || (ZeroSlot(d[0], SlotOf(m, d[0])) && ZeroMsg(d[1..], m))
  }

  // ---------- When the encoder accepts a message ----------

  predicate ItemEncodable(f: Field, v: Value)
    decreases f, 0
  {
    match f.ltype
    case Bytes => v.VBytes? && |v.b| + BYTES_OFFSET <= f.dataSize
    case String => v.VBytes?
    case FixedLengthBytes => v.VBytes? && |v.b| == f.dataSize
    case Submessage => f.ptr.Sub? && v.VMsg? && MsgEncodable(f.ptr.fields, v.m)
    case _ => v.VInt? && ScalarEncodable(f.ltype, f.dataSize)
  }

  predicate SlotEncodable(f: Field, s: Slot)
    decreases f, 1
  {
    match f.htype
    case Required => s.Single? && ItemEncodable(f, s.v)
    case Optional =>
      if f.sizeOffset != 0 then s.Opt? && (s.has ==> ItemEncodable(f, s.v))
      else s.Single? && (!ZeroValue(f, s.v) ==> ItemEncodable(f, s.v))
    case Repeated =>
      && s.Arr? && |s.items| <= f.arraySize
      && (f.sizeOffset == 0 ==> |s.items| == f.arraySize)
      && (forall k :: 0 <= k < |s.items| ==> ItemEncodable(f, s.items[k]))
    case Oneof(_) => s.OneNone? || (s.One? && (s.which == f.tag ==> ItemEncodable(f, s.v)))
  }

  predicate MsgEncodable(d: seq<Field>, m: Msg)
    decreases d, 2
  {
    d == [] || (SlotEncodable(d[0], SlotOf(m, d[0])) && MsgEncodable(d[1..], m))
  }

  lemma {:induction false} MsgEncodableAt(d: seq<Field>, m: Msg)
    ensures MsgEncodable(d, m) <==> forall i :: 0 <= i < |d| ==> SlotEncodable(d[i], SlotOf(m, d[i]))
  {
    hide SlotEncodable, SlotOf;
    if d != [] {
      MsgEncodableAt(d[1..], m);
      assert forall i :: 0 < i < |d| ==> d[i] == d[1..][i - 1];
      assert forall i :: 0 <= i < |d[1..]| ==> d[1..][i] == d[i + 1];
    }
  }

  lemma {:induction false} ZeroMsgAt(d: seq<Field>, m: Msg)
    ensures ZeroMsg(d, m) <==> forall i :: 0 <= i < |d| ==> ZeroSlot(d[i], SlotOf(m, d[i]))
  {
    hide ZeroSlot, SlotOf;
    if d != [] {
      ZeroMsgAt(d[1..], m);
      assert forall i :: 0 < i < |d| ==> d[i] == d[1..][i - 1];
      assert forall i :: 0 <= i < |d[1..]| ==> d[1..][i] == d[i + 1];
    }
  }
}
