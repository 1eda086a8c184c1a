/**
 Field descriptors and message structs (pb.h). A struct is a map from struct members to
 slots: every field owns one member, except that the members of a oneof share the union
 named by its which_ field. Sizes are those of the build: pb_size_t has 32 bits.
 */
module Descriptor {
  import opened Varint
  import opened Wrappers

  datatype LType =
    | Bool | Int | UInt | SInt | Fixed32 | Fixed64
    | Bytes | String | Submessage | Extension | FixedLengthBytes

  datatype HType = Required | Optional | Repeated | Oneof(union: nat)

  datatype AType = Static | Pointer | Callback

  /** A submessage's field list, a default value, or NULL. */
  datatype Ptr = Null | Sub(fields: seq<Field>) | Init(value: Value)

  datatype Field = Field(
    tag: nat, ltype: LType, htype: HType, atype: AType,
    dataOffset: nat, sizeOffset: int, dataSize: nat, arraySize: nat, ptr: Ptr)

  /** Memory of one item. Undefined is memory that no write has given a value yet. */
  datatype Value = VInt(n: int) | VBytes(b: seq<byte>) | VMsg(m: Msg) | Undefined

  datatype Slot =
    | Single(v: Value)             // required and proto3 singular fields
    | Opt(has: bool, v: Value)     // optional field and its has_ flag
    | Arr(items: seq<Value>)       // counted array: count == |items|; fixed-count array: all items
    | OneNone                      // union whose which_ field is 0
    | One(which: nat, v: Value)    // union holding the member with tag `which`

  datatype Key = Own(tag: nat) | Union(id: nat)

  type Msg = map<Key, Slot>

  const PB_SIZE_MAX: nat := 0xFFFF_FFFF
  const PB_MAX_REQUIRED_FIELDS: nat := 64
  const BYTES_OFFSET: nat := 4           // offsetof(pb_bytes_array_t, bytes)
  const SIZEOF_POINTER: nat := 8

  /** PB_LTYPE_LAST_PACKABLE is the last of the scalar types. */
  predicate Packable(t: LType) {
    t.Bool? || t.Int? || t.UInt? || t.SInt? || t.Fixed32? || t.Fixed64?
  }

  function KeyOf(f: Field): Key {
    if f.htype.Oneof? then Union(f.htype.union) else Own(f.tag)
  }

  function Keys(d: seq<Field>): set<Key> {
    set i | 0 <= i < |d| :: KeyOf(d[i])
  }

  /** What the generator guarantees: distinct field numbers in protobuf's range; here all fields are static. */
  predicate WellFormed(d: seq<Field>) {
    && (forall i, j :: 0 <= i < j < |d| ==> d[i].tag != d[j].tag)
    && (forall i :: 0 <= i < |d| ==> WellFormedField(d[i]))
  }

  predicate WellFormedField(f: Field) {
    && 0 < f.tag < 0x2000_0000 && f.dataSize <= PB_SIZE_MAX && f.arraySize <= PB_SIZE_MAX
    && f.atype.Static? && !f.ltype.Extension?
    && (f.htype.Oneof? ==> f.sizeOffset != 0)
    && (f.ltype.Submessage? && f.ptr.Sub? ==> WellFormed(f.ptr.fields))
  }

  /** How many of the first i fields are required. */
  function RequiredBefore(d: seq<Field>, i: nat): (n: nat)
    requires i <= |d|
    ensures n <= i
  {
    if i == 0 then 0
    else RequiredBefore(d, i - 1) + (if d[i - 1].htype.Required? then 1 else 0)
  }

  /** Index of the first field with this tag. */
  function FindTag(d: seq<Field>, tag: nat): (r: Option<nat>)
    ensures r.Some? ==> r.value < |d| && d[r.value].tag == tag
    ensures r.None? ==> forall i :: 0 <= i < |d| ==> d[i].tag != tag
  {
    if d == [] then None
    else if d[0].tag == tag then Some(0)
    else match FindTag(d[1..], tag)
      case None =>
        assert forall i :: 0 < i < |d| ==> d[i] == d[1..][i - 1];
        None
      case Some(i) => Some(i + 1)
  }

  lemma FindTagAt(d: seq<Field>, i: nat)
    requires WellFormed(d) && i < |d|
    ensures FindTag(d, d[i].tag) == Some(i)
  {
    hide WellFormedField;
    var r := FindTag(d, d[i].tag);
    assert r.Some? && d[r.value].tag == d[i].tag;
  }

  /** Two fields of a well-formed descriptor share a struct member only inside one union. */
  lemma KeysDistinct(d: seq<Field>, i: nat, j: nat)
    requires WellFormed(d) && i < |d| && j < |d| && i != j
    ensures KeyOf(d[i]) == KeyOf(d[j]) ==> d[i].htype.Oneof? && d[j].htype == d[i].htype
  {
    hide WellFormedField;
    assert d[i].tag != d[j].tag;
  }

  // ---------- Default contents ----------

  function Zeros(n: nat): (s: seq<byte>)
    ensures |s| == n
  {
    seq(n, _ => 0)
  }

  function DefaultValue(f: Field): Value
    decreases f, 0
  {
    if f.ltype.Submessage? then
      if f.ptr.Sub? then VMsg(Defaults(f.ptr.fields)) else Undefined
    else if f.ptr.Init? then f.ptr.value
    else ZeroOf(f)
  }

  function ZeroOf(f: Field): Value {
    if Packable(f.ltype) then VInt(0)
    else if f.ltype.FixedLengthBytes? then VBytes(Zeros(f.dataSize))
    else VBytes([])
  }

  /**
   pb_field_set_to_default. The contents of an array are not initialised. For a fixed-count
   array, whose pSize is its pData, the C code does store a zero count over the first four
   bytes; the model counts them among the contents that are undefined.
   */
  function DefaultSlot(f: Field): Slot
    decreases f, 1
  {
    match f.htype
    case Required => Single(DefaultValue(f))
    case Optional => if f.sizeOffset != 0 then Opt(false, DefaultValue(f)) else Single(DefaultValue(f))
    case Repeated => if f.sizeOffset != 0 then Arr([]) else Arr(seq(f.arraySize, _ => Undefined))
    case Oneof(_) => OneNone
  }

  /** pb_message_set_to_defaults, after the first n fields. */
  function DefaultsUpTo(d: seq<Field>, n: nat): Msg
    requires n <= |d|
    decreases d, n
  {
    if n == 0 then map[]
    else DefaultsUpTo(d, n - 1)[KeyOf(d[n - 1]) := DefaultSlot(d[n - 1])]
  }

  function Defaults(d: seq<Field>): Msg
    decreases d, |d| + 1
  {
    DefaultsUpTo(d, |d|)
  }

  lemma {:induction false} DefaultsUpToKeys(d: seq<Field>, n: nat)
    requires n <= |d|
    ensures DefaultsUpTo(d, n).Keys == Keys(d[..n])
  {
    hide DefaultSlot, KeyOf;
    if n > 0 {
      DefaultsUpToKeys(d, n - 1);
      assert forall i :: 0 <= i < n - 1 ==> d[..n][i] == d[..n - 1][i];
      assert d[..n][n - 1] == d[n - 1];
      assert Keys(d[..n]) == Keys(d[..n - 1]) + {KeyOf(d[n - 1])};
    }
  }

  lemma {:induction false} DefaultsUpToAt(d: seq<Field>, n: nat, i: nat)
    requires WellFormed(d) && i < n <= |d|
    ensures KeyOf(d[i]) in DefaultsUpTo(d, n) && DefaultsUpTo(d, n)[KeyOf(d[i])] == DefaultSlot(d[i])
  {
    if i == n - 1 {
    } else {
      DefaultsUpToAt(d, n - 1, i);
      KeysDistinct(d, i, n - 1);
      hide WellFormed, KeyOf, DefaultValue;
    }
  }

  /** Initialisation gives every struct member of the descriptor its default, and nothing else. */
  lemma DefaultsAt(d: seq<Field>)
    requires WellFormed(d)
    ensures Defaults(d).Keys == Keys(d)
    ensures forall i :: 0 <= i < |d| ==> KeyOf(d[i]) in Defaults(d) && Defaults(d)[KeyOf(d[i])] == DefaultSlot(d[i])
  {
    DefaultsUpToKeys(d, |d|);
    assert d[..|d|] == d;
    forall i | 0 <= i < |d|
      ensures KeyOf(d[i]) in Defaults(d) && Defaults(d)[KeyOf(d[i])] == DefaultSlot(d[i])
    {
      DefaultsUpToAt(d, |d|, i);
    }
  }
}
