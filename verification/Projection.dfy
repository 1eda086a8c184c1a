/**
 Older and newer versions of a message type. A descriptor d' is a view of d when its fields
 are fields of d, at every nesting depth; projecting a message of d to d' drops the rest.
 */
module Projection {
  import opened Bits
  import opened Descriptor
  import opened Scalars
  import opened Encoding

  /** f' describes the field f, possibly with fewer fields in its submessage. */
  predicate ViewOfField(f': Field, f: Field)
    decreases f
  {
    && f'.tag == f.tag && f'.ltype == f.ltype && f'.htype == f.htype && f'.arraySize == f.arraySize
    && (f'.sizeOffset == 0 <==> f.sizeOffset == 0)
    && if f.ltype.Submessage? && f.ptr.Sub? then f'.ptr.Sub? && ViewOf(f'.ptr.fields, f.ptr.fields)
       else f'.dataSize == f.dataSize && f'.ptr == f.ptr
  }

  predicate ViewOf(d': seq<Field>, d: seq<Field>)
    decreases d
  {
    forall j :: 0 <= j < |d'| ==> ViewAt(d', d, j)
  }

  predicate ViewAt(d': seq<Field>, d: seq<Field>, j: nat)
    requires j < |d'|
    decreases d, 0
  {
    FindTag(d, d'[j].tag).Some? && ViewOfField(d'[j], d[FindTag(d, d'[j].tag).value])
  }

  // ---------- Projection ----------

  function ProjectValue(f': Field, f: Field, v: Value): Value
    decreases f, 0
  {
    if f.ltype.Submessage? && f'.ptr.Sub? && f.ptr.Sub? && v.VMsg?
    then VMsg(Project(f'.ptr.fields, f.ptr.fields, v.m))
    else v
  }

  function ProjectItems(f': Field, f: Field, items: seq<Value>): (r: seq<Value>)
    ensures |r| == |items|
    decreases f, 1, |items|
  {
    if items == [] then []
    else ProjectItems(f', f, items[..|items| - 1]) + [ProjectValue(f', f, items[|items| - 1])]
  }

  function ProjectOwn(f': Field, f: Field, s: Slot): Slot
    decreases f, 2
  {
    match s
    case Single(v) => Single(ProjectValue(f', f, v))
    case Opt(has, v) => Opt(has, ProjectValue(f', f, v))
    case Arr(items) => Arr(ProjectItems(f', f, items))
    case _ => s
  }

  /** A union whose active member was removed reads as unset. */
  function ProjectUnion(d': seq<Field>, d: seq<Field>, s: Slot): Slot
    decreases d, 0
  {
    if s.One? && FindTag(d', s.which).Some? && FindTag(d, s.which).Some?
    then One(s.which, ProjectValue(d'[FindTag(d', s.which).value], d[FindTag(d, s.which).value], s.v))
    else OneNone
  }

  function ProjectKey(d': seq<Field>, d: seq<Field>, m: Msg, k: Key): Slot
    decreases d, 1
  {
    if k !in m then OneNone
    else if k.Union? then ProjectUnion(d', d, m[k])
    else if FindTag(d', k.tag).Some? && FindTag(d, k.tag).Some?
    then ProjectOwn(d'[FindTag(d', k.tag).value], d[FindTag(d, k.tag).value], m[k])
    else OneNone
  }

  function Project(d': seq<Field>, d: seq<Field>, m: Msg): Msg
    decreases d, 2
  {
    map k | k in Keys(d') :: ProjectKey(d', d, m, k)
  }

  // ---------- Messages that survive a round trip ----------

  /**
   What memory holds when the application set it up as documented: values in range, strings
   terminated inside their buffer, and every length below 2^32, the decoder's limit.
   */
  predicate NormalValue(f: Field, v: Value)
    decreases f, 0
  {
    match f.ltype
    case Bytes => v.VBytes? && |v.b| + BYTES_OFFSET <= f.dataSize
    case String => v.VBytes? && |v.b| < f.dataSize && (forall k :: 0 <= k < |v.b| ==> v.b[k] != 0)
    case FixedLengthBytes => v.VBytes? && |v.b| == f.dataSize
    case Submessage =>
      && f.ptr.Sub? && v.VMsg? && Normal(f.ptr.fields, v.m)
      && |MsgBytes(f.ptr.fields, v.m)| < U32
    case _ => v.VInt? && InRange(f.ltype, f.dataSize, v.n)
  }

  predicate NormalItems(f: Field, items: seq<Value>)
    decreases f, 1
  {
    forall k :: 0 <= k < |items| ==> NormalValue(f, items[k])
  }

  /** Absent fields hold their defaults; proto3 singular fields have no default but zero. */
  predicate NormalOwn(f: Field, s: Slot)
    decreases f, 2
  {
    match f.htype
    case Required => s.Single? && NormalValue(f, s.v)
    case Optional =>
      if f.sizeOffset != 0 then s.Opt? && (if s.has then NormalValue(f, s.v) else s.v == DefaultValue(f))
      else s.Single? && NormalValue(f, s.v) && !f.ptr.Init?
    case Repeated =>
      && s.Arr? && |s.items| <= f.arraySize && (f.sizeOffset == 0 ==> |s.items| == f.arraySize)
      && NormalItems(f, s.items)
      && (Packable(f.ltype) ==> |PackedBytes(f.ltype, s.items)| < U32)
    case Oneof(_) => true
  }

  /** The which_ field of a union names one of its members, or none. */
  predicate NormalUnion(d: seq<Field>, k: Key, s: Slot)
    decreases d, 0
  {
    || s.OneNone?
    || (&& s.One? && FindTag(d, s.which).Some?
        && KeyOf(d[FindTag(d, s.which).value]) == k
        && NormalValue(d[FindTag(d, s.which).value], s.v))
  }

  predicate NormalAt(d: seq<Field>, m: Msg, i: nat)
    requires i < |d|
    decreases d, 1
  {
    && KeyOf(d[i]) in m
    && if d[i].htype.Oneof? then NormalUnion(d, KeyOf(d[i]), m[KeyOf(d[i])])
       else NormalOwn(d[i], m[KeyOf(d[i])])
  }

  predicate Normal(d: seq<Field>, m: Msg)
    decreases d, 2
  {
    && m.Keys == Keys(d)
    && forall i :: 0 <= i < |d| ==> NormalAt(d, m, i)
  }
}
