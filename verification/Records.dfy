/**
 How the decoder consumes the records that the encoder writes: a tag is read back, a
 value of an unknown field is skipped by exactly its length, and what follows a record
 does not matter.
 */
module Records {
  import opened Bits
  import opened Varint
  import opened Wrappers
  import opened Descriptor
  import opened Scalars
  import opened Encoding
  import opened Decoding

  lemma ReadTagBytes(tag: nat, wireType: nat, body: seq<byte>)
    requires 0 < tag < 0x2000_0000 && wireType < 8
    ensures ReadTag(TagBytes(tag, wireType) + body) == Tag(tag, wireType, body)
  {
    hide EncVarint, ReadVarint32;
    Varint32RoundTrip(8 * tag + wireType, body);
  }

  lemma TagBytesNonEmpty(tag: nat, wireType: nat, body: seq<byte>)
    ensures TagBytes(tag, wireType) + body != []
  {
    assert |TagBytes(tag, wireType)| >= 1;
  }

  lemma SmallLength(s: seq<byte>)
    requires |s| < U32
    ensures LengthPrefixed(s) == EncVarint(|s|) + s
  {
    hide EncVarint;
    CastUnchanged(|s|);
  }

  lemma CastUnchanged(n: nat)
    requires n < U32
    ensures n % U64 == n
  {
  }

  lemma LengthThenPayload(s: seq<byte>, tail: seq<byte>)
    requires |s| < U32
    ensures LengthPrefixed(s) + tail == EncVarint(|s|) + (s + tail)
  {
    hide EncVarint, LengthPrefixed;
    SmallLength(s);
    Reassociate(EncVarint(|s|), s, tail);
  }

  lemma Reassociate(x: seq<byte>, y: seq<byte>, z: seq<byte>)
    ensures (x + y) + z == x + (y + z)
  {
  }

  lemma SubstreamOfLengthPrefixed(s: seq<byte>, tail: seq<byte>)
    requires |s| < U32
    ensures ReadVarint32(LengthPrefixed(s) + tail) == Ok(|s|, s + tail)
    ensures Substream(LengthPrefixed(s) + tail) == Ok(s, tail)
  {
    hide EncVarint, ReadVarint32, LengthPrefixed;
    LengthThenPayload(s, tail);
    Varint32RoundTrip(|s|, s + tail);
    SplitAppend(s, tail);
  }

  // ---------- Skipping ----------

  lemma SkipCanonicalVarint(n: nat, tail: seq<byte>)
    ensures SkipField(WT_VARINT, EncVarint(n) + tail) == Ok((), tail)
  {
    EncVarintDenotes(n, tail);
    SplitAppend(EncVarint(n), tail);
    hide EncVarint, VarintLength;
  }

  lemma SkipScalar(t: LType, n: int, tail: seq<byte>)
    requires Packable(t)
    ensures SkipField(WireType(t), ScalarBytes(t, n) + tail) == Ok((), tail)
  {
    var s := ScalarBytes(t, n);
    if t.Fixed32? || t.Fixed64? {
      hide LittleEndian;
      SplitAppend(s, tail);
    } else {
      hide SkipField, EncVarint, ZigZag;
      SkipCanonicalVarint(
        if t.Bool? then (if n == 0 then 0 else 1) else if t.SInt? then ZigZag(n) else CastUnsigned(n, 8), tail);
    }
  }

  lemma SkipLengthPrefixed(s: seq<byte>, tail: seq<byte>)
    requires |s| < U32
    ensures SkipField(WT_STRING, LengthPrefixed(s) + tail) == Ok((), tail)
  {
    hide LengthPrefixed, Substream;
    SubstreamOfLengthPrefixed(s, tail);
  }

  // ---------- One step of the loop ----------

  lemma RunStep(d: seq<Field>, st: State, bs: seq<byte>)
    requires bs != []
    ensures Step(d, st, bs).Failed? ==> Run(d, st, bs).Failed?
    ensures Step(d, st, bs).Done? ==>
              var o := Step(d, st, bs); Run(d, st, bs) == if o.stopped then o else Run(d, o.st, o.rest)
  {
    hide Step;
  }

  /** A record whose field the descriptor does not have leaves the state alone. */
  lemma UnknownRecord(d: seq<Field>, st: State, tag: nat, wireType: nat, body: seq<byte>, tail: seq<byte>)
    requires 0 < tag < 0x2000_0000 && wireType < 8
    requires FindTag(d, tag).None?
    requires SkipField(wireType, body + tail) == Ok((), tail)
    ensures Run(d, st, TagBytes(tag, wireType) + body + tail) == Run(d, st, tail)
  {
    var bs := TagBytes(tag, wireType) + body + tail;
    assert bs == TagBytes(tag, wireType) + (body + tail);
    ReadTagBytes(tag, wireType, body + tail);
    hide TagBytes, ReadTag, SkipField, FindTag, ReadIntoEmpty, Run, ReadField;
    assert Step(d, st, bs) == Done(st, tail, false);
    TagBytesNonEmpty(tag, wireType, body + tail);
    RunStep(d, st, bs);
  }

  /** A record of field i is read into that field. */
  lemma KnownRecord(d: seq<Field>, st: State, i: nat, wireType: nat, body: seq<byte>, tail: seq<byte>, st': State)
    requires i < |d| && FindTag(d, d[i].tag) == Some(i)
    requires 0 < d[i].tag < 0x2000_0000 && wireType < 8
    requires MayEnter(d, st, i)
    requires ReadField(d, i, Enter(d, st, i), wireType, body + tail) == Done(st', tail, false)
    ensures Run(d, st, TagBytes(d[i].tag, wireType) + body + tail) == Run(d, st', tail)
  {
    var tag := d[i].tag;
    var bs := TagBytes(tag, wireType) + body + tail;
    assert bs == TagBytes(tag, wireType) + (body + tail);
    ReadTagBytes(tag, wireType, body + tail);
    hide TagBytes, ReadTag, SkipField, FindTag, ReadIntoEmpty, Run, ReadField, Enter, MayEnter;
    assert Step(d, st, bs) == Done(st', tail, false);
    TagBytesNonEmpty(tag, wireType, body + tail);
    RunStep(d, st, bs);
  }

  /** A record of field i, whatever becomes of it. */
  lemma AnyRecord(d: seq<Field>, st: State, i: nat, wireType: nat, body: seq<byte>)
    requires i < |d| && FindTag(d, d[i].tag) == Some(i)
    requires 0 < d[i].tag < 0x2000_0000 && wireType < 8
    ensures Run(d, st, TagBytes(d[i].tag, wireType) + body) ==
            if !MayEnter(d, st, i) then Failed
            else match ReadField(d, i, Enter(d, st, i), wireType, body)
                 case Failed => Failed
                 case Done(st', rest, _) => Run(d, st', rest)
  {
    var tag := d[i].tag;
    var bs := TagBytes(tag, wireType) + body;
    ReadTagBytes(tag, wireType, body);
    TagBytesNonEmpty(tag, wireType, body);
    NeverStops(d, i, Enter(d, st, i), wireType, body);
    hide TagBytes, ReadTag, SkipField, FindTag, ReadIntoEmpty, Run, ReadField, Enter, MayEnter;
    RunStep(d, st, bs);
  }

  lemma NeverStops(d: seq<Field>, i: nat, st: State, wireType: nat, bs: seq<byte>)
    requires i < |d|
    ensures ReadField(d, i, st, wireType, bs).Done? ==> !ReadField(d, i, st, wireType, bs).stopped
  {
    hide ReadItem, ReadArray, OldValue, NewSlot;
  }
}
