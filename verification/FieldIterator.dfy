/**
 The cyclic field iterator of pb_common.c. Struct addresses are offsets from the start of
 the struct; the descriptor's terminating entry (tag 0) is the position |fields|, which the
 iterator reaches only when there are no fields at all.
 */
module FieldIterator {
  import opened Descriptor

  /** Where pSize points: into the struct, or at the decoder's counter for a fixed-count field. */
  datatype SizeLoc = InStruct(offset: int) | FixedCounter

  // ---------- The reference: a linear walk from the first field ----------

  predicate InsideUnion(prev: Field, f: Field) {
    prev.htype.Oneof? && f.htype.Oneof? && f.dataOffset == PB_SIZE_MAX
  }

  function SizeInStruct(f: Field): nat {
    if f.atype.Static? && f.htype.Repeated? then f.dataSize * f.arraySize
    else if f.atype.Pointer? then SIZEOF_POINTER
    else f.dataSize
  }

  function DataAt(d: seq<Field>, i: nat): int
    requires i < |d|
  {
    if i == 0 then d[0].dataOffset
    else if InsideUnion(d[i - 1], d[i]) then DataAt(d, i - 1)
    else DataAt(d, i - 1) + SizeInStruct(d[i - 1]) + d[i].dataOffset
  }

  function SizeAt(d: seq<Field>, i: nat): int
    requires i < |d|
  {
    if i > 0 && InsideUnion(d[i - 1], d[i]) then SizeAt(d, i - 1)
    else DataAt(d, i) + d[i].sizeOffset
  }

  /** The entry at pos is the wanted field; the terminator has tag 0 and a non-extension type. */
  predicate Matches(d: seq<Field>, pos: nat, tag: nat) {
    if pos < |d| then d[pos].tag == tag && !d[pos].ltype.Extension? else tag == 0
  }

  /** All members of one union have the same address. */
  lemma {:induction false} UnionSharesData(d: seq<Field>, i: nat, j: nat)
    requires i <= j < |d|
    requires forall k :: i < k <= j ==> InsideUnion(d[k - 1], d[k])
    ensures DataAt(d, i) == DataAt(d, j) && SizeAt(d, i) == SizeAt(d, j)
  {
    if i < j { UnionSharesData(d, i, j - 1); }
  }

  /**
   What the generated offsets guarantee: members of one union are adjacent, exactly its
   further members carry the offset PB_SIZE_MAX, and every member takes up memory.
   */
  predicate LaidOut(d: seq<Field>) {
    && (forall i :: 0 < i < |d| ==> (InsideUnion(d[i - 1], d[i])
        <==> d[i].htype.Oneof? && d[i - 1].htype == d[i].htype))
    && (forall i, j, k ::
          0 <= i <= k <= j < |d| && d[i].htype.Oneof? && d[j].htype == d[i].htype ==> d[k].htype == d[i].htype)
    && (forall i :: 0 <= i < |d| ==> SizeInStruct(d[i]) > 0)
  }

  /** Addresses grow from field to field, except inside a union. */
  lemma {:induction false} DataGrows(d: seq<Field>, i: nat, j: nat)
    requires LaidOut(d) && i <= j < |d|
    ensures DataAt(d, i) <= DataAt(d, j)
    ensures DataAt(d, i) == DataAt(d, j) ==> i == j || (d[j].htype.Oneof? && d[i].htype == d[j].htype)
  {
    if i < j {
      DataGrows(d, i, j - 1);
      hide SizeInStruct;
      assert SizeInStruct(d[j - 1]) > 0;
    }
  }

  /** Two fields have the same address exactly when the model gives them the same struct member. */
  lemma AddressIsMember(d: seq<Field>, i: nat, j: nat)
    requires WellFormed(d) && LaidOut(d) && i < j < |d|
    ensures DataAt(d, i) == DataAt(d, j) <==> KeyOf(d[i]) == KeyOf(d[j])
  {
    DataGrows(d, i, j);
    KeysDistinct(d, i, j);
    if KeyOf(d[i]) == KeyOf(d[j]) {
      assert forall k :: i <= k <= j ==> d[k].htype == d[i].htype;
      forall k | i < k <= j ensures InsideUnion(d[k - 1], d[k]) {
        assert d[k - 1].htype == d[i].htype && d[k].htype == d[i].htype;
      }
      UnionSharesData(d, i, j);
    }
    hide WellFormed, DataAt;
  }

  /** How many items of data_size bytes the struct member of a static field has. */
  function ItemCount(f: Field): nat {
    if f.htype.Repeated? then f.arraySize else 1
  }

  /** Every item of a field ends before a later field begins, unless both lie in one union. */
  lemma ItemsDoNotOverlap(d: seq<Field>, i: nat, k: nat, j: nat)
    requires LaidOut(d) && i < j < |d| && !InsideUnion(d[i], d[i + 1])
    requires d[i].atype.Static? && k < ItemCount(d[i])
    ensures DataAt(d, i) + k * d[i].dataSize + d[i].dataSize <= DataAt(d, j)
  {
    DataGrows(d, i + 1, j);
    ItemInside(d[i], k);
    hide LaidOut, SizeInStruct, ItemCount, InsideUnion;
  }

  lemma ItemInside(f: Field, k: nat)
    requires f.atype.Static? && k < ItemCount(f)
    ensures k * f.dataSize + f.dataSize <= SizeInStruct(f)
  {
    var n, size := ItemCount(f), f.dataSize;
    assert SizeInStruct(f) == n * size;
    assert (n - k - 1) * size >= 0;
  }

  // ---------- The offsets that the descriptor macros compute ----------

  /** Where the struct has a field: offsetof and sizeof of its member, offsetof of its has_, count or which_ field. */
  datatype Place = Place(data: int, bytes: nat, size: int)

  /** pb_membersize and pb_arraysize of the member; for a pointer data_size is that of what it points to. */
  predicate SizedBy(f: Field, p: Place) {
    if f.atype.Pointer? then p.bytes == SIZEOF_POINTER
    else if f.atype.Static? && f.htype.Repeated? then
      f.dataSize > 0 && f.arraySize == p.bytes / f.dataSize && p.bytes % f.dataSize == 0
    else f.dataSize == p.bytes
  }

  /** The macros for the first field, the following fields, and the further members of a union. */
  predicate PlacedBy(d: seq<Field>, places: seq<Place>, i: nat)
    requires i < |d| == |places|
  {
    var p := places[i];
    if i > 0 && InsideUnion(d[i - 1], d[i]) then p.data == places[i - 1].data && p.size == places[i - 1].size
    else
      && d[i].dataOffset == p.data - (if i == 0 then 0 else places[i - 1].data + places[i - 1].bytes)
      && d[i].sizeOffset == p.size - p.data
  }

  predicate GeneratedFrom(d: seq<Field>, places: seq<Place>) {
    && |places| == |d|
    && (forall i :: 0 <= i < |d| ==> SizedBy(d[i], places[i]))
    && forall i :: 0 <= i < |d| ==> PlacedBy(d, places, i)
  }

  /** The walk over relative offsets arrives at the struct's absolute ones. */
  lemma {:induction false} OffsetsRecovered(d: seq<Field>, places: seq<Place>, i: nat)
    requires GeneratedFrom(d, places) && i < |d|
    ensures DataAt(d, i) == places[i].data && SizeAt(d, i) == places[i].size
  {
    assert PlacedBy(d, places, i);
    if i > 0 {
      OffsetsRecovered(d, places, i - 1);
      assert SizedBy(d[i - 1], places[i - 1]);
      MemberSize(d[i - 1], places[i - 1]);
    }
    hide SizedBy, SizeInStruct, InsideUnion;
  }

  lemma MemberSize(f: Field, p: Place)
    requires SizedBy(f, p)
    ensures SizeInStruct(f) == p.bytes
  {
  }

  class FieldIter {
    const start: seq<Field>
    var pos: nat
    var requiredFieldIndex: nat
    var pData: int
    var pSize: SizeLoc

    /** Every cached value is the one of the linear walk to pos, however pos was reached. */
    ghost predicate Accurate()
      reads this
    {
      Valid() && pSize.InStruct?
    }

    /** As Accurate, but the decoder may have redirected pSize of a repeated field. */
    ghost predicate Valid()
      reads this
    {
      if start == [] then pos == 0 && requiredFieldIndex == 0 && pData == 0 && pSize == InStruct(0)
      else
        && pos < |start|
        && requiredFieldIndex == RequiredBefore(start, pos)
        && pData == DataAt(start, pos)
        && (pSize == InStruct(SizeAt(start, pos)) || (pSize.FixedCounter? && start[pos].htype.Repeated?))
    }

    /** pb_field_iter_begin on a fresh iterator. */
    constructor (fields: seq<Field>)
      ensures Accurate() && start == fields && pos == 0
    {
      start := fields;
      pos := 0;
      requiredFieldIndex := 0;
      pData := if fields == [] then 0 else fields[0].dataOffset;
      pSize := InStruct(if fields == [] then 0 else fields[0].dataOffset + fields[0].sizeOffset);
    }

    method Begin() returns (more: bool)
      modifies this
      ensures Accurate() && pos == 0
      ensures more == (start != [])
    {
      pos := 0;
      requiredFieldIndex := 0;
      if start == [] {
        pData, pSize := 0, InStruct(0);
      } else {
        pData := start[0].dataOffset;
        pSize := InStruct(pData + start[0].sizeOffset);
      }
      more := start != [];
    }

    method Next() returns (more: bool)
      requires Valid()
      modifies this
      ensures Accurate()
      ensures more == (old(pos) + 1 < |start|)
      ensures pos == if more then old(pos) + 1 else 0
    {
      if start == [] { return false; }
      var prev := start[pos];
      pos := pos + 1;
      if pos == |start| {
        var _ := Begin();
        return false;
      }
      if InsideUnion(prev, start[pos]) {
        return true;
      }
      var prevSize := prev.dataSize;
      if prev.atype.Static? && prev.htype.Repeated? {
        prevSize := prevSize * prev.arraySize;
      } else if prev.atype.Pointer? {
        prevSize := SIZEOF_POINTER;
      }
      if prev.htype.Required? {
        requiredFieldIndex := requiredFieldIndex + 1;
      }
      pData := pData + prevSize + start[pos].dataOffset;
      pSize := InStruct(pData + start[pos].sizeOffset);
      return true;
    }

    /** Cyclic search: finds a field exactly when the descriptor has one, from any position. */
    method Find(tag: nat) returns (found: bool)
      requires Valid()
      modifies this
      ensures Valid() && (old(Accurate()) ==> Accurate())
      ensures found ==> Matches(start, pos, tag)
      ensures start != [] ==> (found <==> exists i :: 0 <= i < |start| && Matches(start, i, tag))
      ensures start == [] ==> (found <==> tag == 0)
      ensures !found ==> pos == old(pos)
      ensures pos != old(pos) ==> Accurate()
      ensures pos == old(pos) ==> pSize == old(pSize) || Accurate()
    {
      var from := pos;
      ghost var wrapped := false;
      var searching := true;
      while searching
        invariant Valid() && (old(Accurate()) ==> Accurate())
        invariant start == [] ==> pos == from && (!searching ==> tag != 0)
        invariant start != [] && !wrapped ==> searching && from <= pos
        invariant start != [] && !wrapped ==> forall i :: from <= i < pos ==> !Matches(start, i, tag)
        invariant start != [] && wrapped ==> pos <= from && (searching <==> pos != from)
        invariant start != [] && wrapped ==> forall i :: from <= i < |start| || 0 <= i < pos ==> !Matches(start, i, tag)
        invariant Accurate() || (pos == from && pSize == old(pSize))
        invariant !searching ==> pos == from
        decreases searching, !wrapped, if wrapped then from - pos else |start| - pos
      {
        if Matches(start, pos, tag) { return true; }
        var more := Next();
        if !more { wrapped := true; }
        searching := pos != from;
      }
      return false;
    }
  }
}
