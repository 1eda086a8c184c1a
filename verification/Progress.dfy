/**
 The struct as it stands while a message of descriptor d is being read into the view d':
 the members written by the first n fields of d are final, the others hold defaults.
 */
module Progress {
  import opened Wrappers
  import opened Descriptor
  import opened Encoding
  import opened Decoding
  import opened Projection
  import opened DefaultsProjected

  predicate Reached(d: seq<Field>, tag: nat, n: nat) {
    FindTag(d, tag).Some? && FindTag(d, tag).value < n
  }

  function DefaultOf(d: seq<Field>, k: Key): Slot {
    if k.Own? && FindTag(d, k.tag).Some? then DefaultSlot(d[FindTag(d, k.tag).value]) else OneNone
  }

  predicate KeyReached(d: seq<Field>, m: Msg, n: nat, k: Key) {
    if k.Own? then Reached(d, k.tag, n)
    else k in m && m[k].One? && Reached(d, m[k].which, n)
  }

  function SlotAfter(d': seq<Field>, d: seq<Field>, m: Msg, n: nat, k: Key): Slot {
    if KeyReached(d, m, n, k) then ProjectKey(d', d, m, k) else DefaultOf(d', k)
  }

  function StructAfter(d': seq<Field>, d: seq<Field>, m: Msg, n: nat): Msg {
    map k | k in Keys(d') :: SlotAfter(d', d, m, n, k)
  }

  /** The hypotheses of the compatibility theorem. */
  ghost predicate Compatible(d': seq<Field>, d: seq<Field>, m: Msg) {
    WellFormed(d) && WellFormed(d') && ViewOf(d', d) && Normal(d, m)
  }

  lemma StructAfterNone(d': seq<Field>, d: seq<Field>, m: Msg)
    requires WellFormed(d')
    ensures StructAfter(d', d, m, 0) == Defaults(d')
  {
    DefaultsAt(d');
    hide DefaultSlot, WellFormed, ProjectKey;
    forall k | k in Keys(d') ensures SlotAfter(d', d, m, 0, k) == Defaults(d')[k] {
      var j := FieldFromKey(d', k);
      assert WellFormed(d');
      FindTagAt(d', j);
      OneofDefault(d'[j]);
    }
  }

  /** The projection of the member that field i of d and field j of d' share. */
  lemma ProjectMember(d': seq<Field>, d: seq<Field>, m: Msg, i: nat, j: nat)
    requires i < |d| && j < |d'| && KeyOf(d[i]) in m
    requires FindTag(d, d[i].tag) == Some(i) && FindTag(d', d[i].tag) == Some(j)
    ensures KeyOf(d[i]).Own? ==>
              ProjectKey(d', d, m, KeyOf(d[i])) == ProjectOwn(d'[j], d[i], m[KeyOf(d[i])])
    ensures KeyOf(d[i]).Union? && m[KeyOf(d[i])].One? && m[KeyOf(d[i])].which == d[i].tag ==>
              ProjectKey(d', d, m, KeyOf(d[i])) == One(d[i].tag, ProjectValue(d'[j], d[i], m[KeyOf(d[i])].v))
  {
    hide ProjectOwn, ProjectValue, FindTag;
    var k := KeyOf(d[i]);
    if k.Union? {
      assert ProjectKey(d', d, m, k) == ProjectUnion(d', d, m[k]);
    }
  }

  lemma ProjectRemoved(d': seq<Field>, d: seq<Field>, m: Msg, k: Key)
    requires k.Union? && k in m && m[k].One? && FindTag(d', m[k].which).None?
    ensures ProjectKey(d', d, m, k) == OneNone
  {
    hide FindTag;
    assert ProjectKey(d', d, m, k) == ProjectUnion(d', d, m[k]);
  }

  lemma ProjectOwnCases(f': Field, f: Field, s: Slot)
    ensures s.Single? ==> ProjectOwn(f', f, s) == Single(ProjectValue(f', f, s.v))
    ensures s.Opt? ==> ProjectOwn(f', f, s) == Opt(s.has, ProjectValue(f', f, s.v))
    ensures s.Arr? ==> ProjectOwn(f', f, s) == Arr(ProjectItems(f', f, s.items))
  {
    hide ProjectValue, ProjectItems;
  }

  lemma DefaultSlotCases(f: Field)
    ensures f.htype.Required? ==> DefaultSlot(f) == Single(DefaultValue(f))
    ensures f.htype.Optional? ==>
              DefaultSlot(f) == if f.sizeOffset != 0 then Opt(false, DefaultValue(f)) else Single(DefaultValue(f))
    ensures f.htype.Repeated? ==>
              DefaultSlot(f) == Arr(if f.sizeOffset != 0 then [] else seq(f.arraySize, _ => Undefined))
    ensures f.htype.Oneof? ==> DefaultSlot(f) == OneNone
    ensures f.ltype.Submessage? && f.ptr.Sub? ==> DefaultValue(f) == VMsg(Defaults(f.ptr.fields))
  {
    hide Defaults;
  }

  lemma OneofDefault(f: Field)
    ensures f.htype.Oneof? ==> DefaultSlot(f) == OneNone
  {
  }

  lemma StructAfterAll(d': seq<Field>, d: seq<Field>, m: Msg)
    requires Compatible(d', d, m)
    ensures StructAfter(d', d, m, |d|) == Project(d', d, m)
  {
    forall k | k in Keys(d') ensures SlotAfter(d', d, m, |d|, k) == ProjectKey(d', d, m, k) {
      var j := FieldFromKey(d', k);
      var i := ViewIndex(d', d, j);
      NormalField(d, m, i);
      hide FindTag, WellFormed, Normal, ViewOf, ViewOfField, ProjectValue, ProjectOwn, NormalValue, NormalOwn;
    }
    hide SlotAfter, ProjectKey, WellFormed, Normal, ViewOf;
  }

  /** Field i only concerns its own struct member. */
  lemma OtherKeysStay(d': seq<Field>, d: seq<Field>, m: Msg, i: nat, k: Key)
    requires Compatible(d', d, m) && i < |d| && k in Keys(d') && k != KeyOf(d[i])
    ensures SlotAfter(d', d, m, i + 1, k) == SlotAfter(d', d, m, i, k)
  {
    var j := FieldFromKey(d', k);
    var i' := ViewIndex(d', d, j);
    NormalField(d, m, i');
    FindTagAt(d, i);
    hide WellFormed, Normal, ViewOf, ViewOfField, NormalValue, NormalOwn, ProjectKey, DefaultOf, FindTag;
  }

  /** Where the member of field i does not change, neither does the struct. */
  lemma StructSame(d': seq<Field>, d: seq<Field>, m: Msg, i: nat)
    requires Compatible(d', d, m) && i < |d|
    requires KeyOf(d[i]) in Keys(d') ==>
               SlotAfter(d', d, m, i + 1, KeyOf(d[i])) == SlotAfter(d', d, m, i, KeyOf(d[i]))
    ensures StructAfter(d', d, m, i + 1) == StructAfter(d', d, m, i)
  {
    forall k | k in Keys(d') ensures SlotAfter(d', d, m, i + 1, k) == SlotAfter(d', d, m, i, k) {
      if k != KeyOf(d[i]) { OtherKeysStay(d', d, m, i, k); }
    }
    hide SlotAfter, Compatible, Keys;
  }

  lemma StructUpdated(d': seq<Field>, d: seq<Field>, m: Msg, i: nat, s: Slot)
    requires Compatible(d', d, m) && i < |d| && KeyOf(d[i]) in Keys(d')
    requires SlotAfter(d', d, m, i + 1, KeyOf(d[i])) == s
    ensures StructAfter(d', d, m, i + 1) == StructAfter(d', d, m, i)[KeyOf(d[i]) := s]
  {
    forall k | k in Keys(d') && k != KeyOf(d[i])
      ensures SlotAfter(d', d, m, i + 1, k) == SlotAfter(d', d, m, i, k)
    {
      OtherKeysStay(d', d, m, i, k);
    }
    hide SlotAfter, Compatible, Keys;
  }

  /** A field that d' does not have changes nothing in the struct. */
  lemma MissingFieldSame(d': seq<Field>, d: seq<Field>, m: Msg, i: nat)
    requires Compatible(d', d, m) && i < |d| && FindTag(d', d[i].tag).None?
    ensures StructAfter(d', d, m, i + 1) == StructAfter(d', d, m, i)
  {
    var k := KeyOf(d[i]);
    if k in Keys(d') {
      var j := FieldFromKey(d', k);
      assert d'[j].tag != d[i].tag;
      NormalField(d, m, i);
      FindTagAt(d, i);
      if k.Union? && m[k].One? && FindTag(d', m[k].which).None? { ProjectRemoved(d', d, m, k); }
      hide WellFormed, Normal, ViewOf, NormalValue, NormalOwn, FindTag, DefaultSlot, ProjectKey;
    }
    hide SlotAfter;
    StructSame(d', d, m, i);
  }

  /** A field that the encoder leaves out: the member it would have written holds the projected value already. */
  lemma LeftOutSame(d': seq<Field>, d: seq<Field>, m: Msg, i: nat, j: nat)
    requires Compatible(d', d, m) && i < |d| && FindTag(d', d[i].tag) == Some(j)
    requires var s := SlotOf(m, d[i]); if d[i].htype.Repeated? then s == Arr([]) else !Emits(d[i], s)
    ensures StructAfter(d', d, m, i + 1) == StructAfter(d', d, m, i)
  {
    LeftOutSlot(d', d, m, i, j);
    hide SlotAfter, Compatible, FindTag;
    StructSame(d', d, m, i);
  }

  lemma LeftOutSlot(d': seq<Field>, d: seq<Field>, m: Msg, i: nat, j: nat)
    requires Compatible(d', d, m) && i < |d| && FindTag(d', d[i].tag) == Some(j)
    requires var s := SlotOf(m, d[i]); if d[i].htype.Repeated? then s == Arr([]) else !Emits(d[i], s)
    ensures SlotAfter(d', d, m, i + 1, KeyOf(d[i])) == SlotAfter(d', d, m, i, KeyOf(d[i]))
  {
    var f, f', s := d[i], d'[j], SlotOf(m, d[i]);
    var _ := ViewIndex(d', d, j);
    FindTagAt(d, i);
    NormalField(d, m, i);
    assert WellFormedField(f) && WellFormedField(f');
    ProjectMember(d', d, m, i, j);
    ProjectOwnCases(f', f, s);
    DefaultSlotCases(f');
    hide FindTag, WellFormed, Normal, ViewOf, NormalValue, ZeroValue, DefaultValue, DefaultSlot, NormalUnion;
    hide ProjectKey, ProjectOwn, ProjectValue;
    if f.htype.Optional? {
      if f.sizeOffset == 0 { ZeroIsDefault(f, s.v); }
      ProjectDefaultValue(f', f);
    } else if f.htype.Repeated? {
      assert ProjectItems(f', f, []) == [];
    }
  }

  /** The memory into which the record of field i is decoded, and the slot it leaves. */
  lemma EmittedSlot(d': seq<Field>, d: seq<Field>, m: Msg, i: nat, j: nat)
    requires Compatible(d', d, m) && i < |d| && FindTag(d', d[i].tag) == Some(j)
    requires !d[i].htype.Repeated? && Emits(d[i], SlotOf(m, d[i]))
    ensures KeyOf(d'[j]) == KeyOf(d[i]) && KeyOf(d[i]) in Keys(d')
    ensures NormalValue(d[i], SlotOf(m, d[i]).v)
    ensures SlotAfter(d', d, m, i + 1, KeyOf(d[i]))
         == NewSlot(d'[j], ProjectValue(d'[j], d[i], SlotOf(m, d[i]).v))
    ensures d[i].ltype.Submessage? ==> d[i].ptr.Sub? && d'[j].ptr.Sub?
    ensures d[i].ltype.Submessage? ==>
      OldValue(d'[j], SlotAfter(d', d, m, i, KeyOf(d[i]))) == VMsg(Defaults(d'[j].ptr.fields))
  {
    var f, f', s := d[i], d'[j], SlotOf(m, d[i]);
    var _ := ViewIndex(d', d, j);
    KeyFromField(d', j);
    FindTagAt(d, i);
    NormalField(d, m, i);
    ProjectMember(d', d, m, i, j);
    ProjectOwnCases(f', f, s);
    DefaultSlotCases(f');
    hide FindTag, WellFormed, Normal, ViewOf, NormalValue, ZeroValue, Defaults, DefaultSlot, DefaultValue;
    hide ProjectKey, ProjectOwn, ProjectValue;
  }
}
