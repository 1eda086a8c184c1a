/**
 Fields that the encoder leaves out are exactly those that still hold their defaults, and
 projecting defaults gives defaults.
 */
module DefaultsProjected {
  import opened Wrappers
  import opened Descriptor
  import opened Scalars
  import opened Encoding
  import opened Projection

  lemma {:induction false} ProjectItemsAt(f': Field, f: Field, items: seq<Value>, k: nat)
    requires k < |items|
    ensures ProjectItems(f', f, items)[k] == ProjectValue(f', f, items[k])
  {
    hide ProjectValue;
    if k < |items| - 1 {
      ProjectItemsAt(f', f, items[..|items| - 1], k);
    }
  }

  lemma ViewIndex(d': seq<Field>, d: seq<Field>, j: nat) returns (i: nat)
    requires ViewOf(d', d) && j < |d'|
    ensures i < |d| && FindTag(d, d'[j].tag) == Some(i) && d[i].tag == d'[j].tag
    ensures ViewOfField(d'[j], d[i]) && KeyOf(d'[j]) == KeyOf(d[i])
  {
    hide FindTag;
    assert ViewAt(d', d, j);
    i := FindTag(d, d'[j].tag).value;
  }

  lemma KeyFromField(d: seq<Field>, i: nat)
    requires i < |d|
    ensures KeyOf(d[i]) in Keys(d)
  {
  }

  lemma FieldFromKey(d: seq<Field>, k: Key) returns (i: nat)
    requires k in Keys(d)
    ensures i < |d| && KeyOf(d[i]) == k
  {
    i :| 0 <= i < |d| && KeyOf(d[i]) == k;
  }

  lemma NormalField(d: seq<Field>, m: Msg, i: nat)
    requires Normal(d, m) && i < |d|
    ensures KeyOf(d[i]) in m && SlotOf(m, d[i]) == m[KeyOf(d[i])]
    ensures if d[i].htype.Oneof? then NormalUnion(d, KeyOf(d[i]), m[KeyOf(d[i])])
            else NormalOwn(d[i], m[KeyOf(d[i])])
  {
    assert NormalAt(d, m, i);
    hide NormalUnion, NormalOwn;
  }

  // ---------- Zero means default ----------

  lemma {:induction false} ZeroIsDefault(f: Field, v: Value)
    requires WellFormedField(f) && NormalValue(f, v) && ZeroValue(f, v) && !f.ptr.Init?
    ensures v == DefaultValue(f)
    decreases f, 0
  {
    if f.ltype.Submessage? {
      ZeroIsDefaults(f.ptr.fields, v.m);
    } else {
      hide InRange;
    }
  }

  lemma {:induction false} ZeroIsDefaults(d: seq<Field>, m: Msg)
    requires WellFormed(d) && Normal(d, m) && ZeroMsg(d, m)
    ensures m == Defaults(d)
    decreases d, 1
  {
    DefaultsAt(d);
    ZeroMsgAt(d, m);
    forall k | k in m ensures k in Defaults(d) && m[k] == Defaults(d)[k] {
      var i := FieldFromKey(d, k);
      assert NormalAt(d, m, i);
      assert ZeroSlot(d[i], SlotOf(m, d[i]));
      ZeroSlotIsDefault(d, m, i);
    }
    hide DefaultSlot, ZeroSlot, NormalAt, WellFormed;
  }

  lemma {:induction false} ZeroSlotIsDefault(d: seq<Field>, m: Msg, i: nat)
    requires i < |d| && WellFormedField(d[i]) && NormalAt(d, m, i) && ZeroSlot(d[i], m[KeyOf(d[i])])
    ensures m[KeyOf(d[i])] == DefaultSlot(d[i])
    decreases d, 0
  {
    var f, s := d[i], m[KeyOf(d[i])];
    hide ZeroValue, NormalValue, DefaultValue, WellFormedField, NormalUnion, NormalItems;
    if f.htype.Optional? && f.sizeOffset == 0 {
      ZeroIsDefault(f, s.v);
    }
  }

  // ---------- The projection of defaults ----------

  lemma {:induction false} ProjectDefaultValue(f': Field, f: Field)
    requires WellFormedField(f) && WellFormedField(f') && ViewOfField(f', f)
    ensures ProjectValue(f', f, DefaultValue(f)) == DefaultValue(f')
    decreases f, 0
  {
    if f.ltype.Submessage? && f.ptr.Sub? {
      ProjectDefaults(f'.ptr.fields, f.ptr.fields);
    }
  }

  lemma {:induction false} ProjectDefaults(d': seq<Field>, d: seq<Field>)
    requires WellFormed(d) && WellFormed(d') && ViewOf(d', d)
    ensures Project(d', d, Defaults(d)) == Defaults(d')
    decreases d, 1
  {
    DefaultsAt(d);
    DefaultsAt(d');
    forall k | k in Keys(d') ensures ProjectKey(d', d, Defaults(d), k) == Defaults(d')[k] {
      var j := FieldFromKey(d', k);
      var i := ViewIndex(d', d, j);
      KeyFromField(d, i);
      FindTagAt(d', j);
      FindTagAt(d, i);
      ProjectDefaultSlot(d', d, i, j);
    }
    hide ProjectKey, Keys;
  }

  lemma {:induction false} ProjectDefaultSlot(d': seq<Field>, d: seq<Field>, i: nat, j: nat)
    requires i < |d| && j < |d'| && WellFormedField(d[i]) && WellFormedField(d'[j]) && ViewOfField(d'[j], d[i])
    requires FindTag(d, d[i].tag) == Some(i) && FindTag(d', d[i].tag) == Some(j)
    requires KeyOf(d[i]) in Defaults(d) && Defaults(d)[KeyOf(d[i])] == DefaultSlot(d[i])
    ensures ProjectKey(d', d, Defaults(d), KeyOf(d[i])) == DefaultSlot(d'[j])
    decreases d, 0
  {
    hide DefaultValue, ProjectValue, WellFormedField, Defaults;
    var f', f := d'[j], d[i];
    if f.htype.Required? || f.htype.Optional? {
      ProjectDefaultValue(f', f);
    } else if f.htype.Repeated? {
      ProjectUndefined(f', f, f.arraySize);
    }
  }

  lemma {:induction false} ProjectUndefined(f': Field, f: Field, n: nat)
    ensures ProjectItems(f', f, seq(n, _ => Undefined)) == seq(n, _ => Undefined)
  {
    var items := seq(n, _ => Undefined);
    forall k | 0 <= k < n ensures ProjectItems(f', f, items)[k] == items[k] {
      ProjectItemsAt(f', f, items, k);
    }
  }
}
