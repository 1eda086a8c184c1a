/**
 URLEncodedFormComponent: the tree that Alamofire's form encoder fills by setting values at
 coding paths. A path step with an integer addresses an array, one without an object; a
 container of the wrong kind is replaced, and an index beyond the end appends.
 */
module FormComponent {
  import opened Wrappers

  datatype Component =
    | Text(text: string)
    | Arr(items: seq<Component>)
    | Obj(fields: seq<(string, Component)>)

  /** A CodingKey with or without an integer value. */
  datatype Key = Index(i: nat) | Name(name: string)

  /** `first(where:)` and `firstIndex(where:)` on an object's keys. */
  function FirstIndex(fields: seq<(string, Component)>, name: string): (r: Option<nat>)
    ensures r.Some? ==> r.value < |fields| && fields[r.value].0 == name
    ensures r.Some? ==> forall j :: 0 <= j < r.value ==> fields[j].0 != name
    ensures r.None? ==> forall j :: 0 <= j < |fields| ==> fields[j].0 != name
  {
    if fields == [] then None
    else if fields[0].0 == name then Some(0)
    else match FirstIndex(fields[1..], name)
         case None =>
           assert forall j :: 0 < j < |fields| ==> fields[j] == fields[1..][j - 1];
           None
         case Some(i) =>
           assert forall j :: 0 < j <= i ==> fields[j] == fields[1..][j - 1];
           Some(i + 1)
  }

  // ---------- Reading ----------

  function Lookup(c: Component, k: Key): Option<Component> {
    match k
    case Index(i) => if c.Arr? && i < |c.items| then Some(c.items[i]) else None
    case Name(name) =>
      if !c.Obj? then None
      else match FirstIndex(c.fields, name)
           case None => None
           case Some(j) => Some(c.fields[j].1)
  }

  function Get(c: Component, path: seq<Key>): Option<Component> {
    if path == [] then Some(c)
    else match Lookup(c, path[0])
         case None => None
         case Some(child) => Get(child, path[1..])
  }

  // ---------- set(_:to:at:) ----------

  /** The existing child, or the empty container that the code starts from. */
  function Child(c: Component, k: Key): Component {
    match Lookup(c, k)
    case Some(child) => child
    case None => if k.Index? then Arr([]) else Obj([])
  }

  /** Store a child: replace, append, or replace the whole container by a fresh one. */
  function Put(c: Component, k: Key, child: Component): Component {
    match k
    case Index(i) =>
      if !c.Arr? then Arr([child])
      else if i < |c.items| then Arr(c.items[i := child])
      else Arr(c.items + [child])
    case Name(name) =>
      if !c.Obj? then Obj([(name, child)])
      else match FirstIndex(c.fields, name)
           case Some(j) => Obj(c.fields[j := (name, child)])
           case None => Obj(c.fields + [(name, child)])
  }

  function Set(c: Component, v: Component, path: seq<Key>): Component
    decreases |path|
  {
    if path == [] then v
    else Put(c, path[0], Set(Child(c, path[0]), v, path[1..]))
  }

  /** The recursive method; the result is the new value of the inout parameter. */
  method SetAt(context: Component, value: Component, path: seq<Key>) returns (r: Component)
    ensures r == Set(context, value, path)
    decreases |path|
  {
    if path == [] { return value; }
    var end := path[0];
    var child: Component;
    if |path| == 1 {
      child := value;
      assert path[1..] == [];
    } else if end.Index? {
      var elements := if context.Arr? then context.items else [];
      child := if |elements| > end.i then elements[end.i] else Arr([]);
      child := SetAt(child, value, path[1..]);
    } else {
      child := Obj([]);
      if context.Obj? {
        var found := FirstIndex(context.fields, end.name);
        if found.Some? { child := context.fields[found.value].1; }
      }
      child := SetAt(child, value, path[1..]);
    }
    if end.Index? {
      if context.Arr? {
        var elements := context.items;
        if |elements| > end.i {
          elements := elements[end.i := child];
        } else {
          elements := elements + [child];
        }
        r := Arr(elements);
      } else {
        r := Arr([child]);
      }
    } else if context.Obj? {
      var members := context.fields;
      var found := FirstIndex(members, end.name);
      if found.Some? {
        members := members[found.value := (end.name, child)];
      } else {
        members := members + [(end.name, child)];
      }
      r := Obj(members);
    } else {
      r := Obj([(end.name, child)]);
    }
  }

  /** URLEncodedFormContext, through which all containers of one encoding share the tree. */
  class Context {
    var component: Component

    constructor (initial: Component)
      ensures component == initial
    {
      component := initial;
    }

    method SetComponent(value: Component, path: seq<Key>)
      modifies this
      ensures component == Set(old(component), value, path)
    {
      component := SetAt(component, value, path);
    }
  }

  // ---------- Where a value ends up ----------

  /** The key under which a child stored with Put(c, k, _) is found. */
  function Landing(c: Component, k: Key): Key {
    match k
    case Index(i) => var n := if c.Arr? then |c.items| else 0; Index(if i < n then i else n)
    case Name(_) => k
  }

  function LandingPath(c: Component, path: seq<Key>): (r: seq<Key>)
    ensures |r| == |path|
    decreases |path|
  {
    if path == [] then [] else [Landing(c, path[0])] + LandingPath(Child(c, path[0]), path[1..])
  }

  /** No step's index is beyond the length of the array it meets. */
  predicate Addressable(c: Component, path: seq<Key>)
    decreases |path|
  {
    path == [] || (Landing(c, path[0]) == path[0] && Addressable(Child(c, path[0]), path[1..]))
  }

  lemma {:induction false} FirstIndexIs(fields: seq<(string, Component)>, name: string, j: nat)
    requires j < |fields| && fields[j].0 == name && forall i :: 0 <= i < j ==> fields[i].0 != name
    ensures FirstIndex(fields, name) == Some(j)
  {
    var r := FirstIndex(fields, name);
    assert r.Some?;
  }

  /** A stored child is found at its landing key. */
  lemma LookupPut(c: Component, k: Key, child: Component)
    ensures Lookup(Put(c, k, child), Landing(c, k)) == Some(child)
    ensures Landing(c, k) != k ==> Lookup(Put(c, k, child), k) == None
  {
    if k.Name? && c.Obj? {
      var j := FirstIndex(c.fields, k.name);
      FirstIndexIs(Put(c, k, child).fields, k.name, if j.Some? then j.value else |c.fields|);
    }
  }

  /** Storing under one key leaves every other key of a container of the right kind alone. */
  lemma LookupElsewhere(c: Component, k: Key, child: Component, other: Key)
    requires other != Landing(c, k)
    ensures Lookup(Put(c, k, child), other) == if RightKind(c, k) then Lookup(c, other) else None
  {
    var p := Put(c, k, child);
    if k.Name? && c.Obj? && other.Name? {
      var was, now := FirstIndex(c.fields, other.name), FirstIndex(p.fields, other.name);
      assert forall j :: 0 <= j < |c.fields| ==> p.fields[j].0 == c.fields[j].0;
      if was.Some? { FirstIndexIs(p.fields, other.name, was.value); }
    }
  }

  predicate RightKind(c: Component, k: Key) {
    if k.Index? then c.Arr? else c.Obj?
  }

  // ---------- The laws ----------

  /** The value can always be read back at the landing path. */
  lemma {:induction false} ReadBackWhereItLands(c: Component, v: Component, path: seq<Key>)
    ensures Get(Set(c, v, path), LandingPath(c, path)) == Some(v)
    decreases |path|
  {
    hide Lookup, Put, Landing;
    if path != [] {
      var child := Set(Child(c, path[0]), v, path[1..]);
      ReadBackWhereItLands(Child(c, path[0]), v, path[1..]);
      LookupPut(c, path[0], child);
      assert LandingPath(c, path)[1..] == LandingPath(Child(c, path[0]), path[1..]);
    }
  }

  /** At the path itself the value is read back exactly when every index is at most the array's length. */
  lemma {:induction false} ReadBack(c: Component, v: Component, path: seq<Key>)
    ensures Get(Set(c, v, path), path) == if Addressable(c, path) then Some(v) else None
    decreases |path|
  {
    hide Lookup, Put, Landing;
    if path != [] {
      ReadBack(Child(c, path[0]), v, path[1..]);
      LookupPut(c, path[0], Set(Child(c, path[0]), v, path[1..]));
    }
  }

  lemma {:induction false} AddressableLands(c: Component, path: seq<Key>)
    ensures Addressable(c, path) <==> LandingPath(c, path) == path
    decreases |path|
  {
    hide Landing, Child;
    if path != [] {
      AddressableLands(Child(c, path[0]), path[1..]);
      assert path == [path[0]] + path[1..];
      assert LandingPath(c, path)[1..] == LandingPath(Child(c, path[0]), path[1..]);
    }
  }

  /**
   `other` leaves the landing path at some step, and all containers on the way, up to and
   including the one where it leaves, are of the kind that the path needs.
   */
  predicate Diverges(c: Component, path: seq<Key>, other: seq<Key>)
    decreases |path|
  {
    && path != [] && other != [] && RightKind(c, path[0])
    && (other[0] != Landing(c, path[0]) || Diverges(Child(c, path[0]), path[1..], other[1..]))
  }

  /** Every such other path reads as before. */
  lemma {:induction false} OthersUnchanged(c: Component, v: Component, path: seq<Key>, other: seq<Key>)
    requires Diverges(c, path, other)
    ensures Get(Set(c, v, path), other) == Get(c, other)
    decreases |path|
  {
    var k, child := path[0], Set(Child(c, path[0]), v, path[1..]);
    if other[0] != Landing(c, k) {
      hide Lookup, Put, Landing;
      LookupElsewhere(c, k, child, other[0]);
    } else {
      OthersUnchanged(Child(c, k), v, path[1..], other[1..]);
      LookupPut(c, k, child);
      ChildAtLanding(c, k, other[1..]);
      hide Lookup, Put, Landing, Child;
    }
  }

  /** Reading on from the child that Put replaces: a missing child reads like the empty container. */
  lemma ChildAtLanding(c: Component, k: Key, rest: seq<Key>)
    requires rest != []
    ensures match Lookup(c, Landing(c, k))
            case None => Get(Child(c, k), rest) == None
            case Some(child) => child == Child(c, k)
  {
  }

  /** A container of the wrong kind is replaced as a whole: nothing else in it survives. */
  lemma WrongKindReplaced(c: Component, v: Component, path: seq<Key>, other: seq<Key>)
    requires path != [] && other != [] && !RightKind(c, path[0]) && other[0] != Landing(c, path[0])
    ensures Get(Set(c, v, path), other) == None
  {
    hide Lookup, Put, Landing;
    LookupElsewhere(c, path[0], Set(Child(c, path[0]), v, path[1..]), other[0]);
  }

  /** Setting twice at an addressable path is setting once. */
  lemma {:induction false} LastSetWins(c: Component, v: Component, w: Component, path: seq<Key>)
    requires Addressable(c, path)
    ensures Set(Set(c, v, path), w, path) == Set(c, w, path)
    decreases |path|
  {
    if path != [] {
      var k, x := path[0], Set(Child(c, path[0]), v, path[1..]);
      LookupPut(c, k, x);
      PutTwice(c, k, x, Set(Child(c, k), w, path[1..]));
      LastSetWins(Child(c, k), v, w, path[1..]);
      hide Lookup, Put, Landing;
    }
  }

  lemma PutTwice(c: Component, k: Key, x: Component, y: Component)
    requires Landing(c, k) == k
    ensures Put(Put(c, k, x), k, y) == Put(c, k, y)
  {
    if k.Name? && c.Obj? {
      var j := FirstIndex(c.fields, k.name);
      FirstIndexIs(Put(c, k, x).fields, k.name, if j.Some? then j.value else |c.fields|);
    }
  }

  // ---------- Object keys ----------

  /** In every object of the tree no key occurs twice. */
  predicate UniqueKeys(c: Component) {
    match c
    case Text(_) => true
    case Arr(items) => forall i :: 0 <= i < |items| ==> UniqueKeys(items[i])
    case Obj(fields) =>
      && (forall i, j :: 0 <= i < j < |fields| ==> fields[i].0 != fields[j].0)
      && (forall i :: 0 <= i < |fields| ==> UniqueKeys(fields[i].1))
  }

  lemma ChildUnique(c: Component, k: Key)
    requires UniqueKeys(c)
    ensures UniqueKeys(Child(c, k))
  {
  }

  lemma PutUnique(c: Component, k: Key, child: Component)
    requires UniqueKeys(c) && UniqueKeys(child)
    ensures UniqueKeys(Put(c, k, child))
  {
  }

  lemma {:induction false} KeysStayUnique(c: Component, v: Component, path: seq<Key>)
    requires UniqueKeys(c) && UniqueKeys(v)
    ensures UniqueKeys(Set(c, v, path))
    decreases |path|
  {
    hide UniqueKeys, Put, Child;
    if path != [] {
      ChildUnique(c, path[0]);
      KeysStayUnique(Child(c, path[0]), v, path[1..]);
      PutUnique(c, path[0], Set(Child(c, path[0]), v, path[1..]));
    }
  }

  // ---------- The order of object keys ----------

  function Names(fields: seq<(string, Component)>): (r: seq<string>)
    ensures |r| == |fields| && forall i :: 0 <= i < |fields| ==> r[i] == fields[i].0
  {
    if fields == [] then [] else [fields[0].0] + Names(fields[1..])
  }

  /** Setting a value below a node of the tree changes what is below that node, in the same way. */
  lemma {:induction false} SetBelow(c: Component, v: Component, path: seq<Key>, below: seq<Key>)
    requires Get(c, path).Some?
    ensures Get(Set(c, v, path + below), path) == Some(Set(Get(c, path).value, v, below))
    decreases |path|
  {
    if path == [] {
      assert path + below == below;
    } else {
      var k := path[0];
      assert (path + below)[1..] == path[1..] + below;
      assert Child(c, k) == Lookup(c, k).value && Landing(c, k) == k;
      SetBelow(Child(c, k), v, path[1..], below);
      LookupPut(c, k, Set(Child(c, k), v, path[1..] + below));
      hide Lookup, Put, Landing, Child;
    }
  }

  /** An object anywhere in the tree keeps its keys in the order of insertion: a new key comes last. */
  lemma KeysInOrder(c: Component, v: Component, path: seq<Key>, name: string, below: seq<Key>)
    requires Get(c, path).Some? && Get(c, path).value.Obj?
    ensures
      var was, now := Names(Get(c, path).value.fields), Get(Set(c, v, path + ([Name(name)] + below)), path);
      && now.Some? && now.value.Obj?
      && Names(now.value.fields) == if name in was then was else was + [name]
  {
    SetBelow(c, v, path, [Name(name)] + below);
    var node := Get(c, path).value;
    assert ([Name(name)] + below)[0] == Name(name);
    PutInOrder(node.fields, name, Set(Child(node, Name(name)), v, ([Name(name)] + below)[1..]));
    hide Get, Put, Child, Names;
  }

  lemma PutInOrder(fields: seq<(string, Component)>, name: string, child: Component)
    ensures
      var was, now := Names(fields), Put(Obj(fields), Name(name), child);
      now.Obj? && Names(now.fields) == if name in was then was else was + [name]
  {
    var was, now := Names(fields), Names(Put(Obj(fields), Name(name), child).fields);
    var j := FirstIndex(fields, name);
    if j.Some? {
      assert was[j.value] == name && now == was;
    } else {
      assert name !in was && now == was + [name];
    }
  }
}
