/** Deep copies of attribute trees: maps and slices are heap objects, and a copy shares none with its source. */
module AttributeClones {
  import opened ByteText

  /** A map's key, of any comparable kind; those of other kinds are told apart by a number. */
  datatype MapKey = TextKey(text: Bytes) | NumberKey(number: int) | TruthKey(truth: bool) | OtherKey(id: nat)

  /** A map or a slice's backing store; whoever holds a reference may write to it. */
  class MapObject {
    var entries: map<MapKey, Value>

    constructor ()
      ensures entries == map[]
    {
      entries := map[];
    }
  }

  class SliceObject {
    var elems: seq<Value>

    constructor ()
      ensures elems == []
    {
      elems := [];
    }
  }

  datatype Value =
    | Scalar(text: Bytes)
    | NilInterface
    | NilMap
    | NilSlice
    | Boxed(inner: Value)
    | Fixed(items: seq<Value>)
    | MapOf(m: MapObject)
    | SliceOf(s: SliceObject)

  /** A finite tree of values as it lies in the heap: its containers with what each holds. */
  datatype Tree =
    | Leaf(value: Value)
    | BoxTree(inner: Tree)
    | FixedTree(items: seq<Tree>)
    | MapTree(m: MapObject, kids: map<MapKey, Tree>)
    | SliceTree(s: SliceObject, items: seq<Tree>)

  /** The same tree with the identity of its containers forgotten. */
  datatype Shape =
    | LeafShape(value: Value)
    | BoxShape(inner: Shape)
    | FixedShape(items: seq<Shape>)
    | MapShape(kids: map<MapKey, Shape>)
    | SliceShape(items: seq<Shape>)

  ghost function ShapeOf(t: Tree): Shape {
    match t
    case Leaf(v) => LeafShape(v)
    case BoxTree(inner) => BoxShape(ShapeOf(inner))
    case FixedTree(items) => FixedShape(seq(|items|, i requires 0 <= i < |items| => ShapeOf(items[i])))
    case MapTree(_, kids) => MapShape(map k | k in kids :: ShapeOf(kids[k]))
    case SliceTree(_, items) => SliceShape(seq(|items|, i requires 0 <= i < |items| => ShapeOf(items[i])))
  }

  /** Trees of one shape differ in nothing but which containers they are made of. */
  lemma {:induction false} ShapeTells(a: Tree, b: Tree)
    requires ShapeOf(a) == ShapeOf(b)
    ensures match a
            case Leaf(v) => b == Leaf(v)
            case BoxTree(inner) => b.BoxTree? && ShapeOf(b.inner) == ShapeOf(inner)
            case FixedTree(items) => b.FixedTree? && SameShapes(b.items, items)
            case MapTree(_, kids) => b.MapTree? && SameKids(b.kids, kids, kids.Keys)
            case SliceTree(_, items) => b.SliceTree? && SameShapes(b.items, items)
  {
    if a.MapTree? {
      SameShapeKeys(b, a);
      assert forall k :: k in a.kids ==> ShapeOf(a).kids[k] == ShapeOf(a.kids[k]);
      assert forall k :: k in b.kids ==> ShapeOf(b).kids[k] == ShapeOf(b.kids[k]);
    } else if a.FixedTree? {
      SameItems(a.items, b.items, ShapeOf(a).items);
    } else if a.SliceTree? {
      SameItems(a.items, b.items, ShapeOf(a).items);
    }
  }

  lemma SameItems(a: seq<Tree>, b: seq<Tree>, shapes: seq<Shape>)
    requires shapes == seq(|a|, i requires 0 <= i < |a| => ShapeOf(a[i]))
    requires shapes == seq(|b|, i requires 0 <= i < |b| => ShapeOf(b[i]))
    ensures SameShapes(b, a)
  {
    assert forall i :: 0 <= i < |a| ==> shapes[i] == ShapeOf(a[i]);
    assert forall i :: 0 <= i < |b| ==> shapes[i] == ShapeOf(b[i]);
  }

  /** The heap holds this tree at this value, with every container of it among `repr`. */
  ghost predicate Holds(v: Value, t: Tree, repr: set<object>)
    reads repr
    decreases t
  {
    match t
    case Leaf(leaf) => v == leaf && (v.Scalar? || v.NilInterface? || v.NilMap? || v.NilSlice?)
    case BoxTree(inner) => v.Boxed? && Holds(v.inner, inner, repr)
    case FixedTree(items) => v.Fixed? && AllHold(v.items, items, repr)
    case MapTree(m, kids) =>
      v == MapOf(m) && m in repr && m.entries.Keys == kids.Keys
      && forall k :: k in kids ==> Holds(m.entries[k], kids[k], repr)
    case SliceTree(s, items) => v == SliceOf(s) && s in repr && AllHold(s.elems, items, repr)
  }

  ghost predicate EntriesHold(entries: map<MapKey, Value>, kids: map<MapKey, Tree>, repr: set<object>)
    reads repr
  {
    entries.Keys == kids.Keys && forall k :: k in kids ==> Holds(entries[k], kids[k], repr)
  }

  ghost predicate AllHold(values: seq<Value>, trees: seq<Tree>, repr: set<object>)
    reads repr
    decreases trees, 0
  {
    |values| == |trees| && forall i :: 0 <= i < |trees| ==> Holds(values[i], trees[i], repr)
  }

  lemma {:induction false} HoldsWithin(v: Value, t: Tree, repr: set<object>, more: set<object>)
    requires Holds(v, t, repr) && repr <= more
    ensures Holds(v, t, more)
    decreases t
  {
    match t
    case Leaf(_) =>
    case BoxTree(inner) => HoldsWithin(v.inner, inner, repr, more);
    case FixedTree(items) => AllHoldWithin(v.items, items, repr, more);
    case MapTree(m, kids) =>
      forall k | k in kids ensures Holds(m.entries[k], kids[k], more) {
        HoldsWithin(m.entries[k], kids[k], repr, more);
      }
    case SliceTree(s, items) => AllHoldWithin(s.elems, items, repr, more);
  }

  lemma {:induction false} EntriesHoldWithin(
      entries: map<MapKey, Value>, kids: map<MapKey, Tree>, repr: set<object>, more: set<object>)
    requires EntriesHold(entries, kids, repr) && repr <= more
    ensures EntriesHold(entries, kids, more)
  {
    forall k | k in kids ensures Holds(entries[k], kids[k], more) {
      HoldsWithin(entries[k], kids[k], repr, more);
    }
  }

  lemma {:induction false} AllHoldWithin(values: seq<Value>, trees: seq<Tree>, repr: set<object>, more: set<object>)
    requires AllHold(values, trees, repr) && repr <= more
    ensures AllHold(values, trees, more)
    decreases trees, 0
  {
    forall i | 0 <= i < |trees| ensures Holds(values[i], trees[i], more) {
      HoldsWithin(values[i], trees[i], repr, more);
    }
  }

  ghost predicate SameShapes(a: seq<Tree>, b: seq<Tree>) {
    |a| == |b| && forall i :: 0 <= i < |a| ==> ShapeOf(a[i]) == ShapeOf(b[i])
  }

  /** Copies a value. The copy has the source's shape and every container in it is new. */
  method CloneValue(v: Value, ghost t: Tree, ghost source: set<object>)
      returns (out: Value, ghost u: Tree, ghost repr: set<object>)
    requires Holds(v, t, source)
    ensures Holds(out, u, repr) && ShapeOf(u) == ShapeOf(t) && fresh(repr)
    decreases t
  {
    match v
    case Boxed(inner) =>
      out, u, repr := CloneValue(inner, t.inner, source);
      out, u := Boxed(out), BoxTree(u);
    case Fixed(items) =>
      var copies, trees, made := CloneItems(items, t.items, source);
      out, u, repr := Fixed(copies), FixedTree(trees), made;
    case MapOf(m) =>
      out, u, repr := CloneMap(m, t, source);
    case SliceOf(s) =>
      var copies, trees, made := CloneItems(s.elems, t.items, source);
      var store := new SliceObject();
      store.elems := copies;
      repr := made + {store};
      AllHoldWithin(copies, trees, made, repr);
      out, u := SliceOf(store), SliceTree(store, trees);
    case _ =>
      out, u, repr := v, t, {};
  }

  method CloneItems(items: seq<Value>, ghost trees: seq<Tree>, ghost source: set<object>)
      returns (copies: seq<Value>, ghost made: seq<Tree>, ghost repr: set<object>)
    requires AllHold(items, trees, source)
    ensures AllHold(copies, made, repr) && SameShapes(made, trees) && fresh(repr)
    decreases trees, 0
  {
    copies, made, repr := [], [], {};
    for i := 0 to |items|
      invariant AllHold(items, trees, source)
      invariant AllHold(copies, made, repr) && fresh(repr)
      invariant |made| == i && SameShapes(made, trees[..i])
    {
      var c, w, r := CloneValue(items[i], trees[i], source);
      AllHoldWithin(copies, made, repr, repr + r);
      HoldsWithin(c, w, r, repr + r);
      copies, made, repr := copies + [c], made + [w], repr + r;
    }
    assert trees[..|items|] == trees;
  }

  ghost predicate SameKids(a: map<MapKey, Tree>, b: map<MapKey, Tree>, keys: set<MapKey>) {
    a.Keys == keys <= b.Keys && forall k :: k in keys ==> ShapeOf(a[k]) == ShapeOf(b[k])
  }

  method CloneMap(m: MapObject, ghost t: Tree, ghost source: set<object>)
      returns (out: Value, ghost u: Tree, ghost repr: set<object>)
    requires t.MapTree? && Holds(MapOf(m), t, source)
    ensures Holds(out, u, repr) && ShapeOf(u) == ShapeOf(t) && fresh(repr)
    decreases t, 2
  {
    hide ShapeOf, Holds, EntriesHold;
    HoldsMap(m, t, source);
    var copy := new MapObject();
    var kids, made := FillCopy(copy, m.entries, t, source);
    EntriesHoldWithin(copy.entries, kids, made, made + {copy});
    repr := made + {copy};
    out, u := MapOf(copy), MapTree(copy, kids);
    MapHolds(copy, kids, t, repr);
  }

  /** Everything but `todo` has been copied. */
  ghost predicate Copied(
      entries: map<MapKey, Value>, kids: map<MapKey, Tree>, all: map<MapKey, Tree>, todo: set<MapKey>,
      repr: set<object>)
    reads repr
  {
    EntriesHold(entries, kids, repr) && SameKids(kids, all, all.Keys - todo)
  }

  /** Clones every entry into an empty map. */
  method FillCopy(copy: MapObject, entries: map<MapKey, Value>, ghost t: Tree, ghost source: set<object>)
      returns (ghost kids: map<MapKey, Tree>, ghost repr: set<object>)
    requires t.MapTree? && EntriesHold(entries, t.kids, source)
    requires copy !in source && copy.entries == map[]
    modifies copy
    ensures fresh(repr) && copy !in repr
    ensures EntriesHold(copy.entries, kids, repr) && SameKids(kids, t.kids, t.kids.Keys)
    decreases t, 1
  {
    hide ShapeOf, Holds, EntriesHold, SameKids, Copied;
    var todo := entries.Keys;
    kids, repr := map[], {};
    NoneCopied(entries, t.kids, source);
    while todo != {}
      invariant todo <= entries.Keys && EntriesHold(entries, t.kids, source)
      invariant fresh(repr) && copy !in repr && Copied(copy.entries, kids, t.kids, todo, repr)
      decreases |todo|
    {
      var k :| k in todo;
      EntryHolds(entries, t.kids, source, k);
      kids, repr := CopyEntry(copy, kids, repr, todo, k, entries[k], t, source);
      todo := todo - {k};
    }
    AllCopied(copy.entries, kids, t.kids, repr);
  }

  lemma NoneCopied(entries: map<MapKey, Value>, all: map<MapKey, Tree>, source: set<object>)
    requires EntriesHold(entries, all, source)
    ensures Copied(map[], map[], all, entries.Keys, {})
  {
    assert all.Keys - entries.Keys == {};
  }

  lemma AllCopied(entries: map<MapKey, Value>, kids: map<MapKey, Tree>, all: map<MapKey, Tree>, repr: set<object>)
    requires Copied(entries, kids, all, {}, repr)
    ensures EntriesHold(entries, kids, repr) && SameKids(kids, all, all.Keys)
  {
    assert all.Keys - {} == all.Keys;
  }

  lemma EntryHolds(entries: map<MapKey, Value>, kids: map<MapKey, Tree>, repr: set<object>, k: MapKey)
    requires EntriesHold(entries, kids, repr) && k in entries
    ensures k in kids && Holds(entries[k], kids[k], repr)
  {
  }

  /** One more entry cloned into the copy. */
  method CopyEntry(
      copy: MapObject, ghost kids: map<MapKey, Tree>, ghost held: set<object>, ghost todo: set<MapKey>,
      k: MapKey, v: Value, ghost t: Tree, ghost source: set<object>)
      returns (ghost grown: map<MapKey, Tree>, ghost repr: set<object>)
    requires t.MapTree? && k in t.kids && k in todo && Holds(v, t.kids[k], source)
    requires copy !in held && Copied(copy.entries, kids, t.kids, todo, held)
    modifies copy
    ensures copy !in repr && fresh(repr - held)
    ensures Copied(copy.entries, grown, t.kids, todo - {k}, repr)
    decreases t, 0
  {
    hide ShapeOf, Holds;
    var c, w, r := CloneValue(v, t.kids[k], source);
    repr := held + r;
    EntriesHoldWithin(copy.entries, kids, held, repr);
    HoldsWithin(c, w, r, repr);
    copy.entries := copy.entries[k := c];
    grown := kids[k := w];
    assert t.kids.Keys - (todo - {k}) == t.kids.Keys - todo + {k};
  }

  lemma HoldsMap(m: MapObject, t: Tree, repr: set<object>)
    requires t.MapTree? && Holds(MapOf(m), t, repr)
    ensures m in repr && m == t.m && m.entries.Keys == t.kids.Keys && EntriesHold(m.entries, t.kids, repr)
  {
  }

  lemma MapHolds(m: MapObject, kids: map<MapKey, Tree>, t: Tree, repr: set<object>)
    requires t.MapTree? && m in repr && EntriesHold(m.entries, kids, repr) && SameKids(kids, t.kids, t.kids.Keys)
    ensures Holds(MapOf(m), MapTree(m, kids), repr) && ShapeOf(MapTree(m, kids)) == ShapeOf(t)
  {
  }

  lemma SameShapeKeys(u: Tree, t: Tree)
    requires t.MapTree? && ShapeOf(u) == ShapeOf(t)
    ensures u.MapTree? && u.kids.Keys == t.kids.Keys
  {
    assert ShapeOf(t).kids.Keys == t.kids.Keys;
    assert ShapeOf(u).kids.Keys == u.kids.Keys;
  }

  /** The exported form: no map is copied as no map. */
  method CloneAttributes(attributes: Value, ghost t: Tree, ghost source: set<object>)
      returns (out: Value, ghost u: Tree, ghost repr: set<object>)
    requires attributes.NilMap? || attributes.MapOf?
    requires Holds(attributes, t, source)
    ensures Holds(out, u, repr) && ShapeOf(u) == ShapeOf(t) && fresh(repr)
    ensures attributes.NilMap? ==> out == NilMap
  {
    if attributes == NilMap { return NilMap, t, {}; }
    out, u, repr := CloneValue(attributes, t, source);
  }

  datatype Holder = TheClaims | TheFirst | TheSecond

  /**
   Two contexts derived from the same claims, and any writes at all by any of the three holders to what they
   hold: whoever did not write still holds the tree it held.
   */
  method WritesStayLocal(claims: Value, ghost t: Tree, ghost source: set<object>, writers: set<Holder>)
      returns (first: Value, second: Value,
               ghost u: Tree, ghost v: Tree, ghost mine: set<object>, ghost yours: set<object>)
    requires claims.NilMap? || claims.MapOf?
    requires Holds(claims, t, source)
    modifies source
    ensures ShapeOf(u) == ShapeOf(v) == ShapeOf(t) && fresh(mine) && fresh(yours) && mine !! yours
    ensures TheClaims !in writers ==> Holds(claims, t, source)
    ensures TheFirst !in writers ==> Holds(first, u, mine)
    ensures TheSecond !in writers ==> Holds(second, v, yours)
    ensures claims.MapOf? ==> first.MapOf? && second.MapOf?
    ensures claims.MapOf? ==> first.m != claims.m && second.m != claims.m && second.m != first.m
    ensures claims.MapOf? && writers == {TheFirst} ==> second.m.entries.Keys == claims.m.entries.Keys
    ensures claims.MapOf? && writers == {TheSecond} ==> first.m.entries.Keys == claims.m.entries.Keys
  {
    first, u, mine := CloneAttributes(claims, t, source);
    second, v, yours := CloneAttributes(claims, t, source);
    if claims.MapOf? {
      SameShapeKeys(u, t);
      SameShapeKeys(v, t);
    }
    if TheClaims in writers { modify source; }
    if TheFirst in writers { modify mine; }
    if TheSecond in writers { modify yours; }
  }
}
