/**
 * The node-object realization of trees (src/map/tree.ts).
 *
 * A node object is described by its contents, the datatype `Node`: a `Leaf`
 * holding an opaque value, or a `Tree` holding an insertion-ordered map of
 * children. Every node carries its absolute path. Node objects live in the
 * heap as `Root` objects (a node with nothing above it, with all the nodes
 * below it) and are referred to by a `Ref`: a root and the path from it.
 */
module MapTree {
  import opened Base
  import opened Keys
  import opened Seqs
  import opened Entries
  import opened Paths
  import opened Values

  /** `SerializedTreeEntry`: `['leaf', key, value]` or `['tree', key, entries]`. */
  datatype Entry = LeafEntry(key: Key, value: Val) | TreeEntry(key: Key, entries: seq<Entry>)

  /** The contents of a node object. */
  datatype Node = Leaf(path: Path, value: Val) | Tree(path: Path, entries: seq<(Key, Node)>)

  /**
   * The invariant `addNode` maintains: distinct keys, and every child's path
   * is its parent's path with the child's key appended.
   */
  ghost predicate Valid(n: Node) {
    match n
    case Leaf(_, _) => true
    case Tree(path, entries) =>
      && UniqueKeys(entries)
      && forall i :: 0 <= i < |entries| ==> entries[i].1.path == path + [entries[i].0] && Valid(entries[i].1)
  }

  // ---------------------------------------------------------------------
  // Tree members on node contents

  /** `Tree.getNode`. */
  function GetChild(t: Node, key: Key): (r: Option<Node>)
    requires t.Tree?
    ensures r.Some? <==> key in KeysOf(t.entries)
    ensures r.Some? ==> r.value < t
  {
    var r := Lookup(t.entries, key);
    if r.Some? then
      assert (key, r.value) in t.entries;
      r
    else r
  }

  /**
   * `Tree.addNode`: fails unless `child` is an immediate child path of `t`;
   * otherwise stores `child` under its last key (overwriting in place, or
   * appending a new key).
   */
  function AddChild(t: Node, child: Node): (r: Result<Node>)
    requires t.Tree?
    ensures r.Err? <==> !ChildPath(t.path, child.path)
    ensures r.Err? ==> r.error == StructuralViolation
    ensures r.Ok? ==> r.value.Tree? && r.value.path == t.path
  {
    if ChildPath(t.path, child.path) then
      Ok(Tree(t.path, Put(t.entries, child.path[|t.path|], child)))
    else Err(StructuralViolation)
  }

  /** `Tree.removeNode(key)`. */
  function RemoveKey(t: Node, key: Key): (r: Node)
    requires t.Tree?
    ensures r.Tree? && r.path == t.path
    ensures key !in KeysOf(r.entries)
  {
    Tree(t.path, Delete(t.entries, key))
  }

  /** `Tree.removeNode(node)`: checks parentage, then removes the node's last key. */
  function RemoveChild(t: Node, child: Node): (r: Result<Node>)
    requires t.Tree?
    ensures r.Err? <==> !ChildPath(t.path, child.path)
    ensures r.Err? ==> r.error == StructuralViolation
    ensures r.Ok? ==> r.value == RemoveKey(t, child.path[|child.path| - 1])
  {
    if ChildPath(t.path, child.path) then Ok(RemoveKey(t, child.path[|child.path| - 1]))
    else Err(StructuralViolation)
  }

  lemma AddChildLookup(t: Node, child: Node, k: Key)
    requires t.Tree? && ChildPath(t.path, child.path)
    ensures var key := child.path[|child.path| - 1];
      GetChild(AddChild(t, child).value, k) == if k == key then Some(child) else GetChild(t, k)
  {
    PutLookup(t.entries, child.path[|t.path|], child, k);
  }

  lemma RemoveKeyLookup(t: Node, key: Key, k: Key)
    requires t.Tree?
    ensures GetChild(RemoveKey(t, key), k) == if k == key then None else GetChild(t, k)
  {
    if k != key {
      DeleteLookup(t.entries, key, k);
    }
  }

  lemma {:induction false} ValidChild(t: Node, k: Key)
    requires Valid(t) && t.Tree? && GetChild(t, k).Some?
    ensures Valid(GetChild(t, k).value) && GetChild(t, k).value.path == t.path + [k]
  {
    var i :| 0 <= i < |t.entries| && t.entries[i].0 == k;
    LookupAt(t.entries, i);
  }

  lemma {:induction false} ValidAddChild(t: Node, child: Node)
    requires Valid(t) && t.Tree? && Valid(child) && ChildPath(t.path, child.path)
    ensures Valid(AddChild(t, child).value)
  {
    var key := child.path[|t.path|];
    assert child.path == t.path + [key];
    var es := Put(t.entries, key, child);
    PutUnique(t.entries, key, child);
    forall i | 0 <= i < |es| ensures es[i].1.path == t.path + [es[i].0] && Valid(es[i].1) {
      LookupAt(es, i);
      PutLookup(t.entries, key, child, es[i].0);
      if es[i].0 != key {
        ValidChild(t, es[i].0);
      }
    }
  }

  lemma {:induction false} ValidRemoveKey(t: Node, key: Key)
    requires Valid(t) && t.Tree?
    ensures Valid(RemoveKey(t, key))
  {
    var es := Delete(t.entries, key);
    DeleteUnique(t.entries, key);
    forall i | 0 <= i < |es| ensures es[i].1.path == t.path + [es[i].0] && Valid(es[i].1) {
      LookupAt(es, i);
      assert es[i].0 != key;
      DeleteLookup(t.entries, key, es[i].0);
      ValidChild(t, es[i].0);
    }
  }

  // ---------------------------------------------------------------------
  // Paths inside a tree

  /** The node reached from `n` key by key through trees, if every key is there. */
  function At(n: Node, path: Path): (r: Option<Node>)
    decreases |path|
  {
    if path == [] then Some(n)
    else if n.Leaf? then None
    else match GetChild(n, path[0])
      case None => None
      case Some(c) => At(c, path[1..])
  }

  /** `n` with the node at `path` (which must be there) replaced by `m`. */
  function UpdateAt(n: Node, path: Path, m: Node): (r: Node)
    requires At(n, path).Some?
    decreases |path|
  {
    if path == [] then m
    else Tree(n.path, Put(n.entries, path[0], UpdateAt(GetChild(n, path[0]).value, path[1..], m)))
  }

  /** One step of `At`: the first key leads to a child, the rest is followed from there. */
  lemma AtCons(n: Node, k: Key, rest: Path)
    ensures At(n, [k] + rest) == if n.Leaf? || GetChild(n, k).None? then None else At(GetChild(n, k).value, rest)
  {
    assert ([k] + rest)[0] == k && ([k] + rest)[1..] == rest;
  }

  lemma {:induction false} AtAppend(n: Node, p: Path, q: Path)
    ensures At(n, p + q) == match At(n, p) case None => None case Some(x) => At(x, q)
    decreases |p|
  {
    AppendSplit(p, q);
    if p != [] {
      AtCons(n, p[0], p[1..] + q);
      AtCons(n, p[0], p[1..]);
      if n.Tree? && GetChild(n, p[0]).Some? {
        AtAppend(GetChild(n, p[0]).value, p[1..], q);
      }
    }
  }

  /** Updating below the first key of `p` replaces the child under that key. */
  lemma UpdateAtChild(n: Node, p: Path, m: Node)
    requires p != [] && At(n, p).Some?
    ensures n.Tree? && GetChild(n, p[0]).Some? && At(GetChild(n, p[0]).value, p[1..]).Some?
    ensures UpdateAt(n, p, m).Tree?
    ensures GetChild(UpdateAt(n, p, m), p[0]) == Some(UpdateAt(GetChild(n, p[0]).value, p[1..], m))
  {
    var u := UpdateAt(GetChild(n, p[0]).value, p[1..], m);
    PutLookup(n.entries, p[0], u, p[0]);
  }

  /** The replaced node is found at its path afterwards. */
  lemma {:induction false} AtUpdated(n: Node, p: Path, m: Node)
    requires At(n, p).Some?
    ensures At(UpdateAt(n, p, m), p) == Some(m)
    decreases |p|
  {
    if p != [] {
      UpdateAtChild(n, p, m);
      var c := GetChild(n, p[0]).value;
      AtUpdated(c, p[1..], m);
    }
  }

  lemma AtUpdateAt(n: Node, p: Path, m: Node, q: Path)
    requires At(n, p).Some?
    ensures At(UpdateAt(n, p, m), p + q) == At(m, q)
  {
    AtUpdated(n, p, m);
    AtAppend(UpdateAt(n, p, m), p, q);
  }

  lemma {:induction false} UpdateAtTwice(n: Node, p: Path, m1: Node, m2: Node)
    requires At(n, p).Some?
    ensures At(UpdateAt(n, p, m1), p).Some?
    ensures UpdateAt(UpdateAt(n, p, m1), p, m2) == UpdateAt(n, p, m2)
    decreases |p|
  {
    AtUpdateAt(n, p, m1, []);
    assert p + [] == p;
    if p != [] {
      var c := GetChild(n, p[0]).value;
      var n1 := UpdateAt(n, p, m1);
      PutLookup(n.entries, p[0], UpdateAt(c, p[1..], m1), p[0]);
      UpdateAtTwice(c, p[1..], m1, m2);
      assert n.entries != [];
      var e1 := Put(n.entries, p[0], UpdateAt(c, p[1..], m1));
      var u2 := UpdateAt(c, p[1..], m2);
      PutPutSameKey(n.entries, p[0], UpdateAt(c, p[1..], m1), u2);
    }
  }

  lemma {:induction false} UpdateAtAppend(n: Node, p: Path, q: Path, m: Node)
    requires At(n, p).Some? && At(At(n, p).value, q).Some?
    ensures At(n, p + q).Some?
    ensures UpdateAt(n, p + q, m) == UpdateAt(n, p, UpdateAt(At(n, p).value, q, m))
    decreases |p|
  {
    AtAppend(n, p, q);
    AppendSplit(p, q);
    if p != [] {
      UpdateAtAppend(GetChild(n, p[0]).value, p[1..], q, m);
    }
  }

  lemma {:induction false} ValidAt(n: Node, p: Path)
    requires Valid(n) && At(n, p).Some?
    ensures Valid(At(n, p).value) && At(n, p).value.path == n.path + p
    decreases |p|
  {
    if p == [] {
      assert n.path + p == n.path;
    } else {
      var c := GetChild(n, p[0]).value;
      ValidChild(n, p[0]);
      ValidAt(c, p[1..]);
      PathStep(n.path, p);
    }
  }

  lemma PathStep(a: Path, p: Path)
    requires p != []
    ensures (a + [p[0]]) + p[1..] == a + p
  {
    assert p == [p[0]] + p[1..];
  }

  lemma {:induction false} ValidUpdateAt(n: Node, p: Path, m: Node)
    requires Valid(n) && At(n, p).Some? && Valid(m) && m.path == At(n, p).value.path
    ensures Valid(UpdateAt(n, p, m)) && UpdateAt(n, p, m).path == n.path
    decreases |p|
  {
    if p != [] {
      var c := GetChild(n, p[0]).value;
      ValidChild(n, p[0]);
      ValidUpdateAt(c, p[1..], m);
      var u := UpdateAt(c, p[1..], m);
      assert ChildPath(n.path, u.path) && u.path[|n.path|] == p[0] by {
        assert u.path == n.path + [p[0]];
      }
      ValidAddChild(n, u);
      assert AddChild(n, u).value == UpdateAt(n, p, m);
    }
  }

  // ---------------------------------------------------------------------
  // Serialized entries

  function EntryKey(e: Entry): Key { e.key }

  /** `nodeFromEntry`: a leaf entry becomes a leaf, a tree entry a tree built from its entries. */
  function EntryNode(e: Entry, path: Path): (r: Node)
    decreases e
  {
    match e
    case LeafEntry(k, v) => Leaf(path + [k], v)
    case TreeEntry(k, sub) => Tree(path + [k], BuildEntries(sub, path + [k]))
  }

  /** The children `treeFromEntries` adds, one `addNode` per entry, in order. */
  function BuildEntries(es: seq<Entry>, path: Path): (r: seq<(Key, Node)>)
    decreases es
  {
    PutAll(seq(|es|, i requires 0 <= i < |es| => (es[i].key, EntryNode(es[i], path))))
  }

  /** `treeFromEntries(entries, path)`. */
  function EntriesTree(es: seq<Entry>, path: Path): (r: Node)
    ensures r.Tree? && r.path == path
  {
    Tree(path, BuildEntries(es, path))
  }

  /**
   * `toSerializedEntry`: a leaf gives its last key and value; a tree gives its
   * last key and its children's entries sorted by key.
   */
  function Serialize(n: Node): (e: Entry)
    requires Valid(n) && |n.path| > 0
    ensures e.key == n.path[|n.path| - 1]
    ensures e.LeafEntry? <==> n.Leaf?
    decreases n, 1
  {
    match n
    case Leaf(p, v) => LeafEntry(p[|p| - 1], v)
    case Tree(p, _) => TreeEntry(p[|p| - 1], SerializedChildren(n))
  }

  /** The children's entries of a tree, sorted by key (the third element of its serialized entry). */
  function SerializedChildren(t: Node): (r: seq<Entry>)
    requires Valid(t) && t.Tree?
    ensures |r| == |t.entries|
    decreases t, 0
  {
    SortBy(seq(|t.entries|, i requires 0 <= i < |t.entries| =>
      assert t.entries[i] in t.entries;
      Serialize(t.entries[i].1)), EntryKey)
  }

  /**
   * The entry `toSerializedEntry` returns for any node, the root included:
   * the key is the node's last key, or `undefined` (`None`) at the empty path.
   */
  datatype TopEntry = TopLeaf(key: Option<Key>, value: Val) | TopTree(key: Option<Key>, entries: seq<Entry>)

  /** The last key of a path, or `undefined` (`None`) for the empty path. */
  function LastKey(p: Path): (r: Option<Key>)
    ensures r.None? <==> p == []
    ensures r.Some? ==> r.value == p[|p| - 1]
  {
    if p == [] then None else Some(p[|p| - 1])
  }

  /** An entry of a node below the root, with its key present. */
  function Keyed(e: Entry): (r: TopEntry)
    ensures r.key == Some(e.key)
    ensures r.TopLeaf? <==> e.LeafEntry?
  {
    match e
    case LeafEntry(k, v) => TopLeaf(Some(k), v)
    case TreeEntry(k, es) => TopTree(Some(k), es)
  }

  /**
   * `toSerializedEntry` on any node: below the root it is `Serialize` with
   * the key present; at the root the key is missing and a tree still lists
   * its children's entries sorted by key.
   */
  function ToSerializedEntry(n: Node): (r: TopEntry)
    requires Valid(n)
    ensures r.key.None? <==> n.path == []
    ensures r.TopLeaf? <==> n.Leaf?
    ensures |n.path| > 0 ==> r == Keyed(Serialize(n))
  {
    match n
    case Leaf(p, v) => TopLeaf(LastKey(p), v)
    case Tree(p, _) => TopTree(LastKey(p), SerializedChildren(n))
  }

  /**
   * The root's entry is a faithful record of the tree: `treeFromEntries` on
   * its entries builds a valid root tree whose entry is the same.
   */
  lemma RootEntryRoundTrip(t: Node)
    requires Valid(t) && t.Tree? && t.path == []
    ensures Valid(EntriesTree(ToSerializedEntry(t).entries, []))
    ensures ToSerializedEntry(EntriesTree(ToSerializedEntry(t).entries, [])) == ToSerializedEntry(t)
  {
    SerializedChildrenCanonical(t);
    SerializeBuildEntries(SerializedChildren(t), []);
  }

  /** What `toSerializedEntry` produces: entries strictly sorted by key at every level. */
  ghost predicate Canonical(es: seq<Entry>) {
    && StrictlySorted(es, EntryKey)
    && forall i :: 0 <= i < |es| ==> es[i].TreeEntry? ==> Canonical(es[i].entries)
  }

  /** A `Valid` tree serializes to canonical entries. */
  lemma {:induction false} SerializedChildrenCanonical(t: Node)
    requires Valid(t) && t.Tree?
    ensures Canonical(SerializedChildren(t))
    decreases t
  {
    var es := t.entries;
    var raw := seq(|es|, i requires 0 <= i < |es| => assert es[i] in es; Serialize(es[i].1));
    assert DistinctKeys(raw, EntryKey) by {
      forall i, j | 0 <= i < j < |raw| ensures EntryKey(raw[i]) != EntryKey(raw[j]) {
        assert EntryKey(raw[i]) == es[i].0;
        assert EntryKey(raw[j]) == es[j].0;
      }
    }
    var sorted := SortBy(raw, EntryKey);
    assert sorted == SerializedChildren(t);
    SortBySorted(raw, EntryKey);
    forall i | 0 <= i < |sorted| && sorted[i].TreeEntry? ensures Canonical(sorted[i].entries) {
      assert sorted[i] in multiset(raw);
      var j :| 0 <= j < |raw| && raw[j] == sorted[i];
      assert es[j] in es;
      SerializedChildrenCanonical(es[j].1);
    }
  }

  /** With distinct keys, every entry becomes its own child, in order. */
  lemma BuildEntriesDistinct(es: seq<Entry>, path: Path)
    requires DistinctKeys(es, EntryKey)
    ensures |BuildEntries(es, path)| == |es|
    ensures forall i :: 0 <= i < |es| ==> BuildEntries(es, path)[i] == (es[i].key, EntryNode(es[i], path))
  {
    var s := seq(|es|, i requires 0 <= i < |es| => (es[i].key, EntryNode(es[i], path)));
    assert UniqueKeys(s) by {
      forall i, j | 0 <= i < j < |s| ensures s[i].0 != s[j].0 {
        assert EntryKey(es[i]) != EntryKey(es[j]);
      }
    }
    PutAllUnique(s);
  }

  lemma {:induction false} ValidEntryNode(e: Entry, path: Path)
    ensures Valid(EntryNode(e, path)) && EntryNode(e, path).path == path + [e.key]
    decreases e, 1
  {
    if e.TreeEntry? {
      ValidBuildEntries(e.entries, path + [e.key]);
    }
  }

  /** `treeFromEntries` always builds a `Valid` tree: every `addNode` it makes succeeds. */
  lemma {:induction false} ValidBuildEntries(es: seq<Entry>, path: Path)
    ensures Valid(Tree(path, BuildEntries(es, path)))
    decreases es, 0
  {
    var s := seq(|es|, i requires 0 <= i < |es| => (es[i].key, EntryNode(es[i], path)));
    var r := PutAll(s);
    PutAllFrom(s);
    forall i | 0 <= i < |r| ensures r[i].1.path == path + [r[i].0] && Valid(r[i].1) {
      assert r[i] in s;
      var j :| 0 <= j < |s| && s[j] == r[i];
      ValidEntryNode(es[j], path);
    }
  }

  /** A canonical entry is rebuilt and re-serialized to itself. */
  lemma {:induction false} SerializeEntryNode(e: Entry, path: Path)
    requires e.TreeEntry? ==> Canonical(e.entries)
    ensures Valid(EntryNode(e, path)) && |EntryNode(e, path).path| > 0 && Serialize(EntryNode(e, path)) == e
    decreases e, 1
  {
    ValidEntryNode(e, path);
    if e.TreeEntry? {
      SerializeBuildEntries(e.entries, path + [e.key]);
    }
  }

  /**
   * `treeFromEntries` and `toSerializedEntry` are inverse on canonical entries:
   * rebuilding from serialized entries gives back the same serialization.
   */
  lemma {:induction false} SerializeBuildEntries(es: seq<Entry>, path: Path)
    requires Canonical(es)
    ensures Valid(EntriesTree(es, path)) && SerializedChildren(EntriesTree(es, path)) == es
    decreases es, 0
  {
    ValidBuildEntries(es, path);
    var t := EntriesTree(es, path);
    assert DistinctKeys(es, EntryKey) by {
      forall i, j | 0 <= i < j < |es| ensures EntryKey(es[i]) != EntryKey(es[j]) {
        KeyLessIrreflexive(EntryKey(es[i]));
      }
    }
    BuildEntriesDistinct(es, path);
    var raw := seq(|t.entries|, i requires 0 <= i < |t.entries| => assert t.entries[i] in t.entries; Serialize(t.entries[i].1));
    assert raw == es by {
      forall i | 0 <= i < |es| ensures raw[i] == es[i] {
        SerializeEntryNode(es[i], path);
      }
    }
    SortBySortedIsIdentity(es, EntryKey);
  }

  // ---------------------------------------------------------------------
  // Plain JavaScript values

  /** Whether JavaScript types the value as an object: objects, arrays, and also null. */
  predicate IsObjectValue(v: Val) {
    v.Obj? || v == Prim(Null)
  }

  /**
   * `treeFromJsObject(obj, path)`: one child per enumerated property; an
   * object-typed property value becomes a subtree, anything else a leaf.
   * Enumerating the properties of null yields none, so null becomes an empty tree.
   */
  function JsTree(v: Val, path: Path): (r: Node)
    requires IsObjectValue(v)
    ensures r.Tree? && r.path == path
    decreases v, 1
  {
    if v.Obj? then Tree(path, JsEntries(v, path)) else Tree(path, [])
  }

  /** The node `treeFromJsObject` makes for property value `x` at `path`. */
  function JsChild(x: Val, path: Path): (r: Node)
    ensures r.path == path
    decreases x, 2
  {
    if IsObjectValue(x) then JsTree(x, path) else Leaf(path, x)
  }

  /** The children `treeFromJsObject` adds for the properties of `v`, in enumeration order. */
  function JsEntries(v: Val, path: Path): seq<(Key, Node)>
    requires v.Obj?
    decreases v, 0
  {
    var fs := v.fields;
    PutAll(seq(|fs|, i requires 0 <= i < |fs| => assert fs[i] in fs; (fs[i].0, JsChild(fs[i].1, path + [fs[i].0]))))
  }

  /** `nodeToJsValue`: a leaf gives its value, a tree a plain object of its children's values. */
  function ToJs(n: Node): (r: Val)
    ensures n.Leaf? ==> r == n.value
    ensures n.Tree? ==> r.Obj? && !r.isArray && |r.fields| == |n.entries|
  {
    match n
    case Leaf(_, v) => v
    case Tree(_, es) => Obj(false, seq(|es|, i requires 0 <= i < |es| => assert es[i] in es; (es[i].0, ToJs(es[i].1))))
  }

  /**
   * `v` as a tree gives it back: arrays come back as plain objects with the
   * same index keys, and null (an object by `typeof`) as an empty object.
   */
  function Plain(v: Val): (r: Val)
  {
    match v
    case Prim(Null) => Obj(false, [])
    case Prim(_) => v
    case Obj(_, fs) => Obj(false, seq(|fs|, i requires 0 <= i < |fs| => assert fs[i] in fs; (fs[i].0, Plain(fs[i].1))))
  }

  lemma JsEntriesDistinct(v: Val, path: Path)
    requires v.Obj? && UniqueKeys(v.fields)
    ensures |JsEntries(v, path)| == |v.fields|
    ensures forall i :: 0 <= i < |v.fields| ==> JsEntries(v, path)[i] == (v.fields[i].0, JsChild(v.fields[i].1, path + [v.fields[i].0]))
  {
    var fs := v.fields;
    var s := seq(|fs|, i requires 0 <= i < |fs| => (fs[i].0, JsChild(fs[i].1, path + [fs[i].0])));
    assert UniqueKeys(s) by {
      forall i, j | 0 <= i < j < |s| ensures s[i].0 != s[j].0 {
        assert s[i].0 == fs[i].0 && s[j].0 == fs[j].0;
      }
    }
    PutAllUnique(s);
  }

  /** `nodeToJsValue` undoes `treeFromJsObject`, up to arrays and null becoming plain objects. */
  lemma {:induction false} JsRoundTrip(v: Val, path: Path)
    requires WellFormed(v) && IsObjectValue(v)
    ensures ToJs(JsTree(v, path)) == Plain(v)
    decreases v
  {
    if v.Obj? {
      var fs := v.fields;
      JsEntriesDistinct(v, path);
      var es := JsEntries(v, path);
      forall i | 0 <= i < |fs| ensures ToJs(es[i].1) == Plain(fs[i].1) {
        assert fs[i] in fs;
        if IsObjectValue(fs[i].1) {
          JsRoundTrip(fs[i].1, path + [fs[i].0]);
        }
      }
    }
  }

  /** `treeFromJsObject` builds a `Valid` tree from a well-formed value. */
  lemma {:induction false} ValidJsTree(v: Val, path: Path)
    requires WellFormed(v) && IsObjectValue(v)
    ensures Valid(JsTree(v, path))
    decreases v
  {
    if v.Obj? {
      var fs := v.fields;
      JsEntriesDistinct(v, path);
      var es := JsEntries(v, path);
      assert UniqueKeys(es) by {
        forall i, j | 0 <= i < j < |es| ensures es[i].0 != es[j].0 {
          assert es[i].0 == fs[i].0 && es[j].0 == fs[j].0;
        }
      }
      forall i | 0 <= i < |es| ensures es[i].1.path == path + [es[i].0] && Valid(es[i].1) {
        assert fs[i] in fs;
        if IsObjectValue(fs[i].1) {
          ValidJsTree(fs[i].1, path + [fs[i].0]);
        }
      }
    }
  }

  // ---------------------------------------------------------------------
  // Walking a path

  /** Where a walk stands: on a node of the tree, or on a parent the hook created outside it. */
  datatype Place = Attached(node: Node) | Detached(node: Node)

  /**
   * The loop of `traversePath` from key `i` on. A leaf on the way ends the
   * walk with nothing (the parent-creating hook hands the leaf back, and a
   * leaf is no tree); a missing key ends it too, unless `materialise` (the
   * hook is given), which continues from a new empty tree at that prefix that
   * no tree holds.
   */
  function Walk(cur: Place, path: Path, i: nat, materialise: bool): (r: Option<Place>)
    requires i <= |path|
    ensures !materialise && cur.Attached? && r.Some? ==> r.value.Attached?
    decreases |path| - i
  {
    if i == |path| then Some(cur)
    else if cur.node.Leaf? then None
    else match GetChild(cur.node, path[i])
      case Some(c) => Walk(if cur.Attached? then Attached(c) else Detached(c), path, i + 1, materialise)
      case None =>
        if materialise then Walk(Detached(Tree(path[..i + 1], [])), path, i + 1, materialise) else None
  }

  /** One step of the walk, spelled out. */
  lemma WalkStep(cur: Place, path: Path, i: nat, materialise: bool)
    requires i < |path|
    ensures cur.node.Leaf? ==> Walk(cur, path, i, materialise) == None
    ensures cur.node.Tree? && GetChild(cur.node, path[i]).Some? ==>
      var c := GetChild(cur.node, path[i]).value;
      Walk(cur, path, i, materialise) == Walk(if cur.Attached? then Attached(c) else Detached(c), path, i + 1, materialise)
    ensures cur.node.Tree? && GetChild(cur.node, path[i]).None? ==>
      Walk(cur, path, i, materialise) == if materialise then Walk(Detached(Tree(path[..i + 1], [])), path, i + 1, materialise) else None
  {
  }

  /** `traversePath(tree, path, hook)`, `materialise` standing for the hook `createParent`. */
  function Traverse(t: Node, path: Path, materialise: bool): (r: Option<Place>)
    ensures path == [] ==> r == Some(Attached(t))
    ensures !materialise && r.Some? ==> r.value.Attached?
  {
    Walk(Attached(t), path, 0, materialise)
  }

  lemma {:induction false} WalkAttached(x: Node, path: Path, i: nat, materialise: bool)
    requires i <= |path|
    ensures At(x, path[i..]).Some? ==> Walk(Attached(x), path, i, materialise) == Some(Attached(At(x, path[i..]).value))
    ensures At(x, path[i..]).None? ==>
      (Walk(Attached(x), path, i, materialise) == None || Walk(Attached(x), path, i, materialise) == Some(Detached(Tree(path, []))))
    ensures !materialise ==> Walk(Attached(x), path, i, materialise) == if At(x, path[i..]).Some? then Some(Attached(At(x, path[i..]).value)) else None
    decreases |path| - i
  {
    if i < |path| {
      assert path[i..] == [path[i]] + path[i + 1..];
      AtCons(x, path[i], path[i + 1..]);
      if x.Tree? {
        match GetChild(x, path[i])
        case Some(c) => WalkAttached(c, path, i + 1, materialise);
        case None =>
          if materialise {
            WalkCreated(path, i + 1);
          }
      }
    }
  }

  /** Past a created parent, every further key is missing too: the walk ends on a new empty tree at `path`. */
  lemma {:induction false} WalkCreated(path: Path, i: nat)
    requires 0 < i <= |path|
    ensures Walk(Detached(Tree(path[..i], [])), path, i, true) == Some(Detached(Tree(path, [])))
    decreases |path| - i
  {
    if i < |path| {
      WalkCreated(path, i + 1);
    } else {
      assert path[..i] == path;
    }
  }

  /**
   * `traversePath` finds exactly the node at the path when there is one;
   * without the hook it finds nothing otherwise, and with it at most a new
   * empty tree at the path that no tree holds.
   */
  lemma TraverseAt(t: Node, path: Path, materialise: bool)
    ensures At(t, path).Some? ==> Traverse(t, path, materialise) == Some(Attached(At(t, path).value))
    ensures At(t, path).None? && !materialise ==> Traverse(t, path, materialise) == None
    ensures At(t, path).None? && materialise ==>
      Traverse(t, path, materialise) == None || Traverse(t, path, materialise) == Some(Detached(Tree(path, [])))
  {
    WalkAttached(t, path, 0, materialise);
    assert path[0..] == path;
  }

  // ---------------------------------------------------------------------
  // Node objects in the heap

  /** A node object with nothing above it; it owns every node object below it. */
  class Root {
    var node: Node

    constructor(n: Node)
      ensures node == n
    {
      node := n;
    }
  }

  /** A reference to the node object found at `at` below `root`. */
  datatype Ref = Ref(root: Root, at: Path) {

    predicate Resolves()
      reads root
    {
      At(root.node, at).Some?
    }

    /** The contents of the referenced node object. */
    function Get(): Node
      reads root
      requires Resolves()
    {
      At(root.node, at).value
    }

    /** `Tree.getNode(key)`: a reference to the child stored under `key`, if any. */
    function GetNode(key: Key): (r: Option<Ref>)
      reads root
      requires Resolves() && Get().Tree?
      ensures r.Some? <==> GetChild(Get(), key).Some?
      ensures r.Some? ==> r.value.root == root && r.value.at == at + [key]
      ensures r.Some? ==> r.value.Resolves() && r.value.Get() == GetChild(Get(), key).value
    {
      if GetChild(Get(), key).Some? then
        AtAppend(root.node, at, [key]);
        AtCons(Get(), key, []);
        Some(Ref(root, at + [key]))
      else None
    }

    /**
     * `Tree.addNode(node)`: a structural violation, changing nothing, unless
     * `node` is an immediate child path of this tree; otherwise the tree now
     * holds `node` under its last key and nothing outside it changed.
     */
    method AddNode(node: Node) returns (r: Outcome)
      requires Resolves() && Get().Tree?
      modifies root
      ensures r == if ChildPath(old(Get()).path, node.path) then Pass else Fail(StructuralViolation)
      ensures r.Pass? ==> root.node == UpdateAt(old(root.node), at, AddChild(old(Get()), node).value)
      ensures r.Fail? ==> root.node == old(root.node)
      ensures Resolves() && Get() == if r.Pass? then AddChild(old(Get()), node).value else old(Get())
    {
      var n := Get();
      r := ExpectParentOf(n.path, node.path);
      if r.Pass? {
        AtUpdated(root.node, at, AddChild(n, node).value);
        root.node := UpdateAt(root.node, at, AddChild(n, node).value);
      }
    }

    /** `Tree.removeNode(key)`: the key is gone, every other child stays in place. */
    method RemoveNode(key: Key)
      requires Resolves() && Get().Tree?
      modifies root
      ensures root.node == UpdateAt(old(root.node), at, RemoveKey(old(Get()), key))
      ensures Resolves() && Get() == RemoveKey(old(Get()), key)
    {
      var n := Get();
      AtUpdated(root.node, at, RemoveKey(n, key));
      root.node := UpdateAt(root.node, at, RemoveKey(n, key));
    }

    /** `Tree.removeNode(node)`: a structural violation unless `node` is a child path; else removes its last key. */
    method RemoveChildNode(node: Node) returns (r: Outcome)
      requires Resolves() && Get().Tree?
      modifies root
      ensures r == if ChildPath(old(Get()).path, node.path) then Pass else Fail(StructuralViolation)
      ensures root.node == if r.Pass? then UpdateAt(old(root.node), at, RemoveChild(old(Get()), node).value) else old(root.node)
    {
      r := ExpectParentOf(Get().path, node.path);
      if r.Pass? {
        RemoveNode(node.path[|node.path| - 1]);
      }
    }

    /**
     * `clone`: a leaf is shared (it is immutable); a tree is copied into a new
     * node object by adding a clone of each child in order.
     */
    method Clone() returns (c: Ref)
      requires Resolves() && Valid(Get())
      ensures c.Resolves() && c.Get() == Get()
      ensures Get().Leaf? ==> c == this
      ensures Get().Tree? ==> fresh(c.root) && c.at == []
      decreases Get()
    {
      var n := Get();
      if n.Leaf? {
        return this;
      }
      var result := new Root(Tree(n.path, []));
      c := Ref(result, []);
      var i := 0;
      while i < |n.entries|
        invariant 0 <= i <= |n.entries|
        invariant fresh(result) && c == Ref(result, [])
        invariant result.node == Tree(n.path, n.entries[..i])
        invariant Resolves() && Get() == n
      {
        var (k, child) := n.entries[i];
        var from := Ref(root, at + [k]);
        ChildRef(this, i);
        var copy := from.Clone();
        AddNextChild(n, i);
        var ok := c.AddNode(copy.Get());
        i := i + 1;
      }
      assert n.entries[..i] == n.entries;
    }
  }

  /** The reference to the `i`-th child of a valid tree finds that child. */
  lemma ChildRef(r: Ref, i: nat)
    requires r.Resolves() && Valid(r.Get()) && r.Get().Tree? && i < |r.Get().entries|
    ensures var (k, child) := r.Get().entries[i];
      Ref(r.root, r.at + [k]).Resolves() && Ref(r.root, r.at + [k]).Get() == child && Valid(child) && child < r.Get()
  {
    var n := r.Get();
    LookupAt(n.entries, i);
    ValidChild(n, n.entries[i].0);
    assert n.entries[i] in n.entries;
    AtAppend(r.root.node, r.at, [n.entries[i].0]);
    AtCons(n, n.entries[i].0, []);
  }

  /** Adding the `i`-th child of a valid tree to a copy of the first `i` appends it. */
  lemma AddNextChild(n: Node, i: nat)
    requires Valid(n) && n.Tree? && i < |n.entries|
    ensures AddChild(Tree(n.path, n.entries[..i]), n.entries[i].1) == Ok(Tree(n.path, n.entries[..i + 1]))
  {
    var k := n.entries[i].0;
    assert n.entries[i].1.path == n.path + [k];
    assert k !in KeysOf(n.entries[..i]) by {
      var ks := KeysOf(n.entries[..i]);
      forall j | 0 <= j < |ks| ensures ks[j] != k {
        assert ks[j] == n.entries[j].0;
      }
    }
    assert n.entries[..i + 1] == n.entries[..i] + [n.entries[i]];
  }

  /** `nodeFromEntry(entry, path)`: a new node object. */
  method NodeFromEntry(e: Entry, path: Path) returns (r: Ref)
    ensures fresh(r.root) && r.at == [] && r.root.node == EntryNode(e, path)
    decreases e, 1
  {
    match e
    case LeafEntry(k, v) =>
      var root := new Root(Leaf(path + [k], v));
      r := Ref(root, []);
    case TreeEntry(k, sub) =>
      r := TreeFromEntries(sub, path + [k]);
  }

  /** `treeFromEntries(entries, path)`: a new tree, one `addNode` per entry, in order. */
  method TreeFromEntries(es: seq<Entry>, path: Path) returns (t: Ref)
    ensures fresh(t.root) && t.at == [] && t.root.node == EntriesTree(es, path)
    decreases es, 0
  {
    var s := seq(|es|, i requires 0 <= i < |es| => (es[i].key, EntryNode(es[i], path)));
    var root := new Root(Tree(path, []));
    t := Ref(root, []);
    for i := 0 to |es|
      invariant fresh(root) && root.node == Tree(path, PutAll(s[..i]))
    {
      var child := NodeFromEntry(es[i], path);
      var ok := t.AddNode(child.root.node);
      PrefixOfPrefix(s, i);
    }
    WholePrefix(s);
  }

  /** `treeFromJsObject(obj, path)`: a new tree, one `addNode` per enumerated property. */
  method TreeFromJsObject(v: Val, path: Path) returns (t: Ref)
    requires IsObjectValue(v)
    ensures fresh(t.root) && t.at == [] && t.root.node == JsTree(v, path)
    decreases v
  {
    var root := new Root(Tree(path, []));
    t := Ref(root, []);
    if v.Prim? {
      return;
    }
    var fs := v.fields;
    var s := seq(|fs|, i requires 0 <= i < |fs| => (fs[i].0, JsChild(fs[i].1, path + [fs[i].0])));
    for i := 0 to |fs|
      invariant fresh(root) && root.node == Tree(path, PutAll(s[..i]))
    {
      var (k, x) := fs[i];
      assert fs[i] in fs;
      var child: Node;
      if IsObjectValue(x) {
        var sub := TreeFromJsObject(x, path + [k]);
        child := sub.root.node;
      } else {
        child := Leaf(path + [k], x);
      }
      assert child == JsChild(x, path + [k]) == s[i].1;
      var ok := t.AddNode(child);
      PrefixOfPrefix(s, i);
    }
    WholePrefix(s);
  }

  /**
   * One pass of the loop of `traversePath`: on a leaf, nothing (the hook
   * hands the leaf back, and a leaf is no tree); on a tree, the child under
   * `key`, else with the hook a new empty tree at `prefix`, else nothing.
   */
  method TraverseStep(current: Ref, key: Key, prefix: Path, materialise: bool) returns (next: Option<Ref>)
    requires current.Resolves()
    ensures current.Get().Leaf? ==> next.None?
    ensures current.Get().Tree? && GetChild(current.Get(), key).Some? ==>
      next == Some(Ref(current.root, current.at + [key])) && next.value.Resolves() && next.value.Get() == GetChild(current.Get(), key).value
    ensures current.Get().Tree? && GetChild(current.Get(), key).None? ==>
      if materialise then next.Some? && fresh(next.value.root) && next.value.at == [] && next.value.root.node == Tree(prefix, [])
      else next.None?
  {
    if current.Get().Leaf? {
      return None;
    }
    next := current.GetNode(key);
    if next.None? && materialise {
      var parent := new Root(Tree(prefix, []));
      next := Some(Ref(parent, []));
    }
  }

  /**
   * The loop of `traversePath`: it ends on the node object at the path, on
   * nothing, or on a new tree the hook created, exactly as `Traverse` says.
   */
  method TraversePath(t: Ref, path: Path, materialise: bool) returns (r: Option<Ref>)
    requires t.Resolves()
    ensures Traverse(t.Get(), path, materialise).None? <==> r.None?
    ensures r.Some? ==> r.value.Resolves() && r.value.Get() == Traverse(t.Get(), path, materialise).value.node
    ensures Traverse(t.Get(), path, materialise).Some? && Traverse(t.Get(), path, materialise).value.Attached? ==>
      r == Some(Ref(t.root, t.at + path))
    ensures Traverse(t.Get(), path, materialise).Some? && Traverse(t.Get(), path, materialise).value.Detached? ==>
      r.Some? && fresh(r.value.root) && r.value.at == [] && r.value.root.node == Traverse(t.Get(), path, materialise).value.node
  {
    var current := t;
    ghost var place := Attached(t.Get());
    ghost var goal := Traverse(t.Get(), path, materialise);
    var i := 0;
    AppendNoPrefix(t.at, path);
    while i < |path|
      invariant 0 <= i <= |path|
      invariant current.Resolves() && place.node == current.Get()
      invariant place.Attached? ==> current.root == t.root && current.at == t.at + path[..i]
      invariant place.Detached? ==> fresh(current.root) && current.at == [] && place.node == Tree(path[..i], [])
      invariant goal == Walk(place, path, i, materialise)
    {
      ghost var node := current.Get();
      WalkStep(place, path, i, materialise);
      var next := TraverseStep(current, path[i], path[..i + 1], materialise);
      if next.None? {
        return None;
      }
      if place.Attached? && GetChild(node, path[i]).Some? {
        PrefixStep(t.at, path, i);
        place := Attached(next.value.Get());
      } else {
        place := Detached(next.value.Get());
      }
      current := next.value;
      i := i + 1;
    }
    WholePrefix(path);
    r := Some(current);
  }
}
