/**
 * The raw-value realization of the tree (src/object/tree.ts). A tree is a
 * plain value seen at a path: whatever `typeof` calls an object (objects,
 * arrays and `null`) is a container, anything else a leaf.
 *
 * In the source several trees share one value: `getNode` wraps the child
 * object itself, so an edit made through a child shows in its ancestors.
 * Here the value lives in a `Storage` object, and a tree is the storage
 * together with the location of its value inside it.
 */
module ObjectTree {
  import opened Base
  import opened Keys
  import opened Seqs
  import opened Entries
  import opened Values
  import opened Paths

  /** `isLeaf`: the value is not typed as an object. JavaScript types `null` as an object, so `null` is no leaf. */
  predicate IsLeafValue(v: Val) {
    v.Prim? && !v.scalar.Null?
  }

  /**
   * `key in value`, then `value[key]`: the own property `key`, if there is
   * one. The `in` operator throws on anything that is not an object, `null`
   * included.
   */
  function Property(v: Val, key: Key): (r: Result<Option<Val>>)
    ensures r.Ok? <==> v.Obj?
    ensures r.Err? ==> r.error == RuntimeTypeError
    ensures r.Ok? ==> (r.value.Some? <==> key in KeysOf(v.fields))
  {
    if v.Prim? then Err(RuntimeTypeError) else Ok(Lookup(v.fields, key))
  }

  /**
   * `set(key, value)`: refused on a leaf; on `null` the assignment itself
   * throws; an object gets the property, in place if it had it and last if
   * it did not.
   */
  function Assign(v: Val, key: Key, x: Val): (r: Result<Val>)
    ensures r.Err? ==> r.error == TypeMismatch || r.error == RuntimeTypeError
    ensures r.Ok? ==> v.Obj? && r.value.Obj? && r.value.isArray == v.isArray && Lookup(r.value.fields, key) == Some(x)
  {
    if IsLeafValue(v) then Err(TypeMismatch)
    else if v.Prim? then Err(RuntimeTypeError)
    else
      PutLookup(v.fields, key, x, key);
      Ok(Obj(v.isArray, Put(v.fields, key, x)))
  }

  /**
   * `delete value[key]`: `null` throws, another primitive has no own
   * property to lose, an object loses `key` and keeps the rest in order.
   */
  function DeleteProperty(v: Val, key: Key): (r: Result<Val>)
    ensures r.Err? ==> r.error == RuntimeTypeError
    ensures r.Ok? && v.Obj? ==> r.value.Obj? && r.value.isArray == v.isArray && Lookup(r.value.fields, key).None?
  {
    if v.Prim? && v.scalar.Null? then Err(RuntimeTypeError)
    else if v.Prim? then Ok(v)
    else Ok(Obj(v.isArray, Delete(v.fields, key)))
  }

  /**
   * A successful `set` fails exactly on leaves and `null`; afterwards `key`
   * holds the new value and every other property what it held.
   */
  lemma AssignProperty(v: Val, key: Key, x: Val, k: Key)
    ensures Assign(v, key, x).Ok? <==> v.Obj?
    ensures IsLeafValue(v) ==> Assign(v, key, x) == Err(TypeMismatch)
    ensures v.Obj? ==> Property(Assign(v, key, x).value, k) == Ok(if k == key then Some(x) else Lookup(v.fields, k))
  {
    if v.Obj? {
      PutLookup(v.fields, key, x, k);
    }
  }

  /** After `delete`, an object lacks `key` and every other property holds what it held. */
  lemma DeletePropertyLookup(v: Val, key: Key, k: Key)
    ensures DeleteProperty(v, key).Err? <==> v == Prim(Null)
    ensures v.Obj? ==> Property(DeleteProperty(v, key).value, k) == Ok(if k == key then None else Lookup(v.fields, k))
  {
    if v.Obj? && k != key {
      DeleteLookup(v.fields, key, k);
    }
  }

  lemma AssignWellFormed(v: Val, key: Key, x: Val)
    requires WellFormed(v) && WellFormed(x) && Assign(v, key, x).Ok?
    ensures WellFormed(Assign(v, key, x).value)
  {
    PutUnique(v.fields, key, x);
    PutFrom(v.fields, key, x);
    var fs := Put(v.fields, key, x);
    forall i | 0 <= i < |fs| ensures WellFormed(fs[i].1) {
      assert fs[i] in fs;
      if fs[i] != (key, x) {
        var j :| 0 <= j < |v.fields| && v.fields[j] == fs[i];
      }
    }
  }

  lemma DeleteWellFormed(v: Val, key: Key)
    requires WellFormed(v) && DeleteProperty(v, key).Ok?
    ensures WellFormed(DeleteProperty(v, key).value)
  {
    if v.Obj? {
      DeleteUnique(v.fields, key);
      var fs := Delete(v.fields, key);
      forall i | 0 <= i < |fs| ensures WellFormed(fs[i].1) {
        DeleteFrom(v.fields, key, fs[i]);
        var j :| 0 <= j < |v.fields| && v.fields[j] == fs[i];
      }
    }
  }

  /** A pair left after `delete` was there before. */
  lemma {:induction false} DeleteFrom<T>(s: seq<(Key, T)>, k: Key, p: (Key, T))
    requires p in Delete(s, k)
    ensures p in s
  {
    if s != [] && p != s[0] {
      DeleteFrom(s[1..], k, p);
    }
  }

  // ---------------------------------------------------------------------
  // Locations inside a value

  /** The value reached from `v` key by key through objects, if every key is there. */
  function ValueAt(v: Val, path: Path): Option<Val>
    decreases |path|
  {
    if path == [] then Some(v)
    else if v.Prim? then None
    else match Lookup(v.fields, path[0])
      case None => None
      case Some(c) => ValueAt(c, path[1..])
  }

  /** `v` with the value at `path` (which must be there) replaced by `w`. */
  function UpdateValueAt(v: Val, path: Path, w: Val): Val
    requires ValueAt(v, path).Some?
    decreases |path|
  {
    if path == [] then w
    else Obj(v.isArray, Put(v.fields, path[0], UpdateValueAt(Lookup(v.fields, path[0]).value, path[1..], w)))
  }

  lemma ValueAtCons(v: Val, k: Key, rest: Path)
    ensures ValueAt(v, [k] + rest) ==
      if v.Prim? || Lookup(v.fields, k).None? then None else ValueAt(Lookup(v.fields, k).value, rest)
  {
    assert ([k] + rest)[0] == k && ([k] + rest)[1..] == rest;
  }

  /** Following `p + q` is following `p`, then `q` from there. */
  lemma {:induction false} ValueAtAppend(v: Val, p: Path, q: Path)
    ensures ValueAt(v, p + q) == match ValueAt(v, p) case None => None case Some(x) => ValueAt(x, q)
    decreases |p|
  {
    AppendSplit(p, q);
    if p != [] {
      ValueAtCons(v, p[0], p[1..] + q);
      ValueAtCons(v, p[0], p[1..]);
      if v.Obj? && Lookup(v.fields, p[0]).Some? {
        ValueAtAppend(Lookup(v.fields, p[0]).value, p[1..], q);
      }
    }
  }

  /** One key further down: the property `k` of the value at `p`. */
  lemma ValueAtStep(v: Val, p: Path, k: Key)
    requires ValueAt(v, p).Some?
    ensures ValueAt(v, p + [k]) == match Property(ValueAt(v, p).value, k) case Ok(Some(c)) => Some(c) case _ => None
  {
    ValueAtAppend(v, p, [k]);
    ValueAtCons(ValueAt(v, p).value, k, []);
  }

  /** The replaced value is found at its location afterwards. */
  lemma {:induction false} ValueAtUpdated(v: Val, p: Path, w: Val)
    requires ValueAt(v, p).Some?
    ensures ValueAt(UpdateValueAt(v, p, w), p) == Some(w)
    decreases |p|
  {
    if p != [] {
      var c := Lookup(v.fields, p[0]).value;
      PutLookup(v.fields, p[0], UpdateValueAt(c, p[1..], w), p[0]);
      ValueAtUpdated(c, p[1..], w);
    }
  }

  /** Two replacements at one location: the second wins. */
  lemma {:induction false} UpdateValueAtTwice(v: Val, p: Path, w1: Val, w2: Val)
    requires ValueAt(v, p).Some?
    ensures ValueAt(UpdateValueAt(v, p, w1), p).Some?
    ensures UpdateValueAt(UpdateValueAt(v, p, w1), p, w2) == UpdateValueAt(v, p, w2)
    decreases |p|
  {
    ValueAtUpdated(v, p, w1);
    if p != [] {
      var c := Lookup(v.fields, p[0]).value;
      PutLookup(v.fields, p[0], UpdateValueAt(c, p[1..], w1), p[0]);
      UpdateValueAtTwice(c, p[1..], w1, w2);
      PutPutSameKey(v.fields, p[0], UpdateValueAt(c, p[1..], w1), UpdateValueAt(c, p[1..], w2));
    }
  }

  /** Replacing at `p + q` is replacing, at `p`, the value there with its replacement at `q`. */
  lemma {:induction false} UpdateValueAtAppend(v: Val, p: Path, q: Path, w: Val)
    requires ValueAt(v, p).Some? && ValueAt(ValueAt(v, p).value, q).Some?
    ensures ValueAt(v, p + q).Some?
    ensures UpdateValueAt(v, p + q, w) == UpdateValueAt(v, p, UpdateValueAt(ValueAt(v, p).value, q, w))
    decreases |p|
  {
    ValueAtAppend(v, p, q);
    AppendSplit(p, q);
    if p != [] {
      UpdateValueAtAppend(Lookup(v.fields, p[0]).value, p[1..], q, w);
    }
  }

  /** Putting back what is already there changes nothing. */
  lemma {:induction false} UpdateValueAtSame(v: Val, p: Path)
    requires ValueAt(v, p).Some?
    ensures UpdateValueAt(v, p, ValueAt(v, p).value) == v
    decreases |p|
  {
    if p != [] {
      UpdateValueAtSame(Lookup(v.fields, p[0]).value, p[1..]);
      PutSame(v.fields, p[0]);
    }
  }

  /** Every value inside a well-formed value is well-formed. */
  lemma {:induction false} WellFormedAt(v: Val, p: Path)
    requires WellFormed(v) && ValueAt(v, p).Some?
    ensures WellFormed(ValueAt(v, p).value)
    decreases |p|
  {
    if p != [] {
      var c := Lookup(v.fields, p[0]);
      var i :| 0 <= i < |v.fields| && v.fields[i] == (p[0], c.value);
      WellFormedAt(c.value, p[1..]);
    }
  }

  /** Replacing a value inside a well-formed value by a well-formed one keeps it well-formed. */
  lemma {:induction false} WellFormedUpdateAt(v: Val, p: Path, w: Val)
    requires WellFormed(v) && ValueAt(v, p).Some? && WellFormed(w)
    ensures WellFormed(UpdateValueAt(v, p, w))
    decreases |p|
  {
    if p != [] {
      var c := Lookup(v.fields, p[0]).value;
      var i :| 0 <= i < |v.fields| && v.fields[i] == (p[0], c);
      WellFormedUpdateAt(c, p[1..], w);
      AssignWellFormed(v, p[0], UpdateValueAt(c, p[1..], w));
    }
  }

  // ---------------------------------------------------------------------
  // Walking a path

  /**
   * Where a walk stands: on a value of the tree (found at the prefix walked
   * so far), or on a new empty object the hook created outside the tree.
   */
  datatype Place = Attached(value: Val) | Detached

  /**
   * The loop of `traversePath` from key `i` on. A leaf ends the walk with
   * nothing, unless `materialise` (the hook `createParent` is given), which
   * hands the leaf back so that `getNode` on it throws; `getNode` on `null`
   * throws as well. A missing key ends the walk too, unless `materialise`,
   * which continues from a new empty object; that object has no property,
   * so every later key is missing as well.
   */
  function Walk(cur: Place, path: Path, i: nat, materialise: bool): (r: Result<Option<Place>>)
    requires i <= |path|
    ensures r.Err? ==> r.error == RuntimeTypeError
    decreases |path| - i
  {
    if i == |path| then Ok(Some(cur))
    else match cur
      case Detached => Walk(Detached, path, i + 1, materialise)
      case Attached(v) =>
        if IsLeafValue(v) && !materialise then Ok(None)
        else match Property(v, path[i])
          case Err(e) => Err(e)
          case Ok(Some(c)) => Walk(Attached(c), path, i + 1, materialise)
          case Ok(None) => if materialise then Walk(Detached, path, i + 1, materialise) else Ok(None)
  }

  /** `traversePath(tree, path, hook)` on the value of `tree`, `materialise` standing for `createParent`. */
  function Traverse(v: Val, path: Path, materialise: bool): (r: Result<Option<Place>>)
    ensures r.Err? ==> r.error == RuntimeTypeError
    ensures path == [] ==> r == Ok(Some(Attached(v)))
  {
    Walk(Attached(v), path, 0, materialise)
  }

  lemma {:induction false} WalkDetached(path: Path, i: nat, materialise: bool)
    requires i <= |path|
    ensures Walk(Detached, path, i, materialise) == Ok(Some(Detached))
    decreases |path| - i
  {
    if i < |path| {
      WalkDetached(path, i + 1, materialise);
    }
  }

  lemma {:induction false} WalkAttached(x: Val, path: Path, i: nat, materialise: bool)
    requires i <= |path|
    ensures ValueAt(x, path[i..]).Some? ==> Walk(Attached(x), path, i, materialise) == Ok(Some(Attached(ValueAt(x, path[i..]).value)))
    ensures ValueAt(x, path[i..]).None? ==>
      Walk(Attached(x), path, i, materialise) == (if materialise then Ok(Some(Detached)) else Ok(None))
      || Walk(Attached(x), path, i, materialise) == Err(RuntimeTypeError)
    ensures ValueAt(x, path[i..]).None? && NullFree(x) && !materialise ==> Walk(Attached(x), path, i, materialise) == Ok(None)
    decreases |path| - i
  {
    if i < |path| {
      assert path[i..] == [path[i]] + path[i + 1..];
      ValueAtCons(x, path[i], path[i + 1..]);
      if x.Obj? {
        match Lookup(x.fields, path[i])
        case Some(c) =>
          assert (path[i], c) in x.fields;
          WalkAttached(c, path, i + 1, materialise);
        case None =>
          if materialise {
            WalkDetached(path, i + 1, materialise);
          }
      }
    }
  }

  /**
   * `traversePath` finds exactly the value at the path when there is one.
   * Otherwise it throws, or finds nothing without the hook and a new empty
   * object with it; without the hook, in a value with no `null`, it never
   * throws.
   */
  lemma TraverseAt(v: Val, path: Path, materialise: bool)
    ensures ValueAt(v, path).Some? ==> Traverse(v, path, materialise) == Ok(Some(Attached(ValueAt(v, path).value)))
    ensures ValueAt(v, path).None? ==>
      Traverse(v, path, materialise) == (if materialise then Ok(Some(Detached)) else Ok(None))
      || Traverse(v, path, materialise) == Err(RuntimeTypeError)
    ensures ValueAt(v, path).None? && NullFree(v) && !materialise ==> Traverse(v, path, materialise) == Ok(None)
  {
    WalkAttached(v, path, 0, materialise);
    WholeSuffix(path);
  }

  // ---------------------------------------------------------------------
  // Cloning

  /**
   * `deepClone`: an array is mapped element by element, anything `typeof`
   * calls an object gets its enumerable properties copied into a new
   * object, anything else is returned as it is. `null` passes the object
   * test and has no properties, so it becomes `{}`.
   */
  function DeepClone(v: Val): (r: Val)
    ensures IsLeafValue(v) ==> r == v
    ensures r.Obj? <==> !IsLeafValue(v)
    ensures v.Obj? ==> r.isArray == v.isArray && KeysOf(r.fields) == KeysOf(v.fields)
  {
    match v
    case Obj(isArray, fs) => Obj(isArray, seq(|fs|, i requires 0 <= i < |fs| => (fs[i].0, DeepClone(fs[i].1))))
    case Prim(Null) => Obj(false, [])
    case Prim(_) => v
  }

  /**
   * The clone holds no `null`, keeps the keys of every object, and equals
   * the original exactly when the original holds no `null`.
   */
  lemma {:induction false} DeepCloneNull(v: Val)
    ensures NullFree(DeepClone(v))
    ensures DeepClone(v) == v <==> NullFree(v)
    ensures WellFormed(v) ==> WellFormed(DeepClone(v))
  {
    match v
    case Prim(_) =>
    case Obj(isArray, fs) =>
      var cs := DeepClone(v).fields;
      forall i | 0 <= i < |fs|
        ensures NullFree(cs[i].1) && cs[i].0 == fs[i].0
        ensures cs[i].1 == fs[i].1 <==> NullFree(fs[i].1)
        ensures WellFormed(fs[i].1) ==> WellFormed(cs[i].1)
      {
        assert fs[i] in fs;
        DeepCloneNull(fs[i].1);
      }
      if NullFree(v) {
        assert cs == fs;
      } else if DeepClone(v) == v {
        forall i | 0 <= i < |fs| ensures NullFree(fs[i].1) {
          assert cs[i] == fs[i];
        }
      }
  }

  /** `deepClone` with `null` kept as it is, as the function is evidently meant: a copy equal to its original. */
  function DeepCopy(v: Val): (r: Val)
    ensures r == v
  {
    match v
    case Obj(isArray, fs) =>
      var cs := seq(|fs|, i requires 0 <= i < |fs| => (fs[i].0, DeepCopy(fs[i].1)));
      assert cs == fs;
      Obj(isArray, cs)
    case Prim(_) => v
  }

  /** The clone as written agrees with the corrected copy exactly on values without `null`. */
  lemma DeepCloneIsCopy(v: Val)
    ensures DeepClone(v) == DeepCopy(v) <==> NullFree(v)
  {
    DeepCloneNull(v);
  }

  /** `deepClone` as it runs: a loop over the properties for objects, `map` for arrays. */
  method CloneValue(v: Val) returns (r: Val)
    requires WellFormed(v)
    ensures r == DeepClone(v)
    decreases v
  {
    match v
    case Prim(s) =>
      r := if s.Null? then Obj(false, []) else v;
    case Obj(isArray, fs) =>
      var out: seq<(Key, Val)> := [];
      for i := 0 to |fs|
        invariant out == DeepClone(Obj(isArray, fs[..i])).fields
      {
        assert fs[i] in fs;
        var c := CloneValue(fs[i].1);
        if isArray {
          out := out + [(fs[i].0, c)];
        } else {
          assert fs[i].0 !in KeysOf(out) by {
            forall j | 0 <= j < i ensures out[j].0 != fs[i].0 {
              assert out[j].0 == fs[j].0;
            }
          }
          out := Put(out, fs[i].0, c);
        }
        PrefixSnoc(fs, i);
      }
      WholePrefix(fs);
      r := Obj(isArray, out);
  }

  // ---------------------------------------------------------------------
  // Trees in the heap

  /** The value a tree and all its descendants share. */
  class Storage {
    var value: Val

    constructor(v: Val)
      ensures value == v
    {
      value := v;
    }
  }

  /** A `Tree`: the value found at `at` in `store`, seen at the path `path`. */
  datatype Tree = Tree(store: Storage, at: Path, path: Path) {

    predicate Resolves()
      reads store
    {
      ValueAt(store.value, at).Some?
    }

    /** `tree.value`. */
    function Value(): Val
      reads store
      requires Resolves()
    {
      ValueAt(store.value, at).value
    }

    /** `isLeaf`. */
    function IsLeaf(): bool
      reads store
      requires Resolves()
    {
      IsLeafValue(Value())
    }

    /**
     * `set(key, value)`: the error `Assign` gives, changing nothing, or the
     * value of this tree becomes the one `Assign` gives, and nothing outside
     * it changes.
     */
    method Set(key: Key, x: Val) returns (r: Outcome)
      requires Resolves()
      modifies store
      ensures Assign(old(Value()), key, x).Err? ==>
        r == Fail(Assign(old(Value()), key, x).error) && store.value == old(store.value)
      ensures Assign(old(Value()), key, x).Ok? ==>
        r == Pass && store.value == UpdateValueAt(old(store.value), at, Assign(old(Value()), key, x).value)
      ensures Resolves()
    {
      var v := Value();
      if IsLeafValue(v) {
        return Fail(TypeMismatch);
      }
      if v.Prim? {
        return Fail(RuntimeTypeError);
      }
      var w := Obj(v.isArray, Put(v.fields, key, x));
      ValueAtUpdated(store.value, at, w);
      store.value := UpdateValueAt(store.value, at, w);
      r := Pass;
    }

    /**
     * `addNode(node)`: a structural violation unless `node`'s path is an
     * immediate child of this tree's; then what `set` of its last key to its
     * value does.
     */
    method AddNode(node: Tree) returns (r: Outcome)
      requires Resolves() && node.Resolves()
      modifies store
      ensures !ChildPath(path, node.path) ==> r == Fail(StructuralViolation) && store.value == old(store.value)
      ensures ChildPath(path, node.path) ==> var res := Assign(old(Value()), node.path[|path|], old(node.Value()));
        if res.Err? then r == Fail(res.error) && store.value == old(store.value)
        else r == Pass && store.value == UpdateValueAt(old(store.value), at, res.value)
    {
      r := ExpectParentOf(path, node.path);
      if r.Fail? {
        return;
      }
      r := Set(node.path[|path|], node.Value());
    }

    /**
     * `getNode(key)`: `in` throws unless the value is an object; otherwise
     * the child tree at `key`, sharing this tree's storage, if the object
     * has that property.
     */
    function GetNode(key: Key): (r: Result<Option<Tree>>)
      reads store
      requires Resolves()
      ensures r.Err? <==> Value().Prim?
      ensures r.Ok? ==> (r.value.Some? <==> key in KeysOf(Value().fields))
      ensures r.Ok? && r.value.Some? ==>
        r.value.value == Tree(store, at + [key], path + [key]) && r.value.value.Resolves()
        && r.value.value.Value() == Lookup(Value().fields, key).value
    {
      match Property(Value(), key)
      case Err(e) => Err(e)
      case Ok(None) => Ok(None)
      case Ok(Some(_)) =>
        ValueAtStep(store.value, at, key);
        Ok(Some(Tree(store, at + [key], path + [key])))
    }

    /** `removeNode(key)`: what `DeleteProperty` gives, at this tree's location. */
    method RemoveNode(key: Key) returns (r: Outcome)
      requires Resolves()
      modifies store
      ensures DeleteProperty(old(Value()), key).Err? ==>
        r == Fail(RuntimeTypeError) && store.value == old(store.value)
      ensures DeleteProperty(old(Value()), key).Ok? ==>
        r == Pass && store.value == UpdateValueAt(old(store.value), at, DeleteProperty(old(Value()), key).value)
      ensures Resolves()
    {
      var v := Value();
      if v.Prim? && v.scalar.Null? {
        return Fail(RuntimeTypeError);
      }
      var w := if v.Prim? then v else Obj(v.isArray, Delete(v.fields, key));
      ValueAtUpdated(store.value, at, w);
      store.value := UpdateValueAt(store.value, at, w);
      r := Pass;
    }

    /** `removeNode(node)`: a structural violation unless `node` is an immediate child; else removes its last key. */
    method RemoveChildNode(node: Tree) returns (r: Outcome)
      requires Resolves()
      modifies store
      ensures !ChildPath(path, node.path) ==> r == Fail(StructuralViolation) && store.value == old(store.value)
      ensures ChildPath(path, node.path) ==> var res := DeleteProperty(old(Value()), node.path[|node.path| - 1]);
        if res.Err? then r == Fail(res.error) && store.value == old(store.value)
        else r == Pass && store.value == UpdateValueAt(old(store.value), at, res.value)
    {
      r := ExpectParentOf(path, node.path);
      if r.Fail? {
        return;
      }
      r := RemoveNode(node.path[|node.path| - 1]);
    }

    /** `clone`: a new tree at the same path over a new storage holding `deepClone` of the value. */
    method Clone() returns (c: Tree)
      requires Resolves() && WellFormed(Value())
      ensures fresh(c.store) && c.at == [] && c.path == path
      ensures c.Resolves() && c.Value() == DeepClone(Value())
    {
      var v := CloneValue(Value());
      var s := new Storage(v);
      c := Tree(s, [], path);
    }
  }

  /** One key of `Walk`, unfolded. */
  lemma WalkStep(cur: Place, path: Path, i: nat, materialise: bool)
    requires i < |path|
    ensures cur.Detached? ==> Walk(cur, path, i, materialise) == Walk(Detached, path, i + 1, materialise)
    ensures cur.Attached? && IsLeafValue(cur.value) && !materialise ==> Walk(cur, path, i, materialise) == Ok(None)
    ensures cur.Attached? && !(IsLeafValue(cur.value) && !materialise) ==>
      Walk(cur, path, i, materialise) ==
        match Property(cur.value, path[i])
        case Err(e) => Err(e)
        case Ok(Some(c)) => Walk(Attached(c), path, i + 1, materialise)
        case Ok(None) => if materialise then Walk(Detached, path, i + 1, materialise) else Ok(None)
  {
  }

  /**
   * One turn of the loop of `traversePath`: nothing on a leaf without the
   * hook; else `getNode(key)`, which throws on a primitive; the child tree
   * if there is one; else, with the hook, a new tree over `{}` at `prefix`.
   */
  method TraverseStep(current: Tree, key: Key, prefix: Path, materialise: bool) returns (next: Result<Option<Tree>>)
    requires current.Resolves()
    ensures IsLeafValue(current.Value()) && !materialise ==> next == Ok(None)
    ensures !(IsLeafValue(current.Value()) && !materialise) && current.Value().Prim? ==> next == Err(RuntimeTypeError)
    ensures !(IsLeafValue(current.Value()) && !materialise) && current.Value().Obj? && key in KeysOf(current.Value().fields) ==>
      next == Ok(Some(Tree(current.store, current.at + [key], current.path + [key])))
      && next.value.value.Resolves() && next.value.value.Value() == Lookup(current.Value().fields, key).value
    ensures current.Value().Obj? && key !in KeysOf(current.Value().fields) ==>
      if materialise then
        next.Ok? && next.value.Some? && fresh(next.value.value.store) && next.value.value.path == prefix
        && next.value.value.Resolves() && next.value.value.Value() == Obj(false, [])
      else next == Ok(None)
  {
    if current.IsLeaf() && !materialise {
      return Ok(None);
    }
    next := current.GetNode(key);
    if next.Ok? && next.value.None? && materialise {
      var s := new Storage(Obj(false, []));
      next := Ok(Some(Tree(s, [], prefix)));
    }
  }

  /**
   * The loop of `traversePath`: it throws, ends on nothing, on the tree at
   * the path, or on a new tree the hook created, exactly as `Traverse` says.
   */
  method TraversePath(t: Tree, path: Path, materialise: bool) returns (r: Result<Option<Tree>>)
    requires t.Resolves()
    ensures Traverse(t.Value(), path, materialise).Err? ==> r == Err(Traverse(t.Value(), path, materialise).error)
    ensures Traverse(t.Value(), path, materialise) == Ok(None) ==> r == Ok(None)
    ensures Traverse(t.Value(), path, materialise).Ok? && Traverse(t.Value(), path, materialise).value.Some? ==> r.Ok? && r.value.Some?
    ensures Traverse(t.Value(), path, materialise) == Ok(Some(Detached)) ==>
      fresh(r.value.value.store) && r.value.value.Resolves() && r.value.value.Value() == Obj(false, [])
    ensures forall x :: Traverse(t.Value(), path, materialise) == Ok(Some(Attached(x))) ==>
      r.value.value == Tree(t.store, t.at + path, t.path + path) && r.value.value.Resolves() && r.value.value.Value() == x
  {
    var current := t;
    ghost var place := Attached(t.Value());
    var i := 0;
    AppendNoPrefix(t.at, path);
    AppendNoPrefix(t.path, path);
    while i < |path|
      invariant 0 <= i <= |path|
      invariant current.Resolves()
      invariant place.Attached? ==> current == Tree(t.store, t.at + path[..i], t.path + path[..i]) && place.value == current.Value()
      invariant place.Detached? ==> materialise && fresh(current.store) && current.Value() == Obj(false, [])
      invariant Traverse(t.Value(), path, materialise) == Walk(place, path, i, materialise)
    {
      ghost var v := current.Value();
      WalkStep(place, path, i, materialise);
      var next := TraverseStep(current, path[i], path[..i + 1], materialise);
      if next.Err? {
        return Err(next.error);
      }
      if next.value.None? {
        return Ok(None);
      }
      if place.Attached? && v.Obj? && path[i] in KeysOf(v.fields) {
        PrefixStep(t.at, path, i);
        PrefixStep(t.path, path, i);
        place := Attached(next.value.value.Value());
      } else {
        place := Detached;
      }
      current := next.value.value;
      i := i + 1;
    }
    WholePrefix(path);
    r := Ok(Some(current));
  }
}
