/**
 * The diff and patch engine over raw values (src/object/tree-diff.ts).
 *
 * `calculateOperations` reads its inputs only and is a function; it can
 * throw, so it yields a `Result`. `applyOperation` edits a tree in place and
 * is a method, specified by the function `ApplyOp` on values;
 * `applyOperations` replays onto a clone and returns it.
 */
module ObjectTreeDiff {
  import opened Base
  import opened Keys
  import opened Seqs
  import opened Entries
  import opened Paths
  import opened Values
  import opened Json
  import opened Operations
  import opened ObjectTree

  // ---------------------------------------------------------------------
  // Diff

  /** `getSetValue`: a `set` carrying the value itself. */
  function GetSetValue(v: Val, path: Path): Operation {
    Set(path, v)
  }

  /** Leaf equality of the diff: `===`, or the same text under the key-sorted `stringify`. */
  predicate SameLeaf(enc: Scalar -> string, a: Val, b: Val) {
    a == b || Stringify(enc, a) == Stringify(enc, b)
  }

  /**
   * Whether the diff tells an array from a plain object. The source does
   * not (`kinds` false): both are objects to it, and an array is diffed
   * index by index against an object's properties. With `kinds` true, an
   * array and a plain object clash and the second replaces the first.
   */
  predicate KindClash(kinds: bool, a: Val, b: Val) {
    kinds && a.Obj? && b.Obj? && a.isArray != b.isArray
  }

  /**
   * `calculateChanges(a, b, path)`: two containers are diffed key by key;
   * two leaves that are equal emit nothing; any other pair is replaced by `b`.
   */
  function Changes(enc: Scalar -> string, kinds: bool, a: Val, b: Val, path: Path): (r: Result<seq<Operation>>)
    ensures r.Err? ==> !IsLeafValue(a) && !IsLeafValue(b)
    ensures IsLeafValue(a) && a == b ==> r == Ok([])
    decreases a, 2
  {
    if !IsLeafValue(a) && !IsLeafValue(b) && !KindClash(kinds, a, b) then Diff(enc, kinds, a, b, path)
    else if IsLeafValue(a) && IsLeafValue(b) && SameLeaf(enc, a, b) then Ok([])
    else Ok([GetSetValue(b, path)])
  }

  /**
   * `calculateOperations(a, b, path)` on two containers. `Object.entries(b)`
   * comes first and throws on `null`; a `for ... in` over `null` visits
   * nothing. Then each key of `a` in enumeration order (its changes if `b`
   * has it, else a `remove`), then a `set` for each key only `b` has, in
   * `b`'s order.
   */
  function Diff(enc: Scalar -> string, kinds: bool, a: Val, b: Val, path: Path): (r: Result<seq<Operation>>)
    requires !IsLeafValue(a) && !IsLeafValue(b)
    ensures b.Prim? ==> r == Err(RuntimeTypeError)
    ensures r.Ok? && a.Obj? ==> |r.value| >= |Added(a.fields, b.fields)|
    decreases a, 1
  {
    if b.Prim? then Err(RuntimeTypeError)
    else if a.Prim? then Ok(Additions(b.fields, path))
    else
      var walked :- Walked(enc, kinds, a, b, path, |a.fields|);
      Ok(walked + Additions(Added(a.fields, b.fields), path))
  }

  /** The first phase, over the first `i` keys of `a`; the first error aborts it. */
  function Walked(enc: Scalar -> string, kinds: bool, a: Val, b: Val, path: Path, i: nat): Result<seq<Operation>>
    requires a.Obj? && b.Obj? && i <= |a.fields|
    decreases a, 0, i
  {
    if i == 0 then Ok([])
    else
      var before :- Walked(enc, kinds, a, b, path, i - 1);
      var step :- KeyChanges(enc, kinds, a, b, path, i - 1);
      Ok(before + step)
  }

  /** The operations for the `j`-th key of `a`: its changes if `b` has it, else a `remove`. */
  function KeyChanges(enc: Scalar -> string, kinds: bool, a: Val, b: Val, path: Path, j: nat): Result<seq<Operation>>
    requires a.Obj? && b.Obj? && j < |a.fields|
    decreases a, 0, j
  {
    var (k, x) := a.fields[j];
    assert a.fields[j] in a.fields;
    match Lookup(b.fields, k)
    case Some(y) => Changes(enc, kinds, x, y, path + [k])
    case None => Ok([Remove(path + [k])])
  }

  /** The second phase: one `set` per added entry. */
  function Additions(added: seq<(Key, Val)>, path: Path): (ops: seq<Operation>)
    ensures |ops| == |added|
    ensures forall i :: 0 <= i < |added| ==> ops[i] == Set(path + [added[i].0], added[i].1)
  {
    seq(|added|, i requires 0 <= i < |added| => GetSetValue(added[i].1, path + [added[i].0]))
  }

  /**
   * The second phase covers exactly the keys of `b` that `a` lacks: one
   * operation for each, at the current path plus that key, and no two at the
   * same path.
   */
  lemma AdditionsCover(a: seq<(Key, Val)>, b: seq<(Key, Val)>, path: Path)
    requires UniqueKeys(b)
    ensures forall k :: k in KeysOf(b) && k !in KeysOf(a) <==>
      exists i :: 0 <= i < |Additions(Added(a, b), path)| && Additions(Added(a, b), path)[i].path == path + [k]
    ensures forall i, j :: 0 <= i < j < |Additions(Added(a, b), path)| ==>
      Additions(Added(a, b), path)[i].path != Additions(Added(a, b), path)[j].path
  {
    AddedUnique(a, b);
    AddedKeys(a, b);
    AdditionsPaths(Added(a, b), path);
  }

  /** Every path of the second phase lies strictly below the current path. */
  lemma AdditionsWithin(add: seq<(Key, Val)>, path: Path)
    ensures forall op :: op in Additions(add, path) ==> |op.path| > |path| && Within(path, op.path)
  {
    forall op | op in Additions(add, path) ensures |op.path| > |path| && Within(path, op.path) {
      var i :| 0 <= i < |add| && Additions(add, path)[i] == op;
      assert op.path == path + [add[i].0];
      AppendOnePrefix(path, add[i].0);
    }
  }

  /** The paths of the second phase are the current path plus each added key, one per key. */
  lemma AdditionsPaths(added: seq<(Key, Val)>, path: Path)
    ensures forall k :: k in KeysOf(added) <==>
      exists i :: 0 <= i < |Additions(added, path)| && Additions(added, path)[i].path == path + [k]
    ensures UniqueKeys(added) ==> forall i, j :: 0 <= i < j < |Additions(added, path)| ==>
      Additions(added, path)[i].path != Additions(added, path)[j].path
  {
    var ops := Additions(added, path);
    forall k ensures k in KeysOf(added) <==> exists i :: 0 <= i < |ops| && ops[i].path == path + [k] {
      KeysOfMember(added, k);
      if exists i :: 0 <= i < |ops| && ops[i].path == path + [k] {
        var i :| 0 <= i < |ops| && ops[i].path == path + [k];
        assert (path + [added[i].0])[|path|] == added[i].0;
      }
      if k in KeysOf(added) {
        var i :| 0 <= i < |added| && added[i].0 == k;
        assert ops[i].path == path + [k];
      }
    }
    forall i, j | 0 <= i < j < |ops| && ops[i].path == ops[j].path ensures added[i].0 == added[j].0 {
      assert (path + [added[i].0])[|path|] == added[i].0;
      assert (path + [added[j].0])[|path|] == added[j].0;
    }
  }

  /**
   * The diff throws only because of a `null`, and only with the runtime's
   * TypeError: between two values without `null` it always succeeds. A
   * container diffed against `null` throws.
   */
  lemma {:induction false} ChangesErrors(enc: Scalar -> string, kinds: bool, a: Val, b: Val, path: Path)
    ensures Changes(enc, kinds, a, b, path).Err? ==> Changes(enc, kinds, a, b, path).error == RuntimeTypeError
    ensures NullFree(a) && NullFree(b) ==> Changes(enc, kinds, a, b, path).Ok?
    ensures !IsLeafValue(a) && b == Prim(Null) ==> Changes(enc, kinds, a, b, path) == Err(RuntimeTypeError)
    decreases a, 2
  {
    if a.Obj? && b.Obj? {
      WalkedErrors(enc, kinds, a, b, path, |a.fields|);
    }
  }

  lemma {:induction false} WalkedErrors(enc: Scalar -> string, kinds: bool, a: Val, b: Val, path: Path, i: nat)
    requires a.Obj? && b.Obj? && i <= |a.fields|
    ensures Walked(enc, kinds, a, b, path, i).Err? ==> Walked(enc, kinds, a, b, path, i).error == RuntimeTypeError
    ensures NullFree(a) && NullFree(b) ==> Walked(enc, kinds, a, b, path, i).Ok?
    decreases a, 0, i
  {
    if i > 0 {
      WalkedErrors(enc, kinds, a, b, path, i - 1);
      var (k, x) := a.fields[i - 1];
      assert a.fields[i - 1] in a.fields;
      match Lookup(b.fields, k)
      case Some(y) =>
        assert (k, y) in b.fields;
        ChangesErrors(enc, kinds, x, y, path + [k]);
      case None =>
    }
  }

  /**
   * Every path the diff emits extends the current path; between two
   * containers that do not clash in kind, strictly.
   */
  lemma {:induction false} ChangesPaths(enc: Scalar -> string, kinds: bool, a: Val, b: Val, path: Path)
    ensures Changes(enc, kinds, a, b, path).Ok? ==>
      forall op :: op in Changes(enc, kinds, a, b, path).value ==> Within(path, op.path)
    ensures Changes(enc, kinds, a, b, path).Ok? && !IsLeafValue(a) && !IsLeafValue(b) && !KindClash(kinds, a, b) ==>
      forall op :: op in Changes(enc, kinds, a, b, path).value ==> |op.path| > |path|
    decreases a, 2
  {
    if !IsLeafValue(a) && !IsLeafValue(b) && !KindClash(kinds, a, b) && b.Obj? {
      var add := if a.Prim? then b.fields else Added(a.fields, b.fields);
      if a.Obj? {
        WalkedPaths(enc, kinds, a, b, path, |a.fields|);
      }
      AdditionsWithin(add, path);
    }
  }

  lemma {:induction false} WalkedPaths(enc: Scalar -> string, kinds: bool, a: Val, b: Val, path: Path, i: nat)
    requires a.Obj? && b.Obj? && i <= |a.fields|
    ensures Walked(enc, kinds, a, b, path, i).Ok? ==>
      forall op :: op in Walked(enc, kinds, a, b, path, i).value ==> |op.path| > |path| && Within(path, op.path)
    decreases a, 0, i
  {
    if i > 0 {
      ghost var m := i - 1;
      WalkedPaths(enc, kinds, a, b, path, m);
      KeyPaths(enc, kinds, a, b, path, m);
      WalkedPathsStep(enc, kinds, a, b, path, m, i);
    }
  }

  /** The paths of the first phase over `n = i + 1` keys: those over `i` keys and those for key `i`. */
  lemma WalkedPathsStep(enc: Scalar -> string, kinds: bool, a: Val, b: Val, path: Path, i: nat, n: nat)
    requires a.Obj? && b.Obj? && n == i + 1 <= |a.fields|
    requires Walked(enc, kinds, a, b, path, i).Ok? ==>
      forall op :: op in Walked(enc, kinds, a, b, path, i).value ==> |op.path| > |path| && Within(path, op.path)
    requires KeyChanges(enc, kinds, a, b, path, i).Ok? ==>
      forall op :: op in KeyChanges(enc, kinds, a, b, path, i).value ==> |op.path| > |path| && Within(path, op.path)
    ensures Walked(enc, kinds, a, b, path, n).Ok? ==>
      forall op :: op in Walked(enc, kinds, a, b, path, n).value ==> |op.path| > |path| && Within(path, op.path)
  {
    if Walked(enc, kinds, a, b, path, n).Ok? {
      var front, last := Walked(enc, kinds, a, b, path, i).value, KeyChanges(enc, kinds, a, b, path, i).value;
      assert Walked(enc, kinds, a, b, path, n).value == front + last;
      forall op: Operation | op in front + last ensures |op.path| > |path| && Within(path, op.path) {
        if op !in front {
          assert op in last;
        }
      }
    }
  }

  /** Every operation for one key of `a` lies strictly below the path extended by that key. */
  lemma {:induction false} KeyPaths(enc: Scalar -> string, kinds: bool, a: Val, b: Val, path: Path, j: nat)
    requires a.Obj? && b.Obj? && j < |a.fields|
    ensures KeyChanges(enc, kinds, a, b, path, j).Ok? ==>
      forall op :: op in KeyChanges(enc, kinds, a, b, path, j).value ==> |op.path| > |path| && Within(path, op.path)
    decreases a, 0, j
  {
    var (k, x) := a.fields[j];
    assert a.fields[j] in a.fields;
    AppendOnePrefix(path, k);
    if Lookup(b.fields, k).Some? && KeyChanges(enc, kinds, a, b, path, j).Ok? {
      var y := Lookup(b.fields, k).value;
      assert (k, y) in b.fields;
      ChangesPaths(enc, kinds, x, y, path + [k]);
      forall op | op in KeyChanges(enc, kinds, a, b, path, j).value ensures |op.path| > |path| && Within(path, op.path) {
        ExtendedPrefix(path, k, op.path);
      }
    }
  }

  /**
   * Equal leaves emit nothing; a leaf paired with anything else, or a
   * container with a leaf, emits exactly one `set` of `b` at the path.
   */
  lemma ChangesNotContainers(enc: Scalar -> string, kinds: bool, a: Val, b: Val, path: Path)
    requires IsLeafValue(a) || IsLeafValue(b)
    ensures Changes(enc, kinds, a, b, path) ==
      if IsLeafValue(a) && IsLeafValue(b) && enc(a.scalar) == enc(b.scalar) then Ok([]) else Ok([Set(path, b)])
  {
  }

  // ---------------------------------------------------------------------
  // Patch, on values

  /**
   * `applyOperation(tree, op)` on the value of `tree`: the new value, or
   * the error it throws. A `remove` walks without the hook and deletes the
   * key from what it finds; a `set` walks with `createParent` and sets the
   * key there, so a missing prefix gives a parent outside the tree and the
   * write is lost. Any other tag is refused.
   */
  function ApplyOp(v: Val, op: Operation): (r: Result<Val>)
    ensures op.path == [] ==> r == Err(EmptyPath)
    ensures r.Err? ==> r.error in {EmptyPath, InvalidOperationType, RuntimeTypeError, TypeMismatch}
  {
    var (prefix, key) :- SplitPath(op.path);
    match op
    case Remove(_) =>
      TraverseAt(v, prefix, false);
      (match Traverse(v, prefix, false)
       case Err(e) => Err(e)
       case Ok(Some(Attached(p))) =>
         var w :- DeleteProperty(p, key);
         Ok(UpdateValueAt(v, prefix, w))
       case Ok(_) => Ok(v))
    case Set(_, x) =>
      TraverseAt(v, prefix, true);
      (match Traverse(v, prefix, true)
       case Err(e) => Err(e)
       case Ok(Some(Attached(p))) =>
         var w :- Assign(p, key, x);
         Ok(UpdateValueAt(v, prefix, w))
       case Ok(_) => Ok(v))
    case _ => Err(InvalidOperationType)
  }

  /** `applyOperations` on values: each operation in turn; the first error stops the replay. */
  function ApplyAll(v: Val, ops: seq<Operation>): (r: (Val, Outcome))
    ensures ops == [] ==> r == (v, Pass)
    decreases |ops|
  {
    if ops == [] then (v, Pass)
    else match ApplyOp(v, ops[0])
      case Err(e) => (v, Fail(e))
      case Ok(v') => ApplyAll(v', ops[1..])
  }

  /**
   * Below an existing value, a `remove` deletes the key there and a `set`
   * assigns it there, failing as `delete` and `set` fail; the empty path and
   * the tags of the other realization are refused.
   */
  lemma {:induction false} ApplyOpAt(v: Val, op: Operation)
    ensures op.path == [] ==> ApplyOp(v, op) == Err(EmptyPath)
    ensures op.path != [] && (op.SetLeaf? || op.SetTree?) ==> ApplyOp(v, op) == Err(InvalidOperationType)
    ensures op.path != [] && op.Remove? && ValueAt(v, op.path[..|op.path| - 1]).Some? ==>
      var prefix := op.path[..|op.path| - 1];
      ApplyOp(v, op) == match DeleteProperty(ValueAt(v, prefix).value, op.path[|op.path| - 1])
        case Err(e) => Err(e)
        case Ok(w) => Ok(UpdateValueAt(v, prefix, w))
    ensures op.path != [] && op.Set? && ValueAt(v, op.path[..|op.path| - 1]).Some? ==>
      var prefix := op.path[..|op.path| - 1];
      ApplyOp(v, op) == match Assign(ValueAt(v, prefix).value, op.path[|op.path| - 1], op.value)
        case Err(e) => Err(e)
        case Ok(w) => Ok(UpdateValueAt(v, prefix, w))
  {
    if op.path != [] {
      var prefix := op.path[..|op.path| - 1];
      assert SplitPath(op.path) == Ok((prefix, op.path[|op.path| - 1]));
      var key := op.path[|op.path| - 1];
      if op.Remove? && ValueAt(v, prefix).Some? {
        TraverseAt(v, prefix, false);
        RemoveAtExisting(v, op, prefix, key, ValueAt(v, prefix).value);
      } else if op.Set? && ValueAt(v, prefix).Some? {
        TraverseAt(v, prefix, true);
        SetAtExisting(v, op, prefix, key, ValueAt(v, prefix).value);
      }
    }
  }

  /** The `remove` half of `ApplyOpAt`: `delete` on what the walk reaches. */
  lemma {:induction false} RemoveAtExisting(v: Val, op: Operation, prefix: Path, key: Key, p: Val)
    requires op.Remove? && SplitPath(op.path) == Ok((prefix, key))
      && ValueAt(v, prefix) == Some(p) && Traverse(v, prefix, false) == Ok(Some(Attached(p)))
    ensures DeleteProperty(p, key).Err? ==> ApplyOp(v, op) == Err(DeleteProperty(p, key).error)
    ensures DeleteProperty(p, key).Ok? ==> ApplyOp(v, op) == Ok(UpdateValueAt(v, prefix, DeleteProperty(p, key).value))
  {
  }

  /** The `set` half of `ApplyOpAt`: `set` on what the walk reaches. */
  lemma {:induction false} SetAtExisting(v: Val, op: Operation, prefix: Path, key: Key, p: Val)
    requires op.Set? && SplitPath(op.path) == Ok((prefix, key))
      && ValueAt(v, prefix) == Some(p) && Traverse(v, prefix, true) == Ok(Some(Attached(p)))
    ensures Assign(p, key, op.value).Err? ==> ApplyOp(v, op) == Err(Assign(p, key, op.value).error)
    ensures Assign(p, key, op.value).Ok? ==> ApplyOp(v, op) == Ok(UpdateValueAt(v, prefix, Assign(p, key, op.value).value))
  {
  }

  /**
   * Where the prefix is missing, a `remove` or a `set` changes nothing, or
   * throws the runtime's TypeError; a `remove` in a value without `null`
   * never throws.
   */
  lemma ApplyOpMissing(v: Val, op: Operation)
    requires (op.Remove? || op.Set?) && op.path != [] && ValueAt(v, op.path[..|op.path| - 1]).None?
    ensures ApplyOp(v, op) == Ok(v) || ApplyOp(v, op) == Err(RuntimeTypeError)
    ensures op.Remove? && NullFree(v) ==> ApplyOp(v, op) == Ok(v)
  {
    TraverseAt(v, op.path[..|op.path| - 1], op.Set?);
  }

  /** Replaying two lists is replaying the first, then (if it passed) the second. */
  lemma {:induction false} ApplyAllAppend(v: Val, o1: seq<Operation>, o2: seq<Operation>)
    ensures ApplyAll(v, o1 + o2) ==
      if ApplyAll(v, o1).1.Pass? then ApplyAll(ApplyAll(v, o1).0, o2) else ApplyAll(v, o1)
    decreases |o1|
  {
    if o1 == [] {
      assert o1 + o2 == o2;
    } else {
      assert (o1 + o2)[0] == o1[0] && (o1 + o2)[1..] == o1[1..] + o2;
      if ApplyOp(v, o1[0]).Ok? {
        ApplyAllAppend(ApplyOp(v, o1[0]).value, o1[1..], o2);
      }
    }
  }

  // ---------------------------------------------------------------------
  // Patch, in place

  /** How the value of a tree and the value below it at `prefix` sit in the whole storage. */
  lemma ParentFrame(root: Val, at: Path, n: Val, prefix: Path)
    requires ValueAt(root, at) == Some(n)
    ensures UpdateValueAt(root, at, n) == root
    ensures ValueAt(n, prefix).Some? ==> ValueAt(root, at + prefix) == ValueAt(n, prefix)
    ensures ValueAt(n, prefix).Some? ==>
      forall w :: UpdateValueAt(root, at + prefix, w) == UpdateValueAt(root, at, UpdateValueAt(n, prefix, w))
  {
    UpdateValueAtSame(root, at);
    ValueAtAppend(root, at, prefix);
    if ValueAt(n, prefix).Some? {
      forall w ensures UpdateValueAt(root, at + prefix, w) == UpdateValueAt(root, at, UpdateValueAt(n, prefix, w)) {
        UpdateValueAtAppend(root, at, prefix, w);
      }
    }
  }

  /**
   * `applyOperation(tree, op)` on the tree `t`: its value becomes `ApplyOp`
   * of its old value, or stays as it was when it throws.
   */
  method ApplyOperation(t: Tree, op: Operation) returns (r: Outcome)
    requires t.Resolves()
    modifies t.store
    ensures ApplyOp(old(t.Value()), op).Err? ==>
      r == Fail(ApplyOp(old(t.Value()), op).error) && t.store.value == old(t.store.value)
    ensures ApplyOp(old(t.Value()), op).Ok? ==>
      r == Pass && t.store.value == UpdateValueAt(old(t.store.value), t.at, ApplyOp(old(t.Value()), op).value)
  {
    var split := SplitPath(op.path);
    if split.Err? {
      return Fail(split.error);
    }
    var (prefix, key) := split.value;
    match op {
      case Remove(_) =>
        r := RemoveAt(t, op, prefix, key);
      case Set(_, x) =>
        r := SetAt(t, op, prefix, key);
      case SetLeaf(_, _) =>
        r := Fail(InvalidOperationType);
      case SetTree(_, _) =>
        r := Fail(InvalidOperationType);
    }
  }

  /** The `remove` branch: walk to the parent without the hook, then delete the key there if a parent was found. */
  method RemoveAt(t: Tree, op: Operation, prefix: Path, key: Key) returns (r: Outcome)
    requires t.Resolves() && op.Remove? && SplitPath(op.path) == Ok((prefix, key))
    modifies t.store
    ensures ApplyOp(old(t.Value()), op).Err? ==>
      r == Fail(ApplyOp(old(t.Value()), op).error) && t.store.value == old(t.store.value)
    ensures ApplyOp(old(t.Value()), op).Ok? ==>
      r == Pass && t.store.value == UpdateValueAt(old(t.store.value), t.at, ApplyOp(old(t.Value()), op).value)
  {
    ghost var n := t.Value();
    ParentFrame(t.store.value, t.at, n, prefix);
    TraverseAt(n, prefix, false);
    var parent := TraversePath(t, prefix, false);
    if parent.Err? {
      assert ApplyOp(n, op) == Err(parent.error);
      return Fail(parent.error);
    }
    if parent.value.Some? {
      RemoveAtExisting(n, op, prefix, key, ValueAt(n, prefix).value);
      r := parent.value.value.RemoveNode(key);
    } else {
      assert ApplyOp(n, op) == Ok(n);
      r := Pass;
    }
  }

  /** The `set` branch: walk to the parent with `createParent`, then set the key there. */
  method SetAt(t: Tree, op: Operation, prefix: Path, key: Key) returns (r: Outcome)
    requires t.Resolves() && op.Set? && SplitPath(op.path) == Ok((prefix, key))
    modifies t.store
    ensures ApplyOp(old(t.Value()), op).Err? ==>
      r == Fail(ApplyOp(old(t.Value()), op).error) && t.store.value == old(t.store.value)
    ensures ApplyOp(old(t.Value()), op).Ok? ==>
      r == Pass && t.store.value == UpdateValueAt(old(t.store.value), t.at, ApplyOp(old(t.Value()), op).value)
  {
    ghost var n := t.Value();
    ParentFrame(t.store.value, t.at, n, prefix);
    TraverseAt(n, prefix, true);
    var parent := TraversePath(t, prefix, true);
    if parent.Err? {
      assert ApplyOp(n, op) == Err(parent.error);
      return Fail(parent.error);
    }
    // With the hook, the walk always ends on a tree: the one at the prefix, or a new one.
    assert parent.value.Some?;
    if ValueAt(n, prefix).Some? {
      SetAtExisting(n, op, prefix, key, ValueAt(n, prefix).value);
    } else {
      assert Traverse(n, prefix, true) == Ok(Some(Detached));
      assert ApplyOp(n, op) == Ok(n);
    }
    r := parent.value.value.Set(key, op.value);
  }

  /**
   * `applyOperations(tree, ops)`: the operations are replayed on a clone,
   * which is returned; the first error is thrown and no tree is returned.
   * `tree` itself is left as it was.
   */
  method ApplyOperations(t: Tree, ops: seq<Operation>) returns (r: Result<Tree>)
    requires t.Resolves() && WellFormed(t.Value())
    ensures ApplyAll(DeepClone(t.Value()), ops).1.Fail? ==> r == Err(ApplyAll(DeepClone(t.Value()), ops).1.error)
    ensures ApplyAll(DeepClone(t.Value()), ops).1.Pass? ==>
      r.Ok? && fresh(r.value.store) && r.value.at == [] && r.value.path == t.path
      && r.value.Resolves() && r.value.Value() == ApplyAll(DeepClone(t.Value()), ops).0
  {
    var result := t.Clone();
    ghost var v0 := result.Value();
    var i := 0;
    while i < |ops|
      invariant 0 <= i <= |ops|
      invariant fresh(result.store) && result.at == [] && result.path == t.path
      invariant ApplyAll(v0, ops) == ApplyAll(result.Value(), ops[i..])
    {
      ghost var before := result.Value();
      var step := ApplyOperation(result, ops[i]);
      assert ops[i..][0] == ops[i] && ops[i..][1..] == ops[i + 1..];
      if step.Fail? {
        assert ApplyOp(before, ops[i]).Err?;
        return Err(step.error);
      }
      assert result.Value() == ApplyOp(before, ops[i]).value;
      i := i + 1;
    }
    r := Ok(result);
  }
}
