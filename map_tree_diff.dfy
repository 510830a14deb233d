/**
 * The diff and patch engine over node objects (src/map/tree-diff.ts).
 *
 * `calculateOperations` does not change its inputs and is modelled as a
 * function; `applyOperation`/`applyOperations` update node objects in place
 * and are methods, specified by the functions `ApplyOp`/`ApplyAll` on node
 * contents.
 */
module MapTreeDiff {
  import opened Base
  import opened Keys
  import opened Seqs
  import opened Entries
  import opened Paths
  import opened Values
  import opened MapTree
  import opened Operations

  // ---------------------------------------------------------------------
  // Diff

  /** `getSetNode`: a `set-leaf` with a leaf's value, or a `set-tree` with a tree's sorted child entries. */
  function GetSetNode(n: Node, path: Path): (op: Operation)
    requires Valid(n)
    ensures op.path == path
    ensures n.Leaf? ==> op == SetLeaf(path, n.value)
    ensures n.Tree? ==> op.SetTree? && Canonical(op.entries) && |op.entries| == |n.entries|
  {
    if n.Leaf? then SetLeaf(path, n.value)
    else
      SerializedChildrenCanonical(n);
      SetTree(path, SerializedChildren(n))
  }

  /** Leaf equality of the diff: `===`, or the same text under the built-in `JSON.stringify`. */
  predicate SameLeaf(native: Val -> string, a: Val, b: Val) {
    a == b || native(a) == native(b)
  }

  /**
   * `calculateChanges(a, b, path)`: two trees are diffed key by key; two
   * leaves that are equal emit nothing; any other pair is replaced by `b`.
   */
  function Changes(native: Val -> string, a: Node, b: Node, path: Path): (ops: seq<Operation>)
    requires Valid(a) && Valid(b)
    ensures !(a.Tree? && b.Tree?) ==> |ops| <= 1
    ensures a.Leaf? && a == b ==> ops == []
    decreases a, 2
  {
    if a.Tree? && b.Tree? then Diff(native, a, b, path)
    else if a.Leaf? && b.Leaf? && SameLeaf(native, a.value, b.value) then []
    else [GetSetNode(b, path)]
  }

  /**
   * `calculateOperations(a, b, path)`: first each key of `a` in insertion
   * order (its changes if `b` has it, else a `remove`), then a set operation
   * for each key only `b` has, in `b`'s order.
   */
  function Diff(native: Val -> string, a: Node, b: Node, path: Path): (ops: seq<Operation>)
    requires Valid(a) && Valid(b) && a.Tree? && b.Tree?
    ensures |ops| >= |Added(a.entries, b.entries)|
    decreases a, 1
  {
    Walked(native, a, b, path, |a.entries|) + Additions(Added(a.entries, b.entries), path)
  }

  /** The first phase, over the first `i` keys of `a`. */
  function Walked(native: Val -> string, a: Node, b: Node, path: Path, i: nat): (ops: seq<Operation>)
    requires Valid(a) && Valid(b) && a.Tree? && b.Tree? && i <= |a.entries|
    decreases a, 0, i
  {
    if i == 0 then [] else Walked(native, a, b, path, i - 1) + KeyChanges(native, a, b, path, i - 1)
  }

  /** The operations for the `j`-th key of `a`: its changes if `b` has it, else a `remove`. */
  function KeyChanges(native: Val -> string, a: Node, b: Node, path: Path, j: nat): (ops: seq<Operation>)
    requires Valid(a) && Valid(b) && a.Tree? && b.Tree? && j < |a.entries|
    decreases a, 0, j
  {
    var (k, x) := a.entries[j];
    assert a.entries[j] in a.entries;
    match GetChild(b, k)
    case Some(y) => ValidChild(b, k); Changes(native, x, y, path + [k])
    case None => [Remove(path + [k])]
  }

  /** The second phase: one set operation per added entry. */
  function Additions(added: seq<(Key, Node)>, path: Path): (ops: seq<Operation>)
    requires forall e :: e in added ==> Valid(e.1)
    ensures |ops| == |added|
    ensures forall i :: 0 <= i < |added| ==> ops[i] == GetSetNode(added[i].1, path + [added[i].0])
  {
    seq(|added|, i requires 0 <= i < |added| => assert added[i] in added; GetSetNode(added[i].1, path + [added[i].0]))
  }

  /**
   * The second phase covers exactly the keys of `b` that `a` lacks: one
   * operation for each, at the current path plus that key, and no two at the
   * same path.
   */
  lemma AdditionsCover(a: seq<(Key, Node)>, b: seq<(Key, Node)>, path: Path)
    requires UniqueKeys(b) && forall e :: e in b ==> Valid(e.1)
    ensures forall k :: k in KeysOf(b) && k !in KeysOf(a) <==>
      exists i :: 0 <= i < |Additions(Added(a, b), path)| && Additions(Added(a, b), path)[i].path == path + [k]
    ensures forall i, j :: 0 <= i < j < |Additions(Added(a, b), path)| ==>
      Additions(Added(a, b), path)[i].path != Additions(Added(a, b), path)[j].path
  {
    AddedUnique(a, b);
    AddedKeys(a, b);
    AdditionsPaths(Added(a, b), path);
  }

  /** Every path of the second phase lies strictly below the current path. */
  lemma AdditionsWithin(add: seq<(Key, Node)>, path: Path)
    requires forall e :: e in add ==> Valid(e.1)
    ensures forall op :: op in Additions(add, path) ==> |op.path| > |path| && Within(path, op.path)
  {
    forall op | op in Additions(add, path) ensures |op.path| > |path| && Within(path, op.path) {
      var i :| 0 <= i < |add| && Additions(add, path)[i] == op;
      assert op.path == path + [add[i].0];
      AppendOnePrefix(path, add[i].0);
    }
  }

  /** The paths of the second phase are the current path plus each added key, one per key. */
  lemma AdditionsPaths(added: seq<(Key, Node)>, path: Path)
    requires forall e :: e in added ==> Valid(e.1)
    ensures forall k :: k in KeysOf(added) <==>
      exists i :: 0 <= i < |Additions(added, path)| && Additions(added, path)[i].path == path + [k]
    ensures UniqueKeys(added) ==> forall i, j :: 0 <= i < j < |Additions(added, path)| ==>
      Additions(added, path)[i].path != Additions(added, path)[j].path
  {
    var ops := Additions(added, path);
    forall k ensures k in KeysOf(added) <==> exists i :: 0 <= i < |ops| && ops[i].path == path + [k] {
      KeysOfMember(added, k);
      if exists i :: 0 <= i < |ops| && ops[i].path == path + [k] {
        var i :| 0 <= i < |ops| && ops[i].path == path + [k];
        assert (path + [added[i].0])[|path|] == added[i].0;
      }
      if k in KeysOf(added) {
        var i :| 0 <= i < |added| && added[i].0 == k;
        assert ops[i].path == path + [k];
      }
    }
    forall i, j | 0 <= i < j < |ops| && ops[i].path == ops[j].path ensures added[i].0 == added[j].0 {
      assert (path + [added[i].0])[|path|] == added[i].0;
      assert (path + [added[j].0])[|path|] == added[j].0;
    }
  }

  /** Every path the diff emits extends the current path by at least one key, so it is never empty. */
  lemma {:induction false} ChangesPaths(native: Val -> string, a: Node, b: Node, path: Path)
    requires Valid(a) && Valid(b)
    ensures forall op :: op in Changes(native, a, b, path) ==> Within(path, op.path)
    ensures a.Tree? && b.Tree? ==> forall op :: op in Changes(native, a, b, path) ==> |op.path| > |path|
    decreases a, 2
  {
    if a.Tree? && b.Tree? {
      WalkedPaths(native, a, b, path, |a.entries|);
      var add := Added(a.entries, b.entries);
      AdditionsWithin(add, path);
    }
  }

  /** Every operation of the first phase over `i` keys lies strictly below the path. */
  lemma {:induction false} WalkedPaths(native: Val -> string, a: Node, b: Node, path: Path, i: nat)
    requires Valid(a) && Valid(b) && a.Tree? && b.Tree? && i <= |a.entries|
    ensures forall op :: op in Walked(native, a, b, path, i) ==> |op.path| > |path| && Within(path, op.path)
    decreases a, 0, i
  {
    if i > 0 {
      ghost var m := i - 1;
      WalkedPaths(native, a, b, path, m);
      KeyPaths(native, a, b, path, m);
      WalkedPathsStep(native, a, b, path, m, i);
    }
  }

  /** The paths of the first phase over `n = i + 1` keys: those over `i` keys and those for key `i`. */
  lemma WalkedPathsStep(native: Val -> string, a: Node, b: Node, path: Path, i: nat, n: nat)
    requires Valid(a) && Valid(b) && a.Tree? && b.Tree? && n == i + 1 <= |a.entries|
    requires forall op :: op in Walked(native, a, b, path, i) ==> |op.path| > |path| && Within(path, op.path)
    requires forall op :: op in KeyChanges(native, a, b, path, i) ==> |op.path| > |path| && Within(path, op.path)
    ensures forall op :: op in Walked(native, a, b, path, n) ==> |op.path| > |path| && Within(path, op.path)
  {
    var front, last := Walked(native, a, b, path, i), KeyChanges(native, a, b, path, i);
    assert Walked(native, a, b, path, n) == front + last;
    forall op: Operation | op in front + last ensures |op.path| > |path| && Within(path, op.path) {
      if op !in front {
        assert op in last;
      }
    }
  }

  /** Every operation for one key of `a` lies strictly below the path extended by that key. */
  lemma {:induction false} KeyPaths(native: Val -> string, a: Node, b: Node, path: Path, j: nat)
    requires Valid(a) && Valid(b) && a.Tree? && b.Tree? && j < |a.entries|
    ensures forall op :: op in KeyChanges(native, a, b, path, j) ==> |op.path| > |path| && Within(path, op.path)
    decreases a, 0, j
  {
    var (k, x) := a.entries[j];
    assert a.entries[j] in a.entries;
    AppendOnePrefix(path, k);
    if GetChild(b, k).Some? {
      ValidChild(b, k);
      ChangesPaths(native, x, GetChild(b, k).value, path + [k]);
      forall op | op in KeyChanges(native, a, b, path, j) ensures |op.path| > |path| && Within(path, op.path) {
        ExtendedPrefix(path, k, op.path);
      }
    }
  }

  /**
   * Two equal leaves emit nothing; any other pair that is not two trees
   * emits exactly one set operation at the path, carrying `b`.
   */
  lemma ChangesNotTrees(native: Val -> string, a: Node, b: Node, path: Path)
    requires Valid(a) && Valid(b) && !(a.Tree? && b.Tree?)
    ensures a.Leaf? && b.Leaf? && SameLeaf(native, a.value, b.value) ==> Changes(native, a, b, path) == []
    ensures !(a.Leaf? && b.Leaf? && SameLeaf(native, a.value, b.value)) ==>
      Changes(native, a, b, path) == [GetSetNode(b, path)]
      && (b.Leaf? ==> Changes(native, a, b, path) == [SetLeaf(path, b.value)])
      && (b.Tree? ==> Changes(native, a, b, path) == [SetTree(path, SerializedChildren(b))])
  {
  }

  // ---------------------------------------------------------------------
  // Patch, on node contents

  /** The node a set operation puts in place (`new Leaf` or `treeFromEntries`). */
  function Payload(op: Operation): (n: Node)
    requires op.SetLeaf? || op.SetTree?
    ensures Valid(n) && n.path == op.path
  {
    if op.SetLeaf? then Leaf(op.path, op.value)
    else
      ValidBuildEntries(op.entries, op.path);
      EntriesTree(op.entries, op.path)
  }

  /**
   * `applyOperation(tree, op)` on the contents of `tree`: the new contents,
   * or the error it throws. A removal walks without the hook; a set walks
   * with `createParent`, so a missing prefix yields a parent outside the
   * tree and the write is lost.
   */
  function ApplyOp(t: Node, op: Operation): (r: Result<Node>)
    ensures op.path == [] ==> r == Err(EmptyPath)
    ensures r.Err? ==> r.error in {EmptyPath, InvalidOperationType, StructuralViolation}
  {
    var (prefix, key) :- SplitPath(op.path);
    match op
    case Remove(_) =>
      TraverseAt(t, prefix, false);
      (match Traverse(t, prefix, false)
       case Some(Attached(p)) =>
         if p.Tree? then Ok(UpdateAt(t, prefix, RemoveKey(p, key))) else Ok(t)
       case _ => Ok(t))
    case SetLeaf(_, _) => Attach(t, prefix, Payload(op))
    case SetTree(_, _) => Attach(t, prefix, Payload(op))
    case Set(_, _) => Err(InvalidOperationType)
  }

  /** `addNode` on the parent `traversePath` (with the hook) finds, if it is a tree. */
  function Attach(t: Node, prefix: Path, child: Node): (r: Result<Node>)
  {
    TraverseAt(t, prefix, true);
    match Traverse(t, prefix, true)
    case None => Ok(t)
    case Some(place) =>
      if place.node.Leaf? then Ok(t)
      else
        var n :- AddChild(place.node, child);
        if place.Attached? then Ok(UpdateAt(t, prefix, n)) else Ok(t)
  }

  /** `applyOperations`: each operation in turn; the first error stops the replay, keeping earlier edits. */
  function ApplyAll(t: Node, ops: seq<Operation>): (r: (Node, Outcome))
    ensures ops == [] ==> r == (t, Pass)
    decreases |ops|
  {
    if ops == [] then (t, Pass)
    else match ApplyOp(t, ops[0])
      case Err(e) => (t, Fail(e))
      case Ok(t') => ApplyAll(t', ops[1..])
  }

  /** The empty path and the `set` tag, which this realization does not handle, fail and change nothing. */
  lemma ApplyOpErrors(t: Node, op: Operation)
    ensures op.path == [] ==> ApplyOp(t, op) == Err(EmptyPath)
    ensures op.path != [] && op.Set? ==> ApplyOp(t, op) == Err(InvalidOperationType)
  {
  }

  /** What a removal of `key` under `prefix` does: delete it there if a tree is there, else nothing. */
  function RemoveUnder(t: Node, prefix: Path, key: Key): Node
  {
    if At(t, prefix).Some? && At(t, prefix).value.Tree? then UpdateAt(t, prefix, RemoveKey(At(t, prefix).value, key))
    else t
  }

  /** What adding `child` under `prefix` does: `addNode` there if a tree is there, else nothing. */
  function AddUnder(t: Node, prefix: Path, child: Node): Result<Node>
  {
    if At(t, prefix).Some? && At(t, prefix).value.Tree? then
      match AddChild(At(t, prefix).value, child)
      case Ok(n) => Ok(UpdateAt(t, prefix, n))
      case Err(e) => Err(e)
    else Ok(t)
  }

  /** `remove` under an existing tree deletes the key there; anything else leaves the tree as it was. */
  lemma ApplyRemove(t: Node, op: Operation)
    requires op.Remove? && op.path != []
    ensures ApplyOp(t, op) == Ok(RemoveUnder(t, op.path[..|op.path| - 1], op.path[|op.path| - 1]))
  {
    TraverseAt(t, op.path[..|op.path| - 1], false);
  }

  /**
   * `set-leaf`/`set-tree` under an existing tree adds the new node there; a
   * prefix that is missing or ends on a leaf leaves the tree as it was (a
   * parent the hook creates is never attached).
   */
  lemma ApplySet(t: Node, op: Operation)
    requires (op.SetLeaf? || op.SetTree?) && op.path != []
    ensures ApplyOp(t, op) == AddUnder(t, op.path[..|op.path| - 1], Payload(op))
  {
    var prefix := op.path[..|op.path| - 1];
    AttachUnder(t, prefix, Payload(op));
  }

  /** Adding a child of `prefix` through `Attach` is adding it under what stands at `prefix`. */
  lemma AttachUnder(t: Node, prefix: Path, child: Node)
    requires ChildPath(prefix, child.path)
    ensures Attach(t, prefix, child) == AddUnder(t, prefix, child)
  {
    TraverseAt(t, prefix, true);
  }

  /** In a valid tree rooted at `[]`, a set below an existing tree always succeeds. */
  lemma ApplySetValid(t: Node, op: Operation)
    requires Valid(t) && t.path == []
    requires (op.SetLeaf? || op.SetTree?) && op.path != []
    ensures var prefix := op.path[..|op.path| - 1];
      At(t, prefix).Some? && At(t, prefix).value.Tree? ==>
        AddChild(At(t, prefix).value, Payload(op)).Ok? &&
        ApplyOp(t, op) == Ok(UpdateAt(t, prefix, AddChild(At(t, prefix).value, Payload(op)).value))
    ensures ApplyOp(t, op).Ok?
  {
    var prefix := op.path[..|op.path| - 1];
    ApplySet(t, op);
    if At(t, prefix).Some? {
      ValidAt(t, prefix);
      assert op.path == prefix + [op.path[|op.path| - 1]];
    }
  }

  /** Replaying operations keeps a tree rooted at `[]` valid and a tree. */
  lemma ApplyOpValid(t: Node, op: Operation)
    requires Valid(t) && t.Tree? && t.path == []
    ensures ApplyOp(t, op).Ok? ==> Valid(ApplyOp(t, op).value) && ApplyOp(t, op).value.Tree? && ApplyOp(t, op).value.path == []
  {
    if op.path != [] && !op.Set? {
      var prefix := op.path[..|op.path| - 1];
      if At(t, prefix).Some? && At(t, prefix).value.Tree? {
        var n := At(t, prefix).value;
        ValidAt(t, prefix);
        var m: Node;
        if op.Remove? {
          ApplyRemove(t, op);
          m := RemoveKey(n, op.path[|op.path| - 1]);
          ValidRemoveKey(n, op.path[|op.path| - 1]);
        } else {
          ApplySetValid(t, op);
          assert op.path == prefix + [op.path[|op.path| - 1]];
          m := AddChild(n, Payload(op)).value;
          ValidAddChild(n, Payload(op));
        }
        ValidUpdateAt(t, prefix, m);
        assert ApplyOp(t, op) == Ok(UpdateAt(t, prefix, m));
        if prefix != [] {
          UpdateAtChild(t, prefix, m);
        }
      } else if op.Remove? {
        ApplyRemove(t, op);
      } else {
        ApplySet(t, op);
      }
    }
  }

  lemma {:induction false} ApplyAllValid(t: Node, ops: seq<Operation>)
    requires Valid(t) && t.Tree? && t.path == []
    ensures Valid(ApplyAll(t, ops).0) && ApplyAll(t, ops).0.Tree? && ApplyAll(t, ops).0.path == []
    decreases |ops|
  {
    if ops != [] {
      ApplyOpValid(t, ops[0]);
      if ApplyOp(t, ops[0]).Ok? {
        ApplyAllValid(ApplyOp(t, ops[0]).value, ops[1..]);
      }
    }
  }

  /** Replaying two lists is replaying the first, then (if it passed) the second. */
  lemma {:induction false} ApplyAllAppend(t: Node, o1: seq<Operation>, o2: seq<Operation>)
    ensures ApplyAll(t, o1 + o2) ==
      if ApplyAll(t, o1).1.Pass? then ApplyAll(ApplyAll(t, o1).0, o2) else ApplyAll(t, o1)
    decreases |o1|
  {
    if o1 == [] {
      assert o1 + o2 == o2;
    } else {
      assert (o1 + o2)[0] == o1[0] && (o1 + o2)[1..] == o1[1..] + o2;
      if ApplyOp(t, o1[0]).Ok? {
        ApplyAllAppend(ApplyOp(t, o1[0]).value, o1[1..], o2);
      }
    }
  }

  // ---------------------------------------------------------------------
  // Patch, in place

  /**
   * `applyOperation(tree, op)` on the node object `t`: the contents of `t`
   * become `ApplyOp` of its old contents, or stay as they were when it fails.
   */
  method ApplyOperation(t: Ref, op: Operation) returns (r: Outcome)
    requires t.Resolves() && t.Get().Tree?
    modifies t.root
    ensures ApplyOp(old(t.Get()), op).Err? ==> r == Fail(ApplyOp(old(t.Get()), op).error) && t.root.node == old(t.root.node)
    ensures ApplyOp(old(t.Get()), op).Ok? ==> r == Pass && t.root.node == UpdateAt(old(t.root.node), t.at, ApplyOp(old(t.Get()), op).value)
  {
    var split := SplitPath(op.path);
    if split.Err? {
      return Fail(split.error);
    }
    var (prefix, key) := split.value;
    match op {
      case Remove(_) =>
        ApplyRemove(t.Get(), op);
        RemoveAtPath(t, prefix, key);
        r := Pass;
      case SetLeaf(_, _) =>
        ApplySet(t.Get(), op);
        r := AddAtPath(t, prefix, op);
      case SetTree(_, _) =>
        ApplySet(t.Get(), op);
        r := AddAtPath(t, prefix, op);
      case Set(_, _) =>
        r := Fail(InvalidOperationType);
    }
  }

  /** The `remove` branch: `removeNode(key)` on the tree the walk without the hook finds, if any. */
  method RemoveAtPath(t: Ref, prefix: Path, key: Key)
    requires t.Resolves()
    modifies t.root
    ensures t.root.node == UpdateAt(old(t.root.node), t.at, RemoveUnder(old(t.Get()), prefix, key))
  {
    ghost var n := t.Get();
    ParentFrame(t.root.node, t.at, n, prefix);
    var parent := TraversePath(t, prefix, false);
    TraverseAt(n, prefix, false);
    if parent.Some? && parent.value.Get().Tree? {
      parent.value.RemoveNode(key);
    }
  }

  /**
   * The `set-leaf`/`set-tree` branch: the walk with the hook, then, if it
   * ends on a tree, `addNode` of a new leaf or of `treeFromEntries`.
   */
  method AddAtPath(t: Ref, prefix: Path, op: Operation) returns (r: Outcome)
    requires t.Resolves()
    requires (op.SetLeaf? || op.SetTree?) && |op.path| > 0 && op.path[..|op.path| - 1] == prefix
    modifies t.root
    ensures AddUnder(old(t.Get()), prefix, Payload(op)).Err? ==>
      r == Fail(AddUnder(old(t.Get()), prefix, Payload(op)).error) && t.root.node == old(t.root.node)
    ensures AddUnder(old(t.Get()), prefix, Payload(op)).Ok? ==>
      r == Pass && t.root.node == UpdateAt(old(t.root.node), t.at, AddUnder(old(t.Get()), prefix, Payload(op)).value)
  {
    ghost var n := t.Get();
    ParentFrame(t.root.node, t.at, n, prefix);
    var parent := TraversePath(t, prefix, true);
    TraverseAt(n, prefix, true);
    if parent.Some? && parent.value.Get().Tree? {
      var child: Node;
      if op.SetLeaf? {
        child := Leaf(op.path, op.value);
      } else {
        var sub := TreeFromEntries(op.entries, op.path);
        child := sub.root.node;
      }
      if parent.value.root != t.root {
        assert ChildPath(prefix, op.path);
      }
      r := parent.value.AddNode(child);
    } else {
      r := Pass;
    }
  }

  /** How the node object at `at` and the node below it at `prefix` sit in the whole tree. */
  lemma ParentFrame(root: Node, at: Path, n: Node, prefix: Path)
    requires At(root, at) == Some(n)
    ensures UpdateAt(root, at, n) == root
    ensures At(n, prefix).Some? ==> At(root, at + prefix) == At(n, prefix)
    ensures At(n, prefix).Some? ==> forall m :: UpdateAt(root, at + prefix, m) == UpdateAt(root, at, UpdateAt(n, prefix, m))
  {
    UpdateAtSame(root, at);
    AtAppend(root, at, prefix);
    if At(n, prefix).Some? {
      forall m ensures UpdateAt(root, at + prefix, m) == UpdateAt(root, at, UpdateAt(n, prefix, m)) {
        UpdateAtAppend(root, at, prefix, m);
      }
    }
  }

  /**
   * `applyOperations(tree, ops)`: the contents of `t` become those `ApplyAll`
   * reaches, including the edits made before a failing operation.
   */
  method ApplyOperations(t: Ref, ops: seq<Operation>) returns (r: Outcome)
    requires t.Resolves() && Valid(t.Get()) && t.Get().Tree? && t.Get().path == []
    modifies t.root
    ensures r == ApplyAll(old(t.Get()), ops).1
    ensures t.root.node == UpdateAt(old(t.root.node), t.at, ApplyAll(old(t.Get()), ops).0)
  {
    ghost var n0 := t.Get();
    ghost var root0 := t.root.node;
    var i := 0;
    AtUpdated(root0, t.at, n0);
    UpdateAtSame(root0, t.at);
    while i < |ops|
      invariant 0 <= i <= |ops|
      invariant t.Resolves() && Valid(t.Get()) && t.Get().Tree? && t.Get().path == []
      invariant At(root0, t.at).Some?
      invariant t.root.node == UpdateAt(root0, t.at, t.Get())
      invariant ApplyAll(n0, ops) == ApplyAll(t.Get(), ops[i..])
    {
      ghost var cur := t.Get();
      ApplyOpValid(cur, ops[i]);
      var step := ApplyOperation(t, ops[i]);
      assert ops[i..][0] == ops[i] && ops[i..][1..] == ops[i + 1..];
      if step.Fail? {
        return step;
      }
      UpdateAtTwice(root0, t.at, cur, ApplyOp(cur, ops[i]).value);
      AtUpdated(root0, t.at, ApplyOp(cur, ops[i]).value);
      i := i + 1;
    }
    r := Pass;
  }

  /** Putting back what is already there changes nothing. */
  lemma {:induction false} UpdateAtSame(n: Node, p: Path)
    requires At(n, p).Some?
    ensures UpdateAt(n, p, At(n, p).value) == n
    decreases |p|
  {
    if p != [] {
      var c := GetChild(n, p[0]).value;
      UpdateAtSame(c, p[1..]);
      PutSame(n.entries, p[0]);
    }
  }

  /**
   * `withOperations(tree, ops)` as written: the result is a clone of `tree`
   * taken before the replay, and the replay edits `tree` itself. A failing
   * operation throws out of the call, so no tree is returned, and the edits
   * made before it stay in `tree`.
   */
  method WithOperations(t: Ref, ops: seq<Operation>) returns (result: Result<Ref>)
    requires t.Resolves() && Valid(t.Get()) && t.Get().Tree? && t.Get().path == []
    modifies t.root
    ensures ApplyAll(old(t.Get()), ops).1.Fail? ==> result == Err(ApplyAll(old(t.Get()), ops).1.error)
    ensures ApplyAll(old(t.Get()), ops).1.Pass? ==>
      result.Ok? && fresh(result.value.root) && result.value.Resolves() && result.value.Get() == old(t.Get())
    ensures t.root.node == UpdateAt(old(t.root.node), t.at, ApplyAll(old(t.Get()), ops).0)
  {
    var c := t.Clone();
    var r := ApplyOperations(t, ops);
    if r.Fail? {
      return Err(r.error);
    }
    result := Ok(c);
  }

  /**
   * `withOperations` as its callers expect it: the operations are replayed on
   * a clone, which is returned, and `tree` is left as it was; a failing
   * operation still throws and returns no tree.
   */
  method WithOperationsOnClone(t: Ref, ops: seq<Operation>) returns (result: Result<Ref>)
    requires t.Resolves() && Valid(t.Get()) && t.Get().Tree? && t.Get().path == []
    ensures ApplyAll(t.Get(), ops).1.Fail? ==> result == Err(ApplyAll(t.Get(), ops).1.error)
    ensures ApplyAll(t.Get(), ops).1.Pass? ==>
      result.Ok? && fresh(result.value.root) && result.value.Resolves() && result.value.Get() == ApplyAll(t.Get(), ops).0
    ensures unchanged(t.root)
  {
    var c := t.Clone();
    var r := ApplyOperations(c, ops);
    if r.Fail? {
      return Err(r.error);
    }
    AtUpdated(old(t.Get()), [], ApplyAll(t.Get(), ops).0);
    result := Ok(c);
  }
}
