# crdt-tree diff and patch, in Dafny

This project models the core of crdt-tree, a structural diff/patch engine
for JSON-like trees. Given two trees `a` and `b`, `calculateOperations`
produces a list of path-addressed operations. `applyOperations` replays
such a list on a tree. The engine comes in two realizations:

- **node objects** (`src/map/…`): a `Tree` holds its children in a
  `Map<Key, Node>`, and a `Leaf` holds a value. Operations are
  `set-leaf`, `set-tree` (carrying key-sorted serialized entries) and
  `remove`.
- **raw values** (`src/object/…`): a `Tree` is a view of a plain
  JavaScript value at a path. `getNode` wraps the child object itself, so
  edits made through a child show in its ancestors. Operations are `set`
  and `remove`. Leaves are compared through a key-sorted stringifier
  (`src/object/json.ts`).

Both share the operation type and its one-line rendering
(`src/operations.ts`).

How the model is laid out:

- `Values.Val` models JavaScript values. Objects and arrays keep their own
  properties in enumeration order, as `seq<(Key, Val)>` with Map semantics
  (`Entries.Put`, `Entries.Delete`, `Entries.Lookup`).
- A `Map<Key, Node>` is the same kind of sequence.
- The node-object heap is a `MapTree.Root` class; `MapTree.Ref` is a
  reference to the node object found at a path below a root.
- The raw-value heap is an `ObjectTree.Storage` class; `ObjectTree.Tree` is
  a view `(storage, location, path)`.
- Each method that changes a tree is proved against a function on the
  contents (`MapTreeDiff.ApplyOp`/`ApplyAll`, `ObjectTreeDiff.ApplyOp`/`ApplyAll`).
- What the tests in `src/tests/*.tree-diff.ts` check is proved about those
  functions, for all inputs rather than the test data:
  - replaying the diff of `a` and `b` on `a` passes and yields `Patched(a, b)`;
  - diffing that result against `b` again gives no operations;
  - for node objects, the result matches `b` key by key and leaf by leaf
    (`MapRoundTrip.MatchesPatched`);
  - for raw values, the tests compare key-sorted texts. The texts agree
    when the shapes the diff walks agree (`ObjectText.DiffThenApplyText`).
    They do not agree in general: `calculateChanges` never asks whether a
    value is an array, so an array diffed against a plain object with the
    same keys gives no operations (see Findings below).
- The result is described exactly by `Patched(a, b)`. In both
  realizations this is:
  - for two containers (of the same kind, when `kinds` is set), `a`'s
    common keys in `a`'s order, each patched, followed by `b`'s new keys in
    `b`'s order;
  - for two equal leaves, `a`;
  - otherwise `b`.

Foreign calls become parameters:

- The built-in `JSON.stringify` is `native: Val -> string` in the node-object
  leaf comparison.
- It is `enc: Scalar -> string` for scalars in `src/object/json.ts`.
- It is an `Encoder` record in `formatOperation`.

The raw-value diff takes a flag `kinds`. With `kinds` false it is the diff
as written. With `kinds` true, an array and a plain object are different
kinds, and the second replaces the first, as the tests expect.

The optional hook of `traversePath` is a boolean `materialise`. The only
hook the source passes is `createParent`.

## Model

| member | source | states |
|---|---|---|
| Paths.SplitPath | src/map/tree.ts:44-48 | the empty path is refused with EmptyPath; otherwise prefix + [last] is the path |
| Paths.IsParentOf | src/map/tree.ts:70-78 | the key-by-key loop answers true exactly when the node's path is the parent's path plus one key |
| Paths.ExpectParentOf | src/object/tree.ts:34-37 | passes exactly for an immediate child path, else a structural violation |
| Entries.Put | src/map/tree.ts:91-94 | `Map.set`: an existing key keeps its position (same key order), a new key is appended last |
| Entries.PutLookup | src/map/tree.ts:91-94 | after `set`, the key maps to the new value and every other key to what it did before |
| Entries.Delete | src/map/tree.ts:98-105 | `Map.delete`: the key is gone, and deleting a missing key changes nothing |
| Entries.DeleteLookup | src/map/tree.ts:98-105 | after `delete`, every other key maps to what it did before |
| Entries.Lookup | src/map/tree.ts:95-97 | `Map.get` finds a value exactly for present keys, and the pair it finds is stored |
| Entries.Added | src/map/tree-diff.ts:25-34 | the filtered `added` list is exactly the entries of `b` whose key `a` lacks |
| Entries.Common | src/map/tree-diff.ts:26-30 | the keys of `a` that `b` has are exactly the entries of `a` with a key of `b` |
| Entries.AddedUnique | src/map/tree-diff.ts:35-37 | the added entries have distinct keys, none of them a key of `a` |
| Keys.SortBy | src/map/tree.ts:109 | sorting by key is a permutation of its input |
| Keys.SortBySorted | src/map/tree.ts:109 | with distinct keys, the sorted sequence is strictly increasing by key |
| Keys.SortByPermutation | src/object/json.ts:16 | any two orders of the same distinct-keyed elements sort to the same sequence |
| Keys.SortedSameElements | src/map/tree.ts:109 | two sequences strictly sorted by key that hold the same elements are the same sequence |
| MapTree.GetChild | src/map/tree.ts:95-97 | `getNode` finds a child exactly for a key the tree holds |
| MapTree.AddChild | src/map/tree.ts:91-94 | `addNode` fails with a structural violation unless the node is an immediate child path, else stores it under its last key |
| MapTree.AddChildLookup | src/map/tree.ts:91-94 | after `addNode` the last key finds the node and every other key what it found before |
| MapTree.RemoveKeyLookup | src/map/tree.ts:98-105 | after `removeNode(key)` the key is missing and every other key finds what it found before |
| MapTree.ValidAddChild | src/map/tree.ts:91-94 | `addNode` keeps the tree invariant: distinct keys, each child at its parent's path plus its key |
| MapTree.ValidRemoveKey | src/map/tree.ts:98-105 | `removeNode` keeps the tree invariant |
| MapTree.Ref.GetNode | src/map/tree.ts:95-97 | a reference to the stored child under the same root, exactly when the key is present |
| MapTree.Ref.AddNode | src/map/tree.ts:91-94 | a structural violation that changes nothing, or the referenced tree becomes `AddChild` of it and nothing else in the heap changes |
| MapTree.Ref.RemoveNode | src/map/tree.ts:98-105 | the referenced tree loses the key and the rest of the heap stays as it was |
| MapTree.Ref.RemoveChildNode | src/map/tree.ts:98-105 | a structural violation unless the node is an immediate child, else removes its last key |
| MapTree.Ref.Clone | src/map/tree.ts:112-116 | a leaf is shared; a tree is copied into a fresh root with the same contents, child by child |
| MapTree.Serialize | src/map/tree.ts:106-111 | for a node below the root (every entry a tree's children serialize to): a leaf gives its last key and value, a tree its last key and its children's entries; the root's entry is `ToSerializedEntry` |
| MapTree.ToSerializedEntry | src/map/tree.ts:106-111 | any node, the root included: the key is the path's last key, and is missing (`undefined`) exactly at the root; a leaf gives a leaf entry, a tree a tree entry; below the root it is `Serialize` with the key present |
| MapTree.SerializedChildrenCanonical | src/map/tree.ts:106-111 | a valid tree serializes to entries strictly sorted by key at every level |
| MapTree.SerializeBuildEntries | src/map/tree.ts:16-20 | `treeFromEntries` and `toSerializedEntry` are inverse on canonical entries |
| MapTree.RootEntryRoundTrip | src/map/tree.ts:16-20 | `treeFromEntries` on the entries of a valid root tree's serialized entry rebuilds a valid root tree whose serialized entry is the same, missing key included |
| MapTree.ValidBuildEntries | src/map/tree.ts:16-20 | `treeFromEntries` always builds a valid tree |
| MapTree.NodeFromEntry | src/map/tree.ts:8-14 | a fresh node object holding the leaf or tree the entry describes |
| MapTree.TreeFromEntries | src/map/tree.ts:16-20 | a fresh tree built by one `addNode` per entry, in order |
| MapTree.TreeFromJsObject | src/map/tree.ts:22-33 | a fresh tree holding `JsTree` of the value: object-typed properties become subtrees, others leaves |
| MapTree.JsRoundTrip | src/map/tree.ts:35-42 | `nodeToJsValue(treeFromJsObject(v))` gives `v` back, with arrays and null turned into plain objects |
| MapTree.ValidJsTree | src/map/tree.ts:22-33 | `treeFromJsObject` builds a valid tree from any value with distinct property names |
| MapTree.ToJs | src/map/tree.ts:35-42 | a leaf gives its value; a tree gives a plain object with one property per child |
| MapTree.TraverseAt | src/map/tree.ts:50-62 | the walk finds exactly the node at the path when there is one; otherwise nothing, or, with the hook, a new empty tree outside the tree |
| MapTree.TraversePath | src/map/tree.ts:50-62 | the loop ends on the node object at the path, on nothing, or on a fresh hook-created tree, as `Traverse` says |
| MapTree.TraverseStep | src/map/tree.ts:53-59 | one turn of the loop: nothing on a leaf, the child node sharing the root if the key is there, else a fresh empty tree at the prefix with the hook, nothing without it |
| MapTree.Traverse | src/map/tree.ts:50-62 | a definition (the walk over the path); its contract states that the empty path ends on the tree itself and that without the hook the walk only ever ends on nodes inside the tree; `TraverseAt` carries the rest of its meaning |
| MapTreeDiff.GetSetNode | src/map/tree-diff.ts:5-8 | a leaf gives `set-leaf` with its value; a tree gives `set-tree` with canonical sorted entries, one per child |
| MapTreeDiff.Changes | src/map/tree-diff.ts:10-20 | a definition; its contract states that a pair other than two trees emits at most one operation and that a leaf against itself emits none; `ChangesNotTrees`, `ChangesPaths` and `MapRoundTrip.ChangesRoundTrip` carry its meaning |
| MapTreeDiff.Diff | src/map/tree-diff.ts:23-39 | a definition; its contract states that it emits at least one operation per key only `b` has; `AdditionsCover`, `MapRoundTrip.DiffReplay` and `MapRoundTrip.ChangesEmptyIff` carry its meaning |
| MapTreeDiff.ChangesNotTrees | src/map/tree-diff.ts:10-20 | two equal leaves emit nothing; any other pair that is not two trees emits exactly one set operation carrying `b` |
| MapTreeDiff.ChangesPaths | src/map/tree-diff.ts:23-39 | every emitted path extends the current path, strictly for two trees, so no emitted path is empty |
| MapTreeDiff.KeyPaths | src/map/tree-diff.ts:27-33 | every operation emitted for one key of `a`, changes or a `remove`, has a path strictly longer than the current path that starts with it |
| MapTreeDiff.AdditionsCover | src/map/tree-diff.ts:25-37 | the second phase emits an operation at the path plus `k` exactly for the keys `k` that `b` has and `a` lacks, and no two of them at the same path |
| MapTreeDiff.ApplyOp | src/map/tree-diff.ts:43-63 | a definition; its contract states that the empty path throws EmptyPath and that nothing but EmptyPath, the unknown-type error and a structural violation is ever thrown; `ApplyOpErrors`, `ApplyRemove`, `ApplySet` and `ApplySetValid` carry the rest |
| MapTreeDiff.ApplyAll | src/map/tree-diff.ts:65-67 | a definition (one `applyOperation` per operation, stopping at the first throw); its contract states that no operations leave the tree as it is; `ApplyAllValid` and `ApplyAllAppend` carry its meaning |
| MapTreeDiff.ApplyOpErrors | src/map/tree-diff.ts:43-63 | the empty path and the unknown `set` tag fail |
| MapTreeDiff.ApplyRemove | src/map/tree-diff.ts:46-50 | `remove` deletes the key under the tree at the prefix, and does nothing if no tree is there |
| MapTreeDiff.ApplySet | src/map/tree-diff.ts:51-60 | `set-leaf`/`set-tree` add the payload under the parent the walk with `createParent` finds; a created parent is lost |
| MapTreeDiff.ApplySetValid | src/map/tree-diff.ts:51-60 | below an existing tree of a valid tree, a set always succeeds and puts the payload under its key |
| MapTreeDiff.ApplyAllValid | src/map/tree-diff.ts:65-67 | replaying any operations keeps a valid root tree valid |
| MapTreeDiff.ApplyAllAppend | src/map/tree-diff.ts:65-67 | replaying two lists is replaying the first and then, if it passed, the second |
| MapTreeDiff.ApplyOperation | src/map/tree-diff.ts:43-63 | the referenced tree becomes `ApplyOp` of itself, or stays as it was when that throws |
| MapTreeDiff.ApplyOperations | src/map/tree-diff.ts:65-67 | the tree becomes `ApplyAll` of itself, operation by operation |
| MapTreeDiff.WithOperations | src/map/tree-diff.ts:69-73 | as written: when the replay throws, the error propagates and no tree is returned; otherwise a fresh clone of the tree before the replay is returned, and the replay has edited the tree itself |
| MapTreeDiff.WithOperationsOnClone | src/map/tree-diff.ts:69-73 | corrected: when the replay throws, the error propagates and no tree is returned; otherwise a fresh tree holding the replay's result is returned; the input is unchanged either way |
| MapRoundTrip.ValidPatched | src/map/tree-diff.ts:23-39 | what the replay leaves is a valid tree at `a`'s path |
| MapRoundTrip.AdditionsReplay | src/map/tree-diff.ts:35-37 | replaying the second phase appends each added entry, rebuilt, after what is there |
| MapRoundTrip.ChangesRoundTrip | src/map/tree-diff.ts:10-20 | replaying `calculateChanges(a, b, p)` on a tree holding `a` at `p` passes and puts `Patched(a, b)` there |
| MapRoundTrip.DiffReplay | src/map/tree-diff.ts:23-39 | replaying the diff of two trees runs the first phase, then the second, and leaves `Patched(a, b)` |
| MapRoundTrip.WalkedReplay | src/map/tree-diff.ts:26-34 | after the first `i` keys of `a`, the tree holds those keys patched or removed and the rest unchanged |
| MapRoundTrip.WalkedStep | src/map/tree-diff.ts:26-34 | the operations pushed by the first `i > 0` turns of the loop, replayed on a root holding `a` at `p`, pass and leave `Midway(i)` there: the keys of turns `1..i-1` handled, then the key of turn `i` patched in place (line 29) or deleted (line 32), the other keys untouched |
| MapRoundTrip.KeepStep | src/map/tree-diff.ts:27-30 | for a key `b` also has, replaying the changes of that child pair patches the child where it stands, in its position |
| MapRoundTrip.DropStep | src/map/tree-diff.ts:31-33 | for a key `b` lacks, the `remove` at the path plus that key deletes exactly that child and keeps the others in order |
| MapRoundTrip.WalkedAllEmpty | src/map/tree-diff.ts:26-34 | when no key of `a` among the first `i` gives an operation, the first phase over them gives none |
| MapRoundTrip.MatchesPatchedChild | src/map/tree-diff.ts:27-37 | every child of what the replay leaves, kept and patched or added and rebuilt, has a counterpart in `b` under its key and matches it |
| MapRoundTrip.StepReplay | src/map/tree-diff.ts:27-33 | one more key of `a`: patched in place if `b` has it, else removed |
| MapRoundTrip.ChangesEmptyIff | src/map/tree-diff.ts:10-39 | the diff of `x` against `b` is empty exactly when `x` matches `b` at every key and leaf |
| MapRoundTrip.MatchesSelf | src/map/tree-diff.ts:10-20 | every node matches itself |
| MapRoundTrip.MatchesRebuilt | src/map/tree-diff.ts:56-58 | a tree rebuilt from another tree's sorted serialized entries matches it |
| MapRoundTrip.MatchesPatched | src/tests/map.tree-diff.ts:85-97 | what the replay leaves matches its target |
| MapRoundTrip.SelfChangesEmpty | src/map/tree-diff.ts:23-39 | a valid node diffed against itself gives no operations |
| MapRoundTrip.LeftoverChangesEmpty | src/tests/map.tree-diff.ts:99-103 | diffing what the replay leaves against `b` gives no operations |
| MapRoundTrip.DiffThenApply | src/tests/map.tree-diff.ts:85-103 | for two root trees, replaying the diff on `a` passes and yields `Patched(a, b)`, and the leftover diff is empty |
| MapRoundTrip.MatchesSerialized | src/map/tree.ts:106-111 | a valid node that matches a valid `b` at the same path (leaf values encoding injectively) has the same serialized entry as `b`, and below the root the same `serialize()` |
| MapRoundTrip.DiffThenApplyEntry | src/tests/map.tree-diff.ts:90-97 | for two root trees, replaying the diff on `a` passes and leaves a valid tree whose serialized entry, undefined key included, equals `b`'s |
| MapRoundTrip.StepFinish | src/map/tree-diff.ts:26-34 | the operations of the first `j + 1` turns of the loop, replayed on a root holding `a` at `p`, pass and leave `Midway(j + 1)` |
| MapRoundTrip.WithOperationsStale | src/map/tree-diff.ts:69-73 | a concrete tree whose diff to `b` is a removal: the replay yields `b`, but the tree before it, which `withOperations` returns, still differs |
| Operations.Tag | src/operations.ts:33-41 | each operation kind has its own tag of at least three characters |
| Operations.FormatPath | src/operations.ts:32 | the empty path renders as nothing; otherwise the text is bracketed |
| Operations.FormatPathAppend | src/operations.ts:32 | rendering a path is rendering its parts one after the other |
| Operations.FormatOperation | src/operations.ts:33-41 | a removal renders as `tag(` + the formatted path + `)`; each set variant as `tag(` + the formatted path + `, ` + its encoded value or entries + `)` |
| Operations.FormatDistinguishesKinds | src/operations.ts:33-41 | operations of different kinds never render the same |
| Json.Stringify | src/object/json.ts:10-18 | fails with the runtime's TypeError exactly when the value holds a `null`; a scalar renders by the encoder |
| Json.Render | src/object/json.ts:10-18 | arrays render in brackets, objects in braces, scalars by the encoder |
| Json.StringifyIgnoresInsertionOrder | src/object/json.ts:15-17 | two plain objects with the same pairs in any insertion order stringify the same |
| ObjectTree.AssignProperty | src/object/tree.ts:54-57 | `set` fails exactly on leaves and `null`; afterwards the key holds the new value and every other key what it held |
| ObjectTree.DeletePropertyLookup | src/object/tree.ts:69-76 | `delete` throws exactly on `null`; afterwards the key is missing and every other key unchanged |
| ObjectTree.Property | src/object/tree.ts:63-68 | `key in value` succeeds exactly on objects and throws the runtime's TypeError otherwise (a primitive or `null`); on an object it finds a value exactly for a present key |
| ObjectTree.Assign | src/object/tree.ts:54-57 | throws only the "not an object" error or the runtime's TypeError; on success the value is an object of the same kind and the key finds the assigned value; `AssignProperty` carries the rest |
| ObjectTree.DeleteProperty | src/object/tree.ts:69-76 | throws only the runtime's TypeError; on an object it keeps the kind and the key is then missing; `DeletePropertyLookup` carries the rest |
| ObjectTree.AssignWellFormed | src/object/tree.ts:54-57 | `set` keeps property names distinct |
| ObjectTree.DeleteWellFormed | src/object/tree.ts:69-76 | `delete` keeps property names distinct |
| ObjectTree.TraverseAt | src/object/tree.ts:10-22 | the walk finds exactly the value at the path; otherwise it throws, or ends on nothing (without the hook) or on a new empty object (with it); without the hook in a `null`-free value it never throws |
| ObjectTree.TraversePath | src/object/tree.ts:10-22 | the loop throws, ends on nothing, on the tree at the path sharing the storage, or on a fresh `{}`, as `Traverse` says |
| ObjectTree.TraverseStep | src/object/tree.ts:13-19 | one turn of the loop: nothing on a leaf without the hook, a throw on a primitive, the child tree sharing the storage if the property is there, else a fresh `{}` at the prefix with the hook, nothing without it |
| ObjectTree.Traverse | src/object/tree.ts:10-22 | a definition (the walk over the path); its contract states that it throws only the runtime's TypeError and that the empty path ends on the value itself; `TraverseAt` carries the rest of its meaning |
| ObjectTree.DeepCloneNull | src/object/tree.ts:39-47 | as written: the clone holds no `null` and equals the original exactly when the original holds no `null` |
| ObjectTree.DeepCopy | src/object/tree.ts:39-47 | corrected: the copy equals its original |
| ObjectTree.DeepClone | src/object/tree.ts:39-47 | as written: a leaf is returned as it is, anything else (`null` included) becomes an object, and an object keeps its kind and its keys; `DeepCloneNull` carries the rest |
| ObjectTree.DeepCloneIsCopy | src/object/tree.ts:39-47 | the clone as written agrees with the corrected copy exactly on values holding no `null` |
| ObjectTree.CloneValue | src/object/tree.ts:39-47 | the loop over properties (or `map` over an array) computes `DeepClone` |
| ObjectTree.Tree.Set | src/object/tree.ts:54-57 | the error `Assign` gives, changing nothing, or the tree's value becomes `Assign` of it and nothing else changes |
| ObjectTree.Tree.AddNode | src/object/tree.ts:58-62 | a structural violation unless an immediate child path, else what `set` of its last key does |
| ObjectTree.Tree.GetNode | src/object/tree.ts:63-68 | throws on a primitive; else the child view sharing the storage exactly when the key is present |
| ObjectTree.Tree.RemoveNode | src/object/tree.ts:69-76 | throws on `null`, changing nothing; else the key is deleted in place |
| ObjectTree.Tree.RemoveChildNode | src/object/tree.ts:69-76 | a structural violation unless an immediate child, else deletes its last key |
| ObjectTree.Tree.Clone | src/object/tree.ts:77-79 | a fresh storage holding `DeepClone` of the value, at the same path |
| ObjectTreeDiff.ChangesErrors | src/object/tree-diff.ts:10-20 | the diff throws only the runtime's TypeError, never on `null`-free values, and always when a container is diffed against `null` |
| ObjectTreeDiff.ChangesPaths | src/object/tree-diff.ts:23-40 | every emitted path extends the current path, strictly for two containers of the same kind (of any kinds as written) |
| ObjectTreeDiff.KeyPaths | src/object/tree-diff.ts:27-34 | every operation emitted for one property of `a`, changes or a `remove`, has a path strictly longer than the current path that starts with it |
| ObjectTreeDiff.ChangesNotContainers | src/object/tree-diff.ts:10-20 | two equal leaves emit nothing; any other pair that is not two containers emits one `set` carrying `b` |
| ObjectTreeDiff.AdditionsCover | src/object/tree-diff.ts:25-38 | the second phase emits a `set` at the path plus `k` exactly for the keys `k` that `b` has and `a` lacks, and no two of them at the same path |
| ObjectTreeDiff.Changes | src/object/tree-diff.ts:10-20 | a definition; its contract states that it throws only when both values are containers (or `null`) and that a leaf against itself emits nothing; `ChangesErrors`, `ChangesNotContainers` and `ObjectRoundTrip.ChangesRoundTrip` carry its meaning |
| ObjectTreeDiff.Diff | src/object/tree-diff.ts:23-40 | a definition; its contract states that a `null` `b` (the only non-container it is given) throws the runtime's TypeError (`Object.entries`, line 25) and that a success emits at least one operation per key only `b` has; `AdditionsCover` and `ObjectRoundTrip.DiffReplay` carry its meaning |
| ObjectTreeDiff.ApplyOp | src/object/tree-diff.ts:44-59 | a definition; its contract states that the empty path throws EmptyPath and that nothing but EmptyPath, the unknown-type error, the "not an object" error and the runtime's TypeError is thrown; `ApplyOpAt` and `ApplyOpMissing` carry the rest |
| ObjectTreeDiff.ApplyAll | src/object/tree-diff.ts:61-65 | a definition (one `applyOperation` per operation, stopping at the first throw); its contract states that no operations leave the value as it is; `ApplyAllAppend` carries its meaning |
| ObjectTreeDiff.ApplyOpAt | src/object/tree-diff.ts:44-59 | below an existing value, `remove` deletes and `set` assigns there, failing as they fail; the empty path and foreign tags are refused |
| ObjectTreeDiff.RemoveAtExisting | src/object/tree-diff.ts:47-51 | when the walk without the hook reaches the value `p` at the prefix, `remove` is `delete` of the key on `p`, put back at the prefix, or its TypeError |
| ObjectTreeDiff.SetAtExisting | src/object/tree-diff.ts:52-56 | when the walk with `createParent` reaches the value `p` at the prefix, `set` is `set` of the key on `p`, put back at the prefix, or its error |
| ObjectTreeDiff.ApplyOpMissing | src/object/tree-diff.ts:44-59 | where the prefix is missing, the operation changes nothing or throws; a `remove` in a `null`-free value never throws |
| ObjectTreeDiff.ApplyAllAppend | src/object/tree-diff.ts:61-65 | replaying two lists is replaying the first and then, if it passed, the second |
| ObjectTreeDiff.ApplyOperation | src/object/tree-diff.ts:44-59 | the tree's value becomes `ApplyOp` of it, or stays as it was when that throws |
| ObjectTreeDiff.RemoveAt | src/object/tree-diff.ts:47-51 | the `remove` branch on a tree: its value becomes `ApplyOp` of it, or stays as it was when that throws |
| ObjectTreeDiff.SetAt | src/object/tree-diff.ts:52-56 | the `set` branch on a tree: its value becomes `ApplyOp` of it, or stays as it was when that throws; a write below a missing prefix goes to a new tree and is lost |
| ObjectTreeDiff.ApplyOperations | src/object/tree-diff.ts:61-65 | replays on a fresh clone and returns it, or throws the first error; the input is untouched |
| ObjectRoundTrip.AdditionsReplay | src/object/tree-diff.ts:35-37 | replaying the second phase appends each added property after what is there |
| ObjectRoundTrip.ChangesRoundTrip | src/object/tree-diff.ts:10-20 | for `null`-free values, the diff succeeds and replaying it where `a` sits passes and puts `Patched(a, b)` there |
| ObjectRoundTrip.DiffReplay | src/object/tree-diff.ts:23-40 | replaying the diff of two objects runs both phases and leaves `Patched(a, b)` |
| ObjectRoundTrip.WalkedReplay | src/object/tree-diff.ts:25-34 | after the first `i` keys of `a`, those keys are patched or removed and the rest unchanged |
| ObjectRoundTrip.WalkedStep | src/object/tree-diff.ts:26-34 | the operations pushed by the first `i > 0` turns of the loop, replayed on a value holding `a` at `p`, pass and leave `Midway(i)` there: the properties of turns `1..i-1` handled, then the property of turn `i` patched in place (line 30) or deleted (line 33), the others untouched |
| ObjectRoundTrip.KeepStep | src/object/tree-diff.ts:28-31 | for a property `b` also has, its changes succeed and replaying them patches the property where it stands |
| ObjectRoundTrip.DropStep | src/object/tree-diff.ts:32-34 | a property `b` lacks emits exactly one `remove` at the path plus its key, and replaying it deletes the property where it stands |
| ObjectRoundTrip.SelfChangesEmpty | src/object/tree-diff.ts:10-20 | a `null`-free value diffed against itself gives no operations |
| ObjectRoundTrip.LeftoverChangesEmpty | src/tests/object.tree-diff.ts:100-104 | diffing what the replay leaves against `b` gives no operations |
| ObjectRoundTrip.DiffThenApply | src/tests/object.tree-diff.ts:86-104 | for two `null`-free objects of the same kind (of any kinds as written), the diff succeeds, replaying it on a clone of `a` passes and yields `Patched(a, b)`, and the leftover diff is empty |
| ObjectText.PatchedText | src/object/tree-diff.ts:10-40 | on `null`-free values whose walked shapes agree, the patched value is `null`-free and renders to the same key-sorted text as `b` |
| ObjectText.DiffThenApplyText | src/tests/object.tree-diff.ts:86-98 | for two `null`-free objects whose walked shapes agree, the diff succeeds and the replay on a clone of `a` stringifies exactly as `b` does |
| ObjectText.ArrayAgainstObject | src/object/tree-diff.ts:10-11 | as written, `{x: {"0": 1}}` against `{x: [1]}` gives no operations and the replayed text differs from `b`'s; telling kinds apart, the diff is one `set` at `["x"]` and the texts agree |
| Json.RenderSameByKey | src/object/json.ts:15-17 | two plain objects with the same keys, whose values under each key render alike, render alike |
| Json.RenderSameByPosition | src/object/json.ts:12-13 | two arrays of the same length, whose elements render alike position by position, render alike |
| Entries.ExtendedKeys | src/object/tree-diff.ts:25-38 | when `b` repeats `a`'s keys at its first positions, all of `a` is common and the added entries are `b`'s remaining ones, in order |

## Left out

- Keys are strings. The source's `Key` also admits numbers, which become
  strings as property names and stay numbers as Map keys. Keys are ordered
  by character, whereas JavaScript compares UTF-16 code units; the two
  differ only outside the Basic Multilingual Plane.
- Numbers are integers. Floating point, `NaN` and `-0` are not modelled.
- The built-in `JSON.stringify` is a parameter (`native`, `enc`,
  `Encoder`). `JSON.parse` (`src/object/json.ts:2-4`) is left out, since it
  is only a call to the built-in.
- Objects enumerate in insertion order. JavaScript lists integer-like
  property names first, in numeric order; that ordering is not modelled.
- Property access and `in` see own properties only. Inherited properties
  are not modelled.
- Arrays are objects flagged as arrays, with index keys. Holes and `length`
  are not modelled, and an array is only distinguished in stringification,
  in cloning and, when `kinds` is set, in the diff.
- `for…in` and `Object.entries` on a string primitive (which enumerate its
  characters) are not modelled: a string leaf has no properties here.
- ObjectRoundTrip.ChangesRoundTrip: proved for values with distinct
  property names and without `null`. With `null`, the source's own diff or
  replay throws, as `ObjectTreeDiff.ChangesErrors` and
  `ObjectTree.DeepCloneNull` state. At the root only two objects are
  diffed, because a `set` at the empty path is refused.
- MapRoundTrip.ChangesRoundTrip: proved for valid trees held in a valid
  tree rooted at the empty path, as every tree built by `treeFromEntries`
  or `treeFromJsObject` is. For two leaves at the root, the source refuses
  the `set` at the empty path.
- MapRoundTrip.DiffThenApplyEntry: the serialized entries are compared as
  values, not as the text `JSON.stringify` makes of them, and leaf values
  are assumed to encode injectively under `native`. The root's undefined
  key is `None`.
- ObjectText.DiffThenApplyText: the texts are proved equal only when the
  shapes the diff walks agree (`ObjectText.Shaped`): under every property
  both values have, two objects are of the same kind, and an array of `b`
  starts with the indices of `a`'s array. An array that shrinks is left
  out. The source deletes its last indices, which in JavaScript keeps the
  array's length and leaves holes. Holes are not modelled.
- ObjectRoundTrip.DiffThenApply: at the root both values must be objects
  of the same kind when `kinds` is set, because a `set` at the empty path
  is refused.
- Aliasing of the `set` payload is not modelled. In the source, the object
  a `set` operation carries is stored by reference, so the operation list
  and the patched tree share it. Here values are immutable.
- The raw-value heap is one storage per tree. Two separately built trees
  that share a sub-object are not modelled.
- The `Node` base class constructor, the `Leaf` constructor and its
  `toSerializedEntry`/`clone` (`src/map/tree.ts:64-68`, `119-129`) are
  folded into the `Node` datatype and `MapTree.Ref.Clone`.
- `nodeFromEntry`'s error for an unknown entry tag cannot arise. Entries
  are a datatype with exactly two kinds.
- For the same reason, `formatOperation`'s `Unrecognized operation type`
  throw (`src/operations.ts:39`) cannot arise: `Operation` has exactly
  four kinds, and `Operations.FormatOperation` is total over them.
- `stringify`'s rest parameters (`replacer`, `space`) are not modelled.
  The source passes them down unchanged and never reads them
  (`src/object/json.ts:6-17`), so `Json.Stringify` takes only the value.

## Findings

| source | as written | input that shows it | evidently intended | confidence | as-written member | corrected member |
|---|---|---|---|---|---|---|
| src/map/tree-diff.ts:69-73 | `withOperations` clones the tree, replays the operations on the original, and returns the clone, i.e. the tree before the replay | tree `{k: 1}`, operations `calculateOperations({k: 1}, {})` = `[remove(["k"])]`: the returned tree still holds `k`, so the tests at src/tests/map.tree-diff.ts:85-103 would see a non-empty leftover and a changed input | replay on the clone and return it, leaving the input untouched | not executed | MapTreeDiff.WithOperations, MapRoundTrip.WithOperationsStale | MapTreeDiff.WithOperationsOnClone |
| src/object/tree-diff.ts:10-11 | `calculateChanges` diffs any two objects property by property and never asks whether one is an array | `{x: {"0": 1}}` against `{x: [1]}`: no operations, so the replayed value's text `{"x":{"0":1}}` differs from `{"x":[1]}`, which the tests at src/tests/object.tree-diff.ts:91-98 would reject | an array and a plain object are different kinds, and `b` replaces `a` (the diff with `kinds` set) | not executed | ObjectText.ArrayAgainstObject | ObjectText.DiffThenApplyText |
| src/object/tree.ts:39-47 | `deepClone` treats `null` as an object (`typeof null === 'object'`) and turns it into `{}` | value `{x: null}` is cloned to `{x: {}}`, so `applyOperations` works on a value that differs from its input | a clone equal to its original | not executed | ObjectTree.DeepCloneNull | ObjectTree.DeepCopy, ObjectTree.DeepCloneIsCopy |
