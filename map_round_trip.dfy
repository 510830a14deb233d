/**
 * What replaying a diff does in the node-object realization
 * (src/map/tree-diff.ts): replaying `calculateOperations(a, b)` on a tree
 * that holds `a` puts in its place the node `Patched(a, b)`, which matches
 * `b` — the same keys at every level and, at the leaves, values the diff
 * treats as equal — so diffing the result against `b` again yields nothing.
 */
module MapRoundTrip {
  import opened Base
  import opened Keys
  import opened Seqs
  import opened Entries
  import opened Values
  import opened MapTree
  import opened Operations
  import opened MapTreeDiff

  // ---------------------------------------------------------------------
  // The patched node

  /** The node a set operation carrying `b` puts at `path`. */
  function Rebuild(b: Node, path: Path): (r: Node)
    requires Valid(b)
    ensures Valid(r) && r.path == path
    ensures r.Leaf? <==> b.Leaf?
  {
    Payload(GetSetNode(b, path))
  }

  /**
   * The node replaying the changes from `a` to `b` leaves in place of `a`:
   * for two trees, the children of `a` whose key `b` also has, in `a`'s
   * order and each patched, then the children only `b` has, rebuilt, in
   * `b`'s order; for two equal leaves, `a` itself; otherwise `b` rebuilt at
   * `a`'s path.
   */
  function Patched(native: Val -> string, a: Node, b: Node): Node
    requires Valid(a) && Valid(b)
    decreases a, 1
  {
    if a.Tree? && b.Tree? then
      Tree(a.path, Patches(native, a, b, Common(a.entries, b.entries)) + Appended(Added(a.entries, b.entries), a.path))
    else if a.Leaf? && b.Leaf? && SameLeaf(native, a.value, b.value) then a
    else Rebuild(b, a.path)
  }

  /** Each of the children `s` of `a` patched towards `b`'s child under the same key. */
  function Patches(native: Val -> string, a: Node, b: Node, s: seq<(Key, Node)>): (r: seq<(Key, Node)>)
    requires Valid(a) && Valid(b) && a.Tree? && b.Tree?
    requires forall e :: e in s ==> e in a.entries && e.0 in KeysOf(b.entries)
    ensures |r| == |s| && forall j :: 0 <= j < |r| ==> r[j].0 == s[j].0
    decreases a, 0
  {
    seq(|s|, j requires 0 <= j < |s| =>
      assert s[j] in s;
      ValidIn(a, s[j]);
      ValidChild(b, s[j].0);
      (s[j].0, Patched(native, s[j].1, GetChild(b, s[j].0).value)))
  }

  /** A child of a valid tree is valid and sits at the tree's path plus its key. */
  lemma ValidIn(n: Node, e: (Key, Node))
    requires Valid(n) && n.Tree? && e in n.entries
    ensures Valid(e.1) && e.1.path == n.path + [e.0]
  {
  }

  /** The children the second phase appends: each added entry rebuilt under its key. */
  function Appended(added: seq<(Key, Node)>, path: Path): (r: seq<(Key, Node)>)
    requires forall e :: e in added ==> Valid(e.1)
    ensures |r| == |added|
    ensures forall j :: 0 <= j < |r| ==> r[j].0 == added[j].0 && Valid(r[j].1) && r[j].1.path == path + [added[j].0]
  {
    if added == [] then []
    else
      assert added[0] in added && forall e :: e in added[1..] ==> e in added;
      var head := (added[0].0, Rebuild(added[0].1, path + [added[0].0]));
      var rest := Appended(added[1..], path);
      assert forall j :: 0 < j < |added| ==> ([head] + rest)[j] == rest[j - 1] && added[1..][j - 1] == added[j];
      [head] + rest
  }

  /** The children of `a` the first phase has reached after `i` of them, each patched or removed. */
  function Walk(native: Val -> string, a: Node, b: Node, i: nat): (r: seq<(Key, Node)>)
    requires Valid(a) && Valid(b) && a.Tree? && b.Tree? && i <= |a.entries|
  {
    assert forall e :: e in a.entries[..i] ==> e in a.entries;
    Patches(native, a, b, Common(a.entries[..i], b.entries))
  }

  /** Halfway through the first phase: `i` children patched or removed, the rest as in `a`. */
  function Midway(native: Val -> string, a: Node, b: Node, i: nat): (r: Node)
    requires Valid(a) && Valid(b) && a.Tree? && b.Tree? && i <= |a.entries|
  {
    Tree(a.path, Walk(native, a, b, i) + a.entries[i..])
  }

  // ---------------------------------------------------------------------
  // The patched node is a valid tree

  /** Every child of `es` sits at `path` plus its key and is itself valid. */
  ghost predicate Fits(path: Path, es: seq<(Key, Node)>) {
    forall i :: 0 <= i < |es| ==> es[i].1.path == path + [es[i].0] && Valid(es[i].1)
  }

  lemma FitsAppend(path: Path, s: seq<(Key, Node)>, t: seq<(Key, Node)>)
    requires Fits(path, s) && Fits(path, t)
    ensures Fits(path, s + t)
  {
    forall i | 0 <= i < |s + t| ensures (s + t)[i].1.path == path + [(s + t)[i].0] && Valid((s + t)[i].1) {
      if i >= |s| {
        assert (s + t)[i] == t[i - |s|];
      }
    }
  }

  lemma FitsSuffix(n: Node, i: nat)
    requires Valid(n) && n.Tree? && i <= |n.entries|
    ensures Fits(n.path, n.entries[i..])
  {
    forall x | 0 <= x < |n.entries[i..]| ensures n.entries[i..][x].1.path == n.path + [n.entries[i..][x].0] && Valid(n.entries[i..][x].1) {
      assert n.entries[i..][x] == n.entries[i + x];
    }
  }

  /** Patching children keeps each valid and where it was. */
  lemma {:induction false} FitsPatches(native: Val -> string, a: Node, b: Node, s: seq<(Key, Node)>)
    requires Valid(a) && Valid(b) && a.Tree? && b.Tree?
    requires forall e :: e in s ==> e in a.entries && e.0 in KeysOf(b.entries)
    ensures Fits(a.path, Patches(native, a, b, s))
    decreases a, 0
  {
    var r := Patches(native, a, b, s);
    forall j | 0 <= j < |r| ensures r[j].1.path == a.path + [r[j].0] && Valid(r[j].1) {
      assert s[j] in s;
      ValidIn(a, s[j]);
      ValidChild(b, s[j].0);
      ValidPatched(native, s[j].1, GetChild(b, s[j].0).value);
    }
  }

  lemma {:induction false} ValidPatched(native: Val -> string, a: Node, b: Node)
    requires Valid(a) && Valid(b)
    ensures Valid(Patched(native, a, b)) && Patched(native, a, b).path == a.path
    decreases a, 1
  {
    if a.Tree? && b.Tree? {
      var common := Common(a.entries, b.entries);
      var kept := Patches(native, a, b, common);
      var add := Added(a.entries, b.entries);
      var app := Appended(add, a.path);
      CommonUnique(a.entries, b.entries);
      FitsPatches(native, a, b, common);
      AddedUnique(a.entries, b.entries);
      SameKeys(app, add, kept);
      assert Disjoint(kept, app) by {
        forall x, y | 0 <= x < |kept| && 0 <= y < |app| ensures kept[x].0 != app[y].0 {
          assert common[x] in common;
          KeysOfMember(a.entries, common[x].0);
        }
      }
      SameKeys(kept, common, app);
      UniqueAppend(kept, app);
      FitsAppend(a.path, kept, app);
    }
  }

  /** Halfway through the first phase the keys are still distinct. */
  lemma MidwayUnique(native: Val -> string, a: Node, b: Node, i: nat)
    requires Valid(a) && Valid(b) && a.Tree? && b.Tree? && i <= |a.entries|
    ensures UniqueKeys(Midway(native, a, b, i).entries)
  {
    var init := a.entries[..i];
    var common := Common(init, b.entries);
    var walked := Walk(native, a, b, i);
    UniqueSplit(a.entries, i);
    CommonUnique(init, b.entries);
    DisjointPart(init, common, a.entries[i..]);
    SameKeys(walked, common, a.entries[i..]);
    UniqueAppend(walked, a.entries[i..]);
  }

  /** Halfway through the first phase the node is still a valid tree at `a`'s path. */
  lemma ValidMidway(native: Val -> string, a: Node, b: Node, i: nat)
    requires Valid(a) && Valid(b) && a.Tree? && b.Tree? && i <= |a.entries|
    ensures Valid(Midway(native, a, b, i)) && Midway(native, a, b, i).path == a.path
  {
    var init := a.entries[..i];
    var common := Common(init, b.entries);
    var walked := Walk(native, a, b, i);
    MidwayUnique(native, a, b, i);
    assert forall e :: e in init ==> e in a.entries;
    FitsPatches(native, a, b, common);
    FitsSuffix(a, i);
    FitsAppend(a.path, walked, a.entries[i..]);
  }

  // ---------------------------------------------------------------------
  // Replaying single operations

  /** Replaying a list whose first operation succeeds is replaying the rest on its result. */
  lemma ApplyAllCons(t: Node, ops: seq<Operation>)
    requires ops != [] && ApplyOp(t, ops[0]).Ok?
    ensures ApplyAll(t, ops) == ApplyAll(ApplyOp(t, ops[0]).value, ops[1..])
  {
  }

  /** The node at a non-empty path is replaced by resetting its key in its parent. */
  lemma UpdateAtLast(r: Node, q: Path, m: Node)
    requires q != [] && At(r, q).Some?
    ensures At(r, q[..|q| - 1]).Some? && At(r, q[..|q| - 1]).value.Tree?
    ensures var parent := At(r, q[..|q| - 1]).value;
      q[|q| - 1] in KeysOf(parent.entries) &&
      UpdateAt(r, q, m) == UpdateAt(r, q[..|q| - 1], Tree(parent.path, Put(parent.entries, q[|q| - 1], m)))
  {
    var prefix := q[..|q| - 1];
    var key := q[|q| - 1];
    assert q == prefix + [key];
    AtAppend(r, prefix, [key]);
    var parent := At(r, prefix).value;
    AtCons(parent, key, []);
    assert [key] + [] == [key];
    UpdateAtAppend(r, prefix, [key], m);
    assert [key][0] == key && [key][1..] == [];
  }

  /** A set operation below an existing tree puts the rebuilt node under its key there. */
  lemma SetReplay(r: Node, q: Path, y: Node)
    requires Valid(r) && r.path == [] && q != [] && Valid(y)
    requires At(r, q[..|q| - 1]).Some? && At(r, q[..|q| - 1]).value.Tree?
    ensures var parent := At(r, q[..|q| - 1]).value;
      ApplyOp(r, GetSetNode(y, q)) ==
        Ok(UpdateAt(r, q[..|q| - 1], Tree(parent.path, Put(parent.entries, q[|q| - 1], Rebuild(y, q)))))
  {
    var prefix := q[..|q| - 1];
    ApplySetValid(r, GetSetNode(y, q));
    ValidAt(r, prefix);
    assert q == prefix + [q[|q| - 1]];
  }

  /** A set operation carrying `b` at an existing non-empty path puts `b`, rebuilt, there. */
  lemma ReplaceReplay(r: Node, p: Path, b: Node)
    requires Valid(r) && r.path == [] && p != [] && At(r, p).Some? && Valid(b)
    ensures ApplyOp(r, GetSetNode(b, p)) == Ok(UpdateAt(r, p, Rebuild(b, p)))
  {
    UpdateAtLast(r, p, Rebuild(b, p));
    SetReplay(r, p, b);
  }

  /** A set operation for a new key under a tree at `p` appends the rebuilt node. */
  lemma AddStep(r: Node, p: Path, base: seq<(Key, Node)>, k: Key, y: Node)
    requires Valid(r) && r.Tree? && r.path == [] && At(r, p) == Some(Tree(p, base)) && Valid(y)
    requires k !in KeysOf(base)
    ensures var n := Tree(p, base + [(k, Rebuild(y, p + [k]))]);
      && ApplyOp(r, GetSetNode(y, p + [k])) == Ok(UpdateAt(r, p, n))
      && Valid(UpdateAt(r, p, n)) && UpdateAt(r, p, n).Tree? && UpdateAt(r, p, n).path == []
      && At(UpdateAt(r, p, n), p) == Some(n)
  {
    var q := p + [k];
    var m := Rebuild(y, q);
    assert q[..|q| - 1] == p && q[|q| - 1] == k;
    SetReplay(r, q, y);
    var n := Tree(p, base + [(k, m)]);
    ValidAt(r, p);
    ValidAddChild(Tree(p, base), m);
    assert AddChild(Tree(p, base), m).value == n;
    ValidUpdateAt(r, p, n);
    AtUpdated(r, p, n);
  }

  /** The additions as a first operation and the rest. */
  lemma AdditionsCons(added: seq<(Key, Node)>, p: Path)
    requires added != [] && forall e :: e in added ==> Valid(e.1)
    ensures Additions(added, p) == [GetSetNode(added[0].1, p + [added[0].0])] + Additions(added[1..], p)
  {
    var ops := Additions(added, p);
    AdditionsTail(added, p);
    SplitFirst(ops);
  }

  /** Dropping the first addition leaves the additions for the rest. */
  lemma AdditionsTail(added: seq<(Key, Node)>, p: Path)
    requires added != [] && forall e :: e in added ==> Valid(e.1)
    ensures forall e :: e in added[1..] ==> Valid(e.1)
    ensures Additions(added, p)[1..] == Additions(added[1..], p)
  {
    assert forall e :: e in added[1..] ==> e in added;
    var ops := Additions(added, p)[1..];
    var rest := Additions(added[1..], p);
    forall j | 0 <= j < |rest| ensures ops[j] == rest[j] {
      assert added[1..][j] == added[j + 1];
    }
  }

  lemma AppendedCons(base: seq<(Key, Node)>, added: seq<(Key, Node)>, p: Path)
    requires added != [] && forall e :: e in added ==> Valid(e.1)
    ensures added[0] in added
    ensures base + [(added[0].0, Rebuild(added[0].1, p + [added[0].0]))] + Appended(added[1..], p) == base + Appended(added, p)
  {
    assert added[0] in added;
    var x := (added[0].0, Rebuild(added[0].1, p + [added[0].0]));
    var rest := Appended(added[1..], p);
    assert Appended(added, p) == [x] + rest;
    SnocAssoc(base, x, rest);
  }

  /**
   * The second phase: under a tree at `p` holding `base`, one set operation
   * per added entry appends it, rebuilt, after what is there.
   */
  lemma {:induction false} AdditionsReplay(r: Node, p: Path, base: seq<(Key, Node)>, added: seq<(Key, Node)>)
    requires Valid(r) && r.Tree? && r.path == [] && At(r, p) == Some(Tree(p, base))
    requires forall e :: e in added ==> Valid(e.1)
    requires UniqueKeys(added) && Disjoint(base, added)
    ensures ApplyAll(r, Additions(added, p)) == (UpdateAt(r, p, Tree(p, base + Appended(added, p))), Pass)
    decreases |added|
  {
    if added == [] {
      assert base + [] == base;
      UpdateAtSame(r, p);
    } else {
      var (k, y) := added[0];
      assert added[0] in added;
      var m := Rebuild(y, p + [k]);
      var base' := base + [(k, m)];
      assert k !in KeysOf(base) by {
        forall x | 0 <= x < |base| ensures KeysOf(base)[x] != k {
          assert base[x].0 != added[0].0;
        }
      }
      AddStep(r, p, base, k, y);
      var r' := UpdateAt(r, p, Tree(p, base'));
      AdditionsCons(added, p);
      ApplyAllCons(r, Additions(added, p));
      var rest := added[1..];
      assert forall e :: e in rest ==> e in added;
      DisjointShift(base, added, m);
      AdditionsReplay(r', p, base', rest);
      AppendedCons(base, added, p);
      UpdateAtTwice(r, p, Tree(p, base'), Tree(p, base + Appended(added, p)));
    }
  }

  // ---------------------------------------------------------------------
  // Replaying the diff

  /**
   * Replaying `calculateChanges(a, b, p)` on a tree rooted at `[]` that holds
   * `a` at `p` passes and puts `Patched(a, b)` at `p`. At the root itself
   * only two trees can be diffed, since a set at the empty path is refused.
   */
  lemma {:induction false} ChangesRoundTrip(native: Val -> string, r: Node, p: Path, a: Node, b: Node)
    requires Valid(r) && r.Tree? && r.path == [] && At(r, p) == Some(a) && Valid(a) && Valid(b)
    requires p == [] ==> a.Tree? && b.Tree?
    ensures ApplyAll(r, Changes(native, a, b, p)) == (UpdateAt(r, p, Patched(native, a, b)), Pass)
    decreases a, 2
  {
    ValidAt(r, p);
    assert a.path == p;
    if a.Tree? && b.Tree? {
      DiffReplay(native, r, p, a, b);
    } else if a.Leaf? && b.Leaf? && SameLeaf(native, a.value, b.value) {
      UpdateAtSame(r, p);
    } else {
      ReplaceReplay(r, p, b);
      var op := GetSetNode(b, p);
      assert Changes(native, a, b, p) == [op];
      ApplyAllCons(r, [op]);
    }
  }

  /** Replaying the diff of two trees: the first phase, then the second. */
  lemma {:induction false} DiffReplay(native: Val -> string, r: Node, p: Path, a: Node, b: Node)
    requires Valid(r) && r.Tree? && r.path == [] && At(r, p) == Some(a) && Valid(a) && Valid(b)
    requires a.Tree? && b.Tree? && a.path == p
    ensures ApplyAll(r, Diff(native, a, b, p)) == (UpdateAt(r, p, Patched(native, a, b)), Pass)
    decreases a, 1
  {
    var n := |a.entries|;
    var common := Common(a.entries, b.entries);
    var kept := Patches(native, a, b, common);
    var add := Added(a.entries, b.entries);
    WalkedReplay(native, r, p, a, b, n);
    assert a.entries[..n] == a.entries && a.entries[n..] == [] && kept + [] == kept;
    var mid := Tree(p, kept);
    assert Midway(native, a, b, n) == mid;
    ValidMidway(native, a, b, n);
    ValidUpdateAt(r, p, mid);
    AtUpdated(r, p, mid);
    var r1 := UpdateAt(r, p, mid);
    assert r1.Tree?;
    CommonUnique(a.entries, b.entries);
    AddedUnique(a.entries, b.entries);
    assert Disjoint(kept, add) by {
      forall x, y | 0 <= x < |kept| && 0 <= y < |add| ensures kept[x].0 != add[y].0 {
        assert common[x] in common;
        KeysOfMember(a.entries, common[x].0);
      }
    }
    assert forall e :: e in add ==> e in b.entries;
    AdditionsReplay(r1, p, kept, add);
    UpdateAtTwice(r, p, mid, Patched(native, a, b));
    ApplyAllAppend(r, Walked(native, a, b, p, n), Additions(add, p));
  }

  /** The first phase over the first `i` children leaves `Midway(i)` at `p`. */
  lemma {:induction false} WalkedReplay(native: Val -> string, r: Node, p: Path, a: Node, b: Node, i: nat)
    requires Valid(r) && r.Tree? && r.path == [] && At(r, p) == Some(a) && Valid(a) && Valid(b)
    requires a.Tree? && b.Tree? && a.path == p && i <= |a.entries|
    ensures ApplyAll(r, Walked(native, a, b, p, i)) == (UpdateAt(r, p, Midway(native, a, b, i)), Pass)
    decreases a, 0, i, 4
  {
    if i == 0 {
      assert a.entries[..0] == [] && a.entries[0..] == a.entries;
      assert Midway(native, a, b, 0) == a;
      UpdateAtSame(r, p);
    } else {
      WalkedStep(native, r, p, a, b, i);
    }
  }

  /** Replaying the first `i - 1` children reaches `Midway(i - 1)`; the operations for the next one finish `Midway(i)`. */
  lemma {:induction false} WalkedStep(native: Val -> string, r: Node, p: Path, a: Node, b: Node, i: nat)
    requires Valid(r) && r.Tree? && r.path == [] && At(r, p) == Some(a) && Valid(a) && Valid(b)
    requires a.Tree? && b.Tree? && a.path == p && 0 < i <= |a.entries|
    ensures ApplyAll(r, Walked(native, a, b, p, i)) == (UpdateAt(r, p, Midway(native, a, b, i)), Pass)
    decreases a, 0, i, 3
  {
    var j: nat := i - 1;
    assert j + 1 == i;
    StepFinish(native, r, p, a, b, j);
  }

  /** The first `j` children replay to `Midway(j)`, and the operations for the next child finish `Midway(j + 1)`. */
  lemma {:induction false} StepFinish(native: Val -> string, r: Node, p: Path, a: Node, b: Node, j: nat)
    requires Valid(r) && r.Tree? && r.path == [] && At(r, p) == Some(a) && Valid(a) && Valid(b)
    requires a.Tree? && b.Tree? && a.path == p && j < |a.entries|
    ensures ApplyAll(r, Walked(native, a, b, p, j + 1)) == (UpdateAt(r, p, Midway(native, a, b, j + 1)), Pass)
    decreases a, 0, j + 1, 2
  {
    WalkedReplay(native, r, p, a, b, j);
    var mid := Midway(native, a, b, j);
    MidwayState(native, r, p, a, b, j);
    var r1 := UpdateAt(r, p, mid);
    var tail := KeyChanges(native, a, b, p, j);
    StepReplay(native, a, b, j + 1, r1);
    UpdateAtTwice(r, p, mid, Midway(native, a, b, j + 1));
    assert Walked(native, a, b, p, j + 1) == Walked(native, a, b, p, j) + tail;
    ReplayThen(r, Walked(native, a, b, p, j), tail, r1, UpdateAt(r, p, Midway(native, a, b, j + 1)));
  }

  /** Replaying two runs of operations that both pass, one after the other. */
  lemma ReplayThen(t: Node, o1: seq<Operation>, o2: seq<Operation>, t1: Node, t2: Node)
    requires ApplyAll(t, o1) == (t1, Pass) && ApplyAll(t1, o2) == (t2, Pass)
    ensures ApplyAll(t, o1 + o2) == (t2, Pass)
  {
    ApplyAllAppend(t, o1, o2);
  }

  /** The tree with `Midway(i)` in place of `a` is still a valid tree rooted at `[]`. */
  lemma MidwayState(native: Val -> string, r: Node, p: Path, a: Node, b: Node, i: nat)
    requires Valid(r) && r.Tree? && r.path == [] && At(r, p) == Some(a) && Valid(a) && Valid(b)
    requires a.Tree? && b.Tree? && a.path == p && i <= |a.entries|
    ensures var r1 := UpdateAt(r, p, Midway(native, a, b, i));
      Valid(r1) && r1.Tree? && r1.path == [] && At(r1, p) == Some(Midway(native, a, b, i))
  {
    var mid := Midway(native, a, b, i);
    ValidMidway(native, a, b, i);
    ValidUpdateAt(r, p, mid);
    AtUpdated(r, p, mid);
  }

  /** One more step of the first phase, in terms of the children: the next child kept and patched, or dropped. */
  lemma WalkStep(native: Val -> string, a: Node, b: Node, i: nat)
    requires Valid(a) && Valid(b) && a.Tree? && b.Tree? && 0 < i <= |a.entries|
    ensures a.entries[i - 1] in a.entries
    ensures GetChild(b, a.entries[i - 1].0).None? ==> Walk(native, a, b, i) == Walk(native, a, b, i - 1)
    ensures GetChild(b, a.entries[i - 1].0).Some? ==>
      Valid(GetChild(b, a.entries[i - 1].0).value) &&
      Walk(native, a, b, i) == Walk(native, a, b, i - 1) +
        [(a.entries[i - 1].0, Patched(native, a.entries[i - 1].1, GetChild(b, a.entries[i - 1].0).value))]
  {
    var e := a.entries[i - 1];
    assert e in a.entries;
    var init := a.entries[..i - 1];
    assert a.entries[..i] == init + [e] && a.entries[..i][..i - 1] == init;
    assert forall f :: f in init ==> f in a.entries;
    var c := Common(init, b.entries);
    if GetChild(b, e.0).Some? {
      ValidChild(b, e.0);
      assert Common(a.entries[..i], b.entries) == c + [e];
      PatchesSnoc(native, a, b, c, e);
    } else {
      assert Common(a.entries[..i], b.entries) == c + [];
      assert c + [] == c;
    }
  }

  /** Patching one more child appends it, patched. */
  lemma PatchesSnoc(native: Val -> string, a: Node, b: Node, s: seq<(Key, Node)>, e: (Key, Node))
    requires Valid(a) && Valid(b) && a.Tree? && b.Tree?
    requires forall f :: f in s ==> f in a.entries && f.0 in KeysOf(b.entries)
    requires e in a.entries && e.0 in KeysOf(b.entries)
    ensures Valid(e.1) && Valid(GetChild(b, e.0).value) &&
      Patches(native, a, b, s + [e]) == Patches(native, a, b, s) + [(e.0, Patched(native, e.1, GetChild(b, e.0).value))]
  {
    ValidIn(a, e);
    ValidChild(b, e.0);
    var l := Patches(native, a, b, s + [e]);
    var r := Patches(native, a, b, s) + [(e.0, Patched(native, e.1, GetChild(b, e.0).value))];
    forall j | 0 <= j < |l| ensures l[j] == r[j] {
      if j < |s| {
        assert (s + [e])[j] == s[j];
      }
    }
  }

  /** `Midway(i - 1)` is the walked children, the next child, and the rest. */
  lemma MidwayNext(native: Val -> string, a: Node, b: Node, i: nat)
    requires Valid(a) && Valid(b) && a.Tree? && b.Tree? && 0 < i <= |a.entries|
    ensures Midway(native, a, b, i - 1).entries == Walk(native, a, b, i - 1) + [a.entries[i - 1]] + a.entries[i..]
    ensures UniqueKeys(Midway(native, a, b, i - 1).entries)
  {
    MidwayUnique(native, a, b, i - 1);
    assert a.entries[i - 1..] == [a.entries[i - 1]] + a.entries[i..];
  }

  /** Replaying the operations for the next key of `a` takes `Midway(i - 1)` to `Midway(i)`. */
  lemma {:induction false} StepReplay(native: Val -> string, a: Node, b: Node, i: nat, r1: Node)
    requires Valid(a) && Valid(b) && a.Tree? && b.Tree? && 0 < i <= |a.entries|
    requires Valid(r1) && r1.Tree? && r1.path == [] && At(r1, a.path) == Some(Midway(native, a, b, i - 1))
    ensures ApplyAll(r1, KeyChanges(native, a, b, a.path, i - 1)) == (UpdateAt(r1, a.path, Midway(native, a, b, i)), Pass)
    decreases a, 0, i, 1
  {
    var k := a.entries[i - 1].0;
    if GetChild(b, k).Some? {
      ValidChild(b, k);
      KeepStep(native, a, b, i, r1);
    } else {
      DropStep(native, a, b, i, r1);
    }
  }

  /** A child `b` also has: replaying its changes patches it where it stands. */
  lemma {:induction false} KeepStep(native: Val -> string, a: Node, b: Node, i: nat, r1: Node)
    requires Valid(a) && Valid(b) && a.Tree? && b.Tree? && 0 < i <= |a.entries|
    requires GetChild(b, a.entries[i - 1].0).Some? && Valid(GetChild(b, a.entries[i - 1].0).value)
    requires Valid(r1) && r1.Tree? && r1.path == [] && At(r1, a.path) == Some(Midway(native, a, b, i - 1))
    ensures ApplyAll(r1, Changes(native, a.entries[i - 1].1, GetChild(b, a.entries[i - 1].0).value, a.path + [a.entries[i - 1].0]))
      == (UpdateAt(r1, a.path, Midway(native, a, b, i)), Pass)
    decreases a, 0, i, 0
  {
    var (k, x) := a.entries[i - 1];
    assert a.entries[i - 1] in a.entries;
    var y := GetChild(b, k).value;
    var p := a.path;
    var mid := Midway(native, a, b, i - 1);
    var pt := Patched(native, x, y);
    MidwayNext(native, a, b, i);
    PutMiddle(Walk(native, a, b, i - 1), k, x, a.entries[i..], pt);
    WalkStep(native, a, b, i);
    AtAppend(r1, p, [k]);
    AtCons(mid, k, []);
    assert [k] + [] == [k];
    ChangesRoundTrip(native, r1, p + [k], x, y);
    UpdateAtAppend(r1, p, [k], pt);
    assert [k][0] == k && [k][1..] == [];
    assert UpdateAt(mid, [k], pt) == Tree(p, Put(mid.entries, k, pt));
  }

  /** A child `b` lacks: its removal cuts it out where it stands. */
  lemma {:induction false} DropStep(native: Val -> string, a: Node, b: Node, i: nat, r1: Node)
    requires Valid(a) && Valid(b) && a.Tree? && b.Tree? && 0 < i <= |a.entries|
    requires GetChild(b, a.entries[i - 1].0).None?
    requires Valid(r1) && r1.Tree? && r1.path == [] && At(r1, a.path) == Some(Midway(native, a, b, i - 1))
    ensures ApplyAll(r1, [Remove(a.path + [a.entries[i - 1].0])]) == (UpdateAt(r1, a.path, Midway(native, a, b, i)), Pass)
  {
    var k := a.entries[i - 1].0;
    var op := Remove(a.path + [k]);
    RemoveChildOp(r1, a.path, k);
    MidwayDrop(native, a, b, i);
    ApplyAllCons(r1, [op]);
  }

  /** A `remove` of `p + [k]` removes the key `k` under `p`. */
  lemma RemoveChildOp(t: Node, p: Path, k: Key)
    ensures ApplyOp(t, Remove(p + [k])) == Ok(RemoveUnder(t, p, k))
  {
    var q := p + [k];
    ApplyRemove(t, Remove(q));
    SnocParts(p, k);
  }

  /** Dropping the next child of `a` deletes its key from `Midway(i - 1)`. */
  lemma MidwayDrop(native: Val -> string, a: Node, b: Node, i: nat)
    requires Valid(a) && Valid(b) && a.Tree? && b.Tree? && 0 < i <= |a.entries|
    requires GetChild(b, a.entries[i - 1].0).None?
    ensures Midway(native, a, b, i) == RemoveKey(Midway(native, a, b, i - 1), a.entries[i - 1].0)
  {
    MidwayNext(native, a, b, i);
    PutMiddle(Walk(native, a, b, i - 1), a.entries[i - 1].0, a.entries[i - 1].1, a.entries[i..], a.entries[i - 1].1);
    WalkStep(native, a, b, i);
  }

  // ---------------------------------------------------------------------
  // Nothing is left to do

  /**
   * `x` already agrees with `b` as far as the diff can tell: two trees where
   * every key of `b` is a key of `x` and each child of `x` agrees with `b`'s
   * child under the same key, or two leaves the diff treats as equal.
   */
  ghost predicate Matches(native: Val -> string, x: Node, b: Node)
    decreases x
  {
    if x.Tree? && b.Tree? then
      && (forall j :: 0 <= j < |b.entries| ==> b.entries[j].0 in KeysOf(x.entries))
      && forall j :: 0 <= j < |x.entries| ==>
           GetChild(b, x.entries[j].0).Some? && Matches(native, x.entries[j].1, GetChild(b, x.entries[j].0).value)
    else x.Leaf? && b.Leaf? && SameLeaf(native, x.value, b.value)
  }

  /** The diff of `x` against `b` is empty exactly when `x` matches `b`. */
  lemma ChangesEmptyIff(native: Val -> string, x: Node, b: Node, p: Path)
    requires Valid(x) && Valid(b)
    ensures Changes(native, x, b, p) == [] <==> Matches(native, x, b)
  {
    if Matches(native, x, b) {
      MatchesChangesEmpty(native, x, b, p);
    }
    if Changes(native, x, b, p) == [] {
      ChangesEmptyMatches(native, x, b, p);
    }
  }

  /** A node that matches `b`, diffed against `b`, gives no operations. */
  lemma {:induction false} MatchesChangesEmpty(native: Val -> string, x: Node, b: Node, p: Path)
    requires Valid(x) && Valid(b) && Matches(native, x, b)
    ensures Changes(native, x, b, p) == []
    decreases x, 1
  {
    if x.Tree? && b.Tree? {
      forall j | 0 <= j < |x.entries| ensures KeyChanges(native, x, b, p, j) == [] {
        MatchesKeyEmpty(native, x, b, p, j);
      }
      WalkedAllEmpty(native, x, b, p, |x.entries|);
      AddedCovered(x.entries, b.entries);
      var none: seq<Operation> := [];
      assert none + none == none;
    }
  }

  /** The `j`-th child of a tree that matches `b` gives no operations. */
  lemma {:induction false} MatchesKeyEmpty(native: Val -> string, x: Node, b: Node, p: Path, j: nat)
    requires Valid(x) && Valid(b) && x.Tree? && b.Tree? && Matches(native, x, b) && j < |x.entries|
    ensures KeyChanges(native, x, b, p, j) == []
    decreases x, 0
  {
    var e := x.entries[j];
    assert e in x.entries;
    ValidChild(b, e.0);
    MatchesChangesEmpty(native, e.1, GetChild(b, e.0).value, p + [e.0]);
  }

  /** When no child of `a` gives an operation, the first phase gives none. */
  lemma WalkedAllEmpty(native: Val -> string, a: Node, b: Node, p: Path, i: nat)
    requires Valid(a) && Valid(b) && a.Tree? && b.Tree? && i <= |a.entries|
    requires forall j :: 0 <= j < i ==> KeyChanges(native, a, b, p, j) == []
    ensures Walked(native, a, b, p, i) == []
  {
    var k := 0;
    while k < i
      invariant k <= i && Walked(native, a, b, p, k) == []
    {
      ghost var m := k;
      k := k + 1;
      WalkedEmptyNext(native, a, b, p, m, k);
    }
  }

  /** An empty first phase over `i` children, and no operations for the next, is an empty phase over `n = i + 1`. */
  lemma WalkedEmptyNext(native: Val -> string, a: Node, b: Node, p: Path, i: nat, n: nat)
    requires Valid(a) && Valid(b) && a.Tree? && b.Tree? && n == i + 1 <= |a.entries|
    requires Walked(native, a, b, p, i) == [] && KeyChanges(native, a, b, p, i) == []
    ensures Walked(native, a, b, p, n) == []
  {
    var none: seq<Operation> := [];
    EmptyAppend(none);
  }

  /** An empty first phase gives no operation for any child it went through. */
  lemma WalkedEmptyParts(native: Val -> string, a: Node, b: Node, p: Path, i: nat)
    requires Valid(a) && Valid(b) && a.Tree? && b.Tree? && i <= |a.entries|
    requires Walked(native, a, b, p, i) == []
    ensures forall j :: 0 <= j < i ==> KeyChanges(native, a, b, p, j) == []
  {
    forall j | 0 <= j < i ensures KeyChanges(native, a, b, p, j) == [] {
      WalkedEmptyAt(native, a, b, p, i, j);
    }
  }

  /** An empty first phase over `i` children gives nothing for the `j`-th. */
  lemma WalkedEmptyAt(native: Val -> string, a: Node, b: Node, p: Path, i: nat, j: nat)
    requires Valid(a) && Valid(b) && a.Tree? && b.Tree? && j < i <= |a.entries|
    requires Walked(native, a, b, p, i) == []
    ensures KeyChanges(native, a, b, p, j) == []
  {
    var k: nat := i;
    while k > j + 1
      invariant j < k <= i && Walked(native, a, b, p, k) == []
    {
      ghost var n := k;
      k := k - 1;
      WalkedEmptyPrev(native, a, b, p, k, n);
    }
    WalkedEmptyLast(native, a, b, p, j, k);
  }

  /** An empty first phase over `n = i + 1` children is empty over `i`. */
  lemma WalkedEmptyPrev(native: Val -> string, a: Node, b: Node, p: Path, i: nat, n: nat)
    requires Valid(a) && Valid(b) && a.Tree? && b.Tree? && n == i + 1 <= |a.entries|
    requires Walked(native, a, b, p, n) == []
    ensures Walked(native, a, b, p, i) == []
  {
  }

  /** An empty first phase over `n = i + 1` children gives nothing for the last of them. */
  lemma WalkedEmptyLast(native: Val -> string, a: Node, b: Node, p: Path, i: nat, n: nat)
    requires Valid(a) && Valid(b) && a.Tree? && b.Tree? && n == i + 1 <= |a.entries|
    requires Walked(native, a, b, p, n) == []
    ensures KeyChanges(native, a, b, p, i) == []
  {
  }

  /** A node whose diff against `b` is empty matches `b`. */
  lemma {:induction false} ChangesEmptyMatches(native: Val -> string, x: Node, b: Node, p: Path)
    requires Valid(x) && Valid(b) && Changes(native, x, b, p) == []
    ensures Matches(native, x, b)
    decreases x, 1
  {
    if x.Tree? && b.Tree? {
      var add := Added(x.entries, b.entries);
      assert |Additions(add, p)| == 0;
      WalkedEmptyParts(native, x, b, p, |x.entries|);
      assert add == [];
      forall j | 0 <= j < |b.entries| ensures b.entries[j].0 in KeysOf(x.entries) {
        assert b.entries[j] in b.entries && b.entries[j] !in add;
      }
      forall j | 0 <= j < |x.entries|
        ensures GetChild(b, x.entries[j].0).Some? && Matches(native, x.entries[j].1, GetChild(b, x.entries[j].0).value)
      {
        KeyEmptyMatches(native, x, b, p, j);
      }
    }
  }

  /** A child whose operations are empty is one `b` has, and it matches `b`'s child. */
  lemma {:induction false} KeyEmptyMatches(native: Val -> string, x: Node, b: Node, p: Path, j: nat)
    requires Valid(x) && Valid(b) && x.Tree? && b.Tree? && j < |x.entries|
    requires KeyChanges(native, x, b, p, j) == []
    ensures GetChild(b, x.entries[j].0).Some? && Matches(native, x.entries[j].1, GetChild(b, x.entries[j].0).value)
    decreases x, 0
  {
    var e := x.entries[j];
    assert e in x.entries;
    if GetChild(b, e.0).Some? {
      ValidChild(b, e.0);
      ChangesEmptyMatches(native, e.1, GetChild(b, e.0).value, p + [e.0]);
    }
  }

  /** Every node matches itself. */
  lemma {:induction false} MatchesSelf(native: Val -> string, v: Node)
    requires Valid(v)
    ensures Matches(native, v, v)
    decreases v
  {
    if v.Tree? {
      forall j | 0 <= j < |v.entries|
        ensures v.entries[j].0 in KeysOf(v.entries)
        ensures GetChild(v, v.entries[j].0) == Some(v.entries[j].1) && Matches(native, v.entries[j].1, v.entries[j].1)
      {
        assert KeysOf(v.entries)[j] == v.entries[j].0;
        LookupAt(v.entries, j);
        MatchesSelf(native, v.entries[j].1);
      }
    }
  }

  /** A tree rebuilt from `y`'s serialized children, at any path, matches `y`. */
  lemma {:induction false} MatchesRebuilt(native: Val -> string, y: Node, q: Path)
    requires Valid(y) && y.Tree?
    ensures Matches(native, EntriesTree(SerializedChildren(y), q), y)
    decreases y, 1
  {
    var t := EntriesTree(SerializedChildren(y), q);
    RebuiltShape(y, q);
    forall j | 0 <= j < |y.entries| ensures y.entries[j].0 in KeysOf(t.entries) {
      var i := RebuiltKey(y, q, j);
      assert KeysOf(t.entries)[i] == t.entries[i].0;
    }
    forall i | 0 <= i < |t.entries|
      ensures GetChild(y, t.entries[i].0).Some? && Matches(native, t.entries[i].1, GetChild(y, t.entries[i].0).value)
    {
      RebuiltChildMatches(native, y, q, i);
    }
  }

  /** The `i`-th rebuilt child matches `y`'s child under the same key. */
  lemma {:induction false} RebuiltChildMatches(native: Val -> string, y: Node, q: Path, i: nat)
    requires Valid(y) && y.Tree? && i < |y.entries|
    ensures var t := EntriesTree(SerializedChildren(y), q);
      i < |t.entries| && GetChild(y, t.entries[i].0).Some? && Matches(native, t.entries[i].1, GetChild(y, t.entries[i].0).value)
    decreases y, 0
  {
    var j := RebuiltFrom(y, q, i);
    assert y.entries[j] in y.entries;
    LookupAt(y.entries, j);
    MatchesEntryNode(native, y.entries[j].1, q);
  }

  /** Rebuilding `y`'s serialized children builds one child per entry, in the sorted order, under the entry's key. */
  lemma RebuiltShape(y: Node, q: Path)
    requires Valid(y) && y.Tree?
    ensures var es := SerializedChildren(y);
      && DistinctKeys(es, EntryKey)
      && |BuildEntries(es, q)| == |es| == |y.entries|
      && forall i :: 0 <= i < |es| ==> BuildEntries(es, q)[i] == (es[i].key, EntryNode(es[i], q))
  {
    var es := SerializedChildren(y);
    SerializedChildrenCanonical(y);
    assert DistinctKeys(es, EntryKey) by {
      forall i, j | 0 <= i < j < |es| ensures EntryKey(es[i]) != EntryKey(es[j]) {
        KeyLessIrreflexive(EntryKey(es[i]));
      }
    }
    BuildEntriesDistinct(es, q);
  }

  /** The `i`-th rebuilt child is the `j`-th child of `y`, serialized and rebuilt, under its key. */
  lemma RebuiltFrom(y: Node, q: Path, i: nat) returns (j: nat)
    requires Valid(y) && y.Tree? && i < |y.entries|
    ensures j < |y.entries| && i < |EntriesTree(SerializedChildren(y), q).entries|
    ensures EntriesTree(SerializedChildren(y), q).entries[i] == (y.entries[j].0, EntryNode(Serialize(y.entries[j].1), q))
  {
    var es := SerializedChildren(y);
    RebuiltShape(y, q);
    var raw := seq(|y.entries|, k requires 0 <= k < |y.entries| => assert y.entries[k] in y.entries; Serialize(y.entries[k].1));
    assert es == SortBy(raw, EntryKey);
    j := PermutedIndex(es, raw, i);
    assert y.entries[j] in y.entries;
  }

  /** The key of `y`'s `j`-th child is the key of some rebuilt child. */
  lemma RebuiltKey(y: Node, q: Path, j: nat) returns (i: nat)
    requires Valid(y) && y.Tree? && j < |y.entries|
    ensures i < |EntriesTree(SerializedChildren(y), q).entries|
    ensures EntriesTree(SerializedChildren(y), q).entries[i].0 == y.entries[j].0
  {
    var es := SerializedChildren(y);
    RebuiltShape(y, q);
    var raw := seq(|y.entries|, k requires 0 <= k < |y.entries| => assert y.entries[k] in y.entries; Serialize(y.entries[k].1));
    assert es == SortBy(raw, EntryKey);
    assert y.entries[j] in y.entries;
    i := PermutedIndex(raw, es, j);
  }

  /** A child rebuilt from its own serialized entry matches it. */
  lemma {:induction false} MatchesEntryNode(native: Val -> string, c: Node, q: Path)
    requires Valid(c) && |c.path| > 0
    ensures Matches(native, EntryNode(Serialize(c), q), c)
    decreases c, 2
  {
    if c.Tree? {
      var k := c.path[|c.path| - 1];
      assert EntryNode(Serialize(c), q) == EntriesTree(SerializedChildren(c), q + [k]);
      MatchesRebuilt(native, c, q + [k]);
    }
  }

  /** What a set operation carrying `b` puts in place matches `b`. */
  lemma MatchesRebuild(native: Val -> string, b: Node, q: Path)
    requires Valid(b)
    ensures Matches(native, Rebuild(b, q), b)
  {
    if b.Tree? {
      MatchesRebuilt(native, b, q);
    }
  }

  /** What replaying the diff leaves matches its target. */
  lemma {:induction false} MatchesPatched(native: Val -> string, a: Node, b: Node)
    requires Valid(a) && Valid(b)
    ensures Matches(native, Patched(native, a, b), b)
    decreases a, 2
  {
    if a.Tree? && b.Tree? {
      var common := Common(a.entries, b.entries);
      var kept := Patches(native, a, b, common);
      var add := Added(a.entries, b.entries);
      var app := Appended(add, a.path);
      var c := Patched(native, a, b);
      assert c.entries == kept + app;
      CommonAddedCover(a.entries, b.entries, kept);
      KeysOfAppend(kept, add);
      KeysOfAppend(kept, app);
      assert KeysOf(app) == KeysOf(add);
      forall j | 0 <= j < |c.entries|
        ensures GetChild(b, c.entries[j].0).Some? && Matches(native, c.entries[j].1, GetChild(b, c.entries[j].0).value)
      {
        MatchesPatchedChild(native, a, b, j);
      }
    } else if !(a.Leaf? && b.Leaf? && SameLeaf(native, a.value, b.value)) {
      MatchesRebuild(native, b, a.path);
    }
  }

  /** The `j`-th child of `Patched(a, b)` matches `b`'s child under the same key. */
  lemma {:induction false} MatchesPatchedChild(native: Val -> string, a: Node, b: Node, j: nat)
    requires Valid(a) && Valid(b) && a.Tree? && b.Tree? && j < |Patched(native, a, b).entries|
    ensures var c := Patched(native, a, b);
      GetChild(b, c.entries[j].0).Some? && Matches(native, c.entries[j].1, GetChild(b, c.entries[j].0).value)
    decreases a, 1
  {
    var common := Common(a.entries, b.entries);
    var kept := Patches(native, a, b, common);
    var app := Appended(Added(a.entries, b.entries), a.path);
    var c := Patched(native, a, b).entries;
    assert c == kept + app;
    if j < |kept| {
      AppendIndex(kept, app, j);
      KeptMatches(native, a, b, j);
      assert c[j] == kept[j];
    } else {
      ghost var m := j - |kept|;
      AppendIndexRight(kept, app, j, m);
      AppendedMatches(native, a, b, m);
      assert c[j] == app[m];
    }
  }

  /** The `j`-th common child of `a`, patched, matches `b`'s child under its key. */
  lemma {:induction false} KeptMatches(native: Val -> string, a: Node, b: Node, j: nat)
    requires Valid(a) && Valid(b) && a.Tree? && b.Tree? && j < |Common(a.entries, b.entries)|
    ensures var kept := Patches(native, a, b, Common(a.entries, b.entries));
      GetChild(b, kept[j].0).Some? && Matches(native, kept[j].1, GetChild(b, kept[j].0).value)
    decreases a, 0
  {
    var e := Common(a.entries, b.entries)[j];
    assert e in Common(a.entries, b.entries);
    ValidIn(a, e);
    ValidChild(b, e.0);
    MatchesPatched(native, e.1, GetChild(b, e.0).value);
  }

  /** The `j`-th child only `b` has, rebuilt, matches `b`'s child under its key. */
  lemma AppendedMatches(native: Val -> string, a: Node, b: Node, j: nat)
    requires Valid(a) && Valid(b) && a.Tree? && b.Tree? && j < |Added(a.entries, b.entries)|
    ensures var app := Appended(Added(a.entries, b.entries), a.path);
      GetChild(b, app[j].0).Some? && Matches(native, app[j].1, GetChild(b, app[j].0).value)
  {
    var add := Added(a.entries, b.entries);
    var e := add[j];
    assert e in add;
    AppendedAt(add, a.path, j);
    LookupMember(b.entries, e);
    MatchesRebuild(native, e.1, a.path + [e.0]);
  }

  /** The `j`-th appended child is the `j`-th added entry rebuilt under its key. */
  lemma {:induction false} AppendedAt(added: seq<(Key, Node)>, path: Path, j: nat)
    requires (forall e :: e in added ==> Valid(e.1)) && j < |added|
    ensures Valid(added[j].1) && Appended(added, path)[j] == (added[j].0, Rebuild(added[j].1, path + [added[j].0]))
  {
    assert added[0] in added;
    if j > 0 {
      ghost var m := j - 1;
      var tail := added[1..];
      assert forall e :: e in tail ==> e in added;
      AppendedAt(tail, path, m);
      var x := (added[0].0, Rebuild(added[0].1, path + [added[0].0]));
      assert Appended(added, path) == [x] + Appended(tail, path);
      AppendIndexRight([x], Appended(tail, path), j, m);
      assert tail[m] == added[j];
    }
  }

  /** A valid node diffed against itself gives no operations. */
  lemma SelfChangesEmpty(native: Val -> string, v: Node, p: Path)
    requires Valid(v)
    ensures Changes(native, v, v, p) == []
  {
    MatchesSelf(native, v);
    MatchesChangesEmpty(native, v, v, p);
  }

  /** Diffing `Patched(a, b)` against `b` gives no operations. */
  lemma LeftoverChangesEmpty(native: Val -> string, a: Node, b: Node, p: Path)
    requires Valid(a) && Valid(b)
    ensures Valid(Patched(native, a, b)) && Changes(native, Patched(native, a, b), b, p) == []
  {
    ValidPatched(native, a, b);
    MatchesPatched(native, a, b);
    MatchesChangesEmpty(native, Patched(native, a, b), b, p);
  }

  // ---------------------------------------------------------------------
  // The whole diff

  /**
   * For two trees rooted at `[]`, replaying the diff on `a` passes and
   * yields `Patched(a, b)`, and diffing that result against `b` gives no
   * operations.
   */
  lemma DiffThenApply(native: Val -> string, a: Node, b: Node)
    requires Valid(a) && Valid(b) && a.Tree? && b.Tree? && a.path == []
    ensures ApplyAll(a, Diff(native, a, b, [])) == (Patched(native, a, b), Pass)
    ensures Valid(Patched(native, a, b)) && Diff(native, Patched(native, a, b), b, []) == []
  {
    ChangesRoundTrip(native, a, [], a, b);
    LeftoverChangesEmpty(native, a, b, []);
  }

  /**
   * The tests' comparison of the replayed tree with `b` by their serialized
   * root entries: when the leaf encoder tells distinct values apart, the
   * entries are equal, whatever order the replay inserted the keys in.
   */
  lemma DiffThenApplyEntry(native: Val -> string, a: Node, b: Node)
    requires Valid(a) && Valid(b) && a.Tree? && b.Tree? && a.path == [] && b.path == []
    requires forall v, w :: native(v) == native(w) ==> v == w
    ensures var (t, outcome) := ApplyAll(a, Diff(native, a, b, []));
      outcome == Pass && Valid(t) && ToSerializedEntry(t) == ToSerializedEntry(b)
  {
    DiffThenApply(native, a, b);
    ValidPatched(native, a, b);
    MatchesPatched(native, a, b);
    MatchesSerialized(native, Patched(native, a, b), b);
  }

  /**
   * With an injective leaf encoder, a node that matches `b` at `b`'s path
   * serializes exactly as `b` does: key order is sorted away.
   */
  lemma {:induction false} MatchesSerialized(native: Val -> string, x: Node, b: Node)
    requires Valid(x) && Valid(b) && x.path == b.path
    requires forall v, w :: native(v) == native(w) ==> v == w
    requires Matches(native, x, b)
    ensures ToSerializedEntry(x) == ToSerializedEntry(b)
    ensures |x.path| > 0 ==> Serialize(x) == Serialize(b)
    decreases x
  {
    if x.Tree? {
      var xs := x.entries;
      forall i | 0 <= i < |xs|
        ensures GetChild(b, xs[i].0).Some? && Serialize(xs[i].1) == Serialize(GetChild(b, xs[i].0).value)
      {
        assert xs[i] in xs;
        ValidChild(b, xs[i].0);
        MatchesSerialized(native, xs[i].1, GetChild(b, xs[i].0).value);
      }
      SameSerializedChildren(x, b);
    }
  }

  /**
   * Two trees with the same keys whose children under each key serialize
   * alike have the same serialized children.
   */
  lemma SameSerializedChildren(x: Node, b: Node)
    requires Valid(x) && Valid(b) && x.Tree? && b.Tree?
    requires forall j :: 0 <= j < |b.entries| ==> b.entries[j].0 in KeysOf(x.entries)
    requires forall i :: 0 <= i < |x.entries| ==>
      GetChild(b, x.entries[i].0).Some? && Serialize(x.entries[i].1) == Serialize(GetChild(b, x.entries[i].0).value)
    ensures SerializedChildren(x) == SerializedChildren(b)
  {
    var sx := SerializedChildren(x);
    var sb := SerializedChildren(b);
    forall e | e in sx ensures e in sb {
      SerializedIn(x, b, e);
    }
    forall e | e in sb ensures e in sx {
      SerializedBack(x, b, e);
    }
    SerializedChildrenCanonical(x);
    SerializedChildrenCanonical(b);
    SortedSameElements(sx, sb, EntryKey);
  }

  /** A serialized child of `x` is one of `b`'s. */
  lemma SerializedIn(x: Node, b: Node, e: Entry)
    requires Valid(x) && Valid(b) && x.Tree? && b.Tree?
    requires forall i :: 0 <= i < |x.entries| ==>
      GetChild(b, x.entries[i].0).Some? && Serialize(x.entries[i].1) == Serialize(GetChild(b, x.entries[i].0).value)
    requires e in SerializedChildren(x)
    ensures e in SerializedChildren(b)
  {
    var sx := SerializedChildren(x);
    var m :| 0 <= m < |sx| && sx[m] == e;
    var i := SerializedFrom(x, m);
    var c := GetChild(b, x.entries[i].0).value;
    assert (x.entries[i].0, c) in b.entries;
    var j :| 0 <= j < |b.entries| && b.entries[j] == (x.entries[i].0, c);
    var n := SerializedAt(b, j);
  }

  /** A serialized child of `b` is one of `x`'s. */
  lemma SerializedBack(x: Node, b: Node, e: Entry)
    requires Valid(x) && Valid(b) && x.Tree? && b.Tree?
    requires forall j :: 0 <= j < |b.entries| ==> b.entries[j].0 in KeysOf(x.entries)
    requires forall i :: 0 <= i < |x.entries| ==>
      GetChild(b, x.entries[i].0).Some? && Serialize(x.entries[i].1) == Serialize(GetChild(b, x.entries[i].0).value)
    requires e in SerializedChildren(b)
    ensures e in SerializedChildren(x)
  {
    var sb := SerializedChildren(b);
    var m :| 0 <= m < |sb| && sb[m] == e;
    var j := SerializedFrom(b, m);
    var k := b.entries[j].0;
    assert k in KeysOf(x.entries);
    var i :| 0 <= i < |x.entries| && KeysOf(x.entries)[i] == k;
    LookupAt(b.entries, j);
    assert GetChild(b, k) == Some(b.entries[j].1);
    assert Serialize(x.entries[i].1) == Serialize(b.entries[j].1);
    var n := SerializedAt(x, i);
  }

  /** The `m`-th serialized child of `y` is the serialization of one of its children. */
  lemma SerializedFrom(y: Node, m: nat) returns (j: nat)
    requires Valid(y) && y.Tree? && m < |SerializedChildren(y)|
    ensures j < |y.entries| && SerializedChildren(y)[m] == Serialize(y.entries[j].1)
  {
    var raw := seq(|y.entries|, k requires 0 <= k < |y.entries| => assert y.entries[k] in y.entries; Serialize(y.entries[k].1));
    assert SerializedChildren(y) == SortBy(raw, EntryKey);
    j := PermutedIndex(SerializedChildren(y), raw, m);
  }

  /** The serialization of `y`'s `j`-th child is one of its serialized children. */
  lemma SerializedAt(y: Node, j: nat) returns (m: nat)
    requires Valid(y) && y.Tree? && j < |y.entries|
    ensures m < |SerializedChildren(y)| && SerializedChildren(y)[m] == Serialize(y.entries[j].1)
  {
    var raw := seq(|y.entries|, k requires 0 <= k < |y.entries| => assert y.entries[k] in y.entries; Serialize(y.entries[k].1));
    assert SerializedChildren(y) == SortBy(raw, EntryKey);
    m := PermutedIndex(raw, SerializedChildren(y), j);
  }


  /**
   * `withOperations` hands back the tree as it was before the replay, so
   * the diff from what it returns to the target is not empty: a tree with
   * one leaf, diffed against the empty tree, gives one removal; replaying it
   * yields the empty tree, while the tree before the replay still holds the
   * leaf.
   */
  lemma WithOperationsStale(native: Val -> string)
    ensures var a := Tree([], [("k", Leaf(["k"], Prim(Num(1))))]);
      var b := Tree([], []);
      && Valid(a) && Valid(b)
      && Diff(native, a, b, []) == [Remove(["k"])]
      && ApplyAll(a, Diff(native, a, b, [])) == (b, Pass)
      && Diff(native, a, b, []) != []
  {
    var a := Tree([], [("k", Leaf(["k"], Prim(Num(1))))]);
    var b := Tree([], []);
    StaleDiff(native, a, b);
    DiffThenApply(native, a, b);
    assert Common(a.entries, b.entries) == [];
  }

  /** The diff of a one-leaf tree against the empty tree is the removal of that leaf. */
  lemma StaleDiff(native: Val -> string, a: Node, b: Node)
    requires a == Tree([], [("k", Leaf(["k"], Prim(Num(1))))]) && b == Tree([], [])
    ensures Valid(a) && Valid(b) && Diff(native, a, b, []) == [Remove(["k"])]
  {
    assert Valid(a);
    assert GetChild(b, "k").None?;
    assert Walked(native, a, b, [], 1) == [Remove(["k"])];
    assert Added(a.entries, b.entries) == [];
  }
}
