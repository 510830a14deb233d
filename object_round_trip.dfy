/**
 * What replaying a diff does in the raw-value realization
 * (src/object/tree-diff.ts): for two values without `null`, replaying
 * `calculateOperations(a, b)` on a value that holds `a` succeeds and puts in
 * its place the value `Patched(a, b)`, which matches `b`.
 */
module ObjectRoundTrip {
  import opened Base
  import opened Keys
  import opened Seqs
  import opened Entries
  import opened Values
  import opened Json
  import opened Operations
  import opened ObjectTree
  import opened ObjectTreeDiff

  // ---------------------------------------------------------------------
  // The patched value

  /**
   * The value replaying the changes from `a` to `b` leaves in place of `a`:
   * for two objects, the properties of `a` that `b` also has, in `a`'s
   * order and each patched, then the properties only `b` has, in `b`'s
   * order, keeping whether `a` is an array; for two equal leaves, `a`
   * itself; otherwise `b`.
   */
  function Patched(enc: Scalar -> string, kinds: bool, a: Val, b: Val): Val
    decreases a, 1
  {
    if a.Obj? && b.Obj? && !KindClash(kinds, a, b) then
      Obj(a.isArray, Patches(enc, kinds, a, b, Common(a.fields, b.fields)) + Added(a.fields, b.fields))
    else if IsLeafValue(a) && IsLeafValue(b) && SameLeaf(enc, a, b) then a
    else b
  }

  /** Each of the properties `s` of `a` patched towards `b`'s property under the same key. */
  function Patches(enc: Scalar -> string, kinds: bool, a: Val, b: Val, s: seq<(Key, Val)>): (r: seq<(Key, Val)>)
    requires a.Obj? && b.Obj?
    requires forall e :: e in s ==> e in a.fields && e.0 in KeysOf(b.fields)
    ensures |r| == |s| && forall j :: 0 <= j < |r| ==> r[j].0 == s[j].0
    decreases a, 0
  {
    seq(|s|, j requires 0 <= j < |s| =>
      assert s[j] in s;
      (s[j].0, Patched(enc, kinds, s[j].1, Lookup(b.fields, s[j].0).value)))
  }

  /** The properties of `a` the first phase has reached after `i` of them, each patched or removed. */
  function Walk(enc: Scalar -> string, kinds: bool, a: Val, b: Val, i: nat): seq<(Key, Val)>
    requires a.Obj? && b.Obj? && i <= |a.fields|
  {
    assert forall e :: e in a.fields[..i] ==> e in a.fields;
    Patches(enc, kinds, a, b, Common(a.fields[..i], b.fields))
  }

  /** Halfway through the first phase: `i` properties patched or removed, the rest as in `a`. */
  function Midway(enc: Scalar -> string, kinds: bool, a: Val, b: Val, i: nat): Val
    requires a.Obj? && b.Obj? && i <= |a.fields|
  {
    Obj(a.isArray, Walk(enc, kinds, a, b, i) + a.fields[i..])
  }

  /** Before the first phase starts, nothing is patched yet. */
  lemma MidwayStart(enc: Scalar -> string, kinds: bool, a: Val, b: Val)
    requires a.Obj? && b.Obj?
    ensures Midway(enc, kinds, a, b, 0) == a
  {
    var none: seq<(Key, Val)> := [];
    assert a.fields[..0] == none;
    assert Walk(enc, kinds, a, b, 0) == none;
    WholeSuffix(a.fields);
    assert none + a.fields == a.fields;
  }

  /** A property of a value without `null` and with distinct keys has neither `null` nor repeated keys. */
  lemma Inside(v: Val, e: (Key, Val))
    requires v.Obj? && e in v.fields && WellFormed(v) && NullFree(v)
    ensures WellFormed(e.1) && NullFree(e.1)
  {
    var i :| 0 <= i < |v.fields| && v.fields[i] == e;
  }

  /** Halfway through the first phase the keys are still distinct. */
  lemma MidwayUnique(enc: Scalar -> string, kinds: bool, a: Val, b: Val, i: nat)
    requires a.Obj? && b.Obj? && WellFormed(a) && i <= |a.fields|
    ensures UniqueKeys(Midway(enc, kinds, a, b, i).fields)
  {
    var init := a.fields[..i];
    var common := Common(init, b.fields);
    var walked := Walk(enc, kinds, a, b, i);
    UniqueSplit(a.fields, i);
    CommonUnique(init, b.fields);
    DisjointPart(init, common, a.fields[i..]);
    SameKeys(walked, common, a.fields[i..]);
    UniqueAppend(walked, a.fields[i..]);
  }

  /** `Midway(i - 1)` is the walked properties, the next property, and the rest. */
  lemma MidwayNext(enc: Scalar -> string, kinds: bool, a: Val, b: Val, i: nat)
    requires a.Obj? && b.Obj? && WellFormed(a) && 0 < i <= |a.fields|
    ensures Midway(enc, kinds, a, b, i - 1).fields == Walk(enc, kinds, a, b, i - 1) + [a.fields[i - 1]] + a.fields[i..]
    ensures UniqueKeys(Midway(enc, kinds, a, b, i - 1).fields)
  {
    MidwayUnique(enc, kinds, a, b, i - 1);
    assert a.fields[i - 1..] == [a.fields[i - 1]] + a.fields[i..];
  }

  /** Patching one more property appends it, patched. */
  lemma PatchesSnoc(enc: Scalar -> string, kinds: bool, a: Val, b: Val, s: seq<(Key, Val)>, e: (Key, Val))
    requires a.Obj? && b.Obj?
    requires forall f :: f in s ==> f in a.fields && f.0 in KeysOf(b.fields)
    requires e in a.fields && e.0 in KeysOf(b.fields)
    ensures Patches(enc, kinds, a, b, s + [e]) == Patches(enc, kinds, a, b, s) + [(e.0, Patched(enc, kinds, e.1, Lookup(b.fields, e.0).value))]
  {
    var l := Patches(enc, kinds, a, b, s + [e]);
    var r := Patches(enc, kinds, a, b, s) + [(e.0, Patched(enc, kinds, e.1, Lookup(b.fields, e.0).value))];
    forall j | 0 <= j < |l| ensures l[j] == r[j] {
      if j < |s| {
        assert (s + [e])[j] == s[j];
      }
    }
  }

  /** One more step of the first phase: the next property kept and patched, or dropped. */
  lemma WalkStep(enc: Scalar -> string, kinds: bool, a: Val, b: Val, i: nat)
    requires a.Obj? && b.Obj? && 0 < i <= |a.fields|
    ensures Lookup(b.fields, a.fields[i - 1].0).None? ==> Walk(enc, kinds, a, b, i) == Walk(enc, kinds, a, b, i - 1)
    ensures Lookup(b.fields, a.fields[i - 1].0).Some? ==>
      Walk(enc, kinds, a, b, i) == Walk(enc, kinds, a, b, i - 1) +
        [(a.fields[i - 1].0, Patched(enc, kinds, a.fields[i - 1].1, Lookup(b.fields, a.fields[i - 1].0).value))]
  {
    var e := a.fields[i - 1];
    assert e in a.fields;
    var init := a.fields[..i - 1];
    PrefixSnoc(a.fields, i - 1);
    PrefixOfPrefix(a.fields, i - 1);
    assert forall f :: f in init ==> f in a.fields;
    var c := Common(init, b.fields);
    if Lookup(b.fields, e.0).Some? {
      assert Common(a.fields[..i], b.fields) == c + [e];
      PatchesSnoc(enc, kinds, a, b, c, e);
    } else {
      assert Common(a.fields[..i], b.fields) == c + [];
      AppendNil(c);
    }
  }

  // ---------------------------------------------------------------------
  // Replaying single operations

  /** Replaying a list whose first operation succeeds is replaying the rest on its result. */
  lemma ApplyAllCons(v: Val, ops: seq<Operation>)
    requires ops != [] && ApplyOp(v, ops[0]).Ok?
    ensures ApplyAll(v, ops) == ApplyAll(ApplyOp(v, ops[0]).value, ops[1..])
  {
  }

  /** Replaying a single operation that succeeds. */
  lemma ApplyOne(v: Val, op: Operation)
    requires ApplyOp(v, op).Ok?
    ensures ApplyAll(v, [op]) == (ApplyOp(v, op).value, Pass)
  {
    assert [op][0] == op && [op][1..] == [];
  }

  /** A `set` of `b` at an existing non-empty path puts `b` there. */
  lemma ReplaceReplay(r: Val, p: Path, b: Val)
    requires p != [] && ValueAt(r, p).Some?
    ensures ApplyOp(r, Set(p, b)) == Ok(UpdateValueAt(r, p, b))
  {
    var prefix := p[..|p| - 1];
    var key := p[|p| - 1];
    SplitLast(p);
    ValueAtAppend(r, prefix, [key]);
    var parent := ValueAt(r, prefix).value;
    ValueAtCons(parent, key, []);
    ApplyOpAt(r, Set(p, b));
    UpdateValueAtAppend(r, prefix, [key], b);
    Singleton(key);
  }

  /** A `set` of a new key under an object at `p` appends the property. */
  lemma AddStep(r: Val, p: Path, isArray: bool, base: seq<(Key, Val)>, k: Key, y: Val)
    requires ValueAt(r, p) == Some(Obj(isArray, base)) && k !in KeysOf(base)
    ensures var n := Obj(isArray, base + [(k, y)]);
      ApplyOp(r, Set(p + [k], y)) == Ok(UpdateValueAt(r, p, n)) && ValueAt(UpdateValueAt(r, p, n), p) == Some(n)
  {
    var q := p + [k];
    SnocParts(p, k);
    ApplyOpAt(r, Set(q, y));
    ValueAtUpdated(r, p, Obj(isArray, base + [(k, y)]));
  }

  /**
   * Two replays in a row, each replacing the value at `p`: the first
   * replacement is overwritten by the second.
   */
  lemma ReplayThen(r: Val, p: Path, m1: Val, m2: Val, o1: seq<Operation>, o2: seq<Operation>)
    requires ValueAt(r, p).Some?
    requires ApplyAll(r, o1) == (UpdateValueAt(r, p, m1), Pass)
    requires ValueAt(UpdateValueAt(r, p, m1), p).Some?
    requires ApplyAll(UpdateValueAt(r, p, m1), o2) == (UpdateValueAt(UpdateValueAt(r, p, m1), p, m2), Pass)
    ensures ApplyAll(r, o1 + o2) == (UpdateValueAt(r, p, m2), Pass)
  {
    ApplyAllAppend(r, o1, o2);
    UpdateValueAtTwice(r, p, m1, m2);
  }

  /** The additions as a first operation and the rest. */
  lemma AdditionsCons(added: seq<(Key, Val)>, p: Path)
    requires added != []
    ensures Additions(added, p) == [Set(p + [added[0].0], added[0].1)] + Additions(added[1..], p)
  {
    var ops := Additions(added, p);
    var rest := Additions(added[1..], p);
    forall j | 0 <= j < |rest| ensures ops[j + 1] == rest[j] {
      assert added[1..][j] == added[j + 1];
    }
    assert ops == [ops[0]] + ops[1..];
  }

  /**
   * The second phase: under an object at `p` holding `base`, one `set` per
   * added entry appends it after what is there.
   */
  lemma {:induction false} AdditionsReplay(r: Val, p: Path, isArray: bool, base: seq<(Key, Val)>, added: seq<(Key, Val)>)
    requires ValueAt(r, p) == Some(Obj(isArray, base))
    requires UniqueKeys(added) && Disjoint(base, added)
    ensures ApplyAll(r, Additions(added, p)) == (UpdateValueAt(r, p, Obj(isArray, base + added)), Pass)
    decreases |added|
  {
    if added == [] {
      assert base + [] == base;
      UpdateValueAtSame(r, p);
    } else {
      var (k, y) := added[0];
      var base' := base + [(k, y)];
      assert base' + added[1..] == base + added;
      assert k !in KeysOf(base) by {
        forall x | 0 <= x < |base| ensures KeysOf(base)[x] != k {
          assert base[x].0 != added[0].0;
        }
      }
      AddStep(r, p, isArray, base, k, y);
      var r' := UpdateValueAt(r, p, Obj(isArray, base'));
      AdditionsCons(added, p);
      ApplyOne(r, Set(p + [k], y));
      DisjointShift(base, added, y);
      AdditionsReplay(r', p, isArray, base', added[1..]);
      ReplayThen(r, p, Obj(isArray, base'), Obj(isArray, base + added), [Set(p + [k], y)], Additions(added[1..], p));
    }
  }

  // ---------------------------------------------------------------------
  // Replaying the diff

  /**
   * For `a` and `b` without `null`, the diff succeeds, and replaying
   * `calculateChanges(a, b, p)` on a value that holds `a` at `p` passes and
   * puts `Patched(a, b)` at `p`. At the root itself only two containers can
   * be diffed, since a set at the empty path is refused.
   */
  lemma {:induction false} ChangesRoundTrip(enc: Scalar -> string, kinds: bool, r: Val, p: Path, a: Val, b: Val)
    requires ValueAt(r, p) == Some(a) && WellFormed(a) && WellFormed(b) && NullFree(a) && NullFree(b)
    requires p == [] ==> a.Obj? && b.Obj? && !KindClash(kinds, a, b)
    ensures Changes(enc, kinds, a, b, p).Ok?
    ensures ApplyAll(r, Changes(enc, kinds, a, b, p).value) == (UpdateValueAt(r, p, Patched(enc, kinds, a, b)), Pass)
    decreases a, 2
  {
    ChangesErrors(enc, kinds, a, b, p);
    if a.Obj? && b.Obj? && !KindClash(kinds, a, b) {
      DiffReplay(enc, kinds, r, p, a, b);
    } else if IsLeafValue(a) && IsLeafValue(b) && SameLeaf(enc, a, b) {
      UpdateValueAtSame(r, p);
    } else {
      ReplaceReplay(r, p, b);
      assert Changes(enc, kinds, a, b, p).value == [Set(p, b)];
      ApplyAllCons(r, [Set(p, b)]);
    }
  }

  /** Replaying the diff of two objects: the first phase, then the second. */
  lemma {:induction false} DiffReplay(enc: Scalar -> string, kinds: bool, r: Val, p: Path, a: Val, b: Val)
    requires ValueAt(r, p) == Some(a) && WellFormed(a) && WellFormed(b) && NullFree(a) && NullFree(b)
    requires a.Obj? && b.Obj? && !KindClash(kinds, a, b)
    ensures Diff(enc, kinds, a, b, p).Ok?
    ensures ApplyAll(r, Diff(enc, kinds, a, b, p).value) == (UpdateValueAt(r, p, Patched(enc, kinds, a, b)), Pass)
    decreases a, 1
  {
    var n := |a.fields|;
    var common := Common(a.fields, b.fields);
    var kept := Patches(enc, kinds, a, b, common);
    var add := Added(a.fields, b.fields);
    WalkedErrors(enc, kinds, a, b, p, n);
    WalkedReplay(enc, kinds, r, p, a, b, n, Walked(enc, kinds, a, b, p, n).value);
    UpdateValueAtSame(r, p);
    WholePrefix(a.fields);
    AppendNil(kept);
    var mid := Obj(a.isArray, kept);
    assert Midway(enc, kinds, a, b, n) == mid;
    ValueAtUpdated(r, p, mid);
    var r1 := UpdateValueAt(r, p, mid);
    CommonUnique(a.fields, b.fields);
    AddedUnique(a.fields, b.fields);
    assert Disjoint(kept, add) by {
      forall x, y | 0 <= x < |kept| && 0 <= y < |add| ensures kept[x].0 != add[y].0 {
        assert common[x] in common;
        KeysOfMember(a.fields, common[x].0);
      }
    }
    AdditionsReplay(r1, p, a.isArray, kept, add);
    ReplayThen(r, p, mid, Patched(enc, kinds, a, b), Walked(enc, kinds, a, b, p, n).value, Additions(add, p));
  }

  /**
   * The first phase over the first `i` properties, `ops`, replayed on a value
   * holding `a` at `p`, leaves `Midway(i)` there.
   */
  lemma {:induction false} WalkedReplay(enc: Scalar -> string, kinds: bool, r: Val, p: Path, a: Val, b: Val, i: nat, ops: seq<Operation>)
    requires ValueAt(r, p).Some? && WellFormed(a) && WellFormed(b) && NullFree(a) && NullFree(b)
    requires a.Obj? && b.Obj? && i <= |a.fields| && Walked(enc, kinds, a, b, p, i) == Ok(ops)
    ensures ApplyAll(UpdateValueAt(r, p, a), ops) == (UpdateValueAt(r, p, Midway(enc, kinds, a, b, i)), Pass)
    decreases a, 0, i, 3
  {
    if i == 0 {
      MidwayStart(enc, kinds, a, b);
    } else {
      WalkedStep(enc, kinds, r, p, a, b, i, ops);
    }
  }

  /** Replaying the first `i - 1` properties reaches `Midway(i - 1)`; the operations for the next one finish `Midway(i)`. */
  lemma {:induction false} WalkedStep(enc: Scalar -> string, kinds: bool, r: Val, p: Path, a: Val, b: Val, i: nat, ops: seq<Operation>)
    requires ValueAt(r, p).Some? && WellFormed(a) && WellFormed(b) && NullFree(a) && NullFree(b)
    requires a.Obj? && b.Obj? && 0 < i <= |a.fields| && Walked(enc, kinds, a, b, p, i) == Ok(ops)
    ensures ApplyAll(UpdateValueAt(r, p, a), ops) == (UpdateValueAt(r, p, Midway(enc, kinds, a, b, i)), Pass)
    decreases a, 0, i, 2
  {
    ghost var j := i - 1;
    WalkedNext(enc, kinds, a, b, p, i);
    var before := Walked(enc, kinds, a, b, p, j).value;
    WalkedReplay(enc, kinds, r, p, a, b, j, before);
    var mid := Midway(enc, kinds, a, b, j);
    var r1 := UpdateValueAt(r, p, mid);
    var step := KeyChanges(enc, kinds, a, b, p, j).value;
    ValueAtUpdated(r, p, mid);
    StepReplay(enc, kinds, p, a, b, i, r1, step);
    UpdateValueAtTwice(r, p, mid, Midway(enc, kinds, a, b, i));
    ApplyAllAppend(UpdateValueAt(r, p, a), before, step);
  }

  /** The first phase over `i` properties is the first phase over `i - 1` and the step for the last. */
  lemma WalkedNext(enc: Scalar -> string, kinds: bool, a: Val, b: Val, p: Path, i: nat)
    requires a.Obj? && b.Obj? && 0 < i <= |a.fields|
    ensures Walked(enc, kinds, a, b, p, i).Ok? <==> Walked(enc, kinds, a, b, p, i - 1).Ok? && KeyChanges(enc, kinds, a, b, p, i - 1).Ok?
    ensures Walked(enc, kinds, a, b, p, i).Ok? ==>
      Walked(enc, kinds, a, b, p, i).value == Walked(enc, kinds, a, b, p, i - 1).value + KeyChanges(enc, kinds, a, b, p, i - 1).value
  {
  }

  /** Replaying the operations for the next key of `a`, `ops`, takes `Midway(i - 1)` to `Midway(i)`. */
  lemma {:induction false} StepReplay(enc: Scalar -> string, kinds: bool, p: Path, a: Val, b: Val, i: nat, r1: Val, ops: seq<Operation>)
    requires WellFormed(a) && WellFormed(b) && NullFree(a) && NullFree(b)
    requires a.Obj? && b.Obj? && 0 < i <= |a.fields| && KeyChanges(enc, kinds, a, b, p, i - 1) == Ok(ops)
    requires ValueAt(r1, p) == Some(Midway(enc, kinds, a, b, i - 1))
    ensures ApplyAll(r1, ops) == (UpdateValueAt(r1, p, Midway(enc, kinds, a, b, i)), Pass)
    decreases a, 0, i, 1
  {
    if Lookup(b.fields, a.fields[i - 1].0).Some? {
      KeepStep(enc, kinds, p, a, b, i, r1);
    } else {
      DropStep(enc, kinds, p, a, b, i, r1);
    }
  }

  /** A property `b` also has: replaying its changes patches it where it stands. */
  lemma {:induction false} KeepStep(enc: Scalar -> string, kinds: bool, p: Path, a: Val, b: Val, i: nat, r1: Val)
    requires WellFormed(a) && WellFormed(b) && NullFree(a) && NullFree(b)
    requires a.Obj? && b.Obj? && 0 < i <= |a.fields|
    requires Lookup(b.fields, a.fields[i - 1].0).Some?
    requires ValueAt(r1, p) == Some(Midway(enc, kinds, a, b, i - 1))
    ensures KeyChanges(enc, kinds, a, b, p, i - 1).Ok?
    ensures ApplyAll(r1, KeyChanges(enc, kinds, a, b, p, i - 1).value) == (UpdateValueAt(r1, p, Midway(enc, kinds, a, b, i)), Pass)
    decreases a, 0, i, 0
  {
    var (k, x) := a.fields[i - 1];
    assert a.fields[i - 1] in a.fields;
    var y := Lookup(b.fields, k).value;
    assert KeyChanges(enc, kinds, a, b, p, i - 1) == Changes(enc, kinds, x, y, p + [k]);
    Inside(a, (k, x));
    Inside(b, (k, y));
    var mid := Midway(enc, kinds, a, b, i - 1);
    var pt := Patched(enc, kinds, x, y);
    MidwayNext(enc, kinds, a, b, i);
    PutMiddle(Walk(enc, kinds, a, b, i - 1), k, x, a.fields[i..], pt);
    WalkStep(enc, kinds, a, b, i);
    ChildReplace(r1, p, mid.isArray, mid.fields, k, pt);
    ChangesRoundTrip(enc, kinds, r1, p + [k], x, y);
  }

  /** A property `b` lacks: its removal cuts it out where it stands. */
  lemma {:induction false} DropStep(enc: Scalar -> string, kinds: bool, p: Path, a: Val, b: Val, i: nat, r1: Val)
    requires WellFormed(a) && a.Obj? && b.Obj? && 0 < i <= |a.fields|
    requires Lookup(b.fields, a.fields[i - 1].0).None?
    requires ValueAt(r1, p) == Some(Midway(enc, kinds, a, b, i - 1))
    ensures KeyChanges(enc, kinds, a, b, p, i - 1) == Ok([Remove(p + [a.fields[i - 1].0])])
    ensures ApplyAll(r1, [Remove(p + [a.fields[i - 1].0])]) == (UpdateValueAt(r1, p, Midway(enc, kinds, a, b, i)), Pass)
  {
    var k := a.fields[i - 1].0;
    var mid := Midway(enc, kinds, a, b, i - 1);
    MidwayNext(enc, kinds, a, b, i);
    PutMiddle(Walk(enc, kinds, a, b, i - 1), k, a.fields[i - 1].1, a.fields[i..], a.fields[i - 1].1);
    WalkStep(enc, kinds, a, b, i);
    RemoveReplay(r1, p, mid.isArray, mid.fields, k);
  }

  /** A `remove` below the object at `q` deletes the property. */
  lemma RemoveReplay(r: Val, q: Path, isArray: bool, f: seq<(Key, Val)>, k: Key)
    requires ValueAt(r, q) == Some(Obj(isArray, f))
    ensures ApplyAll(r, [Remove(q + [k])]) == (UpdateValueAt(r, q, Obj(isArray, Delete(f, k))), Pass)
  {
    var op := Remove(q + [k]);
    SnocParts(q, k);
    ApplyOpAt(r, op);
    ApplyAllCons(r, [op]);
  }

  /** Replacing a property of the object at `q` is putting it in that object. */
  lemma ChildReplace(r: Val, q: Path, isArray: bool, f: seq<(Key, Val)>, k: Key, w: Val)
    requires ValueAt(r, q) == Some(Obj(isArray, f)) && Lookup(f, k).Some?
    ensures ValueAt(r, q + [k]) == Lookup(f, k)
    ensures UpdateValueAt(r, q + [k], w) == UpdateValueAt(r, q, Obj(isArray, Put(f, k, w)))
  {
    ValueAtStep(r, q, k);
    UpdateValueAtAppend(r, q, [k], w);
    assert [k][0] == k && [k][1..] == [];
  }

  // ---------------------------------------------------------------------
  // Nothing is left to do

  /** A value without `null` diffed against itself gives no operations. */
  lemma {:induction false} SelfChangesEmpty(enc: Scalar -> string, kinds: bool, v: Val, p: Path)
    requires WellFormed(v) && NullFree(v)
    ensures Changes(enc, kinds, v, v, p) == Ok([])
    decreases v, 1
  {
    if v.Obj? {
      forall j | 0 <= j < |v.fields| ensures KeyChanges(enc, kinds, v, v, p, j) == Ok([]) {
        SelfKeyEmpty(enc, kinds, v, p, j);
      }
      WalkedAllEmpty(enc, kinds, v, v, p, |v.fields|);
      forall j | 0 <= j < |v.fields| ensures v.fields[j].0 in KeysOf(v.fields) {
        assert KeysOf(v.fields)[j] == v.fields[j].0;
      }
      AddedCovered(v.fields, v.fields);
      var none: seq<Operation> := [];
      assert Additions([], p) == none;
      EmptyAppend(none);
    }
  }

  /** When no key of `a` gives an operation, the first phase gives none. */
  lemma {:induction false} WalkedAllEmpty(enc: Scalar -> string, kinds: bool, a: Val, b: Val, p: Path, i: nat)
    requires a.Obj? && b.Obj? && i <= |a.fields|
    requires forall j :: 0 <= j < i ==> KeyChanges(enc, kinds, a, b, p, j) == Ok([])
    ensures Walked(enc, kinds, a, b, p, i) == Ok([])
  {
    if i > 0 {
      WalkedAllEmpty(enc, kinds, a, b, p, i - 1);
      assert KeyChanges(enc, kinds, a, b, p, i - 1) == Ok([]);
      WalkedNext(enc, kinds, a, b, p, i);
      var none: seq<Operation> := [];
      EmptyAppend(none);
    }
  }

  /** Each key of an object diffed against itself gives no operations. */
  lemma {:induction false} SelfKeyEmpty(enc: Scalar -> string, kinds: bool, v: Val, p: Path, j: nat)
    requires WellFormed(v) && NullFree(v) && v.Obj? && j < |v.fields|
    ensures KeyChanges(enc, kinds, v, v, p, j) == Ok([])
    decreases v, 0
  {
    var e := v.fields[j];
    assert e in v.fields;
    LookupAt(v.fields, j);
    Inside(v, e);
    SelfChangesEmpty(enc, kinds, e.1, p + [e.0]);
  }

  /**
   * What replaying the diff leaves matches its target: diffing
   * `Patched(a, b)` against `b` gives no operations.
   */
  lemma {:induction false} LeftoverChangesEmpty(enc: Scalar -> string, kinds: bool, a: Val, b: Val, p: Path)
    requires WellFormed(a) && WellFormed(b) && NullFree(a) && NullFree(b)
    ensures Changes(enc, kinds, Patched(enc, kinds, a, b), b, p) == Ok([])
    decreases a, 2
  {
    if a.Obj? && b.Obj? && !KindClash(kinds, a, b) {
      LeftoverDiffEmpty(enc, kinds, a, b, p);
    } else if IsLeafValue(a) && IsLeafValue(b) && SameLeaf(enc, a, b) {
    } else {
      SelfChangesEmpty(enc, kinds, b, p);
    }
  }

  /** The patched object has every key of `b`, and each of its properties matches `b`'s. */
  lemma {:induction false} LeftoverDiffEmpty(enc: Scalar -> string, kinds: bool, a: Val, b: Val, p: Path)
    requires WellFormed(a) && WellFormed(b) && NullFree(a) && NullFree(b) && a.Obj? && b.Obj?
    requires !KindClash(kinds, a, b)
    ensures Changes(enc, kinds, Patched(enc, kinds, a, b), b, p) == Ok([])
    decreases a, 1
  {
    var c := Patched(enc, kinds, a, b);
    forall j | 0 <= j < |c.fields| ensures KeyChanges(enc, kinds, c, b, p, j) == Ok([]) {
      LeftoverKeyEmpty(enc, kinds, a, b, p, j);
    }
    WalkedAllEmpty(enc, kinds, c, b, p, |c.fields|);
    PatchedCovers(enc, kinds, a, b);
    AddedCovered(c.fields, b.fields);
    var none: seq<Operation> := [];
    assert Additions([], p) == none;
    EmptyAppend(none);
  }

  /** Every key of `b` is a key of `Patched(a, b)`. */
  lemma PatchedCovers(enc: Scalar -> string, kinds: bool, a: Val, b: Val)
    requires a.Obj? && b.Obj? && !KindClash(kinds, a, b)
    ensures forall j :: 0 <= j < |b.fields| ==> b.fields[j].0 in KeysOf(Patched(enc, kinds, a, b).fields)
  {
    var common := Common(a.fields, b.fields);
    CommonAddedCover(a.fields, b.fields, Patches(enc, kinds, a, b, common));
  }

  /** The `j`-th property of `Patched(a, b)` diffed against `b`'s gives no operations. */
  lemma {:induction false} LeftoverKeyEmpty(enc: Scalar -> string, kinds: bool, a: Val, b: Val, p: Path, j: nat)
    requires WellFormed(a) && WellFormed(b) && NullFree(a) && NullFree(b) && a.Obj? && b.Obj?
    requires !KindClash(kinds, a, b) && j < |Patched(enc, kinds, a, b).fields|
    ensures KeyChanges(enc, kinds, Patched(enc, kinds, a, b), b, p, j) == Ok([])
    decreases a, 0, j
  {
    var common := Common(a.fields, b.fields);
    var kept := Patches(enc, kinds, a, b, common);
    var add := Added(a.fields, b.fields);
    var c := Patched(enc, kinds, a, b);
    assert c.fields == kept + add;
    AppendIndex(kept, add, j);
    if j < |kept| {
      var e := common[j];
      assert e in common;
      var y := Lookup(b.fields, e.0).value;
      assert c.fields[j] == (e.0, Patched(enc, kinds, e.1, y));
      Inside(a, e);
      Inside(b, (e.0, y));
      LeftoverChangesEmpty(enc, kinds, e.1, y, p + [e.0]);
    } else {
      var e := add[j - |kept|];
      assert e in add;
      assert c.fields[j] == e;
      LookupMember(b.fields, e);
      Inside(b, e);
      SelfChangesEmpty(enc, kinds, e.1, p + [e.0]);
    }
  }

  // ---------------------------------------------------------------------
  // The whole diff

  /**
   * For two objects without `null`, the diff succeeds; replaying it on a
   * clone of `a` passes and yields `Patched(a, b)`; and diffing that result
   * against `b` gives no operations.
   */
  lemma DiffThenApply(enc: Scalar -> string, kinds: bool, a: Val, b: Val)
    requires a.Obj? && b.Obj? && !KindClash(kinds, a, b)
    requires WellFormed(a) && WellFormed(b) && NullFree(a) && NullFree(b)
    ensures Diff(enc, kinds, a, b, []).Ok?
    ensures ApplyAll(DeepClone(a), Diff(enc, kinds, a, b, []).value) == (Patched(enc, kinds, a, b), Pass)
    ensures Diff(enc, kinds, Patched(enc, kinds, a, b), b, []) == Ok([])
  {
    DeepCloneNull(a);
    DiffReplay(enc, kinds, a, [], a, b);
    LeftoverDiffEmpty(enc, kinds, a, b, []);
  }
}
