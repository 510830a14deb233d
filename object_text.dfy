/**
 * What the raw-value tests compare after a replay: the key-sorted text
 * (src/object/json.ts) of the replayed value and of the target
 * (src/tests/object.tree-diff.ts). `calculateChanges` asks only whether a
 * value is an object, so it diffs an array against a plain object index by
 * index, and the texts can then differ. They agree whenever the shapes the
 * diff walks agree; with `kinds` set, an array and a plain object are told
 * apart and only arrays that shrink are left over, since a shrunk array
 * keeps its length in JavaScript.
 */
module ObjectText {
  import opened Base
  import opened Keys
  import opened Seqs
  import opened Entries
  import opened Values
  import opened Json
  import opened Operations
  import opened ObjectTree
  import opened ObjectTreeDiff
  import opened ObjectRoundTrip

  /**
   * Wherever the diff walks two objects of `a` and `b` (a property both
   * have, down from the root), they are of the same kind, and an array of
   * `b` starts with the indices of `a`'s array, in the same order.
   */
  ghost predicate Shaped(kinds: bool, a: Val, b: Val)
    decreases a
  {
    a.Obj? && b.Obj? && !KindClash(kinds, a, b) ==>
      a.isArray == b.isArray
      && (a.isArray ==> IndicesKept(a.fields, b.fields))
      && forall i, j :: 0 <= i < |a.fields| && 0 <= j < |b.fields| && a.fields[i].0 == b.fields[j].0 ==>
        Shaped(kinds, a.fields[i].1, b.fields[j].1)
  }

  /** `t` is at least as long as `s` and has the same key at each of `s`'s positions. */
  ghost predicate IndicesKept(s: seq<(Key, Val)>, t: seq<(Key, Val)>) {
    |s| <= |t| && forall i :: 0 <= i < |s| ==> s[i].0 == t[i].0
  }

  /**
   * On shaped values without `null`, the patched value holds no `null` and
   * renders as `b` does.
   */
  lemma {:induction false} PatchedText(enc: Scalar -> string, kinds: bool, a: Val, b: Val)
    requires WellFormed(a) && WellFormed(b) && NullFree(a) && NullFree(b) && Shaped(kinds, a, b)
    ensures NullFree(Patched(enc, kinds, a, b))
    ensures Render(enc, Patched(enc, kinds, a, b)) == Render(enc, b)
    decreases a, 5
  {
    if a.Obj? && b.Obj? && !KindClash(kinds, a, b) {
      PatchedNullFree(enc, kinds, a, b);
      if a.isArray {
        PatchedArrayText(enc, kinds, a, b);
      } else {
        PatchedObjectText(enc, kinds, a, b);
      }
    }
  }

  /** The `j`-th common property, patched, holds no `null` and renders as `b`'s property under its key. */
  lemma {:induction false} PatchedChildText(enc: Scalar -> string, kinds: bool, a: Val, b: Val, j: nat)
    requires WellFormed(a) && WellFormed(b) && NullFree(a) && NullFree(b) && Shaped(kinds, a, b)
    requires a.Obj? && b.Obj? && !KindClash(kinds, a, b) && j < |Common(a.fields, b.fields)|
    ensures Common(a.fields, b.fields)[j] in Common(a.fields, b.fields)
    ensures NullFree(Patches(enc, kinds, a, b, Common(a.fields, b.fields))[j].1)
    ensures Render(enc, Patches(enc, kinds, a, b, Common(a.fields, b.fields))[j].1)
      == Render(enc, Lookup(b.fields, Common(a.fields, b.fields)[j].0).value)
    decreases a, 0
  {
    var common := Common(a.fields, b.fields);
    var e := common[j];
    assert e in common;
    var y := Lookup(b.fields, e.0).value;
    Inside(a, e);
    Inside(b, (e.0, y));
    var i :| 0 <= i < |a.fields| && a.fields[i] == e;
    var m :| 0 <= m < |b.fields| && b.fields[m] == (e.0, y);
    assert Shaped(kinds, e.1, y);
    PatchedText(enc, kinds, e.1, y);
  }

  /** Patching two objects leaves no `null`. */
  lemma {:induction false} PatchedNullFree(enc: Scalar -> string, kinds: bool, a: Val, b: Val)
    requires WellFormed(a) && WellFormed(b) && NullFree(a) && NullFree(b) && Shaped(kinds, a, b)
    requires a.Obj? && b.Obj? && !KindClash(kinds, a, b)
    ensures NullFree(Patched(enc, kinds, a, b))
    decreases a, 4
  {
    var common := Common(a.fields, b.fields);
    var kept := Patches(enc, kinds, a, b, common);
    var add := Added(a.fields, b.fields);
    var c := Patched(enc, kinds, a, b);
    assert c.fields == kept + add;
    forall x | 0 <= x < |c.fields| ensures NullFree(c.fields[x].1) {
      AppendIndex(kept, add, x);
      if x < |kept| {
        PatchedChildText(enc, kinds, a, b, x);
      } else {
        assert add[x - |kept|] in add;
        var m :| 0 <= m < |b.fields| && b.fields[m] == add[x - |kept|];
      }
    }
  }

  /**
   * Two arrays, the second starting with the indices of the first: every
   * index is patched and the new ones follow in order, so the elements
   * render as `b`'s do, position by position.
   */
  lemma {:induction false} PatchedArrayText(enc: Scalar -> string, kinds: bool, a: Val, b: Val)
    requires WellFormed(a) && WellFormed(b) && NullFree(a) && NullFree(b) && Shaped(kinds, a, b)
    requires a.Obj? && b.Obj? && !KindClash(kinds, a, b) && a.isArray
    ensures Render(enc, Patched(enc, kinds, a, b)) == Render(enc, b)
    decreases a, 4
  {
    var c := Patched(enc, kinds, a, b);
    ArrayElementText(enc, kinds, a, b, 0);
    forall x | 0 <= x < |c.fields| ensures Render(enc, c.fields[x].1) == Render(enc, b.fields[x].1) {
      ArrayElementText(enc, kinds, a, b, x);
    }
    RenderSameByPosition(enc, c.fields, b.fields);
    assert c == Obj(true, c.fields) && b == Obj(true, b.fields);
  }

  /** The patched array is as long as `b`, and its `x`-th element renders as `b`'s. */
  lemma {:induction false} ArrayElementText(enc: Scalar -> string, kinds: bool, a: Val, b: Val, x: nat)
    requires WellFormed(a) && WellFormed(b) && NullFree(a) && NullFree(b) && Shaped(kinds, a, b)
    requires a.Obj? && b.Obj? && !KindClash(kinds, a, b) && a.isArray
    ensures Patched(enc, kinds, a, b).isArray && |Patched(enc, kinds, a, b).fields| == |b.fields|
    ensures x < |b.fields| ==> Render(enc, Patched(enc, kinds, a, b).fields[x].1) == Render(enc, b.fields[x].1)
    decreases a, 3
  {
    PatchedArray(enc, kinds, a, b);
    if x < |a.fields| {
      KeptElementText(enc, kinds, a, b, x);
    } else if x < |b.fields| {
      AddedElementText(enc, kinds, a, b, x);
    }
  }

  /** An element at an index `a` has renders, once patched, as `b`'s element there. */
  lemma {:induction false} KeptElementText(enc: Scalar -> string, kinds: bool, a: Val, b: Val, x: nat)
    requires WellFormed(a) && WellFormed(b) && NullFree(a) && NullFree(b) && Shaped(kinds, a, b)
    requires a.Obj? && b.Obj? && !KindClash(kinds, a, b) && a.isArray && x < |a.fields|
    ensures x < |Patched(enc, kinds, a, b).fields| && x < |b.fields|
    ensures Render(enc, Patched(enc, kinds, a, b).fields[x].1) == Render(enc, b.fields[x].1)
    decreases a, 2
  {
    PatchedArray(enc, kinds, a, b);
    IndexText(enc, kinds, a, b, x);
    AppendIndex(Patches(enc, kinds, a, b, a.fields), b.fields[|a.fields|..], x);
  }

  /** An element at an index only `b` has is `b`'s element itself. */
  lemma AddedElementText(enc: Scalar -> string, kinds: bool, a: Val, b: Val, x: nat)
    requires WellFormed(b) && a.Obj? && b.Obj? && !KindClash(kinds, a, b) && a.isArray
    requires IndicesKept(a.fields, b.fields) && |a.fields| <= x < |b.fields|
    ensures x < |Patched(enc, kinds, a, b).fields|
    ensures Patched(enc, kinds, a, b).fields[x] == b.fields[x]
  {
    PatchedArray(enc, kinds, a, b);
    var c := Patched(enc, kinds, a, b).fields;
    assert c[|a.fields|..][x - |a.fields|] == c[x];
    assert b.fields[|a.fields|..][x - |a.fields|] == b.fields[x];
  }

  /** An index both arrays have, patched, renders as `b`'s element there. */
  lemma {:induction false} IndexText(enc: Scalar -> string, kinds: bool, a: Val, b: Val, x: nat)
    requires WellFormed(a) && WellFormed(b) && NullFree(a) && NullFree(b) && Shaped(kinds, a, b)
    requires a.Obj? && b.Obj? && !KindClash(kinds, a, b) && a.isArray && x < |a.fields|
    ensures x < |Patches(enc, kinds, a, b, a.fields)| && x < |b.fields|
    ensures Render(enc, Patches(enc, kinds, a, b, a.fields)[x].1) == Render(enc, b.fields[x].1)
    decreases a, 1
  {
    PatchedArray(enc, kinds, a, b);
    PatchedChildText(enc, kinds, a, b, x);
    assert a.fields[x].0 == b.fields[x].0;
    LookupAt(b.fields, x);
  }

  /** Patching an array that `b`'s array extends: each index patched, then `b`'s further elements. */
  lemma PatchedArray(enc: Scalar -> string, kinds: bool, a: Val, b: Val)
    requires WellFormed(b) && a.Obj? && b.Obj? && !KindClash(kinds, a, b) && a.isArray
    requires IndicesKept(a.fields, b.fields)
    ensures Common(a.fields, b.fields) == a.fields
    ensures Patched(enc, kinds, a, b) == Obj(true, Patches(enc, kinds, a, b, a.fields) + b.fields[|a.fields|..])
    ensures |Patched(enc, kinds, a, b).fields| == |b.fields|
    ensures Patched(enc, kinds, a, b).fields[|a.fields|..] == b.fields[|a.fields|..]
  {
    ExtendedKeys(a.fields, b.fields);
    var kept := Patches(enc, kinds, a, b, a.fields);
    assert (kept + b.fields[|a.fields|..])[|kept|..] == b.fields[|a.fields|..];
  }

  /**
   * Two plain objects: the patched object has exactly `b`'s keys, and under
   * each of them a value that renders as `b`'s, so the sorted texts agree.
   */
  lemma {:induction false} PatchedObjectText(enc: Scalar -> string, kinds: bool, a: Val, b: Val)
    requires WellFormed(a) && WellFormed(b) && NullFree(a) && NullFree(b) && Shaped(kinds, a, b)
    requires a.Obj? && b.Obj? && !KindClash(kinds, a, b) && !a.isArray
    ensures Render(enc, Patched(enc, kinds, a, b)) == Render(enc, b)
    decreases a, 4
  {
    var c := Patched(enc, kinds, a, b);
    PatchedUnique(enc, kinds, a, b);
    PatchedKeys(enc, kinds, a, b);
    forall x, m | 0 <= x < |c.fields| && 0 <= m < |b.fields| && c.fields[x].0 == b.fields[m].0
      ensures Render(enc, c.fields[x].1) == Render(enc, b.fields[m].1)
    {
      PropertyText(enc, kinds, a, b, x, m);
    }
    RenderSameByKey(enc, c.fields, b.fields);
    assert c == Obj(false, c.fields) && b == Obj(false, b.fields);
  }

  /** The patched object has exactly the keys of `b`. */
  lemma PatchedKeys(enc: Scalar -> string, kinds: bool, a: Val, b: Val)
    requires a.Obj? && b.Obj? && !KindClash(kinds, a, b)
    ensures forall k :: k in KeysOf(Patched(enc, kinds, a, b).fields) <==> k in KeysOf(b.fields)
  {
    var common := Common(a.fields, b.fields);
    var kept := Patches(enc, kinds, a, b, common);
    var add := Added(a.fields, b.fields);
    var c := Patched(enc, kinds, a, b);
    assert c.fields == kept + add;
    PatchedCovers(enc, kinds, a, b);
    forall k ensures k in KeysOf(c.fields) <==> k in KeysOf(b.fields) {
      KeysOfMember(c.fields, k);
      KeysOfMember(b.fields, k);
      if k in KeysOf(c.fields) {
        var x :| 0 <= x < |c.fields| && c.fields[x].0 == k;
        AppendIndex(kept, add, x);
        if x < |kept| {
          assert common[x] in common;
        } else {
          assert add[x - |kept|] in add;
          var m :| 0 <= m < |b.fields| && b.fields[m] == add[x - |kept|];
        }
      }
    }
  }

  /** A property of the patched object renders as `b`'s property under the same key. */
  lemma {:induction false} PropertyText(enc: Scalar -> string, kinds: bool, a: Val, b: Val, x: nat, m: nat)
    requires WellFormed(a) && WellFormed(b) && NullFree(a) && NullFree(b) && Shaped(kinds, a, b)
    requires a.Obj? && b.Obj? && !KindClash(kinds, a, b)
    requires x < |Patched(enc, kinds, a, b).fields| && m < |b.fields|
    requires Patched(enc, kinds, a, b).fields[x].0 == b.fields[m].0
    ensures Render(enc, Patched(enc, kinds, a, b).fields[x].1) == Render(enc, b.fields[m].1)
    decreases a, 1
  {
    var common := Common(a.fields, b.fields);
    var kept := Patches(enc, kinds, a, b, common);
    var add := Added(a.fields, b.fields);
    var c := Patched(enc, kinds, a, b);
    assert c.fields == kept + add;
    AppendIndex(kept, add, x);
    LookupAt(b.fields, m);
    if x < |kept| {
      PatchedChildText(enc, kinds, a, b, x);
    } else {
      assert add[x - |kept|] in add;
      LookupMember(b.fields, add[x - |kept|]);
    }
  }

  /** The patched object has distinct keys: the common ones, then those only `b` has. */
  lemma PatchedUnique(enc: Scalar -> string, kinds: bool, a: Val, b: Val)
    requires WellFormed(a) && WellFormed(b) && a.Obj? && b.Obj? && !KindClash(kinds, a, b)
    ensures UniqueKeys(Patched(enc, kinds, a, b).fields)
  {
    var common := Common(a.fields, b.fields);
    var kept := Patches(enc, kinds, a, b, common);
    var add := Added(a.fields, b.fields);
    CommonUnique(a.fields, b.fields);
    AddedUnique(a.fields, b.fields);
    assert Disjoint(common, add) by {
      forall x, y | 0 <= x < |common| && 0 <= y < |add| ensures common[x].0 != add[y].0 {
        assert common[x] in common;
        KeysOfMember(a.fields, common[x].0);
      }
    }
    SameKeys(kept, common, add);
    UniqueAppend(kept, add);
  }

  // ---------------------------------------------------------------------
  // The text the tests compare

  /**
   * For two objects without `null` whose shapes agree, replaying the diff on
   * a clone of `a` yields a value with the same key-sorted text as `b`: the
   * check the raw-value tests make after `applyOperations`.
   */
  lemma DiffThenApplyText(enc: Scalar -> string, kinds: bool, a: Val, b: Val)
    requires a.Obj? && b.Obj? && !KindClash(kinds, a, b)
    requires WellFormed(a) && WellFormed(b) && NullFree(a) && NullFree(b) && Shaped(kinds, a, b)
    ensures Diff(enc, kinds, a, b, []).Ok?
    ensures Stringify(enc, ApplyAll(DeepClone(a), Diff(enc, kinds, a, b, []).value).0) == Stringify(enc, b)
  {
    DiffThenApply(enc, kinds, a, b);
    PatchedText(enc, kinds, a, b);
  }

  /** `[1]` as the source's objects see it: one property, `"0"`. */
  const One: seq<(Key, Val)> := [("0", Prim(Num(1)))]

  /** `{x: {"0": 1}}`. */
  const ObjectUnderX: Val := Obj(false, [("x", Obj(false, One))])

  /** `{x: [1]}`. */
  const ArrayUnderX: Val := Obj(false, [("x", Obj(true, One))])

  /**
   * `{x: {"0": 1}}` against `{x: [1]}`. As written, the diff is empty, since
   * the object and the array under `x` have the same key and the same value
   * under it, so the replay leaves `a`, whose text differs from `b`'s at the
   * bracket opening the value of `x`. With `kinds`, the diff sets the array
   * at `["x"]` and the texts agree.
   */
  lemma ArrayAgainstObject(enc: Scalar -> string)
    ensures Diff(enc, false, ObjectUnderX, ArrayUnderX, []) == Ok([])
    ensures Stringify(enc, ApplyAll(DeepClone(ObjectUnderX), []).0) != Stringify(enc, ArrayUnderX)
    ensures Diff(enc, true, ObjectUnderX, ArrayUnderX, []) == Ok([Set(["x"], Obj(true, One))])
    ensures Stringify(enc, ApplyAll(DeepClone(ObjectUnderX), [Set(["x"], Obj(true, One))]).0)
      == Stringify(enc, ArrayUnderX)
  {
    BlindDiff(enc);
    KindedDiff(enc);
    UnderXShaped();
    DeepCloneNull(ObjectUnderX);
    UnderXTexts(enc);
    DiffThenApplyText(enc, true, ObjectUnderX, ArrayUnderX);
  }

  /** Both values are well formed and without `null`, and their shapes agree once kinds are told apart. */
  lemma UnderXShaped()
    ensures WellFormed(ObjectUnderX) && NullFree(ObjectUnderX) && WellFormed(ArrayUnderX) && NullFree(ArrayUnderX)
    ensures Shaped(true, ObjectUnderX, ArrayUnderX)
  {
    assert WellFormed(Obj(false, One)) && WellFormed(Obj(true, One));
  }

  /** The two texts differ at the bracket opening the value of `x`. */
  lemma UnderXTexts(enc: Scalar -> string)
    ensures Stringify(enc, ObjectUnderX) != Stringify(enc, ArrayUnderX)
  {
    assert NullFree(Obj(false, One)) && NullFree(Obj(true, One));
    SingleFieldText(enc, "x", Obj(false, One));
    SingleFieldText(enc, "x", Obj(true, One));
    var p := "{" + enc(Str("x")) + ":";
    assert (p + Render(enc, Obj(false, One)) + "}")[|p|] == '{';
    assert (p + Render(enc, Obj(true, One)) + "}")[|p|] == '[';
  }

  /** As written, the object and the array under `x` diff to nothing. */
  lemma BlindDiff(enc: Scalar -> string)
    ensures Diff(enc, false, ObjectUnderX, ArrayUnderX, []) == Ok([])
  {
    var inner, arr := Obj(false, One), Obj(true, One);
    var a, b := ObjectUnderX, ArrayUnderX;
    var none: seq<Operation> := [];
    assert KeysOf(One) == ["0"] && KeysOf(a.fields) == ["x"];
    assert Added(One, One) == [] && Added(a.fields, b.fields) == [];
    assert Additions([], ["x"]) == none && Additions([], []) == none;
    assert Changes(enc, false, Prim(Num(1)), Prim(Num(1)), ["x", "0"]) == Ok([]);
    assert Walked(enc, false, inner, arr, ["x"], 1) == Ok([]);
    assert Changes(enc, false, inner, arr, ["x"]) == Ok([]);
    assert Lookup(b.fields, "x") == Some(arr) && a.fields[0] == ("x", inner);
    assert KeyChanges(enc, false, a, b, [], 0) == Ok([]);
    assert Walked(enc, false, a, b, [], 1) == Ok([]);
  }

  /** Telling the kinds apart, the array under `x` replaces the object. */
  lemma KindedDiff(enc: Scalar -> string)
    ensures Diff(enc, true, ObjectUnderX, ArrayUnderX, []) == Ok([Set(["x"], Obj(true, One))])
  {
    var inner, arr := Obj(false, One), Obj(true, One);
    var a, b := ObjectUnderX, ArrayUnderX;
    var none: seq<Operation> := [];
    var root: Path := [];
    assert KeysOf(a.fields) == ["x"] && Added(a.fields, b.fields) == [] && Additions([], []) == none;
    assert Lookup(b.fields, "x") == Some(arr) && a.fields[0] == ("x", inner);
    assert root + ["x"] == ["x"];
    assert KeyChanges(enc, true, a, b, [], 0) == Ok([Set(["x"], arr)]);
    assert Walked(enc, true, a, b, [], 0) == Ok(none);
    assert none + [Set(["x"], arr)] == [Set(["x"], arr)];
    assert Walked(enc, true, a, b, [], 1) == Ok([Set(["x"], arr)]);
    assert Walked(enc, true, a, b, [], 1).value + Additions(Added(a.fields, b.fields), []) == [Set(["x"], arr)];
  }

  /** An object with one property renders as that property's key and value in braces. */
  lemma SingleFieldText(enc: Scalar -> string, k: Key, v: Val)
    ensures Render(enc, Obj(false, [(k, v)])) == "{" + enc(Str(k)) + ":" + Render(enc, v) + "}"
  {
    assert SortBy([(k, v)], FieldKey) == [(k, v)];
  }
}
