/**
 * The key-sorted canonical stringifier used as the leaf-equality fallback
 * of the raw-value diff (src/object/json.ts). The encoder of non-object
 * values (the built-in `JSON.stringify`) is a parameter.
 */
module Json {
  import opened Base
  import opened Keys
  import opened Seqs
  import opened Entries
  import opened Values

  function FieldKey(p: (Key, Val)): Key { p.0 }

  /** `parts.join(sep)`. */
  function Join(sep: string, parts: seq<string>): (r: string)
    ensures parts == [] ==> r == ""
    ensures |parts| == 1 ==> r == parts[0]
  {
    if parts == [] then ""
    else if |parts| == 1 then parts[0]
    else parts[0] + sep + Join(sep, parts[1..])
  }

  /**
   * `stringify`: every `null` in the value makes it throw (`Object.keys(null)`
   * is a TypeError); anything else renders as `Render` says.
   */
  function Stringify(enc: Scalar -> string, v: Val): (r: Result<string>)
    ensures r.Ok? <==> NullFree(v)
    ensures r.Err? ==> r.error == RuntimeTypeError
    ensures r.Ok? && v.Prim? ==> r.value == enc(v.scalar)
  {
    if NullFree(v) then Ok(Render(enc, v)) else Err(RuntimeTypeError)
  }

  /**
   * The rendering of a `null`-free value: a non-object goes to the scalar encoder; an array lists its
   * element encodings in position order, separated by ", "; an object lists
   * `key:value` pairs in sorted key order, separated by ","; a key, being a
   * string, is encoded by the scalar encoder.
   */
  function Render(enc: Scalar -> string, v: Val): (r: string)
    ensures v.Prim? ==> r == enc(v.scalar)
    ensures v.Obj? ==> |r| >= 2 && r[0] == (if v.isArray then '[' else '{')
    ensures v.Obj? ==> r[|r| - 1] == (if v.isArray then ']' else '}')
  {
    match v
    case Prim(s) => enc(s)
    case Obj(true, fields) =>
      "[" + Join(", ", seq(|fields|, i requires 0 <= i < |fields| => Render(enc, fields[i].1))) + "]"
    case Obj(false, fields) =>
      var sorted := SortBy(fields, FieldKey);
      "{" + Join(",", seq(|sorted|, i requires 0 <= i < |sorted| =>
        assert sorted[i] in multiset(fields);
        enc(Str(sorted[i].0)) + ":" + Render(enc, sorted[i].1))) + "}"
  }

  lemma UniqueFieldKeysDistinct(fields: seq<(Key, Val)>)
    requires UniqueKeys(fields)
    ensures DistinctKeys(fields, FieldKey)
  {
  }

  /**
   * Two plain objects holding the same key/value pairs, in whatever insertion
   * order, stringify identically.
   */
  lemma StringifyIgnoresInsertionOrder(enc: Scalar -> string, f1: seq<(Key, Val)>, f2: seq<(Key, Val)>)
    requires UniqueKeys(f1)
    requires multiset(f1) == multiset(f2)
    ensures Stringify(enc, Obj(false, f1)) == Stringify(enc, Obj(false, f2))
  {
    if NullFree(Obj(false, f1)) {
      NullFreeSameFields(f1, f2);
      RenderIgnoresInsertionOrder(enc, f1, f2);
    } else if NullFree(Obj(false, f2)) {
      NullFreeSameFields(f2, f1);
    }
  }

  lemma RenderIgnoresInsertionOrder(enc: Scalar -> string, f1: seq<(Key, Val)>, f2: seq<(Key, Val)>)
    requires UniqueKeys(f1)
    requires multiset(f1) == multiset(f2)
    ensures Render(enc, Obj(false, f1)) == Render(enc, Obj(false, f2))
  {
    UniqueFieldKeysDistinct(f1);
    SortByPermutation(f1, f2, FieldKey);
  }

  /** Whether an object holds a `null` depends only on the pairs it holds. */
  lemma NullFreeSameFields(f1: seq<(Key, Val)>, f2: seq<(Key, Val)>)
    requires multiset(f1) == multiset(f2)
    requires NullFree(Obj(false, f1))
    ensures NullFree(Obj(false, f2))
  {
    forall i | 0 <= i < |f2| ensures NullFree(f2[i].1) {
      assert f2[i] in multiset(f1);
      var j :| 0 <= j < |f1| && f1[j] == f2[i];
    }
  }

  /**
   * Two plain objects with the same keys, whose values under each key
   * render alike, render alike: the text sees keys and rendered values, not
   * insertion order or the values themselves.
   */
  lemma RenderSameByKey(enc: Scalar -> string, f1: seq<(Key, Val)>, f2: seq<(Key, Val)>)
    requires UniqueKeys(f1) && UniqueKeys(f2)
    requires forall k :: k in KeysOf(f1) <==> k in KeysOf(f2)
    requires forall i, j :: 0 <= i < |f1| && 0 <= j < |f2| && f1[i].0 == f2[j].0 ==>
      Render(enc, f1[i].1) == Render(enc, f2[j].1)
    ensures Render(enc, Obj(false, f1)) == Render(enc, Obj(false, f2))
  {
    var s1 := SortBy(f1, FieldKey);
    var s2 := SortBy(f2, FieldKey);
    UniqueFieldKeysDistinct(f1);
    UniqueFieldKeysDistinct(f2);
    SortBySorted(f1, FieldKey);
    SortBySorted(f2, FieldKey);
    SortedKeySet(f1);
    SortedKeySet(f2);
    assert KeySet(s1, FieldKey) == KeySet(s2, FieldKey);
    SortedSameKeys(s1, s2, FieldKey);
    forall i | 0 <= i < |s1| ensures Render(enc, s1[i].1) == Render(enc, s2[i].1) {
      var p := PermutedIndex(s1, f1, i);
      var q := PermutedIndex(s2, f2, i);
      assert f1[p].0 == FieldKey(s1[i]) == FieldKey(s2[i]) == f2[q].0;
    }
    var r1 := seq(|s1|, i requires 0 <= i < |s1| => enc(Str(s1[i].0)) + ":" + Render(enc, s1[i].1));
    var r2 := seq(|s2|, i requires 0 <= i < |s2| => enc(Str(s2[i].0)) + ":" + Render(enc, s2[i].1));
    assert r1 == r2;
  }

  /** Two arrays whose elements render alike, position by position, render alike. */
  lemma RenderSameByPosition(enc: Scalar -> string, f1: seq<(Key, Val)>, f2: seq<(Key, Val)>)
    requires |f1| == |f2| && forall i :: 0 <= i < |f1| ==> Render(enc, f1[i].1) == Render(enc, f2[i].1)
    ensures Render(enc, Obj(true, f1)) == Render(enc, Obj(true, f2))
  {
    var r1 := seq(|f1|, i requires 0 <= i < |f1| => Render(enc, f1[i].1));
    var r2 := seq(|f2|, i requires 0 <= i < |f2| => Render(enc, f2[i].1));
    assert r1 == r2;
  }

  /** Sorting keeps the keys. */
  lemma SortedKeySet(f: seq<(Key, Val)>)
    ensures forall k :: k in KeySet(SortBy(f, FieldKey), FieldKey) <==> k in KeysOf(f)
  {
    var s := SortBy(f, FieldKey);
    forall k | k in KeySet(s, FieldKey) ensures k in KeysOf(f) {
      var i :| 0 <= i < |s| && FieldKey(s[i]) == k;
      var p := PermutedIndex(s, f, i);
      assert KeysOf(f)[p] == k;
    }
    forall k | k in KeysOf(f) ensures k in KeySet(s, FieldKey) {
      KeysOfMember(f, k);
      var p :| 0 <= p < |f| && f[p].0 == k;
      var i := PermutedIndex(f, s, p);
      assert FieldKey(s[i]) == k;
    }
  }
}
