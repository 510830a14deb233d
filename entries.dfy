/**
 * Insertion-ordered key/value entries: the semantics of a JavaScript `Map`
 * (the children of a tree node) and of the own properties of a plain object.
 * Setting an existing key keeps its position, setting a new key appends it,
 * and deleting a key removes it and keeps the others in order.
 */
module Entries {
  import opened Base
  import opened Keys
  import opened Seqs

  /** The keys of `s`, in order. */
  function KeysOf<T>(s: seq<(Key, T)>): (ks: seq<Key>)
    ensures |ks| == |s|
    ensures forall i :: 0 <= i < |s| ==> ks[i] == s[i].0
  {
    if s == [] then [] else [s[0].0] + KeysOf(s[1..])
  }

  /** No key occurs twice: the invariant of every Map and object. */
  ghost predicate UniqueKeys<T>(s: seq<(Key, T)>) {
    forall i, j :: 0 <= i < j < |s| ==> s[i].0 != s[j].0
  }

  /** `map.get(k)`: the value stored under `k`, if any. */
  function Lookup<T>(s: seq<(Key, T)>, k: Key): (r: Option<T>)
    ensures r.Some? <==> k in KeysOf(s)
    ensures r.Some? ==> (k, r.value) in s
  {
    if s == [] then None
    else if s[0].0 == k then Some(s[0].1)
    else Lookup(s[1..], k)
  }

  lemma {:induction false} LookupAt<T>(s: seq<(Key, T)>, i: nat)
    requires UniqueKeys(s) && i < |s|
    ensures Lookup(s, s[i].0) == Some(s[i].1)
  {
    if i > 0 {
      assert s[0].0 != s[i].0;
      LookupAt(s[1..], i - 1);
    }
  }

  /** Without its head, a map keeps unique keys and no longer holds the head's key. */
  lemma UniqueTail<T>(s: seq<(Key, T)>)
    requires UniqueKeys(s) && s != []
    ensures UniqueKeys(s[1..]) && s[0].0 !in KeysOf(s[1..])
  {
    var t := s[1..];
    forall x, y | 0 <= x < y < |t| ensures t[x].0 != t[y].0 {
      assert t[x] == s[x + 1] && t[y] == s[y + 1];
    }
    forall j | 0 <= j < |t| ensures KeysOf(t)[j] != s[0].0 {
      assert t[j] == s[j + 1];
    }
  }

  /** Without its last entry, a map keeps unique keys and no longer holds that entry's key. */
  lemma UniqueInit<T>(s: seq<(Key, T)>)
    requires UniqueKeys(s) && s != []
    ensures UniqueKeys(s[..|s| - 1]) && s[|s| - 1].0 !in KeysOf(s[..|s| - 1])
  {
    var t := s[..|s| - 1];
    forall x, y | 0 <= x < y < |t| ensures t[x].0 != t[y].0 {
      assert t[x] == s[x] && t[y] == s[y];
    }
    forall j | 0 <= j < |t| ensures KeysOf(t)[j] != s[|s| - 1].0 {
      assert t[j] == s[j];
    }
  }

  /** `map.set(k, v)`: overwrite in place, or append a new key. */
  function Put<T>(s: seq<(Key, T)>, k: Key, v: T): (r: seq<(Key, T)>)
    ensures k in KeysOf(s) ==> KeysOf(r) == KeysOf(s)
    ensures k !in KeysOf(s) ==> r == s + [(k, v)]
  {
    if s == [] then [(k, v)]
    else if s[0].0 == k then [(k, v)] + s[1..]
    else
      assert k !in KeysOf(s) ==> s == [s[0]] + s[1..];
      [s[0]] + Put(s[1..], k, v)
  }

  /** After `set`, `k` maps to `v` and every other key to what it did before. */
  lemma {:induction false} PutLookup<T>(s: seq<(Key, T)>, k: Key, v: T, k': Key)
    ensures Lookup(Put(s, k, v), k') == if k' == k then Some(v) else Lookup(s, k')
  {
    if s != [] && s[0].0 != k {
      PutLookup(s[1..], k, v, k');
    }
  }

  lemma {:induction false} PutUnique<T>(s: seq<(Key, T)>, k: Key, v: T)
    requires UniqueKeys(s)
    ensures UniqueKeys(Put(s, k, v))
  {
    var r := Put(s, k, v);
    if k in KeysOf(s) {
      assert KeysOf(r) == KeysOf(s);
      forall i, j | 0 <= i < j < |r| ensures r[i].0 != r[j].0 {
        assert KeysOf(r)[i] == KeysOf(s)[i] && KeysOf(r)[j] == KeysOf(s)[j];
      }
    } else {
      assert r == s + [(k, v)];
    }
  }

  /** `map.delete(k)`: remove the key, keep every other entry in order. */
  function Delete<T>(s: seq<(Key, T)>, k: Key): (r: seq<(Key, T)>)
    ensures k !in KeysOf(r)
    ensures k !in KeysOf(s) ==> r == s
  {
    if s == [] then []
    else if s[0].0 == k then Delete(s[1..], k)
    else
      var t := Delete(s[1..], k);
      assert KeysOf([s[0]] + t) == [s[0].0] + KeysOf(t);
      assert k !in KeysOf(s) ==> s == [s[0]] + s[1..];
      [s[0]] + t
  }

  /** After `delete`, every other key maps to what it did before. */
  lemma {:induction false} DeleteLookup<T>(s: seq<(Key, T)>, k: Key, k': Key)
    requires k' != k
    ensures Lookup(Delete(s, k), k') == Lookup(s, k')
  {
    if s != [] {
      DeleteLookup(s[1..], k, k');
    }
  }

  /** With unique keys, deleting the key at position `i` cuts out exactly that entry. */
  lemma {:induction false} DeleteAt<T>(s: seq<(Key, T)>, i: nat)
    requires UniqueKeys(s) && i < |s|
    ensures Delete(s, s[i].0) == s[..i] + s[i + 1..]
  {
    UniqueTail(s);
    if i == 0 {
      DeleteHead(s);
    } else {
      assert s[1..][i - 1] == s[i];
      DeleteAt(s[1..], i - 1);
      DeleteCons(s, i, s[i].0);
    }
  }

  lemma DeleteHead<T>(s: seq<(Key, T)>)
    requires s != [] && s[0].0 !in KeysOf(s[1..])
    ensures Delete(s, s[0].0) == s[..0] + s[0 + 1..]
  {
    HeadSlices(s, s[0]);
  }

  lemma DeleteCons<T>(s: seq<(Key, T)>, i: nat, k: Key)
    requires 0 < i < |s| && s[0].0 != k
    requires Delete(s[1..], k) == s[1..][..i - 1] + s[1..][i..]
    ensures Delete(s, k) == s[..i] + s[i + 1..]
  {
    var t := s[1..];
    TailSlices(s, i);
    ConsAssoc2(s[0], t[..i - 1], t[i..]);
  }

  lemma {:induction false} DeleteUnique<T>(s: seq<(Key, T)>, k: Key)
    requires UniqueKeys(s)
    ensures UniqueKeys(Delete(s, k))
  {
    if s != [] {
      DeleteUnique(s[1..], k);
      if s[0].0 != k {
        var t := Delete(s[1..], k);
        assert s[0].0 !in KeysOf(s[1..]) by {
          forall j | 0 <= j < |s[1..]| ensures s[1..][j].0 != s[0].0 {
            assert s[j + 1].0 != s[0].0;
          }
        }
        DeleteLookup(s[1..], k, s[0].0);
        assert s[0].0 !in KeysOf(t);
        var r := [s[0]] + t;
        forall a, b | 0 <= a < b < |r| ensures r[a].0 != r[b].0 {
          if a == 0 {
            assert r[b].0 == KeysOf(t)[b - 1];
          }
        }
      }
    }
  }

  /** Setting each pair of `s` in turn into an empty map (`new Map(s)`, or a loop of `set`s). */
  function PutAll<T>(s: seq<(Key, T)>): (r: seq<(Key, T)>)
  {
    if s == [] then [] else Put(PutAll(s[..|s| - 1]), s[|s| - 1].0, s[|s| - 1].1)
  }

  /** Without repeated keys, every `set` appends: the map holds `s` in order. */
  lemma {:induction false} PutAllUnique<T>(s: seq<(Key, T)>)
    requires UniqueKeys(s)
    ensures PutAll(s) == s
  {
    if s != [] {
      UniqueInit(s);
      PutAllUnique(s[..|s| - 1]);
      PutAllSnoc(s);
    }
  }

  lemma PutAllSnoc<T>(s: seq<(Key, T)>)
    requires s != [] && s[|s| - 1].0 !in KeysOf(s[..|s| - 1])
    requires PutAll(s[..|s| - 1]) == s[..|s| - 1]
    ensures PutAll(s) == s
  {
    var init, last := s[..|s| - 1], s[|s| - 1];
    SplitLast(s);
    assert PutAll(s) == Put(init, last.0, last.1);
  }


  /** Whatever `s` repeats, the map has unique keys and holds only pairs of `s`. */
  lemma {:induction false} PutAllFrom<T>(s: seq<(Key, T)>)
    ensures UniqueKeys(PutAll(s))
    ensures forall p :: p in PutAll(s) ==> p in s
  {
    if s != [] {
      var init := s[..|s| - 1];
      var last := s[|s| - 1];
      PutAllFrom(init);
      PutUnique(PutAll(init), last.0, last.1);
      PutFrom(PutAll(init), last.0, last.1);
      assert forall p :: p in init ==> p in s;
    }
  }

  /** The pairs after `set` are the old ones and the new one. */
  lemma {:induction false} PutFrom<T>(s: seq<(Key, T)>, k: Key, v: T)
    ensures forall p :: p in Put(s, k, v) ==> p in s || p == (k, v)
  {
    if s != [] && s[0].0 != k {
      PutFrom(s[1..], k, v);
    }
  }

  /** The keys of a concatenation are the keys of its parts. */
  lemma {:induction false} KeysOfAppend<T>(s: seq<(Key, T)>, t: seq<(Key, T)>)
    ensures KeysOf(s + t) == KeysOf(s) + KeysOf(t)
  {
    var l := KeysOf(s + t);
    var r := KeysOf(s) + KeysOf(t);
    assert |l| == |r|;
    forall i | 0 <= i < |l| ensures l[i] == r[i] {
      if i < |s| {
        assert (s + t)[i] == s[i];
      } else {
        assert (s + t)[i] == t[i - |s|];
      }
    }
  }

  /** A key is present exactly when some entry carries it. */
  lemma KeysOfMember<T>(s: seq<(Key, T)>, k: Key)
    ensures k in KeysOf(s) <==> exists i :: 0 <= i < |s| && s[i].0 == k
  {
    if k in KeysOf(s) {
      var i :| 0 <= i < |KeysOf(s)| && KeysOf(s)[i] == k;
      assert s[i].0 == k;
    }
    if exists i :: 0 <= i < |s| && s[i].0 == k {
      var i :| 0 <= i < |s| && s[i].0 == k;
      assert KeysOf(s)[i] == k;
    }
  }

  /** With unique keys, setting the key at position `i` replaces that entry where it stands. */
  lemma {:induction false} PutAt<T>(s: seq<(Key, T)>, i: nat, v: T)
    requires UniqueKeys(s) && i < |s|
    ensures Put(s, s[i].0, v) == s[..i] + [(s[i].0, v)] + s[i + 1..]
  {
    if i == 0 {
      HeadSlices(s, (s[0].0, v));
    } else {
      UniqueTail(s);
      ghost var j := i - 1;
      assert s[1..][j] == s[i];
      PutAt(s[1..], j, v);
      PutCons(s, i, j, s[i].0, v);
    }
  }

  lemma PutCons<T>(s: seq<(Key, T)>, i: nat, j: nat, k: Key, v: T)
    requires i == j + 1 && i < |s| && s[0].0 != k
    requires Put(s[1..], k, v) == s[1..][..j] + [(k, v)] + s[1..][j + 1..]
    ensures Put(s, k, v) == s[..i] + [(k, v)] + s[i + 1..]
  {
    var t := s[1..];
    TailSlices(s, i);
    ConsAssoc(s[0], t[..i - 1], [(k, v)], t[i..]);
  }

  /** No key of `s` is a key of `t`. */
  ghost predicate Disjoint<T, U>(s: seq<(Key, T)>, t: seq<(Key, U)>) {
    forall i, j :: 0 <= i < |s| && 0 <= j < |t| ==> s[i].0 != t[j].0
  }

  lemma UniqueAppend<T>(s: seq<(Key, T)>, t: seq<(Key, T)>)
    requires UniqueKeys(s) && UniqueKeys(t) && Disjoint(s, t)
    ensures UniqueKeys(s + t)
  {
    var u := s + t;
    forall i, j | 0 <= i < j < |u| ensures u[i].0 != u[j].0 {
      if j < |s| {
        assert u[i] == s[i] && u[j] == s[j];
      } else if i < |s| {
        assert u[i] == s[i] && u[j] == t[j - |s|];
      } else {
        assert u[i] == t[i - |s|] && u[j] == t[j - |s|];
      }
    }
  }

  lemma UniqueSplit<T>(s: seq<(Key, T)>, i: nat)
    requires UniqueKeys(s) && i <= |s|
    ensures UniqueKeys(s[..i]) && UniqueKeys(s[i..]) && Disjoint(s[..i], s[i..])
  {
    forall x, y | 0 <= x < |s[..i]| && 0 <= y < |s[i..]| ensures s[..i][x].0 != s[i..][y].0 {
      assert s[..i][x] == s[x] && s[i..][y] == s[i + y];
    }
    forall x, y | 0 <= x < y < |s[i..]| ensures s[i..][x].0 != s[i..][y].0 {
      assert s[i..][x] == s[i + x] && s[i..][y] == s[i + y];
    }
  }

  /** Moving the first key of `t` to the end of `s` keeps them apart. */
  lemma DisjointShift<T>(s: seq<(Key, T)>, t: seq<(Key, T)>, v: T)
    requires t != [] && UniqueKeys(t) && Disjoint(s, t)
    ensures UniqueKeys(t[1..]) && Disjoint(s + [(t[0].0, v)], t[1..])
  {
    var s' := s + [(t[0].0, v)];
    var t' := t[1..];
    forall x, y | 0 <= x < y < |t'| ensures t'[x].0 != t'[y].0 {
      assert t'[x] == t[x + 1] && t'[y] == t[y + 1];
    }
    forall x, y | 0 <= x < |s'| && 0 <= y < |t'| ensures s'[x].0 != t'[y].0 {
      assert t'[y] == t[y + 1];
      if x < |s| {
        assert s'[x] == s[x];
      }
    }
  }

  /** A part of `s` keeps apart from whatever `s` keeps apart from. */
  lemma DisjointPart<T, U>(s: seq<(Key, T)>, part: seq<(Key, T)>, t: seq<(Key, U)>)
    requires Disjoint(s, t) && forall e :: e in part ==> e in s
    ensures Disjoint(part, t)
  {
    forall x, y | 0 <= x < |part| && 0 <= y < |t| ensures part[x].0 != t[y].0 {
      assert part[x] in part;
      var m :| 0 <= m < |s| && s[m] == part[x];
    }
  }

  /** Entries with the same keys, position by position, share uniqueness and disjointness. */
  lemma SameKeys<T, U, V>(r: seq<(Key, T)>, s: seq<(Key, U)>, t: seq<(Key, V)>)
    requires |r| == |s| && forall j :: 0 <= j < |r| ==> r[j].0 == s[j].0
    ensures UniqueKeys(s) ==> UniqueKeys(r)
    ensures Disjoint(s, t) ==> Disjoint(r, t)
  {
  }

  /** The entries of `s` whose key `t` also has, in the order of `s`. */
  function Common<T, U>(s: seq<(Key, T)>, t: seq<(Key, U)>): (r: seq<(Key, T)>)
    ensures forall e :: e in r ==> e in s && e.0 in KeysOf(t)
    ensures forall e :: e in s && e.0 in KeysOf(t) ==> e in r
  {
    if s == [] then []
    else
      assert s == s[..|s| - 1] + [s[|s| - 1]];
      Common(s[..|s| - 1], t) + (if s[|s| - 1].0 in KeysOf(t) then [s[|s| - 1]] else [])
  }

  lemma {:induction false} CommonUnique<T, U>(s: seq<(Key, T)>, t: seq<(Key, U)>)
    requires UniqueKeys(s)
    ensures UniqueKeys(Common(s, t))
  {
    if s != [] {
      var init := s[..|s| - 1];
      var last := if s[|s| - 1].0 in KeysOf(t) then [s[|s| - 1]] else [];
      UniqueSplit(s, |s| - 1);
      CommonUnique(init, t);
      DisjointPart(init, Common(init, t), s[|s| - 1..]);
      assert s[|s| - 1..] == [s[|s| - 1]];
      DisjointPart(s[|s| - 1..], last, Common(init, t));
      assert Disjoint(Common(init, t), last);
      UniqueAppend(Common(init, t), last);
    }
  }

  /** The entry under `k` in the middle of unique-keyed entries: found, replaced or cut out where it stands. */
  lemma PutMiddle<T>(s: seq<(Key, T)>, k: Key, x: T, t: seq<(Key, T)>, v: T)
    requires UniqueKeys(s + [(k, x)] + t)
    ensures Lookup(s + [(k, x)] + t, k) == Some(x)
    ensures Put(s + [(k, x)] + t, k, v) == s + [(k, v)] + t
    ensures Delete(s + [(k, x)] + t, k) == s + t
  {
    var u := s + [(k, x)] + t;
    var j := |s|;
    assert u[j] == (k, x);
    LookupAt(u, j);
    PutAt(u, j, v);
    DeleteAt(u, j);
    assert u[..j] == s && u[j + 1..] == t;
  }

  /** Setting a key twice keeps only the second value. */
  lemma {:induction false} PutPutSameKey<T>(s: seq<(Key, T)>, k: Key, v1: T, v2: T)
    requires k in KeysOf(s)
    ensures Put(Put(s, k, v1), k, v2) == Put(s, k, v2)
  {
    if s[0].0 != k {
      PutPutSameKey(s[1..], k, v1, v2);
    }
  }

  /** Setting a key to the value it already has changes nothing. */
  lemma {:induction false} PutSame<T>(s: seq<(Key, T)>, k: Key)
    requires Lookup(s, k).Some?
    ensures Put(s, k, Lookup(s, k).value) == s
  {
    SplitFirst(s);
    if s[0].0 != k {
      PutSame(s[1..], k);
    }
  }

  /**
   * The entries of `b` whose key `a` lacks, in `b`'s order: what is left of
   * `Object.entries(b)` once every key of `a` that `b` has is filtered out.
   */
  function Added<T, U>(a: seq<(Key, T)>, b: seq<(Key, U)>): (r: seq<(Key, U)>)
    ensures forall e :: e in r ==> e in b && e.0 !in KeysOf(a)
    ensures forall e :: e in b && e.0 !in KeysOf(a) ==> e in r
  {
    if b == [] then []
    else (if b[0].0 in KeysOf(a) then [] else [b[0]]) + Added(a, b[1..])
  }

  /** A key is a key of the added entries exactly when `b` has it and `a` does not. */
  lemma AddedKeys<T, U>(a: seq<(Key, T)>, b: seq<(Key, U)>)
    ensures forall k :: k in KeysOf(Added(a, b)) <==> k in KeysOf(b) && k !in KeysOf(a)
  {
    var add := Added(a, b);
    forall k ensures k in KeysOf(add) <==> k in KeysOf(b) && k !in KeysOf(a) {
      KeysOfMember(add, k);
      KeysOfMember(b, k);
      if k in KeysOf(b) && k !in KeysOf(a) {
        var i :| 0 <= i < |b| && b[i].0 == k;
        assert b[i] in b;
      }
      if k in KeysOf(add) {
        var i :| 0 <= i < |add| && add[i].0 == k;
        assert add[i] in add;
      }
    }
  }

  /** The added entries are a part of `b`, so their keys are distinct and none is a key of `a`. */
  lemma {:induction false} AddedUnique<T, U>(a: seq<(Key, T)>, b: seq<(Key, U)>)
    requires UniqueKeys(b)
    ensures UniqueKeys(Added(a, b))
    ensures forall j :: 0 <= j < |Added(a, b)| ==> Added(a, b)[j].0 !in KeysOf(a)
  {
    if b != [] {
      var t := b[1..];
      UniqueSplit(b, 1);
      AddedUnique(a, t);
      var rest := Added(a, t);
      var head: seq<(Key, U)> := if b[0].0 in KeysOf(a) then [] else [b[0]];
      assert Added(a, b) == head + rest;
      assert b[..1] == [b[0]];
      DisjointPart(b[..1], head, t);
      DisjointPart(t, rest, head);
      UniqueAppend(head, rest);
      forall j | 0 <= j < |head + rest| ensures (head + rest)[j].0 !in KeysOf(a) {
        assert (head + rest)[j] in head + rest;
      }
    }
  }

  /** With distinct keys, a pair present is what a lookup of its key finds. */
  lemma LookupMember<T>(s: seq<(Key, T)>, e: (Key, T))
    requires UniqueKeys(s) && e in s
    ensures Lookup(s, e.0) == Some(e.1)
  {
    var i :| 0 <= i < |s| && s[i] == e;
    LookupAt(s, i);
  }

  /** When `a` has every key of `b`, nothing is added. */
  lemma AddedCovered<T, U>(a: seq<(Key, T)>, b: seq<(Key, U)>)
    requires forall j :: 0 <= j < |b| ==> b[j].0 in KeysOf(a)
    ensures Added(a, b) == []
  {
  }

  /** A key both `a` and `b` have is the key of some common entry. */
  lemma CommonKey<T, U>(a: seq<(Key, T)>, b: seq<(Key, U)>, k: Key)
    requires k in KeysOf(a) && k in KeysOf(b)
    ensures exists x :: 0 <= x < |Common(a, b)| && Common(a, b)[x].0 == k
  {
    KeysOfMember(a, k);
    var m :| 0 <= m < |a| && a[m].0 == k;
    assert a[m] in a;
    var common := Common(a, b);
    assert a[m] in common;
    var x :| 0 <= x < |common| && common[x] == a[m];
  }

  /** A key of `b` is a key of the common part of `a` or of what `b` adds. */
  lemma CoverKey<T, U>(a: seq<(Key, T)>, b: seq<(Key, U)>, kept: seq<(Key, U)>, e: (Key, U))
    requires |kept| == |Common(a, b)| && forall j :: 0 <= j < |kept| ==> kept[j].0 == Common(a, b)[j].0
    requires e in b
    ensures e.0 in KeysOf(kept) + KeysOf(Added(a, b))
  {
    if e.0 in KeysOf(a) {
      var j :| 0 <= j < |b| && b[j] == e;
      assert KeysOf(b)[j] == e.0;
      CommonKey(a, b, e.0);
      var x :| 0 <= x < |Common(a, b)| && Common(a, b)[x].0 == e.0;
      assert KeysOf(kept)[x] == e.0;
    } else {
      var add := Added(a, b);
      var y :| 0 <= y < |add| && add[y] == e;
      assert KeysOf(add)[y] == e.0;
    }
  }

  /**
   * Entries keyed like the common part of `a`, followed by what `b` adds,
   * carry every key of `b`.
   */
  lemma CommonAddedCover<T, U>(a: seq<(Key, T)>, b: seq<(Key, U)>, kept: seq<(Key, U)>)
    requires |kept| == |Common(a, b)| && forall j :: 0 <= j < |kept| ==> kept[j].0 == Common(a, b)[j].0
    ensures forall j :: 0 <= j < |b| ==> b[j].0 in KeysOf(kept + Added(a, b))
  {
    KeysOfAppend(kept, Added(a, b));
    forall j | 0 <= j < |b| ensures b[j].0 in KeysOf(kept) + KeysOf(Added(a, b)) {
      CoverKey(a, b, kept, b[j]);
    }
  }

  /** When `t` has every key of `s`, the common part of `s` is all of `s`. */
  lemma {:induction false} CommonAll<T, U>(s: seq<(Key, T)>, t: seq<(Key, U)>)
    requires forall i :: 0 <= i < |s| ==> s[i].0 in KeysOf(t)
    ensures Common(s, t) == s
  {
    if s != [] {
      var init, last := s[..|s| - 1], s[|s| - 1];
      forall i | 0 <= i < |init| ensures init[i].0 in KeysOf(t) {
        assert init[i] == s[i];
      }
      CommonAll(init, t);
      CommonSnoc(init, t, last);
      assert init + [last] == s;
    }
  }

  /** Extending `s` by one entry extends its common part by that entry exactly when `t` has its key. */
  lemma CommonSnoc<T, U>(s: seq<(Key, T)>, t: seq<(Key, U)>, x: (Key, T))
    ensures Common(s + [x], t) == Common(s, t) + (if x.0 in KeysOf(t) then [x] else [])
  {
    var u := s + [x];
    assert u[..|u| - 1] == s && u[|u| - 1] == x;
  }

  /** When `a` has none of the keys of `t`, all of `t` is added. */
  lemma {:induction false} AddedAll<T, U>(a: seq<(Key, T)>, t: seq<(Key, U)>)
    requires forall i :: 0 <= i < |t| ==> t[i].0 !in KeysOf(a)
    ensures Added(a, t) == t
  {
    if t != [] {
      AddedAll(a, t[1..]);
      assert t == [t[0]] + t[1..];
    }
  }

  /** Entries of `b` whose keys `a` has add nothing. */
  lemma {:induction false} AddedPast<T, U>(a: seq<(Key, T)>, b: seq<(Key, U)>, n: nat)
    requires n <= |b| && forall i :: 0 <= i < n ==> b[i].0 in KeysOf(a)
    ensures Added(a, b) == Added(a, b[n..])
  {
    if n > 0 {
      AddedPast(a, b[1..], n - 1);
      assert b[1..][n - 1..] == b[n..];
    }
  }

  /**
   * When `b` starts with the keys of `a`, in `a`'s order, all of `a` is
   * common and what `b` adds is the rest of `b`.
   */
  lemma ExtendedKeys<T, U>(a: seq<(Key, T)>, b: seq<(Key, U)>)
    requires UniqueKeys(b) && |a| <= |b| && forall i :: 0 <= i < |a| ==> a[i].0 == b[i].0
    ensures Common(a, b) == a && Added(a, b) == b[|a|..]
  {
    forall i | 0 <= i < |a| ensures a[i].0 in KeysOf(b) {
      assert KeysOf(b)[i] == a[i].0;
    }
    CommonAll(a, b);
    forall i | 0 <= i < |a| ensures b[i].0 in KeysOf(a) {
      assert KeysOf(a)[i] == b[i].0;
    }
    AddedPast(a, b, |a|);
    var rest := b[|a|..];
    forall i | 0 <= i < |rest| ensures rest[i].0 !in KeysOf(a) {
      assert rest[i] == b[|a| + i];
      forall m | 0 <= m < |a| ensures a[m].0 != rest[i].0 {
        assert a[m].0 == b[m].0;
      }
      KeysOfMember(a, rest[i].0);
    }
    AddedAll(a, rest);
  }
}
