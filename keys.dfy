/**
 * Keys, paths, the string order used wherever keys are sorted, and the
 * sort itself. JavaScript compares strings code unit by code unit; here a
 * key is a sequence of characters compared character by character.
 */
module Keys {
  import opened Seqs

  /** A key of an ordered map or of an object property (string keys only). */
  type Key = string

  /** An absolute path: the keys from the root to a node; `[]` is the root. */
  type Path = seq<Key>

  /** Strict lexicographic order on keys: the `<` of JavaScript strings. */
  predicate KeyLess(a: Key, b: Key)
    decreases |a|
  {
    if |a| == 0 then |b| > 0
    else if |b| == 0 then false
    else if a[0] != b[0] then a[0] < b[0]
    else KeyLess(a[1..], b[1..])
  }

  lemma {:induction false} KeyLessIrreflexive(a: Key)
    ensures !KeyLess(a, a)
    decreases |a|
  {
    if |a| > 0 {
      KeyLessIrreflexive(a[1..]);
    }
  }

  lemma {:induction false} KeyLessTransitive(a: Key, b: Key, c: Key)
    requires KeyLess(a, b) && KeyLess(b, c)
    ensures KeyLess(a, c)
    decreases |a|
  {
    if |a| > 0 && a[0] == b[0] && b[0] == c[0] {
      KeyLessTransitive(a[1..], b[1..], c[1..]);
    }
  }

  lemma {:induction false} KeyLessTotal(a: Key, b: Key)
    requires a != b
    ensures KeyLess(a, b) || KeyLess(b, a)
    decreases |a|
  {
    if |a| > 0 && |b| > 0 && a[0] == b[0] {
      assert a == [a[0]] + a[1..] && b == [b[0]] + b[1..];
      KeyLessTotal(a[1..], b[1..]);
    }
  }

  lemma {:induction false} KeyLessAsymmetric(a: Key, b: Key)
    requires KeyLess(a, b)
    ensures !KeyLess(b, a)
  {
    if KeyLess(b, a) {
      KeyLessTransitive(a, b, a);
      KeyLessIrreflexive(a);
    }
  }

  /** `s` is strictly increasing under `key`, so no key occurs twice. */
  ghost predicate StrictlySorted<T>(s: seq<T>, key: T -> Key) {
    forall i, j :: 0 <= i < j < |s| ==> KeyLess(key(s[i]), key(s[j]))
  }

  /** Inserts `x` before the first element whose key is not smaller. */
  function Insert<T>(x: T, s: seq<T>, key: T -> Key): (r: seq<T>)
    ensures multiset(r) == multiset(s) + multiset{x}
    ensures |r| == |s| + 1
  {
    if s == [] || !KeyLess(key(s[0]), key(x)) then [x] + s
    else
      assert s == [s[0]] + s[1..];
      [s[0]] + Insert(x, s[1..], key)
  }

  /**
   * The order `Array.prototype.sort` gives with a comparator that puts the
   * smaller key first, when keys are distinct, computed by insertion sort.
   */
  function SortBy<T>(s: seq<T>, key: T -> Key): (r: seq<T>)
    ensures multiset(r) == multiset(s)
    ensures |r| == |s|
  {
    if s == [] then []
    else
      assert s == [s[0]] + s[1..];
      Insert(s[0], SortBy(s[1..], key), key)
  }

  /** Distinct keys: no two positions of `s` share a key. */
  ghost predicate DistinctKeys<T>(s: seq<T>, key: T -> Key) {
    forall i, j :: 0 <= i < j < |s| ==> key(s[i]) != key(s[j])
  }

  lemma {:induction false} InsertSorted<T>(x: T, s: seq<T>, key: T -> Key)
    requires StrictlySorted(s, key)
    requires forall i :: 0 <= i < |s| ==> key(s[i]) != key(x)
    ensures StrictlySorted(Insert(x, s, key), key)
    decreases |s|
  {
    if s == [] || !KeyLess(key(s[0]), key(x)) {
      var r := [x] + s;
      if s != [] {
        KeyLessTotal(key(x), key(s[0]));
      }
      forall i, j | 0 <= i < j < |r| ensures KeyLess(key(r[i]), key(r[j])) {
        if i == 0 && j > 1 {
          KeyLessTransitive(key(x), key(s[0]), key(s[j - 1]));
        }
      }
    } else {
      var t := Insert(x, s[1..], key);
      InsertSorted(x, s[1..], key);
      var r := [s[0]] + t;
      forall j | 0 <= j < |t| ensures KeyLess(key(s[0]), key(t[j])) {
        assert t[j] in multiset(t);
        assert t[j] in multiset(s[1..]) + multiset{x};
        if t[j] != x {
          assert t[j] in s[1..];
          var m :| 0 <= m < |s[1..]| && s[1..][m] == t[j];
          assert s[m + 1] == t[j];
        }
      }
    }
  }

  lemma {:induction false} SortBySorted<T>(s: seq<T>, key: T -> Key)
    requires DistinctKeys(s, key)
    ensures StrictlySorted(SortBy(s, key), key)
    decreases |s|
  {
    if s != [] {
      var t := SortBy(s[1..], key);
      SortBySorted(s[1..], key);
      forall i | 0 <= i < |t| ensures key(t[i]) != key(s[0]) {
        assert t[i] in multiset(t);
        assert t[i] in s[1..];
        var m :| 0 <= m < |s[1..]| && s[1..][m] == t[i];
        assert s[m + 1] == t[i];
      }
      InsertSorted(s[0], t, key);
    }
  }

  /** The head of a strictly sorted sequence has the least key. */
  lemma HeadLeast<T>(s: seq<T>, key: T -> Key, x: T)
    requires StrictlySorted(s, key) && x in s && x != s[0]
    ensures KeyLess(key(s[0]), key(x))
  {
    var i :| 0 <= i < |s| && s[i] == x;
  }

  /** Dropping the head of a sequence drops it from the multiset too. */
  lemma DropHead<T>(a: seq<T>)
    requires a != []
    ensures multiset(a[1..]) == multiset(a) - multiset{a[0]}
  {
    assert a == [a[0]] + a[1..];
  }

  lemma SortedTail<T>(a: seq<T>, key: T -> Key)
    requires StrictlySorted(a, key) && a != []
    ensures StrictlySorted(a[1..], key)
  {
    forall i, j | 0 <= i < j < |a[1..]| ensures KeyLess(key(a[1..][i]), key(a[1..][j])) {
      assert a[1..][i] == a[i + 1] && a[1..][j] == a[j + 1];
    }
  }

  /** Two strictly sorted non-empty sequences holding the same elements start alike. */
  lemma SameHead<T>(a: seq<T>, b: seq<T>, key: T -> Key)
    requires StrictlySorted(a, key) && StrictlySorted(b, key)
    requires multiset(a) == multiset(b) && a != [] && b != []
    ensures a[0] == b[0]
  {
    assert a[0] in multiset(a) && b[0] in multiset(b);
    if a[0] != b[0] {
      HeadLeast(a, key, b[0]);
      HeadLeast(b, key, a[0]);
      KeyLessAsymmetric(key(a[0]), key(b[0]));
      assert false;
    }
  }

  /** Two strictly sorted sequences holding the same elements are equal. */
  lemma {:induction false} SortedUnique<T>(a: seq<T>, b: seq<T>, key: T -> Key)
    requires StrictlySorted(a, key) && StrictlySorted(b, key)
    requires multiset(a) == multiset(b)
    ensures a == b
    decreases |a|
  {
    assert |b| == |a| by {
      assert |multiset(a)| == |a| && |multiset(b)| == |b|;
    }
    if a != [] {
      SameHead(a, b, key);
      DropHead(a);
      DropHead(b);
      SortedTail(a, key);
      SortedTail(b, key);
      SortedUnique(a[1..], b[1..], key);
      assert a == [a[0]] + a[1..] && b == [b[0]] + b[1..];
    }
  }

  /** A sorted sequence of distinct keys sorts to itself. */
  lemma SortBySortedIsIdentity<T>(s: seq<T>, key: T -> Key)
    requires StrictlySorted(s, key)
    ensures SortBy(s, key) == s
  {
    SortedDistinct(s, key);
    SortBySorted(s, key);
    SortedUnique(SortBy(s, key), s, key);
  }

  /**
   * Two strictly sorted sequences with the same elements are equal, however
   * those elements were gathered.
   */
  lemma SortedSameElements<T>(a: seq<T>, b: seq<T>, key: T -> Key)
    requires StrictlySorted(a, key) && StrictlySorted(b, key)
    requires forall x :: x in a <==> x in b
    ensures a == b
  {
    SortedDistinct(a, key);
    SortedDistinct(b, key);
    forall x ensures multiset(a)[x] == multiset(b)[x] {
      DistinctKeysOnce(a, key, x);
      DistinctKeysOnce(b, key, x);
      assert x in a <==> x in b;
    }
    assert multiset(a) == multiset(b);
    SortedUnique(a, b, key);
  }

  /** Strictly sorted keys are distinct keys. */
  lemma SortedDistinct<T>(s: seq<T>, key: T -> Key)
    requires StrictlySorted(s, key)
    ensures DistinctKeys(s, key)
  {
    forall i, j | 0 <= i < j < |s| ensures key(s[i]) != key(s[j]) {
      KeyLessIrreflexive(key(s[i]));
    }
  }

  /** With distinct keys, no element occurs twice. */
  lemma {:induction false} DistinctKeysOnce<T>(s: seq<T>, key: T -> Key, x: T)
    requires DistinctKeys(s, key)
    ensures multiset(s)[x] <= 1
    decreases |s|
  {
    if s != [] {
      assert s == [s[0]] + s[1..];
      assert multiset(s) == multiset{s[0]} + multiset(s[1..]);
      DistinctKeysOnce(s[1..], key, x);
      if s[0] == x {
        assert x !in s[1..] by {
          forall m | 0 <= m < |s[1..]| ensures s[1..][m] != x {
            assert key(s[0]) != key(s[m + 1]);
          }
        }
      }
    }
  }

  /** Distinct keys survive a permutation. */
  lemma DistinctKeysPermutation<T>(a: seq<T>, b: seq<T>, key: T -> Key)
    requires DistinctKeys(a, key)
    requires multiset(a) == multiset(b)
    ensures DistinctKeys(b, key)
  {
    forall i, j | 0 <= i < j < |b| ensures key(b[i]) != key(b[j]) {
      assert b[i] in multiset(a) && b[j] in multiset(a);
      var i' :| 0 <= i' < |a| && a[i'] == b[i];
      var j' :| 0 <= j' < |a| && a[j'] == b[j];
      if b[i] == b[j] {
        TwoOccurrences(b, i, j);
        DistinctKeysOnce(a, key, b[i]);
      } else if i' < j' {
        assert key(a[i']) != key(a[j']);
      } else {
        assert key(a[j']) != key(a[i']);
      }
    }
  }

  /** Sorting forgets the original order: permutations sort to the same sequence. */
  lemma SortByPermutation<T>(a: seq<T>, b: seq<T>, key: T -> Key)
    requires DistinctKeys(a, key)
    requires multiset(a) == multiset(b)
    ensures SortBy(a, key) == SortBy(b, key)
  {
    SortBySorted(a, key);
    DistinctKeysPermutation(a, b, key);
    SortBySorted(b, key);
    SortedUnique(SortBy(a, key), SortBy(b, key), key);
  }

  /** The keys the elements of `s` carry. */
  ghost function KeySet<T>(s: seq<T>, key: T -> Key): set<Key> {
    set i | 0 <= i < |s| :: key(s[i])
  }

  /**
   * Two strictly sorted sequences whose elements carry the same keys carry
   * them in the same order.
   */
  lemma {:induction false} SortedSameKeys<T>(a: seq<T>, b: seq<T>, key: T -> Key)
    requires StrictlySorted(a, key) && StrictlySorted(b, key)
    requires KeySet(a, key) == KeySet(b, key)
    ensures |a| == |b| && forall i :: 0 <= i < |a| ==> key(a[i]) == key(b[i])
    decreases |a|
  {
    if a == [] {
      if b != [] {
        HeadKey(b, key);
        assert false;
      }
    } else if b == [] {
      HeadKey(a, key);
      assert false;
    } else {
      SameLeastKey(a, b, key);
      SortedTail(a, key);
      SortedTail(b, key);
      KeySetTail(a, key);
      KeySetTail(b, key);
      SortedSameKeys(a[1..], b[1..], key);
    }
  }

  /** The key of the head of a non-empty sequence is one of its keys. */
  lemma HeadKey<T>(s: seq<T>, key: T -> Key)
    ensures s != [] ==> key(s[0]) in KeySet(s, key)
  {
  }

  /** Two non-empty strictly sorted sequences carrying the same keys start with the same key. */
  lemma SameLeastKey<T>(a: seq<T>, b: seq<T>, key: T -> Key)
    requires StrictlySorted(a, key) && StrictlySorted(b, key) && a != [] && b != []
    requires KeySet(a, key) == KeySet(b, key)
    ensures key(a[0]) == key(b[0])
  {
    assert key(a[0]) in KeySet(b, key) && key(b[0]) in KeySet(a, key);
    var j :| 0 <= j < |b| && key(b[j]) == key(a[0]);
    var i :| 0 <= i < |a| && key(a[i]) == key(b[0]);
    if key(a[0]) != key(b[0]) {
      assert i != 0 && j != 0;
      KeyLessAsymmetric(key(a[0]), key(a[i]));
    }
  }

  /** Dropping the head of a strictly sorted sequence drops exactly its key. */
  lemma KeySetTail<T>(s: seq<T>, key: T -> Key)
    requires StrictlySorted(s, key) && s != []
    ensures KeySet(s[1..], key) == KeySet(s, key) - {key(s[0])}
  {
    forall k | k in KeySet(s[1..], key) ensures k in KeySet(s, key) && k != key(s[0]) {
      var i :| 0 <= i < |s[1..]| && key(s[1..][i]) == k;
      assert s[1..][i] == s[i + 1];
      KeyLessIrreflexive(key(s[0]));
    }
    forall k | k in KeySet(s, key) && k != key(s[0]) ensures k in KeySet(s[1..], key) {
      var i :| 0 <= i < |s| && key(s[i]) == k;
      assert s[1..][i - 1] == s[i];
    }
  }
}
