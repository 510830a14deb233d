/**
 * Identities of sequence slicing and concatenation, stated once for any
 * element type so that the proofs about keys, paths and entries can use
 * them without re-deriving sequence equality in a larger context.
 */
module Seqs {

  lemma SplitLast<U>(s: seq<U>)
    requires s != []
    ensures s == s[..|s| - 1] + [s[|s| - 1]]
  {
  }

  lemma SplitFirst<U>(s: seq<U>)
    requires s != []
    ensures s == [s[0]] + s[1..]
  {
  }

  /** Replacing, or dropping, the head of `s`, written as slices around position 0. */
  lemma HeadSlices<U>(s: seq<U>, x: U)
    requires s != []
    ensures s[..0] + [x] + s[1..] == [x] + s[1..]
    ensures s[..0] + s[0 + 1..] == s[1..]
  {
  }

  /** Appending the empty prefix of `p` changes nothing. */
  lemma AppendNoPrefix<U>(a: seq<U>, p: seq<U>)
    ensures a + p[..0] == a
  {
  }

  /** The whole prefix of `p` is `p`. */
  lemma WholePrefix<U>(p: seq<U>)
    ensures p[..|p|] == p
  {
  }

  /** Dropping nothing from `p` leaves `p`. */
  lemma WholeSuffix<U>(p: seq<U>)
    ensures p[0..] == p
  {
  }

  lemma AppendNil<U>(p: seq<U>)
    ensures p + [] == p
  {
  }

  /** The prefix of length `i + 1` ends with `s[i]` after the prefix of length `i`. */
  lemma PrefixOfPrefix<U>(s: seq<U>, i: nat)
    requires i < |s|
    ensures s[..i + 1][..i] == s[..i] && s[..i + 1][i] == s[i]
  {
  }

  lemma PrefixSnoc<U>(s: seq<U>, i: nat)
    requires i < |s|
    ensures s[..i + 1] == s[..i] + [s[i]]
  {
  }

  /** Extending a prefix of `p` by its next element. */
  lemma PrefixStep<U>(a: seq<U>, p: seq<U>, i: nat)
    requires i < |p|
    ensures a + p[..i] + [p[i]] == a + p[..i + 1]
  {
    assert p[..i + 1] == p[..i] + [p[i]];
  }

  /** The slices around position `i` of `s`, seen from its tail. */
  lemma TailSlices<U>(s: seq<U>, i: nat)
    requires 0 < i < |s|
    ensures s[..i] == [s[0]] + s[1..][..i - 1]
    ensures s[1..][i..] == s[i + 1..]
  {
  }

  lemma ConsAssoc2<U>(x: U, a: seq<U>, c: seq<U>)
    ensures [x] + (a + c) == ([x] + a) + c
  {
  }

  lemma ConsAssoc<U>(x: U, a: seq<U>, b: seq<U>, c: seq<U>)
    ensures [x] + (a + b + c) == ([x] + a) + b + c
  {
  }

  /** An element found at two positions occurs at least twice. */
  lemma TwoOccurrences<U>(b: seq<U>, i: nat, j: nat)
    requires i < j < |b| && b[i] == b[j]
    ensures multiset(b)[b[i]] >= 2
  {
    assert b == b[..i] + [b[i]] + b[i + 1..j] + [b[j]] + b[j + 1..];
  }

  /** Appending one element and then `t` is appending `[x] + t`. */
  lemma SnocAssoc<U>(a: seq<U>, x: U, t: seq<U>)
    ensures a + [x] + t == a + ([x] + t)
  {
  }

  /** Each element of `s` sits at some index of a permutation `t` of it. */
  lemma PermutedIndex<U>(s: seq<U>, t: seq<U>, i: nat) returns (j: nat)
    requires multiset(s) == multiset(t) && i < |s|
    ensures j < |t| && t[j] == s[i]
  {
    assert s[i] in multiset(t);
    j :| 0 <= j < |t| && t[j] == s[i];
  }

  /** Indexing into a concatenation. */
  lemma AppendIndex<U>(a: seq<U>, b: seq<U>, j: nat)
    requires j < |a| + |b|
    ensures j < |a| ==> (a + b)[j] == a[j]
    ensures |a| <= j ==> (a + b)[j] == b[j - |a|]
  {
  }

  /** The element at `|a| + m` of a concatenation is the element at `m` of its second part. */
  lemma AppendIndexRight<U>(a: seq<U>, b: seq<U>, j: nat, m: nat)
    requires j == |a| + m && m < |b|
    ensures (a + b)[j] == b[m]
  {
  }

  /** A sequence that starts with `p + [k]` starts with `p` and is longer. */
  lemma ExtendedPrefix<U>(p: seq<U>, k: U, q: seq<U>)
    requires |q| >= |p| + 1 && q[..|p| + 1] == p + [k]
    ensures |q| > |p| && q[..|p|] == p
  {
    assert q[..|p|] == q[..|p| + 1][..|p|];
  }

  /** `p + [k]` starts with `p` and is longer. */
  lemma AppendOnePrefix<U>(p: seq<U>, k: U)
    ensures |p + [k]| > |p| && (p + [k])[..|p|] == p
  {
  }

  /** Splitting a concatenation whose first part is non-empty, or empty. */
  lemma AppendSplit<U>(p: seq<U>, q: seq<U>)
    ensures p != [] ==> (p + q)[0] == p[0] && (p + q)[1..] == p[1..] + q
    ensures p == [] ==> p + q == q
    ensures p != [] ==> p + q == [p[0]] + (p[1..] + q) && p == [p[0]] + p[1..]
  {
  }

  lemma EmptyAppend<U>(x: seq<U>)
    requires x == []
    ensures x + x == x
  {
  }

  /** The last element of `p + [k]`, and everything before it. */
  lemma SnocParts<U>(p: seq<U>, k: U)
    ensures (p + [k])[..|p + [k]| - 1] == p && (p + [k])[|p + [k]| - 1] == k
  {
  }

  lemma Singleton<U>(x: U)
    ensures [x][0] == x && [x][1..] == []
  {
  }
}
