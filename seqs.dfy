/** Sequence vocabulary shared by the job-list filters: subsequences,
    duplicate-free sequences, and the distinct-values list that
    `Array.from(new Set(xs))` builds (first-appearance order). */
module Seqs {

  /** `sub` is `s` with some elements deleted, the rest kept in order. */
  predicate IsSubseq<T(==)>(sub: seq<T>, s: seq<T>)
    decreases |s|
  {
    sub == [] ||
    (s != [] && ((sub[0] == s[0] && IsSubseq(sub[1..], s[1..])) || IsSubseq(sub, s[1..])))
  }

  predicate NoDuplicates<T(==)>(s: seq<T>) {
    forall i, j :: 0 <= i < j < |s| ==> s[i] != s[j]
  }

  lemma {:induction false} SubseqRefl<T>(s: seq<T>)
    ensures IsSubseq(s, s)
    decreases |s|
  {
    if s != [] {
      SubseqRefl(s[1..]);
    }
  }

  /** Every element of a subsequence is an element of the whole. */
  lemma {:induction false} SubseqMembers<T>(sub: seq<T>, s: seq<T>)
    requires IsSubseq(sub, s)
    ensures forall x :: x in sub ==> x in s
    decreases |s|
  {
    if sub != [] {
      if sub[0] == s[0] && IsSubseq(sub[1..], s[1..]) {
        SubseqMembers(sub[1..], s[1..]);
        forall x | x in sub ensures x in s {
          if x != sub[0] {
            assert x in sub[1..];
          }
        }
      } else {
        SubseqMembers(sub, s[1..]);
      }
    }
  }

  /** A subsequence is no longer than the whole. */
  lemma {:induction false} SubseqLength<T>(sub: seq<T>, s: seq<T>)
    requires IsSubseq(sub, s)
    ensures |sub| <= |s|
    decreases |s|
  {
    if sub != [] {
      if sub[0] == s[0] && IsSubseq(sub[1..], s[1..]) {
        SubseqLength(sub[1..], s[1..]);
      } else {
        SubseqLength(sub, s[1..]);
      }
    }
  }

  /** A subsequence of a duplicate-free sequence is duplicate-free. */
  lemma {:induction false} SubseqNoDuplicates<T>(sub: seq<T>, s: seq<T>)
    requires IsSubseq(sub, s) && NoDuplicates(s)
    ensures NoDuplicates(sub)
    decreases |s|
  {
    if sub != [] {
      if sub[0] == s[0] && IsSubseq(sub[1..], s[1..]) {
        SubseqNoDuplicates(sub[1..], s[1..]);
        SubseqMembers(sub[1..], s[1..]);
        assert s[0] !in s[1..];
        forall i, j | 0 <= i < j < |sub| ensures sub[i] != sub[j] {
          if i > 0 {
            assert sub[i] == sub[1..][i - 1] && sub[j] == sub[1..][j - 1];
          } else {
            assert sub[j] == sub[1..][j - 1];
          }
        }
      } else {
        SubseqNoDuplicates(sub, s[1..]);
      }
    }
  }

  /** Index of the first occurrence of `x` in `s`. */
  function FirstIndex<T(==)>(s: seq<T>, x: T): (k: nat)
    requires x in s
    ensures k < |s| && s[k] == x && x !in s[..k]
  {
    if s[0] == x then 0
    else
      var k := FirstIndex(s[1..], x);
      assert s[..k + 1] == [s[0]] + s[1..][..k];
      k + 1
  }

  /** The first occurrence of `x` in a prefix is its first occurrence in the whole. */
  lemma FirstIndexInPrefix<T>(s: seq<T>, m: nat, x: T)
    requires m <= |s| && x in s[..m]
    ensures x in s && FirstIndex(s, x) == FirstIndex(s[..m], x)
  {
    var k := FirstIndex(s[..m], x);
    assert s[k] == x;
    var k' := FirstIndex(s, x);
    assert k' <= k;
    assert s[..m][k'] == x;
  }

  /** `r` lists the values of `s` once each, in first-appearance order. */
  ghost predicate DistinctOf<T(!new)>(r: seq<T>, s: seq<T>) {
    NoDuplicates(r) &&
    (forall x :: x in r <==> x in s) &&
    forall i, j :: 0 <= i < j < |r| ==> FirstIndex(s, r[i]) < FirstIndex(s, r[j])
  }

  /** The values of `s` without repetition, each kept at its first
      appearance; this is the order in which a JavaScript `Set` enumerates
      the values inserted into it. */
  function Distinct<T(==,!new)>(s: seq<T>): (r: seq<T>)
    ensures NoDuplicates(r)
    ensures forall x :: x in r <==> x in s
    ensures forall i, j :: 0 <= i < j < |r| ==> FirstIndex(s, r[i]) < FirstIndex(s, r[j])
    decreases |s|
  {
    if s == [] then []
    else
      var r0 := Distinct(s[..|s| - 1]);
      DistinctStep(s, r0);
      if s[|s| - 1] in r0 then r0 else r0 + [s[|s| - 1]]
  }

  /** One step of building the list: the last value of `s` is appended
      unless it was seen before. */
  lemma DistinctStep<T(!new)>(s: seq<T>, r0: seq<T>)
    requires s != []
    requires DistinctOf(r0, s[..|s| - 1])
    ensures DistinctOf(if s[|s| - 1] in r0 then r0 else r0 + [s[|s| - 1]], s)
  {
    var n := |s| - 1;
    assert s == s[..n] + [s[n]];
    PrefixIndices(s, n, r0);
    if s[n] !in r0 {
      assert s[n] !in s[..n];
      assert FirstIndex(s, s[n]) == n;
      var r := r0 + [s[n]];
      forall i, j | 0 <= i < j < |r| ensures FirstIndex(s, r[i]) < FirstIndex(s, r[j]) {
        assert r[i] == r0[i];
      }
    }
  }

  /** Values seen in the first `n` elements keep their first index, which
      is below `n`. */
  lemma PrefixIndices<T>(s: seq<T>, n: nat, r0: seq<T>)
    requires n <= |s|
    requires forall x :: x in r0 ==> x in s[..n]
    ensures forall x :: x in r0 ==> x in s && FirstIndex(s, x) == FirstIndex(s[..n], x) < n
  {
    forall x | x in r0 ensures x in s && FirstIndex(s, x) == FirstIndex(s[..n], x) < n {
      FirstIndexInPrefix(s, n, x);
    }
  }

  /** The three properties of `Distinct` pin it down: any duplicate-free
      list of exactly the values of `s`, in first-appearance order, is
      `Distinct(s)`. */
  lemma {:induction false} DistinctUnique<T(!new)>(s: seq<T>, r: seq<T>)
    requires NoDuplicates(r)
    requires forall x :: x in r <==> x in s
    requires forall i, j :: 0 <= i < j < |r| ==> FirstIndex(s, r[i]) < FirstIndex(s, r[j])
    ensures r == Distinct(s)
  {
    SortedByKeyEqual(s, r, Distinct(s));
  }

  /** `a` lists values of `s` strictly ordered by their first index in `s`. */
  predicate SortedByFirstIndex<T(==)>(s: seq<T>, a: seq<T>) {
    (forall x :: x in a ==> x in s) &&
    forall i, j :: 0 <= i < j < |a| ==> FirstIndex(s, a[i]) < FirstIndex(s, a[j])
  }

  /** The head of such a list has the smallest first index of its members. */
  lemma HeadFirst<T>(s: seq<T>, a: seq<T>, x: T)
    requires SortedByFirstIndex(s, a) && x in a
    ensures x == a[0] || FirstIndex(s, a[0]) < FirstIndex(s, x)
  {
    var i :| 0 <= i < |a| && a[i] == x;
    if i > 0 {
      assert FirstIndex(s, a[0]) < FirstIndex(s, a[i]);
    }
  }

  lemma SortedTail<T>(s: seq<T>, a: seq<T>)
    requires SortedByFirstIndex(s, a) && a != []
    ensures SortedByFirstIndex(s, a[1..])
    ensures a[0] !in a[1..]
  {
    forall i | 0 <= i < |a[1..]| ensures a[1..][i] != a[0] {
      assert FirstIndex(s, a[0]) < FirstIndex(s, a[i + 1]);
    }
  }

  /** Two lists of the same values, both strictly ordered by first index in
      `s`, are equal. */
  lemma {:induction false} SortedByKeyEqual<T>(s: seq<T>, a: seq<T>, b: seq<T>)
    requires forall x :: x in a <==> x in b
    requires SortedByFirstIndex(s, a) && SortedByFirstIndex(s, b)
    ensures a == b
    decreases |a|
  {
    assert b != [] ==> b[0] in b;
    if a != [] {
      assert a[0] in a;
      assert b[0] in b;
      HeadFirst(s, a, b[0]);
      HeadFirst(s, b, a[0]);
      SortedTail(s, a);
      SortedTail(s, b);
      assert a[0] == b[0];
      forall x ensures x in a[1..] <==> x in b[1..] {
        assert x in a <==> x == a[0] || x in a[1..];
        assert x in b <==> x == b[0] || x in b[1..];
      }
      SortedByKeyEqual(s, a[1..], b[1..]);
      assert a == [a[0]] + a[1..] && b == [b[0]] + b[1..];
    }
  }
}
