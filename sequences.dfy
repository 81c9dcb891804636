/** Generic facts about sequences that the list views share. */
module Sequences {

  /** `a` is `b` with some elements left out, in the order of `b`. */
  predicate IsSubsequence<T(==)>(a: seq<T>, b: seq<T>)
    decreases |b|
  {
    if a == [] then true
    else if b == [] then false
    else (a[0] == b[0] && IsSubsequence(a[1..], b[1..])) || IsSubsequence(a, b[1..])
  }

  /** A subsequence is never longer, and holds only elements of the original. */
  lemma {:induction false} SubsequenceBounds<T>(a: seq<T>, b: seq<T>)
    requires IsSubsequence(a, b)
    ensures |a| <= |b|
    ensures forall x :: x in a ==> x in b
    decreases |b|
  {
    if a != [] {
      if a[0] == b[0] && IsSubsequence(a[1..], b[1..]) {
        SubsequenceBounds(a[1..], b[1..]);
        assert forall x :: x in a ==> x == a[0] || x in a[1..];
      } else {
        SubsequenceBounds(a, b[1..]);
      }
    }
  }

  /** `s.slice(0, n)`: the first `n` elements, or all of `s` when it is shorter. */
  function Take<T>(s: seq<T>, n: nat): (r: seq<T>)
    ensures |r| <= n && |r| <= |s|
    ensures |s| <= n ==> r == s
    ensures n <= |s| ==> |r| == n
    ensures forall i :: 0 <= i < |r| ==> r[i] == s[i]
  {
    if |s| <= n then s else s[..n]
  }

  /** Cutting a subsequence short leaves a subsequence. */
  lemma {:induction false} PrefixOfSubsequence<T>(a: seq<T>, b: seq<T>, n: nat)
    requires IsSubsequence(a, b)
    ensures IsSubsequence(Take(a, n), b)
    decreases |b|
  {
    var t := Take(a, n);
    if t != [] {
      if a[0] == b[0] && IsSubsequence(a[1..], b[1..]) {
        PrefixOfSubsequence(a[1..], b[1..], n - 1);
        assert t[1..] == Take(a[1..], n - 1);
      } else {
        PrefixOfSubsequence(a, b[1..], n);
      }
    }
  }

  /** Every sequence is a subsequence of itself. */
  lemma {:induction false} SubsequenceOfSelf<T>(s: seq<T>)
    ensures IsSubsequence(s, s)
    decreases |s|
  {
    if s != [] {
      SubsequenceOfSelf(s[1..]);
    }
  }

  /** The index of the first occurrence of `x` in `s`. */
  function FirstIndex<T(==)>(s: seq<T>, x: T): (i: nat)
    requires x in s
    ensures i < |s| && s[i] == x
    ensures forall j :: 0 <= j < i ==> s[j] != x
  {
    if s[0] == x then 0 else 1 + FirstIndex(s[1..], x)
  }

  /** No element occurs twice. */
  predicate NoDuplicates<T(==)>(s: seq<T>) {
    forall i, j :: 0 <= i < j < |s| ==> s[i] != s[j]
  }

  /** `Array.from(new Set(s))`: the distinct elements of `s`, each kept where it first
      occurs (a `Set` iterates in insertion order). */
  function Distinct<T(==, !new)>(s: seq<T>): (r: seq<T>)
    ensures NoDuplicates(r)
    ensures forall x :: x in r <==> x in s
  {
    if s == [] then []
    else
      var rest := Distinct(s[..|s| - 1]);
      var x := s[|s| - 1];
      assert forall y :: y in s <==> y in s[..|s| - 1] || y == x;
      if x in rest then rest else rest + [x]
  }

  /** Appending at the end does not move the first occurrence of anything already there. */
  lemma FirstIndexAppend<T>(s: seq<T>, x: T, y: T)
    requires y in s
    ensures FirstIndex(s + [x], y) == FirstIndex(s, y)
  {
    var i := FirstIndex(s, y);
    var k := FirstIndex(s + [x], y);
    assert (s + [x])[i] == y;
    assert k <= i;
    assert s[k] == y;
  }

  /** `Distinct` lists elements in the order of their first occurrences in `s`. */
  lemma {:induction false} DistinctKeepsFirstOccurrenceOrder<T(!new)>(s: seq<T>)
    ensures forall i, j :: 0 <= i < j < |Distinct(s)| ==>
              FirstIndex(s, Distinct(s)[i]) < FirstIndex(s, Distinct(s)[j])
    decreases |s|
  {
    if s != [] {
      var init := s[..|s| - 1];
      var x := s[|s| - 1];
      var rest := Distinct(init);
      DistinctKeepsFirstOccurrenceOrder(init);
      assert s == init + [x];
      forall y | y in rest
        ensures FirstIndex(s, y) == FirstIndex(init, y)
      {
        FirstIndexAppend(init, x, y);
      }
      if x !in rest {
        assert x !in init;
        assert FirstIndex(s, x) == |s| - 1;
        var r := rest + [x];
        forall i, j | 0 <= i < j < |r|
          ensures FirstIndex(s, r[i]) < FirstIndex(s, r[j])
        {
          assert r[i] in rest;
          if j < |rest| {
            assert r[j] in rest;
          }
        }
      }
    }
  }
}
