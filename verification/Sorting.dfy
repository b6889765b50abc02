/**
 The ordering steps that the statistics take from the C++ library (`std::partial_sort`, `std::sort`,
 `std::nth_element`, `std::max_element`), each with the contract the library gives it.
 */
module Sorting {

  /** What an element is ordered by; a missing number is ordered as `INFINITY`. */
  datatype Rank = Finite(value: real) | Infinity

  predicate Leq(x: Rank, y: Rank) { y.Infinity? || (x.Finite? && x.value <= y.value) }

  /** The first `m` elements are in order, and none of them is above any element after it. */
  ghost predicate Leading<T>(s: seq<T>, m: nat, key: T -> Rank) {
    forall i, j :: 0 <= i < j < |s| && i < m ==> Leq(key(s[i]), key(s[j]))
  }

  function Swapped<T>(s: seq<T>, i: nat, j: nat): (r: seq<T>)
    requires i < |s| && j < |s|
    ensures |r| == |s| && r[i] == s[j] && r[j] == s[i] && forall k :: 0 <= k < |s| && k != i && k != j ==> r[k] == s[k]
  {
    s[i := s[j]][j := s[i]]
  }

  lemma {:induction false} SwappedContents<T>(s: seq<T>, i: nat, j: nat)
    requires i < |s| && j < |s|
    ensures multiset(Swapped(s, i, j)) == multiset(s)
  {
  }

  /** Moving the least of the rest to the front of the rest. */
  lemma {:induction false} LeadingNext<T>(s: seq<T>, i: nat, b: nat, key: T -> Rank)
    requires Leading(s, i, key) && i <= b < |s| && forall k :: i <= k < |s| ==> Leq(key(s[b]), key(s[k]))
    ensures Leading(Swapped(s, i, b), i + 1, key)
  {
    var r := Swapped(s, i, b);
    hide Leq, Swapped;
    forall p, q | 0 <= p < q < |r| && p < i + 1
      ensures Leq(key(r[p]), key(r[q]))
    {
      var q' := if q == b then i else if q == i then b else q;
      assert r[q] == s[q'];
    }
  }

  method LeastIndex<T>(a: array<T>, from: nat, key: T -> Rank) returns (b: nat)
    requires from < a.Length
    ensures from <= b < a.Length && forall k :: from <= k < a.Length ==> Leq(key(a[b]), key(a[k]))
  {
    b := from;
    for i := from + 1 to a.Length
      invariant from <= b < a.Length && forall k :: from <= k < i ==> Leq(key(a[b]), key(a[k]))
    {
      if !Leq(key(a[b]), key(a[i])) {
        b := i;
      }
    }
  }

  method PartialSort<T>(a: array<T>, m: nat, key: T -> Rank)
    requires m <= a.Length
    modifies a
    ensures multiset(a[..]) == multiset(old(a[..])) && Leading(a[..], m, key)
  {
    var i := 0;
    while i < m
      invariant i <= m && multiset(a[..]) == multiset(old(a[..])) && Leading(a[..], i, key)
    {
      ghost var s := a[..];
      var b := LeastIndex(a, i, key);
      LeadingNext(s, i, b, key);
      SwappedContents(s, i, b);
      a[i], a[b] := a[b], a[i];
      assert a[..] == Swapped(s, i, b);
      i := i + 1;
    }
  }

  method Sort<T>(a: array<T>, key: T -> Rank)
    modifies a
    ensures multiset(a[..]) == multiset(old(a[..])) && Leading(a[..], a.Length, key)
  {
    PartialSort(a, a.Length, key);
  }

  /** Nothing before position `n` is above the element there, and nothing after it is below. */
  ghost predicate Partitioned<T>(s: seq<T>, n: nat, key: T -> Rank) {
    && n < |s|
    && (forall i :: 0 <= i < n ==> Leq(key(s[i]), key(s[n])))
    && (forall j :: n < j < |s| ==> Leq(key(s[n]), key(s[j])))
  }

  method NthElement<T>(a: array<T>, n: nat, key: T -> Rank)
    requires n < a.Length
    modifies a
    ensures multiset(a[..]) == multiset(old(a[..])) && Partitioned(a[..], n, key)
  {
    PartialSort(a, n + 1, key);
  }

  method MaxElement<T>(a: array<T>, n: nat, key: T -> Rank) returns (b: nat)
    requires 0 < n <= a.Length
    ensures b < n && forall k :: 0 <= k < n ==> Leq(key(a[k]), key(a[b]))
  {
    b := 0;
    for i := 1 to n
      invariant b < n && forall k :: 0 <= k < i ==> Leq(key(a[k]), key(a[b]))
    {
      if !Leq(key(a[i]), key(a[b])) {
        b := i;
      }
    }
  }
}
