/**
 The two routes of the median (suite/csvStat.cpp, `prepare` and `median`): a selection when the column
 has no null, a full sort with the nulls at the end when it has some. Values are finite.
 */
module Median {
  import opened Sorting
  import opened Contents

  datatype Cell = Null | Num(value: real)

  /** The values of a column, in file order. */
  function Values(cells: seq<Cell>): (v: seq<real>)
    ensures |v| <= |cells|
  {
    if cells == [] then []
    else if cells[0].Null? then Values(cells[1..]) else [cells[0].value] + Values(cells[1..])
  }

  /** The lambda given to `nth_element` and `sort`. */
  function Key(c: Cell): Rank { if c.Null? then Infinity else Finite(c.value) }

  ghost predicate Ascending(s: seq<real>) { forall i, j :: 0 <= i < j < |s| ==> s[i] <= s[j] }

  function Insert(x: real, s: seq<real>): seq<real> {
    if s == [] || x <= s[0] then [x] + s else [s[0]] + Insert(x, s[1..])
  }

  /** The values in ascending order. */
  function Sorted(v: seq<real>): seq<real> {
    if v == [] then [] else Insert(v[0], Sorted(v[1..]))
  }

  /** The textbook median of an ascending sequence. */
  function Middle(s: seq<real>): real
    requires s != []
  {
    var n := |s|;
    if n % 2 == 1 then s[n / 2] else (s[n / 2 - 1] + s[n / 2]) / 2.0
  }

  lemma {:induction false} InsertIs(x: real, s: seq<real>)
    requires Ascending(s)
    ensures Ascending(Insert(x, s)) && multiset(Insert(x, s)) == multiset(s) + multiset{x}
  {
    if s == [] || x <= s[0] {
      Head(x, s);
    } else {
      var r := Insert(x, s[1..]);
      InsertIs(x, s[1..]);
      assert Insert(x, s) == [s[0]] + r;
      hide Insert;
      InsertedAbove(s[0], x, s[1..], r);
      Head(s[0], r);
      HeadOf(s);
      Moved(s[0], x, multiset(s[1..]));
    }
  }

  lemma {:induction false} InsertedAbove(least: real, x: real, s: seq<real>, r: seq<real>)
    requires least <= x && (forall i :: 0 <= i < |s| ==> least <= s[i]) && multiset(r) == multiset(s) + multiset{x}
    ensures forall i :: 0 <= i < |r| ==> least <= r[i]
  {
    forall i | 0 <= i < |r|
      ensures least <= r[i]
    {
      Member(r, multiset(s) + multiset{x}, i);
      assert r[i] in s || r[i] == x;
    }
  }

  lemma {:induction false} SortedIs(v: seq<real>)
    ensures Ascending(Sorted(v)) && multiset(Sorted(v)) == multiset(v) && |Sorted(v)| == |v|
  {
    if v != [] {
      SortedIs(v[1..]);
      InsertIs(v[0], Sorted(v[1..]));
      hide Insert, Ascending;
      HeadOf(v);
    }
    SameSize(Sorted(v), v);
  }

  lemma {:induction false} SameHeads(s: seq<real>, t: seq<real>)
    requires Ascending(s) && Ascending(t) && multiset(s) == multiset(t) && s != [] && t != []
    ensures s[0] == t[0]
  {
    Member(s, multiset(t), 0);
    Member(t, multiset(s), 0);
    var i :| 0 <= i < |t| && t[i] == s[0];
    var j :| 0 <= j < |s| && s[j] == t[0];
  }

  /** Only one order is ascending. */
  lemma {:induction false} AscendingUnique(s: seq<real>, t: seq<real>)
    requires Ascending(s) && Ascending(t) && multiset(s) == multiset(t)
    ensures s == t
  {
    SameSize(s, t);
    if s != [] {
      SameHeads(s, t);
      SameTails(s, t);
      AscendingUnique(s[1..], t[1..]);
      assert s == [s[0]] + s[1..] && t == [t[0]] + t[1..];
    }
  }

  lemma {:induction false} ValuesCount(cells: seq<Cell>, x: real)
    ensures multiset(Values(cells))[x] == multiset(cells)[Num(x)]
  {
    if cells != [] {
      ValuesCount(cells[1..], x);
      HeadOf(cells);
      if cells[0].Num? {
        Head(cells[0].value, Values(cells[1..]));
      }
    }
  }

  /** Reordering the cells reorders the values. */
  lemma {:induction false} ValuesContents(s: seq<Cell>, t: seq<Cell>)
    requires multiset(s) == multiset(t)
    ensures multiset(Values(s)) == multiset(Values(t)) && |Values(s)| == |Values(t)|
  {
    hide Values;
    forall x: real
      ensures multiset(Values(s))[x] == multiset(Values(t))[x]
    {
      ValuesCount(s, x);
      ValuesCount(t, x);
    }
    assert multiset(Values(s)) == multiset(Values(t));
    SameSize(Values(s), Values(t));
  }

  /** A column without nulls is its values. */
  lemma {:induction false} AllValues(cells: seq<Cell>)
    requires |Values(cells)| == |cells|
    ensures forall i :: 0 <= i < |cells| ==> cells[i] == Num(Values(cells)[i])
  {
    if cells != [] {
      AllValues(cells[1..]);
    }
  }

  /** When the nulls stand last, the values are the front. */
  lemma {:induction false} FrontIs(cells: seq<Cell>)
    requires forall i, j :: 0 <= i < j < |cells| && cells[i].Null? ==> cells[j].Null?
    ensures forall i :: 0 <= i < |Values(cells)| ==> cells[i] == Num(Values(cells)[i])
  {
    if cells != [] {
      var rest := cells[1..];
      assert forall i :: 0 <= i < |rest| ==> rest[i] == cells[i + 1];
      if cells[0].Null? {
        NoValues(cells);
      } else {
        FrontIs(rest);
      }
    }
  }

  lemma {:induction false} FrontValues(cells: seq<Cell>)
    requires Leading(cells, |cells|, Key)
    ensures Ascending(Values(cells))
    ensures forall i :: 0 <= i < |Values(cells)| ==> cells[i] == Num(Values(cells)[i])
  {
    forall i, j | 0 <= i < j < |cells| && cells[i].Null?
      ensures cells[j].Null?
    {
      assert Leq(Key(cells[i]), Key(cells[j]));
    }
    FrontIs(cells);
    var v := Values(cells);
    hide Values;
    forall i, j | 0 <= i < j < |v|
      ensures v[i] <= v[j]
    {
      assert Leq(Key(cells[i]), Key(cells[j]));
    }
  }

  lemma {:induction false} NoValues(cells: seq<Cell>)
    requires forall i :: 0 <= i < |cells| ==> cells[i].Null?
    ensures Values(cells) == []
  {
    if cells != [] { NoValues(cells[1..]); }
  }

  lemma {:induction false} Above(s: seq<real>, t: seq<real>, x: real)
    requires multiset(s) == multiset(t) && forall i :: 0 <= i < |t| ==> t[i] <= x
    ensures forall i :: 0 <= i < |s| ==> s[i] <= x
  {
    forall i | 0 <= i < |s|
      ensures s[i] <= x
    {
      Member(s, multiset(t), i);
    }
  }

  lemma {:induction false} Below(s: seq<real>, t: seq<real>, x: real)
    requires multiset(s) == multiset(t) && forall i :: 0 <= i < |t| ==> x <= t[i]
    ensures forall i :: 0 <= i < |s| ==> x <= s[i]
  {
    forall i | 0 <= i < |s|
      ensures x <= s[i]
    {
      Member(s, multiset(t), i);
    }
  }

  lemma {:induction false} AscendingJoin(a: seq<real>, x: real, b: seq<real>)
    requires Ascending(a) && Ascending(b)
    requires (forall i :: 0 <= i < |a| ==> a[i] <= x) && (forall i :: 0 <= i < |b| ==> x <= b[i])
    ensures Ascending(a + ([x] + b))
  {
  }

  lemma {:induction false} SameParts(a: seq<real>, a': seq<real>, x: real, b: seq<real>, b': seq<real>)
    requires multiset(a) == multiset(a') && multiset(b) == multiset(b')
    ensures multiset(a + ([x] + b)) == multiset(a' + ([x] + b'))
  {
    Joined(a, [x] + b);
    Joined(a', [x] + b');
    Head(x, b);
    Head(x, b');
  }

  lemma {:induction false} SortsTo(v: seq<real>, t: seq<real>)
    requires Ascending(t) && multiset(t) == multiset(v)
    ensures Sorted(v) == t
  {
    SortedIs(v);
    AscendingUnique(Sorted(v), t);
  }

  lemma {:induction false} SortedJoin(p: seq<real>, x: real, q: seq<real>)
    requires (forall i :: 0 <= i < |p| ==> p[i] <= x) && (forall j :: 0 <= j < |q| ==> x <= q[j])
    ensures Sorted(p + ([x] + q)) == Sorted(p) + ([x] + Sorted(q))
  {
    SortedIs(p);
    SortedIs(q);
    hide Sorted;
    Above(Sorted(p), p, x);
    Below(Sorted(q), q, x);
    AscendingJoin(Sorted(p), x, Sorted(q));
    hide Ascending;
    SameParts(Sorted(p), p, x, Sorted(q), q);
    SortsTo(p + ([x] + q), Sorted(p) + ([x] + Sorted(q)));
  }

  /** A partitioned sequence sorts to the sorted parts around the pivot. */
  lemma {:induction false} SortedParts(v: seq<real>, n: nat)
    requires n < |v|
    requires (forall i :: 0 <= i < n ==> v[i] <= v[n]) && (forall j :: n < j < |v| ==> v[n] <= v[j])
    ensures Sorted(v) == Sorted(v[..n]) + ([v[n]] + Sorted(v[n + 1..]))
  {
    hide Sorted;
    assert v == v[..n] + ([v[n]] + v[n + 1..]);
    SortedJoin(v[..n], v[n], v[n + 1..]);
  }

  /** The last of the sorted values is the greatest. */
  lemma {:induction false} LastIsGreatest(v: seq<real>, b: nat)
    requires b < |v| && forall k :: 0 <= k < |v| ==> v[k] <= v[b]
    ensures |Sorted(v)| == |v| && Sorted(v)[|v| - 1] == v[b]
  {
    SortedIs(v);
    var s := Sorted(v);
    hide Sorted;
    assert v[b] in multiset(s) && s[|v| - 1] in multiset(v);
    assert v[b] in s && s[|v| - 1] in v;
  }

  lemma {:induction false} SortedSize(v: seq<real>)
    ensures |Sorted(v)| == |v|
  {
    SortedIs(v);
  }

  lemma {:induction false} AroundPivot(v: seq<real>, n: nat)
    requires n < |v|
    requires (forall i :: 0 <= i < n ==> v[i] <= v[n]) && (forall j :: n < j < |v| ==> v[n] <= v[j])
    ensures |Sorted(v)| == |v| && |Sorted(v[..n])| == n && Sorted(v)[n] == v[n]
    ensures n > 0 ==> Sorted(v)[n - 1] == Sorted(v[..n])[n - 1]
  {
    hide Sorted;
    SortedSize(v);
    SortedSize(v[..n]);
    SortedParts(v, n);
  }

  /** After the selection, the element at `n / 2` and the greatest before it give the median. */
  lemma {:induction false} SelectionMedian(v: seq<real>, b: nat)
    requires v != [] && (|v| % 2 == 0 ==> b < |v| / 2 && forall k :: 0 <= k < |v| / 2 ==> v[k] <= v[b])
    requires var n := |v| / 2; (forall i :: 0 <= i < n ==> v[i] <= v[n]) && (forall j :: n < j < |v| ==> v[n] <= v[j])
    ensures |Sorted(v)| == |v|
    ensures Middle(Sorted(v)) == if |v| % 2 == 1 then v[|v| / 2] else (v[|v| / 2] + v[b]) / 2.0
  {
    var n := |v| / 2;
    hide Sorted;
    AroundPivot(v, n);
    if |v| % 2 == 0 {
      LastIsGreatest(v[..n], b);
    }
  }

  method NullNumber(slice: array<Cell>) returns (nulls: nat)
    ensures nulls == slice.Length - |Values(slice[..])|
  {
    nulls := 0;
    assert slice[..] == slice[0..];
    for i := 0 to slice.Length
      invariant |Values(slice[..])| == i - nulls + |Values(slice[i..])|
    {
      assert slice[i..][1..] == slice[i + 1..];
      if slice[i].Null? {
        nulls := nulls + 1;
      }
    }
  }

  /** The route without nulls. */
  method SelectMedian(slice: array<Cell>) returns (median: real)
    requires slice.Length > 0 && |Values(slice[..])| == slice.Length
    modifies slice
    ensures multiset(slice[..]) == multiset(old(slice[..]))
    ensures |Sorted(Values(old(slice[..])))| == slice.Length && median == Middle(Sorted(Values(old(slice[..]))))
  {
    hide Sorted, Middle, Values;
    var n := slice.Length / 2;
    ghost var was := slice[..];
    NthElement(slice, n, Key);
    ghost var v := Values(slice[..]);
    ValuesContents(slice[..], was);
    AllValues(slice[..]);
    assert forall i :: 0 <= i < |v| ==> slice[i] == Num(v[i]);
    var b := 0;
    if slice.Length % 2 == 1 {
      median := slice[n].value;
    } else {
      b := MaxElement(slice, n, Key);
      median := (slice[n].value + slice[b].value) / 2.0;
    }
    SelectionMedian(v, b);
    SortedIs(Values(was));
    SortedIs(v);
    AscendingUnique(Sorted(v), Sorted(Values(was)));
  }

  /** The route with nulls. */
  method SortMedian(slice: array<Cell>, nulls: nat) returns (median: real)
    requires nulls == slice.Length - |Values(slice[..])| && nulls < slice.Length
    modifies slice
    ensures multiset(slice[..]) == multiset(old(slice[..]))
    ensures Sorted(Values(old(slice[..]))) != [] && median == Middle(Sorted(Values(old(slice[..]))))
  {
    hide Sorted, Values;
    ghost var was := slice[..];
    var good := slice.Length - nulls;
    Sort(slice, Key);
    ghost var v := Values(slice[..]);
    ValuesContents(slice[..], was);
    FrontValues(slice[..]);
    assert forall i :: 0 <= i < |v| ==> slice[i] == Num(v[i]);
    SortedIs(Values(was));
    AscendingUnique(v, Sorted(Values(was)));
    if good % 2 == 1 {
      median := slice[good / 2].value;
    } else {
      median := (slice[good / 2].value + slice[good / 2 - 1].value) / 2.0;
    }
  }

  /** The median of a number column: by either route, that of its values in ascending order. A number
      column has a value: a column of nulls alone is typed before numbers are tried. */
  method MedianOf(slice: array<Cell>) returns (median: real)
    requires Values(slice[..]) != []
    modifies slice
    ensures multiset(slice[..]) == multiset(old(slice[..]))
    ensures Sorted(Values(old(slice[..]))) != [] && median == Middle(Sorted(Values(old(slice[..]))))
  {
    var nulls := NullNumber(slice);
    if nulls == 0 {
      median := SelectMedian(slice);
    } else {
      median := SortMedian(slice, nulls);
    }
  }

  // ---- by examples ----

  /** The values are the cells that are no nulls, as often as they stand there. */
  lemma {:induction false} ValuesAre(cells: seq<Cell>, x: real)
    ensures multiset(Values(cells))[x] == multiset(cells)[Num(x)]
    ensures |Values(cells)| + multiset(cells)[Null] == |cells|
  {
    if cells != [] {
      ValuesAre(cells[1..], x);
      HeadOf(cells);
      if cells[0].Num? { Head(cells[0].value, Values(cells[1..])); }
    }
  }

  /** With values given in ascending order, one, two, three and four of them. */
  lemma {:induction false} MiddleOf(a: real, b: real, c: real, d: real)
    ensures Middle([a]) == a && Middle([a, b]) == (a + b) / 2.0
    ensures Middle([a, b, c]) == b && Middle([a, b, c, d]) == (b + c) / 2.0
  {
  }

  /** At most half of the values lie below the middle, and at most half above. */
  lemma {:induction false} HalvesApart(s: seq<real>, k: nat)
    requires s != [] && Ascending(s) && k < |s|
    ensures s[k] < Middle(s) ==> 2 * k < |s|
    ensures s[k] > Middle(s) ==> 2 * (|s| - 1 - k) < |s|
  {
  }
}
