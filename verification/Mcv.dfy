/**
 The most common values of a column (suite/csvStat.cpp, `prepare_mcv_vec`, `complete`, `mcv`): a bounded, only
 partly sorted listing of the value counts into which the nulls are merged as one entry.
 */
module Mcv {
  import opened Sorting
  import opened Contents

  /** A value and how often it occurs. */
  datatype Entry<T> = Entry(value: T, count: nat)

  /** What is printed: a value with its count, or None with the number of nulls. */
  datatype Shown<T> = Value(entry: Entry<T>) | NoneValue(nulls: nat)

  function CountOf<T>(x: Shown<T>): nat { if x.Value? then x.entry.count else x.nulls }

  ghost predicate Descending<T>(s: seq<Entry<T>>) {
    forall i, j :: 0 <= i < j < |s| ==> s[i].count >= s[j].count
  }

  function All<T>(s: seq<Entry<T>>): (r: seq<Shown<T>>)
    ensures |r| == |s|
  {
    if s == [] then [] else [Value(s[0])] + All(s[1..])
  }

  /** The whole listing: None stands after every count that is at least the number of nulls. */
  function Merged<T>(s: seq<Entry<T>>, nulls: nat): (r: seq<Shown<T>>)
    ensures |r| == |s| + if nulls > 0 then 1 else 0
  {
    if nulls == 0 then All(s)
    else if s == [] then [NoneValue(nulls)]
    else if s[0].count >= nulls then [Value(s[0])] + Merged(s[1..], nulls)
    else [NoneValue(nulls)] + All(s)
  }

  function Take<T>(s: seq<T>, n: nat): seq<T> { if n < |s| then s[..n] else s }

  /** `out` is the first `freq` entries of some descending listing of all counts, None merged in. */
  ghost predicate MostCommon<T(!new)>(out: seq<Shown<T>>, entries: seq<Entry<T>>, nulls: nat, freq: nat) {
    exists s :: Descending(s) && multiset(s) == multiset(entries) && out == Take(Merged(s, nulls), freq)
  }

  // ---- the merged listing ----

  lemma {:induction false} AllAt<T>(s: seq<Entry<T>>, k: nat)
    requires k < |s|
    ensures All(s)[k] == Value(s[k])
  {
    if k > 0 { AllAt(s[1..], k - 1); }
  }

  /** The merged listing is descending too, None counting as the number of nulls and standing last of
      its equals. */
  lemma {:induction false} MergedDescending<T>(s: seq<Entry<T>>, nulls: nat, i: nat, j: nat)
    requires Descending(s) && i < j < |Merged(s, nulls)|
    ensures var r := Merged(s, nulls);
      CountOf(r[i]) >= CountOf(r[j]) && (r[i].NoneValue? ==> r[j].Value? && nulls > CountOf(r[j]))
  {
    var r := Merged(s, nulls);
    if nulls == 0 {
      AllAt(s, i);
      AllAt(s, j);
    } else if s != [] && s[0].count >= nulls {
      if i > 0 {
        MergedDescending(s[1..], nulls, i - 1, j - 1);
      } else {
        assert r[j] == Merged(s[1..], nulls)[j - 1];
        MergedBound(s[1..], nulls, j - 1, s[0].count);
      }
    } else if s != [] {
      AllAt(s, j - 1);
      if i > 0 { AllAt(s, i - 1); }
    }
  }

  lemma {:induction false} MergedBound<T>(s: seq<Entry<T>>, nulls: nat, j: nat, bound: nat)
    requires (forall k :: 0 <= k < |s| ==> s[k].count <= bound) && nulls <= bound && j < |Merged(s, nulls)|
    ensures CountOf(Merged(s, nulls)[j]) <= bound
  {
    if nulls == 0 {
      AllAt(s, j);
    } else if s != [] && s[0].count >= nulls {
      if j > 0 { MergedBound(s[1..], nulls, j - 1, bound); }
    } else if s != [] && j > 0 {
      AllAt(s, j - 1);
    }
  }

  /** The listing of all entries has each in its place. */
  lemma {:induction false} AllValues<T>(s: seq<Entry<T>>)
    ensures forall k :: 0 <= k < |s| ==> All(s)[k] == Value(s[k])
  {
    hide All;
    forall k | 0 <= k < |s|
      ensures All(s)[k] == Value(s[k])
    {
      AllAt(s, k);
    }
  }

  ghost function NoneContents<T>(nulls: nat): multiset<Shown<T>> {
    if nulls > 0 then multiset{NoneValue(nulls)} else multiset{}
  }

  lemma {:induction false} InFront<T>(x: T, s: seq<T>, t: seq<T>, m: multiset<T>)
    requires multiset(s) == multiset(t) + m
    ensures multiset([x] + s) == multiset([x] + t) + m
  {
    Head(x, s);
    Head(x, t);
  }

  /** Nothing is lost or repeated: the merged listing is every entry once, and None once if there are nulls. */
  lemma {:induction false} MergedContents<T>(s: seq<Entry<T>>, nulls: nat)
    ensures multiset(Merged(s, nulls)) == multiset(All(s)) + NoneContents(nulls)
  {
    if nulls == 0 {
      hide All;
    } else if s == [] {
      NothingMerged<T>(nulls);
    } else if s[0].count >= nulls {
      var rest := s[1..];
      MergedContents(rest, nulls);
      assert Merged(s, nulls) == [Value(s[0])] + Merged(rest, nulls) && All(s) == [Value(s[0])] + All(rest);
      hide Merged, All, NoneContents;
      InFront(Value(s[0]), Merged(rest, nulls), All(rest), NoneContents(nulls));
    } else {
      hide All;
      var none: Shown<T> := NoneValue(nulls);
      Head(none, All(s));
    }
  }

  lemma {:induction false} NothingMerged<T>(nulls: nat)
    requires nulls > 0
    ensures Merged<T>([], nulls) == [NoneValue(nulls)] && All<T>([]) == []
  {
  }

  lemma {:induction false} AllNext<T>(s: seq<Entry<T>>, e: Entry<T>)
    ensures All(s + [e]) == All(s) + [Value(e)]
  {
    if s != [] {
      assert (s + [e])[1..] == s[1..] + [e];
      AllNext(s[1..], e);
    }
  }

  /** Every count of `s` is at least the number of nulls. */
  ghost predicate High<T>(s: seq<Entry<T>>, nulls: nat) { forall k :: 0 <= k < |s| ==> s[k].count >= nulls }

  lemma {:induction false} MergedHigh<T>(s: seq<Entry<T>>, nulls: nat)
    requires High(s, nulls)
    ensures Merged(s, nulls) == All(s) + if nulls > 0 then [NoneValue(nulls)] else []
  {
    if s != [] { MergedHigh(s[1..], nulls); }
  }

  lemma {:induction false} MergedNext<T>(s: seq<Entry<T>>, nulls: nat, e: Entry<T>)
    requires e.count < nulls
    ensures Merged(s + [e], nulls) == Merged(s, nulls) + [Value(e)]
  {
    var t := s + [e];
    if s == [] {
      assert t == [e] && All(t) == [Value(e)] + All(t[1..]);
    } else {
      assert t[1..] == s[1..] + [e] && t[0] == s[0];
      if s[0].count >= nulls {
        MergedNext(s[1..], nulls, e);
      } else {
        AllNext(s, e);
      }
    }
  }

  /** A longer listing only adds behind the entries that are kept. */
  lemma {:induction false} MergedPrefix<T>(s: seq<Entry<T>>, n: nat, nulls: nat)
    requires n <= |s|
    ensures Merged(s, nulls)[..n] == Merged(s[..n], nulls)[..n]
  {
    if n > 0 {
      var p := s[..n];
      assert p[1..] == s[1..][..n - 1] && p[0] == s[0];
      if nulls == 0 {
        AllPrefix(s, n);
        AllPrefix(p, n);
        assert p[..n] == p;
      } else if s[0].count >= nulls {
        MergedPrefix(s[1..], n - 1, nulls);
        HeadPrefix(Value(s[0]), Merged(s[1..], nulls), n);
        HeadPrefix(Value(s[0]), Merged(p[1..], nulls), n);
      } else {
        AllPrefix(s, n - 1);
        AllPrefix(p, n - 1);
        HeadPrefix(NoneValue(nulls), All(s), n);
        HeadPrefix(NoneValue(nulls), All(p), n);
        assert p[..n - 1] == s[..n - 1];
      }
    }
  }

  lemma {:induction false} HeadPrefix<T>(x: T, s: seq<T>, n: nat)
    requires 0 < n <= |s| + 1
    ensures ([x] + s)[..n] == [x] + s[..n - 1]
  {
  }

  lemma {:induction false} AllPrefix<T>(s: seq<Entry<T>>, n: nat)
    requires n <= |s|
    ensures All(s)[..n] == All(s[..n])
  {
    if n > 0 {
      assert s[..n][1..] == s[1..][..n - 1];
      AllPrefix(s[1..], n - 1);
    }
  }

  // ---- keeping the most common ----

  function Least(a: nat, b: nat): nat { if a <= b then a else b }

  /** More occurrences come first. */
  function Key<T>(e: Entry<T>): Rank { Finite(-(e.count as real)) }

  /** `vec` holds the `n` most common entries of `listing`, the rest being empty slots. */
  ghost predicate Keeps<T>(vec: seq<Entry<T>>, freq: nat, listing: seq<Entry<T>>) {
    var n := Least(|listing|, freq);
    && |vec| == freq && vec[..n] == listing[..n]
    && (forall k :: n <= k < |vec| ==> vec[k].count == 0)
    && (forall i, j :: 0 <= i < j < |listing| && i < n ==> listing[i].count >= listing[j].count)
  }

  /** `prepare_mcv_vec`: the order of the map's entries is whatever the hash table gives. */
  method PrepareVec<T>(entries: seq<Entry<T>>, freq: nat, blank: T)
    returns (vec: seq<Entry<T>>, ghost listing: seq<Entry<T>>)
    ensures |vec| == freq
    ensures Keeps(vec, freq, listing) && multiset(listing) == multiset(entries)
  {
    var v := new Entry<T>[|entries|](i requires 0 <= i < |entries| => entries[i]);
    assert v[..] == entries;
    var n := Least(v.Length, freq);
    PartialSort(v, n, Key);
    listing := v[..];
    assert forall i, j :: 0 <= i < j < |listing| && i < n ==> Leq(Key(listing[i]), Key(listing[j]));
    vec := v[..n];
    while |vec| < freq
      invariant n <= |vec| <= freq && vec[..n] == v[..n] && forall k :: n <= k < |vec| ==> vec[k].count == 0
    {
      vec := vec + [Entry(blank, 0)];
    }
  }

  // ---- printing ----

  /** What the loop of `mcv` has printed after the entries `p`. */
  ghost predicate Printed<T>(out: seq<Shown<T>>, p: seq<Entry<T>>, nulls: nat, freq: nat, nonePrinted: bool) {
    if nonePrinted then !High(p, nulls) && out == Take(Merged(p, nulls), freq)
    else High(p, nulls) && out == All(p)
  }

  lemma {:induction false} TakeNext<T>(s: seq<T>, x: T, n: nat)
    ensures Take(s + [x], n) == if |Take(s, n)| < n then Take(s, n) + [x] else Take(s, n)
  {
  }

  lemma {:induction false} PrintedNext<T>(out: seq<Shown<T>>, p: seq<Entry<T>>, nulls: nat, freq: nat,
                                          nonePrinted: bool, e: Entry<T>)
    requires Printed(out, p, nulls, freq, nonePrinted) && |p| < freq
    ensures e.count >= nulls && !nonePrinted ==> Printed(out + [Value(e)], p + [e], nulls, freq, false)
    ensures e.count < nulls ==>
      var out1 := if nonePrinted then out else out + [NoneValue(nulls)];
      Printed(if |out1| < freq then out1 + [Value(e)] else out1, p + [e], nulls, freq, true)
  {
    AllNext(p, e);
    assert (p + [e])[|p|] == e;
    if e.count < nulls {
      MergedNext(p, nulls, e);
      if !nonePrinted { MergedHigh(p, nulls); }
      var out1 := if nonePrinted then out else out + [NoneValue(nulls)];
      assert out1 == Take(Merged(p, nulls), freq);
      TakeNext(Merged(p, nulls), Value(e), freq);
      if nonePrinted {
        var k :| 0 <= k < |p| && p[k].count < nulls;
        assert (p + [e])[k].count < nulls;
      }
    }
  }

  /** `mcv` over the slots kept; the entries of the map number `mapSize`. */
  method PrintVec<T>(vec: seq<Entry<T>>, mapSize: nat, nulls: nat, freq: nat, ghost listing: seq<Entry<T>>)
    returns (out: seq<Shown<T>>)
    requires Keeps(vec, freq, listing) && |listing| == mapSize
    requires forall k :: 0 <= k < |listing| ==> listing[k].count > 0
    ensures out == if mapSize == 0 && nulls > 0 then [NoneValue(nulls)] else Take(Merged(listing, nulls), freq)
  {
    hide All, Merged, Take, High, Printed;
    if mapSize == 0 && nulls > 0 {
      return [NoneValue(nulls)];
    }
    ghost var n := Least(|listing|, freq);
    var nonePrinted, numPrinted := false, 0;
    out := [];
    NothingPrinted<T>(nulls, freq);
    assert listing[..0] == [];
    for i := 0 to |vec|
      invariant numPrinted == |out|
      invariant Printed(out, listing[..Least(i, n)], nulls, freq, nonePrinted)
    {
      var e := vec[i];
      if i < n {
        assert e == vec[..n][i] == listing[..n][i] == listing[i];
        assert listing[..i + 1] == listing[..i] + [e];
        HighNext(listing, i, nulls, out, freq, nonePrinted);
        PrintedNext(out, listing[..i], nulls, freq, nonePrinted, e);
      }
      if e.count != 0 {
        if e.count >= nulls {
          out, numPrinted := out + [Value(e)], numPrinted + 1;
        } else {
          if !nonePrinted {
            out, numPrinted := out + [NoneValue(nulls)], numPrinted + 1;
            nonePrinted := true;
          }
          if numPrinted < freq {
            out, numPrinted := out + [Value(e)], numPrinted + 1;
          }
        }
      }
    }
    PrintedAll(out, listing, nulls, freq, nonePrinted);
    if numPrinted != freq && !nonePrinted && nulls > 0 {
      out := out + [NoneValue(nulls)];
    }
  }

  lemma {:induction false} NothingPrinted<T>(nulls: nat, freq: nat)
    ensures Printed<T>([], [], nulls, freq, false)
  {
  }

  /** Once None is printed, no later count reaches the number of nulls. */
  lemma {:induction false} HighNext<T>(s: seq<Entry<T>>, i: nat, nulls: nat, out: seq<Shown<T>>, freq: nat,
      nonePrinted: bool)
    requires i < |s| && (forall k :: 0 <= k < i ==> s[k].count >= s[i].count)
    requires Printed(out, s[..i], nulls, freq, nonePrinted)
    ensures s[i].count >= nulls ==> !nonePrinted
  {
    if nonePrinted {
      var k :| 0 <= k < i && s[..i][k].count < nulls;
    }
  }

  lemma {:induction false} PrintedAll<T>(out: seq<Shown<T>>, s: seq<Entry<T>>, nulls: nat, freq: nat, nonePrinted: bool)
    requires Printed(out, s[..Least(|s|, freq)], nulls, freq, nonePrinted)
    ensures Take(Merged(s, nulls), freq)
      == if |out| != freq && !nonePrinted && nulls > 0 then out + [NoneValue(nulls)] else out
  {
    var n := Least(|s|, freq);
    var p := s[..n];
    if !nonePrinted { MergedHigh(p, nulls); }
    if freq < |s| {
      MergedPrefix(s, freq, nulls);
    } else {
      assert p == s;
    }
  }

  lemma {:induction false} Greatest<T>(s: seq<Entry<T>>, n: nat) returns (b: nat)
    requires n < |s|
    ensures n <= b < |s| && forall k :: n <= k < |s| ==> s[k].count <= s[b].count
    decreases |s| - n
  {
    b := n;
    if n + 1 < |s| {
      var c := Greatest(s, n + 1);
      if s[c].count > s[n].count { b := c; }
    }
  }

  /** What a partly sorted listing shows is what a fully sorted one would. */
  lemma {:induction false} CompleteListing<T>(s: seq<Entry<T>>, n: nat) returns (t: seq<Entry<T>>)
    requires n <= |s| && forall i, j :: 0 <= i < j < |s| && i < n ==> s[i].count >= s[j].count
    ensures Descending(t) && multiset(t) == multiset(s) && |t| == |s| && t[..n] == s[..n]
    decreases |s| - n
  {
    if n == |s| {
      t := s;
    } else {
      var b := Greatest(s, n);
      var r := Swapped(s, n, b);
      SwappedContents(s, n, b);
      SwappedLeads(s, n, b);
      t := CompleteListing(r, n + 1);
      assert t[..n] == t[..n + 1][..n] == r[..n];
    }
  }

  lemma {:induction false} SwappedLeads<T>(s: seq<Entry<T>>, n: nat, b: nat)
    requires n <= b < |s| && forall i, j :: 0 <= i < j < |s| && i < n ==> s[i].count >= s[j].count
    requires forall k :: n <= k < |s| ==> s[k].count <= s[b].count
    ensures var r := Swapped(s, n, b);
      (forall i, j :: 0 <= i < j < |r| && i < n + 1 ==> r[i].count >= r[j].count) && r[..n] == s[..n]
  {
    var r := Swapped(s, n, b);
    hide Swapped;
    forall i, j | 0 <= i < j < |r| && i < n + 1
      ensures r[i].count >= r[j].count
    {
      var j' := if j == b then n else if j == n then b else j;
      assert r[j] == s[j'];
    }
  }

  /** The most common values of a column with `nulls` nulls: the first `freq` of the merged listing of
      all counts, except that None is printed for a column of nulls alone even if `freq` is 0. */
  method MostCommonValues<T(!new)>(entries: seq<Entry<T>>, nulls: nat, freq: nat, blank: T) returns (out: seq<Shown<T>>)
    requires forall k :: 0 <= k < |entries| ==> entries[k].count > 0
    ensures MostCommon(out, entries, nulls, freq) <==> !(freq == 0 && entries == [] && nulls > 0)
    ensures freq == 0 && entries == [] && nulls > 0 ==> out == [NoneValue(nulls)]
    ensures |out| <= freq || (freq == 0 && entries == [] && nulls > 0)
  {
    var vec;
    ghost var listing;
    vec, listing := PrepareVec(entries, freq, blank);
    SameEntries(entries, listing);
    out := PrintVec(vec, |entries|, nulls, freq, listing);
    var n := Least(|listing|, freq);
    ghost var s := CompleteListing(listing, n);
    hide Merged;
    SameEntries(entries, s);
    SameStart(s, listing, freq, nulls);
    assert multiset(s) == multiset(entries);
    if entries == [] && nulls > 0 {
      NothingMerged<T>(nulls);
      assert s == [];
    }
  }

  lemma {:induction false} SameEntries<T>(s: seq<Entry<T>>, t: seq<Entry<T>>)
    requires multiset(s) == multiset(t) && forall k :: 0 <= k < |s| ==> s[k].count > 0
    ensures |s| == |t| && forall k :: 0 <= k < |t| ==> t[k].count > 0
  {
    assert |s| == |multiset(s)| == |multiset(t)| == |t|;
    forall k | 0 <= k < |t|
      ensures t[k].count > 0
    {
      assert t[k] in multiset(s);
    }
  }

  lemma {:induction false} SameStart<T>(s: seq<Entry<T>>, t: seq<Entry<T>>, freq: nat, nulls: nat)
    requires |s| == |t| && s[..Least(|s|, freq)] == t[..Least(|s|, freq)]
    ensures Take(Merged(s, nulls), freq) == Take(Merged(t, nulls), freq)
  {
    if freq < |s| {
      MergedPrefix(s, freq, nulls);
      MergedPrefix(t, freq, nulls);
    } else {
      assert s == s[..|s|] && t == t[..|s|];
    }
  }

  // ---- what is shown, spelled out ----

  /** As many entries are shown as asked for, or all; what is not shown is no more common than anything shown. */
  lemma {:induction false} NothingCommoner<T(!new)>(out: seq<Shown<T>>, entries: seq<Entry<T>>, nulls: nat, freq: nat,
      e: Entry<T>, k: nat)
    requires MostCommon(out, entries, nulls, freq) && k < |out|
    ensures var all := |entries| + if nulls > 0 then 1 else 0; |out| == if freq < all then freq else all
    ensures e in entries && Value(e) !in out ==> CountOf(out[k]) >= e.count
    ensures nulls > 0 && NoneValue(nulls) !in out ==> CountOf(out[k]) >= nulls
  {
    hide Merged, Descending;
    var s :| Descending(s) && multiset(s) == multiset(entries) && out == Take(Merged(s, nulls), freq);
    SameSize(s, entries);
    var r := Merged(s, nulls);
    assert out[k] == r[k];
    if e in entries && Value(e) !in out {
      assert e in multiset(entries);
      var i := EntryAt(s, e);
      var j := MergedAt(s, nulls, i);
      LaterThanShown(r, out, freq, j);
      MergedDescending(s, nulls, k, j);
    }
    if nulls > 0 && NoneValue(nulls) !in out {
      var j := NoneAt(s, nulls);
      LaterThanShown(r, out, freq, j);
      MergedDescending(s, nulls, k, j);
    }
  }

  lemma {:induction false} LaterThanShown<T>(r: seq<Shown<T>>, out: seq<Shown<T>>, freq: nat, j: nat)
    requires out == Take(r, freq) && j < |r| && r[j] !in out
    ensures j >= |out|
  {
    assert forall i :: 0 <= i < |out| ==> out[i] == r[i];
  }

  lemma {:induction false} EntryAt<T>(s: seq<Entry<T>>, e: Entry<T>) returns (i: nat)
    requires e in multiset(s)
    ensures i < |s| && s[i] == e
  {
    i :| 0 <= i < |s| && s[i] == e;
  }

  /** Every entry is in the merged listing, and None. */
  lemma {:induction false} MergedAt<T>(s: seq<Entry<T>>, nulls: nat, i: nat) returns (j: nat)
    requires i < |s|
    ensures j < |Merged(s, nulls)| && Merged(s, nulls)[j] == Value(s[i])
  {
    if nulls == 0 {
      AllAt(s, i);
      j := i;
    } else if s[0].count >= nulls {
      if i == 0 { j := 0; } else {
        j := MergedAt(s[1..], nulls, i - 1);
        j := j + 1;
      }
    } else {
      AllAt(s, i);
      j := i + 1;
    }
  }

  lemma {:induction false} NoneAt<T>(s: seq<Entry<T>>, nulls: nat) returns (j: nat)
    requires nulls > 0
    ensures j < |Merged(s, nulls)| && Merged(s, nulls)[j] == NoneValue(nulls)
  {
    j := 0;
    if s != [] && s[0].count >= nulls {
      j := NoneAt(s[1..], nulls);
      j := j + 1;
    }
  }
}
