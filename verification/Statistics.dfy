/**
 The whole of `prepare` for a number column (suite/csvStat.cpp): the one pass, the median, and the listing
 of the most common values made from the counts.
 */
module Statistics {
  import opened Text
  import opened Median
  import opened Moments
  import opened Mcv
  import opened Contents

  /** The entries of the map of counts, in whatever order. */
  ghost predicate ItemsOf(entries: seq<Entry<real>>, counts: map<real, nat>) {
    && (forall i, j :: 0 <= i < j < |entries| ==> entries[i].value != entries[j].value)
    && (forall i :: 0 <= i < |entries| ==> entries[i].value in counts && entries[i].count == counts[entries[i].value])
    && (forall x :: x in counts ==> Entry(x, counts[x]) in entries)
  }

  /** `v(mcv_map.begin(), mcv_map.end())` */
  method Items(counts: map<real, nat>) returns (entries: seq<Entry<real>>)
    ensures ItemsOf(entries, counts)
  {
    entries := [];
    var left := counts.Keys;
    while left != {}
      invariant left <= counts.Keys
      invariant forall i, j :: 0 <= i < j < |entries| ==> entries[i].value != entries[j].value
      invariant forall i :: 0 <= i < |entries| ==>
        entries[i].value in counts && entries[i].count == counts[entries[i].value] && entries[i].value !in left
      invariant forall x :: x in counts && x !in left ==> Entry(x, counts[x]) in entries
    {
      ghost var y := SomeOf(left);
      var x :| x in left;
      entries := entries + [Entry(x, counts[x])];
      left := left - {x};
    }
  }

  // ---- no value is lost between the column and the listing ----

  function Total(entries: seq<Entry<real>>): nat {
    if entries == [] then 0 else entries[0].count + Total(entries[1..])
  }

  /** The values other than `x`. */
  function Others(v: seq<real>, x: real): seq<real> {
    if v == [] then [] else (if v[0] == x then [] else [v[0]]) + Others(v[1..], x)
  }

  lemma {:induction false} OthersCount(v: seq<real>, x: real, y: real)
    ensures |Others(v, x)| + multiset(v)[x] == |v|
    ensures y != x ==> multiset(Others(v, x))[y] == multiset(v)[y]
    ensures x !in Others(v, x)
  {
    if v != [] {
      var rest := v[1..];
      OthersCount(rest, x, y);
      HeadOf(v);
      if v[0] == x {
        assert [] + Others(rest, x) == Others(rest, x);
      } else {
        Head(v[0], Others(rest, x));
      }
    }
  }

  /** The entries are the values of `v`, each once, with their numbers of occurrences. */
  ghost predicate Counts(entries: seq<Entry<real>>, v: seq<real>) {
    && (forall i, j :: 0 <= i < j < |entries| ==> entries[i].value != entries[j].value)
    && (forall i :: 0 <= i < |entries| ==> entries[i].count == multiset(v)[entries[i].value])
    && (forall x :: x in v ==> exists i :: 0 <= i < |entries| && entries[i].value == x)
  }

  /** The counts of all entries add up to the number of values. */
  lemma {:induction false} CountsTotal(entries: seq<Entry<real>>, v: seq<real>)
    requires Counts(entries, v)
    ensures Total(entries) == |v|
    decreases |entries|
  {
    if entries == [] {
      SomeValue(v);
    } else {
      var x, rest := entries[0].value, entries[1..];
      OthersCount(v, x, x);
      RestCounts(entries, v);
      CountsTotal(rest, Others(v, x));
    }
  }

  lemma {:induction false} SomeValue(v: seq<real>)
    ensures v != [] ==> exists x :: x in v
  {
    if v != [] {
      var x := v[0];
      assert x in v;
    }
  }

  lemma {:induction false} RestCounts(entries: seq<Entry<real>>, v: seq<real>)
    requires Counts(entries, v) && entries != []
    ensures Counts(entries[1..], Others(v, entries[0].value))
  {
    var x, rest := entries[0].value, entries[1..];
    var w := Others(v, x);
    hide Others;
    forall i | 0 <= i < |rest|
      ensures rest[i].count == multiset(w)[rest[i].value]
    {
      assert rest[i] == entries[i + 1];
      OthersCount(v, x, rest[i].value);
    }
    forall y | y in w
      ensures exists i :: 0 <= i < |rest| && rest[i].value == y
    {
      OthersCount(v, x, y);
      assert y in multiset(w);
      assert y != x && y in multiset(v);
      assert y in v;
      var i :| 0 <= i < |entries| && entries[i].value == y;
      assert rest[i - 1] == entries[i];
    }
  }

  lemma {:induction false} ItemsCount(entries: seq<Entry<real>>, v: seq<real>)
    requires ItemsOf(entries, Tally(v))
    ensures Counts(entries, v) && forall i :: 0 <= i < |entries| ==> entries[i].count > 0
  {
    hide Tally;
    forall i | 0 <= i < |entries|
      ensures entries[i].count == multiset(v)[entries[i].value] && entries[i].count > 0
    {
      TallyIs(v, entries[i].value);
      Occurs(v, entries[i].value);
    }
    forall x | x in v
      ensures exists i :: 0 <= i < |entries| && entries[i].value == x
    {
      TallyIs(v, x);
      var i :| 0 <= i < |entries| && entries[i] == Entry(x, Tally(v)[x]);
    }
  }

  /** The listing made from the counts of a column loses no row: its counts and the nulls add up to the rows. */
  lemma {:induction false} ListingTotal(entries: seq<Entry<real>>, cells: seq<Cell>)
    requires ItemsOf(entries, Tally(Values(cells)))
    ensures Total(entries) + (|cells| - |Values(cells)|) == |cells|
  {
    hide Tally, Values;
    ItemsCount(entries, Values(cells));
    CountsTotal(entries, Values(cells));
  }

  // ---- prepare ----

  /** `unique_values_`: the different values, and one more if there are nulls. */
  function Unique(cells: seq<Cell>): nat {
    var v := Values(cells);
    |set x | x in v| + if |v| < |cells| then 1 else 0
  }

  lemma {:induction false} TallyKeys(v: seq<real>)
    ensures Tally(v).Keys == set x | x in v
  {
    hide Tally;
    forall x: real
      ensures x in Tally(v) <==> x in v
    {
      TallyIs(v, x);
    }
  }

  /** What is shown of a column: its values and nulls, most common first. */
  ghost predicate Shows(shown: seq<Shown<real>>, cells: seq<Cell>, freq: nat) {
    exists entries :: ItemsOf(entries, Tally(Values(cells)))
      && MostCommon(shown, entries, |cells| - |Values(cells)|, freq)
  }

  /** `complete`, and the listing that `mcv` prints of it. */
  method Complete(r: Summary, freq: nat, ghost cells: seq<Cell>, noMdp: bool)
    returns (unique: nat, shown: seq<Shown<real>>)
    requires Summarises(r, cells, noMdp) && Values(cells) != []
    ensures unique == Unique(cells) && |shown| <= freq && Shows(shown, cells, freq)
  {
    ghost var v := Values(cells);
    TallyKeys(v);
    unique := |r.counts| + if r.nulls > 0 then 1 else 0;
    assert r.counts == Tally(v) && r.nulls == |cells| - |v|;
    hide Tally, Values, MostCommon, Summarises;
    var entries := Items(r.counts);
    ItemsCount(entries, v);
    assert v[0] in v;
    shown := MostCommonValues(entries, r.nulls, freq, 0.0);
  }

  /** All statistics of a column; the median is found before the listing and reorders the column. */
  method Prepare(slice: array<Cell>, noMdp: bool, freq: nat)
    returns (r: Summary, median: real, unique: nat, shown: seq<Shown<real>>)
    requires Values(slice[..]) != []
    modifies slice
    ensures var cells := old(slice[..]);
      && Summarises(r, cells, noMdp) && multiset(slice[..]) == multiset(cells)
      && Sorted(Values(cells)) != [] && median == Middle(Sorted(Values(cells)))
      && unique == Unique(cells) && |shown| <= freq && Shows(shown, cells, freq)
  {
    hide Summarises, Sorted, Middle, Values, Shows, Unique;
    ghost var cells := slice[..];
    r := Accumulate(slice, noMdp);
    median := MedianOf(slice);
    unique, shown := Complete(r, freq, cells, noMdp);
  }
}
