/**
 The one-pass statistics of a number column (suite/csvStat.cpp, `prepare`, `mean`, `stdev`): the
 rolling mean and the rolling sum of squared deviations, against their textbook definitions.
 */
module Moments {
  import opened Text
  import opened Decimal
  import opened Median
  import opened Contents
  import Precision

  function Sum(v: seq<real>): real {
    if v == [] then 0.0 else Sum(v[..|v| - 1]) + v[|v| - 1]
  }

  function Square(x: real): real { x * x }

  /** The sum of the squared distances from `m`. */
  function Deviations(v: seq<real>, m: real): real {
    if v == [] then 0.0 else Deviations(v[..|v| - 1], m) + Square(v[|v| - 1] - m)
  }

  function Mean(v: seq<real>): real { if v == [] then 0.0 else Sum(v) / |v| as real }

  /** The square of the sample standard deviation. */
  function SampleVariance(v: seq<real>): Option<real> {
    if |v| > 1 then Some(Deviations(v, Mean(v)) / (|v| - 1) as real) else None
  }

  // ---- the rolling invariant ----

  /** What the accumulators hold after the values `v`. */
  ghost predicate Rolling(n: real, mean: real, variance: real, v: seq<real>) {
    && n == |v| as real && (v == [] ==> mean == 0.0)
    && Times(n, mean) == Sum(v) && variance == Deviations(v, mean)
  }

  lemma {:induction false} Distribute(x: real, y: real, z: real)
    ensures Times(x, y + z) == Times(x, y) + Times(x, z)
    ensures Times(y + z, x) == Times(y, x) + Times(z, x)
  {
    assert x * (y + z) == x * y + x * z;
    assert (y + z) * x == y * x + z * x;
  }

  lemma {:induction false} Next(v: seq<real>, x: real, m: real)
    ensures Sum(v + [x]) == Sum(v) + x && Deviations(v + [x], m) == Deviations(v, m) + Square(x - m)
  {
    var w := v + [x];
    assert w[..|w| - 1] == v;
  }

  lemma {:induction false} SquareOfSum(x: real, e: real)
    ensures Square(x + e) == Square(x) + 2.0 * Times(e, x) + Square(e)
  {
    assert (x + e) * (x + e) == x * (x + e) + e * (x + e);
    assert x * (x + e) == x * x + x * e;
    assert e * (x + e) == e * x + e * e;
  }

  /** Moving the centre from `m` to `m - e`. */
  lemma {:induction false} MoveCentre(v: seq<real>, m: real, e: real)
    ensures Deviations(v, m - e) == Deviations(v, m)
            + 2.0 * Times(e, Sum(v) - Times(|v| as real, m)) + Times(|v| as real, Square(e))
  {
    if v != [] {
      var n := (|v| - 1) as real;
      var w, x := v[..|v| - 1], v[|v| - 1];
      MoveCentre(w, m, e);
      SquareOfSum(x - m, e);
      var balance := Sum(w) - Times(n, m);
      hide Square, Times;
      Distribute(m, n, 1.0);
      Distribute(Square(e), n, 1.0);
      Distribute(e, balance, x - m);
      One(m);
      One(Square(e));
      assert |v| as real == n + 1.0 && x - (m - e) == x - m + e;
      assert Sum(v) - Times(|v| as real, m) == balance + (x - m);
    } else {
      NoTerms(m, e);
    }
  }

  lemma {:induction false} One(x: real)
    ensures Times(1.0, x) == x
  {
  }

  lemma {:induction false} NoTerms(m: real, e: real)
    ensures Times(0.0, m) == 0.0 && Times(e, 0.0) == 0.0 && Times(0.0, Square(e)) == 0.0
  {
  }

  /** The update of the mean and of the deviations, `n` being the new count. */
  lemma {:induction false} Update(n: real, d: real, e: real)
    requires n >= 1.0 && Times(n, e) == -d
    ensures Times(n - 1.0, Square(e)) + Square(d + e) == Times(d, d + e)
  {
    SquareOfSum(d, e);
    assert Square(d) == Times(d, d);
    Distribute(d, d, e);
    Distribute(Square(e), n, -1.0);
    assert Times(-1.0, Square(e)) == -Square(e);
    assert Times(n, Square(e)) == n * (e * e) == (n * e) * e == (-d) * e;
    assert (-d) * e == -(e * d);
    assert Times(d, e) == d * e == e * d == Times(e, d);
  }

  lemma {:induction false} DeltaShare(n: real, d: real, e: real)
    requires n >= 1.0 && e == -(d / n)
    ensures Times(n, e) == -d
  {
    assert n * (d / n) == d;
    assert n * (-(d / n)) == -(n * (d / n));
  }

  /** One more value keeps the invariant. */
  lemma {:induction false} RollingNext(n: real, mean: real, variance: real, v: seq<real>, x: real, mean': real)
    requires Rolling(n, mean, variance, v) && v != [] && mean' == mean + (x - mean) / (n + 1.0)
    ensures Rolling(n + 1.0, mean', variance + Times(x - mean, x - mean'), v + [x])
  {
    var d, e := x - mean, -((x - mean) / (n + 1.0));
    DeltaShare(n + 1.0, d, e);
    Update(n + 1.0, d, e);
    Next(v, x, mean');
    hide Square, Times, Sum, Deviations;
    MoveCentre(v, mean, e);
    NoTerms(mean, e);
    assert mean' == mean - e && d + e == x - mean';
    Distribute(n + 1.0, mean', e);
    assert mean' + e == mean;
    Distribute(mean, n, 1.0);
    One(mean);
  }

  /** The first value is its own mean. */
  lemma {:induction false} RollingFirst(x: real)
    ensures Rolling(1.0, x, 0.0, [x])
  {
    Next([], x, x);
    One(x);
    assert [] + [x] == [x];
  }

  lemma {:induction false} RollingEmpty()
    ensures Rolling(0.0, 0.0, 0.0, [])
  {
  }

  /** The accumulators are the textbook statistics. */
  lemma {:induction false} RollingMeans(n: real, mean: real, variance: real, v: seq<real>)
    requires Rolling(n, mean, variance, v)
    ensures mean == Mean(v)
    ensures SampleVariance(v) == if n > 1.0 then Some(variance / (n - 1.0)) else None
  {
    if v != [] {
      Share(n, mean, Sum(v));
    }
  }

  lemma {:induction false} Share(n: real, x: real, s: real)
    requires n >= 1.0 && Times(n, x) == s
    ensures x == s / n
  {
  }

  /** The two lambdas of the loop: the first value, and every other. */
  method Push(n: real, mean: real, variance: real, x: real, ghost v: seq<real>)
    returns (n': real, mean': real, variance': real)
    requires Rolling(n, mean, variance, v)
    ensures Rolling(n', mean', variance', v + [x])
  {
    hide Times, Sum, Deviations;
    n' := n + 1.0;
    if n == 0.0 {
      RollingFirst(x);
      RollingEmpty();
      mean', variance' := x, 0.0;
      assert v + [x] == [x];
    } else {
      var delta := x - mean;
      mean' := mean + delta / n';
      RollingNext(n, mean, variance, v, x, mean');
      variance' := variance + Times(delta, x - mean');
    }
  }

  // ---- counting values ----

  function Tally(v: seq<real>): map<real, nat> {
    if v == [] then map[] else Counted(Tally(v[..|v| - 1]), v[|v| - 1])
  }

  function Counted(counts: map<real, nat>, x: real): map<real, nat> {
    counts[x := if x in counts then counts[x] + 1 else 1]
  }

  lemma {:induction false} TallyNext(v: seq<real>, x: real)
    ensures Tally(v + [x]) == Counted(Tally(v), x)
  {
    var w := v + [x];
    assert w[..|w| - 1] == v;
  }

  /** Every value of the column has its number of occurrences, and nothing else has an entry. */
  lemma {:induction false} TallyIs(v: seq<real>, x: real)
    ensures x in Tally(v) <==> x in v
    ensures x in v ==> Tally(v)[x] == multiset(v)[x]
  {
    if v != [] {
      TallyIs(v[..|v| - 1], x);
      Joined(v[..|v| - 1], [v[|v| - 1]]);
      assert v == v[..|v| - 1] + [v[|v| - 1]];
      Occurs(v[..|v| - 1], x);
    }
  }

  lemma {:induction false} Occurs(v: seq<real>, x: real)
    ensures x in v <==> multiset(v)[x] > 0
  {
  }

  // ---- the column ----

  lemma {:induction false} ValuesNext(cells: seq<Cell>, c: Cell)
    ensures Values(cells + [c]) == Values(cells) + if c.Null? then [] else [c.value]
  {
    var s := cells + [c];
    if cells != [] {
      assert s[1..] == cells[1..] + [c] && s[0] == cells[0];
      ValuesNext(cells[1..], c);
    } else {
      assert s[1..] == [];
    }
  }

  lemma {:induction false} Prefix<T>(a: array<T>, i: nat)
    requires i < a.Length
    ensures a[..i + 1] == a[..i] + [a[i]]
  {
  }

  ghost predicate Least(v: seq<real>, m: Option<real>) {
    (m.None? <==> v == []) && (m.Some? ==> m.value in v && forall i :: 0 <= i < |v| ==> m.value <= v[i])
  }

  ghost predicate Greatest(v: seq<real>, m: Option<real>) {
    (m.None? <==> v == []) && (m.Some? ==> m.value in v && forall i :: 0 <= i < |v| ==> v[i] <= m.value)
  }

  lemma {:induction false} ExtremesNext(v: seq<real>, low: Option<real>, high: Option<real>, x: real)
    requires Least(v, low) && Greatest(v, high)
    ensures Least(v + [x], Some(if low.Some? && low.value <= x then low.value else x))
    ensures Greatest(v + [x], Some(if high.Some? && x <= high.value then high.value else x))
  {
  }

  /** The greatest number of decimals among the values. */
  function MostDecimals(v: seq<real>): nat {
    if v == [] then 0 else Max(MostDecimals(v[..|v| - 1]), Precision.Precision(v[|v| - 1]))
  }

  /** It is that of some value and not below that of any, and integers do not count. */
  lemma {:induction false} MostDecimalsIs(v: seq<real>)
    ensures forall i :: 0 <= i < |v| ==> Precision.Precision(v[i]) <= MostDecimals(v)
    ensures MostDecimals(v) == 0 || exists i :: 0 <= i < |v| && Precision.Precision(v[i]) == MostDecimals(v)
    ensures (forall i :: 0 <= i < |v| ==> v[i] == v[i].Floor as real) ==> MostDecimals(v) == 0
  {
    hide Precision.Precision;
    if v != [] {
      var front, x := v[..|v| - 1], v[|v| - 1];
      MostDecimalsIs(front);
      assert forall i :: 0 <= i < |front| ==> front[i] == v[i];
      Precision.WholePrecision(x.Floor);
    }
  }

  lemma {:induction false} MostDecimalsNext(v: seq<real>, x: real)
    ensures MostDecimals(v + [x]) == Max(MostDecimals(v), Precision.Precision(x))
  {
    var w := v + [x];
    assert w[..|w| - 1] == v;
    hide Precision.Precision;
  }

  datatype Summary = Summary(
    smallest: Option<real>, largest: Option<real>, sum: real, mean: real, variance: Option<real>,
    counts: map<real, nat>, nulls: nat, nonNulls: nat, mdp: nat)

  /** The statistics of the values of a column, each by its own definition; the decimals are not counted with
      --no-mdp. */
  ghost predicate Summarises(r: Summary, cells: seq<Cell>, noMdp: bool) {
    var v := Values(cells);
    && r.mdp == (if noMdp then 0 else MostDecimals(v))
    && Least(v, r.smallest) && Greatest(v, r.largest) && r.sum == Sum(v)
    && r.mean == Mean(v) && r.variance == SampleVariance(v)
    && r.counts == Tally(v) && r.nonNulls == |v| && r.nulls == |cells| - |v|
  }

  /** The loop of `prepare`. */
  method Accumulate(slice: array<Cell>, noMdp: bool) returns (r: Summary)
    ensures Summarises(r, slice[..], noMdp)
  {
    hide Times, Sum, Deviations, Mean, SampleVariance, Rolling, Tally, Counted, Least, Greatest, Values, MostDecimals;
    hide Precision.Precision;
    var n, mean, variance, sum := 0.0, 0.0, 0.0, 0.0;
    var low, high := None, None;
    var counts, nulls, nonNulls, mdp := map[], 0, 0, 0;
    ghost var v := [];
    Start();
    for i := 0 to slice.Length
      invariant v == Values(slice[..i]) && Rolling(n, mean, variance, v) && sum == Sum(v)
      invariant Least(v, low) && Greatest(v, high) && counts == Tally(v)
      invariant nonNulls == |v| && nulls == i - |v| && mdp == if noMdp then 0 else MostDecimals(v)
    {
      var c := slice[i];
      Prefix(slice, i);
      ValuesNext(slice[..i], c);
      if c.Null? {
        nulls := nulls + 1;
        assert v + [] == v;
      } else {
        var x := c.value;
        Next(v, x, 0.0);
        ExtremesNext(v, low, high, x);
        TallyNext(v, x);
        sum := sum + x;
        low := Some(if low.Some? && low.value <= x then low.value else x);
        high := Some(if high.Some? && x <= high.value then high.value else x);
        n, mean, variance := Push(n, mean, variance, x, v);
        counts := Count(counts, x);
        nonNulls := nonNulls + 1;
        MostDecimalsNext(v, x);
        mdp := if noMdp then 0 else Max(Precision.Precision(x), mdp);
        v := v + [x];
      }
    }
    assert slice[..slice.Length] == slice[..];
    RollingMeans(n, mean, variance, v);
    r := Summary(low, high, sum, mean, if n > 1.0 then Some(variance / (n - 1.0)) else None, counts,
                 nulls, nonNulls, mdp);
  }

  lemma {:induction false} Start()
    ensures Values([]) == [] && Rolling(0.0, 0.0, 0.0, []) && Sum([]) == 0.0
    ensures Least([], None) && Greatest([], None) && Tally([]) == map[] && MostDecimals([]) == 0
  {
    RollingEmpty();
  }

  /** `mcv_map_[x]++` */
  method Count(counts: map<real, nat>, x: real) returns (counts': map<real, nat>)
    ensures counts' == Counted(counts, x)
  {
    var seen := if x in counts then counts[x] else 0;
    counts' := counts[x := seen + 1];
  }

  /** The single operation `mean`. */
  method MeanOf(cells: seq<Cell>) returns (mean: real)
    ensures mean == Mean(Values(cells))
  {
    hide Times, Sum, Deviations, Mean, Rolling, Values;
    var n := 0.0;
    ghost var v, variance := [], 0.0;
    mean := 0.0;
    Start();
    for i := 0 to |cells|
      invariant v == Values(cells[..i])
      invariant Rolling(n, mean, variance, v)
    {
      ValuesNext(cells[..i], cells[i]);
      assert cells[..i + 1] == cells[..i] + [cells[i]];
      if cells[i].Num? {
        var x := cells[i].value;
        var first := n == 0.0;
        ghost var variance' := if first then 0.0 else variance + Times(x - mean, x - (mean + (x - mean) / (n + 1.0)));
        PushMean(n, mean, variance, x, v);
        mean := if first then x else mean + (x - mean) / (n + 1.0);
        n := n + 1.0;
        variance := variance';
        v := v + [x];
      } else {
        assert v + [] == v;
      }
    }
    assert cells[..|cells|] == cells;
    RollingMeans(n, mean, variance, v);
  }

  lemma {:induction false} PushMean(n: real, mean: real, variance: real, x: real, v: seq<real>)
    requires Rolling(n, mean, variance, v)
    ensures n == 0.0 ==> Rolling(n + 1.0, x, 0.0, v + [x])
    ensures n != 0.0 ==> var mean' := mean + (x - mean) / (n + 1.0);
      Rolling(n + 1.0, mean', variance + Times(x - mean, x - mean'), v + [x])
  {
    hide Times, Sum, Deviations;
    if n == 0.0 {
      RollingFirst(x);
      assert v + [x] == [x];
    } else {
      RollingNext(n, mean, variance, v, x, mean + (x - mean) / (n + 1.0));
    }
  }

  /** The single operation `stdev`, before the square root. */
  method VarianceOf(cells: seq<Cell>) returns (variance: Option<real>)
    ensures variance == SampleVariance(Values(cells))
  {
    hide Times, Sum, Deviations, Mean, SampleVariance, Rolling, Values;
    var n, mean, rolling := 0.0, 0.0, 0.0;
    ghost var v := [];
    Start();
    for i := 0 to |cells|
      invariant v == Values(cells[..i]) && Rolling(n, mean, rolling, v)
    {
      ValuesNext(cells[..i], cells[i]);
      assert cells[..i + 1] == cells[..i] + [cells[i]];
      if cells[i].Num? {
        n, mean, rolling := Push(n, mean, rolling, cells[i].value, v);
        v := v + [cells[i].value];
      } else {
        assert v + [] == v;
      }
    }
    assert cells[..|cells|] == cells;
    RollingMeans(n, mean, rolling, v);
    variance := if n > 1.0 then Some(rolling / (n - 1.0)) else None;
  }

  // ---- the statistics, spelled out ----

  lemma {:induction false} SumJoin(a: seq<real>, b: seq<real>)
    ensures Sum(a + b) == Sum(a) + Sum(b) && Sum([]) == 0.0 && forall x :: Sum([x]) == x
  {
    if b == [] {
      assert a + b == a;
    } else {
      var w, front := a + b, b[..|b| - 1];
      assert w[..|w| - 1] == a + front;
      SumJoin(a, front);
    }
    forall x: real
      ensures Sum([x]) == x
    {
      assert [x][..0] == [];
    }
  }

  function Squares(v: seq<real>): (r: seq<real>)
    ensures |r| == |v| && forall i :: 0 <= i < |v| ==> r[i] == v[i] * v[i]
  {
    seq(|v|, i requires 0 <= i < |v| => v[i] * v[i])
  }

  lemma {:induction false} SquaresFront(v: seq<real>)
    requires v != []
    ensures Squares(v) == Squares(v[..|v| - 1]) + [v[|v| - 1] * v[|v| - 1]]
  {
    var n := |v| - 1;
    var x, y := Squares(v), Squares(v[..n]) + [v[n] * v[n]];
    forall i | 0 <= i < |v|
      ensures x[i] == y[i]
    {
      if i < n { assert v[..n][i] == v[i]; }
    }
  }

  function Expanded(squares: real, sum: real, n: real, m: real): real {
    squares - 2.0 * (m * sum) + n * (m * m)
  }

  /** The sum of the squared deviations from `m`, from the sums of the values and of their squares. */
  lemma {:induction false} DeviationsAre(v: seq<real>, m: real)
    ensures Deviations(v, m) == Expanded(Sum(Squares(v)), Sum(v), |v| as real, m)
  {
    hide Expanded, Square;
    if v != [] {
      var front, x := v[..|v| - 1], v[|v| - 1];
      DeviationsAre(front, m);
      SquaresFront(v);
      hide Squares;
      Appended(front, x);
      Appended(Squares(front), x * x);
      assert v == front + [x];
      assert |v| as real == |front| as real + 1.0;
      assert Deviations(v, m) == Deviations(front, m) + Square(x - m);
      assert Sum(Squares(v)) == Sum(Squares(front)) + x * x;
      DeviationStep(Deviations(front, m), Sum(Squares(front)), Sum(front), |front| as real, x, m);
    } else {
      NoSum(v, m);
    }
  }

  lemma {:induction false} NoSum(v: seq<real>, m: real)
    requires v == []
    ensures Deviations(v, m) == Expanded(Sum(Squares(v)), Sum(v), |v| as real, m)
  {
    assert Squares(v) == [];
  }

  lemma {:induction false} Appended(v: seq<real>, x: real)
    ensures Sum(v + [x]) == Sum(v) + x
  {
    assert (v + [x])[..|v|] == v;
  }

  lemma {:induction false} DeviationStep(d: real, q: real, s: real, n: real, x: real, m: real)
    requires d == Expanded(q, s, n, m)
    ensures d + Square(x - m) == Expanded(q + x * x, s + x, n + 1.0, m)
  {
    assert Square(x - m) == x * x - 2.0 * (m * x) + m * m;
    assert m * (s + x) == m * s + m * x;
    assert (n + 1.0) * (m * m) == n * (m * m) + m * m;
  }

  /** The mean times the number of values is their sum; the sample variance times one less is the sum of the
      squares less the number of values times the square of the mean; there is none for fewer than two values. */
  lemma {:induction false} MeanAndVariance(v: seq<real>)
    ensures v != [] ==> Mean(v) * |v| as real == Sum(v)
    ensures |v| <= 1 ==> SampleVariance(v) == None
    ensures |v| >= 2 ==>
      && SampleVariance(v).Some?
      && SampleVariance(v).value * (|v| - 1) as real == Sum(Squares(v)) - |v| as real * (Mean(v) * Mean(v))
  {
    hide Sum, Squares, Deviations;
    if v != [] { Quotient(Sum(v), |v| as real); }
    if |v| >= 2 {
      DeviationsAre(v, Mean(v));
      Quotient(Deviations(v, Mean(v)), (|v| - 1) as real);
      TwiceLess(Sum(v), Mean(v), |v| as real);
    }
  }

  lemma {:induction false} Quotient(x: real, n: real)
    requires n > 0.0
    ensures x / n * n == x
  {
  }

  lemma {:induction false} TwiceLess(s: real, m: real, n: real)
    requires m * n == s
    ensures -2.0 * (m * s) + n * (m * m) == -(n * (m * m))
  {
    assert m * s == m * (m * n);
    assert m * (m * n) == n * (m * m);
  }

  /** No value lies outside of the extremes, and both are values. */
  lemma {:induction false} Extremes(r: Summary, cells: seq<Cell>, noMdp: bool, k: nat)
    requires Summarises(r, cells, noMdp) && k < |Values(cells)|
    ensures r.smallest.Some? && r.largest.Some?
    ensures r.smallest.value in Values(cells) && r.largest.value in Values(cells)
    ensures r.smallest.value <= Values(cells)[k] <= r.largest.value
  {
    hide Values, Sum, Mean, SampleVariance, Tally, MostDecimals;
  }
}
