/**
 The number of decimals that a cell's value is shown with (suite/include/reader-bridge-impl.hpp,
 `get_precision`), over exact numbers.
 */
module Precision {
  import opened Text
  import opened Decimal

  const MAX_DIGITS: nat := 14

  /** The digits of an integer part: `trunc(log10(n)) + 1`, and 1 for 0. */
  function DigitCount(n: nat): (d: nat)
    ensures d >= 1
  {
    if n < 10 then 1 else 1 + DigitCount(n / 10)
  }

  /** The zeros at the end are dropped. */
  function StripZeros(n: nat): (r: nat)
    requires n > 0
    ensures r > 0
  {
    if n % 10 == 0 then StripZeros(n / 10) else n
  }

  function Abs(x: real): real { if x < 0.0 then -x else x }

  function IntPart(x: real): nat
    requires x >= 0.0
  {
    x.Floor
  }

  function Magnitude(value: real): nat { DigitCount(IntPart(Abs(value))) }

  /** The fraction in units of the `q`-th decimal, rounded half up. */
  function RoundedFraction(value: real, q: nat): (r: nat)
    ensures r <= Pow10(q)
  {
    var frac := Abs(value) - IntPart(Abs(value)) as real;
    FractionBound(frac, TenTo(q));
    (Times(TenTo(q), frac) + 0.5).Floor
  }

  lemma {:induction false} FractionBound(frac: real, p: real)
    requires 0.0 <= frac < 1.0 && p >= 1.0
    ensures 0.0 <= Times(p, frac) < p
  {
    assert p * frac <= p * 1.0;
    assert p * (1.0 - frac) > 0.0;
  }

  /** `get_precision` */
  function Precision(value: real): nat {
    var magnitude := Magnitude(value);
    if magnitude >= MAX_DIGITS then 0
    else
      var q := MAX_DIGITS - magnitude;
      DigitCount(StripZeros(Pow10(q) + RoundedFraction(value, q))) - 1
  }

  method GetPrecision(value: real) returns (scale: nat)
    ensures scale == Precision(value)
  {
    var intPart := IntPart(Abs(value));
    var magnitude := DigitCount(intPart);
    if magnitude >= MAX_DIGITS {
      return 0;
    }
    var q := MAX_DIGITS - magnitude;
    hide StripZeros, DigitCount;
    var fracDigits := Pow10(q) + RoundedFraction(value, q);
    ghost var all := fracDigits;
    while fracDigits % 10 == 0
      invariant fracDigits > 0 && StripZeros(fracDigits) == StripZeros(all)
      decreases fracDigits
    {
      StripStep(fracDigits);
      fracDigits := fracDigits / 10;
    }
    StripEnd(fracDigits);
    scale := DigitCount(fracDigits) - 1;
  }

  lemma {:induction false} StripStep(n: nat)
    requires n > 0 && n % 10 == 0
    ensures n / 10 > 0 && StripZeros(n / 10) == StripZeros(n)
  {
  }

  lemma {:induction false} StripEnd(n: nat)
    requires n % 10 != 0
    ensures StripZeros(n) == n
  {
  }

  // ---- what it counts ----

  /** `n` ends in at least `t` zeros, or is zero. */
  predicate Zeros(n: nat, t: nat) {
    t == 0 || (n % 10 == 0 && Zeros(n / 10, t - 1))
  }

  lemma {:induction false} ZerosDivide(n: nat, t: nat)
    ensures Zeros(n, t) <==> n % Pow10(t) == 0
  {
    if t > 0 {
      ZerosDivide(n / 10, t - 1);
      ModByTen(n, Pow10(t - 1));
    }
  }

  lemma {:induction false} ModByTen(n: nat, p: nat)
    requires p > 0
    ensures n % (10 * p) == 0 <==> n % 10 == 0 && (n / 10) % p == 0
  {
    if n % (10 * p) == 0 {
      var c := n / (10 * p);
      Apart(c, p);
      assert n == 10 * (c * p);
      ModOfProduct(c, p);
    }
    if n % 10 == 0 && (n / 10) % p == 0 {
      var c := n / 10 / p;
      assert n / 10 == c * p;
      Apart(c, p);
      ModOfProduct(c, 10 * p);
    }
  }

  lemma {:induction false} Apart(c: int, p: int)
    ensures c * (10 * p) == 10 * (c * p)
  {
  }

  lemma {:induction false} ModOfProduct(c: nat, p: nat)
    requires p > 0
    ensures (c * p) % p == 0
  {
    DivisionUnique(c * p, p, c, 0);
  }

  lemma {:induction false} DivisionUnique(n: nat, p: nat, c: nat, r: nat)
    requires p > 0 && n == c * p + r && r < p
    ensures n / p == c && n % p == r
  {
    var q, m := n / p, n % p;
    EuclidParts(n, p);
    assert c * p - q * p == m - r;
    assert c * p - q * p == (c - q) * p && q * p - c * p == (q - c) * p;
    if c > q { AtLeast(c - q, p); }
    if q > c { AtLeast(q - c, p); }
  }

  lemma {:induction false} AtLeast(d: nat, p: nat)
    requires d >= 1
    ensures d * p >= p
  {
  }

  /** `k` is the least number of decimals that shows `r` units of the `q`-th decimal. */
  ghost predicate LeastDecimals(r: nat, q: nat, k: nat) {
    k <= q && Zeros(r, q - k) && (k > 0 ==> !Zeros(r, q - k + 1))
  }

  lemma {:induction false} FewerZeros(n: nat, t: nat, u: nat)
    requires Zeros(n, t) && u <= t
    ensures Zeros(n, u)
  {
    if u > 0 { FewerZeros(n / 10, t - 1, u - 1); }
  }

  lemma {:induction false} LeastUnique(r: nat, q: nat, j: nat, k: nat)
    requires LeastDecimals(r, q, j) && LeastDecimals(r, q, k)
    ensures j == k
  {
    if j < k { FewerZeros(r, q - j, q - k + 1); }
    if k < j { FewerZeros(r, q - k, q - j + 1); }
  }

  lemma {:induction false} DigitsFrom(n: nat, q: nat)
    requires Pow10(q) <= n < 2 * Pow10(q)
    ensures DigitCount(n) == q + 1
  {
    if q > 0 { DigitsFrom(n / 10, q - 1); }
  }

  lemma {:induction false} TenthOf(p: nat, r: nat)
    ensures (10 * p + r) % 10 == r % 10
    ensures r <= 10 * p ==> r / 10 <= p
    ensures r % 10 == 0 ==> (10 * p + r) / 10 == p + r / 10
  {
  }

  lemma {:induction false} NoPlaceLeft(r: nat)
    requires r <= 1
    ensures DigitCount(StripZeros(1 + r)) == 1
  {
  }

  lemma {:induction false} AllPlaces(r: nat, q: nat)
    requires r % 10 != 0 && r <= Pow10(q) && Pow10(q) % 10 == 0
    ensures DigitCount(StripZeros(Pow10(q) + r)) == q + 1
  {
    var n := Pow10(q) + r;
    assert n % 10 != 0;
    StripEnd(n);
    DigitsFrom(n, q);
  }

  lemma {:induction false} StrippedDigits(r: nat, q: nat)
    requires r <= Pow10(q)
    ensures LeastDecimals(r, q, DigitCount(StripZeros(Pow10(q) + r)) - 1)
  {
    if q == 0 {
      NoPlaceLeft(r);
    } else {
      var p, n := Pow10(q - 1), Pow10(q) + r;
      assert Pow10(q) == 10 * p;
      TenthOf(p, r);
      hide Pow10, DigitCount;
      if r % 10 == 0 {
        StripStep(n);
        hide StripZeros, LeastDecimals;
        StrippedDigits(r / 10, q - 1);
        OnePlaceMore(r, q, DigitCount(StripZeros(n)) - 1);
      } else {
        hide StripZeros;
        AllPlaces(r, q);
        assert Zeros(r, 0) && !Zeros(r, 1);
      }
    }
  }

  lemma {:induction false} OnePlaceMore(r: nat, q: nat, k: nat)
    requires q > 0 && r % 10 == 0 && LeastDecimals(r / 10, q - 1, k)
    ensures LeastDecimals(r, q, k)
  {
    assert Zeros(r, q - k) == Zeros(r / 10, q - 1 - k);
    assert k > 0 ==> Zeros(r, q - k + 1) == Zeros(r / 10, q - 1 - k + 1);
  }

  /** A value with `k` decimals, the last one not zero: `a` units of the `k`-th decimal. */
  ghost predicate HasDecimals(value: real, a: nat, k: nat) {
    Times(Abs(value), TenTo(k)) == a as real && (k > 0 ==> a % 10 != 0)
  }

  lemma {:induction false} PowersAdd(k: nat, t: nat)
    ensures Pow10(k + t) == Pow10(t) * Pow10(k)
  {
    if t > 0 {
      PowersAdd(k, t - 1);
      assert Pow10(k + t) == 10 * Pow10(k + t - 1);
      Scale(Pow10(t - 1), Pow10(k));
    }
  }

  lemma {:induction false} Scale(p: nat, q: nat)
    ensures 10 * (p * q) == (10 * p) * q
  {
  }

  lemma {:induction false} ZerosOfProduct(f: nat, t: nat)
    ensures Zeros(f * Pow10(t), t) && (Zeros(f * Pow10(t), t + 1) <==> f % 10 == 0)
  {
    if t == 0 {
      assert Pow10(0) == 1 && f * 1 == f;
      assert Zeros(f, 1) <==> f % 10 == 0;
    } else {
      ZerosOfProduct(f, t - 1);
      Apart(f, Pow10(t - 1));
      assert f * Pow10(t) == 10 * (f * Pow10(t - 1));
    }
  }

  /** The parts of a value with `k` decimals. */
  lemma {:induction false} Parts(x: real, p: nat, a: nat)
    requires x >= 0.0 && p > 0 && Times(x, p as real) == a as real
    ensures IntPart(x) == a / p && Times(x - IntPart(x) as real, p as real) == (a % p) as real
  {
    var i, f := a / p, a % p;
    var y := x - i as real;
    EuclidParts(a, p);
    assert (i * p) as real == i as real * p as real;
    assert Times(y, p as real) == y * p as real == x * p as real - i as real * p as real == f as real;
    Between(y, p as real, f as real);
  }

  lemma {:induction false} EuclidParts(a: nat, p: nat)
    requires p > 0
    ensures a == a / p * p + a % p
  {
  }

  lemma {:induction false} Between(y: real, p: real, f: real)
    requires p >= 1.0 && y * p == f && 0.0 <= f < p
    ensures 0.0 <= y < 1.0
  {
    assert (1.0 - y) * p == p - f;
    Positive(1.0 - y, p);
    if f > 0.0 { Positive(y, p); }
    assert f == 0.0 ==> y == 0.0;
  }

  lemma {:induction false} Positive(y: real, p: real)
    requires p >= 1.0 && y * p > 0.0
    ensures y > 0.0
  {
  }

  lemma {:induction false} FractionExact(value: real, a: nat, k: nat, q: nat)
    requires HasDecimals(value, a, k) && k <= q
    ensures RoundedFraction(value, q) == a % Pow10(k) * Pow10(q - k)
  {
    var x, p, t := Abs(value), Pow10(k), Pow10(q - k);
    var frac, f := x - IntPart(x) as real, a % p;
    Parts(x, p, a);
    PowersAdd(k, q - k);
    hide Times, Abs, IntPart, Pow10;
    UnitsExact(frac, t, p, f, Pow10(q));
  }

  lemma {:induction false} UnitsExact(frac: real, t: nat, p: nat, f: nat, all: nat)
    requires all == t * p && Times(frac, p as real) == f as real
    ensures (Times(all as real, frac) + 0.5).Floor == f * t
  {
    hide Times;
    ProductAsReal(t, p);
    Regroup(t as real, p as real, frac);
    ProductAsReal(t, f);
    Commuted(t, f);
    FloorHalf(f * t);
  }

  lemma {:induction false} Commuted(t: nat, f: nat)
    ensures t * f == f * t
  {
  }

  lemma {:induction false} FloorHalf(n: nat)
    ensures (n as real + 0.5).Floor == n
  {
  }

  lemma {:induction false} Regroup(t: real, p: real, x: real)
    ensures Times(t * p, x) == t * Times(x, p)
  {
    assert (t * p) * x == t * (p * x);
    assert p * x == x * p;
  }

  lemma {:induction false} LastDigit(a: nat, k: nat)
    requires k > 0
    ensures (a % Pow10(k)) % 10 == a % 10
  {
    var p := Pow10(k - 1);
    assert Pow10(k) == 10 * p;
    hide Pow10;
    var c, f := a / (10 * p), a % (10 * p);
    EuclidParts(a, 10 * p);
    Apart(c, p);
    SameLastDigit(a, c * p, f);
  }

  lemma {:induction false} SameLastDigit(a: int, d: int, f: int)
    requires a == 10 * d + f
    ensures f % 10 == a % 10
  {
  }

  /** A value with M digits before the dot and exactly `k` decimals gets `k`, precisely when it has no
      decimals or M + k is at most 14. */
  lemma {:induction false} PrecisionExact(value: real, a: nat, k: nat)
    requires HasDecimals(value, a, k)
    ensures Precision(value) == k <==> k == 0 || Magnitude(value) + k <= 14
  {
    var magnitude := Magnitude(value);
    if magnitude < MAX_DIGITS {
      var q := MAX_DIGITS - magnitude;
      var r := RoundedFraction(value, q);
      StrippedDigits(r, q);
      if k <= q {
        FractionExact(value, a, k, q);
        var f := a % Pow10(k);
        ZerosOfProduct(f, q - k);
        if k > 0 { LastDigit(a, k); }
        LeastUnique(r, q, Precision(value), k);
      }
    }
  }

  /** In general: the least number of decimals of the fraction rounded to 14 - M places, and none when
      there is no such place. */
  lemma {:induction false} PrecisionMeans(value: real)
    ensures var m := Magnitude(value);
      if m >= MAX_DIGITS then Precision(value) == 0
      else LeastDecimals(RoundedFraction(value, MAX_DIGITS - m), MAX_DIGITS - m, Precision(value))
  {
    hide LeastDecimals, StripZeros, DigitCount, RoundedFraction;
    var m := Magnitude(value);
    if m < MAX_DIGITS { StrippedDigits(RoundedFraction(value, MAX_DIGITS - m), MAX_DIGITS - m); }
  }

  /** An integer has no decimals. */
  lemma {:induction false} WholePrecision(n: int)
    ensures Precision(n as real) == 0
  {
    var a: nat := if n < 0 then -n else n;
    assert TenTo(0) == 1.0 && Times(a as real, 1.0) == a as real;
    hide Precision, Magnitude, Times;
    PrecisionExact(n as real, a, 0);
  }

  // ---- the number of decimals, spelled out ----

  lemma {:induction false} DigitCountIs(n: nat, m: nat)
    requires m >= 1 && n < Pow10(m) && (m > 1 ==> Pow10(m - 1) <= n)
    ensures DigitCount(n) == m
    decreases m
  {
    assert Pow10(0) == 1;
    if m > 1 {
      assert Pow10(m) == 10 * Pow10(m - 1) && Pow10(m - 1) == 10 * Pow10(m - 2);
      DigitCountIs(n / 10, m - 1);
    }
  }

  /** `x` is the absolute value, with `m` digits before the dot. */
  ghost predicate WholeDigits(value: real, x: real, m: nat) {
    && x >= 0.0 && (value == x || value == -x)
    && m >= 1 && x < Pow10(m) as real && (m > 1 ==> Pow10(m - 1) as real <= x)
  }

  lemma {:induction false} MagnitudeIs(value: real, x: real, m: nat)
    requires WholeDigits(value, x, m)
    ensures Abs(value) == x && Magnitude(value) == m
  {
    hide Pow10;
    Floored(x, Pow10(m));
    if m > 1 { Floored(x, Pow10(m - 1)); }
    DigitCountIs(x.Floor, m);
  }

  lemma {:induction false} Floored(x: real, p: nat)
    ensures x < p as real <==> x.Floor < p
  {
  }

  /** With M digits before the dot, `r` being the fraction rounded half up to 14 - M places: none from 14 digits on,
      and below them as many as are left when the zeros at the end of `r` are dropped. */
  lemma {:induction false} PrecisionSpelled(value: real, x: real, m: nat, r: nat)
    requires WholeDigits(value, x, m)
    requires m < 14 ==> r as real - 0.5 <= Times(Pow10(14 - m) as real, x - x.Floor as real) < r as real + 0.5
    ensures m >= 14 ==> Precision(value) == 0
    ensures m < 14 ==> var k := Precision(value);
      k <= 14 - m && r % Pow10(14 - m - k) == 0 && (k > 0 ==> r % Pow10(14 - m - k + 1) != 0)
  {
    hide Precision, Pow10, Times;
    MagnitudeIs(value, x, m);
    PrecisionMeans(value);
    if m < 14 {
      RoundedIs(value, 14 - m, r);
      var k := Precision(value);
      ZerosDivide(r, 14 - m - k);
      if k > 0 { ZerosDivide(r, 14 - m - k + 1); }
    }
  }

  lemma {:induction false} RoundedIs(value: real, q: nat, r: nat)
    requires var x := Abs(value); r as real - 0.5 <= Times(Pow10(q) as real, x - x.Floor as real) < r as real + 0.5
    ensures RoundedFraction(value, q) == r
  {
    hide Times;
  }
}
